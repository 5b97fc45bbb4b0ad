/** The password utilities of the password manager: the strength score, the
    "secure" threshold, random generation over a fixed alphabet, and the
    stored-entry list with its weak-password report. The random source is a
    parameter: `picks[i]` is what `SecureRandom.nextInt` returned on the
    i-th draw. The Base64 encoding of stored passwords is not modelled; an
    entry holds the password as `getDecodedPassword` returns it. */
module PasswordManager {

  import Text
  import Seqs

  const UpperChars: string := "ABCDEFGHIJKLMNOPQRSTUVWXYZ"
  const LowerChars: string := "abcdefghijklmnopqrstuvwxyz"
  const DigitChars: string := "0123456789"
  const SpecialChars: string := "!@#$%^&*()-_=+[]{};:,.<>/?"

  // ----- strength -----

  predicate HasUpper(p: string) { exists i :: 0 <= i < |p| && Text.IsUpper(p[i]) }
  predicate HasLower(p: string) { exists i :: 0 <= i < |p| && Text.IsLower(p[i]) }
  predicate HasDigit(p: string) { exists i :: 0 <= i < |p| && Text.IsDigit(p[i]) }
  predicate HasSpecial(p: string) { exists i :: 0 <= i < |p| && p[i] in SpecialChars }

  function Points(met: bool): nat { if met then 2 else 0 }

  /** The four character classes present, 0 to 4. */
  function ClassCount(p: string): (n: nat)
    ensures n <= 4
  {
    (if HasUpper(p) then 1 else 0) + (if HasLower(p) then 1 else 0)
      + (if HasDigit(p) then 1 else 0) + (if HasSpecial(p) then 1 else 0)
  }

  /** Two points at 8 characters and two more at 12: 0, 1 or 2 tiers. */
  function LengthTier(n: nat): (t: nat)
    ensures t <= 2
  {
    (if n >= 8 then 1 else 0) + (if n >= 12 then 1 else 0)
  }

  /** The score `calculateStrength` is meant to compute: two points per
      criterion met, each criterion counted once however many characters
      meet it. */
  function Strength(p: string): (r: nat)
    ensures r % 2 == 0 && r <= 12
  {
    2 * (LengthTier(|p|) + ClassCount(p))
  }

  /** Extending a scanned prefix by one character adds that character's
      classes. */
  lemma ClassesStep(p: string, i: nat)
    requires i < |p|
    ensures HasUpper(p[..i + 1]) == (HasUpper(p[..i]) || Text.IsUpper(p[i]))
    ensures HasLower(p[..i + 1]) == (HasLower(p[..i]) || Text.IsLower(p[i]))
    ensures HasDigit(p[..i + 1]) == (HasDigit(p[..i]) || Text.IsDigit(p[i]))
    ensures HasSpecial(p[..i + 1]) == (HasSpecial(p[..i]) || p[i] in SpecialChars)
  {
    var q := p[..i + 1];
    assert q == p[..i] + [p[i]];
    assert forall j :: 0 <= j < i ==> q[j] == p[..i][j];
    assert q[i] == p[i];
  }

  /** `calculateStrength`: one scan records which classes occur, then the
      points are added. */
  method CalculateStrength(pwd: string) returns (score: int)
    ensures score == Strength(pwd)
    ensures 0 <= score <= 12 && score % 2 == 0
  {
    var upper, lower, digit, special := false, false, false, false;
    var i := 0;
    while i < |pwd|
      invariant 0 <= i <= |pwd|
      invariant upper == HasUpper(pwd[..i]) && lower == HasLower(pwd[..i])
      invariant digit == HasDigit(pwd[..i]) && special == HasSpecial(pwd[..i])
    {
      ClassesStep(pwd, i);
      var c := pwd[i];
      upper := upper || Text.IsUpper(c);
      lower := lower || Text.IsLower(c);
      digit := digit || Text.IsDigit(c);
      special := special || c in SpecialChars;
      i := i + 1;
    }
    assert pwd[..i] == pwd;
    score := 0;
    if |pwd| >= 8 { score := score + 2; }
    if |pwd| >= 12 { score := score + 2; }
    if upper { score := score + 2; }
    if lower { score := score + 2; }
    if digit { score := score + 2; }
    if special { score := score + 2; }
  }

  /** `isPasswordSecure`. */
  predicate IsPasswordSecure(p: string): (b: bool)
    ensures b ==> ClassCount(p) >= 2
    ensures ClassCount(p) == 4 ==> b
  {
    Strength(p) >= 8
  }

  /** What "secure" asks for at each length: all four classes below 8
      characters, three of them from 8 to 11, two from 12 on. */
  lemma SecureByLength(p: string)
    ensures |p| < 8 ==> (IsPasswordSecure(p) <==> HasUpper(p) && HasLower(p) && HasDigit(p) && HasSpecial(p))
    ensures 8 <= |p| < 12 ==> (IsPasswordSecure(p) <==> ClassCount(p) >= 3)
    ensures |p| >= 12 ==> (IsPasswordSecure(p) <==> ClassCount(p) >= 2)
  {
  }

  /** Classes count by presence: one more character of a class already
      present, added without reaching 8 or 12 characters, leaves the score
      unchanged. */
  lemma {:induction false} RepeatedClassScoresNothing(p: string, c: char)
    requires |p| + 1 != 8 && |p| + 1 != 12
    requires Text.IsUpper(c) ==> HasUpper(p)
    requires Text.IsLower(c) ==> HasLower(p)
    requires Text.IsDigit(c) ==> HasDigit(p)
    requires c in SpecialChars ==> HasSpecial(p)
    ensures Strength(p + [c]) == Strength(p)
  {
    var q := p + [c];
    assert forall i :: 0 <= i < |p| ==> q[i] == p[i];
    assert q[|p|] == c;
    assert HasUpper(q) == HasUpper(p);
    assert HasLower(q) == HasLower(p);
    assert HasDigit(q) == HasDigit(p);
    assert HasSpecial(q) == HasSpecial(p);
  }

  // ----- generation -----

  /** The characters `generatePassword` draws from. */
  function Alphabet(includeSpecial: bool): string {
    UpperChars + LowerChars + DigitChars + (if includeSpecial then SpecialChars else "")
  }

  /** The upper-case run of the alphabet is exactly 'A'..'Z'. */
  lemma UpperCharsAreUpper()
    ensures forall c :: c in UpperChars <==> Text.IsUpper(c)
  {
    assert UpperChars == seq(26, i requires 0 <= i < 26 => ('A' as int + i) as char);
    forall c | Text.IsUpper(c) ensures c in UpperChars {
      assert c == UpperChars[c as int - 'A' as int];
    }
  }

  /** The lower-case run of the alphabet is exactly 'a'..'z'. */
  lemma LowerCharsAreLower()
    ensures forall c :: c in LowerChars <==> Text.IsLower(c)
  {
    assert LowerChars == seq(26, i requires 0 <= i < 26 => ('a' as int + i) as char);
    forall c | Text.IsLower(c) ensures c in LowerChars {
      assert c == LowerChars[c as int - 'a' as int];
    }
  }

  /** The digit run of the alphabet is exactly '0'..'9'. */
  lemma DigitCharsAreDigits()
    ensures forall c :: c in DigitChars <==> Text.IsDigit(c)
  {
    assert DigitChars == seq(10, i requires 0 <= i < 10 => ('0' as int + i) as char);
    forall c | Text.IsDigit(c) ensures c in DigitChars {
      assert c == DigitChars[c as int - '0' as int];
    }
  }

  /** The alphabet without specials is exactly the ASCII letters and
      digits. */
  lemma AlphabetIsAlphanumeric()
    ensures forall c :: c in Alphabet(false) <==> Text.IsLetter(c) || Text.IsDigit(c)
  {
    UpperCharsAreUpper();
    LowerCharsAreLower();
    DigitCharsAreDigits();
    assert Alphabet(false) == UpperChars + LowerChars + DigitChars;
  }

  /** No special character is a letter or a digit, and the two alphabets
      have 62 and 88 characters. */
  lemma SpecialsAreSeparate()
    ensures forall c :: c in SpecialChars ==> !Text.IsLetter(c) && !Text.IsDigit(c)
    ensures |Alphabet(false)| == 62 && |Alphabet(true)| == 88
  {
  }

  /** `generatePassword(length, includeSpecial)`: `length` draws from the
      alphabet; nothing for a length of zero or less. */
  method GeneratePassword(length: int, includeSpecial: bool, picks: seq<int>) returns (pwd: string)
    requires |picks| >= length
    requires forall i :: 0 <= i < |picks| ==> 0 <= picks[i] < |Alphabet(includeSpecial)|
    ensures |pwd| == (if length <= 0 then 0 else length)
    ensures forall i :: 0 <= i < |pwd| ==> pwd[i] == Alphabet(includeSpecial)[picks[i]]
    ensures forall i :: 0 <= i < |pwd| ==> pwd[i] in Alphabet(includeSpecial)
    ensures !includeSpecial ==> forall i :: 0 <= i < |pwd| ==> pwd[i] !in SpecialChars
  {
    var chars := Alphabet(includeSpecial);
    AlphabetIsAlphanumeric();
    SpecialsAreSeparate();
    pwd := "";
    var i := 0;
    while i < length
      invariant 0 <= i && (length <= 0 ==> i == 0) && (length > 0 ==> i <= length)
      invariant |pwd| == i
      invariant forall j :: 0 <= j < i ==> pwd[j] == chars[picks[j]]
    {
      pwd := pwd + [chars[picks[i]]];
      i := i + 1;
    }
  }

  // ----- stored entries -----

  datatype Entry = Entry(service: string, username: string, password: string)

  /** `addPasswordEntry`: the three lines are trimmed; a blank password is
      replaced by `generatePassword(12, true)` drawn with `picks`. */
  method AddPasswordEntry(stored: seq<Entry>, serviceLine: string, userLine: string,
                          pwdLine: string, picks: seq<int>)
    returns (stored': seq<Entry>)
    requires |picks| >= 12
    requires forall i :: 0 <= i < |picks| ==> 0 <= picks[i] < |Alphabet(true)|
    ensures |stored'| == |stored| + 1 && stored'[..|stored|] == stored
    ensures stored'[|stored|].service == Text.Trim(serviceLine)
    ensures stored'[|stored|].username == Text.Trim(userLine)
    ensures var p := stored'[|stored|].password;
      if Text.IsBlank(Text.Trim(pwdLine))
      then |p| == 12 && forall i :: 0 <= i < 12 ==> p[i] == Alphabet(true)[picks[i]]
      else p == Text.Trim(pwdLine)
  {
    var pwd := Text.Trim(pwdLine);
    if Text.IsBlank(pwd) {
      pwd := GeneratePassword(12, true, picks);
    }
    stored' := stored + [Entry(Text.Trim(serviceLine), Text.Trim(userLine), pwd)];
  }

  /** `findWeakPasswords`: the entries whose password is not secure, in the
      order they were stored. */
  function WeakEntries(stored: seq<Entry>): (weak: seq<Entry>)
    ensures Seqs.Selects(weak, stored, IsWeak)
  {
    Seqs.Filter(stored, IsWeak)
  }

  predicate IsWeak(e: Entry) {
    !IsPasswordSecure(e.password)
  }
}
