/** ASCII models of the java.lang.String and java.lang.Character operations
    the tools rely on. Java's versions are Unicode-aware; on ASCII input they
    agree with the definitions here. */
module Text {

  import opened Wrappers

  /** Character.isWhitespace restricted to ASCII: TAB, LF, VT, FF, CR,
      the four separators 0x1C..0x1F, and SPACE. */
  predicate IsWhitespace(c: char) {
    (9 <= c as int <= 13) || (28 <= c as int <= 32)
  }

  /** String.trim drops characters whose code is at most 0x20. */
  predicate IsTrimmable(c: char) {
    c as int <= 32
  }

  predicate IsUpper(c: char) { 'A' <= c <= 'Z' }
  predicate IsLower(c: char) { 'a' <= c <= 'z' }
  predicate IsDigit(c: char) { '0' <= c <= '9' }
  predicate IsLetter(c: char) { IsUpper(c) || IsLower(c) }

  /** String.isBlank: empty or only whitespace. */
  predicate IsBlank(s: string) {
    forall i :: 0 <= i < |s| ==> IsWhitespace(s[i])
  }

  /** `s == null || s.isBlank()`, the constructors' "required" test. */
  predicate IsNullOrBlank(s: Option<string>) {
    s.None? || IsBlank(s.value)
  }

  function TrimStart(s: string): (r: string)
    ensures |r| <= |s| && r == s[|s| - |r|..]
    ensures forall k :: 0 <= k < |s| - |r| ==> IsTrimmable(s[k])
    ensures |r| > 0 ==> !IsTrimmable(r[0])
  {
    if |s| > 0 && IsTrimmable(s[0]) then TrimStart(s[1..]) else s
  }

  function TrimEnd(s: string): (r: string)
    ensures |r| <= |s| && r == s[..|r|]
    ensures forall k :: |r| <= k < |s| ==> IsTrimmable(s[k])
    ensures |r| > 0 ==> !IsTrimmable(r[|r| - 1])
  {
    if |s| > 0 && IsTrimmable(s[|s| - 1]) then TrimEnd(s[..|s| - 1]) else s
  }

  /** String.trim: the longest infix of `s` that neither starts nor ends
      with a character of code at most 0x20. */
  function Trim(s: string): (r: string)
    ensures |r| <= |s|
    ensures |r| > 0 ==> !IsTrimmable(r[0]) && !IsTrimmable(r[|r| - 1])
    ensures (forall k :: 0 <= k < |s| ==> IsTrimmable(s[k])) <==> r == []
  {
    var t := TrimStart(s);
    var r := TrimEnd(t);
    r
  }

  /** A string that starts with a kept character loses nothing at its
      start. */
  lemma TrimStartKeeps(s: string)
    requires |s| > 0 && !IsTrimmable(s[0])
    ensures TrimStart(s) == s
  {
  }

  /** A string whose last character is trimmable and whose last but one is
      not loses exactly its last character at the end. */
  lemma TrimEndDropsLast(s: string)
    requires |s| >= 2 && IsTrimmable(s[|s| - 1]) && !IsTrimmable(s[|s| - 2])
    ensures TrimEnd(s) == s[..|s| - 1]
  {
    var cut := s[..|s| - 1];
    assert cut[|cut| - 1] == s[|s| - 2];
  }

  /** After a trim, blank and empty coincide: every whitespace character is
      one that trim removes. */
  lemma TrimmedBlankIsEmpty(s: string)
    ensures IsBlank(Trim(s)) <==> Trim(s) == []
  {
    var r := Trim(s);
    if |r| > 0 {
      assert !IsWhitespace(r[0]);
    }
  }

  /** Trimming twice is the same as trimming once. */
  lemma TrimIdempotent(s: string)
    ensures Trim(Trim(s)) == Trim(s)
  {
    var r := Trim(s);
    if |r| > 0 {
      assert TrimStart(r) == r;
      assert TrimEnd(r) == r;
    }
  }

  function LowerChar(c: char): char {
    if IsUpper(c) then (c as int + 32) as char else c
  }

  /** String.toLowerCase on ASCII. */
  function Lower(s: string): (r: string)
    ensures |r| == |s|
    ensures forall i :: 0 <= i < |s| ==> r[i] == LowerChar(s[i])
  {
    seq(|s|, i requires 0 <= i < |s| => LowerChar(s[i]))
  }

  /** String.equalsIgnoreCase on ASCII. */
  predicate EqualsIgnoreCase(a: string, b: string) {
    Lower(a) == Lower(b)
  }

  predicate IsPrefix(p: string, s: string) {
    |p| <= |s| && s[..|p|] == p
  }

  /** String.contains: `n` occurs in `s` at some offset. */
  predicate Contains(s: string, n: string)
    decreases |s|
  {
    IsPrefix(n, s) || (|s| > 0 && Contains(s[1..], n))
  }

  /** `n` occurs in `s` exactly when some slice of `s` equals it. */
  lemma {:induction false} ContainsIffSlice(s: string, n: string)
    ensures Contains(s, n) <==> exists i :: 0 <= i <= |s| - |n| && IsPrefix(n, s[i..])
    decreases |s|
  {
    if IsPrefix(n, s) {
      assert s[0..] == s;
    } else if |s| > 0 {
      ContainsIffSlice(s[1..], n);
      if Contains(s[1..], n) {
        var i :| 0 <= i <= |s[1..]| - |n| && IsPrefix(n, s[1..][i..]);
        assert s[1..][i..] == s[i + 1..];
      }
      if exists i :: 0 <= i <= |s| - |n| && IsPrefix(n, s[i..]) {
        var i :| 0 <= i <= |s| - |n| && IsPrefix(n, s[i..]);
        assert i != 0 by { assert s[0..] == s; }
        assert s[1..][i - 1..] == s[i..];
      }
    }
  }

  /** Every string contains the empty string. */
  lemma ContainsEmpty(s: string)
    ensures Contains(s, "")
  {
  }
}
