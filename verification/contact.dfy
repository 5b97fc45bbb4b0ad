/** A directory contact with its two format checks. The Java patterns are
    written out as hand-made recognisers: the phone pattern is an optional
    `+` and 7 to 15 digits; the e-mail pattern is a run of word characters,
    dots and dashes, one `@`, another such run, a dot and 2 to 6 letters. A
    null argument is `None`. */
module Contacts {

  import opened Wrappers
  import opened Text
  import Seqs

  /** The first id the static counter hands out. */
  const FirstId: int := 1

  datatype Contact = Contact(id: int, name: string, phone: string, email: string, address: string)

  datatype ContactError = NameRequired | InvalidPhone | InvalidEmail | Duplicate | NotFound

  // ----- phone -----

  predicate AllDigits(s: string) {
    forall i :: 0 <= i < |s| ==> IsDigit(s[i])
  }

  /** The language of `^\+?[0-9]{7,15}$`. */
  ghost predicate PhoneSyntax(s: string) {
    exists d :: AllDigits(d) && 7 <= |d| <= 15 && (s == d || s == ['+'] + d)
  }

  /** The recogniser: drop one leading `+`, then demand 7 to 15 digits. */
  predicate PhoneMatches(s: string) {
    var body := if |s| > 0 && s[0] == '+' then s[1..] else s;
    7 <= |body| <= 15 && AllDigits(body)
  }

  lemma PhoneMatchesIff(s: string)
    ensures PhoneMatches(s) <==> PhoneSyntax(s)
  {
    if |s| > 0 && s[0] == '+' {
      assert s == ['+'] + s[1..];
      if PhoneSyntax(s) {
        var d :| AllDigits(d) && 7 <= |d| <= 15 && (s == d || s == ['+'] + d);
        if s != d {
          assert s[1..] == d;
        }
      }
    }
  }

  /** `isValidPhone`: false for null. */
  predicate IsValidPhone(phone: Option<string>): (b: bool)
    ensures b ==> phone.Some? && 7 <= |phone.value| <= 16
    ensures b ==> forall i :: 0 < i < |phone.value| ==> IsDigit(phone.value[i])
  {
    phone.Some? && PhoneMatches(phone.value)
  }

  /** `isValidPhone` accepts exactly the non-null strings of the phone
      pattern's language. */
  lemma IsValidPhoneIff(phone: Option<string>)
    ensures IsValidPhone(phone) <==> phone.Some? && PhoneSyntax(phone.value)
  {
    if phone.Some? {
      PhoneMatchesIff(phone.value);
    }
  }

  // ----- e-mail -----

  /** A character of the class `[\w.-]`, `\w` being `[A-Za-z0-9_]`. */
  predicate IsEmailChar(c: char) {
    IsLetter(c) || IsDigit(c) || c == '_' || c == '.' || c == '-'
  }

  predicate AllEmailChars(s: string) {
    forall i :: 0 <= i < |s| ==> IsEmailChar(s[i])
  }

  predicate AllLetters(s: string) {
    forall i :: 0 <= i < |s| ==> IsLetter(s[i])
  }

  /** The language of `^[\w.-]+@[\w.-]+\.[A-Za-z]{2,6}$`. */
  ghost predicate EmailSyntax(s: string) {
    exists local, domain, tld :: IsEmailSplit(s, local, domain, tld)
  }

  /** `s` is `local@domain.tld` with each part in its character class. */
  ghost predicate IsEmailSplit(s: string, local: string, domain: string, tld: string) {
    && s == local + ['@'] + domain + ['.'] + tld
    && |local| > 0 && AllEmailChars(local)
    && |domain| > 0 && AllEmailChars(domain)
    && 2 <= |tld| <= 6 && AllLetters(tld)
  }

  /** `rest` ends with a dot, `k` letters, and has a non-empty part before
      the dot. */
  predicate TldAt(rest: string, k: nat) {
    k + 2 <= |rest| && rest[|rest| - k - 1] == '.' && AllLetters(rest[|rest| - k..])
  }

  /** The recogniser: split at the first `@`; the part before it must be a
      non-empty run of e-mail characters, the part after it a run of e-mail
      characters ending in a dot and 2 to 6 letters. */
  predicate EmailMatches(s: string) {
    match Seqs.FirstIndex(s, c => c == '@')
    case None => false
    case Some(at) =>
      var local := s[..at];
      var rest := s[at + 1..];
      && |local| > 0 && AllEmailChars(local) && AllEmailChars(rest)
      && exists k | 2 <= k <= 6 :: TldAt(rest, k)
  }

  /** Cutting `s` at an `@` and the part after it at its last dot. */
  lemma JoinAt(s: string, at: nat, domain: string, tld: string)
    requires at < |s| && s[at] == '@' && s[at + 1..] == domain + ['.'] + tld
    ensures s == s[..at] + ['@'] + domain + ['.'] + tld
  {
    assert s == s[..at] + [s[at]] + s[at + 1..];
  }

  /** The part after the `@` splits into a domain, the last dot and the
      top-level letters. */
  lemma SplitDomain(rest: string, k: nat) returns (domain: string, tld: string)
    requires AllEmailChars(rest) && 2 <= k <= 6 && TldAt(rest, k)
    ensures rest == domain + ['.'] + tld
    ensures |domain| > 0 && AllEmailChars(domain)
    ensures 2 <= |tld| <= 6 && AllLetters(tld)
  {
    domain := rest[..|rest| - k - 1];
    tld := rest[|rest| - k..];
    assert rest == domain + ['.'] + tld;
    forall i | 0 <= i < |domain| ensures IsEmailChar(domain[i]) {
      assert domain[i] == rest[i];
    }
  }

  lemma EmailMatchesImpliesSyntax(s: string)
    requires EmailMatches(s)
    ensures EmailSyntax(s)
  {
    var at := Seqs.FirstIndex(s, c => c == '@').value;
    var local := s[..at];
    var rest := s[at + 1..];
    assert |local| > 0 && AllEmailChars(local) && AllEmailChars(rest);
    var k :| 2 <= k <= 6 && TldAt(rest, k);
    var domain, tld := SplitDomain(rest, k);
    JoinAt(s, at, domain, tld);
    assert IsEmailSplit(s, local, domain, tld);
  }

  lemma EmailSyntaxImpliesMatches(s: string)
    requires EmailSyntax(s)
    ensures EmailMatches(s)
  {
    var local, domain, tld :| IsEmailSplit(s, local, domain, tld);
    var n := |local|;
    assert s[n] == '@';
    var found := Seqs.FirstIndex(s, c => c == '@');
    assert found.Some?;
    var at := found.value;
    assert at == n;
    assert s[..at] == local;
    var rest := s[at + 1..];
    assert rest == domain + ['.'] + tld;
    assert AllEmailChars(rest) by {
      forall i | 0 <= i < |rest| ensures IsEmailChar(rest[i]) {
        if i < |domain| {
          assert rest[i] == domain[i];
        } else if i > |domain| {
          assert rest[i] == tld[i - |domain| - 1];
        }
      }
    }
    assert rest[|rest| - |tld|..] == tld;
    assert TldAt(rest, |tld|);
  }

  lemma EmailMatchesIff(s: string)
    ensures EmailMatches(s) <==> EmailSyntax(s)
  {
    if EmailMatches(s) {
      EmailMatchesImpliesSyntax(s);
    }
    if EmailSyntax(s) {
      EmailSyntaxImpliesMatches(s);
    }
  }

  /** `isValidEmail`: false for null. */
  predicate IsValidEmail(email: Option<string>): (b: bool)
    ensures b ==> email.Some? && '@' in email.value && email.value[0] != '@'
  {
    email.Some? && EmailMatches(email.value)
  }

  /** `isValidEmail` accepts exactly the non-null strings of the e-mail
      pattern's language. */
  lemma IsValidEmailIff(email: Option<string>)
    ensures IsValidEmail(email) <==> email.Some? && EmailSyntax(email.value)
  {
    if email.Some? {
      EmailMatchesIff(email.value);
    }
  }

  // ----- construction and setters -----

  /** The constructor: a blank name, then the phone, then the e-mail are
      checked, and the first failure is raised. `nextId` is the value of the
      static counter, which the caller advances only on success. A null
      address is stored as the empty string. */
  function NewContact(nextId: int, name: Option<string>, phone: Option<string>,
                      email: Option<string>, address: Option<string>): (r: Result<Contact, ContactError>)
    ensures IsNullOrBlank(name) ==> r == Failure(NameRequired)
    ensures !IsNullOrBlank(name) && !IsValidPhone(phone) ==> r == Failure(InvalidPhone)
    ensures !IsNullOrBlank(name) && IsValidPhone(phone) && !IsValidEmail(email) ==> r == Failure(InvalidEmail)
    ensures r.Success? <==> !IsNullOrBlank(name) && IsValidPhone(phone) && IsValidEmail(email)
    ensures r.Success? ==> r.value == Contact(nextId, name.value, phone.value, email.value,
                                              if address.None? then "" else address.value)
  {
    if IsNullOrBlank(name) then Failure(NameRequired)
    else if !IsValidPhone(phone) then Failure(InvalidPhone)
    else if !IsValidEmail(email) then Failure(InvalidEmail)
    else Success(Contact(nextId, name.value, phone.value, email.value, address.GetOr("")))
  }

  /** `setPhone`: an invalid value is refused and the contact is kept;
      a valid one replaces the phone and nothing else. */
  function SetPhone(c: Contact, phone: Option<string>): (r: Result<Contact, ContactError>)
    ensures r.Failure? <==> !IsValidPhone(phone)
    ensures r.Failure? ==> r.error == InvalidPhone
    ensures r.Success? ==> r.value == c.(phone := phone.value)
  {
    if !IsValidPhone(phone) then Failure(InvalidPhone) else Success(c.(phone := phone.value))
  }

  /** `setEmail`, likewise for the e-mail. */
  function SetEmail(c: Contact, email: Option<string>): (r: Result<Contact, ContactError>)
    ensures r.Failure? <==> !IsValidEmail(email)
    ensures r.Failure? ==> r.error == InvalidEmail
    ensures r.Success? ==> r.value == c.(email := email.value)
  {
    if !IsValidEmail(email) then Failure(InvalidEmail) else Success(c.(email := email.value))
  }

  /** Sample inputs of the phone pattern: an international number is
      accepted, five digits are not. */
  lemma PhoneExamples()
    ensures IsValidPhone(Some("+9779812345678"))
    ensures !IsValidPhone(Some("12345"))
  {
  }

  /** A sample input of the e-mail pattern: dots are allowed on both sides
      of the `@`. */
  lemma EmailAcceptedExample()
    ensures IsValidEmail(Some("a.b@c.d.org"))
  {
    var e := "a.b@c.d.org";
    assert e == "a.b" + ['@'] + "c.d" + ['.'] + "org";
    assert AllEmailChars("a.b") && AllEmailChars("c.d") && AllLetters("org");
    assert IsEmailSplit(e, "a.b", "c.d", "org");
    EmailMatchesIff(e);
  }

  /** A sample input of the e-mail pattern: a second `@` is refused. */
  lemma EmailRefusedExample()
    ensures !IsValidEmail(Some("a@b@c.com"))
  {
    var f := "a@b@c.com";
    EmailMatchesIff(f);
    var at := Seqs.FirstIndex(f, c => c == '@');
    assert at == Some(1) by {
      assert f[0] != '@' && f[1] == '@';
    }
    var rest := f[2..];
    assert rest[1] == '@';
    assert !AllEmailChars(rest);
  }
}
