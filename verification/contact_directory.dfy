/** The contact directory CLI: the contact list, the duplicate check on
    add, keyword search, lookup by id and the phone/e-mail edit. Menu lines
    arrive as the raw input lines; the CLI trims them. */
module ContactDirectory {

  import opened Wrappers
  import opened Text
  import opened Contacts
  import Seqs

  /** The contact list together with the next value of `Contact.NEXT_ID`. */
  datatype Directory = Directory(contacts: seq<Contact>, nextId: int)

  const Empty: Directory := Directory([], FirstId)

  /** A contact as the constructor and setters leave it. */
  predicate IsWellFormed(c: Contact) {
    !IsBlank(c.name) && IsValidPhone(Some(c.phone)) && IsValidEmail(Some(c.email))
  }

  /** Every directory the CLI can reach: ids run consecutively from 1 in
      list order, the counter is the next unused id, and every contact
      passed the constructor's checks. */
  ghost predicate Valid(d: Directory) {
    && d.nextId == FirstId + |d.contacts|
    && IdsConsecutive(d.contacts)
    && (forall i :: 0 <= i < |d.contacts| ==> IsWellFormed(d.contacts[i]))
  }

  ghost predicate IdsConsecutive(contacts: seq<Contact>) {
    forall i :: 0 <= i < |contacts| ==> contacts[i].id == FirstId + i
  }

  /** A stored contact has the same name ignoring case, or exactly the same
      phone. */
  predicate IsDuplicate(contacts: seq<Contact>, name: string, phone: string) {
    exists i :: 0 <= i < |contacts| && (EqualsIgnoreCase(contacts[i].name, name) || contacts[i].phone == phone)
  }

  /** `addContact`: the duplicate check runs over the trimmed name and
      phone before the constructor validates anything, so a duplicate is
      reported even when the new phone or e-mail is malformed. A success
      appends exactly one contact carrying the next id. */
  function AddContact(d: Directory, nameLine: string, phoneLine: string,
                      emailLine: string, addrLine: string): (r: Result<Directory, ContactError>)
    ensures IsDuplicate(d.contacts, Trim(nameLine), Trim(phoneLine)) <==> r == Failure(Duplicate)
    ensures r.Success? <==>
              && !IsDuplicate(d.contacts, Trim(nameLine), Trim(phoneLine))
              && !IsBlank(Trim(nameLine))
              && IsValidPhone(Some(Trim(phoneLine)))
              && IsValidEmail(Some(Trim(emailLine)))
    ensures r.Success? ==>
              && r.value.contacts == d.contacts + [Contact(d.nextId, Trim(nameLine), Trim(phoneLine), Trim(emailLine), Trim(addrLine))]
              && r.value.nextId == d.nextId + 1
  {
    var name, phone, email, addr := Trim(nameLine), Trim(phoneLine), Trim(emailLine), Trim(addrLine);
    if IsDuplicate(d.contacts, name, phone) then Failure(Duplicate)
    else match NewContact(d.nextId, Some(name), Some(phone), Some(email), Some(addr))
      case Failure(e) => Failure(e)
      case Success(c) => Success(Directory(d.contacts + [c], d.nextId + 1))
  }

  lemma AddContactValid(d: Directory, nameLine: string, phoneLine: string, emailLine: string, addrLine: string)
    requires Valid(d)
    ensures AddContact(d, nameLine, phoneLine, emailLine, addrLine).Success? ==>
              Valid(AddContact(d, nameLine, phoneLine, emailLine, addrLine).value)
  {
    if AddContact(d, nameLine, phoneLine, emailLine, addrLine).Success? {
      var c := Contact(d.nextId, Trim(nameLine), Trim(phoneLine), Trim(emailLine), Trim(addrLine));
      assert IsWellFormed(c);
      AppendValid(d, c);
    }
  }

  lemma AppendValid(d: Directory, c: Contact)
    requires Valid(d) && c.id == d.nextId && IsWellFormed(c)
    ensures Valid(Directory(d.contacts + [c], d.nextId + 1))
  {
    var cs := d.contacts + [c];
    forall i | 0 <= i < |cs| ensures cs[i].id == FirstId + i && IsWellFormed(cs[i]) {
      if i < |d.contacts| {
        assert cs[i] == d.contacts[i];
      }
    }
  }

  /** The search test of `searchByKeyword`: the lower-cased keyword occurs
      in the lower-cased name, in the phone as typed, or in the lower-cased
      e-mail. */
  predicate MatchesKeyword(c: Contact, keyword: string) {
    var kw := Lower(keyword);
    Contains(Lower(c.name), kw) || Contains(c.phone, kw) || Contains(Lower(c.email), kw)
  }

  /** `searchByKeyword` (the menu trims the keyword first): the matching
      contacts in list order. */
  function SearchByKeyword(contacts: seq<Contact>, keyword: string): (r: seq<Contact>)
    ensures Seqs.Selects(r, contacts, c => MatchesKeyword(c, keyword))
  {
    Seqs.Filter(contacts, c => MatchesKeyword(c, keyword))
  }

  /** The empty keyword matches every contact. */
  lemma SearchEmptyKeyword(contacts: seq<Contact>)
    ensures SearchByKeyword(contacts, "") == contacts
  {
    forall i | 0 <= i < |contacts| ensures MatchesKeyword(contacts[i], "") {
      ContainsEmpty(Lower(contacts[i].name));
    }
    Seqs.FilterAll(contacts, c => MatchesKeyword(c, ""));
  }

  /** `findById`: the position of the first contact with that id, None for
      the Java null. */
  function FindById(contacts: seq<Contact>, id: int): (r: Option<nat>)
    ensures r.Some? ==> r.value < |contacts| && contacts[r.value].id == id
    ensures r.Some? ==> forall j :: 0 <= j < r.value ==> contacts[j].id != id
    ensures r.None? <==> forall j :: 0 <= j < |contacts| ==> contacts[j].id != id
  {
    Seqs.FirstIndex(contacts, (c: Contact) => c.id == id)
  }

  /** In a valid directory the contact with id k sits at position k - 1. */
  lemma FindByIdValid(contacts: seq<Contact>, id: int)
    requires IdsConsecutive(contacts)
    ensures FirstId <= id < FirstId + |contacts| ==> FindById(contacts, id) == Some(id - FirstId)
    ensures !(FirstId <= id < FirstId + |contacts|) ==> FindById(contacts, id).None?
  {
    var r := FindById(contacts, id);
    if FirstId <= id < FirstId + |contacts| {
      assert contacts[id - FirstId].id == id;
      assert r.Some?;
      assert contacts[r.value].id == FirstId + r.value;
    }
  }

  /** `editContact`. It mutates the stored contact step by step, so it is not
      atomic: the result is the directory as left behind together with the
      exception raised, if any. An unknown id raises ContactNotFound; a blank
      line keeps the field; a non-blank phone or e-mail is format-checked but
      not duplicate-checked; a valid phone change stays in place when the
      following e-mail is refused. */
  function EditContact(d: Directory, id: int, phoneLine: string, emailLine: string)
    : (r: (Directory, Option<ContactError>))
    ensures r.1.None? || r.1 == Some(NotFound) || r.1 == Some(InvalidPhone) || r.1 == Some(InvalidEmail)
    ensures r.1 == Some(NotFound) <==> FindById(d.contacts, id).None?
    ensures r.1 == Some(NotFound) || r.1 == Some(InvalidPhone) ==> r.0 == d
    ensures r.0.nextId == d.nextId && |r.0.contacts| == |d.contacts|
    ensures FindById(d.contacts, id).Some? ==>
              var i := FindById(d.contacts, id).value;
              var c := d.contacts[i];
              var phone := Trim(phoneLine);
              var email := Trim(emailLine);
              && (forall j :: 0 <= j < |d.contacts| && j != i ==> r.0.contacts[j] == d.contacts[j])
              && (r.1 == Some(InvalidPhone) <==> !IsBlank(phone) && !IsValidPhone(Some(phone)))
              && (r.1 == Some(InvalidEmail) <==>
                    (IsBlank(phone) || IsValidPhone(Some(phone))) && !IsBlank(email) && !IsValidEmail(Some(email)))
              && (r.1 != Some(InvalidPhone) ==>
                    r.0.contacts[i] == c.(phone := if IsBlank(phone) then c.phone else phone,
                                          email := if IsBlank(email) || r.1.Some? then c.email else email))
  {
    match FindById(d.contacts, id)
    case None => (d, Some(NotFound))
    case Some(i) =>
      var c := d.contacts[i];
      var phone := Trim(phoneLine);
      var afterPhone := if IsBlank(phone) then Success(c) else SetPhone(c, Some(phone));
      match afterPhone
      case Failure(e) => (d, Some(e))
      case Success(c1) =>
        var email := Trim(emailLine);
        var afterEmail := if IsBlank(email) then Success(c1) else SetEmail(c1, Some(email));
        match afterEmail
        case Failure(e) => (Directory(d.contacts[i := c1], d.nextId), Some(e))
        case Success(c2) => (Directory(d.contacts[i := c2], d.nextId), None)
  }

  /** Editing keeps the directory valid, whatever the outcome. */
  lemma EditContactValid(d: Directory, id: int, phoneLine: string, emailLine: string)
    requires Valid(d)
    ensures Valid(EditContact(d, id, phoneLine, emailLine).0)
  {
    var r := EditContact(d, id, phoneLine, emailLine);
    match FindById(d.contacts, id)
    case None =>
    case Some(i) =>
      var c := d.contacts[i];
      assert IsWellFormed(c);
      forall j | 0 <= j < |d.contacts| ensures r.0.contacts[j].id == FirstId + j && IsWellFormed(r.0.contacts[j]) {
        if j == i {
          var phone, email := Trim(phoneLine), Trim(emailLine);
          if r.1 != Some(InvalidPhone) {
            var c' := r.0.contacts[i];
            assert c'.id == c.id && c'.name == c.name;
            assert IsValidPhone(Some(c'.phone));
            assert IsValidEmail(Some(c'.email));
          }
        }
      }
  }
}
