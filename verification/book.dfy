/** A library book: construction checks and the availability flag. */
module Books {

  import opened Wrappers
  import opened Text

  const FirstId: int := 1

  datatype Book = Book(id: int, title: string, author: string, isbn: string, available: bool)

  datatype BookError = EmptyTitle | EmptyAuthor | EmptyIsbn | AlreadyBorrowed | NotFound

  /** The constructor: title, then author, then ISBN must be present and not
      blank; a new book is available. */
  function NewBook(nextId: int, title: Option<string>, author: Option<string>, isbn: Option<string>)
    : (r: Result<Book, BookError>)
    ensures IsNullOrBlank(title) ==> r == Failure(EmptyTitle)
    ensures !IsNullOrBlank(title) && IsNullOrBlank(author) ==> r == Failure(EmptyAuthor)
    ensures !IsNullOrBlank(title) && !IsNullOrBlank(author) && IsNullOrBlank(isbn) ==> r == Failure(EmptyIsbn)
    ensures r.Success? <==> !IsNullOrBlank(title) && !IsNullOrBlank(author) && !IsNullOrBlank(isbn)
    ensures r.Success? ==>
              r.value == Book(nextId, title.value, author.value, isbn.value, true)
  {
    if IsNullOrBlank(title) then Failure(EmptyTitle)
    else if IsNullOrBlank(author) then Failure(EmptyAuthor)
    else if IsNullOrBlank(isbn) then Failure(EmptyIsbn)
    else Success(Book(nextId, title.value, author.value, isbn.value, true))
  }

  /** `borrow`: an available book becomes unavailable; a borrowed one is
      refused (and so stays borrowed). Only the flag changes. */
  function Borrow(b: Book): (r: Result<Book, BookError>)
    ensures r.Failure? <==> !b.available
    ensures r.Failure? ==> r.error == AlreadyBorrowed
    ensures r.Success? ==> !r.value.available && r.value.(available := b.available) == b
  {
    if !b.available then Failure(AlreadyBorrowed) else Success(b.(available := false))
  }

  /** `giveBack`: never fails, always leaves the book available, and keeps
      everything else. */
  function GiveBack(b: Book): (r: Book)
    ensures r.available
    ensures r.(available := b.available) == b
  {
    b.(available := true)
  }

  /** Returning twice is the same as returning once. */
  lemma GiveBackIdempotent(b: Book)
    ensures GiveBack(GiveBack(b)) == GiveBack(b)
  {
  }

  /** Borrowing then returning an available book gives it back unchanged;
      a borrowed book cannot be borrowed again until it is returned. */
  lemma BorrowGiveBackRoundTrip(b: Book)
    requires b.available
    ensures Borrow(b).Success? && GiveBack(Borrow(b).value) == b
    ensures Borrow(Borrow(b).value) == Failure(AlreadyBorrowed)
    ensures Borrow(GiveBack(Borrow(b).value)).Success?
  {
  }
}
