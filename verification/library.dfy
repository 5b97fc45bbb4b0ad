/** The library CLI: the book list, adding, searching, lookup by id and the
    borrow and return menu items. */
module Library {

  import opened Wrappers
  import opened Text
  import opened Books
  import Seqs

  /** The book list together with the next value of `Book.NEXT_ID`. */
  datatype Library = Library(books: seq<Book>, nextId: int)

  const Empty: Library := Library([], FirstId)

  predicate IsWellFormed(b: Book) {
    !IsBlank(b.title) && !IsBlank(b.author) && !IsBlank(b.isbn)
  }

  ghost predicate IdsConsecutive(bs: seq<Book>) {
    forall i :: 0 <= i < |bs| ==> bs[i].id == FirstId + i
  }

  /** Every library the CLI can reach. */
  ghost predicate Valid(lib: Library) {
    && lib.nextId == FirstId + |lib.books|
    && IdsConsecutive(lib.books)
    && (forall i :: 0 <= i < |lib.books| ==> IsWellFormed(lib.books[i]))
  }

  /** `addBook`: the three trimmed lines go to the constructor; one book is
      appended exactly when it succeeds. */
  function AddBook(lib: Library, titleLine: string, authorLine: string, isbnLine: string)
    : (r: Result<Library, BookError>)
    ensures r.Success? <==> Trim(titleLine) != [] && Trim(authorLine) != [] && Trim(isbnLine) != []
    ensures Trim(titleLine) == [] ==> r == Failure(EmptyTitle)
    ensures Trim(titleLine) != [] && Trim(authorLine) == [] ==> r == Failure(EmptyAuthor)
    ensures Trim(titleLine) != [] && Trim(authorLine) != [] && Trim(isbnLine) == [] ==> r == Failure(EmptyIsbn)
    ensures r.Success? ==>
              && r.value.books == lib.books + [Book(lib.nextId, Trim(titleLine), Trim(authorLine), Trim(isbnLine), true)]
              && r.value.nextId == lib.nextId + 1
  {
    TrimmedFields(lib.nextId, titleLine, authorLine, isbnLine);
    match NewBook(lib.nextId, Some(Trim(titleLine)), Some(Trim(authorLine)), Some(Trim(isbnLine)))
    case Failure(e) => Failure(e)
    case Success(b) => Success(Library(lib.books + [b], lib.nextId + 1))
  }

  /** On trimmed lines the constructor's blank checks are emptiness checks. */
  lemma TrimmedFields(nextId: int, titleLine: string, authorLine: string, isbnLine: string)
    ensures var r := NewBook(nextId, Some(Trim(titleLine)), Some(Trim(authorLine)), Some(Trim(isbnLine)));
            && (r.Success? <==> Trim(titleLine) != [] && Trim(authorLine) != [] && Trim(isbnLine) != [])
            && (Trim(titleLine) == [] ==> r == Failure(EmptyTitle))
            && (Trim(titleLine) != [] && Trim(authorLine) == [] ==> r == Failure(EmptyAuthor))
            && (Trim(titleLine) != [] && Trim(authorLine) != [] && Trim(isbnLine) == [] ==> r == Failure(EmptyIsbn))
            && (r.Success? ==> IsWellFormed(r.value))
  {
    TrimmedBlankIsEmpty(titleLine);
    TrimmedBlankIsEmpty(authorLine);
    TrimmedBlankIsEmpty(isbnLine);
  }

  /** The search criterion: the (already lowered) keyword occurs in the
      lowered title, author or ISBN. */
  predicate MatchesBook(b: Book, keyword: string) {
    Contains(Lower(b.title), keyword) || Contains(Lower(b.author), keyword) || Contains(Lower(b.isbn), keyword)
  }

  /** `searchBooks`: exactly the matching books, in insertion order. */
  function SearchBooks(bs: seq<Book>, keywordLine: string): (r: seq<Book>)
    ensures Seqs.Selects(r, bs, (b: Book) => MatchesBook(b, Lower(Trim(keywordLine))))
  {
    var keyword := Lower(Trim(keywordLine));
    Seqs.Filter(bs, (b: Book) => MatchesBook(b, keyword))
  }

  /** A blank keyword matches every book. */
  lemma SearchBlankKeyword(bs: seq<Book>, keywordLine: string)
    requires Trim(keywordLine) == []
    ensures SearchBooks(bs, keywordLine) == bs
  {
    forall b: Book ensures MatchesBook(b, Lower(Trim(keywordLine))) {
      ContainsEmpty(Lower(b.title));
    }
    Seqs.FilterAll(bs, (b: Book) => MatchesBook(b, Lower(Trim(keywordLine))));
  }

  /** `findBookById`: the position of the first book with that id. */
  function FindBookById(bs: seq<Book>, id: int): (r: Option<nat>)
    ensures r.Some? ==> r.value < |bs| && bs[r.value].id == id
    ensures r.Some? ==> forall j :: 0 <= j < r.value ==> bs[j].id != id
    ensures r.None? <==> forall j :: 0 <= j < |bs| ==> bs[j].id != id
  {
    Seqs.FirstIndex(bs, (b: Book) => b.id == id)
  }

  lemma FindBookByIdValid(bs: seq<Book>, id: int)
    requires IdsConsecutive(bs)
    ensures FirstId <= id < FirstId + |bs| ==> FindBookById(bs, id) == Some(id - FirstId)
    ensures !(FirstId <= id < FirstId + |bs|) ==> FindBookById(bs, id).None?
  {
    var r := FindBookById(bs, id);
    if FirstId <= id < FirstId + |bs| {
      assert bs[id - FirstId].id == id;
      assert bs[r.value].id == FirstId + r.value;
    }
  }

  /** `borrowBook`: an unknown id is NotFound; otherwise `Book.borrow` on the
      found book, no other book changing. */
  function BorrowBook(lib: Library, id: int): (r: Result<Library, BookError>)
    ensures r == Failure(NotFound) <==> FindBookById(lib.books, id).None?
    ensures r == Failure(AlreadyBorrowed) <==>
              FindBookById(lib.books, id).Some? && !lib.books[FindBookById(lib.books, id).value].available
    ensures r.Success? <==>
              FindBookById(lib.books, id).Some? && lib.books[FindBookById(lib.books, id).value].available
    ensures r.Success? ==>
              var i := FindBookById(lib.books, id).value;
              r.value == lib.(books := lib.books[i := lib.books[i].(available := false)])
  {
    match FindBookById(lib.books, id)
    case None => Failure(NotFound)
    case Some(i) =>
      match Borrow(lib.books[i])
      case Failure(e) => Failure(e)
      case Success(b) => Success(lib.(books := lib.books[i := b]))
  }

  /** `returnBook`: an unknown id is NotFound; any known id succeeds, also
      for a book that is already available. */
  function ReturnBook(lib: Library, id: int): (r: Result<Library, BookError>)
    ensures r.Failure? <==> FindBookById(lib.books, id).None?
    ensures r.Failure? ==> r.error == NotFound
    ensures r.Success? ==>
              var i := FindBookById(lib.books, id).value;
              r.value == lib.(books := lib.books[i := lib.books[i].(available := true)])
  {
    match FindBookById(lib.books, id)
    case None => Failure(NotFound)
    case Some(i) => Success(lib.(books := lib.books[i := GiveBack(lib.books[i])]))
  }

  /** Appending a well-formed book with the next id keeps the library valid. */
  lemma AppendValid(lib: Library, b: Book)
    requires Valid(lib) && b.id == lib.nextId && IsWellFormed(b)
    ensures Valid(Library(lib.books + [b], lib.nextId + 1))
  {
    var bs := lib.books + [b];
    forall k | 0 <= k < |bs| ensures bs[k].id == FirstId + k && IsWellFormed(bs[k]) {
      if k < |lib.books| {
        assert bs[k] == lib.books[k];
      }
    }
  }

  /** Adding a book keeps the library valid. */
  lemma AddBookValid(lib: Library, titleLine: string, authorLine: string, isbnLine: string)
    requires Valid(lib)
    ensures AddBook(lib, titleLine, authorLine, isbnLine).Success? ==>
              Valid(AddBook(lib, titleLine, authorLine, isbnLine).value)
  {
    TrimmedFields(lib.nextId, titleLine, authorLine, isbnLine);
    var r := NewBook(lib.nextId, Some(Trim(titleLine)), Some(Trim(authorLine)), Some(Trim(isbnLine)));
    if r.Success? {
      AppendValid(lib, r.value);
    }
  }

  /** Borrowing and returning keep the library valid. */
  lemma BorrowReturnValid(lib: Library, id: int)
    requires Valid(lib)
    ensures BorrowBook(lib, id).Success? ==> Valid(BorrowBook(lib, id).value)
    ensures ReturnBook(lib, id).Success? ==> Valid(ReturnBook(lib, id).value)
  {
  }

  /** A borrowed book that is returned can be borrowed again. */
  lemma BorrowReturnBorrow(lib: Library, id: int)
    requires BorrowBook(lib, id).Success?
    ensures ReturnBook(BorrowBook(lib, id).value, id).Success?
    ensures BorrowBook(ReturnBook(BorrowBook(lib, id).value, id).value, id).Success?
  {
    var i := FindBookById(lib.books, id).value;
    var l1 := BorrowBook(lib, id).value;
    assert l1.books[i].id == id;
    assert FindBookById(l1.books, id) == Some(i) by {
      forall j | 0 <= j < i ensures l1.books[j].id != id {
        assert l1.books[j] == lib.books[j];
      }
    }
    var l2 := ReturnBook(l1, id).value;
    assert l2.books[i].id == id;
    assert FindBookById(l2.books, id) == Some(i) by {
      forall j | 0 <= j < i ensures l2.books[j].id != id {
        assert l2.books[j] == lib.books[j];
      }
    }
  }
}
