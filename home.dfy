/** The home page's search and its branches (client/src/pages/Home.jsx).
    A book is kept when its lower-cased title or author contains the
    lower-cased search term; the page then shows a loading note, the error,
    an empty-shelf note, a no-match note or the grouped list.

    `book.Title.toLowerCase()` throws when the title is not a string, and so
    does the author when the title does not match: such a render fails,
    which the model returns as `None`. */
module Home {
  import opened Common
  import opened Json
  import Store
  import Books

  /** The text of a string attribute; `None` when it is absent or not a
      string (it has no `toLowerCase`). A bcrypt digest is a string in the
      store, so it is searched too; its characters are not modelled and its
      placeholder text stands in for them. Book attributes never hold one. */
  function StringField(book: Object, name: string): (s: Option<string>)
    ensures s.Some? <==> name in book && (book[name].Str? || book[name].Digest?)
    ensures name in book && book[name].Str? ==> s == Some(book[name].s)
  {
    match Field(book, name)
    case Some(Str(s)) => Some(s)
    case Some(Digest(salt, key)) => Some(ToText(Some(Digest(salt, key))))
    case _ => None
  }

  /** The filter's test for one book; `None` when it throws. The author is
      only looked at when the title does not match. */
  function Matches(book: Object, term: string): (r: Option<bool>)
    ensures StringField(book, "Title").Some? && Includes(Lower(StringField(book, "Title").value), Lower(term)) ==>
              r == Some(true)
    ensures StringField(book, "Title").Some? && !Includes(Lower(StringField(book, "Title").value), Lower(term)) ==>
              r == if StringField(book, "Author").Some?
                   then Some(Includes(Lower(StringField(book, "Author").value), Lower(term)))
                   else None
    ensures StringField(book, "Title").None? ==> r.None?
  {
    match StringField(book, "Title")
    case None => None
    case Some(title) =>
      if Includes(Lower(title), Lower(term)) then Some(true)
      else match StringField(book, "Author")
        case None => None
        case Some(author) => Some(Includes(Lower(author), Lower(term)))
  }

  /** A book the search can always test: its title and author are strings. */
  predicate Searchable(book: Object) {
    StringField(book, "Title").Some? && StringField(book, "Author").Some?
  }

  /** `books.filter(...)`; `None` when the test throws on some book. */
  function Filtered(books: seq<Object>, term: string): (r: Option<seq<Object>>)
    ensures (forall i :: 0 <= i < |books| ==> Searchable(books[i])) ==> r.Some?
    ensures r.Some? ==> forall i :: 0 <= i < |books| ==> Matches(books[i], term).Some?
    ensures r.Some? ==> IsSubsequence(r.value, books)
    ensures r.Some? ==> forall b :: b in r.value <==> b in books && Matches(b, term) == Some(true)
  {
    if books == [] then Some([])
    else
      match Matches(books[0], term)
      case None => None
      case Some(keep) =>
        match Filtered(books[1..], term)
        case None => None
        case Some(rest) =>
          assert forall i :: 1 <= i < |books| ==> books[i] == books[1..][i - 1];
          Some(if keep then [books[0]] + rest else rest)
  }

  /** The initial, empty search term keeps every searchable book. */
  lemma {:induction false} EmptyTermKeepsAll(books: seq<Object>)
    requires forall i :: 0 <= i < |books| ==> Searchable(books[i])
    ensures Filtered(books, "") == Some(books)
  {
    if books != [] {
      assert Lower("") == "";
      IncludesEmpty(Lower(StringField(books[0], "Title").value));
      assert Matches(books[0], "") == Some(true);
      EmptyTermKeepsAll(books[1..]);
      assert books == [books[0]] + books[1..];
    }
  }

  /** A book created by updating a missing entry (PUT on an id that does not
      exist stores only the key and the updated fields) has no title, so the
      home page's filter throws as soon as it reaches that book. */
  lemma UntitledBookBreaksSearch(books: seq<Object>, k: Store.Key, notes: Option<Value>, dateRead: Option<Value>, term: string)
    requires books != [] && books[0] == Store.KeyAttributes(k) + Books.Assignments(notes, dateRead)
    ensures Filtered(books, term).None?
  {
    assert "Title" !in books[0];
  }

  /** What the page shows. */
  datatype View =
    | LoadingNote
    | ErrorNote(error: string)
    | NoBooksNote
    | NoMatchNote(term: string)
    | Shelf(books: seq<Object>)
    | RenderError

  /** The page for the books, the loading flag, the error and the term. */
  function Page(books: seq<Object>, loading: bool, error: Option<string>, term: string): (v: View)
    ensures loading && books == [] ==> v == LoadingNote
    ensures !(loading && books == []) && error.Some? && error.value != "" ==> v == ErrorNote(error.value)
    ensures v.Shelf? ==> books != [] && v.books != [] && Filtered(books, term) == Some(v.books)
    ensures v == NoBooksNote <==> !loading && books == [] && !(error.Some? && error.value != "")
    ensures v.NoMatchNote? <==> books != [] && !(error.Some? && error.value != "") && Filtered(books, term) == Some([])
    ensures v.RenderError? <==> !(error.Some? && error.value != "") && books != [] && Filtered(books, term).None?
  {
    if loading && books == [] then LoadingNote
    else if error.Some? && error.value != "" then ErrorNote(error.value)
    else
      match Filtered(books, term)
      case None => RenderError
      case Some(shown) =>
        if books == [] then NoBooksNote
        else if shown == [] then NoMatchNote(term)
        else Shelf(shown)
  }

  /** With searchable books, no error and the empty term, the page lists
      every book. */
  lemma EmptySearchListsAll(books: seq<Object>, loading: bool)
    requires books != [] && forall i :: 0 <= i < |books| ==> Searchable(books[i])
    ensures Page(books, loading, None, "") == Shelf(books)
  {
    EmptyTermKeepsAll(books);
  }
}
