/** The add-a-book dialog (client/src/components/BookSearch/BookSearch.jsx):
    a query to the public book catalogue, the choice of one result, which
    becomes the payload of a new book, and the post of that payload.

    The catalogue search awaits its response, so it is split into
    `BeginSearch`, which returns the URL it fetches, and `CompleteSearch`.
    The post is a parameter mapping the payload to the response status
    (`None` when the request fails). */
module BookSearch {
  import opened Common
  import opened Json
  import Uri
  import Store
  import Books

  /** A catalogue result: its id and the `volumeInfo` fields the dialog
      reads; `authors` is a list of names and `thumbnail` comes from
      `imageLinks`. */
  datatype Volume = Volume(id: Option<Value>, title: Option<Value>, authors: Option<seq<string>>, thumbnail: Option<Value>)

  const CatalogueUrl: string := "https://www.googleapis.com/books/v1/volumes?q="

  /** `info.authors ? info.authors.join(', ') : 'Unknown'` */
  function AuthorText(v: Volume): string {
    if v.authors.Some? then Join(v.authors.value, ", ") else "Unknown"
  }

  /** `verifyBook`: the book a result becomes. */
  function VerifyBook(v: Volume): (b: Object)
    ensures Field(b, "title") == v.title
    ensures Field(b, "author") == Some(Str(AuthorText(v)))
    ensures Field(b, "coverImage") == Some(Or(v.thumbnail, Str("")))
    ensures Field(b, "externalId") == v.id
    ensures Field(b, "notes") == Some(Str(""))
    ensures b.Keys <= {"title", "author", "coverImage", "externalId", "notes"}
  {
    var b := map["author" := Str(AuthorText(v)), "coverImage" := Or(v.thumbnail, Str("")), "notes" := Str("")];
    var b := SetDefined(b, "title", v.title);
    SetDefined(b, "externalId", v.id)
  }

  /** `{ ...selectedBook, dateRead }` */
  function Payload(selected: Object, dateRead: string): (p: Object)
    ensures Field(p, "dateRead") == Some(Str(dateRead))
    ensures forall a :: a != "dateRead" ==> Field(p, a) == Field(selected, a)
  {
    selected["dateRead" := Str(dateRead)]
  }

  /** The server takes a chosen result exactly when it has a title and the
      author text is not empty; a result with an empty author list joins to
      "" and is refused, one with no author list becomes "Unknown". The
      stored book keeps the title, author, cover and id, the date read as
      entered, and empty notes. A result without an id leaves the external
      id undefined, and the server's send of it throws. */
  lemma SavedFromSearch(v: Volume, dateRead: string, k: Store.Key, timestamp: string)
    requires dateRead != ""
    ensures var p := Payload(VerifyBook(v), dateRead);
            && (Truthy(Field(p, "title")) && Truthy(Field(p, "author")) <==> Truthy(v.title) && AuthorText(v) != "")
            && (v.authors == Some([]) ==> AuthorText(v) == "")
            && (v.authors.None? ==> AuthorText(v) == "Unknown")
    ensures var item := Store.Marshal(Books.NewBook(k, Payload(VerifyBook(v), dateRead), timestamp));
            && (item.Some? <==> v.title.Some? && v.id.Some?)
            && (item.Some? ==>
                  && item.value["Title"] == v.title.value
                  && item.value["Author"] == Str(AuthorText(v))
                  && item.value["CoverImage"] == Or(v.thumbnail, Str(""))
                  && item.value["ExternalId"] == v.id.value
                  && item.value["DateRead"] == Str(dateRead)
                  && item.value["Notes"] == Str(""))
  {
    Books.StoredBook(k, Payload(VerifyBook(v), dateRead), timestamp);
  }

  class BookSearch {
    var query: string
    var results: seq<Volume>
    var selected: Option<Object>
    var dateRead: string
    var loading: bool

    constructor()
      ensures query == "" && results == [] && selected.None? && dateRead == "" && !loading
    {
      query := "";
      results := [];
      selected := None;
      dateRead := "";
      loading := false;
    }

    /** The search box's `onChange`: the query becomes what was typed. */
    method TypeQuery(text: string)
      modifies this
      ensures query == text
      ensures results == old(results) && selected == old(selected) && dateRead == old(dateRead) && loading == old(loading)
    {
      query := text;
    }

    /** The date field's `onChange`: the date becomes what was entered. */
    method TypeDate(text: string)
      modifies this
      ensures dateRead == text
      ensures query == old(query) && results == old(results) && selected == old(selected) && loading == old(loading)
    {
      dateRead := text;
    }

    /** The start of `searchBooks`: an empty query does nothing; otherwise
        loading starts and the catalogue is asked for the encoded query. */
    method BeginSearch() returns (url: Option<string>)
      modifies this
      ensures query == "" ==> url.None? && unchanged(this)
      ensures query != "" ==>
                && url == Some(CatalogueUrl + Uri.Encode(query)) && loading
                && query == old(query) && results == old(results) && selected == old(selected) && dateRead == old(dateRead)
    {
      if query == "" {
        return None;
      }
      loading := true;
      url := Some(CatalogueUrl + Uri.Encode(query));
    }

    /** The end of `searchBooks`: `data.items || []` becomes the results;
        a failed request (`None`) leaves them. `Some(None)` is a response
        without items. Loading ends either way. */
    method CompleteSearch(data: Option<Option<seq<Volume>>>)
      modifies this
      ensures !loading
      ensures results == if data.None? then old(results) else if data.value.None? then [] else data.value.value
      ensures query == old(query) && selected == old(selected) && dateRead == old(dateRead)
    {
      if data.Some? {
        results := if data.value.Some? then data.value.value else [];
      }
      loading := false;
    }

    /** Choosing a result selects its book and clears the results. */
    method Select(v: Volume)
      modifies this
      ensures selected == Some(VerifyBook(v)) && results == []
      ensures query == old(query) && dateRead == old(dateRead) && loading == old(loading)
    {
      selected := Some(VerifyBook(v));
      results := [];
    }

    /** `handleSubmit`: nothing is posted unless a book is selected and a
        date entered. The payload is the selected book with the date; the
        parent is told (the book added and the dialog closed) only when the
        post answers ok. */
    method Submit(post: Object -> Option<int>) returns (sent: Option<Object>, notified: bool)
      ensures selected.None? || dateRead == "" ==> sent.None? && !notified
      ensures selected.Some? && dateRead != "" ==>
                && sent == Some(Payload(selected.value, dateRead))
                && (notified <==> post(sent.value).Some? && 200 <= post(sent.value).value <= 299)
    {
      if selected.None? || dateRead == "" {
        return None, false;
      }
      var payload := Payload(selected.value, dateRead);
      sent := Some(payload);
      var status := post(payload);
      notified := status.Some? && 200 <= status.value <= 299;
    }
  }
}
