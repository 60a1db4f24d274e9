/** The daily quote card (client/src/components/QuoteCard/QuoteCard.jsx).
    It keeps one excerpt in the 'daily_excerpt' storage slot for 24 hours,
    asks the server for a new one for a randomly chosen book when the slot is
    empty or stale, and falls back to the stored excerpt, however old, or to
    a fixed quote when the request fails.

    `loadExcerpt` awaits the request, so it is split in two: `Load` runs up
    to the request and returns it, `Complete` runs from the response on. The
    time, the random choice and the response are parameters. */
module QuoteCard {
  import opened Common
  import opened Json
  import Uri

  /** `24 * 60 * 60 * 1000` */
  const OneDayMs: int := 86_400_000

  /** A displayed or stored quote: the excerpt, the book's author and title,
      and the time it was fetched. An absent field is `undefined`. */
  datatype Quote = Quote(text: Option<Value>, author: Option<Value>, source: Option<Value>, timestamp: Option<int>)

  const DefaultQuote: Quote := Quote(
    Some(Str("A room without books is like a body without a soul.")),
    Some(Str("Marcus Tullius Cicero")),
    Some(Str("Philosophy")),
    None)

  /** The excerpt request: its URL and its Authorization header. */
  datatype ExcerptRequest = ExcerptRequest(url: string, authorization: string)

  /** What the awaiting `loadExcerpt` holds: the chosen book, the time it
      started and the slot's content at that time. */
  datatype Pending = Pending(book: Object, now: int, stored: Option<Quote>)

  /** `now - parsed.timestamp < ONE_DAY_MS`; a quote without a timestamp
      compares as NaN and is never fresh. */
  predicate Fresh(q: Quote, now: int) {
    q.timestamp.Some? && now - q.timestamp.value < OneDayMs
  }

  /** The URL of the excerpt of a book. */
  function ExcerptUrl(book: Object): string {
    "http://localhost:5001/api/excerpt/" + Uri.Encode(ToText(Field(book, "EntityId")))
  }

  /** The quote made from a fetched excerpt: the excerpt with the chosen
      book's author and title, stamped with the time the load started. */
  function Fetched(book: Object, now: int, data: Object): (q: Quote)
    ensures q.text == Field(data, "excerpt")
    ensures q.author == Field(book, "Author") && q.source == Field(book, "Title")
    ensures forall later :: Fresh(q, later) <==> later - now < OneDayMs
  {
    Quote(Field(data, "excerpt"), Field(book, "Author"), Field(book, "Title"), Some(now))
  }

  class QuoteCard {
    /** The quote on display (`null` until the first load settles). */
    var quote: Option<Quote>
    var loading: bool
    /** The `apiCallInProgress` ref. */
    var inFlight: bool
    /** The awaiting load, if any. */
    var pending: Option<Pending>
    /** The 'daily_excerpt' storage slot. */
    var slot: Option<Quote>

    /** A request is in flight exactly while a load awaits its response. */
    ghost predicate Valid()
      reads this
    {
      inFlight <==> pending.Some?
    }

    /** A freshly mounted card over whatever the slot holds. */
    constructor(stored: Option<Quote>)
      ensures Valid() && quote.None? && loading && !inFlight && slot == stored
    {
      quote := None;
      loading := true;
      inFlight := false;
      pending := None;
      slot := stored;
    }

    /** The effect: without a token nothing runs. With no books the default
        quote is shown. A fresh stored quote is shown with no request. While
        a request is in flight a new load returns at once. Otherwise the
        `pick`-th book (`Math.floor(Math.random() * books.length)`) is
        chosen and its excerpt requested. The slot is never written here. */
    method Load(token: Option<Value>, books: seq<Object>, now: int, pick: nat) returns (request: Option<ExcerptRequest>)
      requires Valid() && (|books| > 0 ==> pick < |books|)
      modifies this
      ensures Valid() && slot == old(slot)
      ensures !Truthy(token) ==> request.None? && unchanged(this)
      ensures Truthy(token) && |books| == 0 ==>
                && request.None? && quote == Some(DefaultQuote) && !loading
                && inFlight == old(inFlight) && pending == old(pending)
      ensures Truthy(token) && |books| > 0 && slot.Some? && Fresh(slot.value, now) ==>
                && request.None? && quote == slot && !loading
                && inFlight == old(inFlight) && pending == old(pending)
      ensures Truthy(token) && |books| > 0 && !(slot.Some? && Fresh(slot.value, now)) && old(inFlight) ==>
                request.None? && unchanged(this)
      ensures Truthy(token) && |books| > 0 && !(slot.Some? && Fresh(slot.value, now)) && !old(inFlight) ==>
                && request == Some(ExcerptRequest(ExcerptUrl(books[pick]), "Bearer " + ToText(token)))
                && inFlight && pending == Some(Pending(books[pick], now, slot))
                && quote == old(quote) && loading == old(loading)
    {
      request := None;
      if !Truthy(token) {
        return;
      }
      if |books| == 0 {
        quote := Some(DefaultQuote);
        loading := false;
        return;
      }
      var stored := slot;
      if stored.Some? && Fresh(stored.value, now) {
        quote := stored;
        loading := false;
        return;
      }
      if inFlight {
        return;
      }
      inFlight := true;
      var book := books[pick];
      pending := Some(Pending(book, now, stored));
      request := Some(ExcerptRequest(ExcerptUrl(book), "Bearer " + ToText(token)));
    }

    /** The response of the awaited request: the parsed body of an ok
        response, or `None` when the request failed, was not ok or did not
        parse. Success overwrites the slot with the new quote and shows it;
        failure shows what the slot held when the load started, else the
        default. Either way loading ends and the in-flight flag clears. */
    method Complete(data: Option<Object>)
      requires Valid() && pending.Some?
      modifies this
      ensures Valid() && !inFlight && !loading
      ensures var p := old(pending).value;
              if data.Some? then
                slot == Some(Fetched(p.book, p.now, data.value)) && quote == slot
              else
                slot == old(slot) && quote == Some(if p.stored.Some? then p.stored.value else DefaultQuote)
    {
      var p := pending.value;
      if data.Some? {
        var fetched := Fetched(p.book, p.now, data.value);
        slot := Some(fetched);
        quote := Some(fetched);
      } else if p.stored.Some? {
        quote := p.stored;
      } else {
        quote := Some(DefaultQuote);
      }
      loading := false;
      inFlight := false;
      pending := None;
    }
  }

  /** With no quote stored, or only a stale one, a successful fetch is
      reused without a request by every load in the following 24 hours, and
      the next load after that asks again. */
  method FetchThenReload(card: QuoteCard, token: Option<Value>, books: seq<Object>, now: int, pick: nat,
                         data: Object, later: int, pick2: nat)
    returns (first: Option<ExcerptRequest>, second: Option<ExcerptRequest>)
    requires card.Valid() && !card.inFlight && Truthy(token) && pick < |books| && pick2 < |books|
    requires card.slot.None? || !Fresh(card.slot.value, now)
    modifies card
    ensures first.Some? && card.Valid()
    ensures later - now < OneDayMs ==> second.None? && card.quote == Some(Fetched(books[pick], now, data))
    ensures later - now >= OneDayMs ==> second == Some(ExcerptRequest(ExcerptUrl(books[pick2]), "Bearer " + ToText(token)))
  {
    first := card.Load(token, books, now, pick);
    card.Complete(Some(data));
    second := card.Load(token, books, later, pick2);
  }

  /** While one request is in flight, a second load issues none and changes
      nothing; a failed request then shows the stale stored quote. */
  method SecondLoadWaits(card: QuoteCard, token: Option<Value>, books: seq<Object>, now: int, pick: nat, stale: Quote)
    returns (first: Option<ExcerptRequest>, second: Option<ExcerptRequest>)
    requires card.Valid() && !card.inFlight && Truthy(token) && pick < |books|
    requires card.slot == Some(stale) && !Fresh(stale, now)
    modifies card
    ensures first.Some? && second.None?
    ensures card.quote == Some(stale) && card.slot == Some(stale) && !card.loading && !card.inFlight
  {
    first := card.Load(token, books, now, pick);
    second := card.Load(token, books, now, pick);
    card.Complete(None);
  }
}
