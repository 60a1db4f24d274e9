/** The book routes (server/routes/books.js). Every route acts for the
    authenticated caller only: its keys all have UserId = the caller.
    A book is the item under (userId, "BOOK#<creation ms>").

    The store's own failures are an input: `outage` makes the store command
    throw, the route answers 500 and nothing is written. */
module Books {
  import opened Common
  import opened Json
  import opened Store
  import opened Http

  /** "BOOK#" followed by the creation time in milliseconds. */
  function BookEntity(ms: nat): (e: string)
    ensures StartsWith(e, BookPrefix)
  {
    BookPrefix + NatToString(ms)
  }

  /** Books created at different milliseconds get different keys. */
  lemma BookEntityInjective(m: nat, n: nat)
    requires BookEntity(m) == BookEntity(n)
    ensures m == n
  {
    assert NatToString(m) == BookEntity(m)[|BookPrefix|..];
    assert NatToString(n) == BookEntity(n)[|BookPrefix|..];
    NatToStringInjective(m, n);
  }

  /** The attributes a stored book can have. */
  const BookAttributes: set<string> :=
    {"UserId", "EntityId", "Title", "Author", "CoverImage", "DateRead", "Notes", "ExternalId"}

  /** The item literal of POST /books: the key, the four attributes copied
      from the body (undefined where the body leaves them out), DateRead
      falling back to the ISO timestamp and Notes to '' when falsy. */
  function NewBook(k: Key, body: Object, timestamp: string): Draft {
    map["UserId" := Some(Str(k.user)), "EntityId" := Some(Str(k.entity)),
        "Title" := Field(body, "title"), "Author" := Field(body, "author"),
        "CoverImage" := Field(body, "coverImage"),
        "DateRead" := Some(Or(Field(body, "dateRead"), Str(timestamp))),
        "Notes" := Some(Or(Field(body, "notes"), Str(""))),
        "ExternalId" := Field(body, "externalId")]
  }

  /** The new book can be sent only when the body defines the title, the
      author, the cover and the external id; it then carries its key, those
      four values, the date read or else the timestamp, the notes or else
      '', and no other attribute. */
  lemma StoredBook(k: Key, body: Object, timestamp: string)
    ensures var item := Marshal(NewBook(k, body, timestamp));
            && (item.Some? <==> "title" in body && "author" in body && "coverImage" in body && "externalId" in body)
            && (item.Some? ==>
                  && HasKey(item.value, k) && item.value.Keys == BookAttributes
                  && item.value["Title"] == body["title"] && item.value["Author"] == body["author"]
                  && item.value["CoverImage"] == body["coverImage"] && item.value["ExternalId"] == body["externalId"]
                  && item.value["DateRead"] == Or(Field(body, "dateRead"), Str(timestamp))
                  && item.value["Notes"] == Or(Field(body, "notes"), Str("")))
  {
    var d := NewBook(k, body, timestamp);
    assert d.Keys == BookAttributes;
  }

  /** GET /books: the caller's items whose EntityId begins with "BOOK#". */
  method ListBooks(table: Table, userId: string, order: seq<Key>, outage: bool) returns (resp: Response)
    requires table.Valid() && Listing(order, table.items)
    ensures outage ==> resp == Error(500, "Could not fetch books")
    ensures !outage ==> resp == Response(200, ItemsBody(Query(table.items, order, userId, BookPrefix)))
  {
    if outage {
      return Error(500, "Could not fetch books");
    }
    var books := Query(table.items, order, userId, BookPrefix);
    return Response(200, ItemsBody(books));
  }

  /** An item of the caller's whose EntityId begins with "BOOK#". */
  predicate OwnBook(b: Item, userId: string) {
    && "UserId" in b && b["UserId"] == Str(userId)
    && "EntityId" in b && b["EntityId"].Str? && StartsWith(b["EntityId"].s, BookPrefix)
  }

  /** The listing holds each of the caller's books exactly once and nothing
      else: no other user's item, and not the caller's profile or settings. */
  lemma ListBooksExact(items: map<Key, Item>, order: seq<Key>, userId: string)
    requires WellKeyed(items) && Listing(order, items)
    ensures var books := Query(items, order, userId, BookPrefix);
            && (forall b :: b in books ==> OwnBook(b, userId))
            && (forall k :: k in items && k.user == userId && StartsWith(k.entity, BookPrefix) ==> items[k] in books)
  {
    QueryExact(items, order, userId, BookPrefix);
    var ks := QueryKeys(order, userId, BookPrefix);
    var books := Query(items, order, userId, BookPrefix);
    forall b | b in books ensures OwnBook(b, userId) {
      var i :| 0 <= i < |books| && books[i] == b;
      assert ks[i] in ks;
    }
    forall k | k in items && k.user == userId && StartsWith(k.entity, BookPrefix) ensures items[k] in books {
      var i :| 0 <= i < |ks| && ks[i] == k;
      assert books[i] == items[k];
    }
  }

  /** POST /books: a body without a truthy title and author is refused with
      400 and nothing is written. Otherwise the new book is sent under the
      caller's key "BOOK#<nowMs>" (replacing an item created in the same
      millisecond) and returned with 201; a body without a cover or an
      external id makes the send throw, which answers 500 and writes
      nothing. */
  method CreateBook(table: Table, userId: string, body: Object, timestamp: string, nowMs: nat, outage: bool)
    returns (resp: Response)
    requires table.Valid()
    modifies table
    ensures table.Valid()
    ensures !Truthy(Field(body, "title")) || !Truthy(Field(body, "author")) ==>
              resp == Error(400, "Title and Author are required") && table.items == old(table.items)
    ensures Truthy(Field(body, "title")) && Truthy(Field(body, "author"))
            && (outage || "coverImage" !in body || "externalId" !in body) ==>
              resp == Error(500, "Could not add book") && table.items == old(table.items)
    ensures Truthy(Field(body, "title")) && Truthy(Field(body, "author"))
            && !outage && "coverImage" in body && "externalId" in body ==>
              var k := Key(userId, BookEntity(nowMs));
              var item := Marshal(NewBook(k, body, timestamp));
              && item.Some?
              && table.items == old(table.items)[k := item.value]
              && resp == Response(201, ItemBody(item.value))
  {
    if !Truthy(Field(body, "title")) || !Truthy(Field(body, "author")) {
      return Error(400, "Title and Author are required");
    }
    var k := Key(userId, BookEntity(nowMs));
    var bookParam := NewBook(k, body, timestamp);
    StoredBook(k, body, timestamp);
    var item := Marshal(bookParam);
    if outage || item.None? {
      return Error(500, "Could not add book");
    }
    table.Put(k, item.value);
    return Response(201, ItemBody(item.value));
  }

  /** GET /books/:entityId: the caller's item under that entity identifier,
      or 404. Any entity of the caller's can be read this way, not only a
      book. */
  method GetBook(table: Table, userId: string, entityId: string, outage: bool) returns (resp: Response)
    ensures outage ==> resp == Error(500, "Could not fetch book")
    ensures !outage && Key(userId, entityId) !in table.items ==> resp == Error(404, "Book not found")
    ensures !outage && Key(userId, entityId) in table.items ==>
              resp == Response(200, ItemBody(table.items[Key(userId, entityId)]))
  {
    if outage {
      return Error(500, "Could not fetch book");
    }
    var item := table.Get(Key(userId, entityId));
    if item.None? {
      return Error(404, "Book not found");
    }
    return Response(200, ItemBody(item.value));
  }

  // ---------------------------------------------------------------------------
  // The update expression
  // ---------------------------------------------------------------------------

  /** The parameters of an UpdateCommand: the expression text, the
      `:placeholder` values and the `#placeholder` names (attached only
      when not empty). */
  datatype UpdateRequest = UpdateRequest(expression: string, values: map<string, Value>, names: Option<map<string, string>>)

  /** The fields PUT /books/:entityId means to set: Notes when `notes` is
      defined, DateRead when `dateRead` is defined. */
  function Assignments(notes: Option<Value>, dateRead: Option<Value>): (a: map<string, Value>)
    ensures "Notes" in a <==> notes.Some?
    ensures "DateRead" in a <==> dateRead.Some?
    ensures a.Keys <= {"Notes", "DateRead"}
  {
    SetDefined(SetDefined(map[], "Notes", notes), "DateRead", dateRead)
  }

  /** The request body's `notes` and `dateRead` become the update parameters:
      "set", then " #N = :n," and " DateRead = :d," for the defined fields,
      then the last character dropped. */
  method BuildUpdate(notes: Option<Value>, dateRead: Option<Value>) returns (u: UpdateRequest)
    ensures ParseUpdate(u) == if notes.None? && dateRead.None? then None else Some(Assignments(notes, dateRead))
    ensures u.names.Some? <==> notes.Some?
    ensures notes.None? && dateRead.None? ==> u.expression == "se"
  {
    var updateExp := "set";
    var values: map<string, Value> := map[];
    var names: map<string, string> := map[];
    if notes.Some? {
      updateExp := updateExp + " #N = :n,";
      values := values[":n" := notes.value];
      names := names["#N" := "Notes"];
    }
    if dateRead.Some? {
      updateExp := updateExp + " DateRead = :d,";
      values := values[":d" := dateRead.value];
    }
    DropLast(notes.Some?, dateRead.Some?, updateExp);
    updateExp := updateExp[..|updateExp| - 1];
    assert notes.Some? ==> "#N" in names;
    u := UpdateRequest(updateExp, values, if |names| > 0 then Some(names) else None);
    ParseBuilt(notes, dateRead, u);
  }

  /** Dropping the trailing comma (or, with no clause, the "t" of "set")
      leaves the clauses joined by commas. */
  lemma DropLast(hasNotes: bool, hasDate: bool, e: string)
    requires e == "set" + (if hasNotes then " #N = :n," else "") + (if hasDate then " DateRead = :d," else "")
    ensures e[..|e| - 1] == (if !hasNotes && !hasDate then "se"
                             else "set" + (if hasNotes then " #N = :n" else "")
                                  + (if hasNotes && hasDate then "," else "")
                                  + (if hasDate then " DateRead = :d" else ""))
  {
    if hasNotes && hasDate {
      assert e == "set" + " #N = :n" + "," + " DateRead = :d" + ",";
    } else if hasNotes {
      assert e == "set" + " #N = :n" + ",";
    } else if hasDate {
      assert e == "set" + " DateRead = :d" + ",";
    }
  }

  /** The four expressions the builder can produce, and what they mean. */
  lemma ParseBuilt(notes: Option<Value>, dateRead: Option<Value>, u: UpdateRequest)
    requires u.values == (if notes.Some? then map[":n" := notes.value] else map[])
                         + (if dateRead.Some? then map[":d" := dateRead.value] else map[])
    requires u.names == if notes.Some? then Some(map["#N" := "Notes"]) else None
    requires u.expression == (if notes.None? && dateRead.None? then "se"
                              else "set" + (if notes.Some? then " #N = :n" else "")
                                   + (if notes.Some? && dateRead.Some? then "," else "")
                                   + (if dateRead.Some? then " DateRead = :d" else ""))
    ensures ParseUpdate(u) == if notes.None? && dateRead.None? then None else Some(Assignments(notes, dateRead))
  {
    if notes.Some? && dateRead.Some? {
      ParseBoth(notes.value, dateRead.value, u);
    } else if notes.Some? {
      ParseNotesOnly(notes.value, u);
    } else if dateRead.Some? {
      ParseDateOnly(dateRead.value, u);
    }
  }

  lemma ParseBoth(nv: Value, dv: Value, u: UpdateRequest)
    requires u.values == map[":n" := nv] + map[":d" := dv]
    requires u.names == Some(map["#N" := "Notes"])
    requires u.expression == "set" + " #N = :n" + "," + " DateRead = :d"
    ensures ParseUpdate(u) == Some(map["Notes" := nv, "DateRead" := dv])
  {
    BothClauses(nv, dv, u);
    BothShape(u.expression);
    ParseDouble(u, "#N = :n", " DateRead = :d", "Notes", nv, "DateRead", dv);
  }

  /** Both clauses the builder writes, under the parameters it attaches. */
  lemma BothClauses(nv: Value, dv: Value, u: UpdateRequest)
    requires u.values == map[":n" := nv] + map[":d" := dv]
    requires u.names == Some(map["#N" := "Notes"])
    ensures ParseClause("#N = :n", u) == Some(("Notes", nv))
    ensures ParseClause(" DateRead = :d", u) == Some(("DateRead", dv))
  {
    assert u.values == map[":n" := nv, ":d" := dv];
    NotesClause(nv, u);
    ClauseDate(" ", u);
  }

  lemma BothShape(e: string)
    requires e == "set" + " #N = :n" + "," + " DateRead = :d"
    ensures e == "set " + ("#N = :n" + [','] + " DateRead = :d")
    ensures ',' !in "#N = :n" && ',' !in " DateRead = :d"
  {
  }

  /** "set " followed by two comma-free clauses assigning distinct
      attributes assigns both. */
  lemma ParseDouble(u: UpdateRequest, c1: string, c2: string, a1: string, v1: Value, a2: string, v2: Value)
    requires u.expression == "set " + (c1 + [','] + c2) && ',' !in c1 && ',' !in c2
    requires ParseClause(c1, u) == Some((a1, v1)) && ParseClause(c2, u) == Some((a2, v2)) && a1 != a2
    ensures ParseUpdate(u) == Some(map[a1 := v1, a2 := v2])
  {
    SplitTwo("set ", c1, c2, u.expression);
    TwoClauses(c1, c2, u, a1, v1, a2, v2);
  }

  /** The text after a prefix, holding two comma-free clauses joined by a
      comma, splits into those clauses. */
  lemma SplitTwo(prefix: string, c1: string, c2: string, e: string)
    requires ',' !in c1 && ',' !in c2
    requires e == prefix + (c1 + [','] + c2)
    ensures StartsWith(e, prefix) && Split(e[|prefix|..], ',') == [c1, c2]
  {
    assert e[|prefix|..] == c1 + [','] + c2;
    SplitAt(c1, ',', c2);
    SplitNone(c2, ',');
  }

  /** Two clauses assigning distinct attributes assign both. */
  lemma TwoClauses(c1: string, c2: string, u: UpdateRequest, a1: string, v1: Value, a2: string, v2: Value)
    requires ParseClause(c1, u) == Some((a1, v1)) && ParseClause(c2, u) == Some((a2, v2)) && a1 != a2
    ensures ParseClauses([c1, c2], u, map[]) == Some(map[a1 := v1, a2 := v2])
  {
    assert [c1, c2][0] == c1 && [c1, c2][1..] == [c2];
    assert ParseClauses([c1, c2], u, map[]) == ParseClauses([c2], u, map[a1 := v1]);
    assert [c2][0] == c2 && [c2][1..] == [];
    assert a2 !in map[a1 := v1];
    assert ParseClauses([c2], u, map[a1 := v1]) == ParseClauses([], u, map[a1 := v1][a2 := v2]);
  }

  lemma ParseNotesOnly(nv: Value, u: UpdateRequest)
    requires u.values == map[":n" := nv]
    requires u.names == Some(map["#N" := "Notes"])
    requires u.expression == "set" + " #N = :n"
    ensures ParseUpdate(u) == Some(map["Notes" := nv])
  {
    NotesClause(nv, u);
    NotesShape(u.expression);
    ParseSingle(u, "#N = :n", "Notes", nv);
  }

  lemma NotesShape(e: string)
    requires e == "set" + " #N = :n"
    ensures e == "set " + "#N = :n" && ',' !in "#N = :n"
  {
  }

  lemma ParseDateOnly(dv: Value, u: UpdateRequest)
    requires u.values == map[":d" := dv]
    requires u.names == None
    requires u.expression == "set" + " DateRead = :d"
    ensures ParseUpdate(u) == Some(map["DateRead" := dv])
  {
    DateClause(dv, u);
    DateShape(u.expression);
    ParseSingle(u, "DateRead = :d", "DateRead", dv);
  }

  lemma DateShape(e: string)
    requires e == "set" + " DateRead = :d"
    ensures e == "set " + "DateRead = :d" && ',' !in "DateRead = :d"
  {
  }

  /** "set " followed by one comma-free clause assigns what that clause
      assigns. */
  lemma ParseSingle(u: UpdateRequest, c: string, a: string, v: Value)
    requires u.expression == "set " + c && ',' !in c
    requires ParseClause(c, u) == Some((a, v))
    ensures ParseUpdate(u) == Some(map[a := v])
  {
    SplitOne("set ", c, u.expression);
    OneClause(c, u, a, v);
  }

  /** The text after a prefix, holding one comma-free clause, is that
      clause alone. */
  lemma SplitOne(prefix: string, c: string, e: string)
    requires ',' !in c && e == prefix + c
    ensures StartsWith(e, prefix) && Split(e[|prefix|..], ',') == [c]
  {
    assert e[|prefix|..] == c;
    SplitNone(c, ',');
  }

  /** A single clause assigns its attribute alone. */
  lemma OneClause(c: string, u: UpdateRequest, a: string, v: Value)
    requires ParseClause(c, u) == Some((a, v))
    ensures ParseClauses([c], u, map[]) == Some(map[a := v])
  {
    assert [c][0] == c && [c][1..] == [];
  }

  /** The Notes clause, under a `#N` placeholder naming Notes. */
  lemma NotesClause(nv: Value, u: UpdateRequest)
    requires ":n" in u.values && u.values[":n"] == nv
    requires u.names == Some(map["#N" := "Notes"])
    ensures ParseClause("#N = :n", u) == Some(("Notes", nv))
  {
    ClauseNotes(u);
    assert "Notes" !in KeyAttributeNames;
  }

  /** The DateRead clause, written without a leading space. */
  lemma DateClause(dv: Value, u: UpdateRequest)
    requires u.values == map[":d" := dv]
    ensures ParseClause("DateRead = :d", u) == Some(("DateRead", dv))
  {
    ClauseDate("", u);
    assert "" + "DateRead = :d" == "DateRead = :d";
  }

  lemma ClauseNotes(u: UpdateRequest)
    ensures ParseClause("#N = :n", u) ==
              if u.names.Some? && "#N" in u.names.value && u.names.value["#N"] !in KeyAttributeNames && ":n" in u.values
              then Some((u.names.value["#N"], u.values[":n"])) else None
  {
    ClauseOf("", "#N", ":n", u);
    assert "" + "#N" + " = " + ":n" == "#N = :n";
  }

  lemma ClauseDate(pad: string, u: UpdateRequest)
    requires pad == "" || pad == " "
    ensures ParseClause(pad + "DateRead = :d", u) == if ":d" in u.values then Some(("DateRead", u.values[":d"])) else None
  {
    ClauseOf(pad, "DateRead", ":d", u);
    assert pad + "DateRead" + " = " + ":d" == pad + "DateRead = :d";
    assert IsPlainName("DateRead");
  }

  /** A clause `path = operand`, optionally after one space, assigns the
      resolved path the operand's value. */
  lemma ClauseOf(pad: string, path: string, operand: string, u: UpdateRequest)
    requires pad == "" || pad == " "
    requires path != [] && path[0] != ' ' && path[|path| - 1] != ' ' && '=' !in path
    requires operand != [] && operand[0] != ' ' && operand[|operand| - 1] != ' ' && '=' !in operand
    ensures ParseClause(pad + path + " = " + operand, u) ==
              var p := ResolvePath(path, u.names);
              if p.None? || p.value in KeyAttributeNames || operand !in u.values then None
              else Some((p.value, u.values[operand]))
  {
    var left := pad + path + " ";
    var right := " " + operand;
    assert '=' !in left;
    assert '=' !in right;
    SplitAt(left, '=', right);
    SplitNone(right, '=');
    assert left + ['='] + right == pad + path + " = " + operand;
    assert Spaces(pad) && Spaces(" ") && Spaces("");
    TrimPadded(pad, path, " ");
    TrimPadded(" ", operand, "");
    assert " " + operand + "" == right;
  }

  /** The key attributes, which an update expression may not assign. */
  const KeyAttributeNames: set<string> := {"UserId", "EntityId"}

  /** The attribute assignments a SET update expression denotes, as the
      store interprets it: "set " and then comma-separated clauses
      `path = :value`, where a path is an attribute name or a `#name`
      placeholder. `None` is a request the store rejects (a malformed
      expression, an unknown placeholder, a key attribute or an attribute
      assigned twice). */
  function ParseUpdate(u: UpdateRequest): Option<map<string, Value>> {
    if !StartsWith(u.expression, "set ") then None
    else ParseClauses(Split(u.expression[4..], ','), u, map[])
  }

  function ParseClauses(clauses: seq<string>, u: UpdateRequest, acc: map<string, Value>): Option<map<string, Value>>
    decreases |clauses|
  {
    if clauses == [] then Some(acc)
    else
      match ParseClause(clauses[0], u)
      case None => None
      case Some((path, v)) =>
        if path in acc then None else ParseClauses(clauses[1..], u, acc[path := v])
  }

  function ParseClause(c: string, u: UpdateRequest): Option<(string, Value)> {
    var sides := Split(c, '=');
    if |sides| != 2 then None
    else
      var path := ResolvePath(Trim(sides[0]), u.names);
      var operand := Trim(sides[1]);
      if path.None? || path.value in KeyAttributeNames || operand !in u.values then None
      else Some((path.value, u.values[operand]))
  }

  function ResolvePath(p: string, names: Option<map<string, string>>): Option<string> {
    if p == [] then None
    else if p[0] == '#' then (if names.Some? && p in names.value then Some(names.value[p]) else None)
    else if IsPlainName(p) then Some(p)
    else None
  }

  /** An attribute name written out: a letter, then letters, digits or '_'. */
  predicate IsPlainName(p: string) {
    && p != []
    && ('a' <= p[0] <= 'z' || 'A' <= p[0] <= 'Z')
    && forall i :: 0 <= i < |p| ==> 'a' <= p[i] <= 'z' || 'A' <= p[i] <= 'Z' || IsDigit(p[i]) || p[i] == '_'
  }

  /** PUT /books/:entityId: sets Notes and/or DateRead on the caller's item,
      each only when the body defines it, keeps every other attribute, and
      returns the whole new item. A missing item is created from its key
      (the store's update is an upsert). With neither field the expression
      is "se", the store rejects it and the route answers 500. */
  method UpdateBook(table: Table, userId: string, entityId: string, body: Object, outage: bool) returns (resp: Response)
    requires table.Valid()
    modifies table
    ensures table.Valid()
    ensures var k := Key(userId, entityId);
            var a := Assignments(Field(body, "notes"), Field(body, "dateRead"));
            var before := if k in old(table.items) then old(table.items)[k] else KeyAttributes(k);
            if outage || (Field(body, "notes").None? && Field(body, "dateRead").None?) then
              resp == Error(500, "Could not update book") && table.items == old(table.items)
            else
              && table.items == old(table.items)[k := before + a]
              && resp == Response(200, ItemBody(before + a))
  {
    var notes := Field(body, "notes");
    var dateRead := Field(body, "dateRead");
    var u := BuildUpdate(notes, dateRead);
    var assignments := ParseUpdate(u);
    if outage || assignments.None? {
      return Error(500, "Could not update book");
    }
    var k := Key(userId, entityId);
    var current := table.Get(k);
    var before := if current.Some? then current.value else KeyAttributes(k);
    var updated := before + assignments.value;
    table.Put(k, updated);
    return Response(200, ItemBody(updated));
  }

  /** The updated item: the given fields take their new values, and every
      other attribute, the key included, keeps its old one. */
  lemma UpdateKeepsOthers(before: Item, notes: Option<Value>, dateRead: Option<Value>)
    ensures var after := before + Assignments(notes, dateRead);
            && (notes.Some? ==> Field(after, "Notes") == notes)
            && (dateRead.Some? ==> Field(after, "DateRead") == dateRead)
            && (forall a :: a != "Notes" && a != "DateRead" ==> Field(after, a) == Field(before, a))
            && (notes.None? ==> Field(after, "Notes") == Field(before, "Notes"))
            && (dateRead.None? ==> Field(after, "DateRead") == Field(before, "DateRead"))
  {
  }

  /** DELETE /books/:entityId: the caller's entry is removed (a missing one
      is no error) and nothing else changes. */
  method DeleteBook(table: Table, userId: string, entityId: string, outage: bool) returns (resp: Response)
    requires table.Valid()
    modifies table
    ensures table.Valid()
    ensures outage ==> resp == Error(500, "Could not delete book") && table.items == old(table.items)
    ensures !outage ==> && resp == Response(200, MessageBody("Book deleted successfully"))
                        && table.items == old(table.items) - {Key(userId, entityId)}
  {
    if outage {
      return Error(500, "Could not delete book");
    }
    table.Delete(Key(userId, entityId));
    return Response(200, MessageBody("Book deleted successfully"));
  }
}
