/** The bookshelf grouped by year (client/src/components/BookList/BookList.jsx):
    the books are gathered, in order, into one list per year in which they
    were read, and the years are listed newest first.

    The year of a book (`new Date(book.DateRead).getFullYear()`) is a
    parameter; date parsing is not modelled. */
module BookList {
  import opened Common
  import opened Json

  /** The books read in year `y`. */
  function YearIs(yearOf: Object -> int, y: int): Object -> bool {
    b => yearOf(b) == y
  }

  /** Some book of the list was read in year `y`. */
  predicate HasYear(books: seq<Object>, yearOf: Object -> int, y: int) {
    exists i :: 0 <= i < |books| && yearOf(books[i]) == y
  }

  /** The `reduce`: one pass over the books, creating a year's list the
      first time the year is met and appending each book to its year's list.
      Every year of a book has a group and no other year does; a group holds
      exactly the books of its year, in their input order, and is never
      empty. */
  method GroupByYear(books: seq<Object>, yearOf: Object -> int) returns (groups: map<int, seq<Object>>)
    ensures forall y :: y in groups <==> HasYear(books, yearOf, y)
    ensures forall y :: y in groups ==> groups[y] == Filter(books, YearIs(yearOf, y)) && groups[y] != []
  {
    groups := map[];
    var i := 0;
    while i < |books|
      invariant 0 <= i <= |books|
      invariant forall y :: y in groups <==> HasYear(books[..i], yearOf, y)
      invariant forall y :: y in groups ==> groups[y] == Filter(books[..i], YearIs(yearOf, y)) && groups[y] != []
    {
      var book := books[i];
      var year := yearOf(book);
      if year !in groups {
        NoYearNoGroup(books[..i], yearOf, year);
        groups := groups[year := []];
      }
      groups := groups[year := groups[year] + [book]];
      GroupStep(books, yearOf, i);
      i := i + 1;
    }
    assert books[..i] == books;
  }

  /** A year no book was read in has an empty filter. */
  lemma NoYearNoGroup(books: seq<Object>, yearOf: Object -> int, y: int)
    requires !HasYear(books, yearOf, y)
    ensures Filter(books, YearIs(yearOf, y)) == []
  {
  }

  /** One more book changes only its own year: its filter gains the book
      at the end, and its year is now present. */
  lemma GroupStep(books: seq<Object>, yearOf: Object -> int, i: nat)
    requires i < |books|
    ensures forall y :: Filter(books[..i + 1], YearIs(yearOf, y)) ==
                        Filter(books[..i], YearIs(yearOf, y)) + (if yearOf(books[i]) == y then [books[i]] else [])
    ensures forall y :: HasYear(books[..i + 1], yearOf, y) <==> HasYear(books[..i], yearOf, y) || y == yearOf(books[i])
  {
    var book := books[i];
    assert books[..i + 1] == books[..i] + [book];
    forall y ensures Filter(books[..i + 1], YearIs(yearOf, y)) ==
                     Filter(books[..i], YearIs(yearOf, y)) + (if yearOf(book) == y then [book] else []) {
      FilterAppend(books[..i], [book], YearIs(yearOf, y));
    }
    forall y ensures HasYear(books[..i + 1], yearOf, y) <==> HasYear(books[..i], yearOf, y) || y == yearOf(book) {
      if HasYear(books[..i + 1], yearOf, y) && y != yearOf(book) {
        var j :| 0 <= j < i + 1 && yearOf(books[..i + 1][j]) == y;
        assert 0 <= j < i && yearOf(books[..i][j]) == y;
      }
      if HasYear(books[..i], yearOf, y) {
        var j :| 0 <= j < i && yearOf(books[..i][j]) == y;
        assert yearOf(books[..i + 1][j]) == y;
      }
      if y == yearOf(book) {
        assert yearOf(books[..i + 1][i]) == y;
      }
    }
  }

  /** Every book is in the group of its year and in no other, and each group
      keeps the input order. */
  lemma OneGroupPerBook(books: seq<Object>, yearOf: Object -> int, groups: map<int, seq<Object>>, b: Object)
    requires forall y :: y in groups <==> HasYear(books, yearOf, y)
    requires forall y :: y in groups ==> groups[y] == Filter(books, YearIs(yearOf, y))
    requires b in books
    ensures yearOf(b) in groups && b in groups[yearOf(b)]
    ensures forall y :: y in groups && b in groups[y] ==> y == yearOf(b)
    ensures forall y :: y in groups ==> IsSubsequence(groups[y], books)
  {
    var i :| 0 <= i < |books| && books[i] == b;
    assert HasYear(books, yearOf, yearOf(b));
    FilterMembers(books, YearIs(yearOf, yearOf(b)));
    forall y | y in groups ensures IsSubsequence(groups[y], books) {
      FilterIsSubsequence(books, YearIs(yearOf, y));
    }
  }

  // ---------------------------------------------------------------------------
  // Years, newest first
  // ---------------------------------------------------------------------------

  predicate StrictlyDescending(ys: seq<int>) {
    forall i, j :: 0 <= i < j < |ys| ==> ys[i] > ys[j]
  }

  /** A non-empty set of years has a latest one. */
  lemma LatestExists(years: set<int>)
    requires years != {}
    ensures exists m :: m in years && forall y :: y in years ==> y <= m
  {
    var m := Latest(years);
  }

  /** The latest of a non-empty set of years, found by removing one year at
      a time. */
  lemma {:induction false} Latest(years: set<int>) returns (m: int)
    requires years != {}
    ensures m in years && forall y :: y in years ==> y <= m
    decreases |years|
  {
    if forall x :: x !in years {
      assert false;
    }
    var x :| x in years;
    var rest := years - {x};
    if rest == {} {
      m := x;
    } else {
      var r := Latest(rest);
      m := if x > r then x else r;
    }
    forall y | y in years ensures y <= m {
      assert y in rest || y == x;
    }
  }

  /** `Object.keys(groups).sort((a, b) => b - a)`: the years, each once,
      newest first. */
  function Descending(years: set<int>): (ys: seq<int>)
    ensures StrictlyDescending(ys)
    ensures forall y :: y in ys <==> y in years
    ensures |ys| == |years|
    decreases |years|
  {
    if years == {} then []
    else
      LatestExists(years);
      var m :| m in years && forall y :: y in years ==> y <= m;
      [m] + Descending(years - {m})
  }

  // ---------------------------------------------------------------------------
  // Group sizes
  // ---------------------------------------------------------------------------

  /** The total size of the groups listed in `ys`. */
  function SizeSum(groups: map<int, seq<Object>>, ys: seq<int>): nat
    requires forall i :: 0 <= i < |ys| ==> ys[i] in groups
  {
    if ys == [] then 0 else |groups[ys[0]]| + SizeSum(groups, ys[1..])
  }

  /** The total size of the year filters for the years in `ys`. */
  function FilterSum(books: seq<Object>, yearOf: Object -> int, ys: seq<int>): nat {
    if ys == [] then 0 else |Filter(books, YearIs(yearOf, ys[0]))| + FilterSum(books, yearOf, ys[1..])
  }

  /** How often `v` occurs in `ys`. */
  function Hits(v: int, ys: seq<int>): nat {
    if ys == [] then 0 else (if ys[0] == v then 1 else 0) + Hits(v, ys[1..])
  }

  /** In a list without repetitions a year occurs once if at all. */
  lemma {:induction false} HitsOnce(v: int, ys: seq<int>)
    requires StrictlyDescending(ys)
    ensures Hits(v, ys) == if v in ys then 1 else 0
  {
    if ys != [] {
      HitsOnce(v, ys[1..]);
      if ys[0] == v {
        assert v !in ys[1..];
      }
    }
  }

  /** Adding a book in front adds one to the filter of its year only. */
  lemma {:induction false} FilterSumCons(b: Object, rest: seq<Object>, yearOf: Object -> int, ys: seq<int>)
    ensures FilterSum([b] + rest, yearOf, ys) == Hits(yearOf(b), ys) + FilterSum(rest, yearOf, ys)
  {
    if ys != [] {
      FilterSumCons(b, rest, yearOf, ys[1..]);
      assert ([b] + rest)[1..] == rest;
    }
  }

  /** Over a list of distinct years covering every book, the year filters
      add up to the number of books. */
  lemma {:induction false} FilterSumAll(books: seq<Object>, yearOf: Object -> int, ys: seq<int>)
    requires StrictlyDescending(ys)
    requires forall i :: 0 <= i < |books| ==> yearOf(books[i]) in ys
    ensures FilterSum(books, yearOf, ys) == |books|
  {
    if books == [] {
      FilterSumEmpty(yearOf, ys);
    } else {
      assert books == [books[0]] + books[1..];
      FilterSumCons(books[0], books[1..], yearOf, ys);
      HitsOnce(yearOf(books[0]), ys);
      FilterSumAll(books[1..], yearOf, ys);
    }
  }

  lemma {:induction false} FilterSumEmpty(yearOf: Object -> int, ys: seq<int>)
    ensures FilterSum([], yearOf, ys) == 0
  {
    if ys != [] {
      FilterSumEmpty(yearOf, ys[1..]);
    }
  }

  /** Groups that are the year filters have the filters' total size. */
  lemma {:induction false} SizeSumIsFilterSum(books: seq<Object>, yearOf: Object -> int, groups: map<int, seq<Object>>, ys: seq<int>)
    requires forall i :: 0 <= i < |ys| ==> ys[i] in groups && groups[ys[i]] == Filter(books, YearIs(yearOf, ys[i]))
    ensures SizeSum(groups, ys) == FilterSum(books, yearOf, ys)
  {
    if ys != [] {
      SizeSumIsFilterSum(books, yearOf, groups, ys[1..]);
    }
  }

  /** The component: the groups and the years to list, newest first. No
      group is empty, every listed year has its group and every group is
      listed, and the groups together hold every book: their sizes add up to
      the number of books. */
  method Shelf(books: seq<Object>, yearOf: Object -> int) returns (years: seq<int>, groups: map<int, seq<Object>>)
    ensures StrictlyDescending(years)
    ensures forall y :: y in years <==> y in groups
    ensures forall i :: 0 <= i < |years| ==> years[i] in groups
    ensures forall y :: y in groups <==> HasYear(books, yearOf, y)
    ensures forall y :: y in groups ==> groups[y] == Filter(books, YearIs(yearOf, y)) && groups[y] != []
    ensures SizeSum(groups, years) == |books|
  {
    groups := GroupByYear(books, yearOf);
    years := Descending(groups.Keys);
    forall i | 0 <= i < |books| ensures yearOf(books[i]) in years {
      assert HasYear(books, yearOf, yearOf(books[i]));
    }
    FilterSumAll(books, yearOf, years);
    SizeSumIsFilterSum(books, yearOf, groups, years);
  }
}
