/** Properties that relate several catalog operations to one another. */
module BookApiProperties {
  import opened Wrappers
  import opened BookModels
  import opened BookApi

  /** A run of create requests, in order: the outcome of each request and the final
      store. A request succeeds iff its year is an SQLite INTEGER; a created record
      carries its request's fields under an id not in use before, it is in the final
      store, and every earlier record is kept. */
  function CreateAll(s: Store, items: seq<BookCreate>): (r: (seq<Result<Book, CatalogError>>, Store))
    ensures |r.0| == |items|
    ensures forall k :: k in s ==> k in r.1 && r.1[k] == s[k]
    ensures forall i :: 0 <= i < |items| ==>
      (r.0[i].Ok? <==> YearFits(items[i].year))
      && (r.0[i].Err? ==> r.0[i].error == IntegerOverflow)
    ensures forall i :: 0 <= i < |items| && r.0[i].Ok? ==>
      var b := r.0[i].value;
      && b.id !in s && b.id in r.1 && r.1[b.id] == b
      && b.title == items[i].title && b.author == items[i].author
      && b.year == items[i].year
    decreases |items|
  {
    if items == [] then ([], s)
    else
      var o := CreateBook(s, items[0]);
      var rest := CreateAll(o.store, items[1..]);
      ([o.result] + rest.0, rest.1)
  }

  /** The successful creates of a run hand out pairwise distinct ids. */
  predicate DistinctIds(results: seq<Result<Book, CatalogError>>) {
    forall i, j :: 0 <= i < j < |results| && results[i].Ok? && results[j].Ok? ==>
      results[i].value.id != results[j].value.id
  }

  /** Putting an outcome whose id is in `store` before outcomes whose ids are not keeps
      the ids distinct. */
  lemma DistinctCons(head: Result<Book, CatalogError>, rest: seq<Result<Book, CatalogError>>, store: Store)
    requires DistinctIds(rest)
    requires head.Ok? ==> head.value.id in store
    requires forall j :: 0 <= j < |rest| && rest[j].Ok? ==> rest[j].value.id !in store
    ensures DistinctIds([head] + rest)
  {
    var results := [head] + rest;
    forall i, j | 0 <= i < j < |results| && results[i].Ok? && results[j].Ok?
      ensures results[i].value.id != results[j].value.id
    {
      assert results[j] == rest[j - 1];
      if i > 0 {
        assert results[i] == rest[i - 1];
      }
    }
  }

  /** Successful creates yield pairwise distinct ids. */
  lemma {:induction false} CreateAllDistinct(s: Store, items: seq<BookCreate>)
    ensures DistinctIds(CreateAll(s, items).0)
    decreases |items|
  {
    if items != [] {
      var o := CreateBook(s, items[0]);
      CreateAllDistinct(o.store, items[1..]);
      DistinctCons(o.result, CreateAll(o.store, items[1..]).0, o.store);
    }
  }

  /** The number of requests in a run whose year is an SQLite INTEGER. */
  function Fitting(items: seq<BookCreate>): nat {
    if items == [] then 0
    else (if YearFits(items[0].year) then 1 else 0) + Fitting(items[1..])
  }

  /** A run of creates grows the table by exactly one record per request whose year
      binds. */
  lemma {:induction false} CreateAllCount(s: Store, items: seq<BookCreate>)
    ensures |CreateAll(s, items).1| == |s| + Fitting(items)
    decreases |items|
  {
    if items != [] {
      var o := CreateBook(s, items[0]);
      CreateAllCount(o.store, items[1..]);
      if o.result.Ok? {
        assert o.store.Keys == s.Keys + {o.result.value.id};
      }
    }
  }

  /** Round trip: after a create, the listing is the old listing plus the new record;
      after a failed create it is the old listing. */
  lemma CreateThenList(s: Store, data: BookCreate)
    ensures var o := CreateBook(s, data);
      forall b :: b in ListBooks(o.store).result.value <==>
        b in ListBooks(s).result.value || (o.result.Ok? && b == o.result.value)
  {
  }

  /** A deleted record is gone for good: a second delete or an update of its id
      reports `NotFound`. */
  lemma DeleteIsPermanent(s: Store, id: int, p: BookUpdate)
    requires DeleteBook(s, id).result.Ok?
    ensures var s' := DeleteBook(s, id).store;
      && (forall b :: b in ListBooks(s').result.value ==> b.id != id)
      && DeleteBook(s', id) == Outcome(Err(NotFound), s')
      && UpdateBook(s', id, p) == Outcome(Err(NotFound), s')
  {
  }

  /** An update that sends no field returns the record as it was and changes nothing
      (or, for an id past the INTEGER range, fails the lookup). */
  lemma UpdateNothing(s: Store, id: int)
    requires id in s
    ensures UpdateBook(s, id, BookUpdate(Unset, Unset, Unset))
      == if FitsInteger(id) then Outcome(Ok(s[id]), s) else Outcome(Err(IntegerOverflow), s)
  {
  }

  /** Sending the same update twice has the effect of sending it once. */
  lemma UpdateIdempotent(s: Store, id: int, p: BookUpdate)
    requires UpdateBook(s, id, p).result.Ok?
    ensures var o := UpdateBook(s, id, p);
      UpdateBook(o.store, id, p) == o
  {
  }

  /** The search ignores falsy criteria: an empty title or author, or year 0, filters
      exactly as a missing one. */
  lemma SearchIgnoresFalsy(s: Store, c: Criteria)
    ensures SearchBooks(s, c.(title := Some(""))) == SearchBooks(s, c.(title := None))
    ensures SearchBooks(s, c.(author := Some(""))) == SearchBooks(s, c.(author := None))
    ensures SearchBooks(s, c.(year := Some(0))) == SearchBooks(s, c.(year := None))
  {
  }

  /** With no truthy criterion the search is the full listing, not an empty one. */
  lemma SearchWithoutCriteria(s: Store, c: Criteria)
    requires !TitleGiven(c) && !AuthorGiven(c) && !YearGiven(c)
    ensures SearchBooks(s, c) == ListBooks(s)
  {
  }

  /** The search never returns a record the listing does not. */
  lemma SearchWithinList(s: Store, c: Criteria)
    ensures SearchBooks(s, c).result.Ok? ==>
      SearchBooks(s, c).result.value <= ListBooks(s).result.value
  {
  }

  /** The criteria compose by conjunction: searching with all of them is intersecting
      the searches by each one alone. */
  lemma SearchIsIntersection(s: Store, c: Criteria)
    ensures SearchBooks(s, c).result.Ok? <==> SearchBooks(s, Criteria(None, None, c.year)).result.Ok?
    ensures SearchBooks(s, c).result.Ok? ==>
      SearchBooks(s, c).result.value
      == SearchBooks(s, Criteria(c.title, None, None)).result.value
       * SearchBooks(s, Criteria(None, c.author, None)).result.value
       * SearchBooks(s, Criteria(None, None, c.year)).result.value
  {
  }

  /** Two books by the same author whose titles share a prefix: the title criterion alone
      matches both, and adding the year keeps only the first. */
  lemma SearchTitleAndYear()
    ensures var dune := Book(1, "Dune", "Herbert", Some(1965));
      var messiah := Book(2, "Dune Messiah", "Herbert", Some(1969));
      var s: Store := map[1 := dune, 2 := messiah];
      && SearchBooks(s, Criteria(Some("Dune"), None, None)).result.value == {dune, messiah}
      && SearchBooks(s, Criteria(Some("Dune"), None, Some(1965))).result.value == {dune}
  {
    var dune := Book(1, "Dune", "Herbert", Some(1965));
    var messiah := Book(2, "Dune Messiah", "Herbert", Some(1969));
    assert "Dune" <= dune.title[0..];
    assert "Dune" <= messiah.title[0..];
  }
}
