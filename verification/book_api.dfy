/** The five catalog operations of the book service (lecture_5/book_api/main.py), each a
    pure function from the committed store and its arguments to a result and the store
    committed afterwards. A failed operation commits nothing. */
module BookApi {
  import opened Wrappers
  import opened BookModels
  import Collections

  /** What an operation reports, and the store as it stands once the session is closed. */
  datatype Outcome<T> = Outcome(result: Result<T, CatalogError>, store: Store)

  /** The create payload: `year` may be left out, and then it is null. */
  datatype BookCreate = BookCreate(title: string, author: string, year: Option<int>)

  /** One field of the update payload. Pydantic distinguishes a field the client never
      sent (`Unset`, dropped by `exclude_unset`) from one it sent as null (`SetNull`). */
  datatype Field<T> = Unset | SetNull | SetTo(value: T)

  datatype BookUpdate = BookUpdate(title: Field<string>, author: Field<string>, year: Field<int>)

  /** The search query string: each criterion may be missing. */
  datatype Criteria = Criteria(title: Option<string>, author: Option<string>, year: Option<int>)

  // ---------------------------------------------------------------- create

  /** `m` is the largest of `ids`. */
  predicate IsLargest(m: int, ids: set<int>) {
    m in ids && forall k :: k in ids ==> k <= m
  }

  /** A non-empty set of ids has a largest element. */
  lemma {:induction false} HasLargestId(ids: set<int>)
    requires ids != {}
    ensures exists m :: IsLargest(m, ids)
  {
    var x := Collections.PickMember(ids);
    var rest := ids - {x};
    if rest == {} {
      assert ids == {x};
      assert IsLargest(x, ids);
    } else {
      HasLargestId(rest);
      var n :| IsLargest(n, rest);
      var m := if x < n then n else x;
      forall k | k in ids
        ensures k <= m
      {
        if k != x {
          assert k in rest;
        }
      }
      assert IsLargest(m, ids);
    }
  }

  /** The id the table hands out next: one above the largest id in use, or 1 in an empty
      table. The operations below rely only on its freshness. */
  function FreshId(s: Store): (id: int)
    ensures id !in s
  {
    if s.Keys == {} then 1
    else
      HasLargestId(s.Keys);
      var m :| IsLargest(m, s.Keys);
      m + 1
  }

  /** `create_book`: inserts one new record under a fresh id. The insert fails, and nothing
      is stored, when the year is not an SQLite INTEGER. */
  function CreateBook(s: Store, data: BookCreate): (o: Outcome<Book>)
    ensures o.result.Ok? <==> YearFits(data.year)
    ensures !YearFits(data.year) ==> o.result == Err(IntegerOverflow) && o.store == s
    ensures o.result.Ok? ==>
      var b := o.result.value;
      && b.id !in s
      && b.title == data.title && b.author == data.author && b.year == data.year
      && o.store.Keys == s.Keys + {b.id}
      && o.store[b.id] == b
      && forall k :: k in s ==> o.store[k] == s[k]
  {
    match Persist(Row(FreshId(s), Some(data.title), Some(data.author), data.year))
    case Err(e) => Outcome(Err(e), s)
    case Ok(b) => Outcome(Ok(b), s[b.id := b])
  }

  // ---------------------------------------------------------------- list

  /** `get_books`: every stored record, in no particular order. */
  function ListBooks(s: Store): (o: Outcome<set<Book>>)
    ensures o.store == s && o.result.Ok?
    ensures forall b :: b in o.result.value <==> b.id in s && s[b.id] == b
  {
    Outcome(Ok(set id | id in s :: s[id]), s)
  }

  /** The listing holds exactly one record per stored id. */
  lemma ListBooksCount(s: Store)
    ensures |ListBooks(s).result.value| == |s|
  {
    forall b | b in s.Values
      ensures b in ListBooks(s).result.value
    {
      var k := Collections.KeyOf(s, b);
    }
    assert ListBooks(s).result.value == s.Values;
    RecordCount(s);
  }

  // ---------------------------------------------------------------- delete

  /** `delete_book`: removes the record with the given id, or reports `NotFound`. The
      lookup fails first when the id is not an SQLite INTEGER. */
  function DeleteBook(s: Store, id: int): (o: Outcome<()>)
    ensures !FitsInteger(id) ==> o.result == Err(IntegerOverflow) && o.store == s
    ensures FitsInteger(id) && id !in s ==> o.result == Err(NotFound) && o.store == s
    ensures FitsInteger(id) && id in s ==>
      && o.result.Ok?
      && o.store.Keys == s.Keys - {id}
      && forall k :: k in o.store ==> o.store[k] == s[k]
  {
    if !FitsInteger(id) then Outcome(Err(IntegerOverflow), s)
    else if id !in s then Outcome(Err(NotFound), s)
    else Outcome(Ok(()), s - {id})
  }

  // ---------------------------------------------------------------- update

  /** `setattr` of one sent field: a value or an explicit null overwrites, an unsent
      field keeps the current value. */
  function Assign<T>(current: Option<T>, f: Field<T>): Option<T> {
    match f
    case Unset => current
    case SetNull => None
    case SetTo(v) => Some(v)
  }

  /** The loop over `book_update.dict(exclude_unset=True)`: the sent fields are written
      onto the loaded object, the id is never among them. */
  function Merge(r: Row, p: BookUpdate): Row {
    Row(r.id, Assign(r.title, p.title), Assign(r.author, p.author), Assign(r.year, p.year))
  }

  /** `update_book`: merges the sent fields into the record with the given id and commits.
      An id that is not an SQLite INTEGER fails the lookup; an absent id is `NotFound`. At
      the commit, which the session rolls back on failure, a year that is not an SQLite
      INTEGER fails the bind, and a null written into `title` or `author` fails the
      NOT NULL check. */
  function UpdateBook(s: Store, id: int, p: BookUpdate): (o: Outcome<Book>)
    ensures !FitsInteger(id) ==> o.result == Err(IntegerOverflow) && o.store == s
    ensures FitsInteger(id) && id !in s ==> o.result == Err(NotFound) && o.store == s
    ensures FitsInteger(id) && id in s && p.year.SetTo? && !FitsInteger(p.year.value) ==>
      o.result == Err(IntegerOverflow) && o.store == s
    ensures (&& FitsInteger(id) && id in s && !(p.year.SetTo? && !FitsInteger(p.year.value))
             && (p.title.SetNull? || p.author.SetNull?)) ==>
      o.result == Err(IntegrityError) && o.store == s
    ensures (&& FitsInteger(id) && id in s && !(p.year.SetTo? && !FitsInteger(p.year.value))
             && !p.title.SetNull? && !p.author.SetNull?) ==>
      && o.result.Ok?
      && var b := o.result.value;
      && b.id == id
      && b.title == (if p.title.SetTo? then p.title.value else s[id].title)
      && b.author == (if p.author.SetTo? then p.author.value else s[id].author)
      && b.year == (if p.year.SetTo? then Some(p.year.value) else if p.year.SetNull? then None else s[id].year)
      && o.store.Keys == s.Keys
      && o.store[id] == b
      && forall k :: k in s && k != id ==> o.store[k] == s[k]
  {
    if !FitsInteger(id) then Outcome(Err(IntegerOverflow), s)
    else if id !in s then Outcome(Err(NotFound), s)
    else
      match Persist(Merge(ToRow(s[id]), p))
      case Err(e) => Outcome(Err(e), s)
      case Ok(b) => Outcome(Ok(b), s[id := b])
  }

  // ---------------------------------------------------------------- search

  /** SQL `LIKE '%needle%'`, taken as a plain substring test. */
  predicate Contains(hay: string, needle: string) {
    exists i :: 0 <= i <= |hay| && needle <= hay[i..]
  }

  /** A criterion filters only when it is truthy: a missing or empty string, and a
      missing year or year 0, are ignored. */
  predicate TitleGiven(c: Criteria) { c.title.Some? && c.title.value != "" }

  predicate AuthorGiven(c: Criteria) { c.author.Some? && c.author.value != "" }

  predicate YearGiven(c: Criteria) { c.year.Some? && c.year.value != 0 }

  /** The conjunction of the truthy criteria. A null `year` never equals a given year. */
  predicate Satisfies(b: Book, c: Criteria) {
    && (TitleGiven(c) ==> Contains(b.title, c.title.value))
    && (AuthorGiven(c) ==> Contains(b.author, c.author.value))
    && (YearGiven(c) ==> b.year == c.year)
  }

  /** The query's parameters can be bound: a truthy year is an SQLite INTEGER. */
  predicate CriteriaBind(c: Criteria) {
    YearGiven(c) ==> FitsInteger(c.year.value)
  }

  /** `search_books`: starts from the whole table and narrows it by one filter per truthy
      criterion, in the order title, author, year. Running the query fails when the year
      criterion is not an SQLite INTEGER. */
  function SearchBooks(s: Store, c: Criteria): (o: Outcome<set<Book>>)
    ensures o.store == s
    ensures o.result.Ok? <==> CriteriaBind(c)
    ensures !CriteriaBind(c) ==> o.result == Err(IntegerOverflow)
    ensures o.result.Ok? ==>
      forall b :: b in o.result.value <==> b.id in s && s[b.id] == b && Satisfies(b, c)
  {
    var all := set id | id in s :: s[id];
    var byTitle := if TitleGiven(c) then set b | b in all && Contains(b.title, c.title.value) else all;
    var byAuthor := if AuthorGiven(c) then set b | b in byTitle && Contains(b.author, c.author.value) else byTitle;
    var byYear := if YearGiven(c) then set b | b in byAuthor && b.year == c.year else byAuthor;
    if !CriteriaBind(c) then Outcome(Err(IntegerOverflow), s)
    else Outcome(Ok(byYear), s)
  }
}
