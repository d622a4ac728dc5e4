/** The `books` table: its record type, its column constraints, and the stored catalog
    (lecture_5/book_api/models.py). */
module BookModels {
  import opened Wrappers
  import Collections

  /** A stored book. `title` and `author` are NOT NULL columns, so a stored book always
      has them; `year` is nullable. No length bound and no sign constraint is enforced. */
  datatype Book = Book(id: int, title: string, author: string, year: Option<int>)

  /** The ORM object while it is being edited, before the session flushes it: any
      column, including a NOT NULL one, may hold null at this point. */
  datatype Row = Row(id: int, title: Option<string>, author: Option<string>, year: Option<int>)

  /** The errors a catalog operation reports: the id is missing (HTTP 404); the flush
      broke a NOT NULL column; or the sqlite3 driver refused to bind an integer outside
      SQLite's INTEGER range (Python's `OverflowError`). The last two reach the client
      as a server error after the session is rolled back. */
  datatype CatalogError = NotFound | IntegrityError | IntegerOverflow

  /** SQLite's INTEGER is a signed 64-bit integer; the driver binds no other Python int. */
  const MinInteger: int := -0x8000_0000_0000_0000
  const MaxInteger: int := 0x7FFF_FFFF_FFFF_FFFF

  predicate FitsInteger(x: int) {
    MinInteger <= x <= MaxInteger
  }

  /** A nullable INTEGER value the driver can bind. */
  predicate YearFits(year: Option<int>) {
    year.Some? ==> FitsInteger(year.value)
  }

  /** `id` is the primary key: every record is filed under its own id. Every stored year
      is an SQLite INTEGER. */
  predicate KeyedById(m: map<int, Book>) {
    forall id :: id in m ==> m[id].id == id && YearFits(m[id].year)
  }

  /** The committed contents of the table. */
  type Store = m: map<int, Book> | KeyedById(m) witness map[]

  function ToRow(b: Book): Row {
    Row(b.id, Some(b.title), Some(b.author), b.year)
  }

  /** Flushing a row: the driver first binds the year, which must be an SQLite INTEGER;
      then the NOT NULL constraints on `title` and `author` are checked. A row that
      passes both is the stored book it describes. */
  function Persist(r: Row): (res: Result<Book, CatalogError>)
    ensures !YearFits(r.year) ==> res == Err(IntegerOverflow)
    ensures YearFits(r.year) && (r.title.None? || r.author.None?) ==> res == Err(IntegrityError)
    ensures res.Ok? <==> YearFits(r.year) && r.title.Some? && r.author.Some?
    ensures res.Ok? ==> ToRow(res.value) == r && YearFits(res.value.year)
  {
    if !YearFits(r.year) then Err(IntegerOverflow)
    else if r.title.None? || r.author.None? then Err(IntegrityError)
    else Ok(Book(r.id, r.title.value, r.author.value, r.year))
  }

  /** A stored book always survives a flush unchanged. */
  lemma PersistStoredBook(s: Store, id: int)
    requires id in s
    ensures Persist(ToRow(s[id])) == Ok(s[id])
  {
  }

  /** Two stored records with the same id are the same record. */
  lemma PrimaryKeyUnique(s: Store, b1: Book, b2: Book)
    requires b1 in s.Values && b2 in s.Values && b1.id == b2.id
    ensures b1 == b2
  {
    var k1 := Collections.KeyOf(s, b1);
    var k2 := Collections.KeyOf(s, b2);
  }

  /** Since ids are unique, the catalog holds exactly as many records as ids. */
  lemma {:induction false} RecordCount(s: Store)
    ensures |s.Values| == |s.Keys|
  {
    if s.Keys != {} {
      var k := Collections.PickMember(s.Keys);
      var t: Store := s - {k};
      RecordCount(t);
      forall b | b in s.Values
        ensures b in t.Values + {s[k]}
      {
        var j := Collections.KeyOf(s, b);
        if j != k {
          assert t[j] == b;
        }
      }
      assert s.Values == t.Values + {s[k]};
      assert s[k] !in t.Values by {
        if s[k] in t.Values {
          var j := Collections.KeyOf(t, s[k]);
          assert false;
        }
      }
      assert s.Keys == t.Keys + {k};
    }
  }
}
