/** Collection helpers: the sentinel-terminated read loop of the console exercises,
    and witnesses for membership in sets and map values. */
module Collections {

  /** A non-empty set has a member, and here is one. */
  lemma PickMember<T>(s: set<T>) returns (x: T)
    requires s != {}
    ensures x in s
  {
    // Stating the empty case and refuting it puts an element of `s` in scope, which
    // the choice below needs; non-emptiness alone does not.
    if forall y :: y !in s {
      assert false;
    }
    x :| x in s;
  }

  /** Every value of a map is stored under some key, and here is one. */
  lemma KeyOf<K, V>(m: map<K, V>, v: V) returns (k: K)
    requires v in m.Values
    ensures k in m && m[k] == v
  {
    // As in PickMember: refuting "no key holds v" makes the key available to the choice.
    if forall j :: j in m ==> m[j] != v {
      assert false;
    }
    k :| k in m && m[k] == v;
  }

  /** The entries of `xs` up to, but excluding, the first occurrence of `stop`;
      all of `xs` when `stop` never occurs. This is the "read until a sentinel" loop
      of the console programs, with the input stream given as a finite sequence. */
  function TakeUntil<T(==)>(xs: seq<T>, stop: T): (r: seq<T>)
    ensures |r| <= |xs| && r == xs[..|r|]
    ensures stop !in r
    ensures |r| < |xs| ==> xs[|r|] == stop
  {
    if xs == [] then []
    else if xs[0] == stop then []
    else [xs[0]] + TakeUntil(xs[1..], stop)
  }

  /** The sentinel characterisation pins the prefix down: any prefix that avoids `stop`
      and is either all of `xs` or followed by `stop` is exactly `TakeUntil(xs, stop)`. */
  lemma TakeUntilUnique<T>(xs: seq<T>, stop: T, p: seq<T>)
    requires |p| <= |xs| && p == xs[..|p|]
    requires stop !in p
    requires |p| < |xs| ==> xs[|p|] == stop
    ensures p == TakeUntil(xs, stop)
  {
  }
}
