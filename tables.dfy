/** Generic operations on a table held as a sequence of rows: the filters,
    lookups and in-place row replacement that the ORM performs, and the
    "this column is unique" constraint. */
module Tables {
  import opened Wrappers

  /** The rows of `s` that satisfy `p`, in their original order (a `filter()` query). */
  function Filter<T(==,!new)>(s: seq<T>, p: T -> bool): (r: seq<T>)
    ensures |r| <= |s|
    ensures forall x :: x in r <==> x in s && p(x)
    ensures forall x :: multiset(r)[x] == if p(x) then multiset(s)[x] else 0
  {
    if s == [] then []
    else
      assert s == [s[0]] + s[1..];
      if p(s[0]) then [s[0]] + Filter(s[1..], p)
      else Filter(s[1..], p)
  }

  /** The first row of `s` that satisfies `p` (a `get()` query on a unique column). */
  function Find<T(==,!new)>(s: seq<T>, p: T -> bool): (r: Option<T>)
    ensures r.Some? ==> r.value in s && p(r.value)
    ensures r.None? <==> forall x :: x in s ==> !p(x)
  {
    if s == [] then None
    else if p(s[0]) then Some(s[0])
    else Find(s[1..], p)
  }

  /** The row whose column `key` holds `k` (a `get(key=k)` lookup). */
  function FindBy<T(==,!new), K(==)>(s: seq<T>, key: T -> K, k: K): (r: Option<T>)
    ensures r.Some? <==> k in KeySet(s, key)
    ensures r.Some? ==> r.value in s && key(r.value) == k
  {
    Find(s, KeyIs(key, k))
  }

  /** `s` with every row whose key equals `key(x)` replaced by `x` (an UPDATE by primary key). */
  function ReplaceBy<T(==,!new), K(==)>(s: seq<T>, key: T -> K, x: T): (r: seq<T>)
    ensures |r| == |s|
    ensures forall y :: y in r ==> y == x || (y in s && key(y) != key(x))
    ensures forall y :: y in s && key(y) != key(x) ==> y in r
    ensures x in r <==> exists y :: y in s && key(y) == key(x)
  {
    if s == [] then []
    else (if key(s[0]) == key(x) then [x] else [s[0]]) + ReplaceBy(s[1..], key, x)
  }

  /** The values that column `key` takes in `s`. */
  function KeySet<T(==,!new), K>(s: seq<T>, key: T -> K): (ks: set<K>)
    ensures forall x :: x in s ==> key(x) in ks
  {
    set x | x in s :: key(x)
  }

  /** Column `key` is unique: two rows with the same key are the same row. */
  ghost predicate UniqueBy<T(!new), K>(s: seq<T>, key: T -> K)
  {
    forall x, y :: x in s && y in s && key(x) == key(y) ==> x == y
  }

  /** `s` with `f` applied to every row, in order (a bulk UPDATE). */
  function Map<T(==,!new)>(s: seq<T>, f: T -> T): (r: seq<T>)
    ensures |r| == |s|
    ensures forall i :: 0 <= i < |s| ==> r[i] == f(s[i])
    ensures forall x :: x in s ==> f(x) in r
  {
    if s == [] then [] else [f(s[0])] + Map(s[1..], f)
  }

  /** The row filter `WHERE key <> v`. */
  function KeyIsNot<T(!new), K(==)>(key: T -> K, v: K): (p: T -> bool)
    ensures forall x :: p(x) <==> key(x) != v
  {
    x => key(x) != v
  }

  /** The row filter `WHERE key = v`. */
  function KeyIs<T(!new), K(==)>(key: T -> K, v: K): (p: T -> bool)
    ensures forall x :: p(x) <==> key(x) == v
  {
    x => key(x) == v
  }

  /** The row filter `WHERE key IN ks`. */
  function KeyIn<T(!new), K(==)>(key: T -> K, ks: set<K>): (p: T -> bool)
    ensures forall x :: p(x) <==> key(x) in ks
  {
    x => key(x) in ks
  }

  /** Every id in `s` is below the next id to be handed out. */
  ghost predicate Below<T(!new)>(s: seq<T>, key: T -> nat, bound: nat)
  {
    forall x :: x in s ==> key(x) < bound
  }

  /** Replacing a row by primary key `id` keeps column `key` unique when no
      other row already holds the new row's value. */
  lemma ReplaceUnique<T(!new), I, K>(s: seq<T>, id: T -> I, x: T, key: T -> K)
    requires UniqueBy(s, key)
    requires forall y :: y in s && id(y) != id(x) ==> key(y) != key(x)
    ensures UniqueBy(ReplaceBy(s, id, x), key)
  {
  }

  /** Deleting the rows with key `v` removes exactly `v` from the key set. */
  lemma KeySetExcept<T(!new), K>(s: seq<T>, key: T -> K, v: K)
    ensures KeySet(Filter(s, KeyIsNot(key, v)), key) == KeySet(s, key) - {v}
  {
    var r := Filter(s, KeyIsNot(key, v));
    forall k | k in KeySet(s, key) - {v} ensures k in KeySet(r, key) {
      var x :| x in s && key(x) == k;
      assert x in r;
    }
  }

  /** `ReplaceBy` works row by row, in place. */
  lemma {:induction false} ReplaceByAt<T(!new), K>(s: seq<T>, key: T -> K, x: T)
    ensures forall i :: 0 <= i < |s| ==>
      ReplaceBy(s, key, x)[i] == if key(s[i]) == key(x) then x else s[i]
  {
    if s != [] {
      ReplaceByAt(s[1..], key, x);
    }
  }

  /** Replacing the row just appended, by its fresh key, is appending the new row instead. */
  lemma ReplaceLast<T(!new), K>(s: seq<T>, key: T -> K, x: T, y: T)
    requires key(y) == key(x)
    requires forall z :: z in s ==> key(z) != key(x)
    ensures ReplaceBy(s + [x], key, y) == s + [y]
  {
    var r := ReplaceBy(s + [x], key, y);
    ReplaceByAt(s + [x], key, y);
    forall i | 0 <= i < |s| ensures r[i] == s[i] {
      assert (s + [x])[i] == s[i] && s[i] in s;
    }
  }

  /** Appending a row whose value in column `key` no row holds yet keeps the column unique. */
  lemma AppendUnique<T(!new), K>(s: seq<T>, key: T -> K, x: T)
    requires UniqueBy(s, key)
    requires forall y :: y in s ==> key(y) != key(x)
    ensures UniqueBy(s + [x], key)
  {
  }

  /** Appending a row keyed with the next id keeps the ids unique and below the following one. */
  lemma AppendFresh<T(!new)>(s: seq<T>, key: T -> nat, x: T, bound: nat)
    requires UniqueBy(s, key) && Below(s, key, bound) && key(x) == bound
    ensures UniqueBy(s + [x], key) && Below(s + [x], key, bound + 1)
  {
    AppendUnique(s, key, x);
  }

  /** Appending a row adds its key to the key set. */
  lemma KeySetAppend<T(!new), K>(s: seq<T>, key: T -> K, x: T)
    ensures KeySet(s + [x], key) == KeySet(s, key) + {key(x)}
  {
    assert x in s + [x];
    forall k | k in KeySet(s, key) ensures k in KeySet(s + [x], key) {
      var y :| y in s && key(y) == k;
      assert y in s + [x];
    }
  }

  /** A bulk update that keeps the key column keeps the set of keys. */
  lemma MapKeySet<T(!new), K>(s: seq<T>, f: T -> T, key: T -> K)
    requires forall x :: key(f(x)) == key(x)
    ensures KeySet(Map(s, f), key) == KeySet(s, key)
  {
    var r := Map(s, f);
    forall k | k in KeySet(r, key) ensures k in KeySet(s, key) {
      var y :| y in r && key(y) == k;
      var i :| 0 <= i < |r| && r[i] == y;
      assert key(s[i]) == k;
    }
  }

  /** A bulk update that keeps the key column keeps every key below the bound. */
  lemma MapBelow<T(!new)>(s: seq<T>, f: T -> T, key: T -> nat, bound: nat)
    requires Below(s, key, bound)
    requires forall x :: key(f(x)) == key(x)
    ensures Below(Map(s, f), key, bound)
  {
    var r := Map(s, f);
    forall y | y in r ensures key(y) < bound {
      var i :| 0 <= i < |r| && r[i] == y;
      assert s[i] in s;
    }
  }

  /** A bulk update that keeps the primary key keeps it unique. */
  lemma MapUnique<T(!new), K>(s: seq<T>, f: T -> T, key: T -> K)
    requires UniqueBy(s, key)
    requires forall x :: key(f(x)) == key(x)
    ensures UniqueBy(Map(s, f), key)
  {
    var r := Map(s, f);
    forall x, y | x in r && y in r && key(x) == key(y) ensures x == y {
      var i :| 0 <= i < |r| && r[i] == x;
      var j :| 0 <= j < |r| && r[j] == y;
      assert s[i] == s[j];
    }
  }

  /** Replacing an existing row by primary key leaves the set of primary keys as it was. */
  lemma ReplaceKeySet<T(!new), K>(s: seq<T>, key: T -> K, x: T)
    requires key(x) in KeySet(s, key)
    ensures KeySet(ReplaceBy(s, key, x), key) == KeySet(s, key)
  {
  }
}
