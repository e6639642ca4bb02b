/** A database table held as the sequence of its rows in row order, with the
    query operators the services use: LINQ `Where`, `FirstOrDefault`, and the
    removal of one row. */
module Tables {
  import opened Models

  /** `Where(p)`: the rows satisfying `p`, in table order. */
  function Filter<T(!new)>(s: seq<T>, p: T -> bool): (r: seq<T>)
    ensures |r| <= |s|
    ensures forall x :: x in r <==> x in s && p(x)
  {
    if s == [] then []
    else if p(s[0]) then [s[0]] + Filter(s[1..], p)
    else Filter(s[1..], p)
  }

  /** `FirstOrDefault(p)`, as the position of the first row satisfying `p`. */
  function FirstIndex<T(!new)>(s: seq<T>, p: T -> bool): (r: Option<nat>)
    ensures r.Some? ==> r.value < |s| && p(s[r.value])
    ensures r.Some? ==> forall j :: 0 <= j < r.value ==> !p(s[j])
    ensures r.None? <==> forall x :: x in s ==> !p(x)
  {
    if s == [] then None
    else if p(s[0]) then Some(0)
    else
      match FirstIndex(s[1..], p)
      case None => None
      case Some(k) => Some(k + 1)
  }

  /** `Remove(row)` for the row at position `k`. */
  function RemoveAt<T(!new)>(s: seq<T>, k: nat): (r: seq<T>)
    requires k < |s|
    ensures |r| == |s| - 1
    ensures forall i :: 0 <= i < k ==> r[i] == s[i]
    ensures forall i :: k <= i < |r| ==> r[i] == s[i + 1]
  {
    s[..k] + s[k + 1..]
  }

  /** Keys strictly increase in row order, as AUTOINCREMENT ids do. */
  ghost predicate Ascending<T(!new)>(s: seq<T>, key: T -> int) {
    forall i, j :: 0 <= i < j < |s| ==> key(s[i]) < key(s[j])
  }

  /** `Where` distributes over the concatenation of two row ranges. */
  lemma {:induction false} FilterConcat<T(!new)>(a: seq<T>, b: seq<T>, p: T -> bool)
    ensures Filter(a + b, p) == Filter(a, p) + Filter(b, p)
  {
    if a == [] {
      assert a + b == b;
    } else {
      assert (a + b)[0] == a[0];
      assert (a + b)[1..] == a[1..] + b;
      FilterConcat(a[1..], b, p);
    }
  }

  /** Removing the row at `k` removes it, and only it, from every `Where`. */
  lemma FilterRemoveAt<T(!new)>(s: seq<T>, k: nat, p: T -> bool)
    requires k < |s|
    ensures |Filter(RemoveAt(s, k), p)| == |Filter(s, p)| - (if p(s[k]) then 1 else 0)
  {
    assert s == s[..k] + ([s[k]] + s[k + 1..]);
    FilterConcat(s[..k], [s[k]] + s[k + 1..], p);
    FilterConcat([s[k]], s[k + 1..], p);
    FilterConcat(s[..k], s[k + 1..], p);
    assert [s[k]][1..] == [];
  }

  /** A second `Where` that only keeps rows the first one keeps changes nothing. */
  lemma {:induction false} FilterAbsorbs<T(!new)>(s: seq<T>, p: T -> bool, q: T -> bool)
    requires forall x :: x in s && q(x) ==> p(x)
    ensures Filter(Filter(s, p), q) == Filter(s, q)
  {
    if s != [] {
      FilterAbsorbs(s[1..], p, q);
    }
  }

  /** `Where` keeps the rows in order, so it keeps keys ascending. */
  lemma {:induction false} FilterAscending<T(!new)>(s: seq<T>, p: T -> bool, key: T -> int)
    requires Ascending(s, key)
    ensures Ascending(Filter(s, p), key)
  {
    if s != [] {
      FilterAscending(s[1..], p, key);
      var rest := Filter(s[1..], p);
      forall j | 0 <= j < |rest|
        ensures key(s[0]) < key(rest[j])
      {
        assert rest[j] in s[1..];
      }
    }
  }

  /** Removing one row keeps keys ascending. */
  lemma RemoveAtAscending<T(!new)>(s: seq<T>, k: nat, key: T -> int)
    requires k < |s| && Ascending(s, key)
    ensures Ascending(RemoveAt(s, k), key)
  {
    var r := RemoveAt(s, k);
    forall i, j | 0 <= i < j < |r|
      ensures key(r[i]) < key(r[j])
    {
      var i' := if i < k then i else i + 1;
      var j' := if j < k then j else j + 1;
      assert r[i] == s[i'] && r[j] == s[j'];
    }
  }

  /** With ascending keys, the rows left after removing row `k` are exactly
      those whose key differs from row `k`'s. */
  lemma RemoveAtByKey<T(!new)>(s: seq<T>, k: nat, key: T -> int)
    requires k < |s| && Ascending(s, key)
    ensures forall x :: x in RemoveAt(s, k) <==> x in s && key(x) != key(s[k])
  {
    var r := RemoveAt(s, k);
    forall x | x in r
      ensures x in s && key(x) != key(s[k])
    {
      var i :| 0 <= i < |r| && r[i] == x;
      if i < k { assert x == s[i]; } else { assert x == s[i + 1]; }
    }
    forall x | x in s && key(x) != key(s[k])
      ensures x in r
    {
      var i :| 0 <= i < |s| && s[i] == x;
      if i < k { assert r[i] == x; } else { assert i != k; assert r[i - 1] == x; }
    }
  }

  /** With ascending keys, a key names at most one row. */
  lemma KeyDeterminesRow<T(!new)>(s: seq<T>, k: nat, x: T, key: T -> int)
    requires k < |s| && Ascending(s, key)
    requires x in s && key(x) == key(s[k])
    ensures x == s[k]
  {
    var i :| 0 <= i < |s| && s[i] == x;
    assert !(i < k) && !(k < i);
  }

  /** Rows with ascending keys are pairwise distinct, so they form a set of the same size. */
  lemma {:induction false} AscendingCard<T(!new)>(s: seq<T>, key: T -> int)
    requires Ascending(s, key)
    ensures |set x | x in s| == |s|
  {
    if s != [] {
      var t := s[1..];
      assert Ascending(t, key);
      AscendingCard(t, key);
      assert s[0] !in t by {
        forall j | 0 <= j < |t| ensures t[j] != s[0] { assert key(s[0]) < key(t[j]); }
      }
      assert (set x | x in s) == {s[0]} + (set x | x in t) by {
        assert s == [s[0]] + t;
      }
    }
  }
}
