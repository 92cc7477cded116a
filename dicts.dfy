/** Python dictionaries keep their keys in insertion order: a new key goes to
    the end, an existing key keeps its place, and `pop` removes a key without
    disturbing the others.  A `Dict` is that order together with the value
    stored under each key. */
module Dicts {

  datatype Dict<K, V> = Dict(keys: seq<K>, vals: map<K, V>)

  /** A non-empty sequence is its front followed by its last element. */
  lemma LastSplit<T>(s: seq<T>)
    requires s != []
    ensures s == s[..|s| - 1] + [s[|s| - 1]]
  {
  }

  ghost predicate Distinct<T>(s: seq<T>) {
    forall i, j :: 0 <= i < j < |s| ==> s[i] != s[j]
  }

  /** Every element of ks has a value in v. */
  ghost predicate HasValues<K(!new), V>(ks: seq<K>, v: map<K, V>) {
    forall i :: 0 <= i < |ks| ==> ks[i] in v
  }

  /** The order lists every key of the map exactly once. */
  ghost predicate WellFormed<K(!new), V>(d: Dict<K, V>) {
    && Distinct(d.keys)
    && (forall k :: k in d.vals <==> k in d.keys)
  }

  function Empty<K(==,!new), V>(): (d: Dict<K, V>)
    ensures WellFormed(d) && d.keys == [] && d.vals == map[]
  {
    Dict([], map[])
  }

  /** `d[k] = v` */
  function Store<K(==,!new), V>(d: Dict<K, V>, k: K, v: V): (r: Dict<K, V>)
    requires WellFormed(d)
    ensures WellFormed(r)
    ensures r.vals == d.vals[k := v]
  {
    if k in d.vals then Dict(d.keys, d.vals[k := v]) else Dict(d.keys + [k], d.vals[k := v])
  }

  /** The sequence without the first occurrence of x. */
  function RemoveFirst<T(==,!new)>(s: seq<T>, x: T): (r: seq<T>)
    ensures forall y :: y in r ==> y in s
    ensures x in s ==> |r| == |s| - 1
    ensures x !in s ==> r == s
  {
    if s == [] then []
    else if s[0] == x then s[1..]
    else [s[0]] + RemoveFirst(s[1..], x)
  }

  lemma {:induction false} RemoveFirstMiddle<T(!new)>(a: seq<T>, x: T, b: seq<T>)
    requires x !in a
    ensures RemoveFirst(a + [x] + b, x) == a + b
  {
    if a == [] {
      assert a + [x] + b == [x] + b;
    } else {
      assert (a + [x] + b)[1..] == a[1..] + [x] + b;
      RemoveFirstMiddle(a[1..], x, b);
      assert a == [a[0]] + a[1..];
    }
  }

  lemma {:induction false} RemoveFirstDistinct<T(!new)>(s: seq<T>, x: T)
    requires Distinct(s)
    ensures Distinct(RemoveFirst(s, x))
    ensures forall y :: y in RemoveFirst(s, x) <==> y in s && y != x
  {
    if s != [] && s[0] != x {
      assert Distinct(s[1..]) by {
        forall i, j | 0 <= i < j < |s[1..]| ensures s[1..][i] != s[1..][j] {
          assert s[1..][i] == s[i + 1] && s[1..][j] == s[j + 1];
        }
      }
      RemoveFirstDistinct(s[1..], x);
      assert s[0] !in s[1..];
    } else if s != [] {
      assert s[0] !in s[1..];
    }
  }

  /** `d.pop(k)` for a key that is present: the other keys keep their order
      and their values. */
  function Pop<K(==,!new), V>(d: Dict<K, V>, k: K): (r: Dict<K, V>)
    requires WellFormed(d) && k in d.vals
    ensures WellFormed(r)
    ensures r.vals == d.vals - {k}
  {
    RemoveFirstDistinct(d.keys, k);
    Dict(RemoveFirst(d.keys, k), d.vals - {k})
  }
  /** Python's dict order under `d[k] = v`: a new key goes to the end, a key
      already present keeps its place. */
  lemma StoreOrder<K(!new), V>(d: Dict<K, V>, k: K, v: V)
    requires WellFormed(d)
    ensures k in d.vals ==> Store(d, k, v).keys == d.keys
    ensures k !in d.vals ==> Store(d, k, v).keys == d.keys + [k]
  {
  }

  /** Python's dict order under `d.pop(k)`: the other keys keep their
      relative order. */
  lemma PopOrder<K(!new), V>(d: Dict<K, V>, k: K)
    requires WellFormed(d) && k in d.vals
    ensures Pop(d, k).keys == RemoveFirst(d.keys, k)
    ensures exists i :: 0 <= i < |d.keys| && d.keys[i] == k && Pop(d, k).keys == d.keys[..i] + d.keys[i + 1..]
  {
    var i :| 0 <= i < |d.keys| && d.keys[i] == k;
    assert d.keys == d.keys[..i] + [k] + d.keys[i + 1..];
    assert k !in d.keys[..i] by {
      forall j | 0 <= j < i ensures d.keys[..i][j] != k {
        assert d.keys[..i][j] == d.keys[j];
      }
    }
    RemoveFirstMiddle(d.keys[..i], k, d.keys[i + 1..]);
  }


  /** The distinct elements of s that are not in seed, in order of first
      occurrence, appended to seed. */
  function DedupOnto<T(==,!new)>(seed: seq<T>, s: seq<T>): (r: seq<T>)
    ensures Distinct(seed) ==> Distinct(r)
    ensures |seed| <= |r| && r[..|seed|] == seed
    ensures forall x :: x in r <==> x in seed || x in s
    decreases |s|
  {
    if s == [] then seed
    else
      var p := DedupOnto(seed, s[..|s| - 1]);
      assert forall x :: x in s <==> x in s[..|s| - 1] || x == s[|s| - 1];
      if s[|s| - 1] in p then p else p + [s[|s| - 1]]
  }

  function Dedup<T(==,!new)>(s: seq<T>): seq<T> {
    DedupOnto([], s)
  }

  /** Index of the first occurrence of x in s. */
  function FirstIndex<T(==,!new)>(s: seq<T>, x: T): (i: nat)
    requires x in s
    ensures i < |s| && s[i] == x && x !in s[..i]
  {
    if s[0] == x then 0 else 1 + FirstIndex(s[1..], x)
  }

  lemma {:induction false} FirstIndexAppend<T(!new)>(s: seq<T>, y: T, x: T)
    requires x in s
    ensures FirstIndex(s + [y], x) == FirstIndex(s, x)
  {
    if s[0] != x {
      assert (s + [y])[1..] == s[1..] + [y];
      FirstIndexAppend(s[1..], y, x);
    }
  }

  lemma FirstIndexUnique<T(!new)>(s: seq<T>, x: T, i: nat)
    requires i < |s| && s[i] == x && x !in s[..i]
    ensures FirstIndex(s, x) == i
  {
  }

  /** Dedup lists the elements in the order each is first seen. */
  lemma {:induction false} DedupFirstSeen<T(!new)>(s: seq<T>)
    ensures Distinct(Dedup(s))
    ensures forall x :: x in Dedup(s) <==> x in s
    ensures forall i, j :: 0 <= i < j < |Dedup(s)| ==>
      FirstIndex(s, Dedup(s)[i]) < FirstIndex(s, Dedup(s)[j])
    decreases |s|
  {
    if s != [] {
      var init, y := s[..|s| - 1], s[|s| - 1];
      assert s == init + [y];
      DedupFirstSeen(init);
      var p := Dedup(init);
      forall i, j | 0 <= i < j < |Dedup(s)|
        ensures FirstIndex(s, Dedup(s)[i]) < FirstIndex(s, Dedup(s)[j])
      {
        FirstIndexAppend(init, y, p[i]);
        if j < |p| {
          FirstIndexAppend(init, y, p[j]);
        } else {
          assert Dedup(s)[j] == y && y !in init;
          assert s[..|init|] == init;
          FirstIndexUnique(s, y, |init|);
        }
      }
    }
  }
}
