/** `dict(sorted(d.items(), key=lambda item: item[1], reverse=True))`: the
    same entries, re-inserted by decreasing value.  Python's sort is stable,
    also with `reverse=True`, so entries of equal value keep the order they
    had in d.  The model is an insertion sort on the key order. */
module Sorting {
  import opened Dicts

  /** Values never increase along ks. */
  ghost predicate Descending<K(!new)>(ks: seq<K>, v: map<K, real>)
    requires HasValues(ks, v)
  {
    forall i, j :: 0 <= i < j < |ks| ==> v[ks[i]] >= v[ks[j]]
  }

  /** k placed before the first key whose value is not greater than its own. */
  function Insert<K(==,!new)>(k: K, ks: seq<K>, v: map<K, real>): (r: seq<K>)
    requires k in v && HasValues(ks, v)
    ensures |r| == |ks| + 1 && HasValues(r, v)
    ensures forall x :: x in r <==> x == k || x in ks
  {
    if ks == [] || v[ks[0]] <= v[k] then [k] + ks
    else [ks[0]] + Insert(k, ks[1..], v)
  }

  function SortKeys<K(==,!new)>(ks: seq<K>, v: map<K, real>): (r: seq<K>)
    requires HasValues(ks, v)
    ensures |r| == |ks| && HasValues(r, v)
    ensures forall x :: x in r <==> x in ks
  {
    if ks == [] then [] else Insert(ks[0], SortKeys(ks[1..], v), v)
  }

  /** The sorted copy of a dict: same values, keys by decreasing value. */
  function SortDesc<K(==,!new)>(d: Dict<K, real>): (r: Dict<K, real>)
    requires WellFormed(d)
    ensures WellFormed(r) && r.vals == d.vals
  {
    SortDistinct(d.keys, d.vals);
    Dict(SortKeys(d.keys, d.vals), d.vals)
  }

  /** The keys of ks whose value is x, in the order of ks. */
  function WithValue<K(==,!new)>(ks: seq<K>, v: map<K, real>, x: real): seq<K>
    requires HasValues(ks, v)
  {
    if ks == [] then []
    else (if v[ks[0]] == x then [ks[0]] else []) + WithValue(ks[1..], v, x)
  }

  lemma {:induction false} InsertPermutes<K(!new)>(k: K, ks: seq<K>, v: map<K, real>)
    requires k in v && HasValues(ks, v)
    ensures multiset(Insert(k, ks, v)) == multiset(ks) + multiset{k}
  {
    if ks != [] && v[ks[0]] > v[k] {
      InsertPermutes(k, ks[1..], v);
      assert ks == [ks[0]] + ks[1..];
    }
  }

  lemma {:induction false} InsertDescending<K(!new)>(k: K, ks: seq<K>, v: map<K, real>)
    requires k in v && HasValues(ks, v) && Descending(ks, v)
    ensures Descending(Insert(k, ks, v), v)
  {
    if ks != [] && v[ks[0]] > v[k] {
      var tail := ks[1..];
      assert Descending(tail, v) by {
        forall i, j | 0 <= i < j < |tail| ensures v[tail[i]] >= v[tail[j]] {
          assert tail[i] == ks[i + 1] && tail[j] == ks[j + 1];
        }
      }
      InsertDescending(k, tail, v);
      var r := Insert(k, ks, v);
      forall j | 0 < j < |r| ensures v[r[0]] >= v[r[j]] {
        var y := r[j];
        assert y in Insert(k, tail, v);
        if y != k {
          var m :| 0 <= m < |tail| && tail[m] == y;
          assert y == ks[m + 1];
        }
      }
    }
  }

  lemma {:induction false} InsertDistinct<K(!new)>(k: K, ks: seq<K>, v: map<K, real>)
    requires k in v && HasValues(ks, v) && Distinct(ks) && k !in ks
    ensures Distinct(Insert(k, ks, v))
  {
    if ks != [] && v[ks[0]] > v[k] {
      var tail := ks[1..];
      assert Distinct(tail) by {
        forall i, j | 0 <= i < j < |tail| ensures tail[i] != tail[j] {
          assert tail[i] == ks[i + 1] && tail[j] == ks[j + 1];
        }
      }
      InsertDistinct(k, tail, v);
      assert ks[0] !in tail;
    }
  }

  /** Inserting k adds it at the head of the keys of its value and leaves
      the keys of every other value as they were. */
  lemma {:induction false} InsertWithValue<K(!new)>(k: K, ks: seq<K>, v: map<K, real>, x: real)
    requires k in v && HasValues(ks, v)
    ensures WithValue(Insert(k, ks, v), v, x)
      == (if v[k] == x then [k] else []) + WithValue(ks, v, x)
  {
    if ks == [] || v[ks[0]] <= v[k] {
      assert ([k] + ks)[1..] == ks;
    } else {
      var r := Insert(k, ks, v);
      assert r[1..] == Insert(k, ks[1..], v);
      InsertWithValue(k, ks[1..], v, x);
    }
  }

  lemma {:induction false} SortPermutes<K(!new)>(ks: seq<K>, v: map<K, real>)
    requires HasValues(ks, v)
    ensures multiset(SortKeys(ks, v)) == multiset(ks)
    ensures Descending(SortKeys(ks, v), v)
  {
    if ks != [] {
      SortPermutes(ks[1..], v);
      InsertPermutes(ks[0], SortKeys(ks[1..], v), v);
      InsertDescending(ks[0], SortKeys(ks[1..], v), v);
      assert ks == [ks[0]] + ks[1..];
    }
  }

  lemma {:induction false} SortDistinct<K(!new)>(ks: seq<K>, v: map<K, real>)
    requires HasValues(ks, v) && Distinct(ks)
    ensures Distinct(SortKeys(ks, v))
  {
    if ks != [] {
      var tail := ks[1..];
      assert Distinct(tail) by {
        forall i, j | 0 <= i < j < |tail| ensures tail[i] != tail[j] {
          assert tail[i] == ks[i + 1] && tail[j] == ks[j + 1];
        }
      }
      SortDistinct(tail, v);
      assert ks[0] !in tail;
      InsertDistinct(ks[0], SortKeys(tail, v), v);
    }
  }

  /** Stability: the keys of any one value come out in their original
      order. */
  lemma {:induction false} SortStable<K(!new)>(ks: seq<K>, v: map<K, real>, x: real)
    requires HasValues(ks, v)
    ensures WithValue(SortKeys(ks, v), v, x) == WithValue(ks, v, x)
  {
    if ks != [] {
      SortStable(ks[1..], v, x);
      InsertWithValue(ks[0], SortKeys(ks[1..], v), v, x);
    }
  }

  /** v and w order the keys of ks alike. */
  ghost predicate SameOrder<K(!new)>(ks: seq<K>, v: map<K, real>, w: map<K, real>)
    requires HasValues(ks, v) && HasValues(ks, w)
  {
    forall i, j :: 0 <= i < |ks| && 0 <= j < |ks| ==> (v[ks[i]] <= v[ks[j]] <==> w[ks[i]] <= w[ks[j]])
  }

  lemma {:induction false} InsertSameOrder<K(!new)>(ks: seq<K>, k: K, ts: seq<K>, v: map<K, real>, w: map<K, real>)
    requires HasValues(ks, v) && HasValues(ks, w) && SameOrder(ks, v, w)
    requires k in ks && forall x :: x in ts ==> x in ks
    ensures k in v && k in w && HasValues(ts, v) && HasValues(ts, w)
    ensures Insert(k, ts, v) == Insert(k, ts, w)
    decreases |ts|
  {
    if ts != [] {
      assert ts[0] in ts;
      var i :| 0 <= i < |ks| && ks[i] == ts[0];
      var j :| 0 <= j < |ks| && ks[j] == k;
      assert v[ks[i]] <= v[ks[j]] <==> w[ks[i]] <= w[ks[j]];
      forall x | x in ts[1..] ensures x in ks {
        assert x in ts;
      }
      InsertSameOrder(ks, k, ts[1..], v, w);
    }
  }

  lemma {:induction false} SortSameOrderFrom<K(!new)>(ks: seq<K>, ts: seq<K>, v: map<K, real>, w: map<K, real>)
    requires HasValues(ks, v) && HasValues(ks, w) && SameOrder(ks, v, w)
    requires forall x :: x in ts ==> x in ks
    ensures HasValues(ts, v) && HasValues(ts, w)
    ensures SortKeys(ts, v) == SortKeys(ts, w)
    decreases |ts|
  {
    if ts != [] {
      assert ts[0] in ts;
      forall x | x in ts[1..] ensures x in ks {
        assert x in ts;
      }
      SortSameOrderFrom(ks, ts[1..], v, w);
      InsertSameOrder(ks, ts[0], SortKeys(ts[1..], v), v, w);
    }
  }

  /** Values that compare alike sort alike. */
  lemma SortSameOrder<K(!new)>(ks: seq<K>, v: map<K, real>, w: map<K, real>)
    requires HasValues(ks, v) && HasValues(ks, w) && SameOrder(ks, v, w)
    ensures SortKeys(ks, v) == SortKeys(ks, w)
  {
    SortSameOrderFrom(ks, ks, v, w);
  }

  /** What `sorted(..., reverse=True)` promises of the new dict: the same
      entries, values never increasing, ties in their old order. */
  lemma SortDescSpec<K(!new)>(d: Dict<K, real>)
    requires WellFormed(d)
    ensures HasValues(d.keys, d.vals) && HasValues(SortDesc(d).keys, d.vals)
    ensures SortDesc(d).vals == d.vals
    ensures multiset(SortDesc(d).keys) == multiset(d.keys)
    ensures Descending(SortDesc(d).keys, d.vals)
    ensures forall x :: WithValue(SortDesc(d).keys, d.vals, x) == WithValue(d.keys, d.vals, x)
  {
    SortPermutes(d.keys, d.vals);
    forall x ensures WithValue(SortDesc(d).keys, d.vals, x) == WithValue(d.keys, d.vals, x) {
      SortStable(d.keys, d.vals, x);
    }
  }
}
