/** The n-gram counter shared by `analyze` and `find_author`: count every
    bigram (order 2) or every word (order 1, then drop the words of at most
    two characters), and count the grams seen. */
module Ngrams {
  import opened Dicts
  import opened Text

  type Counts = Dict<string, int>

  ghost predicate Positive(d: Counts) {
    forall k :: k in d.vals ==> d.vals[k] >= 1
  }

  /** The counting loop: for each gram in turn, `d[g] = 1` when g is new and
      `d[g] += 1` otherwise. */
  function Tally(gs: seq<string>): (d: Counts)
    ensures WellFormed(d) && Positive(d)
    decreases |gs|
  {
    if gs == [] then Empty()
    else
      var d := Tally(gs[..|gs| - 1]);
      var g := gs[|gs| - 1];
      Store(d, g, if g in d.vals then d.vals[g] + 1 else 1)
  }

  /** Tally keeps one key per distinct gram, in first-seen order, and its
      value is the number of times that gram occurs. */
  lemma {:induction false} TallyCounts(gs: seq<string>)
    ensures Tally(gs).keys == Dedup(gs)
    ensures forall k :: k in Tally(gs).vals <==> k in gs
    ensures forall k :: k in gs ==> Tally(gs).vals[k] == multiset(gs)[k]
    decreases |gs|
  {
    if gs != [] {
      var init, g := gs[..|gs| - 1], gs[|gs| - 1];
      assert gs == init + [g];
      TallyCounts(init);
      assert multiset(gs) == multiset(init) + multiset{g};
    }
  }

  /** `tokens[i-1] + " " + tokens[i]` for every i from 1 to |tokens| - 1. */
  function Bigrams(ws: seq<string>): (bs: seq<string>)
    ensures |bs| == if ws == [] then 0 else |ws| - 1
    ensures forall i :: 1 <= i < |ws| ==> bs[i - 1] == ws[i - 1] + " " + ws[i]
  {
    if ws == [] then [] else seq(|ws| - 1, i requires 0 <= i < |ws| - 1 => ws[i] + " " + ws[i + 1])
  }

  /** Words that survive the unigram filter: more than two characters. */
  predicate IsLong(w: string) {
    |w| > 2
  }

  function FilterLong(ks: seq<string>): (r: seq<string>)
    ensures forall k :: k in r <==> k in ks && IsLong(k)
    ensures forall i :: 0 <= i < |r| ==> r[i] in ks && IsLong(r[i])
    decreases |ks|
  {
    if ks == [] then []
    else
      var init, k := ks[..|ks| - 1], ks[|ks| - 1];
      assert forall x :: x in ks <==> x in init || x == k;
      FilterLong(init) + if IsLong(k) then [k] else []
  }

  lemma {:induction false} FilterLongDistinct(ks: seq<string>)
    requires Distinct(ks)
    ensures Distinct(FilterLong(ks))
    decreases |ks|
  {
    if ks != [] {
      FilterLongDistinct(ks[..|ks| - 1]);
    }
  }

  /** `for word in list(d): if len(word) <= 2: d.pop(word)` */
  function DropShort(d: Counts): (r: Counts)
    requires WellFormed(d)
    ensures WellFormed(r)
  {
    FilterLongDistinct(d.keys);
    Dict(FilterLong(d.keys), map k | k in d.vals && IsLong(k) :: d.vals[k])
  }

  /** The counts and the gram total of one word list, for n-gram order n. */
  function NgramCounts(ws: seq<string>, n: int): (r: (Counts, nat))
    ensures WellFormed(r.0) && Positive(r.0)
    ensures r.0.keys != [] ==> r.1 > 0
  {
    if n == 2 then
      TallyCounts(Bigrams(ws));
      (Tally(Bigrams(ws)), |Bigrams(ws)|)
    else if n == 1 then
      TallyCounts(ws);
      (DropShort(Tally(ws)), |ws|)
    else (Empty(), 0)
  }

  lemma {:induction false} FilterPrefixDistinct(ks: seq<string>, i: nat)
    requires Distinct(ks) && i <= |ks|
    ensures Distinct(FilterLong(ks[..i]) + ks[i..])
  {
    FilterLongDistinct(ks[..i]);
    var f := FilterLong(ks[..i]);
    forall a, b | 0 <= a < b < |f + ks[i..]|
      ensures (f + ks[i..])[a] != (f + ks[i..])[b]
    {
      if a < |f| && b >= |f| {
        var x := (f + ks[i..])[a];
        assert x in ks[..i];
        assert (f + ks[i..])[b] == ks[i + (b - |f|)];
      }
    }
  }

  /** One step of the pop loop over a snapshot ks, on the keys alone:
      popping a short ks[i] from the keys still to visit leaves the filtered
      prefix one longer. */
  lemma FilterStep(ks: seq<string>, i: nat)
    requires Distinct(ks) && i < |ks|
    ensures FilterLong(ks[..i + 1]) + ks[i + 1..]
      == if IsLong(ks[i]) then FilterLong(ks[..i]) + ks[i..]
         else RemoveFirst(FilterLong(ks[..i]) + ks[i..], ks[i])
  {
    var done, k, rest := FilterLong(ks[..i]), ks[i], ks[i + 1..];
    assert ks[..i + 1][..i] == ks[..i];
    assert ks[i..] == [k] + rest;
    if IsLong(k) {
      assert FilterLong(ks[..i + 1]) == done + [k];
      assert done + [k] + rest == done + ([k] + rest);
    } else {
      assert FilterLong(ks[..i + 1]) == done;
      assert k !in ks[..i];
      RemoveFirstMiddle(done, k, rest);
      assert done + ks[i..] == done + [k] + rest;
    }
  }

  /** The state of the pop loop over the snapshot d.keys after i visits:
      the long keys of d.keys[..i], then d.keys[i..], with d's values. */
  ghost predicate PopLoop(d: Counts, r: Counts, i: nat)
    requires WellFormed(d)
  {
    && i <= |d.keys|
    && WellFormed(r)
    && r.keys == FilterLong(d.keys[..i]) + d.keys[i..]
    && (forall k :: k in r.vals ==> k in d.vals && r.vals[k] == d.vals[k])
  }

  lemma PopLoopStart(d: Counts)
    requires WellFormed(d)
    ensures PopLoop(d, d, 0)
  {
    assert d.keys[..0] == [] && d.keys[0..] == d.keys;
  }

  /** One visit of the pop loop: a short key is popped, a long one stays. */
  lemma PopLoopStep(d: Counts, r: Counts, i: nat)
    requires WellFormed(d) && PopLoop(d, r, i) && i < |d.keys|
    ensures d.keys[i] in r.vals
    ensures PopLoop(d, if IsLong(d.keys[i]) then r else Pop(r, d.keys[i]), i + 1)
  {
    PopLoopVisits(d, r, i);
    if IsLong(d.keys[i]) {
      PopLoopKeep(d, r, i);
    } else {
      PopLoopPop(d, r, i);
    }
  }

  /** The key visited next is still in r, right after the filtered prefix. */
  lemma PopLoopVisits(d: Counts, r: Counts, i: nat)
    requires WellFormed(d) && PopLoop(d, r, i) && i < |d.keys|
    ensures d.keys[i] in r.vals
  {
    assert r.keys[|FilterLong(d.keys[..i])|] == d.keys[i];
  }

  lemma PopLoopKeep(d: Counts, r: Counts, i: nat)
    requires WellFormed(d) && PopLoop(d, r, i) && i < |d.keys| && IsLong(d.keys[i])
    ensures PopLoop(d, r, i + 1)
  {
    FilterStep(d.keys, i);
  }

  lemma PopLoopPop(d: Counts, r: Counts, i: nat)
    requires WellFormed(d) && PopLoop(d, r, i) && i < |d.keys| && !IsLong(d.keys[i])
    requires d.keys[i] in r.vals
    ensures PopLoop(d, Pop(r, d.keys[i]), i + 1)
  {
    FilterStep(d.keys, i);
    var r' := Pop(r, d.keys[i]);
    assert r'.keys == RemoveFirst(r.keys, d.keys[i]);
  }


  /** In place, the pop loop over a snapshot of the keys. */
  method DropShortKeys(d: Counts) returns (r: Counts)
    requires WellFormed(d)
    ensures r == DropShort(d)
  {
    r := d;
    var snapshot := d.keys;
    var i := 0;
    PopLoopStart(d);
    while i < |snapshot|
      invariant PopLoop(d, r, i)
    {
      PopLoopStep(d, r, i);
      var word := snapshot[i];
      r := if |word| <= 2 then Pop(r, word) else r;
      i := i + 1;
    }
    PopLoopDone(d, r);
  }

  /** Once every key is visited, the loop has built DropShort(d). */
  lemma PopLoopDone(d: Counts, r: Counts)
    requires WellFormed(d) && PopLoop(d, r, |d.keys|)
    ensures r == DropShort(d)
  {
    assert d.keys[..|d.keys|] == d.keys;
    assert r.vals == DropShort(d).vals;
  }

  /** The bigram loop: one count per adjacent pair, one gram per pair. */
  method CountBigrams(words: seq<string>) returns (counts: Counts, grams: nat)
    ensures counts == Tally(Bigrams(words)) && grams == |Bigrams(words)|
  {
    ghost var bs := Bigrams(words);
    counts := Empty();
    grams := 0;
    var x := 1;
    while x < |words|
      invariant 1 <= x <= if words == [] then 1 else |words|
      invariant grams == x - 1
      invariant counts == Tally(bs[..grams])
    {
      var pair := words[x - 1] + " " + words[x];
      if pair !in counts.vals {
        TallyPrefixAt(bs, grams, grams + 1, pair, counts, 1);
        counts := Store(counts, pair, 1);
      } else {
        TallyPrefixAt(bs, grams, grams + 1, pair, counts, counts.vals[pair] + 1);
        counts := Store(counts, pair, counts.vals[pair] + 1);
      }
      grams := grams + 1;
      x := x + 1;
    }
    assert bs[..grams] == bs;
  }


  /** Tallying one more gram g of gs stores it with its count raised. */
  lemma TallyPrefixAt(gs: seq<string>, i: nat, j: nat, g: string, d: Counts, v: int)
    requires j == i + 1 && j <= |gs| && gs[i] == g && d == Tally(gs[..i])
    requires v == if g in d.vals then d.vals[g] + 1 else 1
    ensures Tally(gs[..j]) == Store(d, g, v)
  {
    var p := gs[..j];
    assert p[..|p| - 1] == gs[..i] && p[|p| - 1] == g;
  }


  /** The unigram loop: one count per word, one gram per word. */
  method CountWords(words: seq<string>) returns (counts: Counts, grams: nat)
    ensures counts == Tally(words) && grams == |words|
  {
    counts := Empty();
    grams := 0;
    var i := 0;
    while i < |words|
      invariant 0 <= i <= |words|
      invariant counts == Tally(words[..i])
      invariant grams == i
    {
      var word := words[i];
      if word !in counts.vals {
        TallyPrefixAt(words, i, i + 1, word, counts, 1);
        counts := Store(counts, word, 1);
      } else {
        TallyPrefixAt(words, i, i + 1, word, counts, counts.vals[word] + 1);
        counts := Store(counts, word, counts.vals[word] + 1);
      }
      grams := grams + 1;
      i := i + 1;
    }
    assert words[..i] == words;
  }

  /** The counting steps of `find_author` and of each work in `analyze`;
      `grams` is what those steps add to `oeuvreGramCount` and to
      `wordCountAuthor[author]`. */
  method CountNgrams(words: seq<string>, ngram: int) returns (counts: Counts, grams: nat)
    ensures (counts, grams) == NgramCounts(words, ngram)
  {
    counts := Empty();
    grams := 0;
    if ngram == 2 {
      counts, grams := CountBigrams(words);
    }
    if ngram == 1 {
      counts, grams := CountWords(words);
      counts := DropShortKeys(counts);
    }
  }

  /** The sum of the counts of ks (only of the long keys when longOnly). */
  function Total(ks: seq<string>, m: map<string, int>, longOnly: bool): int
    requires forall i :: 0 <= i < |ks| ==> ks[i] in m
    decreases |ks|
  {
    if ks == [] then 0
    else
      var k := ks[|ks| - 1];
      Total(ks[..|ks| - 1], m, longOnly) + if !longOnly || IsLong(k) then m[k] else 0
  }

  function CountSum(d: Counts): int
    requires WellFormed(d)
  {
    Total(d.keys, d.vals, false)
  }

  lemma {:induction false} TotalFrame(ks: seq<string>, m1: map<string, int>, m2: map<string, int>, longOnly: bool)
    requires forall i :: 0 <= i < |ks| ==> ks[i] in m1 && ks[i] in m2 && m1[ks[i]] == m2[ks[i]]
    ensures Total(ks, m1, longOnly) == Total(ks, m2, longOnly)
    decreases |ks|
  {
    if ks != [] {
      TotalFrame(ks[..|ks| - 1], m1, m2, longOnly);
    }
  }

  lemma {:induction false} TotalUpdate(ks: seq<string>, m: map<string, int>, k: string, v: int, longOnly: bool)
    requires Distinct(ks) && k in ks
    requires forall i :: 0 <= i < |ks| ==> ks[i] in m
    ensures Total(ks, m[k := v], longOnly)
      == Total(ks, m, longOnly) + if !longOnly || IsLong(k) then v - m[k] else 0
    decreases |ks|
  {
    var init := ks[..|ks| - 1];
    if ks[|ks| - 1] == k {
      assert k !in init;
      TotalFrame(init, m[k := v], m, longOnly);
    } else {
      assert k in init;
      TotalUpdate(init, m, k, v, longOnly);
    }
  }

  /** A key added at the end adds its own value to the total. */
  lemma TotalAppend(ks: seq<string>, m: map<string, int>, k: string, v: int, longOnly: bool)
    requires k !in ks && forall i :: 0 <= i < |ks| ==> ks[i] in m
    ensures forall i :: 0 <= i < |ks + [k]| ==> (ks + [k])[i] in m[k := v]
    ensures Total(ks + [k], m[k := v], longOnly) == Total(ks, m, longOnly) + if !longOnly || IsLong(k) then v else 0
  {
    var ks' := ks + [k];
    assert ks'[..|ks'| - 1] == ks;
    TotalFrame(ks, m[k := v], m, longOnly);
  }

  /** The number of grams that a total counts. */
  function Counted(gs: seq<string>, longOnly: bool): nat
    decreases |gs|
  {
    if gs == [] then 0
    else Counted(gs[..|gs| - 1], longOnly) + if !longOnly || IsLong(gs[|gs| - 1]) then 1 else 0
  }

  lemma {:induction false} TallyTotal(gs: seq<string>, longOnly: bool)
    ensures Total(Tally(gs).keys, Tally(gs).vals, longOnly) == Counted(gs, longOnly)
    decreases |gs|
  {
    if gs != [] {
      var init, g := gs[..|gs| - 1], gs[|gs| - 1];
      var d := Tally(init);
      TallyTotal(init, longOnly);
      assert Counted(gs, longOnly) == Counted(init, longOnly) + if !longOnly || IsLong(g) then 1 else 0;
      if g in d.vals {
        assert Tally(gs) == Dict(d.keys, d.vals[g := d.vals[g] + 1]);
        TotalUpdate(d.keys, d.vals, g, d.vals[g] + 1, longOnly);
      } else {
        assert Tally(gs) == Dict(d.keys + [g], d.vals[g := 1]);
        TotalAppend(d.keys, d.vals, g, 1, longOnly);
      }
    }
  }

  lemma {:induction false} FilterLongTotal(ks: seq<string>, m: map<string, int>, m': map<string, int>)
    requires forall i :: 0 <= i < |ks| ==> ks[i] in m
    requires forall k :: k in m && IsLong(k) ==> k in m' && m'[k] == m[k]
    ensures Total(FilterLong(ks), m', false) == Total(ks, m, true)
    decreases |ks|
  {
    if ks != [] {
      var init, k := ks[..|ks| - 1], ks[|ks| - 1];
      FilterLongTotal(init, m, m');
      if IsLong(k) {
        var f := FilterLong(init) + [k];
        assert FilterLong(ks) == f;
        assert f[..|f| - 1] == FilterLong(init);
      } else {
        assert FilterLong(ks) == FilterLong(init);
      }
    }
  }

  lemma CountedAll(gs: seq<string>)
    ensures Counted(gs, false) == |gs|
    ensures Counted(gs, true) <= |gs|
  {
  }

  lemma {:induction false} CountedLong(gs: seq<string>)
    ensures Counted(gs, true) == |gs| <==> forall i :: 0 <= i < |gs| ==> IsLong(gs[i])
    decreases |gs|
  {
    if gs != [] {
      var init := gs[..|gs| - 1];
      CountedLong(init);
      CountedAll(init);
      assert forall i :: 0 <= i < |init| ==> init[i] == gs[i];
    }
  }

  /** Order 1: the surviving keys are the words longer than two characters,
      in first-seen order; each count is that word's number of occurrences;
      `grams` counts every word, the dropped ones too, so the counts sum to
      the number of long words. */
  lemma UnigramCounts(ws: seq<string>)
    ensures var (d, grams) := NgramCounts(ws, 1);
      && d.keys == FilterLong(Dedup(ws))
      && (forall k :: k in d.vals <==> k in ws && IsLong(k))
      && (forall k :: k in d.vals ==> d.vals[k] == multiset(ws)[k])
      && grams == |ws|
      && CountSum(d) == Counted(ws, true)
      && (CountSum(d) == grams <==> forall i :: 0 <= i < |ws| ==> IsLong(ws[i]))
  {
    var t := Tally(ws);
    assert NgramCounts(ws, 1) == (DropShort(t), |ws|);
    TallyCounts(ws);
    TallyTotal(ws, true);
    var d := DropShort(t);
    FilterLongTotal(t.keys, t.vals, d.vals);
    CountedAll(ws);
    CountedLong(ws);
  }

  /** Order 2: every key is two adjacent words joined by one space, every
      adjacent pair is a key, each count is the number of adjacent positions
      holding that pair, and the counts sum to max(0, |ws| - 1). */
  lemma BigramCounts(ws: seq<string>)
    ensures var (d, grams) := NgramCounts(ws, 2);
      && (forall k :: k in d.vals ==> exists i :: 1 <= i < |ws| && k == ws[i - 1] + " " + ws[i])
      && (forall i :: 1 <= i < |ws| ==> ws[i - 1] + " " + ws[i] in d.vals)
      && (forall k :: k in d.vals ==> d.vals[k] == multiset(Bigrams(ws))[k])
      && grams == (if ws == [] then 0 else |ws| - 1)
      && CountSum(d) == grams
  {
    var bs := Bigrams(ws);
    assert NgramCounts(ws, 2) == (Tally(bs), |bs|);
    BigramKeys(ws);
    TallyCounts(bs);
    TallyTotal(bs, false);
    CountedAll(bs);
  }

  /** The keys of the bigram tally are exactly the adjacent pairs. */
  lemma BigramKeys(ws: seq<string>)
    ensures forall k :: k in Tally(Bigrams(ws)).vals ==> exists i :: 1 <= i < |ws| && k == ws[i - 1] + " " + ws[i]
    ensures forall i :: 1 <= i < |ws| ==> ws[i - 1] + " " + ws[i] in Tally(Bigrams(ws)).vals
  {
    var bs := Bigrams(ws);
    TallyCounts(bs);
    forall k | k in Tally(bs).vals
      ensures exists i :: 1 <= i < |ws| && k == ws[i - 1] + " " + ws[i]
    {
      var j :| 0 <= j < |bs| && bs[j] == k;
      assert k == ws[j] + " " + ws[j + 1];
    }
    forall i | 1 <= i < |ws|
      ensures ws[i - 1] + " " + ws[i] in Tally(bs).vals
    {
      assert bs[i - 1] in bs;
    }
  }

  /** Orders other than 1 and 2 take neither branch: nothing is counted. */
  lemma OtherOrdersCountNothing(ws: seq<string>, n: int)
    requires n != 1 && n != 2
    ensures NgramCounts(ws, n).0.keys == [] && NgramCounts(ws, n).0.vals == map[]
    ensures NgramCounts(ws, n).1 == 0
  {
  }

  /** Every key built from a list of tokens splits back into exactly n
      tokens. */
  lemma KeysSplitIntoOrder(ws: seq<string>, n: int, k: string)
    requires forall i :: 0 <= i < |ws| ==> IsToken(ws[i])
    requires k in NgramCounts(ws, n).0.vals
    ensures n == 1 || n == 2
    ensures |Split(k)| == n
  {
    if n == 1 {
      TallyCounts(ws);
      assert k in ws;
      SplitToken(k);
    } else if n == 2 {
      var bs := Bigrams(ws);
      TallyCounts(bs);
      var j :| 0 <= j < |bs| && bs[j] == k;
      var i := j + 1;
      assert k == ws[i - 1] + " " + ws[i];
      SplitConcat(ws[i - 1], ws[i]);
      SplitToken(ws[i - 1]);
      SplitToken(ws[i]);
    }
  }
}
