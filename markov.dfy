/** The `markov` class: `analyze` builds, for every author, the n-gram
    counts of the author's works (`DATA`), their frequencies (`identity`)
    and those frequencies sorted by decreasing value (`orderedIdentity`);
    `find_author` scores an unknown text against every author,
    `gen_text` writes drawn n-grams, and `get_nth_element` returns the
    n-grams of one frequency rank. */
module Markov {
  import opened Dicts
  import opened Text
  import opened Ngrams
  import opened Sorting
  import opened Cosine
  import opened Frequencies

  /** The settings the tokenising and counting read: `keep_ponc`, the
      separators `PONC` and the order `ngram`. */
  datatype Settings = Settings(keepPonc: bool, ponc: seq<string>, ngram: int)

  /** The exceptions the class lets escape; `ValueError` is the one NumPy's
      `random.choice` raises for an empty population. */
  datatype Failure = KeyError(key: string) | ZeroDivisionError | ValueError

  datatype Result<T> = Ok(value: T) | Err(error: Failure)

  // ---------------------------------------------------------------- analyze

  /** The texts of an author's works, in the order `get_aut_files` lists
      them; an author without a directory has none. */
  function Works(corpus: map<string, seq<string>>, a: string): seq<string> {
    if a in corpus then corpus[a] else []
  }

  /** `oeuvreData` for one work. */
  function WorkCounts(text: string, o: Settings): (d: Counts)
    ensures WellFormed(d) && Positive(d)
  {
    NgramCounts(Tokens(text, o.keepPonc, o.ponc), o.ngram).0
  }

  /** The grams one work adds to `wordCountAuthor`. */
  function WorkGrams(text: string, o: Settings): nat {
    NgramCounts(Tokens(text, o.keepPonc, o.ponc), o.ngram).1
  }

  /** The grams of all the works. */
  function GramTotal(works: seq<string>, o: Settings): nat
    decreases |works|
  {
    if works == [] then 0
    else GramTotal(works[..|works| - 1], o) + WorkGrams(works[|works| - 1], o)
  }

  /** `DATA` after the per-author loop of `analyze` over authors: the counts
      of each work are stored over those of the previous one, so an author
      with works is left with the counts of the last one. */
  function Gathered(data: map<string, Counts>, authors: seq<string>, corpus: map<string, seq<string>>,
                    o: Settings): map<string, Counts>
    decreases |authors|
  {
    if authors == [] then data
    else
      var d := Gathered(data, authors[..|authors| - 1], corpus, o);
      var a := authors[|authors| - 1];
      var ws := Works(corpus, a);
      if ws == [] then d else d[a := WorkCounts(ws[|ws| - 1], o)]
  }

  /** `wordCountAuthor` after the same loop: reset to 0, then every gram of
      every work is added. */
  function Tallied(wc: map<string, int>, authors: seq<string>, corpus: map<string, seq<string>>,
                   o: Settings): map<string, int>
    decreases |authors|
  {
    if authors == [] then wc
    else
      var a := authors[|authors| - 1];
      Tallied(wc, authors[..|authors| - 1], corpus, o)[a := GramTotal(Works(corpus, a), o)]
  }

  /** What the loop leaves in `DATA` for the name a: an author of the
      list with at least one work maps to the counts of its last work, any
      other name keeps its entry, and nothing else is added. */
  lemma GatheredLastWork(data: map<string, Counts>, authors: seq<string>,
                          corpus: map<string, seq<string>>, o: Settings, a: string)
    ensures a in Gathered(data, authors, corpus, o) <==>
      a in data || (a in authors && Works(corpus, a) != [])
    ensures a in Gathered(data, authors, corpus, o) ==>
      Gathered(data, authors, corpus, o)[a] == LastCounts(data, authors, corpus, o, a)
  {
    GatheredDomain(data, authors, corpus, o, a);
    if a in Gathered(data, authors, corpus, o) {
      GatheredValue(data, authors, corpus, o, a);
    }
  }

  /** The names `DATA` holds after the loop. */
  lemma {:induction false} GatheredDomain(data: map<string, Counts>, authors: seq<string>,
                                          corpus: map<string, seq<string>>, o: Settings, a: string)
    ensures a in Gathered(data, authors, corpus, o) <==>
      a in data || (a in authors && Works(corpus, a) != [])
    decreases |authors|
  {
    if authors != [] {
      var init, b := authors[..|authors| - 1], authors[|authors| - 1];
      assert authors == init + [b];
      GatheredDomain(data, init, corpus, o, a);
      if a != b {
        assert a in authors <==> a in init;
      }
    }
  }

  /** The entry `DATA[a]` after the loop, for a name it holds. */
  lemma {:induction false} GatheredValue(data: map<string, Counts>, authors: seq<string>,
                                         corpus: map<string, seq<string>>, o: Settings, a: string)
    requires a in data || (a in authors && Works(corpus, a) != [])
    ensures a in Gathered(data, authors, corpus, o)
    ensures Gathered(data, authors, corpus, o)[a] == LastCounts(data, authors, corpus, o, a)
    decreases |authors|
  {
    GatheredDomain(data, authors, corpus, o, a);
    if authors != [] {
      var init, b := authors[..|authors| - 1], authors[|authors| - 1];
      assert authors == init + [b];
      var d := Gathered(data, init, corpus, o);
      var ws := Works(corpus, b);
      if a != b {
        assert a in authors <==> a in init;
        GatheredValue(data, init, corpus, o, a);
      } else if ws == [] {
        GatheredValue(data, init, corpus, o, a);
      }
    }
  }

  /** The counts `DATA[a]` holds after the loop, provided it holds any. */
  function LastCounts(data: map<string, Counts>, authors: seq<string>,
                      corpus: map<string, seq<string>>, o: Settings, a: string): Counts
    requires a in data || (a in authors && Works(corpus, a) != [])
  {
    var ws := Works(corpus, a);
    if a in authors && ws != [] then WorkCounts(ws[|ws| - 1], o) else data[a]
  }

  /** What the loop leaves in `wordCountAuthor` for the name a: a listed
      author maps to the gram total of all its works, any other name keeps
      its entry. */
  lemma {:induction false} TalliedAllWorks(wc: map<string, int>, authors: seq<string>,
                                           corpus: map<string, seq<string>>, o: Settings, a: string)
    ensures a in Tallied(wc, authors, corpus, o) <==> a in wc || a in authors
    ensures a in Tallied(wc, authors, corpus, o) ==>
      Tallied(wc, authors, corpus, o)[a]
        == if a in authors then GramTotal(Works(corpus, a), o) else wc[a]
    decreases |authors|
  {
    if authors != [] {
      var init, b := authors[..|authors| - 1], authors[|authors| - 1];
      assert authors == init + [b];
      TalliedAllWorks(wc, init, corpus, o, a);
      assert Tallied(wc, authors, corpus, o)
        == Tallied(wc, init, corpus, o)[b := GramTotal(Works(corpus, b), o)];
      if a != b {
        assert a in authors <==> a in init;
      }
    }
  }

  /** Every count map `analyze` stores is well formed with counts of at
      least 1. */
  lemma {:induction false} GatheredPositive(data: map<string, Counts>, authors: seq<string>,
                                            corpus: map<string, seq<string>>, o: Settings)
    requires forall a :: a in data ==> WellFormed(data[a]) && Positive(data[a])
    ensures data.Keys <= Gathered(data, authors, corpus, o).Keys
    ensures forall a :: a in Gathered(data, authors, corpus, o) ==>
      WellFormed(Gathered(data, authors, corpus, o)[a]) && Positive(Gathered(data, authors, corpus, o)[a])
    decreases |authors|
  {
    if authors != [] {
      GatheredPositive(data, authors[..|authors| - 1], corpus, o);
    }
  }

  /** The loop over an author's works replaces `DATA[author]` with the
      counts of each work in turn, so for one author with works w1 and w2
      only w2 is kept ... */
  lemma LastWorkKept(a: string, w1: string, w2: string, o: Settings)
    ensures Gathered(map[], [a], map[a := [w1, w2]], o) == map[a := WorkCounts(w2, o)]
  {
    var corpus := map[a := [w1, w2]];
    assert [a][..0] == [];
    assert Works(corpus, a) == [w1, w2];
    assert Gathered(map[], [a], corpus, o) == Gathered(map[], [], corpus, o)[a := WorkCounts(w2, o)];
  }

  /** ... while `wordCountAuthor` adds up the grams of both. */
  lemma AllWorksTallied(a: string, w1: string, w2: string, o: Settings)
    ensures a in Tallied(map[], [a], map[a := [w1, w2]], o)
    ensures Tallied(map[], [a], map[a := [w1, w2]], o)[a] == WorkGrams(w1, o) + WorkGrams(w2, o)
  {
    var corpus := map[a := [w1, w2]];
    TalliedAllWorks(map[], [a], corpus, o, a);
    assert a in [a];
    assert Works(corpus, a) == [w1, w2];
    GramTotalPair(w1, w2, o);
  }

  lemma GramTotalPair(w1: string, w2: string, o: Settings)
    ensures GramTotal([w1, w2], o) == WorkGrams(w1, o) + WorkGrams(w2, o)
  {
    assert [w1, w2][..1] == [w1] && [w1][..0] == [];
    assert GramTotal([w1], o) == GramTotal([], o) + WorkGrams(w1, o);
    assert GramTotal([w1, w2], o) == GramTotal([w1], o) + WorkGrams(w2, o);
  }

  /** A gram only the first work has is missing from `DATA`, though the
      pooled counts hold it as often as that work does. */
  lemma EarlierWorksLost(a: string, w1: string, w2: string, o: Settings, k: string)
    requires k in WorkCounts(w1, o).vals && k !in WorkCounts(w2, o).vals
    ensures k !in Gathered(map[], [a], map[a := [w1, w2]], o)[a].vals
    ensures CountOf(Pooled([w1, w2], o), k) == WorkCounts(w1, o).vals[k] >= 1
  {
    LastWorkKept(a, w1, w2, o);
    PooledCounts([w1, w2], o, k);
    assert [w1, w2][..1] == [w1] && [w1][..0] == [];
    assert CountIn([w1, w2], o, k) == CountIn([w1], o, k) + CountOf(WorkCounts(w2, o), k);
    assert CountIn([w1], o, k) == CountOf(WorkCounts(w1, o), k);
  }

  /** The count of k in d, 0 when d does not have it. */
  function CountOf(d: Counts, k: string): int {
    if k in d.vals then d.vals[k] else 0
  }

  /** `acc[k] = acc.get(k, 0) + m[k]` for each k of ks in turn. */
  function AddOnto(acc: Counts, ks: seq<string>, m: map<string, int>): (r: Counts)
    requires WellFormed(acc) && HasValues(ks, m)
    ensures WellFormed(r)
    decreases |ks|
  {
    if ks == [] then acc
    else
      var p := AddOnto(acc, ks[..|ks| - 1], m);
      var k := ks[|ks| - 1];
      Store(p, k, CountOf(p, k) + m[k])
  }

  /** What the comment above the loop asks for: the counts of all of an
      author's works together, "sans distinction des oeuvres". */
  function Pooled(works: seq<string>, o: Settings): (d: Counts)
    ensures WellFormed(d)
    decreases |works|
  {
    if works == [] then Empty()
    else
      var c := WorkCounts(works[|works| - 1], o);
      AddOnto(Pooled(works[..|works| - 1], o), c.keys, c.vals)
  }

  /** The number of times the works count k, added up over the works. */
  function CountIn(works: seq<string>, o: Settings, k: string): int
    decreases |works|
  {
    if works == [] then 0
    else CountIn(works[..|works| - 1], o, k) + CountOf(WorkCounts(works[|works| - 1], o), k)
  }

  lemma {:induction false} AddOntoCount(acc: Counts, ks: seq<string>, m: map<string, int>, k: string)
    requires WellFormed(acc) && HasValues(ks, m) && Distinct(ks)
    ensures CountOf(AddOnto(acc, ks, m), k) == CountOf(acc, k) + (if k in ks then m[k] else 0)
    decreases |ks|
  {
    if ks != [] {
      var init, j := ks[..|ks| - 1], ks[|ks| - 1];
      assert ks == init + [j];
      assert j !in init;
      AddOntoCount(acc, init, m, k);
      AddOntoCount(acc, init, m, j);
    }
  }

  /** The pooled counts are the sums of the counts of each work. */
  lemma {:induction false} PooledCounts(works: seq<string>, o: Settings, k: string)
    ensures CountOf(Pooled(works, o), k) == CountIn(works, o, k)
    decreases |works|
  {
    if works != [] {
      var init := works[..|works| - 1];
      var c := WorkCounts(works[|works| - 1], o);
      PooledCounts(init, o, k);
      AddOntoCount(Pooled(init, o), c.keys, c.vals, k);
    }
  }

  /** The corrected loop: `DATA[author]` holds the pooled counts. */
  function PooledGathered(data: map<string, Counts>, authors: seq<string>, corpus: map<string, seq<string>>,
                          o: Settings): map<string, Counts>
    decreases |authors|
  {
    if authors == [] then data
    else
      var d := PooledGathered(data, authors[..|authors| - 1], corpus, o);
      var a := authors[|authors| - 1];
      var ws := Works(corpus, a);
      if ws == [] then d else d[a := Pooled(ws, o)]
  }

  lemma {:induction false} AddOntoEmpty(ks: seq<string>, m: map<string, int>)
    requires HasValues(ks, m) && Distinct(ks)
    ensures AddOnto(Empty(), ks, m).keys == ks
    ensures forall k :: k in AddOnto(Empty(), ks, m).vals <==> k in ks
    ensures forall k :: k in AddOnto(Empty(), ks, m).vals ==> AddOnto(Empty(), ks, m).vals[k] == m[k]
    decreases |ks|
  {
    if ks != [] {
      var init, j := ks[..|ks| - 1], ks[|ks| - 1];
      assert ks == init + [j];
      assert j !in init;
      AddOntoEmpty(init, m);
    }
  }

  /** Adding a count map onto nothing gives that map back. */
  lemma AddOntoEmptySelf(d: Counts)
    requires WellFormed(d)
    ensures AddOnto(Empty(), d.keys, d.vals) == d
  {
    AddOntoEmpty(d.keys, d.vals);
    assert AddOnto(Empty(), d.keys, d.vals).vals == d.vals;
  }

  /** An author with a single work is counted the same by both loops, so
      the two disagree only on authors with several works. */
  lemma {:induction false} PooledSingleWork(data: map<string, Counts>, authors: seq<string>,
                                            corpus: map<string, seq<string>>, o: Settings)
    requires forall i :: 0 <= i < |authors| ==> |Works(corpus, authors[i])| <= 1
    ensures PooledGathered(data, authors, corpus, o) == Gathered(data, authors, corpus, o)
    decreases |authors|
  {
    if authors != [] {
      var init, a := authors[..|authors| - 1], authors[|authors| - 1];
      PooledSingleWork(data, init, corpus, o);
      var ws := Works(corpus, a);
      var d := Gathered(data, init, corpus, o);
      assert Gathered(data, authors, corpus, o) == if ws == [] then d else d[a := WorkCounts(ws[|ws| - 1], o)];
      assert PooledGathered(data, authors, corpus, o) == if ws == [] then d else d[a := Pooled(ws, o)];
      if ws != [] {
        var c := WorkCounts(ws[0], o);
        assert ws[..0] == [];
        assert Pooled(ws, o) == AddOnto(Empty(), c.keys, c.vals);
        AddOntoEmptySelf(c);
      }
    }
  }

  // ------------------------------------------------------------ find_author

  /** The unknown work's vector: counts divided by `oeuvreGramCount`, then
      sorted. */
  function Unknown(text: string, o: Settings): (u: Freqs)
    ensures WellFormed(u)
  {
    var (counts, grams) := NgramCounts(Tokens(text, o.keepPonc, o.ponc), o.ngram);
    SortDesc(Divide(counts, grams))
  }

  /** The division of `find_author` for author a succeeds: a is a key of
      `orderedIdentity` and neither squared norm is 0. */
  ghost predicate Scorable(a: string, ids: map<string, Freqs>, u: Freqs)
    requires WellFormed(u) && forall b :: b in ids ==> WellFormed(ids[b])
  {
    a in ids && NormSq(u) != 0.0 && NormSq(ids[a]) != 0.0
  }

  /** `resultats` of `find_author` over the list authors: one proximity per
      author in list order, or the exception of the first author that
      cannot be scored. */
  function Attribution(authors: seq<string>, ids: map<string, Freqs>, u: Freqs): Result<seq<(string, Proximity)>>
    requires WellFormed(u) && forall b :: b in ids ==> WellFormed(ids[b])
    decreases |authors|
  {
    if authors == [] then Ok([])
    else
      var prev := Attribution(authors[..|authors| - 1], ids, u);
      var a := authors[|authors| - 1];
      if prev.Err? then prev
      else if a !in ids then Err(KeyError(a))
      else if NormSq(u) == 0.0 || NormSq(ids[a]) == 0.0 then Err(ZeroDivisionError)
      else Ok(prev.value + [(a, ProximityOf(u, ids[a]))])
  }

  /** `find_author` succeeds exactly when every author can be scored; it
      then returns one (author, proximity) pair per author, in order. */
  lemma {:induction false} AttributionOk(authors: seq<string>, ids: map<string, Freqs>, u: Freqs)
    requires WellFormed(u) && forall b :: b in ids ==> WellFormed(ids[b])
    ensures Attribution(authors, ids, u).Ok? <==> forall i :: 0 <= i < |authors| ==> Scorable(authors[i], ids, u)
    ensures Attribution(authors, ids, u).Ok? ==>
      && |Attribution(authors, ids, u).value| == |authors|
      && forall i :: 0 <= i < |authors| ==>
        Attribution(authors, ids, u).value[i] == (authors[i], ProximityOf(u, ids[authors[i]]))
    decreases |authors|
  {
    if authors != [] {
      var init, a := authors[..|authors| - 1], authors[|authors| - 1];
      AttributionOk(init, ids, u);
      assert forall j :: 0 <= j < |init| ==> authors[j] == init[j];
    }
  }

  /** Otherwise it raises for the first author that cannot be scored: a
      KeyError when the author is unknown, a ZeroDivisionError when one of
      the squared norms is 0. */
  lemma {:induction false} AttributionErr(authors: seq<string>, ids: map<string, Freqs>, u: Freqs)
    requires WellFormed(u) && forall b :: b in ids ==> WellFormed(ids[b])
    requires Attribution(authors, ids, u).Err?
    ensures exists i ::
      && 0 <= i < |authors| && !Scorable(authors[i], ids, u)
      && (forall j :: 0 <= j < i ==> Scorable(authors[j], ids, u))
      && Attribution(authors, ids, u).error == (if authors[i] in ids then ZeroDivisionError else KeyError(authors[i]))
    decreases |authors|
  {
    var init, a := authors[..|authors| - 1], authors[|authors| - 1];
    var prev := Attribution(init, ids, u);
    if prev.Err? {
      AttributionErr(init, ids, u);
      var i :| 0 <= i < |init| && !Scorable(init[i], ids, u)
        && (forall j :: 0 <= j < i ==> Scorable(init[j], ids, u))
        && prev.error == (if init[i] in ids then ZeroDivisionError else KeyError(init[i]));
      assert authors[i] == init[i];
      assert forall j :: 0 <= j < i ==> authors[j] == init[j];
    } else {
      AttributionOk(init, ids, u);
      assert forall j :: 0 <= j < |init| ==> authors[j] == init[j];
    }
  }

  /** Once an author cannot be scored, the rest of the list does not
      matter. */
  lemma {:induction false} AttributionFails(authors: seq<string>, i: nat, ids: map<string, Freqs>, u: Freqs)
    requires WellFormed(u) && forall b :: b in ids ==> WellFormed(ids[b])
    requires i <= |authors| && Attribution(authors[..i], ids, u).Err?
    ensures Attribution(authors, ids, u) == Attribution(authors[..i], ids, u)
    decreases |authors|
  {
    if i < |authors| {
      assert authors[..|authors| - 1][..i] == authors[..i];
      AttributionFails(authors[..|authors| - 1], i, ids, u);
    } else {
      assert authors[..i] == authors;
    }
  }

  /** Every proximity `find_author` returns lies in [0, 1], for a vector
      of non-negative values against authors whose values are positive. */
  lemma AttributionInUnitInterval(authors: seq<string>, ids: map<string, Freqs>, u: Freqs)
    requires WellFormed(u) && NonNegative(u)
    requires forall b :: b in ids ==> WellFormed(ids[b]) && PositiveValues(ids[b])
    ensures Attribution(authors, ids, u).Ok? ==>
      forall i, x, nu, na ::
        0 <= i < |Attribution(authors, ids, u).value| && IsScore(Attribution(authors, ids, u).value[i].1, x, nu, na)
        ==> 0.0 <= x <= 1.0
  {
    AttributionOk(authors, ids, u);
    var r := Attribution(authors, ids, u);
    if r.Ok? {
      forall i, x, nu, na | 0 <= i < |r.value| && IsScore(r.value[i].1, x, nu, na)
        ensures 0.0 <= x <= 1.0
      {
        var a := ids[authors[i]];
        assert NonNegative(a);
        ProximityInUnitInterval(u, a, x, nu, na);
      }
    }
  }

  /** With positive values a squared norm is 0 exactly when the vector is
      empty: `find_author` divides by zero when the unknown work or the
      author has no n-gram, and never otherwise. */
  lemma ScorableIffNonEmpty(a: string, ids: map<string, Freqs>, u: Freqs)
    requires WellFormed(u) && PositiveValues(u)
    requires forall b :: b in ids ==> WellFormed(ids[b]) && PositiveValues(ids[b])
    ensures Scorable(a, ids, u) <==> a in ids && u.keys != [] && ids[a].keys != []
  {
    NormSqZero(u);
    if a in ids {
      NormSqZero(ids[a]);
    }
  }

  /** The unknown work's frequencies are positive. */
  lemma UnknownPositive(text: string, o: Settings)
    ensures PositiveValues(Unknown(text, o))
  {
    var (counts, grams) := NgramCounts(Tokens(text, o.keepPonc, o.ponc), o.ngram);
    if counts.keys != [] {
      DividePositive(counts, grams);
    }
  }

  /** Dividing the unknown counts by another positive number, as
      `find_author` does with a gram count that `analyze` would not use,
      changes the norm of the unknown vector but not the proximity. */
  lemma DivisorDoesNotMatter(counts: Counts, t1: int, t2: int, a: Freqs, x: real, nu: real, na: real)
    requires WellFormed(counts) && WellFormed(a) && t1 > 0 && t2 > 0
    requires IsScore(ProximityOf(SortDesc(Divide(counts, t1)), a), x, nu, na)
    ensures IsScore(ProximityOf(SortDesc(Divide(counts, t2)), a), x, (t1 as real / t2 as real) * nu, na)
  {
    var c := t1 as real / t2 as real;
    QuotientPositive(t1 as real, t2 as real);
    DivideRescales(counts, t1, t2);
    SortDescScale(Divide(counts, t1), c);
    ScaleInvariant(SortDesc(Divide(counts, t1)), a, c, x, nu, na);
  }

  // --------------------------------------------------------------- gen_text

  /** `int(a / b)`: Python's true division truncated toward zero. */
  function TruncDiv(a: int, b: int): int
    requires b != 0
  {
    var q := (if a < 0 then -a else a) / (if b < 0 then -b else b);
    if (a < 0) == (b < 0) then q else -q
  }

  /** The number of draws: `range(int(taille / ngram))`. */
  function DrawCount(taille: int, ngram: int): (k: nat)
    requires ngram != 0
  {
    var q := TruncDiv(taille, ngram);
    if q < 0 then 0 else q
  }

  /** For a non-negative size and a positive order, the number of draws is
      the floor of taille / ngram: `taille < ngram` draws nothing. */
  lemma DrawCountFloor(taille: int, ngram: int)
    requires taille >= 0 && ngram > 0
    ensures DrawCount(taille, ngram) * ngram <= taille < (DrawCount(taille, ngram) + 1) * ngram
    ensures taille < ngram ==> DrawCount(taille, ngram) == 0
  {
  }

  function Abs(x: int): nat {
    if x < 0 then -x else x
  }

  /** `int(a / b)` rounds toward zero: its magnitude is the floor of |a|/|b|,
      and it is never of the opposite sign to a / b. */
  lemma TruncDivTowardZero(a: int, b: int)
    requires b != 0
    ensures Abs(TruncDiv(a, b) * b) <= Abs(a) < (Abs(TruncDiv(a, b)) + 1) * Abs(b)
    ensures TruncDiv(a, b) * a * b >= 0
  {
    var q := TruncDiv(a, b);
    var x, y := Abs(a), Abs(b);
    var q0 := x / y;
    assert Abs(q) == q0;
    FloorBounds(x, y);
    assert Abs(q * b) == q0 * y by { AbsMul(q, b); }
    assert (Abs(q) + 1) * Abs(b) == (q0 + 1) * y;
    SignsCancel(q, a, b, q0);
  }

  /** Euclidean division of naturals brackets the dividend. */
  lemma FloorBounds(x: nat, y: nat)
    requires y > 0
    ensures (x / y) * y <= x < (x / y + 1) * y
  {
    var r := x % y;
    assert x == (x / y) * y + r && 0 <= r < y;
    assert (x / y + 1) * y == (x / y) * y + y;
  }

  lemma AbsMul(x: int, y: int)
    ensures Abs(x * y) == Abs(x) * Abs(y)
  {
    if x < 0 && y >= 0 {
      assert x * y == -((-x) * y);
    } else if x >= 0 && y < 0 {
      assert x * y == -(x * (-y));
    } else if x < 0 && y < 0 {
      assert x * y == (-x) * (-y);
    }
  }

  /** The sign of TruncDiv(a, b) is the sign of a times the sign of b, so
      the product of the three is never negative. */
  lemma SignsCancel(q: int, a: int, b: int, q0: nat)
    requires b != 0 && q == TruncDiv(a, b) && q0 == Abs(a) / Abs(b)
    ensures q * a * b >= 0
  {
    var m := Abs(a) * Abs(b);
    assert m >= 0;
    assert q0 * m >= 0;
    if (a < 0) == (b < 0) {
      assert a * b == m by { AbsMul(a, b); }
      assert q == q0;
    } else {
      assert a * b == -m by { AbsMul(a, b); }
      assert q + q0 == 0;
    }
    assert q * a * b == q * (a * b);
  }

  /** A size and an order of opposite signs make no draw at all, and a size
      of 0 makes none either. */
  lemma DrawCountOppositeSigns(taille: int, ngram: int)
    requires ngram != 0
    ensures (taille < 0) != (ngram < 0) ==> DrawCount(taille, ngram) == 0
    ensures taille == 0 ==> DrawCount(taille, ngram) == 0
    ensures (taille < 0) == (ngram < 0) ==> DrawCount(taille, ngram) == Abs(taille) / Abs(ngram)
  {
    var q0 := Abs(taille) / Abs(ngram);
    assert q0 >= 0;
    if (taille < 0) == (ngram < 0) {
      assert TruncDiv(taille, ngram) == q0;
    } else {
      assert TruncDiv(taille, ngram) == -q0;
    }
    if taille == 0 {
      assert q0 == 0;
    }
  }

  /** A size of 10 with bigrams makes 5 draws; a size of 0 makes none. */
  lemma DrawCountExamples()
    ensures DrawCount(10, 2) == 5 && DrawCount(0, 1) == 0 && DrawCount(0, 2) == 0
    ensures DrawCount(-7, 2) == 0 && DrawCount(-7, -2) == 3 && DrawCount(7, -2) == 0
  {
  }

  /** Each drawn key written followed by one space. */
  function Emit(keys: seq<string>): string
    decreases |keys|
  {
    if keys == [] then [] else keys[0] + " " + Emit(keys[1..])
  }

  lemma {:induction false} EmitAppend(keys: seq<string>, k: string)
    ensures Emit(keys + [k]) == Emit(keys) + k + " "
    decreases |keys|
  {
    if keys != [] {
      assert (keys + [k])[1..] == keys[1..] + [k];
      EmitAppend(keys[1..], k);
    } else {
      assert Emit([k]) == k + " " + Emit([]);
    }
  }

  /** The text written splits into the tokens of the drawn keys, one after
      the other: with keys of n tokens each, |keys| * n words. */
  lemma {:induction false} EmitWords(keys: seq<string>, n: nat)
    requires forall i :: 0 <= i < |keys| ==> |Split(keys[i])| == n
    ensures |Split(Emit(keys))| == |keys| * n
    decreases |keys|
  {
    if keys != [] {
      SplitConcat(keys[0], Emit(keys[1..]));
      EmitWords(keys[1..], n);
      MulStep(|keys| - 1, n);
    }
  }

  lemma MulStep(k: nat, n: nat)
    ensures (k + 1) * n == k * n + n
  {
  }

  /** What `gen_text` writes, given the keys NumPy draws: the division by
      `ngram` comes first; the author's vector is looked up, and must be
      non-empty, at the first draw only. */
  function Generated(ids: map<string, Freqs>, auteur: string, taille: int, ngram: int,
                     draws: seq<string>): Result<string>
    requires ngram != 0 ==> |draws| >= DrawCount(taille, ngram)
  {
    if ngram == 0 then Err(ZeroDivisionError)
    else if DrawCount(taille, ngram) == 0 then Ok([])
    else if auteur !in ids then Err(KeyError(auteur))
    else if ids[auteur].keys == [] then Err(ValueError)
    else Ok(Emit(draws[..DrawCount(taille, ngram)]))
  }

  /** The text `gen_text` writes has exactly `int(taille / ngram)` * ngram
      words, never more than taille, when each drawn key is an n-gram of
      ngram words. */
  lemma GeneratedWords(ids: map<string, Freqs>, auteur: string, taille: int, ngram: int, draws: seq<string>)
    requires taille >= 0 && ngram > 0 && |draws| >= DrawCount(taille, ngram)
    requires forall i :: 0 <= i < |draws| ==> |Split(draws[i])| == ngram
    ensures Generated(ids, auteur, taille, ngram, draws).Ok? ==>
      |Split(Generated(ids, auteur, taille, ngram, draws).value)| == DrawCount(taille, ngram) * ngram <= taille
  {
    var k := DrawCount(taille, ngram);
    DrawCountFloor(taille, ngram);
    if k > 0 {
      EmitWords(draws[..k], ngram);
    }
  }

  /** `orderedIdentity` once `analyze` has run on a new model. */
  function Analyzed(authors: seq<string>, corpus: map<string, seq<string>>, o: Settings): map<string, Freqs> {
    GatheredPositive(map[], authors, corpus, o);
    SortedAll(Gathered(map[], authors, corpus, o))
  }

  /** Every key of an analysed vector is an n-gram of the model's order:
      it splits back into exactly `ngram` words. */
  lemma AnalyzedKeysSplit(authors: seq<string>, corpus: map<string, seq<string>>, o: Settings, a: string, k: string)
    requires a in Analyzed(authors, corpus, o) && k in Analyzed(authors, corpus, o)[a].vals
    ensures o.ngram == 1 || o.ngram == 2
    ensures |Split(k)| == o.ngram
  {
    var data := Gathered(map[], authors, corpus, o);
    GatheredPositive(map[], authors, corpus, o);
    GatheredLastWork(map[], authors, corpus, o, a);
    var ws := Works(corpus, a);
    var text := ws[|ws| - 1];
    assert data[a] == WorkCounts(text, o);
    assert k in data[a].vals;
    KeysSplitIntoOrder(Tokens(text, o.keepPonc, o.ponc), o.ngram, k);
  }

  /** A text generated from the analysed vectors has `taille / ngram`
      n-grams' worth of words, never more than `taille`. */
  lemma AnalyzedTextWords(authors: seq<string>, corpus: map<string, seq<string>>, o: Settings,
                          auteur: string, taille: int, draws: seq<string>)
    requires taille >= 0 && o.ngram > 0 && |draws| >= DrawCount(taille, o.ngram)
    requires auteur in Analyzed(authors, corpus, o)
    requires forall i :: 0 <= i < |draws| ==> draws[i] in Analyzed(authors, corpus, o)[auteur].vals
    ensures var r := Generated(Analyzed(authors, corpus, o), auteur, taille, o.ngram, draws);
      r.Ok? ==> |Split(r.value)| == DrawCount(taille, o.ngram) * o.ngram <= taille
  {
    var ids := Analyzed(authors, corpus, o);
    forall i | 0 <= i < |draws| ensures |Split(draws[i])| == o.ngram {
      AnalyzedKeysSplit(authors, corpus, o, auteur, draws[i]);
    }
    GeneratedWords(ids, auteur, taille, o.ngram, draws);
  }

  // -------------------------------------------------------- get_nth_element

  type Groups = Dict<real, seq<seq<string>>>

  /** The n-grams stored under value x so far. */
  function GroupOf(g: Groups, x: real): seq<seq<string>> {
    if x in g.vals then g.vals[x] else []
  }

  /** The grouping loop of `get_nth_element`: each key's tokens are
      appended to the group of its value, a new value opening a group. */
  function Grouped(g: Groups, ks: seq<string>, v: map<string, real>): (r: Groups)
    requires WellFormed(g) && HasValues(ks, v)
    ensures WellFormed(r)
    decreases |ks|
  {
    if ks == [] then g
    else
      var p := Grouped(g, ks[..|ks| - 1], v);
      var k := ks[|ks| - 1];
      Store(p, v[k], GroupOf(p, v[k]) + [Split(k)])
  }

  /** The second loop: the group of the n-th value in `numberKey`'s order,
      `[]` when there is none. */
  function NthGroup(g: Groups, n: int): seq<seq<string>>
    requires WellFormed(g)
  {
    if 1 <= n <= |g.keys| then g.vals[g.keys[n - 1]] else []
  }

  function SplitAll(ks: seq<string>): seq<seq<string>>
    decreases |ks|
  {
    if ks == [] then [] else [Split(ks[0])] + SplitAll(ks[1..])
  }

  lemma {:induction false} SplitAllAppend(ks: seq<string>, k: string)
    ensures SplitAll(ks + [k]) == SplitAll(ks) + [Split(k)]
    decreases |ks|
  {
    if ks != [] {
      assert (ks + [k])[1..] == ks[1..] + [k];
      SplitAllAppend(ks[1..], k);
    }
  }

  /** The values of the keys of ks, in order. */
  function ValuesOf(ks: seq<string>, v: map<string, real>): (xs: seq<real>)
    requires HasValues(ks, v)
    ensures |xs| == |ks| && forall i :: 0 <= i < |ks| ==> xs[i] == v[ks[i]]
  {
    seq(|ks|, i requires 0 <= i < |ks| => v[ks[i]])
  }

  /** The values after the loop: those already present, then the new
      ones in the order they are first met. */
  lemma {:induction false} GroupedKeys(g: Groups, ks: seq<string>, v: map<string, real>)
    requires WellFormed(g) && HasValues(ks, v)
    ensures Grouped(g, ks, v).keys == DedupOnto(g.keys, ValuesOf(ks, v))
    decreases |ks|
  {
    if ks != [] {
      var init := ks[..|ks| - 1];
      GroupedKeys(g, init, v);
      assert ValuesOf(ks, v)[..|ks| - 1] == ValuesOf(init, v);
    }
  }

  /** Under each value x: the group of before, then the split keys whose
      value is x, in key order. */
  lemma {:induction false} GroupedGroups(g: Groups, ks: seq<string>, v: map<string, real>, x: real)
    requires WellFormed(g) && HasValues(ks, v)
    ensures GroupOf(Grouped(g, ks, v), x) == GroupOf(g, x) + SplitAll(WithValue(ks, v, x))
    decreases |ks|
  {
    if ks != [] {
      GroupedGroups(g, ks[..|ks| - 1], v, x);
      GroupedStep(g, ks, v, x);
    }
  }

  lemma GroupOfStore(p: Groups, y: real, s: seq<seq<string>>, x: real)
    requires WellFormed(p)
    ensures GroupOf(Store(p, y, s), x) == if x == y then s else GroupOf(p, x)
  {
  }

  /** One key more: its split is appended to the group of its value. */
  lemma GroupedStep(g: Groups, ks: seq<string>, v: map<string, real>, x: real)
    requires WellFormed(g) && HasValues(ks, v) && ks != []
    requires GroupOf(Grouped(g, ks[..|ks| - 1], v), x)
      == GroupOf(g, x) + SplitAll(WithValue(ks[..|ks| - 1], v, x))
    ensures GroupOf(Grouped(g, ks, v), x) == GroupOf(g, x) + SplitAll(WithValue(ks, v, x))
  {
    var init, k := ks[..|ks| - 1], ks[|ks| - 1];
    var p := Grouped(g, init, v);
    assert Grouped(g, ks, v) == Store(p, v[k], GroupOf(p, v[k]) + [Split(k)]);
    WithValueAppend(init, k, v, x);
    LastSplit(ks);
    StoreStep(p, GroupOf(g, x), WithValue(init, v, x), k, v[k], x);
  }

  /** The same step on the group map alone. */
  lemma StoreStep(p: Groups, base: seq<seq<string>>, w: seq<string>, k: string, y: real, x: real)
    requires WellFormed(p) && GroupOf(p, x) == base + SplitAll(w)
    ensures GroupOf(Store(p, y, GroupOf(p, y) + [Split(k)]), x) == base + SplitAll(w + if y == x then [k] else [])
  {
    var s := GroupOf(p, y) + [Split(k)];
    GroupOfStore(p, y, s, x);
    if y == x {
      SplitAllAppend(w, k);
      AppendStep(GroupOf(Store(p, y, s), x), GroupOf(p, x), base, SplitAll(w), SplitAll(w + [k]), Split(k), true);
    } else {
      assert w + [] == w;
    }
  }

  lemma AppendStep<T>(after: seq<T>, before: seq<T>, base: seq<T>, rest: seq<T>, rest': seq<T>, t: T, hit: bool)
    requires before == base + rest
    requires after == if hit then before + [t] else before
    requires rest' == if hit then rest + [t] else rest
    ensures after == base + rest'
  {
  }

  lemma {:induction false} WithValueAppend(ks: seq<string>, k: string, v: map<string, real>, x: real)
    requires HasValues(ks, v) && k in v
    ensures HasValues(ks + [k], v)
    ensures WithValue(ks + [k], v, x) == WithValue(ks, v, x) + (if v[k] == x then [k] else [])
    decreases |ks|
  {
    if ks != [] {
      assert (ks + [k])[1..] == ks[1..] + [k];
      WithValueAppend(ks[1..], k, v, x);
    }
  }

  /** Dropping repeats from a non-increasing sequence leaves a strictly
      decreasing one. */
  lemma DedupDescending(s: seq<real>)
    requires forall i, j :: 0 <= i < j < |s| ==> s[i] >= s[j]
    ensures forall i, j :: 0 <= i < j < |Dedup(s)| ==> Dedup(s)[i] > Dedup(s)[j]
  {
    DedupFirstSeen(s);
    var d := Dedup(s);
    forall i, j | 0 <= i < j < |d| ensures d[i] > d[j] {
      var p, q := FirstIndex(s, d[i]), FirstIndex(s, d[j]);
      assert s[p] >= s[q];
    }
  }

  /** The ranks of an author's vector id, grouped afresh as the first call
      of `get_nth_element` groups them: one value per distinct frequency,
      strictly decreasing, and under each the words of the grams of that
      frequency in the order of id. */
  function Ranks(id: Freqs): (g: Groups)
    requires WellFormed(id)
    ensures WellFormed(g)
  {
    var o := SortDesc(id);
    Grouped(Empty(), o.keys, o.vals)
  }

  /** The n-th most frequent n-grams of an author: the n-th rank of the
      author's own vector. */
  function NthElement(id: Freqs, n: int): seq<seq<string>>
    requires WellFormed(id)
  {
    NthGroup(Ranks(id), n)
  }

  /** The values of `numberKey` after a fresh grouping are the distinct
      frequencies of the author, from the largest down. */
  lemma RanksDescending(id: Freqs)
    requires WellFormed(id)
    ensures forall i, j :: 0 <= i < j < |Ranks(id).keys| ==> Ranks(id).keys[i] > Ranks(id).keys[j]
  {
    var o := SortDesc(id);
    SortDescSpec(id);
    GroupedKeys(Empty(), o.keys, o.vals);
    var vs := ValuesOf(o.keys, o.vals);
    forall i, j | 0 <= i < j < |vs| ensures vs[i] >= vs[j] {
      assert vs[i] == o.vals[o.keys[i]] && vs[j] == o.vals[o.keys[j]];
    }
    DedupDescending(vs);
    assert Ranks(id).keys == Dedup(vs);
  }

  /** Every frequency of the author has a rank, and only those. */
  lemma RanksValues(id: Freqs, x: real)
    requires WellFormed(id)
    ensures x in Ranks(id).keys <==> exists k :: k in id.vals && id.vals[k] == x
  {
    var o := SortDesc(id);
    SortDescSpec(id);
    GroupedKeys(Empty(), o.keys, o.vals);
    var vs := ValuesOf(o.keys, o.vals);
    DedupFirstSeen(vs);
    if x in Ranks(id).keys {
      var i :| 0 <= i < |vs| && vs[i] == x;
      assert o.keys[i] in multiset(id.keys);
    }
    if exists k :: k in id.vals && id.vals[k] == x {
      var k :| k in id.vals && id.vals[k] == x;
      assert k in multiset(o.keys);
      var i :| 0 <= i < |o.keys| && o.keys[i] == k;
      assert vs[i] == x;
    }
  }

  /** What one call of `get_nth_element` returns for an author seen for
      the first time: the words of every gram of the n-th largest
      frequency, in the order of `identity`, and nothing for a rank that
      does not exist. */
  lemma NthElementSpec(id: Freqs, n: int)
    requires WellFormed(id)
    ensures 1 <= n <= |Ranks(id).keys| ==>
      NthElement(id, n) == SplitAll(WithValue(id.keys, id.vals, Ranks(id).keys[n - 1]))
    ensures !(1 <= n <= |Ranks(id).keys|) ==> NthElement(id, n) == []
  {
    var o := SortDesc(id);
    var g := Ranks(id);
    if 1 <= n <= |g.keys| {
      var x := g.keys[n - 1];
      SortDescSpec(id);
      GroupedGroups(Empty(), o.keys, o.vals, x);
      assert GroupOf(Empty(), x) == [];
      assert NthElement(id, n) == GroupOf(g, x);
    }
  }

  /** A second call for the same author keeps the values of `numberKey`. */
  lemma RepeatedCallKeys(id: Freqs)
    requires WellFormed(id)
    ensures var o := SortDesc(id);
      Grouped(Ranks(id), o.keys, o.vals).keys == Ranks(id).keys
  {
    var o := SortDesc(id);
    var vs := ValuesOf(o.keys, o.vals);
    GroupedKeys(Empty(), o.keys, o.vals);
    GroupedKeys(Ranks(id), o.keys, o.vals);
    DedupFirstSeen(vs);
    DedupOntoKnown(Ranks(id).keys, vs);
  }

  /** ... and appends every gram again under its value, so each group
      comes back twice over. */
  lemma RepeatedCallDoubles(id: Freqs, n: int)
    requires WellFormed(id)
    ensures var o := SortDesc(id);
      NthGroup(Grouped(Ranks(id), o.keys, o.vals), n) == NthElement(id, n) + NthElement(id, n)
  {
    var o := SortDesc(id);
    var g := Ranks(id);
    var h := Grouped(g, o.keys, o.vals);
    RepeatedCallKeys(id);
    if 1 <= n <= |g.keys| {
      var x := g.keys[n - 1];
      var once := SplitAll(WithValue(o.keys, o.vals, x));
      GroupedGroups(Empty(), o.keys, o.vals, x);
      GroupedGroups(g, o.keys, o.vals, x);
      assert GroupOf(Empty(), x) == [];
      Doubled(GroupOf(g, x), GroupOf(h, x), once);
    } else {
      assert NthElement(id, n) == [];
    }
  }

  lemma Doubled<T>(first: seq<T>, second: seq<T>, s: seq<T>)
    requires first == [] + s && second == first + s
    ensures second == first + first
  {
  }

  /** Appending only elements already present changes nothing. */
  lemma {:induction false} DedupOntoKnown(seed: seq<real>, s: seq<real>)
    requires forall x :: x in s ==> x in seed
    ensures DedupOnto(seed, s) == seed
    decreases |s|
  {
    if s != [] {
      var init, y := s[..|s| - 1], s[|s| - 1];
      assert forall x :: x in init ==> x in s;
      assert y in s;
      DedupOntoKnown(seed, init);
      assert DedupOnto(seed, s) == (var p := DedupOnto(seed, init); if y in p then p else p + [y]);
    }
  }

  // ---------------------------------------------------------------- loops

  /** `for word in d: r[word] = d[word] / total`, building a new dict in
      the key order of d. */
  method DivideAll(d: Counts, total: int) returns (r: Freqs)
    requires WellFormed(d) && (d.keys != [] ==> total != 0)
    ensures r == Divide(d, total)
  {
    r := Empty();
    var i := 0;
    while i < |d.keys|
      invariant 0 <= i <= |d.keys|
      invariant WellFormed(r) && r.keys == d.keys[..i]
      invariant r.vals == map k | k in d.keys[..i] :: d.vals[k] as real / total as real
    {
      var k := d.keys[i];
      assert k !in d.keys[..i];
      assert d.keys[..i + 1] == d.keys[..i] + [k];
      r := Store(r, k, d.vals[k] as real / total as real);
      i := i + 1;
    }
    assert d.keys[..i] == d.keys;
    var w := Divide(d, total);
    assert r.vals == w.vals;
  }

  /** The dot-product loop of `find_author`: `for word in u: if word in a:
      total += u[word] * a[word]`. */
  method DotProduct(u: Freqs, a: Freqs) returns (total: real)
    requires WellFormed(u)
    ensures total == Dot(u, a)
  {
    total := 0.0;
    var i := 0;
    while i < |u.keys|
      invariant 0 <= i <= |u.keys|
      invariant total == DotOver(u.keys[..i], u.vals, a.vals)
    {
      var word := u.keys[i];
      assert u.keys[..i + 1][..i] == u.keys[..i];
      if word in a.vals {
        total := total + u.vals[word] * a.vals[word];
      }
      i := i + 1;
    }
    assert u.keys[..i] == u.keys;
  }

  /** The body of the work loop of `analyze`, for the text of one work:
      its n-gram counts and the number of grams counted. */
  method CountWork(text: string, o: Settings) returns (counts: Counts, grams: nat)
    ensures counts == WorkCounts(text, o) && grams == WorkGrams(text, o)
  {
    var words := Tokenize(text, o.keepPonc, o.ponc);
    counts, grams := CountNgrams(words, o.ngram);
  }

  /** The work loop of `analyze` for one author: every work is counted,
      its grams are added to the author's total and its counts replace the
      author's entry, so the entry left is that of the last work. */
  method CountWorks(works: seq<string>, o: Settings) returns (last: Counts, total: nat)
    ensures total == GramTotal(works, o)
    ensures works != [] ==> last == WorkCounts(works[|works| - 1], o)
  {
    last, total := Empty(), 0;
    var j := 0;
    while j < |works|
      invariant 0 <= j <= |works|
      invariant total == GramTotal(works[..j], o)
      invariant j > 0 ==> last == WorkCounts(works[j - 1], o)
    {
      var grams;
      last, grams := CountWork(works[j], o);
      GramTotalStep(works, j, o);
      total := total + grams;
      j := j + 1;
    }
    assert works[..j] == works;
  }

  /** Every author of `data` has non-empty, positive counts to normalise. */
  ghost predicate Normalisable(data: map<string, Counts>) {
    forall a :: a in data ==> WellFormed(data[a]) && Positive(data[a])
  }

  /** What the normalisation loop of `analyze` leaves for the authors of
      data: their frequency vectors and the sorted copies of them. */
  ghost predicate Normalised(data: map<string, Counts>, id: map<string, Freqs>, sorted: map<string, Freqs>)
    requires Normalisable(data)
  {
    && id == Identities(data)
    && sorted == SortedAll(data)
  }

  /** `identity` as `analyze` leaves it for the authors of data. */
  function Identities(data: map<string, Counts>): map<string, Freqs>
    requires Normalisable(data)
  {
    map a | a in data :: Identity(data[a])
  }

  /** `orderedIdentity` as `analyze` leaves it for the authors of data. */
  function SortedAll(data: map<string, Counts>): map<string, Freqs>
    requires Normalisable(data)
  {
    map a | a in data :: SortDesc(Identity(data[a]))
  }

  lemma GatheredStep(data: map<string, Counts>, authors: seq<string>, i: nat,
                     corpus: map<string, seq<string>>, o: Settings)
    requires i < |authors|
    ensures Gathered(data, authors[..i + 1], corpus, o)
      == var ws := Works(corpus, authors[i]);
         if ws == [] then Gathered(data, authors[..i], corpus, o)
         else Gathered(data, authors[..i], corpus, o)[authors[i] := WorkCounts(ws[|ws| - 1], o)]
  {
    var p := authors[..i + 1];
    assert p[..|p| - 1] == authors[..i];
    var d := Gathered(data, authors[..i], corpus, o);
    assert Gathered(data, p, corpus, o)
      == var ws := Works(corpus, p[|p| - 1]); if ws == [] then d else d[p[|p| - 1] := WorkCounts(ws[|ws| - 1], o)];
  }

  lemma TalliedStep(wc: map<string, int>, authors: seq<string>, i: nat,
                    corpus: map<string, seq<string>>, o: Settings)
    requires i < |authors|
    ensures Tallied(wc, authors[..i + 1], corpus, o)
      == Tallied(wc, authors[..i], corpus, o)[authors[i] := GramTotal(Works(corpus, authors[i]), o)]
  {
    assert authors[..i + 1][..i] == authors[..i];
  }

  /** The author loop of `analyze` on `DATA` and `wordCountAuthor`: for
      each listed author the total is reset to 0 and grows by the grams of
      each work, and `DATA[a]` receives the counts of each work in turn. */
  method GatherAll(data: map<string, Counts>, wc: map<string, int>, authors: seq<string>,
                   corpus: map<string, seq<string>>, o: Settings)
    returns (data': map<string, Counts>, wc': map<string, int>)
    ensures data' == Gathered(data, authors, corpus, o)
    ensures wc' == Tallied(wc, authors, corpus, o)
  {
    data', wc' := data, wc;
    var i := 0;
    while i < |authors|
      invariant 0 <= i <= |authors|
      invariant data' == Gathered(data, authors[..i], corpus, o)
      invariant wc' == Tallied(wc, authors[..i], corpus, o)
    {
      var a := authors[i];
      var works := Works(corpus, a);
      var last, total := CountWorks(works, o);
      GatheredStep(data, authors, i, corpus, o);
      TalliedStep(wc, authors, i, corpus, o);
      wc' := wc'[a := total];
      if works != [] {
        data' := data'[a := last];
      }
      i := i + 1;
    }
    assert authors[..i] == authors;
  }

  /** One step of the normalisation loop: the counts divided by their sum,
      and those frequencies sorted by decreasing value. */
  method NormaliseOne(d: Counts) returns (freqs: Freqs, ordered: Freqs)
    requires WellFormed(d) && Positive(d)
    ensures freqs == Identity(d) && ordered == SortDesc(freqs)
  {
    TotalAtLeast(d.keys, d.vals);
    var totalword := CountSum(d);
    freqs := DivideAll(d, totalword);
    ordered := SortDesc(freqs);
  }

  /** The normalisation loop of `analyze`: every author of `data` receives
      its frequency vector and the sorted copy of it. */
  method NormaliseAll(data: map<string, Counts>) returns (id: map<string, Freqs>, sorted: map<string, Freqs>)
    requires Normalisable(data)
    ensures Normalised(data, id, sorted)
  {
    id, sorted := map[], map[];
    var todo := data.Keys;
    while todo != {}
      invariant todo <= data.Keys
      invariant id.Keys == data.Keys - todo && sorted.Keys == id.Keys
      invariant forall a :: a in id ==> id[a] == Identity(data[a]) && sorted[a] == SortDesc(Identity(data[a]))
      decreases todo
    {
      var a :| a in todo;
      var freqs, ordered := NormaliseOne(data[a]);
      id := id[a := freqs];
      sorted := sorted[a := ordered];
      todo := todo - {a};
    }
    NormalisedPointwise(data, id, sorted);
  }

  /** Normalised, one author at a time. */
  lemma NormalisedPointwise(data: map<string, Counts>, id: map<string, Freqs>, sorted: map<string, Freqs>)
    requires Normalisable(data)
    requires id.Keys == data.Keys && sorted.Keys == data.Keys
    requires forall a :: a in id ==> id[a] == Identity(data[a]) && sorted[a] == SortDesc(Identity(data[a]))
    ensures Normalised(data, id, sorted)
  {
    assert id == Identities(data);
    assert sorted == SortedAll(data);
  }

  /** `sum(x ** 2 for x in d.values())`. */
  method SquareSum(d: Freqs) returns (s: real)
    requires WellFormed(d)
    ensures s == NormSq(d)
  {
    s := 0.0;
    var i := 0;
    while i < |d.keys|
      invariant 0 <= i <= |d.keys|
      invariant s == SqOver(d.keys[..i], d.vals, d.vals.Keys)
    {
      assert d.keys[..i + 1][..i] == d.keys[..i];
      s := s + d.vals[d.keys[i]] * d.vals[d.keys[i]];
      i := i + 1;
    }
    assert d.keys[..i] == d.keys;
  }

  /** One more author in the loop of `find_author`. */
  lemma AttributionStep(authors: seq<string>, i: nat, ids: map<string, Freqs>, u: Freqs)
    requires WellFormed(u) && forall b :: b in ids ==> WellFormed(ids[b])
    requires i < |authors|
    ensures Attribution(authors[..i + 1], ids, u)
      == var prev := Attribution(authors[..i], ids, u);
         var a := authors[i];
         if prev.Err? then prev
         else if a !in ids then Err(KeyError(a))
         else if NormSq(u) == 0.0 || NormSq(ids[a]) == 0.0 then Err(ZeroDivisionError)
         else Ok(prev.value + [(a, ProximityOf(u, ids[a]))])
  {
    var p := authors[..i + 1];
    assert p[..|p| - 1] == authors[..i];
    var prev := Attribution(authors[..i], ids, u);
    assert Attribution(p, ids, u)
      == var a := p[|p| - 1];
         if prev.Err? then prev
         else if a !in ids then Err(KeyError(a))
         else if NormSq(u) == 0.0 || NormSq(ids[a]) == 0.0 then Err(ZeroDivisionError)
         else Ok(prev.value + [(a, ProximityOf(u, ids[a]))]);
  }

  /** One more key in the grouping loop of `get_nth_element`. */
  lemma GroupedUnfold(g: Groups, ks: seq<string>, i: nat, v: map<string, real>)
    requires WellFormed(g) && HasValues(ks, v) && i < |ks|
    ensures Grouped(g, ks[..i + 1], v)
      == var p := Grouped(g, ks[..i], v); Store(p, v[ks[i]], GroupOf(p, v[ks[i]]) + [Split(ks[i])])
  {
    var q := ks[..i + 1];
    assert q[..|q| - 1] == ks[..i];
    var p := Grouped(g, ks[..i], v);
    assert Grouped(g, q, v) == var k := q[|q| - 1]; Store(p, v[k], GroupOf(p, v[k]) + [Split(k)]);
  }

  /** The grouping loop of `get_nth_element` over the vector d: each gram's
      words go to the end of the list under its value, a new value
      opening a list at the end of g. */
  method GroupAll(g: Groups, d: Freqs) returns (r: Groups)
    requires WellFormed(g) && WellFormed(d)
    ensures r == Grouped(g, d.keys, d.vals)
  {
    r := g;
    var i := 0;
    while i < |d.keys|
      invariant 0 <= i <= |d.keys|
      invariant r == Grouped(g, d.keys[..i], d.vals)
    {
      var gram := d.keys[i];
      var val := d.vals[gram];
      var tempList := Split(gram);
      GroupedUnfold(g, d.keys, i, d.vals);
      if val !in r.vals {
        assert GroupOf(r, val) + [tempList] == [tempList];
        r := Store(r, val, [tempList]);
      } else {
        r := Store(r, val, r.vals[val] + [tempList]);
      }
      i := i + 1;
    }
    assert d.keys[..i] == d.keys;
  }

  /** The second loop of `get_nth_element`: walk the values of g in order,
      counting, and stop at the n-th. */
  method NthOf(g: Groups, n: int) returns (found: seq<seq<string>>)
    requires WellFormed(g)
    ensures found == NthGroup(g, n)
  {
    found := [];
    var counter := 0;
    var i := 0;
    while i < |g.keys|
      invariant 0 <= i <= |g.keys| && counter == i
      invariant n < 1 || n > i
    {
      counter := counter + 1;
      if counter == n {
        found := g.vals[g.keys[i]];
        return;
      }
      i := i + 1;
    }
  }

  // ---------------------------------------------------------------- the class

  lemma GramTotalStep(works: seq<string>, j: nat, o: Settings)
    requires j < |works|
    ensures GramTotal(works[..j + 1], o) == GramTotal(works[..j], o) + WorkGrams(works[j], o)
  {
    assert works[..j + 1][..j] == works[..j];
  }

  /** The object `testmarkov.py` drives: its settings, the author list,
      and the tables `analyze` fills and the queries read. */
  class Markov {
    /** `PONC`, the separators replaced by spaces when marks are dropped. */
    const ponc: seq<string>
    var keepPonc: bool
    var ngram: int
    var auteurs: seq<string>
    /** `DATA`: per author, the n-gram counts. */
    var data: map<string, Counts>
    var wordCountAuthor: map<string, int>
    var identity: map<string, Freqs>
    var orderedIdentity: map<string, Freqs>
    /** Kept from one call of `get_nth_element` to the next. */
    var numberKey: Groups

    /** The tables agree: every stored count map is well formed with
        counts of at least 1, and `identity` and `orderedIdentity` hold,
        for exactly the authors of `DATA`, the frequencies of their
        counts and those frequencies sorted. */
    ghost predicate Valid()
      reads this
    {
      && Normalisable(data)
      && Normalised(data, identity, orderedIdentity)
      && WellFormed(numberKey)
    }

    /** The settings the next analysis or query uses. */
    function Options(): Settings
      reads this
    {
      Settings(keepPonc, ponc, ngram)
    }

    /** `__init__`: punctuation kept, unigrams, every table empty. */
    constructor ()
      ensures Valid()
      ensures ponc == Ponc
      ensures keepPonc && ngram == 1 && auteurs == []
      ensures data == map[] && wordCountAuthor == map[] && identity == map[] && orderedIdentity == map[]
      ensures numberKey == Empty()
    {
      ponc := Ponc;
      data := map[];
      keepPonc := true;
      auteurs := [];
      ngram := 1;
      wordCountAuthor := map[];
      identity := map[];
      orderedIdentity := map[];
      numberKey := Empty();
    }

    /** `set_ponc` */
    method SetPonc(value: bool)
      modifies this
      ensures keepPonc == value && ngram == old(ngram) && auteurs == old(auteurs)
      ensures data == old(data) && wordCountAuthor == old(wordCountAuthor)
      ensures identity == old(identity) && orderedIdentity == old(orderedIdentity) && numberKey == old(numberKey)
    {
      keepPonc := value;
    }

    /** `set_ngram` */
    method SetNgram(n: int)
      modifies this
      ensures ngram == n && keepPonc == old(keepPonc) && auteurs == old(auteurs)
      ensures data == old(data) && wordCountAuthor == old(wordCountAuthor)
      ensures identity == old(identity) && orderedIdentity == old(orderedIdentity) && numberKey == old(numberKey)
    {
      ngram := n;
    }

    /** The loop of `set_auteurs`, given the names of the directories it
        found: each is appended, after the authors already listed. */
    method AddAuteurs(names: seq<string>)
      modifies this
      ensures auteurs == old(auteurs) + names
      ensures keepPonc == old(keepPonc) && ngram == old(ngram)
      ensures data == old(data) && wordCountAuthor == old(wordCountAuthor)
      ensures identity == old(identity) && orderedIdentity == old(orderedIdentity) && numberKey == old(numberKey)
    {
      var i := 0;
      while i < |names|
        invariant 0 <= i <= |names|
        invariant auteurs == old(auteurs) + names[..i]
        invariant keepPonc == old(keepPonc) && ngram == old(ngram)
        invariant data == old(data) && wordCountAuthor == old(wordCountAuthor)
        invariant identity == old(identity) && orderedIdentity == old(orderedIdentity) && numberKey == old(numberKey)
      {
        assert names[..i + 1] == names[..i] + [names[i]];
        auteurs := auteurs + [names[i]];
        i := i + 1;
      }
      assert names[..i] == names;
    }

    /** `analyze` over the works of corpus (an author's texts in the order
        `get_aut_files` lists them). For each listed author, every work is
        counted and stored over the previous one in `DATA`, while
        `wordCountAuthor` adds up the grams of all of them; then every
        author of `DATA` is normalised and sorted again. */
    method Analyze(corpus: map<string, seq<string>>)
      requires Valid()
      modifies this
      ensures Valid()
      ensures data == Gathered(old(data), auteurs, corpus, Options())
      ensures wordCountAuthor == Tallied(old(wordCountAuthor), auteurs, corpus, Options())
      ensures keepPonc == old(keepPonc) && ngram == old(ngram) && auteurs == old(auteurs)
      ensures numberKey == old(numberKey)
    {
      var o := Options();
      data, wordCountAuthor := GatherAll(data, wordCountAuthor, auteurs, corpus, o);
      GatheredPositive(old(data), auteurs, corpus, o);
      Normalise();
    }

    /** The normalisation loop of `analyze`: for every author of `DATA`,
        `identity` receives the counts divided by their sum and
        `orderedIdentity` the same entries sorted by decreasing value. */
    method Normalise()
      requires forall a :: a in data ==> WellFormed(data[a]) && Positive(data[a])
      requires identity.Keys <= data.Keys && orderedIdentity.Keys <= data.Keys && WellFormed(numberKey)
      modifies this
      ensures Valid()
      ensures data == old(data) && wordCountAuthor == old(wordCountAuthor)
      ensures keepPonc == old(keepPonc) && ngram == old(ngram) && auteurs == old(auteurs)
      ensures numberKey == old(numberKey)
    {
      identity, orderedIdentity := NormaliseAll(data);
    }
    /** `find_author` on the text of the unknown work: the text is
        tokenised and counted as in `analyze`, the counts are divided by
        the number of grams seen and sorted, and every listed author is
        scored in turn. */
    method FindAuthor(oeuvre: string) returns (r: Result<seq<(string, Proximity)>>)
      requires Valid()
      ensures r == Attribution(auteurs, orderedIdentity, Unknown(oeuvre, Options()))
    {
      var words := Tokenize(oeuvre, keepPonc, ponc);
      var oeuvreData, oeuvreGramCount := CountNgrams(words, ngram);
      var freqs := DivideAll(oeuvreData, oeuvreGramCount);
      var u := SortDesc(freqs);
      var resultats: seq<(string, Proximity)> := [];
      var i := 0;
      while i < |auteurs|
        invariant 0 <= i <= |auteurs|
        invariant Attribution(auteurs[..i], orderedIdentity, u) == Ok(resultats)
      {
        var author := auteurs[i];
        AttributionStep(auteurs, i, orderedIdentity, u);
        if author !in orderedIdentity {
          AttributionFails(auteurs, i + 1, orderedIdentity, u);
          return Err(KeyError(author));
        }
        var total := DotProduct(u, orderedIdentity[author]);
        var normU := SquareSum(u);
        var normA := SquareSum(orderedIdentity[author]);
        if normU == 0.0 || normA == 0.0 {
          AttributionFails(auteurs, i + 1, orderedIdentity, u);
          return Err(ZeroDivisionError);
        }
        resultats := resultats + [(author, Proximity(total, normU, normA))];
        i := i + 1;
      }
      assert auteurs[..i] == auteurs;
      return Ok(resultats);
    }

    /** `gen_text`, returning the text it writes; draws are the keys
        NumPy's `random.choice` picks, one per iteration. */
    method GenText(auteur: string, taille: int, draws: seq<string>) returns (r: Result<string>)
      requires ngram != 0 ==> |draws| >= DrawCount(taille, ngram)
      ensures r == Generated(orderedIdentity, auteur, taille, ngram, draws)
    {
      if ngram == 0 {
        return Err(ZeroDivisionError);
      }
      var count := TruncDiv(taille, ngram);
      var text := "";
      var i := 0;
      while i < count
        invariant 0 <= i && i <= DrawCount(taille, ngram)
        invariant text == Emit(draws[..i])
        invariant i > 0 ==> auteur in orderedIdentity && orderedIdentity[auteur].keys != []
      {
        if auteur !in orderedIdentity {
          return Err(KeyError(auteur));
        }
        if orderedIdentity[auteur].keys == [] {
          return Err(ValueError);
        }
        EmitAppend(draws[..i], draws[i]);
        assert draws[..i + 1] == draws[..i] + [draws[i]];
        text := text + draws[i] + " ";
        i := i + 1;
      }
      return Ok(text);
    }

    /** `get_nth_element`: the words of every gram of the author are added
        to `numberKey` under their frequency, then the n-th value of
        `numberKey` in insertion order is looked up. */
    method GetNthElement(auteur: string, n: int) returns (r: Result<seq<seq<string>>>)
      requires Valid()
      modifies this
      ensures Valid()
      ensures auteur !in orderedIdentity ==> r == Err(KeyError(auteur)) && numberKey == old(numberKey)
      ensures auteur in orderedIdentity ==>
        && numberKey == Grouped(old(numberKey), orderedIdentity[auteur].keys, orderedIdentity[auteur].vals)
        && r == Ok(NthGroup(numberKey, n))
      ensures data == old(data) && wordCountAuthor == old(wordCountAuthor)
      ensures identity == old(identity) && orderedIdentity == old(orderedIdentity)
      ensures keepPonc == old(keepPonc) && ngram == old(ngram) && auteurs == old(auteurs)
    {
      if auteur !in orderedIdentity {
        return Err(KeyError(auteur));
      }
      numberKey := GroupAll(numberKey, orderedIdentity[auteur]);
      var found := NthOf(numberKey, n);
      return Ok(found);
    }
  }
}
