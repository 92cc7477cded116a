/** The stand-alone preprocessing helpers: `customSeparators` replaces each
    separator of its list by a space, lower-casing the text after every
    replacement, and `customSplit` counts the words of a text and drops those
    of at most two characters. */
module Extract {
  import opened Dicts
  import opened Text
  import opened Ngrams

  /** The separators of `customSeparators`: the same sixteen strings, in
      the same order, as `PONC` of the markov class. */
  const Separators: seq<string> := Ponc

  /** The loop of `customSeparators` over seps: replace, then lower-case,
      for each separator in turn. */
  function Separated(s: string, seps: seq<string>): string
    decreases |seps|
  {
    if seps == [] then s else Separated(Lower(Replace(s, seps[0], " ")), seps[1..])
  }

  method CustomSeparators(inputText: string) returns (r: string)
    ensures r == Separated(inputText, Separators)
  {
    r := SeparateEach(inputText, Separators);
  }

  /** The loop itself, over any separator list. */
  method SeparateEach(text: string, seps: seq<string>) returns (r: string)
    ensures r == Separated(text, seps)
  {
    r := text;
    var i := 0;
    while i < |seps|
      invariant 0 <= i <= |seps|
      invariant Separated(r, seps[i..]) == Separated(text, seps)
    {
      assert seps[i..][1..] == seps[i + 1..];
      r := Replace(r, seps[i], " ");
      r := Lower(r);
      i := i + 1;
    }
  }

  /** A character that lower-casing neither changes nor produces:
      no capital and no small letter of the modelled blocks. */
  predicate Caseless(c: char) {
    var n := c as int;
    && !('A' <= c <= 'Z') && !('a' <= c <= 'z')
    && !(0xC0 <= n <= 0xDE && n != 0xD7) && !(0xE0 <= n <= 0xFE && n != 0xF7)
  }

  predicate CaselessPatterns(seps: seq<string>) {
    forall i, j :: 0 <= i < |seps| && 0 <= j < |seps[i]| ==> Caseless(seps[i][j])
  }

  lemma SeparatorsCaseless()
    ensures CaselessPatterns(Separators) && NonEmptyPatterns(Separators) && MarksOrSpaces(Separators)
  {
    PoncShape();
  }

  /** Only c itself lower-cases to a caseless c. */
  lemma LowerCharCaseless(d: char, c: char)
    requires Caseless(c)
    ensures LowerChar(d) == c <==> d == c
  {
  }

  /** s starts with a caseless pattern exactly when its lower-cased copy
      does. */
  lemma {:induction false} LowerPrefix(s: string, pat: string)
    requires |pat| <= |s| && forall j :: 0 <= j < |pat| ==> Caseless(pat[j])
    ensures Lower(s)[..|pat|] == pat <==> s[..|pat|] == pat
  {
    if Lower(s)[..|pat|] == pat {
      forall j | 0 <= j < |pat| ensures s[j] == pat[j] {
        assert Lower(s)[j] == LowerChar(s[j]);
        LowerCharCaseless(s[j], pat[j]);
      }
    }
  }

  /** Replacing a caseless pattern by a space commutes with lower-casing. */
  lemma {:induction false} LowerReplace(s: string, pat: string)
    requires pat != [] && forall j :: 0 <= j < |pat| ==> Caseless(pat[j])
    ensures Lower(Replace(s, pat, " ")) == Replace(Lower(s), pat, " ")
    decreases |s|
  {
    if s != [] {
      var l := Lower(s);
      if |pat| <= |s| {
        LowerPrefix(s, pat);
      }
      if |pat| <= |s| && s[..|pat|] == pat {
        var t := s[|pat|..];
        assert l[|pat|..] == Lower(t);
        assert Replace(l, pat, " ") == " " + Replace(Lower(t), pat, " ");
        LowerReplace(t, pat);
        LowerConcat(" ", Replace(t, pat, " "));
        assert Lower(" ") == " ";
      } else {
        var t := s[1..];
        assert l[1..] == Lower(t);
        assert Replace(l, pat, " ") == [l[0]] + Replace(Lower(t), pat, " ");
        LowerReplace(t, pat);
        LowerConcat([s[0]], Replace(t, pat, " "));
        assert Lower([s[0]]) == [l[0]];
      }
    }
  }

  /** On a lower-case text, the loop is `StripAll`. */
  lemma {:induction false} SeparatedLowered(s: string, seps: seq<string>)
    requires Lower(s) == s && NonEmptyPatterns(seps) && CaselessPatterns(seps)
    ensures Separated(s, seps) == StripAll(s, seps)
    decreases |seps|
  {
    if seps != [] {
      var p := seps[0];
      assert forall j :: 0 <= j < |p| ==> Caseless(p[j]) by {
        forall j | 0 <= j < |p| ensures Caseless(p[j]) {
          assert Caseless(seps[0][j]);
        }
      }
      LowerReplace(s, p);
      var t := Replace(s, p, " ");
      LowerIdempotent(t);
      assert NonEmptyPatterns(seps[1..]) && CaselessPatterns(seps[1..]) by {
        forall i, j | 0 <= i < |seps[1..]| && 0 <= j < |seps[1..][i]|
          ensures Caseless(seps[1..][i][j])
        {
          assert seps[1..][i] == seps[i + 1];
        }
      }
      SeparatedLowered(t, seps[1..]);
    }
  }

  /** Lower-casing after every replacement is lower-casing once at the
      start, for any non-empty list of caseless separators. */
  lemma SeparatedLowersFirst(s: string, seps: seq<string>)
    requires seps != [] && NonEmptyPatterns(seps) && CaselessPatterns(seps)
    ensures Separated(s, seps) == StripAll(Lower(s), seps)
    ensures Lower(Separated(s, seps)) == Separated(s, seps)
  {
    var p, rest := seps[0], seps[1..];
    assert forall j :: 0 <= j < |p| ==> Caseless(p[j]) by {
      forall j | 0 <= j < |p| ensures Caseless(p[j]) {
        assert Caseless(seps[0][j]);
      }
    }
    assert NonEmptyPatterns(rest) && CaselessPatterns(rest) by {
      forall i, j | 0 <= i < |rest| && 0 <= j < |rest[i]| ensures Caseless(rest[i][j]) {
        assert rest[i] == seps[i + 1];
      }
    }
    LowerReplace(s, p);
    var t := Replace(Lower(s), p, " ");
    LowerIdempotent(Replace(s, p, " "));
    SeparatedLowered(t, rest);
    StripAllLowered(t, rest);
  }

  /** So `customSeparators` is the markov tokenizer's mark removal. */
  lemma SeparatedIsStripAll(s: string)
    ensures Separated(s, Separators) == StripAll(Lower(s), Separators)
  {
    SeparatorsCaseless();
    SeparatedLowersFirst(s, Separators);
  }

  /** The output is lower-case and holds none of the one-character
      separators. */
  lemma SeparatedClean(s: string)
    ensures Lower(Separated(s, Separators)) == Separated(s, Separators)
    ensures forall i :: 0 <= i < |Separators| && IsMark(Separators[i]) ==>
      Separators[i][0] !in Separated(s, Separators)
  {
    SeparatorsCaseless();
    SeparatedLowersFirst(s, Separators);
    StripAllRemovesMarks(Lower(s), Separators);
  }

  /** Replacing by spaces keeps a lower-case text lower-case. */
  lemma {:induction false} StripAllLowered(s: string, seps: seq<string>)
    requires Lower(s) == s && NonEmptyPatterns(seps) && CaselessPatterns(seps)
    ensures Lower(StripAll(s, seps)) == StripAll(s, seps)
    decreases |seps|
  {
    if seps != [] {
      var p := seps[0];
      assert forall j :: 0 <= j < |p| ==> Caseless(p[j]) by {
        forall j | 0 <= j < |p| ensures Caseless(p[j]) {
          assert Caseless(seps[0][j]);
        }
      }
      LowerReplace(s, p);
      assert NonEmptyPatterns(seps[1..]) && CaselessPatterns(seps[1..]) by {
        forall i, j | 0 <= i < |seps[1..]| && 0 <= j < |seps[1..][i]|
          ensures Caseless(seps[1..][i][j])
        {
          assert seps[1..][i] == seps[i + 1];
        }
      }
      StripAllLowered(Replace(s, p, " "), seps[1..]);
    }
  }

  /** A second pass splits into the same words as the first. */
  lemma SeparatedSplitIdempotent(s: string)
    ensures Split(Separated(Separated(s, Separators), Separators)) == Split(Separated(s, Separators))
  {
    var r := Separated(s, Separators);
    SeparatorsCaseless();
    SeparatedClean(s);
    SeparatedIsStripAll(r);
    StripAllKeepsSplit(r, Separators);
  }

  /** The counts `customSplit` returns: order-1 counts of `split()`. */
  function WordCounts(text: string): Counts {
    NgramCounts(Split(text), 1).0
  }

  method CustomSplit(inputText: string) returns (wordDict: Counts)
    ensures wordDict == WordCounts(inputText)
  {
    var wordlist := Split(inputText);
    var counts, _ := CountWords(wordlist);
    wordDict := DropShortKeys(counts);
  }

  /** Every key is a `split()` token of more than two characters, every
      such token is a key, each value is its number of occurrences, and the
      values sum to at most the number of tokens. */
  lemma WordCountsSpec(text: string)
    ensures WellFormed(WordCounts(text))
    ensures forall k :: k in WordCounts(text).vals <==> k in Split(text) && |k| > 2
    ensures forall k :: k in WordCounts(text).vals ==> IsToken(k)
    ensures forall k :: k in WordCounts(text).vals ==>
      WordCounts(text).vals[k] == multiset(Split(text))[k] >= 1
    ensures CountSum(WordCounts(text)) <= |Split(text)|
  {
    var ws := Split(text);
    UnigramCounts(ws);
    CountedAll(ws);
    forall k | k in WordCounts(text).vals ensures IsToken(k) {
      var i :| 0 <= i < |ws| && ws[i] == k;
    }
  }

  /** `customSplit(customSeparators(t))` is the unigram map `analyze`
      builds for the work t when punctuation is dropped. */
  lemma ExtractMatchesAnalyze(t: string)
    ensures WordCounts(Separated(t, Separators)) == NgramCounts(Tokens(t, false, Ponc), 1).0
  {
    SeparatedIsStripAll(t);
  }
}
