/** The tokenizer of the markov class: lower-case the text, optionally replace
    every punctuation mark of `PONC` by a space, and split on whitespace. */
module Text {

  /** The capitals `str.lower()` maps in the model: A-Z and U+00C0..U+00DE
      except U+00D7, the multiplication sign. */
  predicate Capital(c: char) {
    'A' <= c <= 'Z' || (0xC0 <= c as int <= 0xDE && c as int != 0xD7)
  }

  /** `str.lower()` restricted to ASCII and the Latin-1 block: each capital
      moves up by 32 to its small letter; every other character is left as
      it is. */
  function LowerChar(c: char): char {
    if Capital(c) then (c as int + 32) as char else c
  }

  /** `s.lower()`, one character at a time. */
  function Lower(s: string): string {
    seq(|s|, i requires 0 <= i < |s| => LowerChar(s[i]))
  }

  /** `s.lower()` keeps the length, leaves no capital, leaves every
      character that is not a capital unchanged, and moves each capital 32
      code points up to its small letter. */
  lemma LowerSpec(s: string)
    ensures |Lower(s)| == |s|
    ensures forall i :: 0 <= i < |s| ==> !Capital(Lower(s)[i])
    ensures forall i :: 0 <= i < |s| && !Capital(s[i]) ==> Lower(s)[i] == s[i]
    ensures forall i :: 0 <= i < |s| && Capital(s[i]) ==> Lower(s)[i] as int == s[i] as int + 32
  {
  }

  lemma LowerIdempotent(s: string)
    ensures Lower(Lower(s)) == Lower(s)
  {
  }

  lemma LowerConcat(a: string, b: string)
    ensures Lower(a + b) == Lower(a) + Lower(b)
  {
  }

  /** The characters `str.isspace()` accepts, which `str.split()` splits on. */
  predicate IsSpace(c: char) {
    var n := c as int;
    || 9 <= n <= 13 || 28 <= n <= 32 || n == 0x85 || n == 0xA0 || n == 0x1680
    || 0x2000 <= n <= 0x200A || n == 0x2028 || n == 0x2029 || n == 0x202F
    || n == 0x205F || n == 0x3000
  }

  predicate AllSpace(s: string) {
    forall i :: 0 <= i < |s| ==> IsSpace(s[i])
  }

  /** A token produced by `str.split()`: non-empty and free of whitespace. */
  predicate IsToken(w: string) {
    w != [] && forall i :: 0 <= i < |w| ==> !IsSpace(w[i])
  }

  /** `s.replace(pat, rep)`: scan left to right, replacing each
      non-overlapping occurrence of pat; an empty pattern matches before
      every character and at the end. */
  function Replace(s: string, pat: string, rep: string): string
    decreases |s|
  {
    if pat == [] then (if s == [] then rep else rep + [s[0]] + Replace(s[1..], pat, rep))
    else if s == [] then []
    else if |pat| <= |s| && s[..|pat|] == pat then rep + Replace(s[|pat|..], pat, rep)
    else [s[0]] + Replace(s[1..], pat, rep)
  }

  /** Every character of the result comes from s or from rep. */
  lemma {:induction false} ReplaceChars(s: string, pat: string, rep: string, c: char)
    requires pat != []
    requires c in Replace(s, pat, rep)
    ensures c in s || c in rep
    decreases |s|
  {
    if |pat| <= |s| && s[..|pat|] == pat {
      if c !in rep {
        ReplaceChars(s[|pat|..], pat, rep, c);
        assert c in s[|pat|..];
      }
    } else if c != s[0] {
      ReplaceChars(s[1..], pat, rep, c);
    }
  }

  /** Replacing a one-character pattern leaves none of it behind. */
  lemma {:induction false} ReplaceRemoves(s: string, c: char, rep: string)
    requires c !in rep
    ensures c !in Replace(s, [c], rep)
    decreases |s|
  {
    if s != [] {
      ReplaceRemoves(s[1..], c, rep);
    }
  }

  /** A pattern whose first character does not occur changes nothing. */
  lemma {:induction false} ReplaceAbsent(s: string, pat: string, rep: string)
    requires pat != [] && pat[0] !in s
    ensures Replace(s, pat, rep) == s
    decreases |s|
  {
    if s != [] {
      assert !(|pat| <= |s| && s[..|pat|] == pat) by {
        if |pat| <= |s| {
          assert s[..|pat|][0] == s[0];
        }
      }
      ReplaceAbsent(s[1..], pat, rep);
      assert s == [s[0]] + s[1..];
    }
  }

  /** `markov.PONC`. */
  const Ponc: seq<string> :=
    [",", ".", "«", "»", "'", "!", "?", "  ", "\n", "-", ";", ":", "(", ")", "[", "]"]

  lemma PoncShape()
    ensures NonEmptyPatterns(Ponc) && MarksOrSpaces(Ponc)
  {
  }

  predicate NonEmptyPatterns(seps: seq<string>) {
    forall i :: 0 <= i < |seps| ==> seps[i] != []
  }

  /** A one-character mark that is not whitespace. */
  predicate IsMark(p: string) {
    |p| == 1 && !IsSpace(p[0])
  }

  /** `for separator in seps: text = text.replace(separator, ' ')` */
  function StripAll(s: string, seps: seq<string>): string
    decreases |seps|
  {
    if seps == [] then s else StripAll(Replace(s, seps[0], " "), seps[1..])
  }

  /** Stripping never introduces a non-space character. */
  lemma {:induction false} StripAllKeepsAbsent(s: string, seps: seq<string>, c: char)
    requires NonEmptyPatterns(seps) && c != ' ' && c !in s
    ensures c !in StripAll(s, seps)
    decreases |seps|
  {
    if seps != [] {
      if c in Replace(s, seps[0], " ") {
        ReplaceChars(s, seps[0], " ", c);
      }
      StripAllKeepsAbsent(Replace(s, seps[0], " "), seps[1..], c);
    }
  }

  /** After stripping, no one-character mark of the list is left. */
  lemma {:induction false} StripAllRemovesMarks(s: string, seps: seq<string>)
    requires NonEmptyPatterns(seps)
    ensures forall i :: 0 <= i < |seps| && IsMark(seps[i]) ==> seps[i][0] !in StripAll(s, seps)
    decreases |seps|
  {
    if seps != [] {
      var r := Replace(s, seps[0], " ");
      StripAllRemovesMarks(r, seps[1..]);
      forall i | 0 <= i < |seps| && IsMark(seps[i])
        ensures seps[i][0] !in StripAll(s, seps)
      {
        if i == 0 {
          assert seps[0] == [seps[0][0]];
          ReplaceRemoves(s, seps[0][0], " ");
          StripAllKeepsAbsent(r, seps[1..], seps[0][0]);
        } else {
          assert seps[1..][i - 1] == seps[i];
        }
      }
    }
  }

  /** The loop of `find_author` and `analyze` that replaces every
      separator of seps (`self.PONC`) by a space. */
  method StripSeparators(text: string, seps: seq<string>) returns (r: string)
    ensures r == StripAll(text, seps)
  {
    r := text;
    var i := 0;
    while i < |seps|
      invariant 0 <= i <= |seps|
      invariant StripAll(r, seps[i..]) == StripAll(text, seps)
    {
      assert seps[i..][1..] == seps[i + 1..];
      r := Replace(r, seps[i], " ");
      i := i + 1;
    }
  }

  /** Length of the run of non-space characters at the front of s. */
  function WordLength(s: string): (n: nat)
    ensures n <= |s|
    ensures forall i :: 0 <= i < n ==> !IsSpace(s[i])
    ensures n < |s| ==> IsSpace(s[n])
  {
    if s == [] || IsSpace(s[0]) then 0 else 1 + WordLength(s[1..])
  }

  /** `s.split()` with no argument. */
  function Split(s: string): (ws: seq<string>)
    ensures forall i :: 0 <= i < |ws| ==> IsToken(ws[i])
    decreases |s|
  {
    if s == [] then []
    else if IsSpace(s[0]) then Split(s[1..])
    else
      var n := WordLength(s);
      [s[..n]] + Split(s[n..])
  }

  predicate StartsWord(s: string) {
    s != [] && !IsSpace(s[0])
  }

  /** Every character of every token comes from the split string. */
  lemma {:induction false} SplitChars(s: string)
    ensures forall i, j :: 0 <= i < |Split(s)| && 0 <= j < |Split(s)[i]| ==> Split(s)[i][j] in s
    decreases |s|
  {
    if s != [] {
      if IsSpace(s[0]) {
        SplitChars(s[1..]);
      } else {
        var n := WordLength(s);
        SplitChars(s[n..]);
        forall i, j | 0 <= i < |Split(s)| && 0 <= j < |Split(s)[i]|
          ensures Split(s)[i][j] in s
        {
          if i == 0 {
            assert Split(s)[0] == s[..n];
          } else {
            assert Split(s)[i] == Split(s[n..])[i - 1];
            assert Split(s[n..])[i - 1][j] in s[n..];
          }
        }
      }
    }
  }

  /** Splitting a string that starts with a non-space character c glues c
      onto the first word of the rest, if the rest starts with one. */
  lemma SplitCons(c: char, x: string)
    requires !IsSpace(c)
    ensures StartsWord(x) ==> Split(x) != [] && Split([c] + x) == [[c] + Split(x)[0]] + Split(x)[1..]
    ensures !StartsWord(x) ==> Split([c] + x) == [[c]] + Split(x)
  {
    var s := [c] + x;
    assert s[1..] == x;
    if StartsWord(x) {
      var n := WordLength(x);
      assert WordLength(s) == 1 + n;
      assert s[..1 + n] == [c] + x[..n];
      assert s[1 + n..] == x[n..];
    } else {
      assert WordLength(s) == 1;
      assert s[..1] == [c];
    }
  }

  /** Leading whitespace does not change the split. */
  lemma {:induction false} SplitDropSpaces(s: string, k: nat)
    requires k <= |s| && AllSpace(s[..k])
    ensures Split(s) == Split(s[k..])
    decreases k
  {
    if k > 0 {
      assert s[..k][0] == s[0];
      assert s[1..][..k - 1] == s[..k][1..];
      SplitDropSpaces(s[1..], k - 1);
      assert s[1..][k - 1..] == s[k..];
    }
  }

  /** Splitting at one space separates the two halves. */
  lemma {:induction false} SplitConcat(a: string, b: string)
    ensures Split(a + " " + b) == Split(a) + Split(b)
    decreases |a|
  {
    if a == [] {
      assert a + " " + b == " " + b;
      assert (" " + b)[1..] == b;
    } else {
      var x := a[1..] + " " + b;
      assert a + " " + b == [a[0]] + x;
      assert a == [a[0]] + a[1..];
      SplitConcat(a[1..], b);
      SplitConsBoth(a[0], a[1..], x, Split(b));
    }
  }

  /** If x splits like y followed by more words, so does [c] + x like
      [c] + y, provided x and y start a word alike. */
  lemma SplitConsBoth(c: char, y: string, x: string, more: seq<string>)
    requires Split(x) == Split(y) + more && StartsWord(x) == StartsWord(y)
    ensures Split([c] + x) == Split([c] + y) + more
  {
    if IsSpace(c) {
      SpaceConsBoth(c, y, x, more);
    } else if StartsWord(y) {
      WordConsBoth(c, y, x, more);
    } else {
      WordConsOpen(c, y, x, more);
    }
  }

  lemma WordConsOpen(c: char, y: string, x: string, more: seq<string>)
    requires !IsSpace(c) && !StartsWord(x) && !StartsWord(y) && Split(x) == Split(y) + more
    ensures Split([c] + x) == Split([c] + y) + more
  {
    SplitCons(c, x);
    SplitCons(c, y);
    ConsAssoc([c], Split(x), Split(y), more);
  }

  lemma ConsAssoc<T>(w: T, sx: seq<T>, sy: seq<T>, more: seq<T>)
    requires sx == sy + more
    ensures [w] + sx == ([w] + sy) + more
  {
  }

  lemma SpaceConsBoth(c: char, y: string, x: string, more: seq<string>)
    requires IsSpace(c) && Split(x) == Split(y) + more
    ensures Split([c] + x) == Split([c] + y) + more
  {
    assert ([c] + x)[1..] == x;
    assert ([c] + y)[1..] == y;
  }

  lemma WordConsBoth(c: char, y: string, x: string, more: seq<string>)
    requires !IsSpace(c) && StartsWord(x) && StartsWord(y) && Split(x) == Split(y) + more
    ensures Split([c] + x) == Split([c] + y) + more
  {
    SplitCons(c, x);
    SplitCons(c, y);
    GlueFirst(c, Split(x), Split(y), more);
  }

  lemma GlueFirst(c: char, sx: seq<string>, sy: seq<string>, more: seq<string>)
    requires sy != [] && sx == sy + more
    ensures [[c] + sx[0]] + sx[1..] == ([[c] + sy[0]] + sy[1..]) + more
  {
    assert sx[1..] == sy[1..] + more;
  }


  lemma SplitToken(w: string)
    requires IsToken(w)
    ensures Split(w) == [w]
  {
    assert WordLength(w) == |w| by {
      TokenWordLength(w);
    }
    assert w[..|w|] == w;
  }

  lemma {:induction false} TokenWordLength(w: string)
    requires forall i :: 0 <= i < |w| ==> !IsSpace(w[i])
    ensures WordLength(w) == |w|
    decreases |w|
  {
    if w != [] {
      TokenWordLength(w[1..]);
    }
  }

  /** `' '.join(ws)` */
  function Join(ws: seq<string>): string {
    if ws == [] then [] else if |ws| == 1 then ws[0] else ws[0] + " " + Join(ws[1..])
  }

  /** Splitting undoes joining a list of tokens. */
  lemma {:induction false} SplitJoin(ws: seq<string>)
    requires forall i :: 0 <= i < |ws| ==> IsToken(ws[i])
    ensures Split(Join(ws)) == ws
    decreases |ws|
  {
    if |ws| == 1 {
      SplitToken(ws[0]);
    } else if |ws| > 1 {
      SplitConcat(ws[0], Join(ws[1..]));
      SplitToken(ws[0]);
      SplitJoin(ws[1..]);
    }
  }

  /** Two strings that split alike and agree on whether they start a word. */
  ghost predicate SameSplit(x: string, y: string) {
    Split(x) == Split(y) && StartsWord(x) == StartsWord(y)
  }

  lemma ConsKeepsSameSplit(c: char, x: string, y: string)
    requires SameSplit(x, y)
    ensures SameSplit([c] + x, [c] + y)
  {
    assert ([c] + x)[1..] == x;
    assert ([c] + y)[1..] == y;
    if !IsSpace(c) {
      SplitCons(c, x);
      SplitCons(c, y);
    }
  }

  /** Replacing a whitespace pattern by one space does not change the split. */
  lemma {:induction false} ReplaceSpacesKeepsSplit(s: string, pat: string)
    requires pat != [] && AllSpace(pat)
    ensures SameSplit(Replace(s, pat, " "), s)
    decreases |s|
  {
    if s != [] {
      if |pat| <= |s| && s[..|pat|] == pat {
        var rest := Replace(s[|pat|..], pat, " ");
        ReplaceSpacesKeepsSplit(s[|pat|..], pat);
        SplitDropSpaces(s, |pat|);
        assert (" " + rest)[1..] == rest;
        assert IsSpace(s[0]) by {
          assert s[..|pat|][0] == s[0];
        }
      } else {
        ReplaceSpacesKeepsSplit(s[1..], pat);
        ConsKeepsSameSplit(s[0], Replace(s[1..], pat, " "), s[1..]);
        assert s == [s[0]] + s[1..];
      }
    }
  }

  /** A list of patterns each of which is a one-character mark or whitespace. */
  predicate MarksOrSpaces(seps: seq<string>) {
    forall i :: 0 <= i < |seps| ==> seps[i] != [] && (IsMark(seps[i]) || AllSpace(seps[i]))
  }

  /** Stripping a string that holds none of the marks changes only its
      whitespace, so the split stays the same. */
  lemma {:induction false} StripAllKeepsSplit(s: string, seps: seq<string>)
    requires MarksOrSpaces(seps)
    requires forall i :: 0 <= i < |seps| && IsMark(seps[i]) ==> seps[i][0] !in s
    ensures SameSplit(StripAll(s, seps), s)
    decreases |seps|
  {
    if seps != [] {
      var r := Replace(s, seps[0], " ");
      if IsMark(seps[0]) {
        ReplaceAbsent(s, seps[0], " ");
      } else {
        ReplaceSpacesKeepsSplit(s, seps[0]);
      }
      forall i | 0 <= i < |seps[1..]| && IsMark(seps[1..][i])
        ensures seps[1..][i][0] !in r
      {
        var c := seps[1..][i][0];
        assert seps[i + 1] == seps[1..][i];
        if c in r {
          ReplaceChars(s, seps[0], " ", c);
        }
      }
      StripAllKeepsSplit(r, seps[1..]);
    }
  }

  /** The word list of one work: lower-case, replace the separators ponc
      by spaces unless they are kept, split. */
  function Tokens(text: string, keepPonc: bool, ponc: seq<string>): seq<string> {
    if keepPonc then Split(Lower(text)) else Split(StripAll(Lower(text), ponc))
  }

  /** Every token is a non-empty whitespace-free word; with the separators
      stripped, none of the one-character marks among them occurs in any
      token. */
  lemma TokensClean(text: string, keepPonc: bool, ponc: seq<string>)
    requires NonEmptyPatterns(ponc)
    ensures forall i :: 0 <= i < |Tokens(text, keepPonc, ponc)| ==> IsToken(Tokens(text, keepPonc, ponc)[i])
    ensures !keepPonc ==>
      forall i, j, m ::
        && 0 <= i < |Tokens(text, keepPonc, ponc)| && 0 <= j < |Tokens(text, keepPonc, ponc)[i]|
        && 0 <= m < |ponc| && IsMark(ponc[m])
        ==> Tokens(text, keepPonc, ponc)[i][j] != ponc[m][0]
  {
    if !keepPonc {
      var s := StripAll(Lower(text), ponc);
      StripAllRemovesMarks(Lower(text), ponc);
      SplitChars(s);
    }
  }

  /** The tokenising steps shared by `find_author` and `analyze`. */
  method Tokenize(text: string, keepPonc: bool, ponc: seq<string>) returns (words: seq<string>)
    ensures words == Tokens(text, keepPonc, ponc)
    ensures forall i :: 0 <= i < |words| ==> IsToken(words[i])
  {
    var t := Lower(text);
    if !keepPonc {
      t := StripSeparators(t, ponc);
    }
    words := Split(t);
  }
}
