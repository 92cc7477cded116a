# Markov n-gram author model

A Dafny model of the n-gram statistics engine of the `markov` class in
`src/markov_CIP1_CIP2.py`, together with the two preprocessing helpers
`customSeparators` and `customSplit` of `src/extract.py`.

The engine works in five stages:

- **Tokenising.** A text is lower-cased. When `keep_ponc` is false, each of
  the sixteen `PONC` strings is replaced by a space. The result is split
  on whitespace.
- **Counting.** Unigrams are counted, then words of at most two
  characters are popped. Bigrams are adjacent tokens joined by one space.
- **Normalising.** `analyze` builds, per author, the counts (`DATA`), the
  gram total (`wordCountAuthor`), the frequencies (`identity`) and those
  frequencies sorted by decreasing value (`orderedIdentity`).
- **Scoring.** `find_author` scores an unknown text against every author
  with the cosine of the two frequency vectors.
- **Querying.** `gen_text` writes `int(taille / ngram)` drawn n-grams, and
  `get_nth_element` groups an author's n-grams by frequency and returns the
  n-th group.

How the model is laid out:

- `dicts.dfy`, module `Dicts`: Python's insertion-ordered `dict`, as a key
  order plus a map.
- `text.dfy`, module `Text`: `str.lower`, `str.replace`, `str.split` and
  the tokeniser.
- `ngrams.dfy`, module `Ngrams`: the counting loops.
- `sorting.dfy`, module `Sorting`: the stable descending sort.
- `freqs.dfy`, module `Frequencies`: the division by totals.
- `cosine.dfy`, module `Cosine`: the proximity.
- `markov.dfy`, module `Markov`: the stages of `analyze`, `find_author`,
  `gen_text` and `get_nth_element`, and the class `Markov.Markov`. The
  class fields are `DATA`, `identity`, `orderedIdentity`, `numberKey`,
  `wordCountAuthor`, `keep_ponc`, `ngram` and `auteurs`.
- `extract.dfy`, module `Extract`: `customSeparators` and `customSplit`.

Each loop of the source is a Dafny `method` with a `while` loop. Its
postcondition ties the result to a specification function, and lemmas
state what the source promises about that function.

Two passages of the source's own comments and one of its docstrings
promise more than the code does. The model follows the code, and the
Findings section models both readings:

- `analyze` keeps only the last work of each author in `DATA`. The comment
  at `src/markov_CIP1_CIP2.py:296-300` asks for the frequencies of all of
  an author's works taken together.
- `numberKey` is created once in `__init__` and kept across calls of
  `get_nth_element`. The docstring at `src/markov_CIP1_CIP2.py:257` asks
  for the n-th most frequent n-gram of the given author alone.

Two further facts about the code, which the model keeps as they are:

- A zero norm in `find_author` raises `ZeroDivisionError`, which ends the
  whole call, not only that author's score.
- An `ngram` other than 1 or 2 counts nothing and raises nothing.

## Model

| member | source | states |
|---|---|---|
| Text.LowerSpec | src/markov_CIP1_CIP2.py:184 | `str.lower()` keeps the length and leaves no capital; characters that are not capitals are unchanged, and each capital becomes its small letter 32 code points up |
| Text.LowerIdempotent | src/markov_CIP1_CIP2.py:184 | lower-casing twice is lower-casing once |
| Text.ReplaceRemoves | src/markov_CIP1_CIP2.py:189-190 | replacing a one-character pattern by text without it leaves no occurrence of that character |
| Text.ReplaceChars | src/markov_CIP1_CIP2.py:189-190 | every character of `s.replace(p, r)` comes from s or from r |
| Text.PoncShape | src/markov_CIP1_CIP2.py:48 | every `PONC` entry is non-empty and is either a one-character mark or all whitespace |
| Text.StripAllRemovesMarks | src/markov_CIP1_CIP2.py:188-190 | after the replacement loop, none of the one-character separators occurs |
| Text.StripSeparators | src/markov_CIP1_CIP2.py:189-190 | the loop over the separators equals `StripAll`, the replacement applied once per separator in order |
| Text.Split | src/markov_CIP1_CIP2.py:193 | every token of `split()` is non-empty and holds no whitespace |
| Text.SplitChars | src/markov_CIP1_CIP2.py:193 | every character of every token comes from the split string |
| Text.SplitConcat | src/markov_CIP1_CIP2.py:193 | splitting `a + " " + b` gives the tokens of a followed by those of b |
| Text.SplitJoin | src/markov_CIP1_CIP2.py:193 | splitting the space-joined tokens gives the tokens back |
| Text.SplitToken | src/markov_CIP1_CIP2.py:272 | a token splits into itself alone |
| Text.ReplaceSpacesKeepsSplit | src/markov_CIP1_CIP2.py:190 | replacing an all-whitespace separator by a space leaves the split unchanged |
| Text.StripAllKeepsSplit | src/markov_CIP1_CIP2.py:189-193 | stripping a text that holds none of the marks leaves its split unchanged |
| Text.TokensClean | src/markov_CIP1_CIP2.py:184-193 | tokens are non-empty and whitespace-free; with `keep_ponc` false, none holds a one-character `PONC` mark |
| Text.Tokenize | src/markov_CIP1_CIP2.py:184-193 | the tokeniser returns `Tokens`: lower, strip unless `keep_ponc`, then split; every token is non-empty and whitespace-free |
| Dicts.Store | src/markov_CIP1_CIP2.py:200-204 | `d[k] = v` maps k to v, leaves every other value unchanged and keeps the dict well formed |
| Dicts.Pop | src/markov_CIP1_CIP2.py:217 | `d.pop(k)` removes exactly k and leaves every other value unchanged |
| Dicts.StoreOrder | src/markov_CIP1_CIP2.py:200-204 | `d[k] = v` puts a new key at the end and leaves a present key in its place |
| Dicts.PopOrder | src/markov_CIP1_CIP2.py:217 | `d.pop(k)` removes k from its position and keeps the other keys in their order |
| Dicts.DedupFirstSeen | src/markov_CIP1_CIP2.py:200-201 | dict keys appear once each, in order of first insertion |
| Ngrams.TallyCounts | src/markov_CIP1_CIP2.py:208-212 | the counting loop's keys are the distinct grams in first-seen order, and each value is the gram's number of occurrences |
| Ngrams.CountBigrams | src/markov_CIP1_CIP2.py:196-205 | the bigram loop yields `Tally(Bigrams(words))` and counts one gram per adjacent pair |
| Ngrams.CountWords | src/markov_CIP1_CIP2.py:207-213 | the unigram loop yields `Tally(words)` and counts one gram per word |
| Ngrams.DropShortKeys | src/markov_CIP1_CIP2.py:214-217 | popping keys of length at most 2 while walking a snapshot of the keys yields `DropShort` |
| Ngrams.PopLoopStep | src/markov_CIP1_CIP2.py:215-217 | each step of the pop loop keeps the loop invariant; the key visited is still present |
| Ngrams.FilterLong | src/markov_CIP1_CIP2.py:216 | the surviving keys are exactly the listed keys longer than two characters |
| Ngrams.CountNgrams | src/markov_CIP1_CIP2.py:195-217 | the counting on one token list yields `NgramCounts(words, ngram)`: bigrams for 2, filtered unigrams for 1 |
| Ngrams.NgramCounts | src/markov_CIP1_CIP2.py:195-217 | the counts are well formed and each at least 1; a non-empty map comes with a positive gram count |
| Ngrams.UnigramCounts | src/markov_CIP1_CIP2.py:207-217 | unigram keys are exactly the tokens longer than 2, each with its occurrence count; the gram count is the number of tokens, dropped words included; the kept counts sum to that count iff no word was dropped |
| Ngrams.BigramCounts | src/markov_CIP1_CIP2.py:196-205 | every key is some `ws[i-1] + " " + ws[i]` and every such pair is a key; each count is the pair's number of occurrences; the gram count is `max(0, len - 1)`, which the counts sum to |
| Ngrams.BigramKeys | src/markov_CIP1_CIP2.py:198-201 | a string is a bigram key exactly when it is the join of two adjacent tokens |
| Ngrams.OtherOrdersCountNothing | src/markov_CIP1_CIP2.py:196-217 | for an order other than 1 or 2, both branches are skipped: no key and no gram |
| Ngrams.KeysSplitIntoOrder | src/markov_CIP1_CIP2.py:196-217 | every key built from tokens splits back into exactly `ngram` words |
| Ngrams.TallyTotal | src/markov_CIP1_CIP2.py:208-212 | the counts sum to the number of grams tallied, and the long-word counts to the long grams |
| Ngrams.CountedLong | src/markov_CIP1_CIP2.py:214-217 | long grams are all grams exactly when every token is longer than two characters |
| Sorting.SortDescSpec | src/markov_CIP1_CIP2.py:359-360 | `sorted(..., reverse=True)` keeps every pair, reorders the keys as a permutation, makes the values non-increasing, and keeps tied keys in their original order |
| Sorting.SortPermutes | src/markov_CIP1_CIP2.py:359-360 | the sorted key order is a permutation of the keys and is descending by value |
| Sorting.SortStable | src/markov_CIP1_CIP2.py:359-360 | the keys sharing a value keep their relative order |
| Sorting.SortDistinct | src/markov_CIP1_CIP2.py:359-360 | sorting distinct keys gives distinct keys |
| Sorting.SortSameOrder | src/markov_CIP1_CIP2.py:222 | two value maps that order the keys alike sort them alike |
| Frequencies.Divide | src/markov_CIP1_CIP2.py:220-221 | dividing by a total keeps the keys and their order |
| Frequencies.Identity | src/markov_CIP1_CIP2.py:352-356 | `identity[a]` has exactly the keys of `DATA[a]`, in the same order |
| Frequencies.IdentityIsDistribution | src/markov_CIP1_CIP2.py:351-356 | every frequency lies in (0, 1]; the frequencies sum to 1 unless `DATA[a]` is empty, which gives an empty vector without any division |
| Frequencies.DivideTotal | src/markov_CIP1_CIP2.py:353-356 | the divided values sum to the total of the counts divided by the divisor |
| Frequencies.DivideRescales | src/markov_CIP1_CIP2.py:221 | dividing by one total is dividing by another and scaling by their ratio |
| Frequencies.SortDescScale | src/markov_CIP1_CIP2.py:222 | sorting commutes with scaling by a positive factor |
| Cosine.CauchySchwarz | src/markov_CIP1_CIP2.py:226-231 | the dot product over shared keys squared is at most the product of the squared full norms |
| Cosine.ProximityInUnitInterval | src/markov_CIP1_CIP2.py:226-231 | for non-negative weights, whatever number the division yields lies in [0, 1] |
| Cosine.ScoreBounds | src/markov_CIP1_CIP2.py:230-231 | a score over a Cauchy-Schwarz-bounded proximity lies in [-1, 1], and is non-negative when the dot product is |
| Cosine.SelfProximity | src/markov_CIP1_CIP2.py:226-231 | a vector scored against itself scores 1 |
| Cosine.DisjointProximity | src/markov_CIP1_CIP2.py:227-229 | vectors with no key in common score 0 |
| Cosine.SharedProximity | src/markov_CIP1_CIP2.py:227-229 | positive vectors with a key in common score above 0 |
| Cosine.NormSqZero | src/markov_CIP1_CIP2.py:230-231 | a positive vector's squared norm is 0 exactly when the vector is empty, which is when the division fails |
| Cosine.ScaleInvariant | src/markov_CIP1_CIP2.py:226-231 | scaling the unknown vector by c > 0 leaves the score unchanged |
| Markov.WorkCounts | src/markov_CIP1_CIP2.py:311-346 | a work's `oeuvreData` is well formed, with every count at least 1 |
| Markov.CountWork | src/markov_CIP1_CIP2.py:310-346 | counting one work yields its counts and its number of grams |
| Markov.CountWorks | src/markov_CIP1_CIP2.py:309-347 | the work loop leaves the last work's counts and the grams of all works |
| Markov.GatherAll | src/markov_CIP1_CIP2.py:307-347 | the author loop yields `Gathered` for `DATA` and `Tallied` for `wordCountAuthor` |
| Markov.GatheredLastWork | src/markov_CIP1_CIP2.py:307-347 | an author is in `DATA` iff it was there before or is listed with a work; its entry is the counts of its last listed work |
| Markov.GatheredDomain | src/markov_CIP1_CIP2.py:307-347 | an author is in `DATA` after the loop iff it was there before or is listed with at least one work |
| Markov.GatheredValue | src/markov_CIP1_CIP2.py:307-347 | for such an author, `DATA[a]` is the counts of its last listed work, or its earlier entry when it is not listed with a work |
| Markov.TalliedAllWorks | src/markov_CIP1_CIP2.py:307-342 | every listed author's `wordCountAuthor` is the gram total over all its works, and it is reset to 0 for an author without works |
| Markov.GatheredPositive | src/markov_CIP1_CIP2.py:347 | every count map stored in `DATA` is well formed with counts of at least 1, and no author is removed |
| Markov.LastWorkKept | src/markov_CIP1_CIP2.py:347 | with two works, `DATA[a]` is the counts of the second alone |
| Markov.AllWorksTallied | src/markov_CIP1_CIP2.py:332-342 | with two works, `wordCountAuthor[a]` adds the grams of both |
| Markov.EarlierWorksLost | src/markov_CIP1_CIP2.py:296-347 | a gram only in the first of two works is missing from `DATA[a]`, though the aggregate the comment describes counts it at least once |
| Markov.AddOntoCount | src/markov_CIP1_CIP2.py:296-300 | adding a count map onto an accumulator adds each key's count |
| Markov.PooledCounts | src/markov_CIP1_CIP2.py:296-300 | the pooled counts of an author give every gram its total over all the author's works |
| Markov.PooledSingleWork | src/markov_CIP1_CIP2.py:307-347 | when no author has more than one work, pooling and the code agree |
| Markov.NormaliseOne | src/markov_CIP1_CIP2.py:352-360 | one author's normalisation yields `Identity` of the counts and that vector sorted |
| Markov.NormaliseAll | src/markov_CIP1_CIP2.py:351-360 | `identity` and `orderedIdentity` have exactly the authors of `DATA`, with their frequencies and the sorted frequencies |
| Markov.DivideAll | src/markov_CIP1_CIP2.py:220-221 | the normalisation loop of `find_author` yields `Divide` by the gram count |
| Markov.UnknownPositive | src/markov_CIP1_CIP2.py:183-222 | every frequency of the unknown work is positive |
| Markov.DivisorDoesNotMatter | src/markov_CIP1_CIP2.py:213-221 | dividing the unknown work by the gram count that includes the dropped words, or by any other positive number, does not change its score |
| Markov.DotProduct | src/markov_CIP1_CIP2.py:226-229 | the `total` loop computes the dot product over the keys both vectors hold |
| Markov.SquareSum | src/markov_CIP1_CIP2.py:230-231 | the sum of squared values is the squared norm |
| Markov.AttributionOk | src/markov_CIP1_CIP2.py:225-234 | the result is a list iff every author is scorable; it then has one `(author, proximity)` pair per listed author, in order |
| Markov.AttributionErr | src/markov_CIP1_CIP2.py:228-231 | a failure comes from the first unscorable author: `KeyError` when it was never analysed, `ZeroDivisionError` when a norm is 0 |
| Markov.AttributionInUnitInterval | src/markov_CIP1_CIP2.py:157-234 | every score returned lies in [0, 1] |
| Markov.ScorableIffNonEmpty | src/markov_CIP1_CIP2.py:228-231 | an author can be scored exactly when it was analysed and both vectors are non-empty |
| Markov.DrawCountFloor | src/markov_CIP1_CIP2.py:248 | for non-negative `taille` and positive `ngram`, `int(taille / ngram)` is the floor, so `taille < ngram` draws nothing |
| Markov.TruncDivTowardZero | src/markov_CIP1_CIP2.py:248 | for every non-zero order, `int(a / b)` rounds toward zero: `abs(q·b) <= abs(a) < (abs(q) + 1)·abs(b)`, and `q·a·b >= 0` |
| Markov.DrawCountOppositeSigns | src/markov_CIP1_CIP2.py:248 | for every non-zero order, a size of the opposite sign or a size of 0 makes no draw, and sizes and orders of the same sign make `abs(taille) // abs(ngram)` draws |
| Markov.DrawCountExamples | src/markov_CIP1_CIP2.py:248 | examples: size 10 with bigrams makes 5 draws, size 0 none, (-7, 2) none, (-7, -2) three and (7, -2) none |
| Markov.EmitAppend | src/markov_CIP1_CIP2.py:251-252 | each draw writes the key followed by one space |
| Markov.GeneratedWords | src/markov_CIP1_CIP2.py:248-252 | when every drawn key has `ngram` words, the text has `int(taille / ngram) * ngram <= taille` words |
| Markov.AnalyzedKeysSplit | src/markov_CIP1_CIP2.py:307-360 | every key of an analysed author has 1 or 2 words, as many as `ngram` |
| Markov.AnalyzedTextWords | src/markov_CIP1_CIP2.py:248-252 | a text generated from an analysed author's keys has `int(taille / ngram) * ngram <= taille` words |
| Markov.GroupedKeys | src/markov_CIP1_CIP2.py:270-276 | the values of `numberKey` are its old values followed by the new distinct frequencies, in first-seen order |
| Markov.GroupedGroups | src/markov_CIP1_CIP2.py:270-276 | the group of each value is its old group followed by the split keys of that value, in key order |
| Markov.SplitAllAppend | src/markov_CIP1_CIP2.py:272 | splitting one more key appends its tokens |
| Markov.GroupAll | src/markov_CIP1_CIP2.py:270-276 | the grouping loop yields `Grouped` |
| Markov.NthOf | src/markov_CIP1_CIP2.py:279-283 | the search loop returns the group of the n-th value, or `[]` when there is none |
| Markov.RanksDescending | src/markov_CIP1_CIP2.py:270-276 | on a fresh `numberKey`, the values are strictly decreasing |
| Markov.RanksValues | src/markov_CIP1_CIP2.py:270-276 | on a fresh `numberKey`, the values are exactly the author's frequencies |
| Markov.NthElementSpec | src/markov_CIP1_CIP2.py:266-284 | on a fresh `numberKey`, the result for 1 <= n <= the number of distinct frequencies is the split n-grams of the n-th largest frequency; otherwise `[]` |
| Markov.RepeatedCallKeys | src/markov_CIP1_CIP2.py:270-276 | a second call for the same author adds no new value to `numberKey` |
| Markov.RepeatedCallDoubles | src/markov_CIP1_CIP2.py:270-276 | a second call for the same author returns every n-gram of the group twice |
| Markov.Markov.constructor | src/markov_CIP1_CIP2.py:124-147 | `__init__` keeps punctuation, sets unigrams and leaves every table empty |
| Markov.Markov.SetPonc | src/markov_CIP1_CIP2.py:50-59 | `set_ponc` sets `keep_ponc` and changes nothing else |
| Markov.Markov.SetNgram | src/markov_CIP1_CIP2.py:113-122 | `set_ngram` sets `ngram` and changes nothing else |
| Markov.Markov.AddAuteurs | src/markov_CIP1_CIP2.py:76-77 | the loop of `set_auteurs` appends the found names after the authors already listed |
| Markov.Markov.Analyze | src/markov_CIP1_CIP2.py:286-362 | `analyze` leaves `DATA` as `Gathered` and `wordCountAuthor` as `Tallied`, and normalises every author of `DATA`; `numberKey` is untouched |
| Markov.Markov.Normalise | src/markov_CIP1_CIP2.py:349-360 | the normalisation loop re-establishes the class invariant: frequencies and sorted frequencies for exactly the authors of `DATA` |
| Markov.Markov.FindAuthor | src/markov_CIP1_CIP2.py:157-234 | `find_author` returns `Attribution` of the listed authors against the unknown work's sorted frequencies |
| Markov.Markov.GenText | src/markov_CIP1_CIP2.py:236-254 | `gen_text` returns the text it writes: `ZeroDivisionError` for order 0, no draw when `int(taille / ngram) <= 0`, otherwise `KeyError` or `ValueError` at the first draw, or one key and a space per draw |
| Markov.Markov.GetNthElement | src/markov_CIP1_CIP2.py:256-284 | `get_nth_element` appends the author's grouped n-grams to the persistent `numberKey` and returns its n-th group; `KeyError` for an author never analysed |
| Extract.SeparateEach | src/extract.py:23-25 | the loop of `customSeparators` equals `Separated`: replace, then lower-case, for each separator in turn |
| Extract.CustomSeparators | src/extract.py:21-26 | `customSeparators` applies `Separated` with its sixteen separators, the same list as `PONC` |
| Extract.SeparatedLowersFirst | src/extract.py:23-25 | for any caseless separators, lower-casing after every replacement is lower-casing once and then stripping; the result is lower-case |
| Extract.SeparatedIsStripAll | src/extract.py:21-26 | `customSeparators` equals the markov tokeniser's lower-case-then-strip |
| Extract.SeparatedClean | src/extract.py:21-26 | the output is lower-case and holds none of the one-character separators |
| Extract.SeparatedSplitIdempotent | src/extract.py:21-33 | applying `customSeparators` twice gives the same `split()` tokens as applying it once |
| Extract.CustomSplit | src/extract.py:32-44 | `customSplit` returns `WordCounts`, the order-1 counts of `split()` |
| Extract.WordCountsSpec | src/extract.py:33-43 | keys are exactly the tokens longer than two characters; each is whitespace-free and non-empty; each value is its occurrence count, at least 1; the values sum to at most the number of tokens |
| Extract.ExtractMatchesAnalyze | src/extract.py:21-44 | `customSplit(customSeparators(t))` is the per-work unigram count of `analyze` with punctuation dropped |

## Left out

- File and directory handling is not modelled, because it is I/O. This covers `set_auteurs`'s `glob` call, `get_aut_files`, `set_aut_dir`, the `open(...).read()` calls, writing the file in `gen_text`, `extractData`, and `print_ponc`.
  - The author names found on disk are the parameter of `AddAuteurs`.
  - An author's work texts, in listing order, are the `corpus` parameter of `Analyze`.
  - The unknown work's text is the parameter of `FindAuthor`.
  - `GenText` returns the text instead of writing it.
- The choices of `numpy.random.choice` are the `draws` parameter of `GenText`, because they are foreign randomness. NumPy's check that the probabilities sum to 1 is not modelled; only the empty population is (`ValueError`).
- `math.sqrt` and floating point are not modelled, because floats and square roots are not exact reals.
  - Frequencies are exact reals.
  - A `Proximity` keeps the dot product and both squared norms.
  - `IsScore` says which number the division yields.
  - Rounding, and the float precision of `int(taille / self.ngram)` for very large integers, are left out.
- `Text.Lower` lower-cases ASCII and Latin-1 capitals only, because full Unicode case mapping is outside the model. Unicode's other case mappings are not modelled.
- Markov.Markov.Analyze: the author loop runs heap-free over local maps (`GatherAll`), and the fields are assigned once after it. The model does not follow the source's one-entry-at-a-time field updates; the final state is the same.
- Markov.Markov.Normalise: `identity` and `orderedIdentity` are rebuilt from empty maps. The source overwrites each author's entry in place. Before the loop these maps hold only authors that are also in `DATA`, so the results agree.
- Markov.Markov.GetNthElement: the list it returns is a copy. In the source it is the same list object as the one stored in `numberKey`, so later calls append to lists a caller already holds. That aliasing is not modelled.
- Markov.Markov.GenText requires enough draws for the loop. The source has no such demand, because it asks NumPy for each one.
- Extract.CustomSplit and the counting methods return the final dictionary. The source mutates one dict in place.

## Findings

| source | as written | input that shows it | evidently intended | confidence | as-written member | corrected member |
|---|---|---|---|---|---|---|
| src/markov_CIP1_CIP2.py:347 | `self.DATA[authors] = oeuvreData` sits inside the per-work loop, so each work replaces the previous one and only the last work's counts survive | one author with two works "lune soleil" and "mer", `keep_ponc` true, unigrams: `DATA` holds only "mer", while `wordCountAuthor` counts 3 grams | the comment at lines 296-300 says counts aggregate over all of an author's works | not executed | Markov.EarlierWorksLost | Markov.PooledCounts |
| src/markov_CIP1_CIP2.py:273-276 | `numberKey` is a field created once in `__init__` and is never cleared, so each call of `get_nth_element` appends to the groups left by earlier calls, for any author | calling `get_nth_element` twice for the same author with the same n | each call groups only the requested author's n-grams afresh | not executed | Markov.RepeatedCallDoubles | Markov.NthElementSpec |

How the findings relate to the model:

- For the first finding, `Markov.LastWorkKept` and `Markov.AllWorksTallied` show the as-written behaviour on the same input. `Markov.Pooled`, `Markov.PooledGathered` and `Markov.PooledSingleWork` give the corrected aggregation and show that it agrees with the code when no author has more than one work.
- For the second finding, `Markov.Ranks` and `Markov.NthElement` are the corrected query over a fresh index. `Markov.RanksDescending` and `Markov.RanksValues` state its order and its contents.
- The class `Markov.Markov` models the code as written. The corrected definitions stand beside it.
