# Badword: a verified model of the dictionary tree and the fuzzy walk

`Badword` (`src/Badword.php`) redacts or detects prohibited phrases in text.
The phrases live in a prefix tree of text units. Detection is a
skip-tolerant ("fuzzy") walk over that tree. The walk may skip filler
characters between a phrase's units, but it is greedy and never backtracks:
whenever the current unit is an edge of the current node it steps down that
edge, even when skipping the unit instead would have completed another
phrase (`Scenarios.GreedyWalkMissesGap`). So a phrase with fillers inside it
is found only when no such wrong turn intervenes. Every span it does find is
a dictionary phrase laid out in order with at most the allowed number of
fillers (`Matcher.SpanSound`). This project models,
in Dafny, the whole algorithmic part of the class:

- `addWords`: inserting one phrase into the tree (module `Trie`);
- the cache-free branch of `loadData`: trimming each entry and building a
  fresh tree from the list (module `Dictionary`);
- the inner walk shared by `filter` and `match_badword` (module `Walk`);
- the outer left-to-right scan of `filter` that selects the spans to redact
  (module `Scan`);
- `filter` and `match_badword` themselves, written as the source's loops,
  including `filter`'s in-place overwrite of the unit array (module
  `Matcher`);
- worked examples: gap tolerance, the longest phrase winning, one-unit
  phrases never matching, the greedy walk missing a gap (module
  `Scenarios`).

Modelling choices:

- A unit is a Dafny `char`, i.e. one Unicode scalar value. A text is the
  already-segmented `seq<Unit>` that `splitStr` would produce.
- A node is `Node(children: map<Unit, Node>, terminal: bool)`. The explicit
  flag replaces the source's `'end'` key. No single unit can equal `"end"`,
  so nothing is lost.
- `addWords` tests `isset($curNode)` rather than `isset($curNode[$char])`,
  and relies on PHP creating entries when it takes a reference. The
  placeholder entries it creates are always turned into arrays before the
  call returns, so its net effect is ordinary trie insertion. That is what
  `Trie.Insert` models.
- `filter` overwrites `$strArr` in place. Later walks only read positions
  after `$i`, and `$i` is already past every overwritten position.
  `Matcher.Filter` keeps the in-place overwrite. `Walk.LastEndAgree` proves
  that the walk sees the original text anyway. The functional account is
  the per-start walk outcomes (`Matcher.Outcomes`) followed by the greedy
  scan (`Scan.ScanFrom`).
- A walk tests the end mark only of nodes it steps onto, and its first step
  is already below the root edge of the start unit. So the code never
  matches an empty or one-unit phrase. One might expect every dictionary
  phrase to be detected in a text that consists of that phrase; that holds
  only for phrases of two or more units (`Matcher.PhraseDetected`). The
  model follows the code (`Matcher.ShortPhrasesNeverMatch`,
  `Scenarios.SingleUnitIgnored`).
- `loadData` refuses only an empty list. A blank entry is not skipped: it
  trims to the empty phrase, which marks the root. The root mark is never
  read, so this changes no result (`Matcher.EmptyPhraseChangesNothing`). The
  same holds for an entry that trims to one unit: it marks a node the walk
  starts below, so it changes no result either
  (`Matcher.OneUnitPhraseChangesNothing`).
- `filter` tests `!empty($matchIndex['end'])`. A recorded end is always at
  least `$i + 1 >= 1`, so index 0 never reaches `empty()`. `Option` models
  the `false` sentinel exactly.
- The trie is a value. Neither `Filter` nor `MatchBadword` can change it.

## Model

| member | source | states |
|---|---|---|
| Trie.Insert | src/Badword.php:155-169 | after inserting `w`, following `w` from the root reaches an end-marked node, and every root edge that existed before still exists |
| Trie.InsertContains | src/Badword.php:155-169 | after inserting `w`, the phrases of the tree are exactly the previous phrases plus `w` (both directions) |
| Trie.InsertPaths | src/Badword.php:158-165 | after inserting `w`, the paths of the tree are exactly the previous paths plus the prefixes of `w`; no node is lost |
| Trie.InsertPresent | src/Badword.php:155-169 | inserting a phrase that is already present returns the same tree |
| Trie.InsertIdempotent | src/Badword.php:155-169 | inserting the same phrase twice equals inserting it once |
| Trie.InsertEmptyPhrase | src/Badword.php:157-168 | inserting the empty phrase changes no edge and only sets the root's end mark |
| Dictionary.TrimLeft | src/Badword.php:116 | the result is a suffix of the input; everything dropped is a trim character; the result does not start with one |
| Dictionary.TrimRight | src/Badword.php:116 | the result is a prefix of the input; everything dropped is a trim character; the result does not end with one |
| Dictionary.Trim | src/Badword.php:116 | PHP `trim`: the result is an infix of the input, only trim characters lie outside it, and it neither starts nor ends with one |
| Dictionary.TrimSpec | src/Badword.php:116 | any left strip followed by any right strip removes exactly the runs of trim characters at both ends, leaving the infix that `trim` keeps |
| Dictionary.InsertAllContains | src/Badword.php:115-117 | after inserting a list of phrases in order, the tree's phrases are the previous ones plus the list's |
| Dictionary.InsertAllPaths | src/Badword.php:115-117 | after inserting a list of phrases in order, the tree's paths are the previous ones plus every prefix of a listed phrase; no other edge is created |
| Dictionary.InsertAllIdempotent | src/Badword.php:115-117 | inserting the same list again into the built tree changes nothing |
| Dictionary.InsertAllPresent | src/Badword.php:115-117 | inserting phrases that are all present already leaves the tree as it is |
| Dictionary.LoadedPhrases | src/Badword.php:113-117 | the tree built from a list holds exactly the trimmed entries |
| Dictionary.LoadedPaths | src/Badword.php:113-117 | the tree built from a nonempty list has exactly the paths that are prefixes of trimmed entries |
| Dictionary.LoadData | src/Badword.php:108-117 | fails exactly when the list is empty; otherwise a fresh tree, whatever the previous dictionary, whose phrases are exactly the trimmed entries and whose paths are exactly their prefixes, so the tree that `filter` walks is fixed by the list |
| Walk.LastEnd | src/Badword.php:190-205 | a recorded end lies inside the text, at or after the first position walked, and only while misses are below the limit |
| Walk.FirstHitIffLastEnd | src/Badword.php:238-249 | the walk of `match_badword` (stop at the first end mark) succeeds exactly when the walk of `filter` (remember the last one) records an end |
| Walk.LastEndAgree | src/Badword.php:194-205 | the walk reads only positions from its current one on, so overwriting earlier positions cannot change it |
| Walk.LastEndMonotone | src/Badword.php:194-205 | wherever a smaller miss budget records an end, a larger budget still records one, and never an earlier one (it may record a later end) |
| Walk.ContiguousWalk | src/Badword.php:194-198 | with a one-miss budget the walk records exactly the end of the longest phrase read contiguously, and records nothing when no such phrase exists |
| Walk.LastEndSound | src/Badword.php:194-205 | whenever the walk records an end, a phrase of at least one unit below the start node occurs in the text at strictly increasing positions from the first position walked to that end, and the fillers between them plus the misses already counted stay below the limit |
| Walk.TerminalIgnored | src/Badword.php:200-204 | the end mark of the start node does not change the walk's outcome |
| Walk.WalkIgnoresStartMark | src/Badword.php:200-204 | the walk never tests the end mark of its start node: without a phrase of at least one unit below it, it records nothing |
| Walk.MissesGrow | src/Badword.php:195-197 | the miss count never decreases along a walk: at a later position it is at least what it was at any earlier one |
| Walk.LastEndIsLastTerminal | src/Badword.php:194-205 | the recorded end is the last position where the step-by-step loop steps onto an end-marked node, not the first one; nothing is recorded exactly when there is no such position |
| Walk.FuzzyWalk | src/Badword.php:190-205 | the inner loop of `filter` returns the recorded end; misses never exceed the limit; the loop ends only at the end of the text or when misses reach the limit; the loop state equals the step-by-step reference state |
| Scan.ScanIsScan | src/Badword.php:183-213 | the spans of the scan start before they end, lie inside the text, are found by the walk at their starts, are strictly increasing and pairwise disjoint, and leave uncovered no position whose walk finds a span |
| Scan.ScanUnique | src/Badword.php:183-213 | any span list with those properties is the scan's list: after a span, scanning resumes after its end; with no span, at the next position |
| Scan.ScanCons | src/Badword.php:208-213 | a span found at `i`, followed by the scan resumed after its end, is the scan from `i` |
| Scan.UniqueCons | src/Badword.php:208-213 | a start position that yields a span is the first span of the scan from there |
| Scan.ScanNonEmptyIff | src/Badword.php:208-213 | the scan yields a span exactly when the walk from some start finds one |
| Scan.CoveredAppend | src/Badword.php:209-211 | appending a span after all earlier ones adds exactly its positions to the redacted ones |
| Matcher.SpanAt | src/Badword.php:184-205 | a walk started at `p` ends strictly after `p` and inside the text, so every span has `start < end` |
| Matcher.Outcomes | src/Badword.php:183-205 | one walk outcome per start position, each a well-formed span end |
| Matcher.OutcomeOnArray | src/Badword.php:184-205 | the walk at `$i` over the partly overwritten array gives the same outcome as over the original text |
| Matcher.RedactSpan | src/Badword.php:208-213 | overwriting a span found at the current start keeps the working array correct: up to the span's end, every position inside a found span holds the replacement and every other position keeps its input unit; later positions are untouched |
| Matcher.WalkFrom | src/Badword.php:184-205 | the walk from `$i` over the partly overwritten array yields the walk outcome at `$i` over the original text |
| Matcher.FilterStep | src/Badword.php:183-213 | one pass of the outer loop moves strictly forward, keeps the working array correct, and moves the span it takes from the rest of the scan to the spans found |
| Matcher.ReplaceSpan | src/Badword.php:209-211 | positions `start..end` become the replacement; all others are unchanged |
| Matcher.Filter | src/Badword.php:178-216 | the redacted text has the input's length; every position inside a span of the scan becomes the replacement; every other position keeps its input unit, in place |
| Matcher.MatchBadword | src/Badword.php:223-252 | `match_badword` is true exactly when `filter` would find at least one span, i.e. when the walk from some start finds one |
| Matcher.SpansCharacterised | src/Badword.php:183-213 | the spans of `filter` satisfy the declarative scan properties, and they are the only list that does |
| Matcher.SkipDistanceEffect | src/Badword.php:180 | a negative skip distance gives the same spans as distance 0; a larger skip distance keeps every start whose walk finds a span and never turns a detection into a miss |
| Matcher.SpanSound | src/Badword.php:183-205 | every span is a dictionary phrase of at least two units whose units occur at strictly increasing positions from the span's start to its end, with at most `max(skipDistance, 0)` filler units between them |
| Matcher.ContiguousMatch | src/Badword.php:194-198 | with `skipDistance <= 0`, the span from `p` ends at the longest dictionary phrase of two or more units read contiguously from `p`, and there is none when no such phrase exists |
| Matcher.OccurrenceDetected | src/Badword.php:194-205 | a dictionary phrase of two or more units that occurs contiguously in the text is detected, whatever the skip distance |
| Matcher.PhraseDetected | src/Badword.php:231-249 | every dictionary phrase of two or more units is detected in a text that is that phrase |
| Matcher.ShortPhrasesNeverMatch | src/Badword.php:200-204 | a dictionary whose phrases all have at most one unit finds no span in any text |
| Matcher.ShortDictionaryNeverMatches | src/Badword.php:108-117 | a tree loaded from a list whose entries all trim to at most one unit (blank entries included) finds no span in any text |
| Matcher.EmptyPhraseChangesNothing | src/Badword.php:186-204 | inserting the empty phrase changes no span |
| Matcher.OneUnitPhraseChangesNothing | src/Badword.php:186-204 | inserting a one-unit phrase into any dictionary changes no span of any text |
| Scenarios.GapOfTwoFound | src/Badword.php:194-205 | with skip distance 2, "abc" is found in "a1b2c" as the span 0..4 |
| Scenarios.GapOfOneMissed | src/Badword.php:194-198 | with skip distance 1 the second filler ends the walk and "a1b2c" has no span |
| Scenarios.LongestWins | src/Badword.php:200-204 | with "ab" and "abc" in the dictionary, "xabcx" yields the span 1..3: the later end mark overwrites the earlier one |
| Scenarios.SingleUnitIgnored | src/Badword.php:200-204 | a one-unit phrase is not found even in a text that is exactly that unit |
| Scenarios.GreedyWalkMissesGap | src/Badword.php:194-205 | with "abd" and "ac" in the dictionary and skip distance 1, "abc" has no span: the walk steps onto 'b' towards "abd" and never treats it as the filler of "ac" |

## Left out

- Redis caching in `loadDataFromFile` and in the cache branch of `loadData` (src/Badword.php:83-99, 119-137): network I/O. Only the cache-free branch is modelled.
- Reading the dictionary file and the default-path fallback in `setDictFile`, `setDictFromFile` and `loadDataFromFile` (src/Badword.php:44-78): file I/O.
- The constructor's configuration merging (src/Badword.php:20-38): connection settings for the cache only.
- `splitStr`'s UTF-8 decoding through `preg_split("//u")` (src/Badword.php:146-149), and its failure on malformed UTF-8: a foreign regular-expression library. Texts and phrases are taken as already-segmented unit sequences.
- Multi-character replacement strings and the final `implode` (src/Badword.php:215): the replacement is one unit, and the result is the unit sequence before joining.
- PHP references and array-key mechanics (`&$curNode`, numeric-string keys): replaced by the explicit node datatype.
- Dictionary.Trim: covers PHP's default character list only (space, tab, line feed, carriage return, NUL, vertical tab). PHP trims bytes, but every one of these characters is ASCII, so trimming bytes and trimming code points agree.
- A bound on the number of nodes (at most the total length of the phrases): a tree's size would have to be summed over a map of children, and no behaviour of the class depends on it.
