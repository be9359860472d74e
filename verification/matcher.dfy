/**
 * The two public entry points of `Badword` that read the tree: `filter`,
 * which redacts every span the walk finds, and `match_badword`, which only
 * says whether there is one.
 */
module Matcher {
  import opened Wrappers
  import opened Trie
  import opened Walk
  import opened Scan
  import Dictionary

  /**
   * The walk started at position `p`: `None` when the root has no edge for
   * `s[p]` or the walk reaches no end mark, else the end of the span.
   */
  function SpanAt(dict: Node, s: seq<Unit>, p: nat, maxDist: nat): (r: Option<nat>)
    requires p < |s|
    ensures r.Some? ==> p < r.value < |s|
  {
    if s[p] in dict.children then LastEnd(dict.children[s[p]], s, p + 1, 0, maxDist) else None
  }

  /** The walk outcome at every start position of `s`. */
  function Outcomes(dict: Node, s: seq<Unit>, maxDist: nat): (w: seq<Option<nat>>)
    ensures |w| == |s| && WellFormed(w)
  {
    seq(|s|, p requires 0 <= p < |s| => SpanAt(dict, s, p, maxDist))
  }

  /** The spans `filter` redacts in `s`. */
  function Spans(dict: Node, s: seq<Unit>, maxDist: nat): seq<Span>
  {
    ScanFrom(Outcomes(dict, s, maxDist), 0)
  }

  /** The `for ($m ...)` loop of `filter`: overwrite positions `start..end` with `replace`. */
  method ReplaceSpan(a: seq<Unit>, start: nat, end: nat, replace: Unit) returns (b: seq<Unit>)
    requires start <= end < |a|
    ensures |b| == |a|
    ensures forall k :: 0 <= k < |a| ==> b[k] == if start <= k <= end then replace else a[k]
  {
    b := a;
    var m := start;
    while m <= end
      invariant start <= m <= end + 1
      invariant |b| == |a|
      invariant forall k :: 0 <= k < |a| ==> b[k] == if start <= k < m then replace else a[k]
    {
      b := b[m := replace];
      m := m + 1;
    }
  }

  /**
   * The walk outcome at `i`, read off a working copy that still holds the
   * original units from `i` on.
   */
  lemma OutcomeOnArray(dict: Node, str: seq<Unit>, strArr: seq<Unit>, i: nat, maxDist: nat)
    requires |strArr| == |str| && i < |str|
    requires forall k :: i <= k < |str| ==> strArr[k] == str[k]
    ensures Outcomes(dict, str, maxDist)[i] ==
              if strArr[i] in dict.children
              then LastEnd(dict.children[strArr[i]], strArr, i + 1, 0, maxDist)
              else None
  {
    if strArr[i] in dict.children {
      LastEndAgree(dict.children[strArr[i]], strArr, str, i + 1, 0, maxDist);
    }
  }

  /**
   * The state of `filter` before start position `i`: the working array has
   * the length of `str`, every span found so far ends before `i`, each
   * position before `i` holds the replacement if a found span covers it and
   * its original unit otherwise, and the positions from `i` on are still
   * the original ones.
   */
  predicate Redacted(str: seq<Unit>, strArr: seq<Unit>, found: seq<Span>, i: nat, replace: Unit)
  {
    && |strArr| == |str| && i <= |str|
    && (forall t :: 0 <= t < |found| ==> found[t].end < i)
    && (forall k :: i <= k < |str| ==> strArr[k] == str[k])
    && (forall k :: 0 <= k < i ==> strArr[k] == if Covered(found, k) then replace else str[k])
  }

  /** Stepping over a start position whose walk finds nothing keeps the state. */
  lemma SkipStart(str: seq<Unit>, strArr: seq<Unit>, found: seq<Span>, i: nat, replace: Unit)
    requires Redacted(str, strArr, found, i, replace) && i < |str|
    ensures Redacted(str, strArr, found, i + 1, replace)
  {
    assert !Covered(found, i);
  }

  /**
   * Overwriting a span that starts at `i` with the replacement moves the
   * state past its end, with the span added to the found ones.
   */
  lemma RedactSpan(str: seq<Unit>, before: seq<Unit>, after: seq<Unit>, found: seq<Span>, span: Span, replace: Unit)
    requires Redacted(str, before, found, span.start, replace) && span.start <= span.end < |str|
    requires |after| == |str|
    requires forall k :: 0 <= k < |str| ==> after[k] == if span.start <= k <= span.end then replace else before[k]
    ensures Redacted(str, after, found + [span], span.end + 1, replace)
  {
    forall k | 0 <= k <= span.end
      ensures after[k] == if Covered(found + [span], k) then replace else str[k]
    {
      CoveredAppend(found, span, k);
    }
  }

  /**
   * The body of `filter`'s outer loop up to the overwrite: no span when the
   * root has no edge for the unit at `i`, else the end the walk from there
   * records. It reads the working array, which still holds the original
   * units from `i` on, and yields the walk outcome over the original text.
   */
  method WalkFrom(dict: Node, str: seq<Unit>, strArr: seq<Unit>, i: nat, maxDistance: nat)
    returns (end: Option<nat>)
    requires |strArr| == |str| && i < |str|
    requires forall k :: i <= k < |str| ==> strArr[k] == str[k]
    ensures end == Outcomes(dict, str, maxDistance)[i]
  {
    OutcomeOnArray(dict, str, strArr, i, maxDistance);
    var unit := strArr[i];
    if unit !in dict.children {
      return None;
    }
    var walked, _, _ := FuzzyWalk(dict.children[unit], strArr, i, maxDistance);
    end := walked;
  }

  /**
   * One pass of the outer `for ($i ...)` loop of `filter`: when the walk
   * from `i` records an end, overwrite the span and resume after it. The
   * state moves from `i` past the positions handled, and the span taken
   * (if any) moves from the rest of the scan to the spans found.
   */
  method FilterStep(dict: Node, str: seq<Unit>, replace: Unit, maxDistance: nat,
                    strArr: seq<Unit>, i: nat, ghost all: seq<Span>, ghost found: seq<Span>)
    returns (strArr': seq<Unit>, i': nat, ghost found': seq<Span>)
    requires i < |str| && Redacted(str, strArr, found, i, replace)
    requires all == found + ScanFrom(Outcomes(dict, str, maxDistance), i)
    ensures i < i' <= |str| && Redacted(str, strArr', found', i', replace)
    ensures all == found' + ScanFrom(Outcomes(dict, str, maxDistance), i')
  {
    var end := WalkFrom(dict, str, strArr, i, maxDistance);
    if end.Some? {
      var e := end.value;
      strArr' := ReplaceSpan(strArr, i, e, replace);
      ScanPastSome(Outcomes(dict, str, maxDistance), all, found, i, e);
      RedactSpan(str, strArr, strArr', found, Span(i, e), replace);
      found' := found + [Span(i, e)];
      i' := e + 1;
    } else {
      ScanPastNone(Outcomes(dict, str, maxDistance), all, found, i);
      SkipStart(str, strArr, found, i, replace);
      strArr', i', found' := strArr, i + 1, found;
    }
  }

  /**
   * `filter($str, $replace, $skipDistance)` with a one-unit replacement:
   * the outer loop of the source (one pass of it is `FilterStep`),
   * overwriting the unit array in place. Every position inside a span of
   * the scan becomes `replace`; every other unit is kept, in order.
   */
  method Filter(dict: Node, str: seq<Unit>, replace: Unit, skipDistance: int) returns (r: seq<Unit>)
    ensures |r| == |str|
    ensures forall k :: 0 <= k < |str| ==>
              r[k] == if Covered(Spans(dict, str, MaxDistance(skipDistance)), k) then replace else str[k]
  {
    var maxDistance := MaxDistance(skipDistance);
    ghost var all := Spans(dict, str, maxDistance);
    var strArr := str;
    var length := |strArr|;
    ghost var found: seq<Span> := [];
    var i := 0;
    while i < length
      invariant i <= length
      invariant Redacted(str, strArr, found, i, replace)
      invariant all == found + ScanFrom(Outcomes(dict, str, maxDistance), i)
      decreases length - i
    {
      strArr, i, found := FilterStep(dict, str, replace, maxDistance, strArr, i, all, found);
    }
    assert all == found;
    r := strArr;
  }

  /**
   * `match_badword($str, $skipDistance)`, written as the source's loops with
   * the early `return true`: true exactly when `filter` would find a span.
   */
  method MatchBadword(dict: Node, str: seq<Unit>, skipDistance: int) returns (r: bool)
    ensures r <==> Spans(dict, str, MaxDistance(skipDistance)) != []
    ensures r <==> exists p :: 0 <= p < |str| && SpanAt(dict, str, p, MaxDistance(skipDistance)).Some?
  {
    var maxDistance := MaxDistance(skipDistance);
    ghost var w := Outcomes(dict, str, maxDistance);
    ScanNonEmptyIff(w);
    assert forall p :: 0 <= p < |str| ==> w[p] == SpanAt(dict, str, p, maxDistance);
    var strArr := str;
    var length := |strArr|;
    var i := 0;
    while i < length
      invariant 0 <= i <= length
      invariant forall p :: 0 <= p < i ==> SpanAt(dict, str, p, maxDistance).None?
    {
      var unit := strArr[i];
      if unit !in dict.children {
        i := i + 1;
        continue;
      }
      var first := dict.children[unit];
      var curNode := first;
      FirstHitIffLastEnd(first, strArr, i + 1, 0, maxDistance);
      var dist := 0;
      var j := i + 1;
      while j < length && dist < maxDistance
        invariant i + 1 <= j <= length
        invariant FirstHit(first, strArr, i + 1, 0, maxDistance) == FirstHit(curNode, strArr, j, dist, maxDistance)
        decreases length - j
      {
        if strArr[j] !in curNode.children {
          dist := dist + 1;
          j := j + 1;
          continue;
        }
        var next := curNode.children[strArr[j]];
        if next.terminal {
          assert FirstHit(curNode, strArr, j, dist, maxDistance);
          assert SpanAt(dict, str, i, maxDistance).Some?;
          return true;
        }
        curNode := next;
        j := j + 1;
      }
      i := i + 1;
    }
    return false;
  }

  /** `Spans` satisfies `IsScan`, and nothing else does. */
  lemma SpansCharacterised(dict: Node, s: seq<Unit>, maxDist: nat, spans: seq<Span>)
    ensures IsScan(Outcomes(dict, s, maxDist), 0, Spans(dict, s, maxDist))
    ensures IsScan(Outcomes(dict, s, maxDist), 0, spans) <==> spans == Spans(dict, s, maxDist)
  {
    var w := Outcomes(dict, s, maxDist);
    ScanIsScan(w, 0);
    if IsScan(w, 0, spans) {
      ScanUnique(w, 0, spans);
    }
  }

  /**
   * With `skipDistance <= 0` the walk at `p` finds exactly the longest
   * dictionary phrase of at least two units read contiguously from `p`.
   */
  lemma ContiguousMatch(dict: Node, s: seq<Unit>, p: nat, skip: int)
    requires p < |s| && skip <= 0
    ensures var r := SpanAt(dict, s, p, MaxDistance(skip));
            && (r.Some? ==> PhraseAt(dict, s, p, r.value)
                            && forall e :: r.value < e ==> !PhraseAt(dict, s, p, e))
            && (r.None? ==> forall e :: p < e ==> !PhraseAt(dict, s, p, e))
  {
    forall e | p < e < |s| ensures PhraseAt(dict, s, p, e) <==>
        s[p] in dict.children && PhraseAt(dict.children[s[p]], s, p + 1, e) {
      PhraseAtStep(dict, s, p, e);
    }
    if s[p] in dict.children {
      ContiguousWalk(dict.children[s[p]], s, p + 1);
    }
  }

  /**
   * Every span is an occurrence of a dictionary phrase of at least two
   * units: the phrase's units lie at strictly increasing positions from the
   * span's start to its end, and at most `max(skipDistance, 0)` filler
   * units lie between them.
   */
  lemma SpanSound(dict: Node, s: seq<Unit>, p: nat, skip: int) returns (v: seq<Unit>, ix: seq<nat>)
    requires p < |s| && SpanAt(dict, s, p, MaxDistance(skip)).Some?
    ensures var e := SpanAt(dict, s, p, MaxDistance(skip)).value;
            && Contains(dict, v) && |v| >= 2 && Embedded(s, v, ix)
            && ix[0] == p && ix[|ix| - 1] == e
            && (e + 1 - p) - |v| <= if skip < 0 then 0 else skip
  {
    var child := dict.children[s[p]];
    var v', ix' := LastEndSound(child, s, p + 1, 0, MaxDistance(skip));
    ContainsChild(dict, s[p], v');
    EmbedsCons(s, v', ix', p);
    v, ix := [s[p]] + v', [p] + ix';
  }

  /**
   * A dictionary phrase of at least two units that occurs contiguously
   * anywhere in the text is detected, whatever the skip distance.
   */
  lemma OccurrenceDetected(dict: Node, s: seq<Unit>, p: nat, e: nat, skipDistance: int)
    requires p < e && PhraseAt(dict, s, p, e)
    ensures Spans(dict, s, MaxDistance(skipDistance)) != []
  {
    ContiguousMatch(dict, s, p, 0);
    PhraseAtStep(dict, s, p, e);
    var child := dict.children[s[p]];
    LastEndMonotone(child, s, p + 1, 0, 1, MaxDistance(skipDistance));
    var w := Outcomes(dict, s, MaxDistance(skipDistance));
    assert w[p].Some?;
    ScanNonEmptyIff(w);
  }

  /**
   * The skip distance acts only through `max($skipDistance, 0) + 1`: a
   * negative distance behaves exactly like distance 0, and a larger
   * distance keeps every start whose walk finds a span, so it never turns
   * a detection into a miss.
   */
  lemma SkipDistanceEffect(dict: Node, s: seq<Unit>, skip: int, skip': int)
    ensures skip < 0 ==> Spans(dict, s, MaxDistance(skip)) == Spans(dict, s, MaxDistance(0))
    ensures skip <= skip' ==> forall p :: 0 <= p < |s| && SpanAt(dict, s, p, MaxDistance(skip)).Some? ==>
              SpanAt(dict, s, p, MaxDistance(skip')).Some?
    ensures skip <= skip' && Spans(dict, s, MaxDistance(skip)) != [] ==> Spans(dict, s, MaxDistance(skip')) != []
  {
    if skip <= skip' {
      forall p | 0 <= p < |s| && SpanAt(dict, s, p, MaxDistance(skip)).Some?
        ensures SpanAt(dict, s, p, MaxDistance(skip')).Some?
      {
        LastEndMonotone(dict.children[s[p]], s, p + 1, 0, MaxDistance(skip), MaxDistance(skip'));
      }
      var w := Outcomes(dict, s, MaxDistance(skip));
      var w' := Outcomes(dict, s, MaxDistance(skip'));
      ScanNonEmptyIff(w);
      ScanNonEmptyIff(w');
      if ScanFrom(w, 0) != [] {
        var p :| 0 <= p < |w| && w[p].Some?;
        assert w'[p].Some?;
      }
    }
  }

  /** Every phrase of at least two units in the dictionary is found in a text that is that phrase. */
  lemma PhraseDetected(dict: Node, phrase: seq<Unit>, skipDistance: int)
    requires Contains(dict, phrase) && |phrase| >= 2
    ensures Spans(dict, phrase, MaxDistance(skipDistance)) != []
  {
    assert phrase[0..|phrase|] == phrase;
    OccurrenceDetected(dict, phrase, 0, |phrase| - 1, skipDistance);
  }

  /**
   * The end mark of the root is never read, and neither is the mark of a
   * node one edge below it as a walk's start: a dictionary whose phrases
   * all have at most one unit redacts nothing and detects nothing.
   */
  lemma ShortPhrasesNeverMatch(dict: Node, s: seq<Unit>, maxDist: nat)
    requires forall v :: Contains(dict, v) ==> |v| <= 1
    ensures Spans(dict, s, maxDist) == []
  {
    var w := Outcomes(dict, s, maxDist);
    forall p | 0 <= p < |s| ensures w[p].None? {
      if s[p] in dict.children {
        var child := dict.children[s[p]];
        forall v | Contains(child, v) ensures |v| == 0 {
          ContainsChild(dict, s[p], v);
        }
        WalkIgnoresStartMark(child, s, p + 1, 0, maxDist);
      }
    }
    ScanNonEmptyIff(w);
  }

  /**
   * `loadData` on a list whose entries all trim to at most one unit (blank
   * lines included) gives a tree that never matches.
   */
  lemma ShortDictionaryNeverMatches(data: seq<string>, s: seq<Unit>, maxDist: nat)
    requires forall k :: 0 <= k < |data| ==> |Dictionary.Trim(data[k])| <= 1
    ensures Dictionary.LoadData(data).Success? ==> Spans(Dictionary.LoadData(data).value, s, maxDist) == []
  {
    var loaded := Dictionary.LoadData(data);
    if loaded.Success? {
      var dict := loaded.value;
      forall v | Contains(dict, v) ensures |v| <= 1 {
        var k :| 0 <= k < |data| && v == Dictionary.Trim(data[k]);
      }
      ShortPhrasesNeverMatch(dict, s, maxDist);
    }
  }

  /**
   * Inserting a one-unit phrase changes no span, whatever else the
   * dictionary holds: it only marks a node directly below the root, and a
   * walk starts below that node without reading its mark.
   */
  lemma OneUnitPhraseChangesNothing(dict: Node, u: Unit, s: seq<Unit>, maxDist: nat)
    ensures Spans(Insert(dict, [u]), s, maxDist) == Spans(dict, s, maxDist)
  {
    var dict' := Insert(dict, [u]);
    assert [u][1..] == [];
    var child := if u in dict.children then dict.children[u] else Empty;
    assert Insert(child, [u][1..]) == child.(terminal := true);
    assert dict'.children == dict.children[u := child.(terminal := true)];
    forall p | 0 <= p < |s|
      ensures SpanAt(dict', s, p, maxDist) == SpanAt(dict, s, p, maxDist)
    {
      if s[p] == u {
        TerminalIgnored(child, true, s, p + 1, 0, maxDist);
        if u !in dict.children {
          forall v | Contains(Empty, v) ensures |v| == 0 {
          }
          WalkIgnoresStartMark(Empty, s, p + 1, 0, maxDist);
        }
      }
    }
    assert Outcomes(dict', s, maxDist) == Outcomes(dict, s, maxDist);
  }

  /** Inserting the empty phrase (a blank dictionary line) changes no span. */
  lemma EmptyPhraseChangesNothing(dict: Node, s: seq<Unit>, maxDist: nat)
    ensures Spans(Insert(dict, []), s, maxDist) == Spans(dict, s, maxDist)
  {
    assert Outcomes(Insert(dict, []), s, maxDist) == Outcomes(dict, s, maxDist);
  }
}
