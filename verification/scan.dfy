/**
 * The left-to-right selection of spans in `filter`, over the outcome of the
 * walk at every start position: a span found at `i` is taken and scanning
 * resumes after its end; a start with no span is stepped over.
 */
module Scan {
  import opened Wrappers

  /** `$matchIndex`: an inclusive range of positions to redact. */
  datatype Span = Span(start: nat, end: nat)

  /**
   * Walk outcomes for a text of `|w|` units: `w[p]` is the end of the span a
   * walk started at `p` finds, which lies strictly after `p` and inside the text.
   */
  predicate WellFormed(w: seq<Option<nat>>)
  {
    forall p :: 0 <= p < |w| && w[p].Some? ==> p < w[p].value < |w|
  }

  /** Position `p` lies inside one of the spans. */
  predicate Covered(spans: seq<Span>, p: nat)
  {
    exists t :: 0 <= t < |spans| && spans[t].start <= p <= spans[t].end
  }

  /** Every span starts at or after `from`, ends after it starts, and ends inside the text. */
  predicate InRange(n: nat, from: nat, spans: seq<Span>)
  {
    forall t :: 0 <= t < |spans| ==> from <= spans[t].start < spans[t].end < n
  }

  /** Every span is what the walk at its start finds. */
  predicate WalkFound(w: seq<Option<nat>>, spans: seq<Span>)
  {
    forall t :: 0 <= t < |spans| && spans[t].start < |w| ==> w[spans[t].start] == Some(spans[t].end)
  }

  /** Spans strictly increase and never overlap. */
  predicate Ordered(spans: seq<Span>)
  {
    forall t, t' :: 0 <= t < t' < |spans| ==> spans[t].end < spans[t'].start
  }

  /** Every position from `from` on whose walk finds a span is covered by a span. */
  predicate NoneMissed(w: seq<Option<nat>>, from: nat, spans: seq<Span>)
  {
    forall p :: from <= p < |w| && w[p].Some? ==> Covered(spans, p)
  }

  /**
   * What the scan from `from` must produce, stated without the scan: spans
   * found by the walk at their starts, increasing and pairwise disjoint, and
   * no uncovered position from which a walk would have found one.
   */
  predicate IsScan(w: seq<Option<nat>>, from: nat, spans: seq<Span>)
  {
    InRange(|w|, from, spans) && WalkFound(w, spans) && Ordered(spans) && NoneMissed(w, from, spans)
  }

  /** The outer loop of `filter`, from start position `i`. */
  function ScanFrom(w: seq<Option<nat>>, i: nat): seq<Span>
    requires WellFormed(w)
    decreases |w| - i
  {
    if i >= |w| then []
    else match w[i]
      case None => ScanFrom(w, i + 1)
      case Some(e) => [Span(i, e)] + ScanFrom(w, e + 1)
  }

  /** A start that yields nothing leaves the rest of the scan as it is. */
  lemma ScanSkip(w: seq<Option<nat>>, i: nat, rest: seq<Span>)
    requires i < |w| && w[i].None?
    requires IsScan(w, i + 1, rest)
    ensures IsScan(w, i, rest)
  {
  }

  /** A span found at `i` followed by the scan from its end plus one is a scan from `i`. */
  lemma ScanCons(w: seq<Option<nat>>, i: nat, e: nat, rest: seq<Span>)
    requires WellFormed(w)
    requires i < |w| && w[i] == Some(e)
    requires IsScan(w, e + 1, rest)
    ensures IsScan(w, i, [Span(i, e)] + rest)
  {
    var r := [Span(i, e)] + rest;
    assert forall t :: 0 < t < |r| ==> r[t] == rest[t - 1];
    assert InRange(|w|, i, r);
    assert WalkFound(w, r);
    assert Ordered(r);
    forall p | i <= p < |w| && w[p].Some? ensures Covered(r, p) {
      if p <= e {
        assert r[0].start <= p <= r[0].end;
      } else {
        assert Covered(rest, p);
        var t :| 0 <= t < |rest| && rest[t].start <= p <= rest[t].end;
        assert r[t + 1] == rest[t];
      }
    }
  }

  /** The scan has every property of `IsScan`. */
  lemma {:induction false} ScanIsScan(w: seq<Option<nat>>, i: nat)
    requires WellFormed(w)
    ensures IsScan(w, i, ScanFrom(w, i))
    decreases |w| - i
  {
    if i < |w| {
      match w[i]
      case None =>
        ScanIsScan(w, i + 1);
        ScanSkipStep(w, i);
      case Some(e) =>
        ScanIsScan(w, e + 1);
        ScanConsStep(w, i, e);
    }
  }

  /** `ScanSkip` applied to the scan itself. */
  lemma ScanSkipStep(w: seq<Option<nat>>, i: nat)
    requires WellFormed(w) && i < |w| && w[i].None?
    requires IsScan(w, i + 1, ScanFrom(w, i + 1))
    ensures IsScan(w, i, ScanFrom(w, i))
  {
    UnfoldNone(w, i);
    ScanSkip(w, i, ScanFrom(w, i + 1));
  }

  /** `ScanCons` applied to the scan itself. */
  lemma ScanConsStep(w: seq<Option<nat>>, i: nat, e: nat)
    requires WellFormed(w) && i < |w| && w[i] == Some(e)
    requires IsScan(w, e + 1, ScanFrom(w, e + 1))
    ensures IsScan(w, i, ScanFrom(w, i))
  {
    UnfoldSome(w, i, e);
    ScanCons(w, i, e, ScanFrom(w, e + 1));
  }

  /** The scan is the only span list with the properties of `IsScan`. */
  lemma {:induction false} ScanUnique(w: seq<Option<nat>>, from: nat, spans: seq<Span>)
    requires WellFormed(w)
    requires IsScan(w, from, spans)
    ensures spans == ScanFrom(w, from)
    decreases |w| - from
  {
    if from >= |w| {
      InRangeNonEmpty(|w|, from, spans);
    } else {
      match w[from]
      case None =>
        UniqueSkip(w, from, spans);
        ScanUnique(w, from + 1, spans);
        UnfoldNone(w, from);
      case Some(e) =>
        var rest := UniqueCons(w, from, e, spans);
        ScanUnique(w, e + 1, rest);
        UnfoldSome(w, from, e);
    }
  }

  /** Spans in range exist only when there is room for them. */
  lemma InRangeNonEmpty(n: nat, from: nat, spans: seq<Span>)
    requires InRange(n, from, spans)
    ensures |spans| > 0 ==> from < n
  {
    if |spans| > 0 {
      assert from <= spans[0].start < n;
    }
  }

  /** A start that yields nothing is not the start of any span of a scan. */
  lemma UniqueSkip(w: seq<Option<nat>>, from: nat, spans: seq<Span>)
    requires from < |w| && w[from].None?
    requires IsScan(w, from, spans)
    ensures IsScan(w, from + 1, spans)
  {
    forall t | 0 <= t < |spans| ensures spans[t].start != from {
      assert w[spans[t].start].Some?;
    }
  }

  /** A start that yields a span is the first span of a scan; the others form the scan after it. */
  lemma UniqueCons(w: seq<Option<nat>>, from: nat, e: nat, spans: seq<Span>)
    returns (rest: seq<Span>)
    requires from < |w| && w[from] == Some(e)
    requires IsScan(w, from, spans)
    ensures spans == [Span(from, e)] + rest
    ensures IsScan(w, e + 1, rest)
  {
    FirstSpan(w, from, e, spans);
    rest := spans[1..];
    HeadTail(spans);
    ScanTail(w, from, spans);
  }

  /** A nonempty list is its first element followed by the others. */
  lemma HeadTail(spans: seq<Span>)
    requires |spans| > 0
    ensures spans == [spans[0]] + spans[1..]
  {
  }

  /** The span covering a start that yields a span is the first one, and it is the walk's span. */
  lemma FirstSpan(w: seq<Option<nat>>, from: nat, e: nat, spans: seq<Span>)
    requires from < |w| && w[from] == Some(e)
    requires IsScan(w, from, spans)
    ensures |spans| > 0 && spans[0] == Span(from, e)
  {
    assert Covered(spans, from);
    var t :| 0 <= t < |spans| && spans[t].start <= from <= spans[t].end;
    forall u | 0 < u < |spans| ensures spans[u].start > from {
      assert spans[0].end < spans[u].start;
    }
  }

  /** Dropping the first span of a scan leaves a scan from after its end. */
  lemma ScanTail(w: seq<Option<nat>>, from: nat, spans: seq<Span>)
    requires IsScan(w, from, spans) && |spans| > 0
    ensures IsScan(w, spans[0].end + 1, spans[1..])
  {
    var e := spans[0].end;
    var rest := spans[1..];
    assert forall u :: 0 <= u < |rest| ==> rest[u] == spans[u + 1];
    forall p | e + 1 <= p < |w| && w[p].Some? ensures Covered(rest, p) {
      assert Covered(spans, p);
      var u :| 0 <= u < |spans| && spans[u].start <= p <= spans[u].end;
      assert u > 0;
      assert 0 <= u - 1 < |rest| && rest[u - 1].start <= p <= rest[u - 1].end;
    }
    assert InRange(|w|, e + 1, rest);
    assert Ordered(rest);
  }

  /** The scan yields a span exactly when the walk at some start finds one. */
  lemma ScanNonEmptyIff(w: seq<Option<nat>>)
    requires WellFormed(w)
    ensures ScanFrom(w, 0) != [] <==> exists p :: 0 <= p < |w| && w[p].Some?
  {
    var r := ScanFrom(w, 0);
    ScanIsScan(w, 0);
    if r != [] {
      assert w[r[0].start].Some?;
    }
    if exists p :: 0 <= p < |w| && w[p].Some? {
      var p :| 0 <= p < |w| && w[p].Some?;
      assert Covered(r, p);
    }
  }

  /** The scan from a start that yields nothing is the scan from the next start. */
  lemma UnfoldNone(w: seq<Option<nat>>, i: nat)
    requires WellFormed(w) && i < |w| && w[i].None?
    ensures ScanFrom(w, i) == ScanFrom(w, i + 1)
  {
  }

  /** The scan from a start that yields a span is that span, then the scan after its end. */
  lemma UnfoldSome(w: seq<Option<nat>>, i: nat, e: nat)
    requires WellFormed(w) && i < |w| && w[i] == Some(e)
    ensures ScanFrom(w, i) == [Span(i, e)] + ScanFrom(w, e + 1)
  {
  }

  /** Stepping over a start that yields nothing keeps `all` split into the spans found so far and the rest of the scan. */
  lemma ScanPastNone(w: seq<Option<nat>>, all: seq<Span>, found: seq<Span>, i: nat)
    requires WellFormed(w) && i < |w| && w[i].None?
    requires all == found + ScanFrom(w, i)
    ensures all == found + ScanFrom(w, i + 1)
  {
  }

  /** Taking the span found at `i` moves it from the rest of the scan to the spans found so far. */
  lemma ScanPastSome(w: seq<Option<nat>>, all: seq<Span>, found: seq<Span>, i: nat, e: nat)
    requires WellFormed(w) && i < |w| && w[i] == Some(e)
    requires all == found + ScanFrom(w, i)
    ensures all == (found + [Span(i, e)]) + ScanFrom(w, e + 1)
  {
    var rest := ScanFrom(w, e + 1);
    assert ScanFrom(w, i) == [Span(i, e)] + rest;
    assert found + ([Span(i, e)] + rest) == (found + [Span(i, e)]) + rest;
  }

  /** Appending a span after all earlier ones adds exactly its positions to the covered ones. */
  lemma CoveredAppend(found: seq<Span>, span: Span, k: nat)
    requires forall t :: 0 <= t < |found| ==> found[t].end < span.start
    ensures Covered(found + [span], k) <==> Covered(found, k) || span.start <= k <= span.end
  {
    var all := found + [span];
    if Covered(found, k) {
      var t :| 0 <= t < |found| && found[t].start <= k <= found[t].end;
      assert all[t] == found[t];
    }
    if span.start <= k <= span.end {
      assert all[|found|] == span;
    }
    if Covered(all, k) {
      var t :| 0 <= t < |all| && all[t].start <= k <= all[t].end;
      if t < |found| {
        assert all[t] == found[t];
      }
    }
  }
}
