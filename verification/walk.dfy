/**
 * The skip-tolerant walk shared by `filter` and `match_badword`: starting
 * below the root edge of the first unit, each later unit either follows an
 * edge or counts as a miss that leaves the current node where it is; the
 * walk stops when the text ends or the misses reach the allowed distance.
 */
module Walk {
  import opened Wrappers
  import opened Trie

  /** `max($skipDistance, 0) + 1`: the number of misses that ends a walk. */
  function MaxDistance(skipDistance: int): nat
  {
    if skipDistance < 0 then 1 else skipDistance + 1
  }

  /**
   * The walk of `filter`: from `node`, having seen `dist` misses, it scans
   * `s` from position `j` and yields the LAST position at which it stepped
   * onto an end-marked node, or `None` when it stepped onto none.
   */
  function LastEnd(node: Node, s: seq<Unit>, j: nat, dist: nat, maxDist: nat): (r: Option<nat>)
    ensures r.Some? ==> j <= r.value < |s| && dist < maxDist
    decreases |s| - j
  {
    if j >= |s| || dist >= maxDist then None
    else if s[j] !in node.children then LastEnd(node, s, j + 1, dist + 1, maxDist)
    else
      var next := node.children[s[j]];
      var later := LastEnd(next, s, j + 1, dist, maxDist);
      if later.Some? then later
      else if next.terminal then Some(j)
      else None
  }

  /** The walk of `match_badword`: true as soon as it steps onto an end-marked node. */
  function FirstHit(node: Node, s: seq<Unit>, j: nat, dist: nat, maxDist: nat): bool
    decreases |s| - j
  {
    if j >= |s| || dist >= maxDist then false
    else if s[j] !in node.children then FirstHit(node, s, j + 1, dist + 1, maxDist)
    else
      var next := node.children[s[j]];
      next.terminal || FirstHit(next, s, j + 1, dist, maxDist)
  }

  /** Stopping at the first end mark and remembering the last one agree on whether there is one. */
  lemma {:induction false} FirstHitIffLastEnd(node: Node, s: seq<Unit>, j: nat, dist: nat, maxDist: nat)
    ensures FirstHit(node, s, j, dist, maxDist) <==> LastEnd(node, s, j, dist, maxDist).Some?
    decreases |s| - j
  {
    if j < |s| && dist < maxDist {
      if s[j] !in node.children {
        FirstHitIffLastEnd(node, s, j + 1, dist + 1, maxDist);
      } else {
        FirstHitIffLastEnd(node.children[s[j]], s, j + 1, dist, maxDist);
      }
    }
  }

  /** The walk reads only positions from `j` on: texts that agree there give the same walk. */
  lemma {:induction false} LastEndAgree(node: Node, s: seq<Unit>, t: seq<Unit>, j: nat, dist: nat, maxDist: nat)
    requires |s| == |t|
    requires forall k :: j <= k < |s| ==> s[k] == t[k]
    ensures LastEnd(node, s, j, dist, maxDist) == LastEnd(node, t, j, dist, maxDist)
    decreases |s| - j
  {
    if j < |s| && dist < maxDist {
      if s[j] !in node.children {
        LastEndAgree(node, s, t, j + 1, dist + 1, maxDist);
      } else {
        LastEndAgree(node.children[s[j]], s, t, j + 1, dist, maxDist);
      }
    }
  }

  /**
   * A larger miss budget still records an end wherever the smaller one
   * records one, and that end is never earlier (it may be later).
   */
  lemma {:induction false} LastEndMonotone(node: Node, s: seq<Unit>, j: nat, dist: nat, maxDist: nat, maxDist': nat)
    requires maxDist <= maxDist'
    requires LastEnd(node, s, j, dist, maxDist).Some?
    ensures LastEnd(node, s, j, dist, maxDist').Some?
    ensures LastEnd(node, s, j, dist, maxDist).value <= LastEnd(node, s, j, dist, maxDist').value
    decreases |s| - j
  {
    if s[j] !in node.children {
      LastEndMonotone(node, s, j + 1, dist + 1, maxDist, maxDist');
    } else {
      var next := node.children[s[j]];
      if LastEnd(next, s, j + 1, dist, maxDist).Some? {
        LastEndMonotone(next, s, j + 1, dist, maxDist, maxDist');
      }
    }
  }

  /** The units at positions `j..e` (inclusive) spell a phrase of the tree at `node`. */
  predicate PhraseAt(node: Node, s: seq<Unit>, j: nat, e: nat)
  {
    j <= e < |s| && Contains(node, s[j..e + 1])
  }

  /** A phrase read contiguously from position `j` takes its first edge out of `node`. */
  lemma PhraseAtStep(node: Node, s: seq<Unit>, j: nat, e: nat)
    requires j <= e < |s|
    ensures PhraseAt(node, s, j, e) <==>
            s[j] in node.children && (if e == j then node.children[s[j]].terminal
                                      else PhraseAt(node.children[s[j]], s, j + 1, e))
  {
    var w := s[j..e + 1];
    assert w[0] == s[j];
    assert w[1..] == s[j + 1..e + 1];
    if s[j] in node.children {
      assert Follow(node, w) == Follow(node.children[s[j]], w[1..]);
      if e == j {
        assert w[1..] == [];
      }
    }
  }

  /**
   * With a budget of one miss (`skipDistance <= 0`) the first unit without an
   * edge ends the walk, so it finds exactly the longest phrase read
   * contiguously from `j`.
   */
  lemma {:induction false} ContiguousWalk(node: Node, s: seq<Unit>, j: nat)
    ensures var r := LastEnd(node, s, j, 0, 1);
            && (r.Some? ==> PhraseAt(node, s, j, r.value)
                            && forall e :: r.value < e ==> !PhraseAt(node, s, j, e))
            && (r.None? ==> forall e :: !PhraseAt(node, s, j, e))
    decreases |s| - j
  {
    if j < |s| {
      forall e | j <= e < |s| ensures PhraseAt(node, s, j, e) <==>
            s[j] in node.children && (if e == j then node.children[s[j]].terminal
                                      else PhraseAt(node.children[s[j]], s, j + 1, e)) {
        PhraseAtStep(node, s, j, e);
      }
      if s[j] in node.children {
        ContiguousWalk(node.children[s[j]], s, j + 1);
      }
    }
  }

  /** Below an edge `u`, the phrases are those of the parent that start with `u`, minus `u`. */
  lemma ContainsChild(node: Node, u: Unit, v: seq<Unit>)
    requires u in node.children
    ensures Contains(node, [u] + v) <==> Contains(node.children[u], v)
  {
    assert ([u] + v)[0] == u && ([u] + v)[1..] == v;
  }

  /**
   * A walk checks the end mark only of nodes it steps ONTO, never of the
   * node it starts from: when no phrase of at least one unit ends below
   * `node`, the walk finds nothing.
   */
  lemma {:induction false} WalkIgnoresStartMark(node: Node, s: seq<Unit>, j: nat, dist: nat, maxDist: nat)
    requires forall v :: Contains(node, v) ==> |v| == 0
    ensures LastEnd(node, s, j, dist, maxDist).None?
    decreases |s| - j
  {
    if j < |s| && dist < maxDist {
      if s[j] !in node.children {
        WalkIgnoresStartMark(node, s, j + 1, dist + 1, maxDist);
      } else {
        var next := node.children[s[j]];
        forall v ensures !Contains(next, v) {
          ContainsChild(node, s[j], v);
        }
        assert !Contains(next, []) && Follow(next, []) == Some(next);
        WalkIgnoresStartMark(next, s, j + 1, dist, maxDist);
      }
    }
  }

  /**
   * `v` occurs in `s` at the strictly increasing positions `ix`: the units
   * at those positions spell `v`, and anything between them is filler.
   */
  predicate Embedded(s: seq<Unit>, v: seq<Unit>, ix: seq<nat>)
  {
    && |ix| == |v|
    && (forall t :: 0 <= t < |ix| ==> ix[t] < |s| && s[ix[t]] == v[t])
    && (forall t :: 0 < t < |ix| ==> ix[t - 1] < ix[t])
  }

  /** A unit read before an occurrence extends it at the front. */
  lemma EmbedsCons(s: seq<Unit>, v: seq<Unit>, ix: seq<nat>, i: nat)
    requires Embedded(s, v, ix) && i < |s|
    requires |ix| > 0 ==> i < ix[0]
    ensures Embedded(s, [s[i]] + v, [i] + ix)
  {
    var v', ix' := [s[i]] + v, [i] + ix;
    assert forall t :: 0 < t < |ix'| ==> ix'[t] == ix[t - 1] && v'[t] == v[t - 1];
  }

  /**
   * Every end the walk records is the end of a phrase of the tree at
   * `node`, spelled by the units the walk stepped on: it starts at or after
   * `j`, ends at the recorded position, and the units skipped in between
   * are fewer than the misses still allowed.
   */
  lemma {:induction false} LastEndSound(node: Node, s: seq<Unit>, j: nat, dist: nat, maxDist: nat)
    returns (v: seq<Unit>, ix: seq<nat>)
    requires LastEnd(node, s, j, dist, maxDist).Some?
    ensures var e := LastEnd(node, s, j, dist, maxDist).value;
            && Contains(node, v) && |v| >= 1 && Embedded(s, v, ix)
            && j <= ix[0] && ix[|ix| - 1] == e
            && (e + 1 - j) - |v| + dist < maxDist
    decreases |s| - j
  {
    if s[j] !in node.children {
      v, ix := LastEndSound(node, s, j + 1, dist + 1, maxDist);
    } else {
      var next := node.children[s[j]];
      ContainsChild(node, s[j], []);
      if LastEnd(next, s, j + 1, dist, maxDist).Some? {
        var v', ix' := LastEndSound(next, s, j + 1, dist, maxDist);
        ContainsChild(node, s[j], v');
        EmbedsCons(s, v', ix', j);
        v, ix := [s[j]] + v', [j] + ix';
      } else {
        assert [s[j]] + [] == [s[j]];
        EmbedsCons(s, [], [], j);
        v, ix := [s[j]], [j];
      }
    }
  }

  /** The walk never reads the end mark of the node it starts from. */
  lemma {:induction false} TerminalIgnored(node: Node, b: bool, s: seq<Unit>, j: nat, dist: nat, maxDist: nat)
    ensures LastEnd(node.(terminal := b), s, j, dist, maxDist) == LastEnd(node, s, j, dist, maxDist)
    decreases |s| - j
  {
    if j < |s| && dist < maxDist && s[j] !in node.children {
      TerminalIgnored(node, b, s, j + 1, dist + 1, maxDist);
    }
  }

  // ---------------------------------------------------------------------
  // Step-by-step reference semantics of the walk loop
  // ---------------------------------------------------------------------

  /** The loop's state: the current node and the misses counted so far. */
  datatype Cursor = Cursor(node: Node, misses: nat)

  /** One iteration: follow the edge of `u` if there is one, else count a miss and stay put. */
  function Step(c: Cursor, u: Unit): Cursor
  {
    if u in c.node.children then Cursor(c.node.children[u], c.misses)
    else Cursor(c.node, c.misses + 1)
  }

  /** The state just before position `k`, when the walk started at `j` in state `c0`. */
  function CursorAt(c0: Cursor, s: seq<Unit>, j: nat, k: nat): Cursor
    requires j <= k <= |s|
    decreases k - j
  {
    if k == j then c0 else Step(CursorAt(c0, s, j, k - 1), s[k - 1])
  }

  /** Position `k` is examined by the walk: the text has not ended and the misses are below the limit. */
  predicate Examined(c0: Cursor, s: seq<Unit>, j: nat, maxDist: nat, k: nat)
  {
    j <= k < |s| && CursorAt(c0, s, j, k).misses < maxDist
  }

  /** At position `k` the walk steps onto an end-marked node. */
  predicate TerminalAt(c0: Cursor, s: seq<Unit>, j: nat, maxDist: nat, k: nat)
  {
    && Examined(c0, s, j, maxDist, k)
    && s[k] in CursorAt(c0, s, j, k).node.children
    && CursorAt(c0, s, j, k).node.children[s[k]].terminal
  }

  /** Misses never decrease along the walk: a later position has at least as many as an earlier one. */
  lemma {:induction false} MissesGrow(c0: Cursor, s: seq<Unit>, j: nat, k: nat, k': nat)
    requires j <= k <= k' <= |s|
    ensures CursorAt(c0, s, j, k).misses <= CursorAt(c0, s, j, k').misses
    decreases k' - k
  {
    if k' > k {
      MissesGrow(c0, s, j, k, k' - 1);
    }
  }

  /** Taking the first step by hand and starting one position later reaches the same state. */
  lemma {:induction false} CursorShift(c0: Cursor, s: seq<Unit>, j: nat, k: nat)
    requires j < k <= |s|
    ensures CursorAt(c0, s, j, k) == CursorAt(Step(c0, s[j]), s, j + 1, k)
    decreases k - j
  {
    if k > j + 1 {
      CursorShift(c0, s, j, k - 1);
    }
  }

  /**
   * `LastEnd` is the position of the last end-marked node the step-by-step
   * walk reaches, and `None` exactly when it reaches none.
   */
  lemma {:induction false} LastEndIsLastTerminal(node: Node, s: seq<Unit>, j: nat, dist: nat, maxDist: nat)
    ensures var c0 := Cursor(node, dist); var r := LastEnd(node, s, j, dist, maxDist);
            && (r.Some? ==> TerminalAt(c0, s, j, maxDist, r.value)
                            && forall k :: r.value < k < |s| ==> !TerminalAt(c0, s, j, maxDist, k))
            && (r.None? ==> forall k :: j <= k < |s| ==> !TerminalAt(c0, s, j, maxDist, k))
    decreases |s| - j
  {
    var c0 := Cursor(node, dist);
    if j >= |s| {
    } else if dist >= maxDist {
      forall k | j <= k < |s| ensures !Examined(c0, s, j, maxDist, k) {
        MissesGrow(c0, s, j, j, k);
      }
    } else {
      var c1 := Step(c0, s[j]);
      LastEndIsLastTerminal(c1.node, s, j + 1, c1.misses, maxDist);
      forall k | j < k < |s|
        ensures TerminalAt(c0, s, j, maxDist, k) <==> TerminalAt(c1, s, j + 1, maxDist, k)
      {
        CursorShift(c0, s, j, k);
      }
      assert CursorAt(c0, s, j, j) == c0;
    }
  }

  /**
   * The inner `for ($j ...)` loop of `filter`, run from the node below the
   * first unit at position `start`. It returns what the loop leaves in
   * `$matchIndex['end']`, plus the final `$j` and `$dist`.
   */
  method FuzzyWalk(first: Node, strArr: seq<Unit>, start: nat, maxDistance: nat)
    returns (end: Option<nat>, j: nat, dist: nat)
    requires start < |strArr|
    ensures end == LastEnd(first, strArr, start + 1, 0, maxDistance)
    ensures start + 1 <= j <= |strArr|
    ensures dist == CursorAt(Cursor(first, 0), strArr, start + 1, j).misses
    ensures dist <= maxDistance
    ensures j == |strArr| || dist == maxDistance
  {
    var curNode := first;
    dist := 0;
    end := None;
    j := start + 1;
    while j < |strArr| && dist < maxDistance
      invariant start + 1 <= j <= |strArr|
      invariant dist <= maxDistance
      invariant Cursor(curNode, dist) == CursorAt(Cursor(first, 0), strArr, start + 1, j)
      invariant LastEnd(first, strArr, start + 1, 0, maxDistance)
                == Later(end, LastEnd(curNode, strArr, j, dist, maxDistance))
      decreases |strArr| - j
    {
      if strArr[j] !in curNode.children {
        dist := dist + 1;
        j := j + 1;
        continue;
      }
      curNode := curNode.children[strArr[j]];
      if curNode.terminal {
        end := Some(j);
      }
      j := j + 1;
    }
  }

  /** The later of a remembered end and whatever the rest of the walk finds. */
  function Later(best: Option<nat>, rest: Option<nat>): Option<nat>
  {
    if rest.Some? then rest else best
  }
}
