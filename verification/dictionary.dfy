/**
 * The cache-free branch of `Badword::loadData`: every entry of the list is
 * trimmed and inserted, in order, into a fresh tree.
 */
module Dictionary {
  import opened Wrappers
  import opened Trie

  /** The only error of this entry point: the list itself is empty. */
  datatype LoadError = EmptyDictionary

  /** The characters PHP's `trim` strips by default: space, tab, LF, CR, NUL and vertical tab. */
  predicate IsTrimChar(c: char)
  {
    c == ' ' || c == '\t' || c == '\n' || c == '\r' || c == '\0' || c == '\U{B}'
  }

  /**
   * `r` is `w` without its leading run of trim characters: a suffix of `w`,
   * everything dropped is a trim character, and `r` does not start with one.
   */
  predicate LeftTrimmed(w: string, r: string)
  {
    && |r| <= |w| && r == w[|w| - |r|..]
    && (forall k :: 0 <= k < |w| - |r| ==> IsTrimChar(w[k]))
    && (|r| > 0 ==> !IsTrimChar(r[0]))
  }

  /**
   * `r` is `w` without its trailing run of trim characters: a prefix of `w`,
   * everything dropped is a trim character, and `r` does not end with one.
   */
  predicate RightTrimmed(w: string, r: string)
  {
    && |r| <= |w| && r == w[..|r|]
    && (forall k :: |r| <= k < |w| ==> IsTrimChar(w[k]))
    && (|r| > 0 ==> !IsTrimChar(r[|r| - 1]))
  }

  /** Drops leading trim characters. */
  function TrimLeft(w: string): (r: string)
    ensures LeftTrimmed(w, r)
    decreases |w|
  {
    if |w| > 0 && IsTrimChar(w[0]) then TrimLeft(w[1..]) else w
  }

  /** Drops trailing trim characters. */
  function TrimRight(w: string): (r: string)
    ensures RightTrimmed(w, r)
    decreases |w|
  {
    if |w| > 0 && IsTrimChar(w[|w| - 1]) then TrimRight(w[..|w| - 1]) else w
  }

  /**
   * `r` is what remains of `w` after removing the first `a` units and the
   * units after position `a + |r|`: everything removed is a trim character,
   * and `r` neither starts nor ends with one.
   */
  predicate TrimmedFrom(w: string, a: nat, r: string)
  {
    && a + |r| <= |w| && r == w[a..a + |r|]
    && (forall k :: 0 <= k < a ==> IsTrimChar(w[k]))
    && (forall k :: a + |r| <= k < |w| ==> IsTrimChar(w[k]))
    && (|r| > 0 ==> !IsTrimChar(r[0]) && !IsTrimChar(r[|r| - 1]))
  }

  /** PHP's `trim`: strip the trim characters at both ends. */
  function Trim(w: string): (r: string)
    ensures exists a :: TrimmedFrom(w, a, r)
  {
    var left := TrimLeft(w);
    TrimSpec(w, left, TrimRight(left));
    TrimRight(left)
  }

  /** Trimming the left end, then the right end, removes exactly the runs of trim characters at both ends. */
  lemma TrimSpec(w: string, left: string, t: string)
    requires LeftTrimmed(w, left) && RightTrimmed(left, t)
    ensures TrimmedFrom(w, |w| - |left|, t)
  {
  }

  /** Inserts every phrase of `ws`, first to last, as the `foreach` of `loadData` does. */
  function InsertAll(n: Node, ws: seq<seq<Unit>>): Node
    decreases |ws|
  {
    if |ws| == 0 then n else InsertAll(Insert(n, ws[0]), ws[1..])
  }

  /** The phrases of the built tree are the old ones plus every inserted phrase. */
  lemma {:induction false} InsertAllContains(n: Node, ws: seq<seq<Unit>>, p: seq<Unit>)
    ensures Contains(InsertAll(n, ws), p) <==> Contains(n, p) || p in ws
    decreases |ws|
  {
    if |ws| > 0 {
      InsertAllContains(Insert(n, ws[0]), ws[1..], p);
      InsertContains(n, ws[0], p);
      assert ws == [ws[0]] + ws[1..];
    }
  }

  /** Inserting the same phrases again into the built tree changes nothing. */
  lemma {:induction false} InsertAllIdempotent(n: Node, ws: seq<seq<Unit>>)
    ensures InsertAll(InsertAll(n, ws), ws) == InsertAll(n, ws)
  {
    var t := InsertAll(n, ws);
    forall p | p in ws ensures Contains(t, p) {
      InsertAllContains(n, ws, p);
    }
    InsertAllPresent(t, ws);
  }

  lemma {:induction false} InsertAllPresent(n: Node, ws: seq<seq<Unit>>)
    requires forall p :: p in ws ==> Contains(n, p)
    ensures InsertAll(n, ws) == n
    decreases |ws|
  {
    if |ws| > 0 {
      InsertPresent(n, ws[0]);
      InsertAllPresent(n, ws[1..]);
    }
  }

  /** The paths of the built tree are the old ones plus every prefix of an inserted phrase. */
  lemma {:induction false} InsertAllPaths(n: Node, ws: seq<seq<Unit>>, p: seq<Unit>)
    ensures Follow(InsertAll(n, ws), p).Some? <==>
              Follow(n, p).Some? || exists k :: 0 <= k < |ws| && IsPrefix(p, ws[k])
    decreases |ws|
  {
    if |ws| > 0 {
      InsertAllPaths(Insert(n, ws[0]), ws[1..], p);
      InsertPaths(n, ws[0], p);
      if exists k :: 0 <= k < |ws| - 1 && IsPrefix(p, ws[1..][k]) {
        var k :| 0 <= k < |ws| - 1 && IsPrefix(p, ws[1..][k]);
        assert IsPrefix(p, ws[k + 1]);
      }
      if exists k :: 0 <= k < |ws| && IsPrefix(p, ws[k]) {
        var k :| 0 <= k < |ws| && IsPrefix(p, ws[k]);
        if k > 0 {
          assert IsPrefix(p, ws[1..][k - 1]);
        }
      }
    }
  }

  /** Every trimmed entry of `data`, in order. */
  function TrimAll(data: seq<string>): seq<string>
  {
    seq(|data|, k requires 0 <= k < |data| => Trim(data[k]))
  }

  /** The tree built from `data` holds exactly the trimmed entries. */
  lemma LoadedPhrases(data: seq<string>, p: seq<Unit>)
    ensures Contains(InsertAll(Empty, TrimAll(data)), p) <==> exists k :: 0 <= k < |data| && p == Trim(data[k])
  {
    var phrases := TrimAll(data);
    InsertAllContains(Empty, phrases, p);
    if p in phrases {
      var k :| 0 <= k < |phrases| && phrases[k] == p;
      assert p == Trim(data[k]);
    }
    if exists k :: 0 <= k < |data| && p == Trim(data[k]) {
      var k :| 0 <= k < |data| && p == Trim(data[k]);
      assert phrases[k] == p;
    }
  }

  /** The tree built from a nonempty `data` has exactly the paths that are prefixes of trimmed entries. */
  lemma LoadedPaths(data: seq<string>, p: seq<Unit>)
    requires |data| > 0
    ensures Follow(InsertAll(Empty, TrimAll(data)), p).Some? <==>
              exists k :: 0 <= k < |data| && IsPrefix(p, Trim(data[k]))
  {
    var phrases := TrimAll(data);
    InsertAllPaths(Empty, phrases, p);
    assert Follow(Empty, p).Some? <==> |p| == 0;
    if |p| == 0 {
      assert IsPrefix(p, Trim(data[0]));
    }
    if exists k :: 0 <= k < |phrases| && IsPrefix(p, phrases[k]) {
      var k :| 0 <= k < |phrases| && IsPrefix(p, phrases[k]);
      assert IsPrefix(p, Trim(data[k]));
    }
    if exists k :: 0 <= k < |data| && IsPrefix(p, Trim(data[k])) {
      var k :| 0 <= k < |data| && IsPrefix(p, Trim(data[k]));
      assert IsPrefix(p, phrases[k]);
    }
  }

  /**
   * `loadData($data, false)`: an empty list is refused; otherwise the result
   * is a fresh tree (the previous dictionary is discarded) whose phrases are
   * exactly the trimmed entries and whose paths are exactly their prefixes.
   */
  function LoadData(data: seq<string>): (r: Result<Node, LoadError>)
    ensures r.Failure? <==> |data| == 0
    ensures r.Success? ==>
      forall p :: Contains(r.value, p) <==> exists k :: 0 <= k < |data| && p == Trim(data[k])
    ensures r.Success? ==>
      forall p :: Follow(r.value, p).Some? <==> exists k :: 0 <= k < |data| && IsPrefix(p, Trim(data[k]))
  {
    if |data| == 0 then Failure(EmptyDictionary)
    else
      var t := InsertAll(Empty, TrimAll(data));
      assert forall p :: Contains(t, p) <==> exists k :: 0 <= k < |data| && p == Trim(data[k]) by {
        forall p ensures Contains(t, p) <==> exists k :: 0 <= k < |data| && p == Trim(data[k]) {
          LoadedPhrases(data, p);
        }
      }
      assert forall p :: Follow(t, p).Some? <==> exists k :: 0 <= k < |data| && IsPrefix(p, Trim(data[k])) by {
        forall p ensures Follow(t, p).Some? <==> exists k :: 0 <= k < |data| && IsPrefix(p, Trim(data[k])) {
          LoadedPaths(data, p);
        }
      }
      Success(t)
  }
}
