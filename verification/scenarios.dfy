/** Worked examples of the walk and the scan on small dictionaries. */
module Scenarios {
  import opened Wrappers
  import opened Trie
  import opened Walk
  import opened Scan
  import opened Matcher

  /** The tree holding the single phrase "abc". */
  lemma TreeAbc()
    ensures Insert(Empty, "abc")
            == Node(map['a' := Node(map['b' := Node(map['c' := Node(map[], true)], false)], false)], false)
  {
    assert "abc"[1..] == "bc" && "bc"[1..] == "c" && "c"[1..] == "";
  }

  /** Two fillers inside "abc" are tolerated with a skip distance of 2. */
  lemma GapOfTwoFound()
    ensures Spans(Insert(Empty, "abc"), "a1b2c", MaxDistance(2)) == [Span(0, 4)]
  {
    TreeAbc();
    var c := Node(map[], true);
    var b := Node(map['c' := c], false);
    var a := Node(map['b' := b], false);
    var s := "a1b2c";
    assert LastEnd(c, s, 5, 2, 3) == None;
    assert LastEnd(b, s, 4, 2, 3) == Some(4);
    assert LastEnd(b, s, 3, 1, 3) == Some(4);
    assert LastEnd(a, s, 2, 1, 3) == Some(4);
    assert LastEnd(a, s, 1, 0, 3) == Some(4);
    var w := Outcomes(Insert(Empty, "abc"), s, 3);
    assert w == [Some(4), None, None, None, None];
  }

  /** The second filler exhausts a skip distance of 1 before 'c' is reached. */
  lemma GapOfOneMissed()
    ensures Spans(Insert(Empty, "abc"), "a1b2c", MaxDistance(1)) == []
  {
    TreeAbc();
    var c := Node(map[], true);
    var b := Node(map['c' := c], false);
    var a := Node(map['b' := b], false);
    var s := "a1b2c";
    assert LastEnd(b, s, 4, 2, 2) == None;
    assert LastEnd(b, s, 3, 1, 2) == None;
    assert LastEnd(a, s, 2, 1, 2) == None;
    assert LastEnd(a, s, 1, 0, 2) == None;
    var w := Outcomes(Insert(Empty, "abc"), s, 2);
    assert w == [None, None, None, None, None];
  }

  /** The walk keeps going after "ab" and records the end of the longer phrase "abc". */
  lemma LongestWins()
    ensures Spans(Insert(Insert(Empty, "ab"), "abc"), "xabcx", MaxDistance(0)) == [Span(1, 3)]
  {
    var c := Node(map[], true);
    var b := Node(map['c' := c], true);
    var a := Node(map['b' := b], false);
    assert "ab"[1..] == "b" && "b"[1..] == "" && "abc"[1..] == "bc" && "bc"[1..] == "c" && "c"[1..] == "";
    var leaf := Node(map[], true);
    var t1 := Node(map['a' := Node(map['b' := leaf], false)], false);
    assert Insert(Empty, "ab") == t1;
    assert Insert(leaf, "c") == b;
    assert Insert(Node(map['b' := leaf], false), "bc") == a;
    assert Insert(t1, "abc") == Node(map['a' := a], false);
    var s := "xabcx";
    assert LastEnd(c, s, 4, 0, 1) == None;
    assert LastEnd(b, s, 3, 0, 1) == Some(3);
    assert LastEnd(a, s, 2, 0, 1) == Some(3);
    var w := Outcomes(Insert(Insert(Empty, "ab"), "abc"), s, 1);
    assert w == [None, Some(3), None, None, None];
    assert ScanFrom(w, 4) == [];
    assert ScanFrom(w, 1) == [Span(1, 3)];
  }

  /** A one-unit phrase is never matched, even in a text that is exactly that unit. */
  lemma SingleUnitIgnored()
    ensures Spans(Insert(Empty, "a"), "a", MaxDistance(0)) == []
  {
    assert "a"[1..] == "";
    var leaf := Node(map[], true);
    assert Insert(Empty, "a") == Node(map['a' := leaf], false);
    assert LastEnd(leaf, "a", 1, 0, 1) == None;
    var w := Outcomes(Insert(Empty, "a"), "a", 1);
    assert w == [None];
    assert ScanFrom(w, 1) == [];
  }

  /**
   * The walk is greedy and never backtracks: in "abc" it follows 'b' towards
   * "abd" and so never reads 'b' as the filler of "a_c", although one filler
   * is within a skip distance of 1.
   */
  lemma GreedyWalkMissesGap()
    ensures Spans(Insert(Insert(Empty, "abd"), "ac"), "abc", MaxDistance(1)) == []
  {
    var leaf := Node(map[], true);
    var b := Node(map['d' := leaf], false);
    var a := Node(map['b' := b, 'c' := leaf], false);
    assert "abd"[1..] == "bd" && "bd"[1..] == "d" && "d"[1..] == "" && "ac"[1..] == "c" && "c"[1..] == "";
    var t1 := Node(map['a' := Node(map['b' := b], false)], false);
    assert Insert(Empty, "abd") == t1;
    assert Insert(Node(map['b' := b], false), "c") == a;
    assert Insert(t1, "ac") == Node(map['a' := a], false);
    var s := "abc";
    assert LastEnd(b, s, 3, 1, 2) == None;
    assert LastEnd(b, s, 2, 0, 2) == None;
    assert LastEnd(a, s, 1, 0, 2) == None;
    var w := Outcomes(Insert(Insert(Empty, "abd"), "ac"), s, 2);
    assert w == [None, None, None];
    assert ScanFrom(w, 3) == [];
    assert ScanFrom(w, 2) == [];
    assert ScanFrom(w, 1) == [];
    assert ScanFrom(w, 0) == [];
  }
}
