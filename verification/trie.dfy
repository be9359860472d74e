/**
 * The dictionary tree of `Badword`: a prefix tree over text units whose
 * nodes carry an explicit end-of-phrase flag instead of the source's
 * reserved `'end'` key.
 */
module Trie {
  import opened Wrappers

  /** One Unicode scalar value, the alphabet of the tree. */
  type Unit = char

  /** A node: its outgoing edges and whether a phrase ends here. */
  datatype Node = Node(children: map<Unit, Node>, terminal: bool)

  /** The tree `loadData` starts from. */
  const Empty: Node := Node(map[], false)

  /** The node reached by following `w` edge by edge from `n`, if every edge exists. */
  function Follow(n: Node, w: seq<Unit>): Option<Node>
    decreases |w|
  {
    if |w| == 0 then Some(n)
    else if w[0] in n.children then Follow(n.children[w[0]], w[1..])
    else None
  }

  /** `w` is a phrase of the tree rooted at `n`: its path exists and ends on a marked node. */
  predicate Contains(n: Node, w: seq<Unit>)
  {
    Follow(n, w).Some? && Follow(n, w).value.terminal
  }

  predicate IsPrefix(p: seq<Unit>, w: seq<Unit>)
  {
    |p| <= |w| && w[..|p|] == p
  }

  /**
   * `addWords`: walk `w` one unit at a time, creating missing children,
   * and mark the last node reached.
   */
  function Insert(n: Node, w: seq<Unit>): (r: Node)
    ensures Contains(r, w)
    ensures n.children.Keys <= r.children.Keys
    decreases |w|
  {
    if |w| == 0 then n.(terminal := true)
    else
      var child := if w[0] in n.children then n.children[w[0]] else Empty;
      n.(children := n.children[w[0] := Insert(child, w[1..])])
  }

  /** After inserting `w`, the phrases are exactly the old ones plus `w`. */
  lemma {:induction false} InsertContains(n: Node, w: seq<Unit>, p: seq<Unit>)
    ensures Contains(Insert(n, w), p) <==> Contains(n, p) || p == w
    decreases |p|
  {
    if |p| > 0 && |w| > 0 && p[0] == w[0] {
      var child := if w[0] in n.children then n.children[w[0]] else Empty;
      InsertContains(child, w[1..], p[1..]);
      assert p == w <==> p[1..] == w[1..] by {
        if p[1..] == w[1..] { assert p == [p[0]] + p[1..] && w == [w[0]] + w[1..]; }
      }
    }
  }

  /** After inserting `w`, the paths are exactly the old ones plus the prefixes of `w`. */
  lemma {:induction false} InsertPaths(n: Node, w: seq<Unit>, p: seq<Unit>)
    ensures Follow(Insert(n, w), p).Some? <==> Follow(n, p).Some? || IsPrefix(p, w)
    decreases |p|
  {
    if |p| > 0 && |w| > 0 && p[0] == w[0] {
      var child := if w[0] in n.children then n.children[w[0]] else Empty;
      InsertPaths(child, w[1..], p[1..]);
      assert IsPrefix(p, w) <==> IsPrefix(p[1..], w[1..]) by {
        if |p| <= |w| {
          assert w[..|p|] == [w[0]] + w[1..][..|p| - 1];
          assert p == [p[0]] + p[1..];
        }
      }
    } else if |p| > 0 && |w| > 0 {
      assert !IsPrefix(p, w) by { assert |p| > |w| || w[..|p|][0] != p[0]; }
    }
  }

  /** Inserting a phrase that is already present changes nothing. */
  lemma {:induction false} InsertPresent(n: Node, w: seq<Unit>)
    requires Contains(n, w)
    ensures Insert(n, w) == n
    decreases |w|
  {
    if |w| > 0 {
      InsertPresent(n.children[w[0]], w[1..]);
      assert n.children[w[0] := n.children[w[0]]] == n.children;
    }
  }

  /** `addWords` is idempotent. */
  lemma InsertIdempotent(n: Node, w: seq<Unit>)
    ensures Insert(Insert(n, w), w) == Insert(n, w)
  {
    InsertPresent(Insert(n, w), w);
  }

  /** The empty phrase only marks the node it starts from; no edge changes. */
  lemma InsertEmptyPhrase(n: Node)
    ensures Insert(n, []).children == n.children
    ensures Insert(n, []).terminal
  {
  }
}
