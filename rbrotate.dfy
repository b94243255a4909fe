/**
 * Rotations, stated once for both directions. `toLeft` is the direction in
 * which the pivot `x` goes down: `rotateleft` lifts its right child `s`,
 * `rotateright` its left child. A rotation rewrites the links of `x`, `s`,
 * the inner grandchild `b` that changes sides and the parent `P` of `x`; it
 * keeps every key, every other node, the node set and the in-order sequence.
 * Colours of `x` and `s` are left free here: the fixups recolour them as they
 * rotate, and the colour lemmas live with each fixup.
 */
module RBRotate {
  import opened RBNodes

  /** The link of `n` on side `left`. */
  function Link<K, V>(n: RBNode<K, V>, left: bool): int {
    if left then n.left else n.right
  }

  function SetLink<K, V>(n: RBNode<K, V>, left: bool, c: int): RBNode<K, V> {
    if left then n.(left := c) else n.(right := c)
  }

  /** `n` with the link that held `a` redirected to `b` (Go's `replaceparent` on one node). */
  function Redirect<K, V>(n: RBNode<K, V>, a: int, b: int): RBNode<K, V> {
    if n.left == a then n.(left := b) else n.(right := b)
  }

  /** Every slot keeps its key and its value. */
  ghost predicate SamePayload<K, V>(nodes: seq<RBNode<K, V>>, nodes': seq<RBNode<K, V>>) {
    |nodes'| == |nodes| && forall k :: 0 <= k < |nodes| ==> nodes'[k].key == nodes[k].key && nodes'[k].value == nodes[k].value
  }

  /**
   * `nodes'`/`root'` are `nodes`/`root` after rotating at `x` so that `x` goes
   * down on side `toLeft` (colours of `x` and `s` aside).
   */
  ghost predicate Rotated<K, V>(nodes: seq<RBNode<K, V>>, root: int, nodes': seq<RBNode<K, V>>, root': int, x: int, toLeft: bool) {
    && |nodes'| == |nodes|
    && 0 <= x < |nodes|
    && var s := Link(nodes[x], !toLeft);
    && 0 <= s < |nodes|
    && var b, P := Link(nodes[s], toLeft), nodes[x].parent;
    && nodes'[s] == SetLink(nodes[s], toLeft, x).(parent := P, color := nodes'[s].color)
    && nodes'[x] == SetLink(nodes[x], !toLeft, b).(parent := s, color := nodes'[x].color)
    && (b != NIL ==> 0 <= b < |nodes| && nodes'[b] == nodes[b].(parent := x))
    && (P != NIL ==> 0 <= P < |nodes| && nodes'[P] == Redirect(nodes[P], x, s))
    && root' == (if P == NIL then s else root)
    && (forall k :: 0 <= k < |nodes| && k != x && k != s && k != b && k != P ==> nodes'[k] == nodes[k])
  }

  /** The subtree sets after the rotation: only those of `x` and `s` change, and `s` takes over the set of `x`. */
  ghost function RotSub<K, V>(nodes: seq<RBNode<K, V>>, elems: set<int>, sub: map<int, set<int>>, x: int, toLeft: bool): map<int, set<int>>
    requires 0 <= x < |nodes| && 0 <= Link(nodes[x], !toLeft) < |nodes| && x in sub
  {
    var s := Link(nodes[x], !toLeft);
    var a, b := Link(nodes[x], toLeft), Link(nodes[s], toLeft);
    sub[x := SubOf(elems, sub, a) + {x} + SubOf(elems, sub, b)][s := sub[x]]
  }

  lemma RotatedPayload<K, V>(nodes: seq<RBNode<K, V>>, root: int, nodes': seq<RBNode<K, V>>, root': int, x: int, toLeft: bool)
    requires Rotated(nodes, root, nodes', root', x, toLeft)
    ensures SamePayload(nodes, nodes')
  {
  }

  /**
   * The neighbourhood of a rotation at `x`, as plain link facts: the lifted
   * child `s`, the grandchildren `a`, `b`, `c` and the parent `P` are tree
   * nodes (or nil) with consistent links, and no two of them coincide.
   */
  ghost predicate RotNeighbours<K, V>(nodes: seq<RBNode<K, V>>, root: int, elems: set<int>, ph: int, x: int, toLeft: bool) {
    && 0 <= x < |nodes|
    && var s := Link(nodes[x], !toLeft);
    && 0 <= s < |nodes|
    && var a, b, c, P := Link(nodes[x], toLeft), Link(nodes[s], toLeft), Link(nodes[s], !toLeft), nodes[x].parent;
    && NIL !in elems && ph !in elems && x in elems && s in elems
    && LinkAt(nodes, root, elems, ph, x) && LinkAt(nodes, root, elems, ph, s)
    && nodes[s].parent == x && s != x
    && a != x && a != s && b != x && b != s && c != x && c != s
    && (ph != NIL ==> b != ph)
    && (a in elems ==> LinkAt(nodes, root, elems, ph, a))
    && (b in elems ==> LinkAt(nodes, root, elems, ph, b))
    && (c in elems ==> LinkAt(nodes, root, elems, ph, c))
    && (P != NIL ==>
          && LinkAt(nodes, root, elems, ph, P)
          && P != s && P != a && P != b && P != c
          && nodes[P].parent != x && nodes[P].parent != s)
  }

  /** The subtree sets around the rotation: `x` over `a` and `s`, `s` over `b` and `c`. */
  ghost predicate RotSets<K, V>(nodes: seq<RBNode<K, V>>, elems: set<int>, sub: map<int, set<int>>, x: int, toLeft: bool) {
    && 0 <= x < |nodes|
    && var s := Link(nodes[x], !toLeft);
    && 0 <= s < |nodes|
    && var a, b, c := Link(nodes[x], toLeft), Link(nodes[s], toLeft), Link(nodes[s], !toLeft);
    var A, B, C := SubOf(elems, sub, a), SubOf(elems, sub, b), SubOf(elems, sub, c);
    && x in sub && s in sub && x in elems && s in elems
    && sub[x] == A + {x} + sub[s] && sub[s] == B + {s} + C
    && x !in A && x !in sub[s] && A !! sub[s] && s !in B && s !in C && B !! C
    && sub[x] <= elems
  }

  /** A tree state yields the neighbourhood facts of any rotation in it. */
  lemma RotateFacts<K, V>(nodes: seq<RBNode<K, V>>, root: int, elems: set<int>, sub: map<int, set<int>>, ph: int, x: int, toLeft: bool)
    requires Shape(nodes, root, elems, sub, ph)
    requires x in elems && Link(nodes[x], !toLeft) in elems
    requires ph != NIL ==> Link(nodes[Link(nodes[x], !toLeft)], toLeft) != ph
    ensures RotNeighbours(nodes, root, elems, ph, x, toLeft)
    ensures RotSets(nodes, elems, sub, x, toLeft)
  {
    RotateFactsSets(nodes, root, elems, sub, ph, x, toLeft);
    RotateFactsLinks(nodes, root, elems, sub, ph, x, toLeft);
  }

  lemma RotateFactsSets<K, V>(nodes: seq<RBNode<K, V>>, root: int, elems: set<int>, sub: map<int, set<int>>, ph: int, x: int, toLeft: bool)
    requires Shape(nodes, root, elems, sub, ph)
    requires x in elems && Link(nodes[x], !toLeft) in elems
    ensures RotSets(nodes, elems, sub, x, toLeft)
  {
    var s := Link(nodes[x], !toLeft);
    var a, b, c := Link(nodes[x], toLeft), Link(nodes[s], toLeft), Link(nodes[s], !toLeft);
    assert SubAt(nodes, elems, sub, x) by {
      assert ShapeAt(nodes, root, elems, sub, ph, x);
    }
    assert SubAt(nodes, elems, sub, s) by {
      assert ShapeAt(nodes, root, elems, sub, ph, s);
    }
    assert SubOf(elems, sub, s) == sub[s];
    if !toLeft {
      assert sub[x] == sub[s] + {x} + SubOf(elems, sub, a);
      assert sub[s] == SubOf(elems, sub, c) + {s} + SubOf(elems, sub, b);
    }
  }

  lemma RotateFactsLinks<K, V>(nodes: seq<RBNode<K, V>>, root: int, elems: set<int>, sub: map<int, set<int>>, ph: int, x: int, toLeft: bool)
    requires Shape(nodes, root, elems, sub, ph)
    requires x in elems && Link(nodes[x], !toLeft) in elems
    requires ph != NIL ==> Link(nodes[Link(nodes[x], !toLeft)], toLeft) != ph
    requires RotSets(nodes, elems, sub, x, toLeft)
    ensures RotNeighbours(nodes, root, elems, ph, x, toLeft)
  {
    var s := Link(nodes[x], !toLeft);
    var a, b, c, P := Link(nodes[x], toLeft), Link(nodes[s], toLeft), Link(nodes[s], !toLeft), nodes[x].parent;
    assert LinkAt(nodes, root, elems, ph, x) by {
      assert ShapeAt(nodes, root, elems, sub, ph, x);
    }
    assert LinkAt(nodes, root, elems, ph, s) by {
      assert ShapeAt(nodes, root, elems, sub, ph, s);
    }
    assert NIL !in elems;
    if a in elems {
      assert ShapeAt(nodes, root, elems, sub, ph, a);
    }
    if b in elems {
      assert ShapeAt(nodes, root, elems, sub, ph, b);
    }
    if c in elems {
      assert ShapeAt(nodes, root, elems, sub, ph, c);
    }
    if P != NIL {
      assert ShapeAt(nodes, root, elems, sub, ph, P);
      RotateParentApart(nodes, root, elems, sub, ph, x, toLeft);
    }
  }

  /** The parent of the pivot and its own parent lie outside the pivot's subtree. */
  lemma RotateParentApart<K, V>(nodes: seq<RBNode<K, V>>, root: int, elems: set<int>, sub: map<int, set<int>>, ph: int, x: int, toLeft: bool)
    requires Shape(nodes, root, elems, sub, ph)
    requires x in elems && Link(nodes[x], !toLeft) in elems && nodes[x].parent != NIL
    ensures var s := Link(nodes[x], !toLeft);
            var a, b, c, P := Link(nodes[x], toLeft), Link(nodes[s], toLeft), Link(nodes[s], !toLeft), nodes[x].parent;
            && P in elems && 0 <= P < |nodes|
            && P != s && P != a && P != b && P != c
            && nodes[P].parent != x && nodes[P].parent != s
  {
    var s := Link(nodes[x], !toLeft);
    var P := nodes[x].parent;
    ChildSubSmaller(nodes, root, elems, sub, ph, x);
    assert ShapeAt(nodes, root, elems, sub, ph, x);
    assert ShapeAt(nodes, root, elems, sub, ph, s);
    assert sub[s] <= sub[x];
    if P in sub[x] {
      Nested(nodes, root, elems, sub, ph, x, P);
      assert false;
    }
    var Q := nodes[P].parent;
    if Q != NIL {
      ChildSubSmaller(nodes, root, elems, sub, ph, P);
      if Q in sub[x] {
        Nested(nodes, root, elems, sub, ph, x, Q);
        assert false;
      }
    }
  }

  /** Nodes other than the pivot, the lifted child and the inner grandchild keep their parent link. */
  lemma RotatedParentKept<K, V>(nodes: seq<RBNode<K, V>>, root: int, nodes': seq<RBNode<K, V>>, root': int, x: int, toLeft: bool, k: int)
    requires Rotated(nodes, root, nodes', root', x, toLeft)
    requires 0 <= k < |nodes| && k != x && k != Link(nodes[x], !toLeft) && k != Link(nodes[Link(nodes[x], !toLeft)], toLeft)
    ensures nodes'[k].parent == nodes[k].parent
  {
  }

  /** Nodes other than the pivot, the lifted child and the pivot's parent keep their child links. */
  lemma RotatedLinksKept<K, V>(nodes: seq<RBNode<K, V>>, root: int, nodes': seq<RBNode<K, V>>, root': int, x: int, toLeft: bool, k: int)
    requires Rotated(nodes, root, nodes', root', x, toLeft)
    requires 0 <= k < |nodes| && k != x && k != Link(nodes[x], !toLeft) && k != nodes[x].parent
    ensures nodes'[k].left == nodes[k].left && nodes'[k].right == nodes[k].right && nodes'[k].valid == nodes[k].valid
  {
  }

  /** Away from the pivot and the lifted child, the subtree sets are unchanged. */
  lemma RotSubAway<K, V>(nodes: seq<RBNode<K, V>>, elems: set<int>, sub: map<int, set<int>>, x: int, toLeft: bool, k: int)
    requires 0 <= x < |nodes| && 0 <= Link(nodes[x], !toLeft) < |nodes| && x in sub
    requires k != x && k != Link(nodes[x], !toLeft)
    ensures SubOf(elems, RotSub(nodes, elems, sub, x, toLeft), k) == SubOf(elems, sub, k)
    ensures k in sub ==> k in RotSub(nodes, elems, sub, x, toLeft) && RotSub(nodes, elems, sub, x, toLeft)[k] == sub[k]
  {
  }

  // ---------------------------------------------------------------------------
  // Links after a rotation, one role at a time
  // ---------------------------------------------------------------------------

  lemma RotateLinkPivot<K, V>(nodes: seq<RBNode<K, V>>, root: int, elems: set<int>, ph: int,
                              nodes': seq<RBNode<K, V>>, root': int, x: int, toLeft: bool)
    requires RotNeighbours(nodes, root, elems, ph, x, toLeft)
    requires Rotated(nodes, root, nodes', root', x, toLeft)
    ensures LinkAt(nodes', root', elems, ph, x)
  {
    var s := Link(nodes[x], !toLeft);
    var a, b := Link(nodes[x], toLeft), Link(nodes[s], toLeft);
    if a in elems {
      RotatedParentKept(nodes, root, nodes', root', x, toLeft, a);
    }
    if toLeft {
      assert nodes'[x].left == a && nodes'[x].right == b && nodes'[s].left == x;
    } else {
      assert nodes'[x].left == b && nodes'[x].right == a && nodes'[s].right == x;
    }
  }

  lemma RotateLinkLifted<K, V>(nodes: seq<RBNode<K, V>>, root: int, elems: set<int>, ph: int,
                               nodes': seq<RBNode<K, V>>, root': int, x: int, toLeft: bool)
    requires RotNeighbours(nodes, root, elems, ph, x, toLeft)
    requires Rotated(nodes, root, nodes', root', x, toLeft)
    ensures LinkAt(nodes', root', elems, ph, Link(nodes[x], !toLeft))
  {
    var s := Link(nodes[x], !toLeft);
    var c, P := Link(nodes[s], !toLeft), nodes[x].parent;
    if c in elems {
      RotatedParentKept(nodes, root, nodes', root', x, toLeft, c);
    }
    if toLeft {
      assert nodes'[s].left == x && nodes'[s].right == c;
    } else {
      assert nodes'[s].left == c && nodes'[s].right == x;
    }
  }

  /** A node away from the pivot and the lifted child still hangs from its parent. */
  lemma RotateHangs<K, V>(nodes: seq<RBNode<K, V>>, root: int, elems: set<int>, ph: int,
                          nodes': seq<RBNode<K, V>>, root': int, x: int, toLeft: bool, i: int)
    requires RotNeighbours(nodes, root, elems, ph, x, toLeft)
    requires Rotated(nodes, root, nodes', root', x, toLeft)
    requires i in elems && LinkAt(nodes, root, elems, ph, i)
    requires i != x && i != Link(nodes[x], !toLeft) && i != Link(nodes[Link(nodes[x], !toLeft)], toLeft)
    requires nodes[i].parent != NIL
    ensures var q := nodes[i].parent; 0 <= q < |nodes'| && (nodes'[q].left == i || nodes'[q].right == i)
  {
    var s := Link(nodes[x], !toLeft);
    var a, c, P := Link(nodes[x], toLeft), Link(nodes[s], !toLeft), nodes[x].parent;
    var q := nodes[i].parent;
    if q == x {
      assert i == a && Link(nodes'[x], toLeft) == a;
    } else if q == s {
      assert i == c && Link(nodes'[s], !toLeft) == c;
    } else if q == P {
      assert nodes'[P] == Redirect(nodes[P], x, s);
    } else {
      RotatedLinksKept(nodes, root, nodes', root', x, toLeft, q);
    }
  }

  /** A child link of `i` that is not the pivot, the lifted child or the inner grandchild still points back at `i`. */
  lemma RotateChildKept<K, V>(nodes: seq<RBNode<K, V>>, root: int, elems: set<int>, ph: int,
                              nodes': seq<RBNode<K, V>>, root': int, x: int, toLeft: bool, i: int, k: int)
    requires RotNeighbours(nodes, root, elems, ph, x, toLeft)
    requires Rotated(nodes, root, nodes', root', x, toLeft)
    requires ChildOK(nodes, elems, ph, i, k)
    requires k != x && k != Link(nodes[x], !toLeft) && (k in elems ==> k != Link(nodes[Link(nodes[x], !toLeft)], toLeft))
    ensures ChildOK(nodes', elems, ph, i, k)
  {
    if k != NIL && k != ph {
      RotatedParentKept(nodes, root, nodes', root', x, toLeft, k);
    }
  }

  lemma RotateLinkAbove<K, V>(nodes: seq<RBNode<K, V>>, root: int, elems: set<int>, ph: int,
                              nodes': seq<RBNode<K, V>>, root': int, x: int, toLeft: bool)
    requires RotNeighbours(nodes, root, elems, ph, x, toLeft)
    requires Rotated(nodes, root, nodes', root', x, toLeft)
    requires nodes[x].parent != NIL
    ensures LinkAt(nodes', root', elems, ph, nodes[x].parent)
  {
    var s := Link(nodes[x], !toLeft);
    var P := nodes[x].parent;
    var n := nodes[P];
    assert nodes'[P] == Redirect(n, x, s);
    if n.left == x {
      assert n.right != s && (n.right in elems ==> n.right != Link(nodes[s], toLeft));
      RotateChildKept(nodes, root, elems, ph, nodes', root', x, toLeft, P, n.right);
    } else {
      assert n.left != s && (n.left in elems ==> n.left != Link(nodes[s], toLeft));
      RotateChildKept(nodes, root, elems, ph, nodes', root', x, toLeft, P, n.left);
    }
    if n.parent != NIL {
      RotateHangs(nodes, root, elems, ph, nodes', root', x, toLeft, P);
    }
  }

  lemma RotateLinkInner<K, V>(nodes: seq<RBNode<K, V>>, root: int, elems: set<int>, ph: int,
                              nodes': seq<RBNode<K, V>>, root': int, x: int, toLeft: bool)
    requires RotNeighbours(nodes, root, elems, ph, x, toLeft)
    requires Rotated(nodes, root, nodes', root', x, toLeft)
    requires Link(nodes[Link(nodes[x], !toLeft)], toLeft) in elems
    ensures LinkAt(nodes', root', elems, ph, Link(nodes[Link(nodes[x], !toLeft)], toLeft))
  {
    var s := Link(nodes[x], !toLeft);
    var b := Link(nodes[s], toLeft);
    var n := nodes[b];
    assert nodes'[b] == n.(parent := x);
    assert n.left != x && n.left != s && (n.left in elems ==> n.left != b);
    assert n.right != x && n.right != s && (n.right in elems ==> n.right != b);
    RotateChildKept(nodes, root, elems, ph, nodes', root', x, toLeft, b, n.left);
    RotateChildKept(nodes, root, elems, ph, nodes', root', x, toLeft, b, n.right);
    assert Link(nodes'[x], !toLeft) == b;
  }

  lemma RotateLinkOther<K, V>(nodes: seq<RBNode<K, V>>, root: int, elems: set<int>, ph: int,
                              nodes': seq<RBNode<K, V>>, root': int, x: int, toLeft: bool, i: int)
    requires RotNeighbours(nodes, root, elems, ph, x, toLeft)
    requires Rotated(nodes, root, nodes', root', x, toLeft)
    requires i in elems && LinkAt(nodes, root, elems, ph, i)
    requires i != x && i != Link(nodes[x], !toLeft)
    requires i != nodes[x].parent && i != Link(nodes[Link(nodes[x], !toLeft)], toLeft)
    ensures LinkAt(nodes', root', elems, ph, i)
  {
    var s := Link(nodes[x], !toLeft);
    var b := Link(nodes[s], toLeft);
    var n := nodes[i];
    assert nodes'[i] == n;
    assert n.left != x && n.left != s && (n.left in elems ==> n.left != b);
    assert n.right != x && n.right != s && (n.right in elems ==> n.right != b);
    RotateChildKept(nodes, root, elems, ph, nodes', root', x, toLeft, i, n.left);
    RotateChildKept(nodes, root, elems, ph, nodes', root', x, toLeft, i, n.right);
    if n.parent != NIL {
      RotateHangs(nodes, root, elems, ph, nodes', root', x, toLeft, i);
    }
  }

  // ---------------------------------------------------------------------------
  // Subtree sets after a rotation
  // ---------------------------------------------------------------------------

  lemma RotateSubPivot<K, V>(nodes: seq<RBNode<K, V>>, root: int, elems: set<int>, sub: map<int, set<int>>,
                             nodes': seq<RBNode<K, V>>, root': int, x: int, toLeft: bool)
    requires RotSets(nodes, elems, sub, x, toLeft)
    requires Link(nodes[x], toLeft) != Link(nodes[x], !toLeft) && Link(nodes[Link(nodes[x], !toLeft)], toLeft) != Link(nodes[x], !toLeft)
    requires Link(nodes[x], toLeft) != x && Link(nodes[Link(nodes[x], !toLeft)], toLeft) != x
    requires Rotated(nodes, root, nodes', root', x, toLeft)
    ensures SubAt(nodes', elems, RotSub(nodes, elems, sub, x, toLeft), x)
  {
    var s := Link(nodes[x], !toLeft);
    var a, b := Link(nodes[x], toLeft), Link(nodes[s], toLeft);
    var sub' := RotSub(nodes, elems, sub, x, toLeft);
    RotSubAway(nodes, elems, sub, x, toLeft, a);
    RotSubAway(nodes, elems, sub, x, toLeft, b);
    if toLeft {
      assert nodes'[x].left == a && nodes'[x].right == b;
    } else {
      assert nodes'[x].left == b && nodes'[x].right == a;
    }
  }

  lemma RotateSubLifted<K, V>(nodes: seq<RBNode<K, V>>, root: int, elems: set<int>, sub: map<int, set<int>>,
                              nodes': seq<RBNode<K, V>>, root': int, x: int, toLeft: bool)
    requires RotSets(nodes, elems, sub, x, toLeft)
    requires Link(nodes[x], toLeft) != Link(nodes[x], !toLeft) && Link(nodes[Link(nodes[x], !toLeft)], toLeft) != Link(nodes[x], !toLeft)
    requires Link(nodes[Link(nodes[x], !toLeft)], !toLeft) != x && Link(nodes[Link(nodes[x], !toLeft)], !toLeft) != Link(nodes[x], !toLeft)
    requires Rotated(nodes, root, nodes', root', x, toLeft)
    ensures SubAt(nodes', elems, RotSub(nodes, elems, sub, x, toLeft), Link(nodes[x], !toLeft))
  {
    var s := Link(nodes[x], !toLeft);
    var a, b, c := Link(nodes[x], toLeft), Link(nodes[s], toLeft), Link(nodes[s], !toLeft);
    var sub' := RotSub(nodes, elems, sub, x, toLeft);
    RotSubAway(nodes, elems, sub, x, toLeft, c);
    assert SubOf(elems, sub', x) == SubOf(elems, sub, a) + {x} + SubOf(elems, sub, b);
    if toLeft {
      assert nodes'[s].left == x && nodes'[s].right == c;
    } else {
      assert nodes'[s].left == c && nodes'[s].right == x;
    }
  }

  /** Any other node keeps its subtree set; the pivot's parent now reaches the same set through `s`. */
  lemma RotateSubOther<K, V>(nodes: seq<RBNode<K, V>>, root: int, elems: set<int>, sub: map<int, set<int>>, ph: int,
                             nodes': seq<RBNode<K, V>>, root': int, x: int, toLeft: bool, i: int)
    requires RotNeighbours(nodes, root, elems, ph, x, toLeft)
    requires RotSets(nodes, elems, sub, x, toLeft)
    requires Rotated(nodes, root, nodes', root', x, toLeft)
    requires i in elems && LinkAt(nodes, root, elems, ph, i) && SubAt(nodes, elems, sub, i)
    requires i != x && i != Link(nodes[x], !toLeft)
    ensures SubAt(nodes', elems, RotSub(nodes, elems, sub, x, toLeft), i)
  {
    var s := Link(nodes[x], !toLeft);
    var P := nodes[x].parent;
    var sub' := RotSub(nodes, elems, sub, x, toLeft);
    var n, n' := nodes[i], nodes'[i];
    RotSubAway(nodes, elems, sub, x, toLeft, i);
    assert n.left != s && n.right != s;
    if i == P {
      assert n' == Redirect(n, x, s);
      assert SubOf(elems, sub', s) == SubOf(elems, sub, x);
      if n.left == x {
        RotSubAway(nodes, elems, sub, x, toLeft, n.right);
      } else {
        RotSubAway(nodes, elems, sub, x, toLeft, n.left);
      }
    } else {
      assert n.left != x && n.right != x;
      RotatedLinksKept(nodes, root, nodes', root', x, toLeft, i);
      RotSubAway(nodes, elems, sub, x, toLeft, n.left);
      RotSubAway(nodes, elems, sub, x, toLeft, n.right);
    }
  }

  /** The placeholder keeps its one holder through a rotation. */
  lemma RotatePlaceholder<K, V>(nodes: seq<RBNode<K, V>>, root: int, elems: set<int>, ph: int,
                                nodes': seq<RBNode<K, V>>, root': int, x: int, toLeft: bool)
    requires PlaceholderOK(nodes, elems, ph)
    requires RotNeighbours(nodes, root, elems, ph, x, toLeft)
    requires Rotated(nodes, root, nodes', root', x, toLeft)
    ensures PlaceholderOK(nodes', elems, ph)
  {
    if ph != NIL {
      var s := Link(nodes[x], !toLeft);
      var a, b, c, P := Link(nodes[x], toLeft), Link(nodes[s], toLeft), Link(nodes[s], !toLeft), nodes[x].parent;
      var h := nodes[ph].parent;
      assert nodes'[ph] == nodes[ph];
      if h == x {
        assert a == ph && Link(nodes'[x], toLeft) == ph;
      } else if h == s {
        assert c == ph && Link(nodes'[s], !toLeft) == ph;
      } else if h == P {
        assert nodes'[P] == Redirect(nodes[P], x, s);
      } else {
        RotatedLinksKept(nodes, root, nodes', root', x, toLeft, h);
      }
      forall i | i in elems && 0 <= i < |nodes'| && i != h ensures nodes'[i].left != ph && nodes'[i].right != ph {
        if i == x {
          assert Link(nodes'[x], toLeft) == a && Link(nodes'[x], !toLeft) == b;
        } else if i == s {
          assert Link(nodes'[s], toLeft) == x && Link(nodes'[s], !toLeft) == c;
        } else if i == P {
          assert nodes'[P] == Redirect(nodes[P], x, s);
        } else {
          RotatedLinksKept(nodes, root, nodes', root', x, toLeft, i);
        }
      }
    }
  }

  /** The root after a rotation spans the whole tree. */
  lemma RotateRoot<K, V>(nodes: seq<RBNode<K, V>>, root: int, elems: set<int>, sub: map<int, set<int>>, ph: int,
                         nodes': seq<RBNode<K, V>>, root': int, x: int, toLeft: bool)
    requires root != NIL && root in elems && root in sub && sub[root] == elems
    requires LinkAt(nodes, root, elems, ph, root)
    requires RotNeighbours(nodes, root, elems, ph, x, toLeft) && RotSets(nodes, elems, sub, x, toLeft)
    requires Rotated(nodes, root, nodes', root', x, toLeft)
    ensures root' != NIL && root' in elems && root' in RotSub(nodes, elems, sub, x, toLeft)
    ensures RotSub(nodes, elems, sub, x, toLeft)[root'] == elems
  {
    var s := Link(nodes[x], !toLeft);
    if nodes[x].parent == NIL {
      assert x == root;
    } else {
      assert root != x && root != s;
      RotSubAway(nodes, elems, sub, x, toLeft, root);
    }
  }

  /** A rotation keeps the tree a tree with mirrored parent links, over the same nodes. */
  lemma RotateShape<K, V>(nodes: seq<RBNode<K, V>>, root: int, elems: set<int>, sub: map<int, set<int>>, ph: int,
                          nodes': seq<RBNode<K, V>>, root': int, x: int, toLeft: bool)
    requires Shape(nodes, root, elems, sub, ph)
    requires x in elems && Link(nodes[x], !toLeft) in elems
    requires ph != NIL ==> Link(nodes[Link(nodes[x], !toLeft)], toLeft) != ph
    requires Rotated(nodes, root, nodes', root', x, toLeft)
    ensures Shape(nodes', root', elems, RotSub(nodes, elems, sub, x, toLeft), ph)
  {
    var sub' := RotSub(nodes, elems, sub, x, toLeft);
    RotateFacts(nodes, root, elems, sub, ph, x, toLeft);
    forall i | i in elems ensures ShapeAt(nodes', root', elems, sub', ph, i) {
      RotateShapeAt(nodes, root, elems, sub, ph, nodes', root', x, toLeft, i);
    }
    assert root != NIL;
    assert LinkAt(nodes, root, elems, ph, root) by {
      assert ShapeAt(nodes, root, elems, sub, ph, root);
    }
    RotateRoot(nodes, root, elems, sub, ph, nodes', root', x, toLeft);
    RotatePlaceholder(nodes, root, elems, ph, nodes', root', x, toLeft);
  }

  lemma RotateShapeAt<K, V>(nodes: seq<RBNode<K, V>>, root: int, elems: set<int>, sub: map<int, set<int>>, ph: int,
                            nodes': seq<RBNode<K, V>>, root': int, x: int, toLeft: bool, i: int)
    requires Shape(nodes, root, elems, sub, ph)
    requires RotNeighbours(nodes, root, elems, ph, x, toLeft) && RotSets(nodes, elems, sub, x, toLeft)
    requires Rotated(nodes, root, nodes', root', x, toLeft)
    requires i in elems
    ensures ShapeAt(nodes', root', elems, RotSub(nodes, elems, sub, x, toLeft), ph, i)
  {
    var s := Link(nodes[x], !toLeft);
    var b := Link(nodes[s], toLeft);
    assert ShapeAt(nodes, root, elems, sub, ph, i);
    if i == x {
      RotateLinkPivot(nodes, root, elems, ph, nodes', root', x, toLeft);
      RotateSubPivot(nodes, root, elems, sub, nodes', root', x, toLeft);
    } else if i == s {
      RotateLinkLifted(nodes, root, elems, ph, nodes', root', x, toLeft);
      RotateSubLifted(nodes, root, elems, sub, nodes', root', x, toLeft);
    } else {
      if i == nodes[x].parent {
        RotateLinkAbove(nodes, root, elems, ph, nodes', root', x, toLeft);
      } else if i == b {
        RotateLinkInner(nodes, root, elems, ph, nodes', root', x, toLeft);
      } else {
        RotateLinkOther(nodes, root, elems, ph, nodes', root', x, toLeft, i);
      }
      RotateSubOther(nodes, root, elems, sub, ph, nodes', root', x, toLeft, i);
    }
  }

  /** Keys are untouched, so key comparisons read the same before and after. */
  lemma SamePayloadLt<K, V>(nodes: seq<RBNode<K, V>>, nodes': seq<RBNode<K, V>>, cmp: (K, K) -> int, i: int, j: int)
    requires SamePayload(nodes, nodes')
    ensures Lt(nodes', cmp, i, j) == Lt(nodes, cmp, i, j)
  {
    if 0 <= i < |nodes| && 0 <= j < |nodes| {
      assert nodes'[i].key == nodes[i].key && nodes'[j].key == nodes[j].key;
    }
  }

  /** Every key of `S` is below (`below`) or above the key of `i`, in both states. */
  ghost predicate AllSide<K, V>(nodes: seq<RBNode<K, V>>, cmp: (K, K) -> int, S: set<int>, i: int, below: bool) {
    forall j :: j in S && j != NIL ==> if below then Lt(nodes, cmp, j, i) else Lt(nodes, cmp, i, j)
  }

  lemma AllSideKept<K, V>(nodes: seq<RBNode<K, V>>, nodes': seq<RBNode<K, V>>, cmp: (K, K) -> int, S: set<int>, i: int, below: bool)
    requires SamePayload(nodes, nodes') && AllSide(nodes, cmp, S, i, below)
    ensures AllSide(nodes', cmp, S, i, below)
  {
    forall j | j in S && j != NIL ensures if below then Lt(nodes', cmp, j, i) else Lt(nodes', cmp, i, j) {
      SamePayloadLt(nodes, nodes', cmp, i, j);
      SamePayloadLt(nodes, nodes', cmp, j, i);
    }
  }

  /** `OrderedAt` with no exemption, in terms of the two sides. */
  lemma OrderedAtSides<K, V>(nodes: seq<RBNode<K, V>>, elems: set<int>, sub: map<int, set<int>>, cmp: (K, K) -> int, i: int)
    requires 0 <= i < |nodes|
    ensures OrderedAt(nodes, elems, sub, cmp, NIL, i) <==>
            AllSide(nodes, cmp, SubOf(elems, sub, nodes[i].left), i, true) && AllSide(nodes, cmp, SubOf(elems, sub, nodes[i].right), i, false)
  {
  }

  lemma RotateOrderOther<K, V>(nodes: seq<RBNode<K, V>>, root: int, elems: set<int>, sub: map<int, set<int>>, ph: int, cmp: (K, K) -> int,
                               nodes': seq<RBNode<K, V>>, root': int, x: int, toLeft: bool, i: int)
    requires RotNeighbours(nodes, root, elems, ph, x, toLeft) && RotSets(nodes, elems, sub, x, toLeft)
    requires Rotated(nodes, root, nodes', root', x, toLeft)
    requires i in elems && LinkAt(nodes, root, elems, ph, i) && OrderedAt(nodes, elems, sub, cmp, NIL, i)
    requires i != x && i != Link(nodes[x], !toLeft)
    ensures OrderedAt(nodes', elems, RotSub(nodes, elems, sub, x, toLeft), cmp, NIL, i)
  {
    var s := Link(nodes[x], !toLeft);
    var sub' := RotSub(nodes, elems, sub, x, toLeft);
    var n, n' := nodes[i], nodes'[i];
    RotatedPayload(nodes, root, nodes', root', x, toLeft);
    OrderedAtSides(nodes, elems, sub, cmp, i);
    OrderedAtSides(nodes', elems, sub', cmp, i);
    assert n.left != s && n.right != s;
    if i == nodes[x].parent {
      assert n' == Redirect(n, x, s);
      assert SubOf(elems, sub', s) == SubOf(elems, sub, x);
      if n.left == x {
        RotSubAway(nodes, elems, sub, x, toLeft, n.right);
      } else {
        RotSubAway(nodes, elems, sub, x, toLeft, n.left);
      }
    } else {
      assert n.left != x && n.right != x;
      RotatedLinksKept(nodes, root, nodes', root', x, toLeft, i);
      RotSubAway(nodes, elems, sub, x, toLeft, n.left);
      RotSubAway(nodes, elems, sub, x, toLeft, n.right);
    }
    assert SubOf(elems, sub', n'.left) == SubOf(elems, sub, n.left);
    assert SubOf(elems, sub', n'.right) == SubOf(elems, sub, n.right);
    AllSideKept(nodes, nodes', cmp, SubOf(elems, sub, n.left), i, true);
    AllSideKept(nodes, nodes', cmp, SubOf(elems, sub, n.right), i, false);
  }

  lemma RotateOrderPivot<K, V>(nodes: seq<RBNode<K, V>>, root: int, elems: set<int>, sub: map<int, set<int>>, ph: int, cmp: (K, K) -> int,
                               nodes': seq<RBNode<K, V>>, root': int, x: int, toLeft: bool)
    requires RotNeighbours(nodes, root, elems, ph, x, toLeft) && RotSets(nodes, elems, sub, x, toLeft)
    requires Rotated(nodes, root, nodes', root', x, toLeft)
    requires OrderedAt(nodes, elems, sub, cmp, NIL, x)
    ensures OrderedAt(nodes', elems, RotSub(nodes, elems, sub, x, toLeft), cmp, NIL, x)
  {
    var s := Link(nodes[x], !toLeft);
    var a, b := Link(nodes[x], toLeft), Link(nodes[s], toLeft);
    var sub' := RotSub(nodes, elems, sub, x, toLeft);
    var A, B := SubOf(elems, sub, a), SubOf(elems, sub, b);
    RotatedPayload(nodes, root, nodes', root', x, toLeft);
    OrderedAtSides(nodes, elems, sub, cmp, x);
    OrderedAtSides(nodes', elems, sub', cmp, x);
    RotSubAway(nodes, elems, sub, x, toLeft, a);
    RotSubAway(nodes, elems, sub, x, toLeft, b);
    assert SubOf(elems, sub, s) == sub[s];
    assert AllSide(nodes, cmp, A, x, toLeft) && AllSide(nodes, cmp, sub[s], x, !toLeft) by {
      if !toLeft {
        assert nodes[x].right == a && nodes[x].left == s;
      }
    }
    assert AllSide(nodes, cmp, B, x, !toLeft);
    AllSideKept(nodes, nodes', cmp, A, x, toLeft);
    AllSideKept(nodes, nodes', cmp, B, x, !toLeft);
    if toLeft {
      assert nodes'[x].left == a && nodes'[x].right == b;
    } else {
      assert nodes'[x].left == b && nodes'[x].right == a;
    }
  }

  lemma RotateOrderLifted<K(!new), V>(nodes: seq<RBNode<K, V>>, root: int, elems: set<int>, sub: map<int, set<int>>, ph: int, cmp: (K, K) -> int,
                                      nodes': seq<RBNode<K, V>>, root': int, x: int, toLeft: bool)
    requires TotalOrder(cmp)
    requires RotNeighbours(nodes, root, elems, ph, x, toLeft) && RotSets(nodes, elems, sub, x, toLeft)
    requires Rotated(nodes, root, nodes', root', x, toLeft)
    requires OrderedAt(nodes, elems, sub, cmp, NIL, x) && OrderedAt(nodes, elems, sub, cmp, NIL, Link(nodes[x], !toLeft))
    ensures OrderedAt(nodes', elems, RotSub(nodes, elems, sub, x, toLeft), cmp, NIL, Link(nodes[x], !toLeft))
  {
    var s := Link(nodes[x], !toLeft);
    var a, b, c := Link(nodes[x], toLeft), Link(nodes[s], toLeft), Link(nodes[s], !toLeft);
    var sub' := RotSub(nodes, elems, sub, x, toLeft);
    var A, B, C := SubOf(elems, sub, a), SubOf(elems, sub, b), SubOf(elems, sub, c);
    RotatedPayload(nodes, root, nodes', root', x, toLeft);
    OrderedAtSides(nodes, elems, sub, cmp, x);
    OrderedAtSides(nodes, elems, sub, cmp, s);
    OrderedAtSides(nodes', elems, sub', cmp, s);
    RotSubAway(nodes, elems, sub, x, toLeft, c);
    assert SubOf(elems, sub, s) == sub[s] && s in sub[s];
    assert AllSide(nodes, cmp, A, x, toLeft) && AllSide(nodes, cmp, sub[s], x, !toLeft) by {
      if !toLeft {
        assert nodes[x].right == a && nodes[x].left == s;
      }
    }
    assert AllSide(nodes, cmp, B, s, toLeft) && AllSide(nodes, cmp, C, s, !toLeft) by {
      if !toLeft {
        assert nodes[s].right == b && nodes[s].left == c;
      }
    }
    var X := A + {x} + B;
    assert SubOf(elems, sub', x) == X;
    assert AllSide(nodes, cmp, X, s, toLeft) by {
      forall j | j in X && j != NIL ensures if toLeft then Lt(nodes, cmp, j, s) else Lt(nodes, cmp, s, j) {
        if j in A {
          if toLeft {
            assert Lt(nodes, cmp, j, x) && Lt(nodes, cmp, x, s);
          } else {
            assert Lt(nodes, cmp, x, j) && Lt(nodes, cmp, s, x);
          }
        }
      }
    }
    AllSideKept(nodes, nodes', cmp, X, s, toLeft);
    AllSideKept(nodes, nodes', cmp, C, s, !toLeft);
    if toLeft {
      assert nodes'[s].left == x && nodes'[s].right == c;
    } else {
      assert nodes'[s].left == c && nodes'[s].right == x;
    }
  }

  /** A rotation keeps the key order. */
  lemma RotateOrdered<K(!new), V>(nodes: seq<RBNode<K, V>>, root: int, elems: set<int>, sub: map<int, set<int>>, ph: int, cmp: (K, K) -> int,
                                  nodes': seq<RBNode<K, V>>, root': int, x: int, toLeft: bool)
    requires TotalOrder(cmp) && Shape(nodes, root, elems, sub, ph) && Ordered(nodes, elems, sub, cmp, NIL)
    requires x in elems && Link(nodes[x], !toLeft) in elems
    requires ph != NIL ==> Link(nodes[Link(nodes[x], !toLeft)], toLeft) != ph
    requires Rotated(nodes, root, nodes', root', x, toLeft)
    ensures Ordered(nodes', elems, RotSub(nodes, elems, sub, x, toLeft), cmp, NIL)
  {
    var s := Link(nodes[x], !toLeft);
    var sub' := RotSub(nodes, elems, sub, x, toLeft);
    RotateFacts(nodes, root, elems, sub, ph, x, toLeft);
    assert OrderedAt(nodes, elems, sub, cmp, NIL, x) && OrderedAt(nodes, elems, sub, cmp, NIL, s);
    forall i | i in elems ensures OrderedAt(nodes', elems, sub', cmp, NIL, i) {
      if i == x {
        RotateOrderPivot(nodes, root, elems, sub, ph, cmp, nodes', root', x, toLeft);
      } else if i == s {
        RotateOrderLifted(nodes, root, elems, sub, ph, cmp, nodes', root', x, toLeft);
      } else {
        assert OrderedAt(nodes, elems, sub, cmp, NIL, i);
        assert LinkAt(nodes, root, elems, ph, i) by {
          assert ShapeAt(nodes, root, elems, sub, ph, i);
        }
        RotateOrderOther(nodes, root, elems, sub, ph, cmp, nodes', root', x, toLeft, i);
      }
    }
  }

  // ---------------------------------------------------------------------------
  // Colours around a rotation
  // ---------------------------------------------------------------------------

  /**
   * A tree node other than `x`, `s` and the parent of `x` keeps its colour
   * conditions when only `x` and `s` change colour and black height.
   */
  lemma RotColorsAway<K, V>(nodes: seq<RBNode<K, V>>, root: int, elems: set<int>, ph: int, bh: map<int, int>, dn: int, dp: int, xc: int,
                            nodes': seq<RBNode<K, V>>, root': int, bh': map<int, int>, dn': int, dp': int, xc': int,
                            x: int, toLeft: bool, hx: int, hs: int, i: int)
    requires Rotated(nodes, root, nodes', root', x, toLeft) && nodes[Link(nodes[x], !toLeft)].parent == x
    requires x != ph && Link(nodes[x], !toLeft) != ph
    requires bh' == bh[x := hx][Link(nodes[x], !toLeft) := hs]
    requires i in elems && LinkAt(nodes, root, elems, ph, i)
    requires i != x && i != Link(nodes[x], !toLeft) && i != nodes[x].parent
    requires BlackAt(nodes, elems, bh, dn, dp, i) && RedAt(nodes, elems, xc, i)
    requires (i == dp) == (i == dp') && (i == dp ==> dn == dn')
    requires xc' == xc || (nodes[i].left != xc && nodes[i].right != xc)
    ensures BlackAt(nodes', elems, bh', dn', dp', i) && RedAt(nodes', elems, xc', i)
  {
    var s := Link(nodes[x], !toLeft);
    var n := nodes[i];
    RotatedKeeps(nodes, root, nodes', root', x, toLeft, i);
    assert n.left != x && n.left != s && n.right != x && n.right != s;
    if 0 <= n.left < |nodes| {
      RotatedKeeps(nodes, root, nodes', root', x, toLeft, n.left);
    }
    if 0 <= n.right < |nodes| {
      RotatedKeeps(nodes, root, nodes', root', x, toLeft, n.right);
    }
    ColorsKeptAt(nodes, elems, bh, dn, dp, xc, nodes', bh', dn', dp', xc', i);
  }

  /** A slot other than `x` and `s` keeps its colour, and its children too unless it is the parent of `x`. */
  lemma RotatedKeeps<K, V>(nodes: seq<RBNode<K, V>>, root: int, nodes': seq<RBNode<K, V>>, root': int, x: int, toLeft: bool, k: int)
    requires Rotated(nodes, root, nodes', root', x, toLeft) && 0 <= k < |nodes|
    requires k != x && k != Link(nodes[x], !toLeft)
    ensures nodes'[k].color == nodes[k].color
    ensures k != nodes[x].parent ==> nodes'[k].left == nodes[k].left && nodes'[k].right == nodes[k].right
  {
  }

  /**
   * The parent of `x` keeps its colour conditions when `s`, which takes the
   * place of `x` below it, ends with the black height `x` had.
   */
  lemma RotColorsAbove<K, V>(nodes: seq<RBNode<K, V>>, root: int, elems: set<int>, ph: int, bh: map<int, int>, dn: int, dp: int, xc: int,
                             nodes': seq<RBNode<K, V>>, root': int, bh': map<int, int>, dn': int, dp': int, xc': int,
                             x: int, toLeft: bool, hx: int, hs: int)
    requires RotNeighbours(nodes, root, elems, ph, x, toLeft)
    requires Rotated(nodes, root, nodes', root', x, toLeft)
    requires bh' == bh[x := hx][Link(nodes[x], !toLeft) := hs]
    requires nodes[x].parent != NIL && x in bh && hs == bh[x]
    requires var P := nodes[x].parent;
      && BlackAt(nodes, elems, bh, dn, dp, P) && RedAt(nodes, elems, xc, P)
      && (P == dp) == (P == dp') && (P == dp ==> dn == dn' && dn != x)
      && (xc' == xc || (nodes[P].left != xc && nodes[P].right != xc))
      && (nodes[P].color == Red && nodes'[Link(nodes[x], !toLeft)].color == Red ==> Link(nodes[x], !toLeft) == xc')
    ensures BlackAt(nodes', elems, bh', dn', dp', nodes[x].parent) && RedAt(nodes', elems, xc', nodes[x].parent)
  {
    var s := Link(nodes[x], !toLeft);
    var P := nodes[x].parent;
    var n := nodes[P];
    var d := if n.left == x then n.right else n.left;
    assert nodes'[P] == Redirect(n, x, s);
    assert d != x && d != s;
    assert d in elems ==> nodes'[d].color == nodes[d].color;
    assert BH(elems, bh', d) == BH(elems, bh, d);
    assert BH(elems, bh', s) == BH(elems, bh, x);
  }
}
