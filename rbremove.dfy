/**
 * Deletion on the node arena: the repair loop `removeCaseN` after a black
 * leaf has been cut out, the splice of `removeone`, and the placeholder that
 * stands in for the removed leaf while the loop runs.
 *
 * While the loop runs, `n` (a tree node, or the placeholder) is black and one
 * black short below its parent `p`: `Balanced(.., n, p)`. Every other
 * invariant of the tree holds. Each case either settles the tree or moves
 * the deficit one level up.
 */
module RBRemove {
  import opened RBNodes
  import opened RBRotate
  import opened RBInsert

  /** The shape part of the loop invariant: `n` hangs from `p`, and the placeholder lies at or below `n`. */
  ghost predicate DelShape<K, V>(nodes: seq<RBNode<K, V>>, root: int, elems: set<int>, sub: map<int, set<int>>, ph: int, n: int, p: int) {
    && Shape(nodes, root, elems, sub, ph)
    && 0 <= n < |nodes| && (n in elems || (n == ph && ph != NIL))
    && nodes[n].color == Black && nodes[n].parent == p
    && (ph != NIL && n != ph ==> nodes[ph].parent in SubOf(elems, sub, n))
  }

  /** The invariant of the `removeCaseN` loop. */
  ghost predicate DelInv<K(!new), V>(nodes: seq<RBNode<K, V>>, root: int, elems: set<int>, sub: map<int, set<int>>, bh: map<int, int>, cmp: (K, K) -> int,
                                     ph: int, n: int, p: int) {
    && TotalOrder(cmp)
    && DelShape(nodes, root, elems, sub, ph, n, p)
    && Ordered(nodes, elems, sub, cmp, NIL)
    && Distinct(nodes, elems)
    && Balanced(nodes, elems, bh, n, p)
    && NoRedRed(nodes, elems, NIL)
    && RootBlack(nodes, root)
  }

  /** The state after the loop: a red-black tree in which the placeholder may still hang. */
  ghost predicate DelDone<K(!new), V>(nodes: seq<RBNode<K, V>>, root: int, elems: set<int>, sub: map<int, set<int>>, bh: map<int, int>, cmp: (K, K) -> int,
                                      ph: int) {
    && TotalOrder(cmp)
    && Shape(nodes, root, elems, sub, ph)
    && Ordered(nodes, elems, sub, cmp, NIL)
    && Distinct(nodes, elems)
    && Balanced(nodes, elems, bh, NIL, NIL)
    && NoRedRed(nodes, elems, NIL)
    && RootBlack(nodes, root)
  }

  /** How far the deficit still is from the root: the nodes outside the subtree of `n`. */
  ghost function DelRank(elems: set<int>, sub: map<int, set<int>>, n: int): int {
    |elems| - |SubOf(elems, sub, n)|
  }

  /** The loop ends when the deficit reaches the root: a deficit there is no imbalance. */
  lemma DelAtRoot<K(!new), V>(nodes: seq<RBNode<K, V>>, root: int, elems: set<int>, sub: map<int, set<int>>, bh: map<int, int>, cmp: (K, K) -> int,
                              ph: int, n: int)
    requires DelInv(nodes, root, elems, sub, bh, cmp, ph, n, NIL)
    ensures DelDone(nodes, root, elems, sub, bh, cmp, ph)
  {
    forall i | i in elems ensures BlackAt(nodes, elems, bh, NIL, NIL, i) {
      assert BlackAt(nodes, elems, bh, n, NIL, i);
    }
  }

  /**
   * The neighbourhood of the loop body: `n` on side `tl` of `p`, its sibling
   * `s` a tree node one black taller than `n`, and the placeholder outside
   * the subtree of `s`.
   */
  lemma DelSetup<K, V>(nodes: seq<RBNode<K, V>>, root: int, elems: set<int>, sub: map<int, set<int>>, bh: map<int, int>, ph: int, n: int, p: int)
    requires DelShape(nodes, root, elems, sub, ph, n, p) && Balanced(nodes, elems, bh, n, p) && p != NIL
    ensures 0 <= p < |nodes| && p in elems
    ensures var tl := nodes[p].left == n;
      && RotNeighbours(nodes, root, elems, ph, p, tl) && RotSets(nodes, elems, sub, p, tl)
      && Link(nodes[p], tl) == n
      && var s := Link(nodes[p], !tl);
      && p in bh && s in bh && 0 <= BH(elems, bh, n) && BH(elems, bh, n) + 1 == bh[s] && bh[p] == Blk(nodes[p]) + bh[s]
      && (ph != NIL ==> nodes[ph].parent !in sub[s])
      && 0 <= DelRank(elems, sub, p) < DelRank(elems, sub, n)
  {
    if n in elems {
      assert LinkAt(nodes, root, elems, ph, n) by { assert ShapeAt(nodes, root, elems, sub, ph, n); }
    }
    assert p in elems && 0 <= p < |nodes|;
    var tl := nodes[p].left == n;
    assert BlackAt(nodes, elems, bh, n, p, p);
    assert Link(nodes[p], tl) == n;
    var s := Link(nodes[p], !tl);
    assert s in elems;
    RotateFactsSets(nodes, root, elems, sub, ph, p, tl);
    if ph != NIL && Link(nodes[s], tl) == ph {
      assert false;
    }
    RotateFactsLinks(nodes, root, elems, sub, ph, p, tl);
    assert ShapeAt(nodes, root, elems, sub, ph, p);
    SubsetCard(sub[p], elems);
    SubsetCard(SubOf(elems, sub, n), sub[p]);
  }

  // Cases 2 and 3: the sibling and both its children are black. The sibling
  // turns red, which takes one black off its side too.

  /** The facts the recolouring cases work from: `n` on side `tl` of `p`, a black sibling with black children. */
  ghost predicate PushPoint<K, V>(nodes: seq<RBNode<K, V>>, root: int, elems: set<int>, bh: map<int, int>, ph: int,
                                  nodes': seq<RBNode<K, V>>, n: int, p: int, tl: bool) {
    && RotNeighbours(nodes, root, elems, ph, p, tl) && Link(nodes[p], tl) == n
    && var s := Link(nodes[p], !tl);
    && p in bh && s in bh && BH(elems, bh, n) + 1 == bh[s] && bh[p] == Blk(nodes[p]) + bh[s]
    && nodes[s].color == Black && !RedLink(nodes, elems, Link(nodes[s], tl)) && !RedLink(nodes, elems, Link(nodes[s], !tl))
    && |nodes'| == |nodes| && nodes'[s] == nodes[s].(color := Red)
    && nodes'[p] == nodes[p].(color := Black)
    && (forall k :: 0 <= k < |nodes| && k != s && k != p ==> nodes'[k] == nodes[k])
  }

  /** The sibling, now red, is one black lower and has no red child. */
  lemma PushColorsSibling<K, V>(nodes: seq<RBNode<K, V>>, root: int, elems: set<int>, bh: map<int, int>, ph: int,
                                nodes': seq<RBNode<K, V>>, n: int, p: int, tl: bool, bh': map<int, int>, dn': int, dp': int)
    requires PushPoint(nodes, root, elems, bh, ph, nodes', n, p, tl)
    requires var s := Link(nodes[p], !tl); BlackAt(nodes, elems, bh, n, p, s)
    requires var s := Link(nodes[p], !tl); bh' == bh[s := bh[s] - 1] || bh' == bh[s := bh[s] - 1][p := bh[p] - 1]
    requires dp' != Link(nodes[p], !tl)
    ensures BlackAt(nodes', elems, bh', dn', dp', Link(nodes[p], !tl)) && RedAt(nodes', elems, NIL, Link(nodes[p], !tl))
  {
    var s := Link(nodes[p], !tl);
    var b, c := Link(nodes[s], tl), Link(nodes[s], !tl);
    assert b != p && c != p;
    assert BH(elems, bh', b) == BH(elems, bh, b) && BH(elems, bh', c) == BH(elems, bh, c);
    assert b in elems ==> nodes'[b] == nodes[b];
    assert c in elems ==> nodes'[c] == nodes[c];
  }

  /** A node that is neither `p`, its sibling-side child `s`, nor the parent of `p` keeps its colour conditions. */
  lemma PushColorsOther<K, V>(nodes: seq<RBNode<K, V>>, root: int, elems: set<int>, bh: map<int, int>, ph: int,
                              nodes': seq<RBNode<K, V>>, n: int, p: int, tl: bool, bh': map<int, int>, dn': int, dp': int, i: int)
    requires PushPoint(nodes, root, elems, bh, ph, nodes', n, p, tl)
    requires var s := Link(nodes[p], !tl); bh' == bh[s := bh[s] - 1] || bh' == bh[s := bh[s] - 1][p := bh[p] - 1]
    requires i in elems && LinkAt(nodes, root, elems, ph, i) && i != p && i != Link(nodes[p], !tl) && i != nodes[p].parent
    requires BlackAt(nodes, elems, bh, n, p, i) && RedAt(nodes, elems, NIL, i)
    requires i != dp'
    ensures BlackAt(nodes', elems, bh', dn', dp', i) && RedAt(nodes', elems, NIL, i)
  {
    var s := Link(nodes[p], !tl);
    var m := nodes[i];
    assert nodes'[i] == m;
    assert m.left != s && m.right != s && m.left != p && m.right != p;
    assert m.left in elems ==> nodes'[m.left] == nodes[m.left];
    assert m.right in elems ==> nodes'[m.right] == nodes[m.right];
    ColorsKeptAt(nodes, elems, bh, n, p, NIL, nodes', bh', dn', dp', NIL, i);
  }

  /** Case 2 at `p` and above: `p` is balanced again, and the deficit moves to `p` below its own parent. */
  lemma PushColorsUp<K, V>(nodes: seq<RBNode<K, V>>, root: int, elems: set<int>, bh: map<int, int>, ph: int,
                           nodes': seq<RBNode<K, V>>, n: int, p: int, tl: bool, i: int)
    requires PushPoint(nodes, root, elems, bh, ph, nodes', n, p, tl) && nodes[p].color == Black
    requires i == p || (i == nodes[p].parent && i != NIL)
    requires BlackAt(nodes, elems, bh, n, p, p)
    requires BlackAt(nodes, elems, bh, n, p, i) && RedAt(nodes, elems, NIL, i)
    ensures var s := Link(nodes[p], !tl);
      BlackAt(nodes', elems, bh[s := bh[s] - 1][p := bh[p] - 1], p, nodes[p].parent, i) && RedAt(nodes', elems, NIL, i)
  {
    var s := Link(nodes[p], !tl);
    var bh' := bh[s := bh[s] - 1][p := bh[p] - 1];
    var m := nodes[i];
    if i == p {
      assert BH(elems, bh', n) == BH(elems, bh, n) && BH(elems, bh', s) == bh[s] - 1;
    } else {
      var d := if m.left == p then m.right else m.left;
      assert nodes'[i] == m && d != s && d != p;
      assert BH(elems, bh', d) == BH(elems, bh, d) && BH(elems, bh', p) == bh[p] - 1;
      assert d in elems ==> nodes'[d] == nodes[d];
      assert m.left == p || m.right == p;
      assert bh[p] >= 1;
    }
  }

  lemma PushUpColors<K, V>(nodes: seq<RBNode<K, V>>, root: int, elems: set<int>, bh: map<int, int>, ph: int,
                           nodes': seq<RBNode<K, V>>, n: int, p: int, tl: bool, s: int)
    requires AllLinks(nodes, root, elems, ph) && Balanced(nodes, elems, bh, n, p) && NoRedRed(nodes, elems, NIL)
    requires PushPoint(nodes, root, elems, bh, ph, nodes', n, p, tl) && nodes[p].color == Black
    requires s == Link(nodes[p], !tl)
    ensures Balanced(nodes', elems, bh[s := bh[s] - 1][p := bh[p] - 1], p, nodes[p].parent) && NoRedRed(nodes', elems, NIL)
  {
    var bh' := bh[s := bh[s] - 1][p := bh[p] - 1];
    var g := nodes[p].parent;
    forall i | i in elems ensures BlackAt(nodes', elems, bh', p, g, i) && RedAt(nodes', elems, NIL, i) {
      assert LinkAt(nodes, root, elems, ph, i) && BlackAt(nodes, elems, bh, n, p, i) && RedAt(nodes, elems, NIL, i);
      if i == s {
        PushColorsSibling(nodes, root, elems, bh, ph, nodes', n, p, tl, bh', p, g);
      } else if i == p || i == g {
        assert BlackAt(nodes, elems, bh, n, p, p);
        PushColorsUp(nodes, root, elems, bh, ph, nodes', n, p, tl, i);
      } else {
        PushColorsOther(nodes, root, elems, bh, ph, nodes', n, p, tl, bh', p, g, i);
      }
    }
  }

  /** The neighbourhood of cases 2 and 3, read off the loop state. */
  lemma PushSetup<K, V>(nodes: seq<RBNode<K, V>>, root: int, elems: set<int>, sub: map<int, set<int>>, bh: map<int, int>,
                        ph: int, n: int, p: int, nodes': seq<RBNode<K, V>>, paint: bool)
    requires DelShape(nodes, root, elems, sub, ph, n, p) && Balanced(nodes, elems, bh, n, p) && p != NIL && 0 <= p < |nodes|
    requires var s := Sibling(nodes, p, n);
      && 0 <= s < |nodes| && nodes[s].color == Black
      && !RedLink(nodes, elems, nodes[s].left) && !RedLink(nodes, elems, nodes[s].right)
      && nodes' == if paint then nodes[s := nodes[s].(color := Red)][p := nodes[p].(color := Black)] else nodes[s := nodes[s].(color := Red)]
    requires !paint ==> nodes[p].color == Black
    ensures var tl := nodes[p].left == n; var s := Sibling(nodes, p, n);
      && PushPoint(nodes, root, elems, bh, ph, nodes', n, p, tl) && s == Link(nodes[p], !tl)
      && SameLinks(nodes, nodes') && (ph != NIL ==> nodes'[ph] == nodes[ph]) && root != s
      && SubOf(elems, sub, n) <= SubOf(elems, sub, p) && p in SubOf(elems, sub, p)
      && 0 <= DelRank(elems, sub, p) < DelRank(elems, sub, n)
  {
    var tl := nodes[p].left == n;
    DelSetup(nodes, root, elems, sub, bh, ph, n, p);
    PushFrame(nodes, nodes', Sibling(nodes, p, n), p, paint);
  }

  /** The recolouring of cases 2 and 3, pointwise. */
  lemma PushFrame<K, V>(nodes: seq<RBNode<K, V>>, nodes': seq<RBNode<K, V>>, s: int, p: int, paint: bool)
    requires 0 <= s < |nodes| && 0 <= p < |nodes| && s != p
    requires nodes' == if paint then nodes[s := nodes[s].(color := Red)][p := nodes[p].(color := Black)] else nodes[s := nodes[s].(color := Red)]
    requires !paint ==> nodes[p].color == Black
    ensures |nodes'| == |nodes| && nodes'[s] == nodes[s].(color := Red) && nodes'[p] == nodes[p].(color := Black)
    ensures forall k :: 0 <= k < |nodes| && k != s && k != p ==> nodes'[k] == nodes[k]
    ensures SameLinks(nodes, nodes')
  {
    if !paint {
      assert nodes[p].(color := Black) == nodes[p];
    }
  }

  /**
   * Case 2: parent, sibling and the sibling's children are all black. The
   * sibling turns red and the deficit moves up to the parent, which is
   * nearer the root.
   */
  lemma DelPushUp<K(!new), V>(nodes: seq<RBNode<K, V>>, root: int, elems: set<int>, sub: map<int, set<int>>, bh: map<int, int>, cmp: (K, K) -> int,
                              ph: int, n: int, p: int, nodes': seq<RBNode<K, V>>)
    requires DelInv(nodes, root, elems, sub, bh, cmp, ph, n, p) && p != NIL && 0 <= p < |nodes| && nodes[p].color == Black
    requires var s := Sibling(nodes, p, n);
      && 0 <= s < |nodes| && nodes[s].color == Black
      && !RedLink(nodes, elems, nodes[s].left) && !RedLink(nodes, elems, nodes[s].right)
      && nodes' == nodes[s := nodes[s].(color := Red)]
    ensures var s := Sibling(nodes, p, n);
      && p in bh && s in bh
      && DelInv(nodes', root, elems, sub, bh[s := bh[s] - 1][p := bh[p] - 1], cmp, ph, p, nodes[p].parent)
      && 0 <= DelRank(elems, sub, p) < DelRank(elems, sub, n)
  {
    var tl := nodes[p].left == n;
    var s := Sibling(nodes, p, n);
    PushSetup(nodes, root, elems, sub, bh, ph, n, p, nodes', false);
    ShapeLinks(nodes, root, elems, sub, ph);
    PushUpColors(nodes, root, elems, bh, ph, nodes', n, p, tl, s);
    SameLinksKeep(nodes, root, elems, sub, ph, cmp, nodes');
  }

  /**
   * Case 3: the parent is red, the sibling and its children black. Parent and
   * sibling swap colours and the tree is settled.
   */
  lemma DelRedParent<K(!new), V>(nodes: seq<RBNode<K, V>>, root: int, elems: set<int>, sub: map<int, set<int>>, bh: map<int, int>, cmp: (K, K) -> int,
                                 ph: int, n: int, p: int, nodes': seq<RBNode<K, V>>)
    requires DelInv(nodes, root, elems, sub, bh, cmp, ph, n, p) && p != NIL && 0 <= p < |nodes| && nodes[p].color == Red
    requires var s := Sibling(nodes, p, n);
      && 0 <= s < |nodes| && nodes[s].color == Black
      && !RedLink(nodes, elems, nodes[s].left) && !RedLink(nodes, elems, nodes[s].right)
      && nodes' == nodes[s := nodes[s].(color := Red)][p := nodes[p].(color := Black)]
    ensures var s := Sibling(nodes, p, n);
      s in bh && DelDone(nodes', root, elems, sub, bh[s := bh[s] - 1], cmp, ph)
  {
    var tl := nodes[p].left == n;
    var s := Sibling(nodes, p, n);
    PushSetup(nodes, root, elems, sub, bh, ph, n, p, nodes', true);
    ShapeLinks(nodes, root, elems, sub, ph);
    RedParentColors(nodes, root, elems, bh, ph, nodes', n, p, tl, s);
    SameLinksKeep(nodes, root, elems, sub, ph, cmp, nodes');
    assert root != p;
  }

  lemma RedParentColors<K, V>(nodes: seq<RBNode<K, V>>, root: int, elems: set<int>, bh: map<int, int>, ph: int,
                              nodes': seq<RBNode<K, V>>, n: int, p: int, tl: bool, s: int)
    requires AllLinks(nodes, root, elems, ph) && Balanced(nodes, elems, bh, n, p) && NoRedRed(nodes, elems, NIL)
    requires PushPoint(nodes, root, elems, bh, ph, nodes', n, p, tl) && nodes[p].color == Red
    requires s == Link(nodes[p], !tl)
    ensures Balanced(nodes', elems, bh[s := bh[s] - 1], NIL, NIL) && NoRedRed(nodes', elems, NIL)
  {
    var bh' := bh[s := bh[s] - 1];
    var g := nodes[p].parent;
    forall i | i in elems ensures BlackAt(nodes', elems, bh', NIL, NIL, i) && RedAt(nodes', elems, NIL, i) {
      assert LinkAt(nodes, root, elems, ph, i) && BlackAt(nodes, elems, bh, n, p, i) && RedAt(nodes, elems, NIL, i);
      if i == s {
        PushColorsSibling(nodes, root, elems, bh, ph, nodes', n, p, tl, bh', NIL, NIL);
      } else if i == p {
        assert BH(elems, bh', n) == BH(elems, bh, n) && BH(elems, bh', s) == bh[s] - 1;
      } else if i == g {
        var m := nodes[i];
        var d := if m.left == p then m.right else m.left;
        assert nodes'[i] == m && d != s && d != p;
        assert d in elems ==> nodes'[d] == nodes[d];
        assert BH(elems, bh', d) == BH(elems, bh, d) && BH(elems, bh', p) == bh[p];
      } else {
        PushColorsOther(nodes, root, elems, bh, ph, nodes', n, p, tl, bh', NIL, NIL, i);
      }
    }
  }

  // Case 1: the sibling is red. Rotating at the parent towards `n`, with the
  // parent painted red and the sibling black, gives `n` a black sibling and
  // a red parent, from which case 3 or case 5 settles the tree.

  /** The facts case 1 works from: the red sibling `s` of `n` and the rotation at `p`. */
  ghost predicate SibRedPoint<K, V>(nodes: seq<RBNode<K, V>>, root: int, elems: set<int>, bh: map<int, int>, ph: int,
                                    nodes': seq<RBNode<K, V>>, root': int, n: int, p: int, tl: bool) {
    && RotNeighbours(nodes, root, elems, ph, p, tl) && Link(nodes[p], tl) == n && (n in elems || n == ph)
    && 0 <= n < |nodes| && nodes[n].color == Black
    && var s := Link(nodes[p], !tl);
    && n != Link(nodes[s], tl)
    && p in bh && s in bh && 0 <= BH(elems, bh, n) && BH(elems, bh, n) + 1 == bh[s] && bh[p] == Blk(nodes[p]) + bh[s]
    && nodes[s].color == Red && nodes[p].color == Black
    && Rotated(nodes, root, nodes', root', p, tl) && nodes'[p].color == Red && nodes'[s].color == Black
  }

  /** The two nodes the rotation of case 1 moves. */
  lemma SibRedMoved<K, V>(nodes: seq<RBNode<K, V>>, root: int, elems: set<int>, bh: map<int, int>, ph: int,
                          nodes': seq<RBNode<K, V>>, root': int, n: int, p: int, tl: bool, i: int)
    requires SibRedPoint(nodes, root, elems, bh, ph, nodes', root', n, p, tl)
    requires var s := Link(nodes[p], !tl); BlackAt(nodes, elems, bh, n, p, s) && RedAt(nodes, elems, NIL, s)
    requires i == p || i == Link(nodes[p], !tl)
    ensures var s := Link(nodes[p], !tl);
      BlackAt(nodes', elems, bh[p := bh[s]][s := bh[p]], n, p, i) && RedAt(nodes', elems, NIL, i)
  {
    var s := Link(nodes[p], !tl);
    var bh' := bh[p := bh[s]][s := bh[p]];
    var b, c := Link(nodes[s], tl), Link(nodes[s], !tl);
    assert nodes'[p] == SetLink(nodes[p], !tl, b).(parent := s, color := Red);
    assert nodes'[s] == SetLink(nodes[s], tl, p).(parent := nodes[p].parent, color := Black);
    assert BH(elems, bh', n) == BH(elems, bh, n) && BH(elems, bh', b) == BH(elems, bh, b) && BH(elems, bh', c) == BH(elems, bh, c);
    assert BH(elems, bh', p) == bh[s];
    assert n in elems ==> nodes'[n] == nodes[n];
    assert b in elems ==> nodes'[b].color == nodes[b].color;
    assert !RedLink(nodes, elems, b);
  }

  lemma SibRedColors<K, V>(nodes: seq<RBNode<K, V>>, root: int, elems: set<int>, bh: map<int, int>, ph: int,
                           nodes': seq<RBNode<K, V>>, root': int, n: int, p: int, tl: bool, s: int)
    requires AllLinks(nodes, root, elems, ph) && Balanced(nodes, elems, bh, n, p) && NoRedRed(nodes, elems, NIL)
    requires SibRedPoint(nodes, root, elems, bh, ph, nodes', root', n, p, tl) && s == Link(nodes[p], !tl)
    ensures Balanced(nodes', elems, bh[p := bh[s]][s := bh[p]], n, p) && NoRedRed(nodes', elems, NIL)
  {
    var bh' := bh[p := bh[s]][s := bh[p]];
    var g := nodes[p].parent;
    assert BlackAt(nodes, elems, bh, n, p, s) && RedAt(nodes, elems, NIL, s);
    forall i | i in elems ensures BlackAt(nodes', elems, bh', n, p, i) && RedAt(nodes', elems, NIL, i) {
      assert LinkAt(nodes, root, elems, ph, i) && BlackAt(nodes, elems, bh, n, p, i) && RedAt(nodes, elems, NIL, i);
      if i == p || i == s {
        SibRedMoved(nodes, root, elems, bh, ph, nodes', root', n, p, tl, i);
      } else if i == g {
        RotColorsAbove(nodes, root, elems, ph, bh, n, p, NIL, nodes', root', bh', n, p, NIL, p, tl, bh[s], bh[p]);
      } else {
        RotColorsAway(nodes, root, elems, ph, bh, n, p, NIL, nodes', root', bh', n, p, NIL, p, tl, bh[s], bh[p], i);
      }
    }
  }

  /** The neighbourhood of case 1, read off the loop state. */
  lemma SibRedSetup<K, V>(nodes: seq<RBNode<K, V>>, root: int, elems: set<int>, sub: map<int, set<int>>, bh: map<int, int>,
                          ph: int, n: int, p: int, nodes': seq<RBNode<K, V>>, root': int)
    requires DelShape(nodes, root, elems, sub, ph, n, p) && Balanced(nodes, elems, bh, n, p) && NoRedRed(nodes, elems, NIL)
    requires RootBlack(nodes, root) && p != NIL && 0 <= p < |nodes|
    requires var s := Sibling(nodes, p, n); 0 <= s < |nodes| && nodes[s].color == Red
    requires Rotated(nodes, root, nodes', root', p, nodes[p].left == n) && nodes'[p].color == Red && nodes'[Sibling(nodes, p, n)].color == Black
    ensures var tl := nodes[p].left == n; var s := Sibling(nodes, p, n);
      && SibRedPoint(nodes, root, elems, bh, ph, nodes', root', n, p, tl) && RotSets(nodes, elems, sub, p, tl)
      && s == Link(nodes[p], !tl) && p in sub
      && !RedLink(nodes, elems, Link(nodes[s], tl)) && Link(nodes[s], tl) in elems
  {
    var tl := nodes[p].left == n;
    var s := Sibling(nodes, p, n);
    DelSetup(nodes, root, elems, sub, bh, ph, n, p);
    assert s == Link(nodes[p], !tl);
    assert BlackAt(nodes, elems, bh, n, p, s) && RedAt(nodes, elems, NIL, s);
    assert RedAt(nodes, elems, NIL, p);
  }

  /** After case 1, `n` is unchanged below `p` and its new sibling, the old inner nephew, is black. */
  lemma SibRedFrame<K, V>(nodes: seq<RBNode<K, V>>, root: int, elems: set<int>, sub: map<int, set<int>>, bh: map<int, int>,
                          ph: int, nodes': seq<RBNode<K, V>>, root': int, n: int, p: int, tl: bool)
    requires SibRedPoint(nodes, root, elems, bh, ph, nodes', root', n, p, tl) && RotSets(nodes, elems, sub, p, tl)
    requires RootBlack(nodes, root)
    requires var s := Link(nodes[p], !tl); !RedLink(nodes, elems, Link(nodes[s], tl)) && Link(nodes[s], tl) in elems
    ensures nodes'[n] == nodes[n] && RootBlack(nodes', root')
    ensures 0 <= Sibling(nodes', p, n) < |nodes'| && nodes'[Sibling(nodes', p, n)].color == Black
    ensures SubOf(elems, RotSub(nodes, elems, sub, p, tl), n) == SubOf(elems, sub, n)
  {
    var s := Link(nodes[p], !tl);
    var b := Link(nodes[s], tl);
    assert nodes'[b].color == nodes[b].color;
    assert Sibling(nodes', p, n) == b;
    if root' == root && root != NIL {
      assert nodes'[root].color == nodes[root].color;
    }
  }

  /**
   * Case 1: the sibling is red. The parent turns red, the sibling black, and
   * the rotation at the parent towards `n` leaves `n` one black short below
   * the same, now red, parent, with a black sibling.
   */
  lemma DelRedSibling<K(!new), V>(nodes: seq<RBNode<K, V>>, root: int, elems: set<int>, sub: map<int, set<int>>, bh: map<int, int>, cmp: (K, K) -> int,
                                  ph: int, n: int, p: int, nodes': seq<RBNode<K, V>>, root': int)
    requires DelInv(nodes, root, elems, sub, bh, cmp, ph, n, p) && p != NIL && 0 <= p < |nodes|
    requires var s := Sibling(nodes, p, n); 0 <= s < |nodes| && nodes[s].color == Red
    requires Rotated(nodes, root, nodes', root', p, nodes[p].left == n) && nodes'[p].color == Red && nodes'[Sibling(nodes, p, n)].color == Black
    ensures var tl := nodes[p].left == n; var s := Sibling(nodes, p, n);
      && p in sub && p in bh && s in bh && 0 <= s < |nodes|
      && DelInv(nodes', root', elems, RotSub(nodes, elems, sub, p, tl), bh[p := bh[s]][s := bh[p]], cmp, ph, n, p)
      && nodes'[p].color == Red
      && var s' := Sibling(nodes', p, n); 0 <= s' < |nodes'| && nodes'[s'].color == Black
  {
    var tl := nodes[p].left == n;
    var s := Sibling(nodes, p, n);
    SibRedSetup(nodes, root, elems, sub, bh, ph, n, p, nodes', root');
    RotateShape(nodes, root, elems, sub, ph, nodes', root', p, tl);
    RotateOrdered(nodes, root, elems, sub, ph, cmp, nodes', root', p, tl);
    RotatedPayload(nodes, root, nodes', root', p, tl);
    PayloadDistinct(nodes, elems, nodes');
    ShapeLinks(nodes, root, elems, sub, ph);
    SibRedColors(nodes, root, elems, bh, ph, nodes', root', n, p, tl, s);
    SibRedFrame(nodes, root, elems, sub, bh, ph, nodes', root', n, p, tl);
  }

  // Case 4: the sibling is black, its child nearer `n` red and the other
  // black. Rotating at the sibling away from `n`, with the sibling painted
  // red and that child black, makes the far child of the new sibling red,
  // which case 5 needs.

  /** Link `c` is a red node (Go's `!isblack(c)`). */
  ghost predicate IsRed<K, V>(nodes: seq<RBNode<K, V>>, c: int) {
    0 <= c < |nodes| && nodes[c].color == Red
  }

  /** The facts case 4 works from: the rotation at the sibling `s`, lifting its near child. */
  ghost predicate NearPoint<K, V>(nodes: seq<RBNode<K, V>>, root: int, elems: set<int>, bh: map<int, int>, ph: int,
                                  nodes': seq<RBNode<K, V>>, root': int, n: int, p: int, tl: bool) {
    && 0 <= p < |nodes| && Link(nodes[p], tl) == n
    && var s := Link(nodes[p], !tl);
    && RotNeighbours(nodes, root, elems, ph, s, !tl) && nodes[s].parent == p
    && var near, far := Link(nodes[s], tl), Link(nodes[s], !tl);
    && p != near && p != Link(nodes[near], !tl)
    && s in bh && near in bh
    && nodes[s].color == Black && nodes[near].color == Red && !RedLink(nodes, elems, far)
    && Rotated(nodes, root, nodes', root', s, !tl) && nodes'[s].color == Red && nodes'[near].color == Black
  }

  /** The two nodes the rotation of case 4 moves. */
  lemma NearMoved<K, V>(nodes: seq<RBNode<K, V>>, root: int, elems: set<int>, bh: map<int, int>, ph: int,
                        nodes': seq<RBNode<K, V>>, root': int, n: int, p: int, tl: bool, i: int)
    requires NearPoint(nodes, root, elems, bh, ph, nodes', root', n, p, tl)
    requires var s := Link(nodes[p], !tl); BlackAt(nodes, elems, bh, n, p, s) && RedAt(nodes, elems, NIL, s)
    requires var near := Link(nodes[Link(nodes[p], !tl)], tl); BlackAt(nodes, elems, bh, n, p, near) && RedAt(nodes, elems, NIL, near)
    requires i == Link(nodes[p], !tl) || i == Link(nodes[Link(nodes[p], !tl)], tl)
    ensures var s := Link(nodes[p], !tl); var near := Link(nodes[s], tl);
      BlackAt(nodes', elems, bh[s := bh[near]][near := bh[s]], n, p, i) && RedAt(nodes', elems, NIL, i)
  {
    var s := Link(nodes[p], !tl);
    var near, far := Link(nodes[s], tl), Link(nodes[s], !tl);
    var bh' := bh[s := bh[near]][near := bh[s]];
    var b, c := Link(nodes[near], !tl), Link(nodes[near], tl);
    assert nodes'[s] == SetLink(nodes[s], tl, b).(parent := near, color := Red);
    assert nodes'[near] == SetLink(nodes[near], !tl, s).(parent := p, color := Black);
    assert BH(elems, bh', far) == BH(elems, bh, far) && BH(elems, bh', b) == BH(elems, bh, b) && BH(elems, bh', c) == BH(elems, bh, c);
    assert BH(elems, bh', s) == bh[near];
    assert far in elems ==> nodes'[far].color == nodes[far].color;
    assert b in elems ==> nodes'[b].color == nodes[b].color;
    assert !RedLink(nodes, elems, b);
  }

  lemma NearColors<K, V>(nodes: seq<RBNode<K, V>>, root: int, elems: set<int>, bh: map<int, int>, ph: int,
                         nodes': seq<RBNode<K, V>>, root': int, n: int, p: int, tl: bool, s: int, near: int)
    requires AllLinks(nodes, root, elems, ph) && Balanced(nodes, elems, bh, n, p) && NoRedRed(nodes, elems, NIL)
    requires NearPoint(nodes, root, elems, bh, ph, nodes', root', n, p, tl)
    requires s == Link(nodes[p], !tl) && near == Link(nodes[s], tl) && n != s
    ensures Balanced(nodes', elems, bh[s := bh[near]][near := bh[s]], n, p) && NoRedRed(nodes', elems, NIL)
  {
    var bh' := bh[s := bh[near]][near := bh[s]];
    assert BlackAt(nodes, elems, bh, n, p, s) && RedAt(nodes, elems, NIL, s);
    assert BlackAt(nodes, elems, bh, n, p, near) && RedAt(nodes, elems, NIL, near);
    forall i | i in elems ensures BlackAt(nodes', elems, bh', n, p, i) && RedAt(nodes', elems, NIL, i) {
      assert LinkAt(nodes, root, elems, ph, i) && BlackAt(nodes, elems, bh, n, p, i) && RedAt(nodes, elems, NIL, i);
      if i == s || i == near {
        NearMoved(nodes, root, elems, bh, ph, nodes', root', n, p, tl, i);
      } else if i == p {
        RotColorsAbove(nodes, root, elems, ph, bh, n, p, NIL, nodes', root', bh', n, p, NIL, s, !tl, bh[near], bh[s]);
      } else {
        RotColorsAway(nodes, root, elems, ph, bh, n, p, NIL, nodes', root', bh', n, p, NIL, s, !tl, bh[near], bh[s], i);
      }
    }
  }

  /** The neighbourhood of case 4, read off the loop state. */
  lemma NearSetup<K, V>(nodes: seq<RBNode<K, V>>, root: int, elems: set<int>, sub: map<int, set<int>>, bh: map<int, int>,
                        ph: int, n: int, p: int, nodes': seq<RBNode<K, V>>, root': int)
    requires DelShape(nodes, root, elems, sub, ph, n, p) && Balanced(nodes, elems, bh, n, p) && p != NIL && 0 <= p < |nodes|
    requires var tl := nodes[p].left == n; var s := Sibling(nodes, p, n);
      && 0 <= s < |nodes| && nodes[s].color == Black
      && IsRed(nodes, Link(nodes[s], tl)) && !IsRed(nodes, Link(nodes[s], !tl))
      && Rotated(nodes, root, nodes', root', s, !tl) && nodes'[s].color == Red && nodes'[Link(nodes[s], tl)].color == Black
    ensures var tl := nodes[p].left == n; var s := Sibling(nodes, p, n);
      && NearPoint(nodes, root, elems, bh, ph, nodes', root', n, p, tl) && RotSets(nodes, elems, sub, s, !tl)
      && s == Link(nodes[p], !tl) && n != s && n != p && s in sub && s in elems
      && n != Link(nodes[s], tl) && n != Link(nodes[Link(nodes[s], tl)], !tl)
      && (ph != NIL ==> nodes[ph].parent !in sub[s])
  {
    var tl := nodes[p].left == n;
    var s := Sibling(nodes, p, n);
    DelSetup(nodes, root, elems, sub, bh, ph, n, p);
    assert s == Link(nodes[p], !tl);
    var near := Link(nodes[s], tl);
    assert near in elems;
    PlaceholderApart(nodes, root, elems, sub, ph, s, near, !tl);
    RotateFacts(nodes, root, elems, sub, ph, s, !tl);
  }

  /** A child of `s` does not hold the placeholder when the placeholder hangs outside the subtree of `s`. */
  lemma PlaceholderApart<K, V>(nodes: seq<RBNode<K, V>>, root: int, elems: set<int>, sub: map<int, set<int>>, ph: int, s: int, c: int, side: bool)
    requires Shape(nodes, root, elems, sub, ph) && s in elems && c in elems && (c == nodes[s].left || c == nodes[s].right)
    requires ph != NIL ==> nodes[ph].parent !in sub[s]
    ensures ph != NIL ==> Link(nodes[c], side) != ph
  {
    assert ShapeAt(nodes, root, elems, sub, ph, s);
    assert c in sub[c] by { assert ShapeAt(nodes, root, elems, sub, ph, c); }
  }

  /** After case 4, `n` is unchanged below `p`, its new sibling is black and that sibling's far child red. */
  lemma NearFrame<K, V>(nodes: seq<RBNode<K, V>>, root: int, elems: set<int>, sub: map<int, set<int>>, bh: map<int, int>,
                        ph: int, nodes': seq<RBNode<K, V>>, root': int, n: int, p: int, tl: bool)
    requires NearPoint(nodes, root, elems, bh, ph, nodes', root', n, p, tl) && RotSets(nodes, elems, sub, Link(nodes[p], !tl), !tl)
    requires RootBlack(nodes, root) && 0 <= n < |nodes| && n != p
    requires var s := Link(nodes[p], !tl); n != s && n != Link(nodes[s], tl) && n != Link(nodes[Link(nodes[s], tl)], !tl)
    ensures nodes'[n] == nodes[n] && RootBlack(nodes', root') && root' == root
    ensures var s := Link(nodes[p], !tl); var near := Link(nodes[s], tl);
      && Link(nodes'[p], tl) == n && Link(nodes'[p], !tl) == near && near != n
      && 0 <= near < |nodes'| && nodes'[near].color == Black
      && Link(nodes'[near], !tl) == s && s in elems && nodes'[s].color == Red
      && SubOf(elems, RotSub(nodes, elems, sub, s, !tl), n) == SubOf(elems, sub, n)
  {
    var s := Link(nodes[p], !tl);
    var near := Link(nodes[s], tl);
    assert nodes'[p] == Redirect(nodes[p], s, near);
    if root != NIL {
      assert nodes'[root].color == nodes[root].color;
    }
  }

  /**
   * Case 4: the sibling is black, its child nearer `n` red and the other
   * black. The sibling turns red, that child black, and the rotation at the
   * sibling away from `n` makes that child the new, black, sibling of `n`,
   * whose far child is red.
   */
  lemma DelNearNephew<K(!new), V>(nodes: seq<RBNode<K, V>>, root: int, elems: set<int>, sub: map<int, set<int>>, bh: map<int, int>, cmp: (K, K) -> int,
                                  ph: int, n: int, p: int, nodes': seq<RBNode<K, V>>, root': int)
    requires DelInv(nodes, root, elems, sub, bh, cmp, ph, n, p) && p != NIL && 0 <= p < |nodes|
    requires var tl := nodes[p].left == n; var s := Sibling(nodes, p, n);
      && 0 <= s < |nodes| && nodes[s].color == Black
      && IsRed(nodes, Link(nodes[s], tl)) && !IsRed(nodes, Link(nodes[s], !tl))
      && Rotated(nodes, root, nodes', root', s, !tl) && nodes'[s].color == Red && nodes'[Link(nodes[s], tl)].color == Black
    ensures var tl := nodes[p].left == n; var s := Sibling(nodes, p, n); var near := Link(nodes[s], tl);
      && 0 <= s < |nodes| && s in sub && s in bh && near in bh
      && DelInv(nodes', root', elems, RotSub(nodes, elems, sub, s, !tl), bh[s := bh[near]][near := bh[s]], cmp, ph, n, p)
      && var s' := Sibling(nodes', p, n);
      && 0 <= s' < |nodes'| && nodes'[s'].color == Black && IsRed(nodes', Link(nodes'[s'], !(nodes'[p].left == n)))
  {
    var tl := nodes[p].left == n;
    var s := Sibling(nodes, p, n);
    var near := Link(nodes[s], tl);
    NearSetup(nodes, root, elems, sub, bh, ph, n, p, nodes', root');
    RotateShape(nodes, root, elems, sub, ph, nodes', root', s, !tl);
    RotateOrdered(nodes, root, elems, sub, ph, cmp, nodes', root', s, !tl);
    RotatedPayload(nodes, root, nodes', root', s, !tl);
    PayloadDistinct(nodes, elems, nodes');
    ShapeLinks(nodes, root, elems, sub, ph);
    NearColors(nodes, root, elems, bh, ph, nodes', root', n, p, tl, s, near);
    NearFrame(nodes, root, elems, sub, bh, ph, nodes', root', n, p, tl);
  }
  // Case 5: the sibling is black and its child farther from `n` red. The
  // sibling takes the parent's colour, parent and far child turn black, and
  // the rotation at the parent towards `n` puts a black node above `n`,
  // which ends the deficit.

  /** The recolouring of case 5, in Go's order: sibling, parent, far child. */
  ghost function FarPaint<K, V>(nodes: seq<RBNode<K, V>>, s: int, p: int, far: int): seq<RBNode<K, V>>
    requires 0 <= s < |nodes| && 0 <= p < |nodes| && 0 <= far < |nodes|
  {
    nodes[s := nodes[s].(color := nodes[p].color)][p := nodes[p].(color := Black)][far := nodes[far].(color := Black)]
  }

  /** The links and colours after case 5, pointwise against the state before it. */
  ghost predicate FarMoved<K, V>(nodes: seq<RBNode<K, V>>, root: int, nodes': seq<RBNode<K, V>>, root': int, p: int, tl: bool) {
    && |nodes'| == |nodes| && 0 <= p < |nodes|
    && var s := Link(nodes[p], !tl);
    && 0 <= s < |nodes|
    && var near, far, P := Link(nodes[s], tl), Link(nodes[s], !tl), nodes[p].parent;
    && 0 <= far < |nodes|
    && nodes'[p] == SetLink(nodes[p], !tl, near).(parent := s, color := Black)
    && nodes'[s] == SetLink(nodes[s], tl, p).(parent := P, color := nodes[p].color)
    && nodes'[far] == nodes[far].(color := Black)
    && (near != NIL ==> 0 <= near < |nodes| && nodes'[near] == nodes[near].(parent := p))
    && (P != NIL ==> 0 <= P < |nodes| && nodes'[P] == Redirect(nodes[P], p, s))
    && root' == (if P == NIL then s else root)
    && (forall k :: 0 <= k < |nodes| && k != p && k != s && k != near && k != P && k != far ==> nodes'[k] == nodes[k])
  }

  /** The facts case 5 works from. */
  ghost predicate FarPoint<K, V>(nodes: seq<RBNode<K, V>>, root: int, elems: set<int>, bh: map<int, int>, ph: int,
                                 nodes': seq<RBNode<K, V>>, root': int, n: int, p: int, tl: bool) {
    && RotNeighbours(nodes, root, elems, ph, p, tl) && Link(nodes[p], tl) == n && (n in elems || n == ph)
    && 0 <= n < |nodes| && nodes[n].color == Black
    && var s := Link(nodes[p], !tl);
    && var near, far := Link(nodes[s], tl), Link(nodes[s], !tl);
    && n != near && far in elems && 0 <= far < |nodes|
    && p in bh && s in bh && far in bh && 0 <= BH(elems, bh, n) && BH(elems, bh, n) + 1 == bh[s] && bh[p] == Blk(nodes[p]) + bh[s]
    && nodes[s].color == Black && nodes[far].color == Red
    && FarMoved(nodes, root, nodes', root', p, tl)
  }

  /** The three nodes case 5 recolours. */
  lemma FarColorsPainted<K, V>(nodes: seq<RBNode<K, V>>, root: int, elems: set<int>, bh: map<int, int>, ph: int,
                               nodes': seq<RBNode<K, V>>, root': int, n: int, p: int, tl: bool, i: int)
    requires FarPoint(nodes, root, elems, bh, ph, nodes', root', n, p, tl)
    requires var s := Link(nodes[p], !tl); BlackAt(nodes, elems, bh, n, p, s) && RedAt(nodes, elems, NIL, s)
    requires var far := Link(nodes[Link(nodes[p], !tl)], !tl);
      LinkAt(nodes, root, elems, ph, far) && BlackAt(nodes, elems, bh, n, p, far) && RedAt(nodes, elems, NIL, far)
    requires i == p || i == Link(nodes[p], !tl) || i == Link(nodes[Link(nodes[p], !tl)], !tl)
    ensures var s := Link(nodes[p], !tl); var far := Link(nodes[s], !tl);
      BlackAt(nodes', elems, bh[p := bh[s]][s := bh[p]][far := bh[far] + 1], NIL, NIL, i) && RedAt(nodes', elems, NIL, i)
  {
    var s := Link(nodes[p], !tl);
    var near, far := Link(nodes[s], tl), Link(nodes[s], !tl);
    var bh' := bh[p := bh[s]][s := bh[p]][far := bh[far] + 1];
    assert BH(elems, bh', n) == BH(elems, bh, n) && BH(elems, bh', near) == BH(elems, bh, near);
    assert BH(elems, bh', p) == bh[s] && BH(elems, bh', far) == bh[far] + 1;
    if i == far {
      var f := nodes[far];
      assert f.left != p && f.left != s && f.left != far && f.right != p && f.right != s && f.right != far;
      assert BH(elems, bh', f.left) == BH(elems, bh, f.left) && BH(elems, bh', f.right) == BH(elems, bh, f.right);
    }
  }

  /** The parent of `p`, which now holds `s` where it held `p`. */
  lemma FarColorsAbove<K, V>(nodes: seq<RBNode<K, V>>, root: int, elems: set<int>, bh: map<int, int>, ph: int,
                             nodes': seq<RBNode<K, V>>, root': int, n: int, p: int, tl: bool)
    requires FarPoint(nodes, root, elems, bh, ph, nodes', root', n, p, tl)
    requires var P := nodes[p].parent; P != NIL && BlackAt(nodes, elems, bh, n, p, P) && RedAt(nodes, elems, NIL, P)
    ensures var s := Link(nodes[p], !tl); var far := Link(nodes[s], !tl);
      BlackAt(nodes', elems, bh[p := bh[s]][s := bh[p]][far := bh[far] + 1], NIL, NIL, nodes[p].parent)
      && RedAt(nodes', elems, NIL, nodes[p].parent)
  {
    var s := Link(nodes[p], !tl);
    var far := Link(nodes[s], !tl);
    var bh' := bh[p := bh[s]][s := bh[p]][far := bh[far] + 1];
    var P := nodes[p].parent;
    var m := nodes[P];
    var d := if m.left == p then m.right else m.left;
    assert d != p && d != s && d != far;
    assert d in elems ==> nodes'[d].color == nodes[d].color;
    assert BH(elems, bh', d) == BH(elems, bh, d) && BH(elems, bh', s) == bh[p];
  }

  /** Any other tree node keeps its links, colour and black height. */
  lemma FarColorsAway<K, V>(nodes: seq<RBNode<K, V>>, root: int, elems: set<int>, bh: map<int, int>, ph: int,
                            nodes': seq<RBNode<K, V>>, root': int, n: int, p: int, tl: bool, i: int)
    requires FarPoint(nodes, root, elems, bh, ph, nodes', root', n, p, tl)
    requires var s := Link(nodes[p], !tl); i in elems && i != p && i != s && i != Link(nodes[s], !tl) && i != nodes[p].parent
    requires LinkAt(nodes, root, elems, ph, i) && BlackAt(nodes, elems, bh, n, p, i) && RedAt(nodes, elems, NIL, i)
    ensures var s := Link(nodes[p], !tl); var far := Link(nodes[s], !tl);
      BlackAt(nodes', elems, bh[p := bh[s]][s := bh[p]][far := bh[far] + 1], NIL, NIL, i) && RedAt(nodes', elems, NIL, i)
  {
    var s := Link(nodes[p], !tl);
    var far := Link(nodes[s], !tl);
    var bh' := bh[p := bh[s]][s := bh[p]][far := bh[far] + 1];
    FarAwayFrame(nodes, root, elems, bh, ph, nodes', root', n, p, tl, i);
    ColorsKeptAt(nodes, elems, bh, n, p, NIL, nodes', bh', NIL, NIL, NIL, i);
  }

  lemma FarAwayFrame<K, V>(nodes: seq<RBNode<K, V>>, root: int, elems: set<int>, bh: map<int, int>, ph: int,
                            nodes': seq<RBNode<K, V>>, root': int, n: int, p: int, tl: bool, i: int)
    requires FarPoint(nodes, root, elems, bh, ph, nodes', root', n, p, tl)
    requires var s := Link(nodes[p], !tl); i in elems && i != p && i != s && i != Link(nodes[s], !tl) && i != nodes[p].parent
    requires LinkAt(nodes, root, elems, ph, i)
    ensures var s := Link(nodes[p], !tl); var far := Link(nodes[s], !tl); var m := nodes[i];
      && nodes'[i].left == m.left && nodes'[i].right == m.right && nodes'[i].color == m.color
      && m.left != p && m.left != s && m.left != far && m.right != p && m.right != s && m.right != far
      && (m.left in elems ==> nodes'[m.left].color == nodes[m.left].color)
      && (m.right in elems ==> nodes'[m.right].color == nodes[m.right].color)
  {
    var s := Link(nodes[p], !tl);
    var far := Link(nodes[s], !tl);
    var m := nodes[i];
    assert nodes[p].parent != i && nodes[s].parent != i && nodes[far].parent != i;
  }

  lemma FarColors<K, V>(nodes: seq<RBNode<K, V>>, root: int, elems: set<int>, bh: map<int, int>, ph: int,
                        nodes': seq<RBNode<K, V>>, root': int, n: int, p: int, tl: bool, s: int, far: int)
    requires AllLinks(nodes, root, elems, ph) && Balanced(nodes, elems, bh, n, p) && NoRedRed(nodes, elems, NIL)
    requires FarPoint(nodes, root, elems, bh, ph, nodes', root', n, p, tl)
    requires s == Link(nodes[p], !tl) && far == Link(nodes[s], !tl)
    ensures Balanced(nodes', elems, bh[p := bh[s]][s := bh[p]][far := bh[far] + 1], NIL, NIL) && NoRedRed(nodes', elems, NIL)
  {
    var bh' := bh[p := bh[s]][s := bh[p]][far := bh[far] + 1];
    var P := nodes[p].parent;
    assert BlackAt(nodes, elems, bh, n, p, s) && RedAt(nodes, elems, NIL, s);
    assert LinkAt(nodes, root, elems, ph, far) && BlackAt(nodes, elems, bh, n, p, far) && RedAt(nodes, elems, NIL, far);
    forall i | i in elems ensures BlackAt(nodes', elems, bh', NIL, NIL, i) && RedAt(nodes', elems, NIL, i) {
      assert LinkAt(nodes, root, elems, ph, i) && BlackAt(nodes, elems, bh, n, p, i) && RedAt(nodes, elems, NIL, i);
      if i == p || i == s || i == far {
        FarColorsPainted(nodes, root, elems, bh, ph, nodes', root', n, p, tl, i);
      } else if i == P {
        FarColorsAbove(nodes, root, elems, bh, ph, nodes', root', n, p, tl);
      } else {
        FarColorsAway(nodes, root, elems, bh, ph, nodes', root', n, p, tl, i);
      }
    }
  }
  /** The rotation of case 5 on the recoloured nodes, read against the nodes before the recolouring. */
  lemma FarMovedOf<K, V>(nodes: seq<RBNode<K, V>>, root: int, nodes1: seq<RBNode<K, V>>, nodes': seq<RBNode<K, V>>, root': int, p: int, tl: bool)
    requires 0 <= p < |nodes|
    requires var s := Link(nodes[p], !tl);
      && 0 <= s < |nodes| && s != p
      && var near, far, P := Link(nodes[s], tl), Link(nodes[s], !tl), nodes[p].parent;
      && 0 <= far < |nodes| && far != p && far != s && far != near && far != P
      && |nodes1| == |nodes|
      && nodes1[p] == nodes[p].(color := Black) && nodes1[s] == nodes[s].(color := nodes[p].color)
      && nodes1[far] == nodes[far].(color := Black)
      && (forall k :: 0 <= k < |nodes| && k != s && k != p && k != far ==> nodes1[k] == nodes[k])
    requires Rotated(nodes1, root, nodes', root', p, tl) && nodes'[p].color == Black && nodes'[Link(nodes[p], !tl)].color == nodes[p].color
    ensures FarMoved(nodes, root, nodes', root', p, tl)
  {
  }

  /** The recolouring of case 5 keeps every link and the colour of every node but the three it paints. */
  lemma FarPaintLinks<K, V>(nodes: seq<RBNode<K, V>>, elems: set<int>, sub: map<int, set<int>>, ph: int, s: int, p: int, far: int, tl: bool)
    requires 0 <= s < |nodes| && 0 <= p < |nodes| && 0 <= far < |nodes| && p in sub && Link(nodes[p], !tl) == s
    requires ph != NIL ==> 0 <= ph < |nodes| && ph != s && ph != p && ph != far
    ensures var nodes1 := FarPaint(nodes, s, p, far);
      && (s != p && far != s && far != p ==>
            && nodes1[p] == nodes[p].(color := Black) && nodes1[s] == nodes[s].(color := nodes[p].color)
            && nodes1[far] == nodes[far].(color := Black))
      && (forall k :: 0 <= k < |nodes| && k != s && k != p && k != far ==> nodes1[k] == nodes[k])
      && SameLinks(nodes, nodes1) && (ph != NIL ==> nodes1[ph].color == nodes[ph].color)
      && Link(nodes1[p], !tl) == s && Link(nodes1[s], tl) == Link(nodes[s], tl)
      && RotSub(nodes1, elems, sub, p, tl) == RotSub(nodes, elems, sub, p, tl)
  {
  }

  /** The neighbourhood of case 5, read off the loop state and the two steps of the case. */
  lemma FarSetup<K, V>(nodes: seq<RBNode<K, V>>, root: int, elems: set<int>, sub: map<int, set<int>>, bh: map<int, int>,
                       ph: int, n: int, p: int, nodes1: seq<RBNode<K, V>>, nodes': seq<RBNode<K, V>>, root': int)
    requires DelShape(nodes, root, elems, sub, ph, n, p) && Balanced(nodes, elems, bh, n, p) && p != NIL && 0 <= p < |nodes|
    requires var tl := nodes[p].left == n; var s := Sibling(nodes, p, n);
      && 0 <= s < |nodes| && nodes[s].color == Black && IsRed(nodes, Link(nodes[s], !tl))
      && nodes1 == FarPaint(nodes, s, p, Link(nodes[s], !tl))
      && Rotated(nodes1, root, nodes', root', p, tl) && nodes'[p].color == Black && nodes'[s].color == nodes[p].color
    ensures var tl := nodes[p].left == n; var s := Sibling(nodes, p, n);
      && FarPoint(nodes, root, elems, bh, ph, nodes', root', n, p, tl) && RotSets(nodes, elems, sub, p, tl)
      && s == Link(nodes[p], !tl) && p in elems && s in elems && p in sub
      && (ph != NIL ==> Link(nodes[s], tl) != ph)
  {
    var tl := nodes[p].left == n;
    var s := Sibling(nodes, p, n);
    DelSetup(nodes, root, elems, sub, bh, ph, n, p);
    assert s == Link(nodes[p], !tl);
    var near, far := Link(nodes[s], tl), Link(nodes[s], !tl);
    assert far in elems && far in bh;
    FarPaintLinks(nodes, elems, sub, ph, s, p, far, tl);
    FarMovedOf(nodes, root, nodes1, nodes', root', p, tl);
  }

  /** The root stays black: `s` takes the colour of `p` when it replaces `p` at the root. */
  lemma FarRoot<K, V>(nodes: seq<RBNode<K, V>>, root: int, elems: set<int>, bh: map<int, int>, ph: int,
                      nodes': seq<RBNode<K, V>>, root': int, n: int, p: int, tl: bool)
    requires FarPoint(nodes, root, elems, bh, ph, nodes', root', n, p, tl) && RootBlack(nodes, root)
    ensures RootBlack(nodes', root')
  {
    var s := Link(nodes[p], !tl);
    var near, far, P := Link(nodes[s], tl), Link(nodes[s], !tl), nodes[p].parent;
    if P != NIL && root != NIL {
      assert root != p && root != s && root != far && root != near;
    }
  }

  /** Case 5 keeps the shape, the order and the distinct keys. */
  lemma FarRotated<K(!new), V>(nodes: seq<RBNode<K, V>>, root: int, elems: set<int>, sub: map<int, set<int>>, cmp: (K, K) -> int,
                               ph: int, p: int, tl: bool, nodes1: seq<RBNode<K, V>>, nodes': seq<RBNode<K, V>>, root': int)
    requires TotalOrder(cmp) && Shape(nodes, root, elems, sub, ph) && Ordered(nodes, elems, sub, cmp, NIL) && Distinct(nodes, elems)
    requires 0 <= p < |nodes| && p in elems && p in sub
    requires var s := Link(nodes[p], !tl);
      && 0 <= s < |nodes| && s in elems && s != p && (ph != NIL ==> Link(nodes[s], tl) != ph)
      && var far := Link(nodes[s], !tl);
      && far in elems && 0 <= far < |nodes| && far != s && far != p
      && nodes1 == FarPaint(nodes, s, p, far) && Rotated(nodes1, root, nodes', root', p, tl)
    ensures Shape(nodes', root', elems, RotSub(nodes, elems, sub, p, tl), ph)
    ensures Ordered(nodes', elems, RotSub(nodes, elems, sub, p, tl), cmp, NIL) && Distinct(nodes', elems)
  {
    var s := Link(nodes[p], !tl);
    var far := Link(nodes[s], !tl);
    FarPaintLinks(nodes, elems, sub, ph, s, p, far, tl);
    SameLinksKeep(nodes, root, elems, sub, ph, cmp, nodes1);
    RotateShape(nodes1, root, elems, sub, ph, nodes', root', p, tl);
    RotateOrdered(nodes1, root, elems, sub, ph, cmp, nodes', root', p, tl);
    RotatedPayload(nodes1, root, nodes', root', p, tl);
    PayloadDistinct(nodes1, elems, nodes');
  }

  /**
   * Case 5: the sibling is black and its child farther from `n` red. After
   * the recolouring and the rotation at `p` towards `n` the deficit is gone.
   */
  lemma DelFarNephew<K(!new), V>(nodes: seq<RBNode<K, V>>, root: int, elems: set<int>, sub: map<int, set<int>>, bh: map<int, int>, cmp: (K, K) -> int,
                                 ph: int, n: int, p: int, nodes1: seq<RBNode<K, V>>, nodes': seq<RBNode<K, V>>, root': int)
    requires DelInv(nodes, root, elems, sub, bh, cmp, ph, n, p) && p != NIL && 0 <= p < |nodes|
    requires var tl := nodes[p].left == n; var s := Sibling(nodes, p, n);
      && 0 <= s < |nodes| && nodes[s].color == Black && IsRed(nodes, Link(nodes[s], !tl))
      && nodes1 == FarPaint(nodes, s, p, Link(nodes[s], !tl))
      && Rotated(nodes1, root, nodes', root', p, tl) && nodes'[p].color == Black && nodes'[s].color == nodes[p].color
    ensures var tl := nodes[p].left == n; var s := Sibling(nodes, p, n); var far := Link(nodes[s], !tl);
      && 0 <= s < |nodes| && p in sub && p in bh && s in bh && far in bh
      && DelDone(nodes', root', elems, RotSub(nodes, elems, sub, p, tl), bh[p := bh[s]][s := bh[p]][far := bh[far] + 1], cmp, ph)
  {
    var tl := nodes[p].left == n;
    var s := Sibling(nodes, p, n);
    var far := Link(nodes[s], !tl);
    FarSetup(nodes, root, elems, sub, bh, ph, n, p, nodes1, nodes', root');
    FarRotated(nodes, root, elems, sub, cmp, ph, p, tl, nodes1, nodes', root');
    ShapeLinks(nodes, root, elems, sub, ph);
    FarColors(nodes, root, elems, bh, ph, nodes', root', n, p, tl, s, far);
    FarRoot(nodes, root, elems, bh, ph, nodes', root', n, p, tl);
  }
}
