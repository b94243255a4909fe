/**
 * Go's `RBtree` and the node operations of `RBTnode`, as a class over the
 * node arena. Every method follows the Go statements; the proof of each step
 * is one of the value-level lemmas of the other modules.
 */
module RedBlack {
  import opened RBNodes
  import opened RBSearch
  import opened RBRotate
  import opened RBInsert
  import opened RBRemove
  import opened RBSplice
  import opened RBSwap

  datatype Option<T> = None | Some(value: T)

  /** Go's `RBTpaire`: the key (`first`) and the value of a node. */
  datatype Pair<K, V> = Pair(first: K, value: V)

  /** Every slot keeps its key, its value and its `valid` flag. */
  ghost predicate SameSlots<K, V>(nodes: seq<RBNode<K, V>>, nodes': seq<RBNode<K, V>>) {
    |nodes'| == |nodes| &&
    forall k :: 0 <= k < |nodes| ==>
      nodes'[k].key == nodes[k].key && nodes'[k].value == nodes[k].value && nodes'[k].valid == nodes[k].valid
  }

  /** The tree nodes of `elems` are the same slots in both arenas; slots outside the tree may differ or be gone. */
  ghost predicate SameTree<K, V>(nodes: seq<RBNode<K, V>>, nodes': seq<RBNode<K, V>>, elems: set<int>) {
    forall i :: i in elems ==> 0 <= i < |nodes| && 0 <= i < |nodes'| && nodes'[i] == nodes[i]
  }

  /** Only the tree slots matter: a red-black tree stays one whatever happens to the other slots. */
  lemma SameTreeKeep<K(!new), V>(nodes: seq<RBNode<K, V>>, root: int, elems: set<int>, sub: map<int, set<int>>, bh: map<int, int>, cmp: (K, K) -> int,
                                 nodes': seq<RBNode<K, V>>)
    requires RBTree(nodes, root, elems, sub, bh, cmp) && SameTree(nodes, nodes', elems)
    ensures RBTree(nodes', root, elems, sub, bh, cmp)
  {
    forall i | i in elems
      ensures ShapeAt(nodes', root, elems, sub, NIL, i) && OrderedAt(nodes', elems, sub, cmp, NIL, i)
      ensures BlackAt(nodes', elems, bh, NIL, NIL, i) && RedAt(nodes', elems, NIL, i)
    {
      assert ShapeAt(nodes, root, elems, sub, NIL, i) && OrderedAt(nodes, elems, sub, cmp, NIL, i);
      assert BlackAt(nodes, elems, bh, NIL, NIL, i) && RedAt(nodes, elems, NIL, i);
      SameTreeAt(nodes, root, elems, sub, bh, cmp, nodes', i);
    }
    assert root != NIL ==> root in elems;
  }

  lemma SameTreeAt<K(!new), V>(nodes: seq<RBNode<K, V>>, root: int, elems: set<int>, sub: map<int, set<int>>, bh: map<int, int>, cmp: (K, K) -> int,
                               nodes': seq<RBNode<K, V>>, i: int)
    requires Shape(nodes, root, elems, sub, NIL) && SameTree(nodes, nodes', elems) && i in elems
    requires ShapeAt(nodes, root, elems, sub, NIL, i) && OrderedAt(nodes, elems, sub, cmp, NIL, i)
    requires BlackAt(nodes, elems, bh, NIL, NIL, i) && RedAt(nodes, elems, NIL, i)
    ensures ShapeAt(nodes', root, elems, sub, NIL, i) && OrderedAt(nodes', elems, sub, cmp, NIL, i)
    ensures BlackAt(nodes', elems, bh, NIL, NIL, i) && RedAt(nodes', elems, NIL, i)
  {
    var n := nodes[i];
    assert nodes'[i] == n;
    assert n.left in elems ==> nodes'[n.left] == nodes[n.left];
    assert n.right in elems ==> nodes'[n.right] == nodes[n.right];
    assert n.parent in elems ==> nodes'[n.parent] == nodes[n.parent];
    assert forall j :: j in sub[i] ==> j in elems && nodes'[j] == nodes[j];
  }

  /** An insertion point stays one when only slots outside the tree change. */
  lemma SameTreeInsertionPoint<K, V>(nodes: seq<RBNode<K, V>>, elems: set<int>, sub: map<int, set<int>>, cmp: (K, K) -> int, key: K, p: int,
                                     nodes': seq<RBNode<K, V>>)
    requires InsertionPoint(nodes, elems, sub, cmp, key, p) && SameTree(nodes, nodes', elems)
    ensures InsertionPoint(nodes', elems, sub, cmp, key, p)
  {
    assert p != NIL ==> nodes'[p] == nodes[p];
  }

  /** The key of `i` is above that of `j` when `j` comes right after it, so a successor rules out a maximum. */
  lemma SuccNotMax<K(!new), V>(nodes: seq<RBNode<K, V>>, elems: set<int>, cmp: (K, K) -> int, i: int, j: int)
    requires TotalOrder(cmp) && IsSucc(nodes, elems, cmp, i, j)
    ensures !IsMax(nodes, elems, cmp, i)
  {
    assert cmp(nodes[i].key, nodes[j].key) < 0;
    assert j != i;
  }

  /** The mirror image of `SuccNotMax`. */
  lemma PredNotMin<K(!new), V>(nodes: seq<RBNode<K, V>>, elems: set<int>, cmp: (K, K) -> int, i: int, j: int)
    requires TotalOrder(cmp) && IsPred(nodes, elems, cmp, i, j)
    ensures !IsMin(nodes, elems, cmp, i)
  {
    assert cmp(nodes[j].key, nodes[i].key) < 0;
    assert j != i;
  }

  /** `nodes'` differs from `nodes` at most in the three links of each slot. */
  ghost predicate Relinked<K, V>(nodes: seq<RBNode<K, V>>, nodes': seq<RBNode<K, V>>) {
    |nodes'| == |nodes| &&
    forall k :: 0 <= k < |nodes| ==> nodes'[k] == nodes[k].(left := nodes'[k].left, right := nodes'[k].right, parent := nodes'[k].parent)
  }

  /**
   * What the pointer updates of a rotation at `x` rely on: the lifted child
   * `s` exists, and `x`, `s`, the inner grandchild and the parent of `x` are
   * different slots.
   */
  ghost predicate Rotatable<K, V>(nodes: seq<RBNode<K, V>>, x: int, toLeft: bool) {
    && 0 <= x < |nodes|
    && var s := Link(nodes[x], !toLeft);
    && 0 <= s < |nodes| && s != x
    && var b, P := Link(nodes[s], toLeft), nodes[x].parent;
    && (b != NIL ==> 0 <= b < |nodes| && b != x && b != s)
    && (P != NIL ==> 0 <= P < |nodes| && P != x && P != s && P != b)
  }

  /** The neighbourhood facts of a rotation in a tree include what its pointer updates need. */
  lemma NeighboursRotatable<K, V>(nodes: seq<RBNode<K, V>>, root: int, elems: set<int>, ph: int, x: int, toLeft: bool)
    requires RotNeighbours(nodes, root, elems, ph, x, toLeft)
    ensures Rotatable(nodes, x, toLeft)
  {
    assert LinkAt(nodes, root, elems, ph, x);
  }

  /** The six pointer updates of Go's `rotateleft`/`rotateright`, one arena after each. */
  ghost predicate RotationSteps<K, V>(n0: seq<RBNode<K, V>>, x: int, toLeft: bool, root: int,
                                      n1: seq<RBNode<K, V>>, n2: seq<RBNode<K, V>>, n3: seq<RBNode<K, V>>,
                                      n4: seq<RBNode<K, V>>, n5: seq<RBNode<K, V>>, n6: seq<RBNode<K, V>>, root': int)
    requires Rotatable(n0, x, toLeft)
  {
    var P, s := n0[x].parent, Link(n0[x], !toLeft);
    && n1 == n0[s := n0[s].(parent := P)]
    && n2 == n1[x := SetLink(n1[x], !toLeft, Link(n1[s], toLeft))]
    && var b := Link(n2[x], !toLeft);
    && n3 == (if b != NIL then n2[b := n2[b].(parent := x)] else n2)
    && n4 == n3[x := n3[x].(parent := s)]
    && n5 == n4[s := SetLink(n4[s], toLeft, x)]
    && n6 == (if P != NIL then n5[P := Redirect(n5[P], x, s)] else n5)
    && root' == (if P != NIL then root else s)
  }

  /** The six pointer updates make up the rotation at `x`. */
  lemma RotateSteps<K, V>(n0: seq<RBNode<K, V>>, x: int, toLeft: bool, root: int,
                          n1: seq<RBNode<K, V>>, n2: seq<RBNode<K, V>>, n3: seq<RBNode<K, V>>,
                          n4: seq<RBNode<K, V>>, n5: seq<RBNode<K, V>>, n6: seq<RBNode<K, V>>, root': int)
    requires Rotatable(n0, x, toLeft) && RotationSteps(n0, x, toLeft, root, n1, n2, n3, n4, n5, n6, root')
    ensures Rotated(n0, root, n6, root', x, toLeft)
  {
  }

  /** The six pointer updates change links only. */
  lemma RotateStepsRelink<K, V>(n0: seq<RBNode<K, V>>, x: int, toLeft: bool, root: int,
                                n1: seq<RBNode<K, V>>, n2: seq<RBNode<K, V>>, n3: seq<RBNode<K, V>>,
                                n4: seq<RBNode<K, V>>, n5: seq<RBNode<K, V>>, n6: seq<RBNode<K, V>>, root': int)
    requires Rotatable(n0, x, toLeft) && RotationSteps(n0, x, toLeft, root, n1, n2, n3, n4, n5, n6, root')
    ensures Relinked(n0, n6)
  {
  }

  /**
   * Recolouring the pivot and the lifted child before a rotation does not
   * change which rotation it is: the rotation is also one of the arena before
   * the recolouring.
   */
  lemma RotatedRecolored<K, V>(nodes: seq<RBNode<K, V>>, nodes1: seq<RBNode<K, V>>, root: int, nodes': seq<RBNode<K, V>>, root': int, x: int, toLeft: bool)
    requires SameLinks(nodes, nodes1) && Rotatable(nodes, x, toLeft)
    requires forall k :: 0 <= k < |nodes| && k != x && k != Link(nodes[x], !toLeft) ==> nodes1[k] == nodes[k]
    requires Rotated(nodes1, root, nodes', root', x, toLeft)
    ensures Rotated(nodes, root, nodes', root', x, toLeft)
  {
    var s := Link(nodes[x], !toLeft);
    assert nodes1[x] == nodes[x].(color := nodes1[x].color);
    assert Link(nodes1[x], !toLeft) == s;
    assert nodes1[s] == nodes[s].(color := nodes1[s].color);
  }

  /** The neighbours the body of `rotate` reads: parent, grandparent and uncle of `c`, all distinct. */
  lemma FixNeighbours<K(!new), V>(nodes: seq<RBNode<K, V>>, root: int, elems: set<int>, sub: map<int, set<int>>, bh: map<int, int>, cmp: (K, K) -> int, c: int)
    requires FixInv(nodes, root, elems, sub, bh, cmp, c)
    ensures var p := nodes[c].parent;
      p != NIL ==> p in elems && 0 <= p < |nodes| && p != c && (nodes[p].left == c || nodes[p].right == c)
    ensures var p := nodes[c].parent;
      p != NIL && 0 <= p < |nodes| && nodes[p].color == Red ==>
        && var g := nodes[p].parent;
        && g in elems && 0 <= g < |nodes| && g != p && g != c && (nodes[g].left == p || nodes[g].right == p)
        && var u := Sibling(nodes, g, p);
        && u != p && u != g && u != c && (u != NIL ==> u in elems && 0 <= u < |nodes|)
  {
    assert ShapeAt(nodes, root, elems, sub, NIL, c);
    ChildSubSmaller(nodes, root, elems, sub, NIL, c);
    var p := nodes[c].parent;
    if p != NIL && nodes[p].color == Red {
      assert ShapeAt(nodes, root, elems, sub, NIL, p);
      ChildSubSmaller(nodes, root, elems, sub, NIL, p);
      var g := nodes[p].parent;
      assert ShapeAt(nodes, root, elems, sub, NIL, g);
      var u := Sibling(nodes, g, p);
      if u != NIL {
        ChildSubSmaller(nodes, root, elems, sub, NIL, u);
      }
    }
  }

  /** The field updates of Go's `Insert` on the new node `x` and on its parent change no payload; `x` becomes valid. */
  lemma InsertSlots<K, V>(n0: seq<RBNode<K, V>>, x: int, p: int, c: Color, n': seq<RBNode<K, V>>)
    requires 0 <= x < |n0| && (p == NIL || 0 <= p < |n0|)
    requires var n1 := n0[x := n0[x].(parent := p, left := NIL, right := NIL, valid := true)];
      var n2 := n1[x := n1[x].(color := c)];
      n' == n2 || (p != NIL && (n' == n2[p := n2[p].(left := x)] || n' == n2[p := n2[p].(right := x)]))
    ensures SameSlots(n0[x := n0[x].(valid := true)], n')
  {
  }

  /** Marking slot `x` valid and adding it to the tree keeps every valid slot in the tree. */
  lemma ValidSlots<K, V>(nodes: seq<RBNode<K, V>>, elems: set<int>, x: int, nodes': seq<RBNode<K, V>>)
    requires forall i :: 0 <= i < |nodes| && nodes[i].valid ==> i in elems
    requires 0 <= x < |nodes| && SameSlots(nodes[x := nodes[x].(valid := true)], nodes')
    ensures forall i :: 0 <= i < |nodes'| && nodes'[i].valid ==> i in elems + {x}
  {
    forall i | 0 <= i < |nodes'| && nodes'[i].valid
      ensures i in elems + {x}
    {
      if i != x {
        assert nodes[x := nodes[x].(valid := true)][i] == nodes[i];
      }
    }
  }

  /** Slots keep their payload along a chain of arenas. */
  lemma SameSlotsTrans<K, V>(n0: seq<RBNode<K, V>>, n1: seq<RBNode<K, V>>, n2: seq<RBNode<K, V>>)
    requires SameSlots(n0, n1) && SameSlots(n1, n2)
    ensures SameSlots(n0, n2)
  {
  }

  /** The three colour updates of the red-uncle case of `rotate`: parent and uncle black, grandparent red. */
  function RecolorUp<K, V>(nodes: seq<RBNode<K, V>>, p: int, u: int, g: int): (r: seq<RBNode<K, V>>)
    requires 0 <= p < |nodes| && 0 <= u < |nodes| && 0 <= g < |nodes|
    ensures |r| == |nodes|
  {
    var n1 := nodes[p := nodes[p].(color := Black)];
    var n2 := n1[u := n1[u].(color := Black)];
    n2[g := n2[g].(color := Red)]
  }

  /** The red-uncle case of `rotate`, stated on the variables the loop reads. */
  lemma RedUncleStep<K(!new), V>(nodes: seq<RBNode<K, V>>, root: int, elems: set<int>, sub: map<int, set<int>>, bh: map<int, int>, cmp: (K, K) -> int,
                                 c: int, p: int, g: int, u: int, nodes': seq<RBNode<K, V>>, bh': map<int, int>)
    requires FixInv(nodes, root, elems, sub, bh, cmp, c)
    requires p == nodes[c].parent && p != NIL && 0 <= p < |nodes| && nodes[p].color == Red
    requires g == nodes[p].parent && 0 <= g < |nodes| && u == Sibling(nodes, g, p)
    requires u != NIL && 0 <= u < |nodes| && nodes[u].color == Red
    requires nodes' == RecolorUp(nodes, p, u, g)
    requires p in bh && u in bh && bh' == bh[p := bh[p] + 1][u := bh[u] + 1]
    ensures FixInv(nodes', root, elems, sub, bh', cmp, g)
    ensures 0 <= FixRank(nodes', elems, sub, g) < FixRank(nodes, elems, sub, c)
    ensures SameSlots(nodes, nodes')
  {
    FixNeighbours(nodes, root, elems, sub, bh, cmp, c);
    assert Recolored(nodes, nodes', p, u, g);
    FixRecolor(nodes, root, elems, sub, bh, cmp, c, nodes');
  }

  /** The inner-child case of `rotate` may rotate at the parent `p` away from `c`. */
  lemma InnerRotatable<K(!new), V>(nodes: seq<RBNode<K, V>>, root: int, elems: set<int>, sub: map<int, set<int>>, bh: map<int, int>, cmp: (K, K) -> int,
                                   c: int, p: int, g: int, tl: bool)
    requires FixInv(nodes, root, elems, sub, bh, cmp, c)
    requires p == nodes[c].parent && p != NIL && 0 <= p < |nodes| && nodes[p].color == Red
    requires g == nodes[p].parent && 0 <= g < |nodes| && Link(nodes[g], tl) == p && Link(nodes[p], !tl) == c
    ensures Rotatable(nodes, p, tl)
  {
    FixNeighbours(nodes, root, elems, sub, bh, cmp, c);
    RotateFacts(nodes, root, elems, sub, NIL, p, tl);
    NeighboursRotatable(nodes, root, elems, NIL, p, tl);
  }

  /** After the rotation of the inner-child case, the parent is the red node to repair, now an outer child. */
  lemma InnerRotated<K(!new), V>(nodes: seq<RBNode<K, V>>, root: int, elems: set<int>, sub: map<int, set<int>>, bh: map<int, int>, cmp: (K, K) -> int,
                                 c: int, p: int, g: int, tl: bool, nodes': seq<RBNode<K, V>>, root': int)
    requires FixInv(nodes, root, elems, sub, bh, cmp, c)
    requires p == nodes[c].parent && p != NIL && 0 <= p < |nodes| && nodes[p].color == Red
    requires g == nodes[p].parent && 0 <= g < |nodes| && Link(nodes[g], tl) == p && Link(nodes[p], !tl) == c
    requires Rotated(nodes, root, nodes', root', p, tl) && Relinked(nodes, nodes')
    ensures root' == root && p in sub && 0 <= p < |nodes'|
    ensures FixInv(nodes', root, elems, RotSub(nodes, elems, sub, p, tl), bh, cmp, p)
    ensures FixRank(nodes', elems, RotSub(nodes, elems, sub, p, tl), p) == FixRank(nodes, elems, sub, c)
    ensures Inner(nodes, c) && !Inner(nodes', p)
    ensures SameSlots(nodes, nodes')
  {
    FixNeighbours(nodes, root, elems, sub, bh, cmp, c);
    assert ShapeAt(nodes, root, elems, sub, NIL, g);
    assert (nodes[g].left == p) == tl;
    assert nodes'[p].color == nodes[p].color && nodes'[c].color == nodes[c].color;
    FixInner(nodes, root, elems, sub, bh, cmp, c, nodes');
  }

  /** Two colour updates in program order: `i` first, then `j`. */
  function Paint2<K, V>(nodes: seq<RBNode<K, V>>, i: int, ci: Color, j: int, cj: Color): (r: seq<RBNode<K, V>>)
    requires 0 <= i < |nodes| && 0 <= j < |nodes|
    ensures |r| == |nodes|
  {
    var n1 := nodes[i := nodes[i].(color := ci)];
    n1[j := n1[j].(color := cj)]
  }

  /** Colour updates keep every link, so a rotation that was possible stays possible. */
  lemma PaintRotatable<K, V>(nodes: seq<RBNode<K, V>>, x: int, tl: bool, i: int, ci: Color, j: int, cj: Color)
    requires Rotatable(nodes, x, tl) && 0 <= i < |nodes| && 0 <= j < |nodes|
    ensures SameLinks(nodes, Paint2(nodes, i, ci, j, cj)) && Rotatable(Paint2(nodes, i, ci, j, cj), x, tl)
  {
    var n' := Paint2(nodes, i, ci, j, cj);
    assert n'[x] == nodes[x].(color := n'[x].color);
    var s := Link(nodes[x], !tl);
    assert n'[s] == nodes[s].(color := n'[s].color);
  }

  /**
   * A rotation after two colour updates of the pivot `x` and the lifted
   * child is that rotation of the arena before them, with those colours.
   */
  lemma PaintRotated<K, V>(nodes: seq<RBNode<K, V>>, x: int, tl: bool, i: int, ci: Color, j: int, cj: Color,
                           root: int, nodes': seq<RBNode<K, V>>, root': int)
    requires Rotatable(nodes, x, tl) && i != j
    requires (i == x && j == Link(nodes[x], !tl)) || (j == x && i == Link(nodes[x], !tl))
    requires Rotated(Paint2(nodes, i, ci, j, cj), root, nodes', root', x, tl) && Relinked(Paint2(nodes, i, ci, j, cj), nodes')
    ensures Rotated(nodes, root, nodes', root', x, tl) && SameSlots(nodes, nodes')
    ensures nodes'[i].color == ci && nodes'[j].color == cj
  {
    var n1 := Paint2(nodes, i, ci, j, cj);
    PaintRotatable(nodes, x, tl, i, ci, j, cj);
    RotatedRecolored(nodes, n1, root, nodes', root', x, tl);
  }

  /** The outer-child case of `rotate` may rotate at the grandparent `g` away from `c`, after the colour updates. */
  lemma OuterRotatable<K(!new), V>(nodes: seq<RBNode<K, V>>, root: int, elems: set<int>, sub: map<int, set<int>>, bh: map<int, int>, cmp: (K, K) -> int,
                                   c: int, p: int, g: int, u: int, tl: bool)
    requires FixInv(nodes, root, elems, sub, bh, cmp, c)
    requires p == nodes[c].parent && p != NIL && 0 <= p < |nodes| && nodes[p].color == Red
    requires g == nodes[p].parent && 0 <= g < |nodes| && u == Sibling(nodes, g, p)
    requires u != NIL ==> 0 <= u < |nodes|
    requires !(u != NIL && nodes[u].color == Red)
    requires !(nodes[g].left == p && nodes[p].right == c) && !(nodes[g].right == p && nodes[p].left == c)
    requires tl == (nodes[p].left != c)
    ensures Rotatable(Paint2(nodes, p, Black, g, Red), g, tl) && Paint2(nodes, p, Black, g, Red)[p].left == nodes[p].left
    ensures Link(nodes[g], !tl) == p && g in sub && p in bh && g in bh
  {
    FixNeighbours(nodes, root, elems, sub, bh, cmp, c);
    assert ShapeAt(nodes, root, elems, sub, NIL, g) && BlackAt(nodes, elems, bh, NIL, NIL, g) && BlackAt(nodes, elems, bh, NIL, NIL, p);
    assert Link(nodes[g], !tl) == p;
    RotateFacts(nodes, root, elems, sub, NIL, g, tl);
    NeighboursRotatable(nodes, root, elems, NIL, g, tl);
  }

  /** After the colour updates and the rotation of the outer-child case, the tree is settled. */
  lemma OuterRotated<K(!new), V>(nodes: seq<RBNode<K, V>>, root: int, elems: set<int>, sub: map<int, set<int>>, bh: map<int, int>, cmp: (K, K) -> int,
                                 c: int, p: int, g: int, u: int, tl: bool, nodes': seq<RBNode<K, V>>, root': int,
                                 sub': map<int, set<int>>, bh': map<int, int>)
    requires FixInv(nodes, root, elems, sub, bh, cmp, c)
    requires p == nodes[c].parent && p != NIL && 0 <= p < |nodes| && nodes[p].color == Red
    requires g == nodes[p].parent && 0 <= g < |nodes| && u == Sibling(nodes, g, p)
    requires u != NIL ==> 0 <= u < |nodes|
    requires !(u != NIL && nodes[u].color == Red)
    requires !(nodes[g].left == p && nodes[p].right == c) && !(nodes[g].right == p && nodes[p].left == c)
    requires tl == (nodes[p].left != c)
    requires Rotated(Paint2(nodes, p, Black, g, Red), root, nodes', root', g, tl) && Relinked(Paint2(nodes, p, Black, g, Red), nodes')
    requires g in sub && sub' == RotSub(nodes, elems, sub, g, tl)
    requires p in bh && g in bh && bh' == bh[g := bh[p]][p := bh[g]]
    ensures RBTree(nodes', root', elems, sub', bh', cmp)
    ensures SameSlots(nodes, nodes')
  {
    FixNeighbours(nodes, root, elems, sub, bh, cmp, c);
    assert Link(nodes[g], !tl) == p;
    RotateFacts(nodes, root, elems, sub, NIL, g, tl);
    NeighboursRotatable(nodes, root, elems, NIL, g, tl);
    PaintRotated(nodes, g, tl, p, Black, g, Red, root, nodes', root');
    FixOuter(nodes, root, elems, sub, bh, cmp, c, nodes', root');
  }

  /** The links of slot `i` are nil or slots of the arena, as every link of a tree is. */
  ghost predicate LinksIn<K, V>(nodes: seq<RBNode<K, V>>, i: int) {
    && 0 <= i < |nodes|
    && (nodes[i].parent == NIL || 0 <= nodes[i].parent < |nodes|)
    && (nodes[i].left == NIL || 0 <= nodes[i].left < |nodes|)
    && (nodes[i].right == NIL || 0 <= nodes[i].right < |nodes|)
  }

  /** The first block of Go's `swapnode`, one arena after each statement, is `SwapParents`. */
  lemma ParentsSteps<K, V>(n0: seq<RBNode<K, V>>, a: int, b: int, n1: seq<RBNode<K, V>>, n2: seq<RBNode<K, V>>,
                           n3: seq<RBNode<K, V>>, n4: seq<RBNode<K, V>>)
    requires LinksIn(n0, a) && LinksIn(n0, b) && a != b
    requires var x := n0[a].parent;
      && n1 == n0[a := n0[a].(parent := n0[b].parent)]
      && n2 == (if x != NIL then n1[x := Redirect(n1[x], a, b)] else n1)
      && n3 == n2[b := n2[b].(parent := x)]
      && n4 == (if n3[a].parent != NIL then n3[n3[a].parent := Redirect(n3[n3[a].parent], b, a)] else n3)
    ensures n4 == SwapParents(n0, a, b) && LinksIn(n4, a) && LinksIn(n4, b)
  {
    var x := n0[a].parent;
    assert n2 == ReplaceParent(n1, x, a, b);
    assert n3[a].parent == n0[b].parent;
    assert n4 == ReplaceParent(n3, n3[a].parent, b, a);
    SwapParentsLinks(n0, a, b);
  }

  /** Redirecting a link of any slot to a slot of the arena keeps the links of `i` in range. */
  lemma RedirectLinksIn<K, V>(nodes: seq<RBNode<K, V>>, i: int, x: int, a: int, b: int)
    requires LinksIn(nodes, i) && 0 <= b < |nodes|
    ensures LinksIn(ReplaceParent(nodes, x, a, b), i)
  {
  }

  /** The parents block of `swapnode` keeps the links of `a` and `b` in range. */
  lemma SwapParentsLinks<K, V>(n0: seq<RBNode<K, V>>, a: int, b: int)
    requires LinksIn(n0, a) && LinksIn(n0, b) && a != b
    ensures LinksIn(SwapParents(n0, a, b), a) && LinksIn(SwapParents(n0, a, b), b)
  {
    var x := n0[a].parent;
    var t1 := n0[a := n0[a].(parent := n0[b].parent)];
    assert LinksIn(t1, a) && LinksIn(t1, b);
    var t2 := ReplaceParent(t1, x, a, b);
    RedirectLinksIn(t1, a, x, a, b);
    RedirectLinksIn(t1, b, x, a, b);
    var t3 := t2[b := t2[b].(parent := x)];
    assert LinksIn(t3, a) && LinksIn(t3, b);
    RedirectLinksIn(t3, a, t3[a].parent, b, a);
    RedirectLinksIn(t3, b, t3[a].parent, b, a);
  }

  /** The second block, on the left children, is `SwapLefts`. */
  lemma LeftsSteps<K, V>(n0: seq<RBNode<K, V>>, a: int, b: int, n1: seq<RBNode<K, V>>, n2: seq<RBNode<K, V>>,
                         n3: seq<RBNode<K, V>>, n4: seq<RBNode<K, V>>)
    requires LinksIn(n0, a) && LinksIn(n0, b)
    requires var x := n0[a].left;
      && n1 == n0[a := n0[a].(left := n0[b].left)]
      && n2 == n1[b := n1[b].(left := x)]
      && n3 == (if x != NIL then n2[x := n2[x].(parent := b)] else n2)
      && n4 == (if n3[a].left != NIL then n3[n3[a].left := n3[n3[a].left].(parent := a)] else n3)
    ensures n4 == SwapLefts(n0, a, b) && LinksIn(n4, a) && LinksIn(n4, b)
  {
  }

  /** The third block, on the right children, is `SwapRights`. */
  lemma RightsSteps<K, V>(n0: seq<RBNode<K, V>>, a: int, b: int, n1: seq<RBNode<K, V>>, n2: seq<RBNode<K, V>>,
                          n3: seq<RBNode<K, V>>, n4: seq<RBNode<K, V>>)
    requires LinksIn(n0, a) && LinksIn(n0, b)
    requires var x := n0[a].right;
      && n1 == n0[a := n0[a].(right := n0[b].right)]
      && n2 == n1[b := n1[b].(right := x)]
      && n3 == (if x != NIL then n2[x := n2[x].(parent := b)] else n2)
      && n4 == (if n3[a].right != NIL then n3[n3[a].right := n3[n3[a].right].(parent := a)] else n3)
    ensures n4 == SwapRights(n0, a, b)
  {
  }

  /** The black heights of `i` and `j` trade places, as the two nodes do in a rotation that keeps colours on levels. */
  ghost function Exchange(bh: map<int, int>, i: int, j: int): (r: map<int, int>)
    requires i in bh && j in bh
    ensures r.Keys == bh.Keys && r[i] == bh[j] && r[j] == bh[i]
  {
    bh[i := bh[j]][j := bh[i]]
  }

  /** The black heights after case 5 of `removeCaseN`: `p` and `s` trade theirs and the far child gains one black. */
  ghost function FarBH(bh: map<int, int>, p: int, s: int, far: int): map<int, int>
    requires p in bh && s in bh && far in bh
  {
    Exchange(bh, p, s)[far := bh[far] + 1]
  }

  /** Writing one slot with the same key, value and `valid` flag keeps every slot's payload. */
  lemma SlotUpdate<K, V>(nodes: seq<RBNode<K, V>>, i: int, x: RBNode<K, V>)
    requires 0 <= i < |nodes| && x.key == nodes[i].key && x.value == nodes[i].value && x.valid == nodes[i].valid
    ensures SameSlots(nodes, nodes[i := x])
  {
  }

  /** `SetParent` and `ReplaceParent` rewrite links only. */
  lemma LinkUpdates<K, V>(nodes: seq<RBNode<K, V>>, x: int, a: int, b: int)
    ensures SameSlots(nodes, SetParent(nodes, x, a)) && SameSlots(nodes, ReplaceParent(nodes, x, a, b))
  {
    if 0 <= x < |nodes| {
      SlotUpdate(nodes, x, nodes[x].(parent := a));
      SlotUpdate(nodes, x, Redirect(nodes[x], a, b));
    }
  }

  /** Each block of `swapnode` rewrites links only. */
  lemma SwapBlocksSlots<K, V>(nodes: seq<RBNode<K, V>>, a: int, b: int)
    requires 0 <= a < |nodes| && 0 <= b < |nodes|
    ensures SameSlots(nodes, SwapParents(nodes, a, b))
    ensures SameSlots(nodes, SwapLefts(nodes, a, b)) && SameSlots(nodes, SwapRights(nodes, a, b))
  {
    var x := nodes[a].parent;
    var t1 := nodes[a := nodes[a].(parent := nodes[b].parent)];
    var t2 := ReplaceParent(t1, x, a, b);
    var t3 := t2[b := t2[b].(parent := x)];
    SlotUpdate(nodes, a, nodes[a].(parent := nodes[b].parent));
    LinkUpdates(t1, x, a, b);
    SlotUpdate(t2, b, t2[b].(parent := x));
    LinkUpdates(t3, t3[a].parent, b, a);
    SameSlotsTrans(nodes, t1, t2);
    SameSlotsTrans(nodes, t2, t3);
    SameSlotsTrans(nodes, t3, SwapParents(nodes, a, b));
    var l := nodes[a].left;
    var l1 := nodes[a := nodes[a].(left := nodes[b].left)];
    var l2 := l1[b := l1[b].(left := l)];
    var l3 := SetParent(l2, l, b);
    SlotUpdate(nodes, a, nodes[a].(left := nodes[b].left));
    SlotUpdate(l1, b, l1[b].(left := l));
    LinkUpdates(l2, l, b, b);
    LinkUpdates(l3, l3[a].left, a, a);
    SameSlotsTrans(nodes, l1, l2);
    SameSlotsTrans(nodes, l2, l3);
    SameSlotsTrans(nodes, l3, SwapLefts(nodes, a, b));
    var r := nodes[a].right;
    var r1 := nodes[a := nodes[a].(right := nodes[b].right)];
    var r2 := r1[b := r1[b].(right := r)];
    var r3 := SetParent(r2, r, b);
    SlotUpdate(nodes, a, nodes[a].(right := nodes[b].right));
    SlotUpdate(r1, b, r1[b].(right := r));
    LinkUpdates(r2, r, b, b);
    LinkUpdates(r3, r3[a].right, a, a);
    SameSlotsTrans(nodes, r1, r2);
    SameSlotsTrans(nodes, r2, r3);
    SameSlotsTrans(nodes, r3, SwapRights(nodes, a, b));
  }

  /** `swapnode` moves links and colours only: every slot keeps its key, its value and its `valid` flag. */
  lemma SwapNodesSlots<K, V>(nodes: seq<RBNode<K, V>>, a: int, b: int)
    requires 0 <= a < |nodes| && 0 <= b < |nodes|
    ensures SameSlots(nodes, SwapNodes(nodes, a, b))
  {
    var n1 := SwapParents(nodes, a, b);
    var n2 := SwapLefts(n1, a, b);
    var n3 := SwapRights(n2, a, b);
    SwapBlocksSlots(nodes, a, b);
    SwapBlocksSlots(n1, a, b);
    SwapBlocksSlots(n2, a, b);
    SlotUpdate(n3, a, n3[a].(color := n3[b].color));
    var n4 := n3[a := n3[a].(color := n3[b].color)];
    SlotUpdate(n4, b, n3[b].(color := n3[a].color));
    SameSlotsTrans(nodes, n1, n2);
    SameSlotsTrans(nodes, n2, n3);
    SameSlotsTrans(nodes, n3, n4);
    SameSlotsTrans(nodes, n4, SwapNodes(nodes, a, b));
  }

  /** The two updates of the root's child in `removeone` make one, and keep every payload. */
  lemma RootChildSlots<K, V>(n0: seq<RBNode<K, V>>, c: int, n': seq<RBNode<K, V>>)
    requires 0 <= c < |n0|
    requires n' == n0[c := n0[c].(color := Black)][c := n0[c].(color := Black).(parent := NIL)]
    ensures n' == n0[c := n0[c].(color := Black, parent := NIL)] && SameSlots(n0, n')
  {
    SlotUpdate(n0, c, n0[c].(color := Black, parent := NIL));
  }

  /** The updates of `removeone` for a black node with a child make the splice, and keep every payload. */
  lemma BlackChildSlots<K, V>(n0: seq<RBNode<K, V>>, a: int, P: int, c: int, n': seq<RBNode<K, V>>)
    requires 0 <= P < |n0| && 0 <= c < |n0| && c != P
    requires var n1 := n0[P := Redirect(n0[P], a, c)]; var n2 := n1[c := n1[c].(parent := P)];
      n' == n2[c := n2[c].(color := Black)]
    ensures n' == n0[P := Redirect(n0[P], a, c)][c := n0[c].(parent := P, color := Black)] && SameSlots(n0, n')
  {
    var n1 := n0[P := Redirect(n0[P], a, c)];
    SlotUpdate(n0, P, Redirect(n0[P], a, c));
    SlotUpdate(n1, c, n0[c].(parent := P, color := Black));
    SameSlotsTrans(n0, n1, n');
  }

  /** The updates of `removeone` for a black leaf hang the placeholder where the leaf was, and keep every payload. */
  lemma BlackLeafSlots<K, V>(n0: seq<RBNode<K, V>>, a: int, P: int, n': seq<RBNode<K, V>>)
    requires 0 <= a < |n0| && 0 <= P < |n0|
    requires var ph := |n0|; var n1 := n0 + [Placeholder(n0[a])]; var n2 := n1[P := Redirect(n1[P], a, ph)];
      n' == n2[ph := n2[ph].(parent := P)]
    ensures var ph := |n0|;
      && n' == (n0 + [Placeholder(n0[a])])[P := Redirect(n0[P], a, ph)][ph := Placeholder(n0[a]).(parent := P)]
      && SameSlots(n0 + [Placeholder(n0[a])], n')
  {
    var ph := |n0|;
    var n1 := n0 + [Placeholder(n0[a])];
    var n2 := n1[P := Redirect(n1[P], a, ph)];
    assert n1[P] == n0[P] && n2[ph] == Placeholder(n0[a]);
    SlotUpdate(n1, P, Redirect(n1[P], a, ph));
    SlotUpdate(n2, ph, n2[ph].(parent := P));
    SameSlotsTrans(n1, n2, n');
  }

  /**
   * The placeholder, unlinked and past the end of the arena, is dropped: the
   * tree stays a red-black tree, and every slot of the arena `removeone`
   * started from keeps its payload.
   */
  lemma DropPlaceholder<K(!new), V>(n0: seq<RBNode<K, V>>, x: RBNode<K, V>, n3: seq<RBNode<K, V>>, root: int, elems: set<int>, sub: map<int, set<int>>, bh: map<int, int>, cmp: (K, K) -> int,
                                    n4: seq<RBNode<K, V>>, n': seq<RBNode<K, V>>)
    requires SameSlots(n0 + [x], n3) && RBTree(n4, root, elems, sub, bh, cmp) && |n0| !in elems
    requires 0 <= |n0| < |n3| && var h := n3[|n0|].parent;
      0 <= h < |n3| && n4 == n3[h := Redirect(n3[h], |n0|, NIL)][|n0| := n3[|n0|].(parent := NIL)]
    requires n' == n4[..|n0|]
    ensures RBTree(n', root, elems, sub, bh, cmp) && SameSlots(n0, n')
  {
    var h := n3[|n0|].parent;
    var n31 := n3[h := Redirect(n3[h], |n0|, NIL)];
    SlotUpdate(n3, h, Redirect(n3[h], |n0|, NIL));
    SlotUpdate(n31, |n0|, n3[|n0|].(parent := NIL));
    SameSlotsTrans(n0 + [x], n3, n31);
    SameSlotsTrans(n0 + [x], n31, n4);
    assert SameTree(n4, n', elems) by {
      forall i | i in elems ensures 0 <= i < |n4| && 0 <= i < |n'| && n'[i] == n4[i] {
        assert ShapeAt(n4, root, elems, sub, NIL, i);
      }
    }
    SameTreeKeep(n4, root, elems, sub, bh, cmp, n');
    forall k | 0 <= k < |n0|
      ensures n'[k].key == n0[k].key && n'[k].value == n0[k].value && n'[k].valid == n0[k].valid
    {
      assert (n0 + [x])[k] == n0[k];
    }
  }

  /** The neighbours `removeone` reads: the only child, red below a black node, and the parent, distinct from both. */
  lemma RemoveNeighbours<K(!new), V>(nodes: seq<RBNode<K, V>>, root: int, elems: set<int>, sub: map<int, set<int>>, bh: map<int, int>, cmp: (K, K) -> int,
                                     a: int)
    requires RemovePoint(nodes, root, elems, sub, bh, cmp, a)
    ensures var c, P := OnlyChild(nodes[a]), nodes[a].parent;
      && (c != NIL ==> 0 <= c < |nodes| && c != a && nodes[c].color == Red && nodes[a].color == Black)
      && (P != NIL ==> 0 <= P < |nodes| && P != a && c != P)
  {
    LoneChild(nodes, root, elems, sub, bh, a);
    if nodes[a].parent != NIL {
      SpliceFacts(nodes, root, elems, sub, NIL, a, OnlyChild(nodes[a]));
    }
  }

  /** A tree node's links are nil or slots of the arena. */
  lemma TreeLinks<K, V>(nodes: seq<RBNode<K, V>>, root: int, elems: set<int>, sub: map<int, set<int>>, i: int)
    requires Shape(nodes, root, elems, sub, NIL) && i in elems
    ensures LinksIn(nodes, i)
  {
    assert ShapeAt(nodes, root, elems, sub, NIL, i);
  }

  /** Arenas with the same payloads have the same valid slots, so after `x` leaves the tree only it may be valid outside. */
  lemma ValidKept<K, V>(nodes: seq<RBNode<K, V>>, elems: set<int>, nodes': seq<RBNode<K, V>>, elems': set<int>, x: int)
    requires forall i :: 0 <= i < |nodes| && nodes[i].valid ==> i in elems
    requires SameSlots(nodes, nodes') && elems' == elems - {x}
    ensures forall i :: 0 <= i < |nodes'| && nodes'[i].valid ==> i in elems' || i == x
  {
  }

  /** Marking `x` invalid at the end of `Remove` completes the payload picture of the whole removal. */
  lemma InvalidateSlots<K, V>(n0: seq<RBNode<K, V>>, x: int, n1: seq<RBNode<K, V>>)
    requires 0 <= x < |n0| && SameSlots(n0, n1)
    ensures SameSlots(n0[x := n0[x].(valid := false)], n1[x := n1[x].(valid := false)])
  {
  }

  /** Only valid slots are tree nodes. */
  lemma InvalidOutside<K, V>(nodes: seq<RBNode<K, V>>, root: int, elems: set<int>, sub: map<int, set<int>>, x: int)
    requires Shape(nodes, root, elems, sub, NIL) && 0 <= x < |nodes|
    ensures !nodes[x].valid ==> x !in elems
  {
    if x in elems {
      assert ShapeAt(nodes, root, elems, sub, NIL, x);
    }
  }

  /** `x` and its successor `next` are different tree nodes, as `swapnode` needs. */
  lemma SwapPre<K(!new), V>(nodes: seq<RBNode<K, V>>, root: int, elems: set<int>, sub: map<int, set<int>>, bh: map<int, int>, cmp: (K, K) -> int,
                            x: int, next: int)
    requires RBTree(nodes, root, elems, sub, bh, cmp) && x in elems && 0 <= x < |nodes| && 0 <= next < |nodes|
    requires nodes[x].right != NIL && MinOf(nodes, cmp, SubOf(elems, sub, nodes[x].right), next) && nodes[next].left == NIL
    ensures x != next && next in elems && x in sub && next in sub && x in bh && next in bh
  {
    SwapForRemove(nodes, root, elems, sub, bh, cmp, x, next);
    assert IsSucc(nodes, elems, cmp, x, next);
  }

  /** After the exchange of `Remove`, only `x` may be out of key order, and it has at most one child. */
  lemma SwapPost<K(!new), V>(nodes: seq<RBNode<K, V>>, root: int, elems: set<int>, sub: map<int, set<int>>, bh: map<int, int>, cmp: (K, K) -> int,
                             x: int, next: int, nodes': seq<RBNode<K, V>>, root': int, sub': map<int, set<int>>, bh': map<int, int>)
    requires RBTree(nodes, root, elems, sub, bh, cmp) && x in elems && 0 <= x < |nodes| && 0 <= next < |nodes|
    requires nodes[x].right != NIL && MinOf(nodes, cmp, SubOf(elems, sub, nodes[x].right), next) && nodes[next].left == NIL
    requires nodes' == SwapNodes(nodes, x, next) && root' == (if nodes'[next].parent == NIL then next else root)
    requires x in sub && next in sub && sub' == SwapSub(sub, x, next)
    requires x in bh && next in bh && bh' == SwapBH(bh, x, next)
    ensures IsSucc(nodes, elems, cmp, x, next) && root' == Swap(x, next, root)
    ensures RemovePoint(nodes', root', elems, sub', bh', cmp, x) && SameSlots(nodes, nodes')
  {
    SwapForRemove(nodes, root, elems, sub, bh, cmp, x, next);
    SwapNodesSlots(nodes, x, next);
  }

  /** Go's `isblack`: a nil link counts as black. */
  function IsBlackLink<K, V>(nodes: seq<RBNode<K, V>>, x: int): (r: bool)
    requires x == NIL || 0 <= x < |nodes|
    ensures r == !IsRed(nodes, x)
  {
    x == NIL || nodes[x].color != Red
  }

  /** The neighbours the body of `removeCaseN` reads: the parent `p` and the sibling of `n`, with its children. */
  lemma DelNeighbours<K(!new), V>(nodes: seq<RBNode<K, V>>, root: int, elems: set<int>, sub: map<int, set<int>>, bh: map<int, int>, cmp: (K, K) -> int,
                                  ph: int, n: int, p: int)
    requires DelInv(nodes, root, elems, sub, bh, cmp, ph, n, p) && p != NIL
    ensures 0 <= p < |nodes| && (nodes[p].left == n || nodes[p].right == n) && p in sub && p in bh
    ensures var s := Sibling(nodes, p, n);
      && s in elems && 0 <= s < |nodes| && s != p && s != n && s in bh
      && (nodes[s].left == NIL || 0 <= nodes[s].left < |nodes|) && (nodes[s].right == NIL || 0 <= nodes[s].right < |nodes|)
  {
    DelSetup(nodes, root, elems, sub, bh, ph, n, p);
    assert ShapeAt(nodes, root, elems, sub, ph, p);
  }

  /** Case 1 of `removeCaseN` (red sibling) may rotate at `p` towards `n` after its colour updates. */
  lemma RedSiblingPre<K(!new), V>(nodes: seq<RBNode<K, V>>, root: int, elems: set<int>, sub: map<int, set<int>>, bh: map<int, int>, cmp: (K, K) -> int,
                                  ph: int, n: int, p: int, s: int, tl: bool)
    requires DelInv(nodes, root, elems, sub, bh, cmp, ph, n, p) && p != NIL && 0 <= p < |nodes|
    requires s == Sibling(nodes, p, n) && 0 <= s < |nodes| && nodes[s].color == Red && tl == (nodes[p].left == n)
    ensures s == Link(nodes[p], !tl) && s != p && p in sub && p in bh && s in bh
    ensures Rotatable(Paint2(nodes, p, Red, s, Black), p, tl) && Paint2(nodes, p, Red, s, Black)[p].left == nodes[p].left
  {
    DelSetup(nodes, root, elems, sub, bh, ph, n, p);
    NeighboursRotatable(nodes, root, elems, ph, p, tl);
    PaintRotatable(nodes, p, tl, p, Red, s, Black);
  }

  /** After case 1, `n` is still one black short below `p`, which is now red, and its new sibling is black. */
  lemma RedSiblingPost<K(!new), V>(nodes: seq<RBNode<K, V>>, root: int, elems: set<int>, sub: map<int, set<int>>, bh: map<int, int>, cmp: (K, K) -> int,
                                   ph: int, n: int, p: int, s: int, tl: bool,
                                   nodes': seq<RBNode<K, V>>, root': int, sub': map<int, set<int>>, bh': map<int, int>)
    requires DelInv(nodes, root, elems, sub, bh, cmp, ph, n, p) && p != NIL && 0 <= p < |nodes|
    requires s == Sibling(nodes, p, n) && 0 <= s < |nodes| && nodes[s].color == Red && tl == (nodes[p].left == n)
    requires Rotated(Paint2(nodes, p, Red, s, Black), root, nodes', root', p, tl) && Relinked(Paint2(nodes, p, Red, s, Black), nodes')
    requires p in sub && sub' == RotSub(nodes, elems, sub, p, tl)
    requires p in bh && s in bh && bh' == Exchange(bh, p, s)
    ensures DelInv(nodes', root', elems, sub', bh', cmp, ph, n, p) && nodes'[p].color == Red
    ensures var s' := Sibling(nodes', p, n); 0 <= s' < |nodes'| && nodes'[s'].color == Black
    ensures SameSlots(nodes, nodes')
  {
    DelSetup(nodes, root, elems, sub, bh, ph, n, p);
    NeighboursRotatable(nodes, root, elems, ph, p, tl);
    PaintRotated(nodes, p, tl, p, Red, s, Black, root, nodes', root');
    DelRedSibling(nodes, root, elems, sub, bh, cmp, ph, n, p, nodes', root');
  }

  /** Case 2 of `removeCaseN` (all black around a black sibling): the sibling turns red and the deficit moves up to `p`. */
  lemma BlackSiblingStep<K(!new), V>(nodes: seq<RBNode<K, V>>, root: int, elems: set<int>, sub: map<int, set<int>>, bh: map<int, int>, cmp: (K, K) -> int,
                                     ph: int, n: int, p: int, s: int, nodes': seq<RBNode<K, V>>, bh': map<int, int>)
    requires DelInv(nodes, root, elems, sub, bh, cmp, ph, n, p) && p != NIL && 0 <= p < |nodes| && nodes[p].color == Black
    requires s == Sibling(nodes, p, n) && 0 <= s < |nodes| && nodes[s].color == Black
    requires !IsRed(nodes, nodes[s].left) && !IsRed(nodes, nodes[s].right)
    requires nodes' == nodes[s := nodes[s].(color := Red)]
    requires p in bh && s in bh && bh' == bh[s := bh[s] - 1][p := bh[p] - 1]
    ensures nodes'[p].parent == nodes[p].parent
    ensures DelInv(nodes', root, elems, sub, bh', cmp, ph, p, nodes'[p].parent)
    ensures 0 <= DelRank(elems, sub, p) < DelRank(elems, sub, n)
    ensures SameSlots(nodes, nodes')
  {
    DelNeighbours(nodes, root, elems, sub, bh, cmp, ph, n, p);
    DelPushUp(nodes, root, elems, sub, bh, cmp, ph, n, p, nodes');
  }

  /** Case 3 of `removeCaseN` (red parent, black sibling with black children): the two swap colours and the tree is settled. */
  lemma RedParentStep<K(!new), V>(nodes: seq<RBNode<K, V>>, root: int, elems: set<int>, sub: map<int, set<int>>, bh: map<int, int>, cmp: (K, K) -> int,
                                  ph: int, n: int, p: int, s: int, nodes': seq<RBNode<K, V>>, bh': map<int, int>)
    requires DelInv(nodes, root, elems, sub, bh, cmp, ph, n, p) && p != NIL && 0 <= p < |nodes| && nodes[p].color == Red
    requires s == Sibling(nodes, p, n) && 0 <= s < |nodes| && nodes[s].color == Black
    requires !IsRed(nodes, nodes[s].left) && !IsRed(nodes, nodes[s].right)
    requires nodes' == Paint2(nodes, s, Red, p, Black)
    requires s in bh && bh' == bh[s := bh[s] - 1]
    ensures DelDone(nodes', root, elems, sub, bh', cmp, ph)
    ensures SameSlots(nodes, nodes')
  {
    DelNeighbours(nodes, root, elems, sub, bh, cmp, ph, n, p);
    DelRedParent(nodes, root, elems, sub, bh, cmp, ph, n, p, nodes');
  }

  /** Case 4 of `removeCaseN` (only the near nephew red) may rotate at the sibling away from `n` after its colour updates. */
  lemma NearNephewPre<K(!new), V>(nodes: seq<RBNode<K, V>>, root: int, elems: set<int>, sub: map<int, set<int>>, bh: map<int, int>, cmp: (K, K) -> int,
                                  ph: int, n: int, p: int, s: int, tl: bool)
    requires DelInv(nodes, root, elems, sub, bh, cmp, ph, n, p) && p != NIL && 0 <= p < |nodes|
    requires s == Sibling(nodes, p, n) && 0 <= s < |nodes| && nodes[s].color == Black && tl == (nodes[p].left == n)
    requires IsRed(nodes, Link(nodes[s], tl)) && !IsRed(nodes, Link(nodes[s], !tl))
    ensures var near := Link(nodes[s], tl);
      && 0 <= near < |nodes| && near != s && s != p && s in sub && s in bh && near in bh
      && Rotatable(nodes, s, !tl) && Rotatable(Paint2(nodes, s, Red, near, Black), s, !tl)
      && Paint2(nodes, s, Red, near, Black)[s].left == nodes[s].left && Paint2(nodes, s, Red, near, Black)[s].right == nodes[s].right
  {
    DelSetup(nodes, root, elems, sub, bh, ph, n, p);
    var near := Link(nodes[s], tl);
    assert LinkAt(nodes, root, elems, ph, s);
    assert ShapeAt(nodes, root, elems, sub, ph, s) && ShapeAt(nodes, root, elems, sub, ph, near);
    assert BlackAt(nodes, elems, bh, n, p, near);
    RotateFacts(nodes, root, elems, sub, ph, s, !tl);
    NeighboursRotatable(nodes, root, elems, ph, s, !tl);
    PaintRotatable(nodes, s, !tl, s, Red, near, Black);
  }

  /** After case 4, `n` is still one black short below `p`, and its new black sibling has a red far child. */
  lemma NearNephewPost<K(!new), V>(nodes: seq<RBNode<K, V>>, root: int, elems: set<int>, sub: map<int, set<int>>, bh: map<int, int>, cmp: (K, K) -> int,
                                   ph: int, n: int, p: int, s: int, tl: bool,
                                   nodes': seq<RBNode<K, V>>, root': int, sub': map<int, set<int>>, bh': map<int, int>)
    requires DelInv(nodes, root, elems, sub, bh, cmp, ph, n, p) && p != NIL && 0 <= p < |nodes|
    requires s == Sibling(nodes, p, n) && 0 <= s < |nodes| && nodes[s].color == Black && tl == (nodes[p].left == n)
    requires IsRed(nodes, Link(nodes[s], tl)) && !IsRed(nodes, Link(nodes[s], !tl))
    requires var near := Link(nodes[s], tl);
      && 0 <= near < |nodes|
      && Rotated(Paint2(nodes, s, Red, near, Black), root, nodes', root', s, !tl) && Relinked(Paint2(nodes, s, Red, near, Black), nodes')
      && s in sub && sub' == RotSub(nodes, elems, sub, s, !tl)
      && s in bh && near in bh && bh' == Exchange(bh, s, near)
    ensures DelInv(nodes', root', elems, sub', bh', cmp, ph, n, p) && 0 <= p < |nodes'|
    ensures var s' := Sibling(nodes', p, n);
      0 <= s' < |nodes'| && nodes'[s'].color == Black && IsRed(nodes', Link(nodes'[s'], !(nodes'[p].left == n)))
    ensures SameSlots(nodes, nodes')
  {
    var near := Link(nodes[s], tl);
    NearNephewPre(nodes, root, elems, sub, bh, cmp, ph, n, p, s, tl);
    PaintRotated(nodes, s, !tl, s, Red, near, Black, root, nodes', root');
    DelNearNephew(nodes, root, elems, sub, bh, cmp, ph, n, p, nodes', root');
  }

  /** Case 5 of `removeCaseN` (red far nephew) may rotate at `p` towards `n` after its colour updates. */
  lemma FarNephewPre<K(!new), V>(nodes: seq<RBNode<K, V>>, root: int, elems: set<int>, sub: map<int, set<int>>, bh: map<int, int>, cmp: (K, K) -> int,
                                 ph: int, n: int, p: int, s: int, tl: bool)
    requires DelInv(nodes, root, elems, sub, bh, cmp, ph, n, p) && p != NIL && 0 <= p < |nodes|
    requires s == Sibling(nodes, p, n) && 0 <= s < |nodes| && nodes[s].color == Black && tl == (nodes[p].left == n)
    requires IsRed(nodes, Link(nodes[s], !tl))
    ensures var far := Link(nodes[s], !tl);
      && 0 <= far < |nodes| && far != s && far != p && s != p && s == Link(nodes[p], !tl)
      && p in sub && p in bh && s in bh && far in bh
      && Rotatable(FarPaint(nodes, s, p, far), p, tl)
  {
    DelSetup(nodes, root, elems, sub, bh, ph, n, p);
    var far := Link(nodes[s], !tl);
    assert LinkAt(nodes, root, elems, ph, s);
    assert BlackAt(nodes, elems, bh, n, p, far);
    NeighboursRotatable(nodes, root, elems, ph, p, tl);
    FarPaintLinks(nodes, elems, sub, ph, s, p, far, tl);
    assert FarPaint(nodes, s, p, far)[p] == nodes[p].(color := Black);
    assert FarPaint(nodes, s, p, far)[s] == nodes[s].(color := nodes[p].color);
  }

  /** A recolouring followed by a relinking keeps every slot's payload. */
  lemma LinksSlots<K, V>(nodes: seq<RBNode<K, V>>, nodes1: seq<RBNode<K, V>>, nodes': seq<RBNode<K, V>>)
    requires SameLinks(nodes, nodes1) && Relinked(nodes1, nodes')
    ensures SameSlots(nodes, nodes')
  {
    forall k | 0 <= k < |nodes|
      ensures nodes'[k].key == nodes[k].key && nodes'[k].value == nodes[k].value && nodes'[k].valid == nodes[k].valid
    {
      assert nodes1[k] == nodes[k].(color := nodes1[k].color);
      assert nodes'[k] == nodes1[k].(left := nodes'[k].left, right := nodes'[k].right, parent := nodes'[k].parent);
    }
  }

  /** The recolouring and rotation of case 5 keep every slot's payload. */
  lemma FarPaintSlots<K, V>(nodes: seq<RBNode<K, V>>, s: int, p: int, far: int, nodes': seq<RBNode<K, V>>)
    requires 0 <= s < |nodes| && 0 <= p < |nodes| && 0 <= far < |nodes| && Relinked(FarPaint(nodes, s, p, far), nodes')
    ensures SameSlots(nodes, nodes')
  {
    var nodes1 := FarPaint(nodes, s, p, far);
    assert SameLinks(nodes, nodes1) by {
      forall k | 0 <= k < |nodes| ensures nodes1[k] == nodes[k].(color := nodes1[k].color) {
      }
    }
    LinksSlots(nodes, nodes1, nodes');
  }

  /** The rotation of case 5 keeps the colours the recolouring gave the parent and the sibling. */
  lemma FarPaintColors<K(!new), V>(nodes: seq<RBNode<K, V>>, root: int, elems: set<int>, sub: map<int, set<int>>, bh: map<int, int>, cmp: (K, K) -> int,
                                   ph: int, n: int, p: int, s: int, tl: bool, nodes': seq<RBNode<K, V>>, root': int)
    requires DelInv(nodes, root, elems, sub, bh, cmp, ph, n, p) && p != NIL && 0 <= p < |nodes|
    requires s == Sibling(nodes, p, n) && 0 <= s < |nodes| && nodes[s].color == Black && tl == (nodes[p].left == n)
    requires IsRed(nodes, Link(nodes[s], !tl))
    requires var far := Link(nodes[s], !tl); 0 <= far < |nodes| && Relinked(FarPaint(nodes, s, p, far), nodes')
    ensures nodes'[p].color == Black && nodes'[s].color == nodes[p].color
  {
    var far := Link(nodes[s], !tl);
    FarNephewPre(nodes, root, elems, sub, bh, cmp, ph, n, p, s, tl);
    DelSetup(nodes, root, elems, sub, bh, ph, n, p);
    FarPaintLinks(nodes, elems, sub, ph, s, p, far, tl);
    var nodes1 := FarPaint(nodes, s, p, far);
    assert nodes'[p] == nodes1[p].(left := nodes'[p].left, right := nodes'[p].right, parent := nodes'[p].parent);
    assert nodes'[s] == nodes1[s].(left := nodes'[s].left, right := nodes'[s].right, parent := nodes'[s].parent);
  }

  /** After case 5 the deficit is gone: a red-black tree in which the placeholder may still hang. */
  lemma FarNephewPost<K(!new), V>(nodes: seq<RBNode<K, V>>, root: int, elems: set<int>, sub: map<int, set<int>>, bh: map<int, int>, cmp: (K, K) -> int,
                                  ph: int, n: int, p: int, s: int, tl: bool,
                                  nodes': seq<RBNode<K, V>>, root': int, sub': map<int, set<int>>, bh': map<int, int>)
    requires DelInv(nodes, root, elems, sub, bh, cmp, ph, n, p) && p != NIL && 0 <= p < |nodes|
    requires s == Sibling(nodes, p, n) && 0 <= s < |nodes| && nodes[s].color == Black && tl == (nodes[p].left == n)
    requires IsRed(nodes, Link(nodes[s], !tl))
    requires var far := Link(nodes[s], !tl);
      && 0 <= far < |nodes|
      && Rotated(FarPaint(nodes, s, p, far), root, nodes', root', p, tl) && Relinked(FarPaint(nodes, s, p, far), nodes')
      && p in sub && sub' == RotSub(nodes, elems, sub, p, tl)
      && p in bh && s in bh && far in bh && bh' == FarBH(bh, p, s, far)
    ensures DelDone(nodes', root', elems, sub', bh', cmp, ph)
    ensures SameSlots(nodes, nodes')
  {
    var far := Link(nodes[s], !tl);
    var nodes1 := FarPaint(nodes, s, p, far);
    FarPaintColors(nodes, root, elems, sub, bh, cmp, ph, n, p, s, tl, nodes', root');
    FarPaintSlots(nodes, s, p, far, nodes');
    DelFarNephew(nodes, root, elems, sub, bh, cmp, ph, n, p, nodes1, nodes', root');
  }

  /** Go's `RBtree`: the comparator, the root and, as an arena, the nodes it links. */
  class RBtree<K(!new), V> {
    var nodes: seq<RBNode<K, V>>
    var root: int
    const compare: (K, K) -> int
    ghost var elems: set<int>
    ghost var sub: map<int, set<int>>
    ghost var bh: map<int, int>

    /** A red-black search tree, and a slot is `valid` exactly when it is in the tree. */
    ghost predicate Valid()
      reads this
    {
      && RBTree(nodes, root, elems, sub, bh, compare)
      && forall i :: 0 <= i < |nodes| && nodes[i].valid ==> i in elems
    }

    /** Some tree node holds `key`. */
    ghost predicate Holds(key: K)
      reads this
    {
      exists i :: i in elems && 0 <= i < |nodes| && nodes[i].key == key
    }

    /** Go's `Init`: an empty tree ordered by `compare`. */
    constructor Init(compare: (K, K) -> int)
      requires TotalOrder(compare)
      ensures Valid() && elems == {} && root == NIL && nodes == [] && this.compare == compare
    {
      this.compare := compare;
      root := NIL;
      nodes := [];
      elems := {};
      sub := map[];
      bh := map[];
    }

    /**
     * `&RBTnode{}` with its key and value filled in: a new slot at the end of
     * the arena, outside the tree until `Insert` links it.
     */
    method NewNode(key: K, value: V) returns (x: int)
      modifies this
      requires Valid()
      ensures Valid() && x == |old(nodes)| && nodes == old(nodes) + [RBNode(key, value, NIL, NIL, NIL, Red, false)]
      ensures root == old(root) && elems == old(elems) && sub == old(sub) && bh == old(bh)
    {
      x := |nodes|;
      nodes := nodes + [RBNode(key, value, NIL, NIL, NIL, Red, false)];
      SameTreeKeep(old(nodes), root, elems, sub, bh, compare, nodes);
    }

    /** `node.Get().Value = value`: the value of a tree node is replaced, and nothing else changes. */
    method SetValue(x: int, value: V)
      modifies this
      requires Valid() && x in elems
      ensures Valid() && nodes == old(nodes)[x := old(nodes)[x].(value := value)]
      ensures root == old(root) && elems == old(elems) && sub == old(sub) && bh == old(bh)
    {
      nodes := nodes[x := nodes[x].(value := value)];
      ValueKeep(old(nodes), root, elems, sub, bh, compare, x, value);
    }

    /** Go's `Get`: the key/value pair of a node, nil for nil. */
    function Get(t: int): (r: Option<Pair<K, V>>)
      reads this
      requires t == NIL || 0 <= t < |nodes|
      ensures r.None? <==> t == NIL
      ensures r.Some? ==> r.value.first == nodes[t].key && r.value.value == nodes[t].value
    {
      if t == NIL then None else Some(Pair(nodes[t].key, nodes[t].value))
    }

    /**
     * Go's `Find`: `(false, n)` when `n` holds `key`; otherwise `(true, p)`
     * with `p` the node below which `key` goes (nil on an empty tree).
     */
    method Find(key: K) returns (isParent: bool, r: int)
      requires Valid()
      ensures !isParent ==> r in elems && 0 <= r < |nodes| && compare(key, nodes[r].key) == 0 && nodes[r].key == key
      ensures isParent ==> InsertionPoint(nodes, elems, sub, compare, key, r)
      ensures isParent <==> !Holds(key)
    {
      var node := root;
      if node != NIL {
        SameSideAtRoot(nodes, root, elems, sub, compare, key);
        while true
          invariant node in elems && SameSideOutside(nodes, elems, sub, compare, key, node)
          decreases |sub[node]|
        {
          var c := compare(key, nodes[node].key);
          if c == 0 {
            return false, node;
          }
          SameSideDescend(nodes, root, elems, sub, compare, key, node);
          ChildSubSmaller(nodes, root, elems, sub, NIL, node);
          if c < 0 {
            if nodes[node].left == NIL {
              break;
            }
            assert ShapeAt(nodes, root, elems, sub, NIL, node);
            ChildSubSmaller(nodes, root, elems, sub, NIL, nodes[node].left);
            node := nodes[node].left;
          } else {
            if nodes[node].right == NIL {
              break;
            }
            assert ShapeAt(nodes, root, elems, sub, NIL, node);
            ChildSubSmaller(nodes, root, elems, sub, NIL, nodes[node].right);
            node := nodes[node].right;
          }
        }
        InsertionPointFound(nodes, root, elems, sub, compare, key, node);
      }
      return true, node;
    }

    /** Go's `Begin`: the node with the smallest key, nil on an empty tree. */
    method Begin() returns (r: int)
      requires Valid()
      ensures r == NIL <==> elems == {}
      ensures r != NIL ==> IsMin(nodes, elems, compare, r)
    {
      r := root;
      if r != NIL {
        while nodes[r].left != NIL
          invariant r in elems && sub[r] <= elems && MinOutside(nodes, elems, sub, compare, elems, r)
          decreases |sub[r]|
        {
          LeftmostStep(nodes, root, elems, sub, compare, elems, r);
          assert ShapeAt(nodes, root, elems, sub, NIL, r);
          ChildSubSmaller(nodes, root, elems, sub, NIL, nodes[r].left);
          r := nodes[r].left;
        }
        LeftmostStep(nodes, root, elems, sub, compare, elems, r);
      }
    }

    /** Go's `Rbegin`: the node with the largest key, nil on an empty tree. */
    method Rbegin() returns (r: int)
      requires Valid()
      ensures r == NIL <==> elems == {}
      ensures r != NIL ==> IsMax(nodes, elems, compare, r)
    {
      r := root;
      if r != NIL {
        while nodes[r].right != NIL
          invariant r in elems && sub[r] <= elems && MaxOutside(nodes, elems, sub, compare, elems, r)
          decreases |sub[r]|
        {
          RightmostStep(nodes, root, elems, sub, compare, elems, r);
          assert ShapeAt(nodes, root, elems, sub, NIL, r);
          ChildSubSmaller(nodes, root, elems, sub, NIL, nodes[r].right);
          r := nodes[r].right;
        }
        RightmostStep(nodes, root, elems, sub, compare, elems, r);
      }
    }

    /** `RBTnode.Next`: the in-order successor of `t`, nil after the last node. */
    method Next(t: int) returns (r: int)
      requires Valid() && t in elems
      ensures r == NIL <==> IsMax(nodes, elems, compare, t)
      ensures r != NIL ==> IsSucc(nodes, elems, compare, t, r)
    {
      var top := t;
      r := nodes[t].right;
      if r != NIL {
        ghost var rs := SubOf(elems, sub, nodes[t].right);
        assert ShapeAt(nodes, root, elems, sub, NIL, t);
        assert ShapeAt(nodes, root, elems, sub, NIL, r);
        while nodes[r].left != NIL
          invariant r in elems && sub[r] <= rs && rs <= elems && MinOutside(nodes, elems, sub, compare, rs, r)
          decreases |sub[r]|
        {
          LeftmostStep(nodes, root, elems, sub, compare, rs, r);
          assert ShapeAt(nodes, root, elems, sub, NIL, r);
          ChildSubSmaller(nodes, root, elems, sub, NIL, nodes[r].left);
          r := nodes[r].left;
        }
        LeftmostStep(nodes, root, elems, sub, compare, rs, r);
        SuccIsRightMin(nodes, root, elems, sub, compare, t, r);
        SuccNotMax(nodes, elems, compare, t, r);
        return r;
      }
      MaxOfOwnSubtree(nodes, root, elems, sub, compare, t);
      assert ShapeAt(nodes, root, elems, sub, NIL, t);
      r := nodes[top].parent;
      while r != NIL
        invariant top in elems && r == nodes[top].parent && MaxOf(nodes, compare, sub[top], t)
        decreases |elems| - |sub[top]|
      {
        SuccAscend(nodes, root, elems, sub, compare, t, top);
        if nodes[r].left == top {
          SuccNotMax(nodes, elems, compare, t, r);
          return r;
        }
        ChildSubSmaller(nodes, root, elems, sub, NIL, top);
        ChildSubSmaller(nodes, root, elems, sub, NIL, r);
        top := r;
        r := nodes[top].parent;
      }
      SuccAscend(nodes, root, elems, sub, compare, t, top);
      return NIL;
    }

    /** `RBTnode.Pre`: the in-order predecessor of `t`, nil before the first node. */
    method Pre(t: int) returns (r: int)
      requires Valid() && t in elems
      ensures r == NIL <==> IsMin(nodes, elems, compare, t)
      ensures r != NIL ==> IsPred(nodes, elems, compare, t, r)
    {
      r := nodes[t].left;
      if r != NIL {
        ghost var ls := SubOf(elems, sub, nodes[t].left);
        assert ShapeAt(nodes, root, elems, sub, NIL, t);
        assert ShapeAt(nodes, root, elems, sub, NIL, r);
        while nodes[r].right != NIL
          invariant r in elems && sub[r] <= ls && ls <= elems && MaxOutside(nodes, elems, sub, compare, ls, r)
          decreases |sub[r]|
        {
          RightmostStep(nodes, root, elems, sub, compare, ls, r);
          assert ShapeAt(nodes, root, elems, sub, NIL, r);
          ChildSubSmaller(nodes, root, elems, sub, NIL, nodes[r].right);
          r := nodes[r].right;
        }
        RightmostStep(nodes, root, elems, sub, compare, ls, r);
        PredIsLeftMax(nodes, root, elems, sub, compare, t, r);
        PredNotMin(nodes, elems, compare, t, r);
        return r;
      }
      MinOfOwnSubtree(nodes, root, elems, sub, compare, t);
      assert ShapeAt(nodes, root, elems, sub, NIL, t);
      var top := t;
      r := nodes[t].parent;
      while r != NIL
        invariant top in elems && r == nodes[top].parent && MinOf(nodes, compare, sub[top], t)
        decreases |elems| - |sub[top]|
      {
        PredAscend(nodes, root, elems, sub, compare, t, top);
        if nodes[r].right == top {
          PredNotMin(nodes, elems, compare, t, r);
          return r;
        }
        ChildSubSmaller(nodes, root, elems, sub, NIL, top);
        ChildSubSmaller(nodes, root, elems, sub, NIL, r);
        top := r;
        r := nodes[top].parent;
      }
      PredAscend(nodes, root, elems, sub, compare, t, top);
      return NIL;
    }

    /** Go's `rotateleft`: `node` goes down to the left and its right child takes its place. */
    method RotateLeft(node: int)
      modifies this
      requires Rotatable(nodes, node, true)
      ensures Rotated(old(nodes), old(root), nodes, root, node, true) && Relinked(old(nodes), nodes)
      ensures elems == old(elems) && sub == old(sub) && bh == old(bh)
    {
      ghost var n0 := nodes;
      var parent := nodes[node].parent;
      var s := nodes[node].right;
      nodes := nodes[s := nodes[s].(parent := parent)];
      ghost var n1 := nodes;
      nodes := nodes[node := nodes[node].(right := nodes[s].left)];
      ghost var n2 := nodes;
      if nodes[node].right != NIL {
        var b := nodes[node].right;
        nodes := nodes[b := nodes[b].(parent := node)];
      }
      ghost var n3 := nodes;
      nodes := nodes[node := nodes[node].(parent := s)];
      ghost var n4 := nodes;
      nodes := nodes[s := nodes[s].(left := node)];
      ghost var n5 := nodes;
      if parent != NIL {
        if nodes[parent].left == node {
          nodes := nodes[parent := nodes[parent].(left := s)];
        } else {
          nodes := nodes[parent := nodes[parent].(right := s)];
        }
      } else {
        root := s;
      }
      RotateSteps(n0, node, true, old(root), n1, n2, n3, n4, n5, nodes, root);
      RotateStepsRelink(n0, node, true, old(root), n1, n2, n3, n4, n5, nodes, root);
    }

    /** Go's `rotateright`: `node` goes down to the right and its left child takes its place. */
    method RotateRight(node: int)
      modifies this
      requires Rotatable(nodes, node, false)
      ensures Rotated(old(nodes), old(root), nodes, root, node, false) && Relinked(old(nodes), nodes)
      ensures elems == old(elems) && sub == old(sub) && bh == old(bh)
    {
      ghost var n0 := nodes;
      var parent := nodes[node].parent;
      var s := nodes[node].left;
      nodes := nodes[s := nodes[s].(parent := parent)];
      ghost var n1 := nodes;
      nodes := nodes[node := nodes[node].(left := nodes[s].right)];
      ghost var n2 := nodes;
      if nodes[node].left != NIL {
        var b := nodes[node].left;
        nodes := nodes[b := nodes[b].(parent := node)];
      }
      ghost var n3 := nodes;
      nodes := nodes[node := nodes[node].(parent := s)];
      ghost var n4 := nodes;
      nodes := nodes[s := nodes[s].(right := node)];
      ghost var n5 := nodes;
      if parent != NIL {
        if nodes[parent].left == node {
          nodes := nodes[parent := nodes[parent].(left := s)];
        } else {
          nodes := nodes[parent := nodes[parent].(right := s)];
        }
      } else {
        root := s;
      }
      RotateSteps(n0, node, false, old(root), n1, n2, n3, n4, n5, nodes, root);
      RotateStepsRelink(n0, node, false, old(root), n1, n2, n3, n4, n5, nodes, root);
    }

    /** The first block of Go's `swapnode`: `a` and `b` trade parents, and the parents' links follow. */
    method SwapParentLinks(a: int, b: int)
      modifies this
      requires LinksIn(nodes, a) && LinksIn(nodes, b) && a != b
      ensures nodes == SwapParents(old(nodes), a, b) && LinksIn(nodes, a) && LinksIn(nodes, b)
      ensures root == old(root) && elems == old(elems) && sub == old(sub) && bh == old(bh)
    {
      ghost var n0 := nodes;
      var x := nodes[a].parent;
      nodes := nodes[a := nodes[a].(parent := nodes[b].parent)];
      ghost var n1 := nodes;
      if x != NIL {
        nodes := nodes[x := Redirect(nodes[x], a, b)];
      }
      ghost var n2 := nodes;
      nodes := nodes[b := nodes[b].(parent := x)];
      ghost var n3 := nodes;
      if nodes[a].parent != NIL {
        nodes := nodes[nodes[a].parent := Redirect(nodes[nodes[a].parent], b, a)];
      }
      ParentsSteps(n0, a, b, n1, n2, n3, nodes);
    }

    /** The second block of Go's `swapnode`: `a` and `b` trade left children, which point back at their new parents. */
    method SwapLeftLinks(a: int, b: int)
      modifies this
      requires LinksIn(nodes, a) && LinksIn(nodes, b)
      ensures nodes == SwapLefts(old(nodes), a, b) && LinksIn(nodes, a) && LinksIn(nodes, b)
      ensures root == old(root) && elems == old(elems) && sub == old(sub) && bh == old(bh)
    {
      ghost var n0 := nodes;
      var x := nodes[a].left;
      nodes := nodes[a := nodes[a].(left := nodes[b].left)];
      ghost var n1 := nodes;
      nodes := nodes[b := nodes[b].(left := x)];
      ghost var n2 := nodes;
      if x != NIL {
        nodes := nodes[x := nodes[x].(parent := b)];
      }
      ghost var n3 := nodes;
      if nodes[a].left != NIL {
        nodes := nodes[nodes[a].left := nodes[nodes[a].left].(parent := a)];
      }
      LeftsSteps(n0, a, b, n1, n2, n3, nodes);
    }

    /** The third block of Go's `swapnode`: the same for the right children. */
    method SwapRightLinks(a: int, b: int)
      modifies this
      requires LinksIn(nodes, a) && LinksIn(nodes, b)
      ensures nodes == SwapRights(old(nodes), a, b)
      ensures root == old(root) && elems == old(elems) && sub == old(sub) && bh == old(bh)
    {
      ghost var n0 := nodes;
      var x := nodes[a].right;
      nodes := nodes[a := nodes[a].(right := nodes[b].right)];
      ghost var n1 := nodes;
      nodes := nodes[b := nodes[b].(right := x)];
      ghost var n2 := nodes;
      if x != NIL {
        nodes := nodes[x := nodes[x].(parent := b)];
      }
      ghost var n3 := nodes;
      if nodes[a].right != NIL {
        nodes := nodes[nodes[a].right := nodes[nodes[a].right].(parent := a)];
      }
      RightsSteps(n0, a, b, n1, n2, n3, nodes);
    }

    /**
     * Go's `swapnode(a, b)`: `a` and `b` exchange their places in the tree
     * (parent, children and colour), each keeping its key and value.
     */
    method SwapNode(a: int, b: int)
      modifies this
      requires LinksIn(nodes, a) && LinksIn(nodes, b) && a != b
      ensures nodes == SwapNodes(old(nodes), a, b)
      ensures root == old(root) && elems == old(elems) && sub == old(sub) && bh == old(bh)
    {
      SwapParentLinks(a, b);
      SwapLeftLinks(a, b);
      SwapRightLinks(a, b);
      ghost var n0 := nodes;
      var color := nodes[b].color;
      nodes := nodes[b := nodes[b].(color := nodes[a].color)];
      nodes := nodes[a := nodes[a].(color := color)];
      assert nodes == SwapColor(n0, a, b);
    }

    /**
     * The red-uncle case of Go's `rotate`: parent and uncle turn black, the
     * grandparent red, and the repair moves up to the grandparent.
     */
    method RedUncle(c: int, p: int, g: int, u: int)
      modifies this
      requires FixInv(nodes, root, elems, sub, bh, compare, c)
      requires p == nodes[c].parent && p != NIL && 0 <= p < |nodes| && nodes[p].color == Red
      requires g == nodes[p].parent && 0 <= g < |nodes| && u == Sibling(nodes, g, p)
      requires u != NIL && 0 <= u < |nodes| && nodes[u].color == Red
      ensures nodes == RecolorUp(old(nodes), p, u, g) && root == old(root) && elems == old(elems) && sub == old(sub)
      ensures FixInv(nodes, root, elems, sub, bh, compare, g)
      ensures 0 <= FixRank(nodes, elems, sub, g) < old(FixRank(nodes, elems, sub, c))
      ensures SameSlots(old(nodes), nodes)
    {
      nodes := nodes[p := nodes[p].(color := Black)];
      nodes := nodes[u := nodes[u].(color := Black)];
      nodes := nodes[g := nodes[g].(color := Red)];
      FixNeighbours(old(nodes), root, elems, sub, bh, compare, c);
      bh := bh[p := bh[p] + 1][u := bh[u] + 1];
      RedUncleStep(old(nodes), root, elems, sub, old(bh), compare, c, p, g, u, nodes, bh);
    }

    /**
     * The inner-child case of Go's `rotate`: a rotation at the parent `p`
     * away from `c` turns `p` into the red outer child to repair.
     */
    method InnerRotate(c: int, p: int, g: int, toLeft: bool)
      modifies this
      requires FixInv(nodes, root, elems, sub, bh, compare, c)
      requires p == nodes[c].parent && p != NIL && 0 <= p < |nodes| && nodes[p].color == Red
      requires g == nodes[p].parent && 0 <= g < |nodes| && Link(nodes[g], toLeft) == p && Link(nodes[p], !toLeft) == c
      ensures Rotated(old(nodes), old(root), nodes, root, p, toLeft) && root == old(root)
      ensures elems == old(elems) && bh == old(bh) && p in old(sub) && sub == RotSub(old(nodes), elems, old(sub), p, toLeft)
      ensures FixInv(nodes, root, elems, sub, bh, compare, p)
      ensures FixRank(nodes, elems, sub, p) == old(FixRank(nodes, elems, sub, c)) && old(Inner(nodes, c)) && !Inner(nodes, p)
      ensures SameSlots(old(nodes), nodes)
    {
      InnerRotatable(nodes, root, elems, sub, bh, compare, c, p, g, toLeft);
      if toLeft {
        RotateLeft(p);
      } else {
        RotateRight(p);
      }
      InnerRotated(old(nodes), old(root), elems, sub, bh, compare, c, p, g, toLeft, nodes, root);
      sub := RotSub(old(nodes), elems, sub, p, toLeft);
    }

    /**
     * The outer-child case of Go's `rotate`: the parent turns black, the
     * grandparent red, and a rotation at the grandparent away from `c`
     * settles the tree.
     */
    method OuterRotate(c: int, p: int, g: int, u: int)
      modifies this
      requires FixInv(nodes, root, elems, sub, bh, compare, c)
      requires p == nodes[c].parent && p != NIL && 0 <= p < |nodes| && nodes[p].color == Red
      requires g == nodes[p].parent && 0 <= g < |nodes| && u == Sibling(nodes, g, p)
      requires u != NIL ==> 0 <= u < |nodes|
      requires !(u != NIL && nodes[u].color == Red)
      requires !(nodes[g].left == p && nodes[p].right == c) && !(nodes[g].right == p && nodes[p].left == c)
      ensures var tl := old(nodes[p].left) != c;
        && Rotated(Paint2(old(nodes), p, Black, g, Red), old(root), nodes, root, g, tl)
        && g in old(sub) && sub == RotSub(old(nodes), elems, old(sub), g, tl)
        && p in old(bh) && g in old(bh) && bh == old(bh)[g := old(bh)[p]][p := old(bh)[g]]
      ensures elems == old(elems) && RBTree(nodes, root, elems, sub, bh, compare)
      ensures SameSlots(old(nodes), nodes)
    {
      ghost var tl := nodes[p].left != c;
      OuterRotatable(nodes, root, elems, sub, bh, compare, c, p, g, u, tl);
      nodes := nodes[p := nodes[p].(color := Black)];
      nodes := nodes[g := nodes[g].(color := Red)];
      ghost var n1 := nodes;
      if c == nodes[p].left {
        RotateRight(g);
      } else {
        RotateLeft(g);
      }
      sub := RotSub(old(nodes), elems, sub, g, tl);
      bh := bh[g := bh[p]][p := bh[g]];
      OuterRotated(old(nodes), old(root), elems, old(sub), old(bh), compare, c, p, g, u, tl, nodes, root, sub, bh);
    }

    /**
     * Go's `rotate`: the repair loop after a red leaf is attached. `node`
     * starts as the one red node that may have a red parent; the loop ends
     * with a red-black tree holding the same nodes.
     */
    method Rotate(node: int)
      modifies this
      requires FixInv(nodes, root, elems, sub, bh, compare, node)
      ensures RBTree(nodes, root, elems, sub, bh, compare)
      ensures elems == old(elems) && SameSlots(old(nodes), nodes)
    {
      var current := node;
      while true
        invariant FixInv(nodes, root, elems, sub, bh, compare, current)
        invariant elems == old(elems) && SameSlots(old(nodes), nodes)
        decreases FixRank(nodes, elems, sub, current), if Inner(nodes, current) then 1 else 0
      {
        FixNeighbours(nodes, root, elems, sub, bh, compare, current);
        var parent := nodes[current].parent;
        if parent == NIL {
          ghost var n0 := nodes;
          nodes := nodes[current := nodes[current].(color := Black)];
          FixAtRoot(n0, root, elems, sub, bh, compare, current, nodes);
          bh := bh[current := bh[current] + 1];
          return;
        }
        if nodes[parent].color != Red {
          FixParentBlack(nodes, root, elems, sub, bh, compare, current);
          return;
        }
        var grandparent := nodes[parent].parent;
        var uncle := nodes[grandparent].left;
        if uncle == parent {
          uncle := nodes[grandparent].right;
        }
        ghost var n0 := nodes;
        if uncle != NIL && nodes[uncle].color == Red {
          RedUncle(current, parent, grandparent, uncle);
          SameSlotsTrans(old(nodes), n0, nodes);
          current := grandparent;
          continue;
        }
        if nodes[grandparent].left == parent && nodes[parent].right == current {
          InnerRotate(current, parent, grandparent, true);
          SameSlotsTrans(old(nodes), n0, nodes);
          current := parent;
          continue;
        }
        if nodes[grandparent].right == parent && nodes[parent].left == current {
          InnerRotate(current, parent, grandparent, false);
          SameSlotsTrans(old(nodes), n0, nodes);
          current := parent;
          continue;
        }
        OuterRotate(current, parent, grandparent, uncle);
        SameSlotsTrans(old(nodes), n0, nodes);
        return;
      }
    }

    /**
     * Go's `Insert`: after `Find` has returned `parent` for the key of `x`,
     * `x` becomes the black root of an empty tree or a red leaf below
     * `parent`, and `rotate` restores the colours.
     */
    method Insert(parent: int, x: int)
      modifies this
      requires Valid() && 0 <= x < |nodes| && !nodes[x].valid
      requires InsertionPoint(nodes, elems, sub, compare, nodes[x].key, parent)
      ensures Valid() && x !in old(elems) && elems == old(elems) + {x}
      ensures SameSlots(old(nodes)[x := old(nodes[x]).(valid := true)], nodes)
      ensures parent == NIL ==> root == x && nodes[x].color == Black
    {
      nodes := nodes[x := nodes[x].(parent := parent, left := NIL, right := NIL, valid := true)];
      if parent != NIL {
        nodes := nodes[x := nodes[x].(color := Red)];
      } else {
        nodes := nodes[x := nodes[x].(color := Black)];
      }
      if parent == NIL {
        root := x;
        InsertSlots(old(nodes), x, parent, Black, nodes);
        AttachRoot(old(nodes), old(root), elems, sub, bh, compare, nodes, x);
        elems, sub, bh := {x}, sub[x := {x}], bh[x := 1];
      } else {
        if compare(nodes[x].key, nodes[parent].key) < 0 {
          nodes := nodes[parent := nodes[parent].(left := x)];
        } else {
          nodes := nodes[parent := nodes[parent].(right := x)];
        }
        InsertSlots(old(nodes), x, parent, Red, nodes);
        AttachLeaf(old(nodes), root, elems, sub, bh, compare, nodes, x, parent);
        elems, sub, bh := elems + {x}, AttachSub(sub, parent, x), bh[x := 0];
        ghost var n2 := nodes;
        Rotate(x);
        SameSlotsTrans(old(nodes)[x := old(nodes[x]).(valid := true)], n2, nodes);
      }
      ValidSlots(old(nodes), old(elems), x, nodes);
    }

    /**
     * Case 1 of Go's `removeCaseN`: the sibling `s` of `n` is red. The parent
     * turns red, the sibling black, and a rotation at the parent towards `n`
     * gives `n` a black sibling.
     */
    method RedSiblingCase(n: int, p: int, s: int, ghost ph: int)
      modifies this
      requires DelInv(nodes, root, elems, sub, bh, compare, ph, n, p) && p != NIL && 0 <= p < |nodes|
      requires s == Sibling(nodes, p, n) && 0 <= s < |nodes| && nodes[s].color == Red
      ensures var tl := old(nodes[p].left) == n;
        && Rotated(Paint2(old(nodes), p, Red, s, Black), old(root), nodes, root, p, tl)
        && p in old(sub) && sub == RotSub(old(nodes), elems, old(sub), p, tl)
        && p in old(bh) && s in old(bh) && bh == Exchange(old(bh), p, s)
      ensures elems == old(elems) && DelInv(nodes, root, elems, sub, bh, compare, ph, n, p) && nodes[p].color == Red
      ensures var s' := Sibling(nodes, p, n); 0 <= s' < |nodes| && nodes[s'].color == Black
      ensures SameSlots(old(nodes), nodes)
    {
      ghost var tl := nodes[p].left == n;
      RedSiblingPre(nodes, root, elems, sub, bh, compare, ph, n, p, s, tl);
      ghost var sub', bh' := RotSub(nodes, elems, sub, p, tl), Exchange(bh, p, s);
      nodes := nodes[p := nodes[p].(color := Red)];
      nodes := nodes[s := nodes[s].(color := Black)];
      if nodes[p].left == n {
        RotateLeft(p);
      } else {
        RotateRight(p);
      }
      sub, bh := sub', bh';
      RedSiblingPost(old(nodes), old(root), elems, old(sub), old(bh), compare, ph, n, p, s, tl, nodes, root, sub, bh);
    }

    /**
     * Case 2 of Go's `removeCaseN`: parent, sibling and the sibling's
     * children are black. The sibling turns red and the deficit moves up to
     * the parent.
     */
    method BlackSiblingCase(n: int, p: int, s: int, ghost ph: int)
      modifies this
      requires DelInv(nodes, root, elems, sub, bh, compare, ph, n, p) && p != NIL && 0 <= p < |nodes| && nodes[p].color == Black
      requires s == Sibling(nodes, p, n) && 0 <= s < |nodes| && nodes[s].color == Black
      requires !IsRed(nodes, nodes[s].left) && !IsRed(nodes, nodes[s].right)
      ensures nodes == old(nodes)[s := old(nodes)[s].(color := Red)] && root == old(root) && elems == old(elems) && sub == old(sub)
      ensures p in old(bh) && s in old(bh) && bh == old(bh)[s := old(bh)[s] - 1][p := old(bh)[p] - 1]
      ensures DelInv(nodes, root, elems, sub, bh, compare, ph, p, nodes[p].parent)
      ensures 0 <= DelRank(elems, sub, p) < DelRank(elems, sub, n)
      ensures SameSlots(old(nodes), nodes)
    {
      DelNeighbours(nodes, root, elems, sub, bh, compare, ph, n, p);
      nodes := nodes[s := nodes[s].(color := Red)];
      bh := bh[s := bh[s] - 1][p := bh[p] - 1];
      BlackSiblingStep(old(nodes), root, elems, sub, old(bh), compare, ph, n, p, s, nodes, bh);
    }

    /**
     * Case 3 of Go's `removeCaseN`: the parent is red, the sibling and its
     * children black. Sibling and parent swap colours, which settles the tree.
     */
    method RedParentCase(n: int, p: int, s: int, ghost ph: int)
      modifies this
      requires DelInv(nodes, root, elems, sub, bh, compare, ph, n, p) && p != NIL && 0 <= p < |nodes| && nodes[p].color == Red
      requires s == Sibling(nodes, p, n) && 0 <= s < |nodes| && nodes[s].color == Black
      requires !IsRed(nodes, nodes[s].left) && !IsRed(nodes, nodes[s].right)
      ensures nodes == Paint2(old(nodes), s, Red, p, Black) && root == old(root) && elems == old(elems) && sub == old(sub)
      ensures s in old(bh) && bh == old(bh)[s := old(bh)[s] - 1]
      ensures DelDone(nodes, root, elems, sub, bh, compare, ph)
      ensures SameSlots(old(nodes), nodes)
    {
      DelNeighbours(nodes, root, elems, sub, bh, compare, ph, n, p);
      nodes := nodes[s := nodes[s].(color := Red)];
      nodes := nodes[p := nodes[p].(color := Black)];
      bh := bh[s := bh[s] - 1];
      RedParentStep(old(nodes), root, elems, sub, old(bh), compare, ph, n, p, s, nodes, bh);
    }

    /**
     * Case 4 of Go's `removeCaseN`: the sibling is black, its child nearer
     * `n` red and the other black. The sibling turns red, that child black,
     * and a rotation at the sibling away from `n` leaves `n` a black sibling
     * whose far child is red.
     */
    method NearNephewCase(n: int, p: int, s: int, ghost ph: int)
      modifies this
      requires DelInv(nodes, root, elems, sub, bh, compare, ph, n, p) && p != NIL && 0 <= p < |nodes|
      requires s == Sibling(nodes, p, n) && 0 <= s < |nodes| && nodes[s].color == Black
      requires var tl := nodes[p].left == n; IsRed(nodes, Link(nodes[s], tl)) && !IsRed(nodes, Link(nodes[s], !tl))
      ensures var tl := old(nodes[p].left) == n; var near := old(Link(nodes[s], tl));
        && 0 <= near < |old(nodes)|
        && Rotated(Paint2(old(nodes), s, Red, near, Black), old(root), nodes, root, s, !tl)
        && s in old(sub) && sub == RotSub(old(nodes), elems, old(sub), s, !tl)
        && s in old(bh) && near in old(bh) && bh == Exchange(old(bh), s, near)
      ensures elems == old(elems) && DelInv(nodes, root, elems, sub, bh, compare, ph, n, p) && 0 <= p < |nodes|
      ensures var s' := Sibling(nodes, p, n);
        0 <= s' < |nodes| && nodes[s'].color == Black && IsRed(nodes, Link(nodes[s'], !(nodes[p].left == n)))
      ensures SameSlots(old(nodes), nodes)
    {
      ghost var tl := nodes[p].left == n;
      ghost var near := Link(nodes[s], tl);
      NearNephewPre(nodes, root, elems, sub, bh, compare, ph, n, p, s, tl);
      ghost var sub', bh' := RotSub(nodes, elems, sub, s, !tl), Exchange(bh, s, near);
      NearRecolorRotate(n, p, s);
      sub, bh := sub', bh';
      NearNephewPost(old(nodes), old(root), elems, old(sub), old(bh), compare, ph, n, p, s, tl, nodes, root, sub, bh);
    }

    /** The statements of case 4: the recolouring in Go's order, then the rotation at `s` away from `n`. */
    method NearRecolorRotate(n: int, p: int, s: int)
      modifies this
      requires 0 <= p < |nodes| && 0 <= s < |nodes| && s != p
      requires var near := Link(nodes[s], nodes[p].left == n);
        0 <= near < |nodes| && near != s && Rotatable(Paint2(nodes, s, Red, near, Black), s, !(nodes[p].left == n))
      ensures var tl := old(nodes[p].left) == n; var near := old(Link(nodes[s], tl));
        Rotated(Paint2(old(nodes), s, Red, near, Black), old(root), nodes, root, s, !tl) && Relinked(Paint2(old(nodes), s, Red, near, Black), nodes)
      ensures elems == old(elems) && sub == old(sub) && bh == old(bh)
    {
      nodes := nodes[s := nodes[s].(color := Red)];
      if n == nodes[p].left {
        nodes := nodes[nodes[s].left := nodes[nodes[s].left].(color := Black)];
        RotateRight(s);
      } else {
        nodes := nodes[nodes[s].right := nodes[nodes[s].right].(color := Black)];
        RotateLeft(s);
      }
    }

    /**
     * Case 5 of Go's `removeCaseN`: the sibling is black and its child
     * farther from `n` red. The sibling takes the parent's colour, parent and
     * far child turn black, and a rotation at the parent towards `n` settles
     * the tree.
     */
    method FarNephewCase(n: int, p: int, s: int, ghost ph: int)
      modifies this
      requires DelInv(nodes, root, elems, sub, bh, compare, ph, n, p) && p != NIL && 0 <= p < |nodes|
      requires s == Sibling(nodes, p, n) && 0 <= s < |nodes| && nodes[s].color == Black
      requires IsRed(nodes, Link(nodes[s], !(nodes[p].left == n)))
      ensures var tl := old(nodes[p].left) == n; var far := old(Link(nodes[s], !tl));
        && 0 <= far < |old(nodes)|
        && Rotated(FarPaint(old(nodes), s, p, far), old(root), nodes, root, p, tl)
        && p in old(sub) && sub == RotSub(old(nodes), elems, old(sub), p, tl)
        && p in old(bh) && s in old(bh) && far in old(bh) && bh == FarBH(old(bh), p, s, far)
      ensures elems == old(elems) && DelDone(nodes, root, elems, sub, bh, compare, ph)
      ensures SameSlots(old(nodes), nodes)
    {
      ghost var tl := nodes[p].left == n;
      ghost var far := Link(nodes[s], !tl);
      FarNephewPre(nodes, root, elems, sub, bh, compare, ph, n, p, s, tl);
      ghost var sub', bh' := RotSub(nodes, elems, sub, p, tl), FarBH(bh, p, s, far);
      FarRecolorRotate(n, p, s);
      sub, bh := sub', bh';
      FarNephewPost(old(nodes), old(root), elems, old(sub), old(bh), compare, ph, n, p, s, tl, nodes, root, sub, bh);
    }

    /** The statements of case 5: the recolouring in Go's order, then the rotation at `p` towards `n`. */
    method FarRecolorRotate(n: int, p: int, s: int)
      modifies this
      requires 0 <= p < |nodes| && 0 <= s < |nodes| && s == Link(nodes[p], !(nodes[p].left == n))
      requires var far := Link(nodes[s], !(nodes[p].left == n));
        0 <= far < |nodes| && far != s && far != p && s != p && Rotatable(FarPaint(nodes, s, p, far), p, nodes[p].left == n)
      ensures var tl := old(nodes[p].left) == n; var far := old(Link(nodes[s], !tl));
        Rotated(FarPaint(old(nodes), s, p, far), old(root), nodes, root, p, tl) && Relinked(FarPaint(old(nodes), s, p, far), nodes)
      ensures elems == old(elems) && sub == old(sub) && bh == old(bh)
    {
      nodes := nodes[s := nodes[s].(color := nodes[p].color)];
      nodes := nodes[p := nodes[p].(color := Black)];
      if n == nodes[p].left {
        nodes := nodes[nodes[s].right := nodes[nodes[s].right].(color := Black)];
        RotateLeft(p);
      } else {
        nodes := nodes[nodes[s].left := nodes[nodes[s].left].(color := Black)];
        RotateRight(p);
      }
    }

    /**
     * The start of a round of Go's `removeCaseN`: the sibling `s` of `n`,
     * made black by case 1 when it is red.
     */
    method BlackSibling(n: int, p: int, ghost ph: int) returns (s: int)
      modifies this
      requires DelInv(nodes, root, elems, sub, bh, compare, ph, n, p) && p != NIL
      ensures DelInv(nodes, root, elems, sub, bh, compare, ph, n, p) && 0 <= p < |nodes|
      ensures s == Sibling(nodes, p, n) && 0 <= s < |nodes| && nodes[s].color == Black
      ensures (nodes[s].left == NIL || 0 <= nodes[s].left < |nodes|) && (nodes[s].right == NIL || 0 <= nodes[s].right < |nodes|)
      ensures nodes[p].color == Black ==> nodes == old(nodes) && root == old(root) && sub == old(sub) && bh == old(bh)
      ensures elems == old(elems) && SameSlots(old(nodes), nodes)
    {
      DelNeighbours(nodes, root, elems, sub, bh, compare, ph, n, p);
      if nodes[p].left == n {
        s := nodes[p].right;
      } else {
        s := nodes[p].left;
      }
      if nodes[s].color == Red {
        RedSiblingCase(n, p, s, ph);
        if nodes[p].left == n {
          s := nodes[p].right;
        } else {
          s := nodes[p].left;
        }
        DelNeighbours(nodes, root, elems, sub, bh, compare, ph, n, p);
      }
    }

    /**
     * The end of a round of Go's `removeCaseN`, once case 2 does not apply:
     * case 3, or case 4 followed by case 5, or case 5 alone. Each settles
     * the tree.
     */
    method Settle(n: int, p: int, s0: int, ghost ph: int)
      modifies this
      requires DelInv(nodes, root, elems, sub, bh, compare, ph, n, p) && p != NIL && 0 <= p < |nodes|
      requires s0 == Sibling(nodes, p, n) && 0 <= s0 < |nodes| && nodes[s0].color == Black
      requires !(nodes[p].color == Black && !IsRed(nodes, nodes[s0].left) && !IsRed(nodes, nodes[s0].right))
      ensures DelDone(nodes, root, elems, sub, bh, compare, ph)
      ensures elems == old(elems) && SameSlots(old(nodes), nodes)
    {
      var s := s0;
      DelNeighbours(nodes, root, elems, sub, bh, compare, ph, n, p);
      if nodes[p].color == Red && nodes[s].color == Black && IsBlackLink(nodes, nodes[s].left) && IsBlackLink(nodes, nodes[s].right) {
        RedParentCase(n, p, s, ph);
        return;
      }
      if nodes[s].color == Black {
        if (n == nodes[p].left && IsBlackLink(nodes, nodes[s].right) && !IsBlackLink(nodes, nodes[s].left))
          || (n == nodes[p].right && IsBlackLink(nodes, nodes[s].left) && !IsBlackLink(nodes, nodes[s].right))
        {
          NearNephewCase(n, p, s, ph);
        }
        if nodes[p].left == n {
          s := nodes[p].right;
        } else {
          s := nodes[p].left;
        }
      }
      ghost var n0 := nodes;
      FarNephewCase(n, p, s, ph);
      SameSlotsTrans(old(nodes), n0, nodes);
    }

    /**
     * Go's `removeCaseN`: the repair loop after a black leaf has been cut
     * out. `node` is black and one black short below its parent; each round
     * settles the tree or moves the deficit one level up.
     */
    method RemoveCaseN(node: int, ghost ph: int)
      modifies this
      requires 0 <= node < |nodes| && DelInv(nodes, root, elems, sub, bh, compare, ph, node, nodes[node].parent)
      ensures DelDone(nodes, root, elems, sub, bh, compare, ph)
      ensures elems == old(elems) && SameSlots(old(nodes), nodes)
    {
      var n := node;
      var parent := nodes[n].parent;
      while true
        invariant DelInv(nodes, root, elems, sub, bh, compare, ph, n, parent)
        invariant elems == old(elems) && SameSlots(old(nodes), nodes)
        decreases DelRank(elems, sub, n)
      {
        if parent == NIL {
          DelAtRoot(nodes, root, elems, sub, bh, compare, ph, n);
          return;
        }
        ghost var n0 := nodes;
        var s := BlackSibling(n, parent, ph);
        SameSlotsTrans(old(nodes), n0, nodes);
        n0 := nodes;
        if nodes[parent].color == Black && nodes[s].color == Black && IsBlackLink(nodes, nodes[s].left) && IsBlackLink(nodes, nodes[s].right) {
          BlackSiblingCase(n, parent, s, ph);
          SameSlotsTrans(old(nodes), n0, nodes);
          n := parent;
          parent := nodes[n].parent;
          continue;
        }
        Settle(n, parent, s, ph);
        SameSlotsTrans(old(nodes), n0, nodes);
        return;
      }
    }

    /**
     * Go's `removeone`: `node`, a tree node with at most one child, leaves
     * the tree and its child takes its place. The cases of the Go function
     * are the four methods below.
     */
    method RemoveOne(node: int)
      modifies this
      requires RemovePoint(nodes, root, elems, sub, bh, compare, node)
      ensures elems == old(elems) - {node}
      ensures RBTree(nodes, root, elems, sub, bh, compare)
      ensures SameSlots(old(nodes), nodes)
    {
      var child := nodes[node].left;
      if child == NIL {
        child := nodes[node].right;
      }
      var parent := nodes[node].parent;
      RemoveNeighbours(nodes, root, elems, sub, bh, compare, node);
      if parent == NIL {
        RemoveRoot(node, child);
      } else if nodes[node].color == Red {
        RemoveRedNode(node, parent, child);
      } else if child != NIL {
        RemoveBlackNode(node, parent, child);
      } else {
        RemoveBlackLeafNode(node, parent);
      }
    }

    /**
     * The root case of `removeone`: a root leaf leaves the tree empty; a
     * root with a child, a red leaf, hands the root over to it, painted black.
     */
    method RemoveRoot(node: int, child: int)
      modifies this
      requires RemovePoint(nodes, root, elems, sub, bh, compare, node) && nodes[node].parent == NIL
      requires child == OnlyChild(nodes[node]) && (child != NIL ==> 0 <= child < |nodes|)
      ensures elems == old(elems) - {node}
      ensures RBTree(nodes, root, elems, sub, bh, compare)
      ensures SameSlots(old(nodes), nodes)
    {
      if child == NIL {
        RemoveRootLeaf(nodes, root, elems, sub, bh, compare, node);
        if nodes[node].color == Black {
          root := NIL;
        }
      } else {
        nodes := nodes[child := nodes[child].(color := Black)];
        nodes := nodes[child := nodes[child].(parent := NIL)];
        root := child;
        RootChildSlots(old(nodes), child, nodes);
        RemoveRootWithChild(old(nodes), old(root), elems, sub, bh, compare, node, nodes);
        bh := bh[child := 1];
      }
      elems, sub := elems - {node}, RemoveSub(sub, node);
    }

    /** `removeone` on a red node below a parent: a red leaf, which the parent simply drops. */
    method RemoveRedNode(node: int, parent: int, child: int)
      modifies this
      requires RemovePoint(nodes, root, elems, sub, bh, compare, node) && nodes[node].color == Red
      requires parent == nodes[node].parent && parent != NIL && 0 <= parent < |nodes| && child == OnlyChild(nodes[node])
      ensures elems == old(elems) - {node}
      ensures RBTree(nodes, root, elems, sub, bh, compare)
      ensures SameSlots(old(nodes), nodes)
    {
      if nodes[parent].left == node {
        nodes := nodes[parent := nodes[parent].(left := child)];
      } else {
        nodes := nodes[parent := nodes[parent].(right := child)];
      }
      RemoveRed(old(nodes), root, elems, sub, bh, compare, node, nodes);
      SlotUpdate(old(nodes), parent, nodes[parent]);
      elems, sub := elems - {node}, RemoveSub(sub, node);
    }

    /** `removeone` on a black node with a child: the child, a red leaf, takes its place and turns black. */
    method RemoveBlackNode(node: int, parent: int, child: int)
      modifies this
      requires RemovePoint(nodes, root, elems, sub, bh, compare, node)
      requires parent == nodes[node].parent && parent != NIL && 0 <= parent < |nodes|
      requires child == OnlyChild(nodes[node]) && child != NIL && 0 <= child < |nodes| && child != parent
      ensures elems == old(elems) - {node}
      ensures RBTree(nodes, root, elems, sub, bh, compare)
      ensures SameSlots(old(nodes), nodes)
    {
      if nodes[parent].left == node {
        nodes := nodes[parent := nodes[parent].(left := child)];
      } else {
        nodes := nodes[parent := nodes[parent].(right := child)];
      }
      nodes := nodes[child := nodes[child].(parent := parent)];
      nodes := nodes[child := nodes[child].(color := Black)];
      BlackChildSlots(old(nodes), node, parent, child, nodes);
      RemoveBlackWithChild(old(nodes), root, elems, sub, bh, compare, node, nodes);
      elems, sub, bh := elems - {node}, RemoveSub(sub, node), bh[child := bh[child] + 1];
    }

    /**
     * `removeone` on a black leaf: a black placeholder takes its place,
     * `removeCaseN` repairs the black heights from there, and the
     * placeholder is unlinked and dropped again.
     */
    method RemoveBlackLeafNode(node: int, parent: int)
      modifies this
      requires RemovePoint(nodes, root, elems, sub, bh, compare, node) && nodes[node].color == Black && OnlyChild(nodes[node]) == NIL
      requires parent == nodes[node].parent && parent != NIL && 0 <= parent < |nodes|
      ensures elems == old(elems) - {node}
      ensures RBTree(nodes, root, elems, sub, bh, compare)
      ensures SameSlots(old(nodes), nodes)
    {
      var temp := |nodes|;
      nodes := nodes + [Placeholder(nodes[node])];
      var child := temp;
      if nodes[parent].left == node {
        nodes := nodes[parent := nodes[parent].(left := child)];
      } else {
        nodes := nodes[parent := nodes[parent].(right := child)];
      }
      nodes := nodes[child := nodes[child].(parent := parent)];
      BlackLeafSlots(old(nodes), node, parent, nodes);
      RemoveBlackLeaf(old(nodes), root, elems, sub, bh, compare, node, nodes);
      elems, sub := elems - {node}, RemoveSub(sub, node);
      ghost var n2 := nodes;
      RemoveCaseN(child, temp);
      SameSlotsTrans(old(nodes) + [Placeholder(old(nodes)[node])], n2, nodes);
      ghost var n3 := nodes;
      var p := nodes[child].parent;
      if nodes[p].left == child {
        nodes := nodes[p := nodes[p].(left := NIL)];
      } else {
        nodes := nodes[p := nodes[p].(right := NIL)];
      }
      nodes := nodes[child := nodes[child].(parent := NIL)];
      UnlinkPlaceholder(n3, root, elems, sub, bh, compare, temp, nodes);
      ghost var n4 := nodes;
      nodes := nodes[..temp];
      DropPlaceholder(old(nodes), Placeholder(old(nodes)[node]), n3, root, elems, sub, bh, compare, n4, nodes);
    }

    /** The descent of Go's `Remove` to the leftmost node below `r`: the smallest key of that subtree. */
    method Leftmost(r: int) returns (next: int)
      requires Valid() && r in elems
      ensures 0 <= next < |nodes| && nodes[next].left == NIL && MinOf(nodes, compare, SubOf(elems, sub, r), next)
    {
      next := r;
      ghost var rs := SubOf(elems, sub, r);
      assert ShapeAt(nodes, root, elems, sub, NIL, r);
      while nodes[next].left != NIL
        invariant next in elems && sub[next] <= rs && rs <= elems && MinOutside(nodes, elems, sub, compare, rs, next)
        decreases |sub[next]|
      {
        LeftmostStep(nodes, root, elems, sub, compare, rs, next);
        assert ShapeAt(nodes, root, elems, sub, NIL, next);
        ChildSubSmaller(nodes, root, elems, sub, NIL, nodes[next].left);
        next := nodes[next].left;
      }
      LeftmostStep(nodes, root, elems, sub, compare, rs, next);
    }

    /** Go's `node.valid = false`: slot `x`, already out of the tree, is marked invalid. */
    method MarkInvalid(x: int)
      modifies this
      requires RBTree(nodes, root, elems, sub, bh, compare) && 0 <= x < |nodes| && x !in elems
      requires forall i :: 0 <= i < |nodes| && nodes[i].valid ==> i in elems || i == x
      ensures Valid() && nodes == old(nodes)[x := old(nodes)[x].(valid := false)]
      ensures root == old(root) && elems == old(elems) && sub == old(sub) && bh == old(bh)
    {
      ghost var n0 := nodes;
      nodes := nodes[x := nodes[x].(valid := false)];
      assert SameTree(n0, nodes, elems);
      SameTreeKeep(n0, root, elems, sub, bh, compare, nodes);
      forall i | 0 <= i < |nodes| && nodes[i].valid
        ensures i in elems
      {
        assert i != x && n0[i] == nodes[i];
      }
    }

    /**
     * Go's `Remove`: a node no longer in the tree is left alone. A node with
     * a right child first trades places with its successor, the leftmost
     * node of that right subtree, so that it has at most one child; then
     * `removeone` takes it out and it is marked invalid.
     */
    method Remove(x: int)
      modifies this
      requires Valid() && 0 <= x < |nodes|
      ensures Valid() && elems == old(elems) - {x}
      ensures SameSlots(old(nodes)[x := old(nodes)[x].(valid := false)], nodes)
      ensures !old(nodes[x].valid) ==> nodes == old(nodes) && root == old(root)
    {
      InvalidOutside(nodes, root, elems, sub, x);
      if !nodes[x].valid {
        assert old(nodes)[x := old(nodes)[x].(valid := false)] == nodes;
        return;
      }
      if nodes[x].right != NIL {
        assert ShapeAt(nodes, root, elems, sub, NIL, x);
        var next := Leftmost(nodes[x].right);
        SwapSuccessor(x, next);
      } else {
        OrderedExempt(nodes, root, elems, sub, compare, x);
      }
      ghost var n1 := nodes;
      RemoveOne(x);
      SameSlotsTrans(old(nodes), n1, nodes);
      ValidKept(old(nodes), old(elems), nodes, elems, x);
      ghost var n2 := nodes;
      MarkInvalid(x);
      InvalidateSlots(old(nodes), x, n2);
    }

    /**
     * The exchange in Go's `Remove`: `x` and its successor `next` trade
     * places by `swapnode`, and `next` becomes the root if it now has no
     * parent. Only `x` may then be out of key order, and it has no left child.
     */
    method SwapSuccessor(x: int, next: int)
      modifies this
      requires RBTree(nodes, root, elems, sub, bh, compare) && x in elems && 0 <= x < |nodes| && 0 <= next < |nodes|
      requires nodes[x].right != NIL && MinOf(nodes, compare, SubOf(elems, sub, nodes[x].right), next) && nodes[next].left == NIL
      ensures old(IsSucc(nodes, elems, compare, x, next))
      ensures nodes == SwapNodes(old(nodes), x, next) && root == Swap(x, next, old(root))
      ensures x in old(sub) && next in old(sub) && sub == SwapSub(old(sub), x, next)
      ensures x in old(bh) && next in old(bh) && bh == SwapBH(old(bh), x, next) && elems == old(elems)
      ensures RemovePoint(nodes, root, elems, sub, bh, compare, x) && SameSlots(old(nodes), nodes)
    {
      SwapPre(nodes, root, elems, sub, bh, compare, x, next);
      TreeLinks(nodes, root, elems, sub, x);
      TreeLinks(nodes, root, elems, sub, next);
      ghost var sub', bh' := SwapSub(sub, x, next), SwapBH(bh, x, next);
      SwapNode(x, next);
      if nodes[next].parent == NIL {
        root := next;
      }
      sub, bh := sub', bh';
      SwapPost(old(nodes), old(root), elems, old(sub), old(bh), compare, x, next, nodes, root, sub, bh);
    }
  }

  /** A new value in a tree slot keeps the tree: values play no part in its invariants. */
  lemma ValueKeep<K(!new), V>(nodes: seq<RBNode<K, V>>, root: int, elems: set<int>, sub: map<int, set<int>>, bh: map<int, int>, cmp: (K, K) -> int,
                              x: int, value: V)
    requires RBTree(nodes, root, elems, sub, bh, cmp) && x in elems
    ensures 0 <= x < |nodes| && RBTree(nodes[x := nodes[x].(value := value)], root, elems, sub, bh, cmp)
  {
    var nodes' := nodes[x := nodes[x].(value := value)];
    forall i | i in elems
      ensures ShapeAt(nodes', root, elems, sub, NIL, i) && OrderedAt(nodes', elems, sub, cmp, NIL, i)
      ensures BlackAt(nodes', elems, bh, NIL, NIL, i) && RedAt(nodes', elems, NIL, i)
    {
      assert ShapeAt(nodes, root, elems, sub, NIL, i) && OrderedAt(nodes, elems, sub, cmp, NIL, i);
      assert BlackAt(nodes, elems, bh, NIL, NIL, i) && RedAt(nodes, elems, NIL, i);
      ValueKeepAt(nodes, root, elems, sub, bh, cmp, x, value, i);
    }
    assert root != NIL ==> root in elems;
  }

  lemma ValueKeepAt<K(!new), V>(nodes: seq<RBNode<K, V>>, root: int, elems: set<int>, sub: map<int, set<int>>, bh: map<int, int>, cmp: (K, K) -> int,
                                x: int, value: V, i: int)
    requires Shape(nodes, root, elems, sub, NIL) && x in elems && i in elems
    requires ShapeAt(nodes, root, elems, sub, NIL, i) && OrderedAt(nodes, elems, sub, cmp, NIL, i)
    requires BlackAt(nodes, elems, bh, NIL, NIL, i) && RedAt(nodes, elems, NIL, i)
    ensures 0 <= x < |nodes|
    ensures var nodes' := nodes[x := nodes[x].(value := value)];
      && ShapeAt(nodes', root, elems, sub, NIL, i) && OrderedAt(nodes', elems, sub, cmp, NIL, i)
      && BlackAt(nodes', elems, bh, NIL, NIL, i) && RedAt(nodes', elems, NIL, i)
  {
    var nodes' := nodes[x := nodes[x].(value := value)];
    assert forall k :: 0 <= k < |nodes| ==> nodes'[k] == nodes[k].(value := nodes'[k].value);
  }
}
