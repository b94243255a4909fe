/**
 * Go's `swapnode(a, b)` as used by `Remove`: `b` is the leftmost node of the
 * right subtree of `a`, and the two nodes trade places in the tree while each
 * keeps its key and value. Seen from the tree, the new arena is the old one
 * with the indices `a` and `b` exchanged (`Swap`), so shape, black heights and
 * colours carry over unchanged; because `b` is the successor of `a`, the key
 * order holds everywhere except for `a` itself, which `removeone` then unlinks.
 */
module RBSwap {
  import opened RBNodes
  import opened RBRotate
  import opened RBSearch
  import opened RBInsert
  import opened RBSplice

  /** The exchange of `a` and `b`, the identity elsewhere. */
  function Swap(a: int, b: int, k: int): int {
    if k == a then b else if k == b then a else k
  }

  /** The image of `S` under the exchange. */
  ghost function SwapSet(S: set<int>, a: int, b: int): set<int> {
    set x | x in S + {a, b} && Swap(a, b, x) in S
  }

  /** The subtree sets after the exchange: the node now at position `j` has the relabelled set of the node that was there. */
  ghost function SwapSub(sub: map<int, set<int>>, a: int, b: int): map<int, set<int>>
    requires a in sub && b in sub
  {
    map j | j in sub :: SwapSet(sub[Swap(a, b, j)], a, b)
  }

  /** The black heights after the exchange: `a` and `b` trade theirs, as they trade colours. */
  ghost function SwapBH(bh: map<int, int>, a: int, b: int): map<int, int>
    requires a in bh && b in bh
  {
    bh[a := bh[b]][b := bh[a]]
  }

  /** Tree node `i` reappears at `Swap(a, b, i)` with relabelled links and its colour; the slot keeps its key, value and flag. */
  ghost predicate SwapAt<K, V>(nodes: seq<RBNode<K, V>>, nodes': seq<RBNode<K, V>>, a: int, b: int, i: int) {
    var j := Swap(a, b, i);
    && 0 <= i < |nodes| && 0 <= j < |nodes| && j < |nodes'|
    && var n, m := nodes[i], nodes'[j];
    && m.left == Swap(a, b, n.left) && m.right == Swap(a, b, n.right) && m.parent == Swap(a, b, n.parent)
    && m.color == n.color
    && m.key == nodes[j].key && m.value == nodes[j].value && m.valid == nodes[j].valid
  }

  /** `nodes'` is `nodes` with the tree positions of `a` and `b` exchanged; slots outside the tree are untouched. */
  ghost predicate Swapped<K, V>(nodes: seq<RBNode<K, V>>, nodes': seq<RBNode<K, V>>, elems: set<int>, a: int, b: int) {
    && |nodes'| == |nodes| && a in elems && b in elems && a != b
    && (forall i {:trigger SwapAt(nodes, nodes', a, b, i)} :: i in elems ==> SwapAt(nodes, nodes', a, b, i))
    && (forall k :: 0 <= k < |nodes| && k !in elems ==> nodes'[k] == nodes[k])
  }

  // ---------------------------------------------------------------------------
  // The tree invariants survive the exchange
  // ---------------------------------------------------------------------------

  /** The subtree set behind a relabelled link is the relabelled subtree set. */
  lemma SwapSubOf(elems: set<int>, sub: map<int, set<int>>, a: int, b: int, c: int)
    requires a in elems && b in elems && a != b && NIL !in elems && (forall i :: i in elems ==> i in sub)
    requires c == NIL || c in elems
    ensures SubOf(elems, SwapSub(sub, a, b), Swap(a, b, c)) == SwapSet(SubOf(elems, sub, c), a, b)
  {
    if c == NIL {
      assert SwapSet({}, a, b) == {};
    }
  }

  /** Relabelling commutes with the split of a subtree set into its two sides and its top. */
  lemma SwapSetSplit(elems: set<int>, L: set<int>, R: set<int>, i: int, a: int, b: int)
    requires a != b && a in elems && b in elems && i !in L && i !in R && L !! R && L + {i} + R <= elems
    ensures SwapSet(L + {i} + R, a, b) == SwapSet(L, a, b) + {Swap(a, b, i)} + SwapSet(R, a, b)
    ensures Swap(a, b, i) !in SwapSet(L, a, b) && Swap(a, b, i) !in SwapSet(R, a, b)
    ensures SwapSet(L, a, b) !! SwapSet(R, a, b) && SwapSet(L + {i} + R, a, b) <= elems
  {
    assert Swap(a, b, Swap(a, b, i)) == i;
  }

  lemma SwapLinkAt<K, V>(nodes: seq<RBNode<K, V>>, root: int, elems: set<int>, sub: map<int, set<int>>,
                         a: int, b: int, nodes': seq<RBNode<K, V>>, i: int)
    requires Shape(nodes, root, elems, sub, NIL) && Swapped(nodes, nodes', elems, a, b) && i in elems
    ensures LinkAt(nodes', Swap(a, b, root), elems, NIL, Swap(a, b, i))
  {
    assert ShapeAt(nodes, root, elems, sub, NIL, i);
    assert SwapAt(nodes, nodes', a, b, i);
    var n, j := nodes[i], Swap(a, b, i);
    assert NIL !in elems by {
      assert NIL in elems ==> 0 <= NIL < |nodes|;
    }
    if n.left != NIL {
      assert SwapAt(nodes, nodes', a, b, n.left);
    }
    if n.right != NIL {
      assert SwapAt(nodes, nodes', a, b, n.right);
    }
    assert ShapeAt(nodes, root, elems, sub, NIL, j);
    if n.parent != NIL {
      assert SwapAt(nodes, nodes', a, b, n.parent);
    }
  }

  lemma SwapSubAt<K, V>(nodes: seq<RBNode<K, V>>, root: int, elems: set<int>, sub: map<int, set<int>>,
                        a: int, b: int, nodes': seq<RBNode<K, V>>, i: int)
    requires Shape(nodes, root, elems, sub, NIL) && Swapped(nodes, nodes', elems, a, b) && i in elems
    ensures SubAt(nodes', elems, SwapSub(sub, a, b), Swap(a, b, i))
  {
    assert ShapeAt(nodes, root, elems, sub, NIL, i);
    assert SwapAt(nodes, nodes', a, b, i);
    var n := nodes[i];
    assert NIL !in elems by {
      assert NIL in elems ==> 0 <= NIL < |nodes|;
    }
    SwapSubOf(elems, sub, a, b, n.left);
    SwapSubOf(elems, sub, a, b, n.right);
    SwapSubOf(elems, sub, a, b, i);
    SwapSetSplit(elems, SubOf(elems, sub, n.left), SubOf(elems, sub, n.right), i, a, b);
  }

  lemma SwapShapeAt<K, V>(nodes: seq<RBNode<K, V>>, root: int, elems: set<int>, sub: map<int, set<int>>,
                          a: int, b: int, nodes': seq<RBNode<K, V>>, i: int)
    requires Shape(nodes, root, elems, sub, NIL) && Swapped(nodes, nodes', elems, a, b) && i in elems
    ensures ShapeAt(nodes', Swap(a, b, root), elems, SwapSub(sub, a, b), NIL, Swap(a, b, i))
  {
    SwapLinkAt(nodes, root, elems, sub, a, b, nodes', i);
    SwapSubAt(nodes, root, elems, sub, a, b, nodes', i);
  }

  lemma SwapShapeAll<K, V>(nodes: seq<RBNode<K, V>>, root: int, elems: set<int>, sub: map<int, set<int>>,
                           a: int, b: int, nodes': seq<RBNode<K, V>>)
    requires Shape(nodes, root, elems, sub, NIL) && Swapped(nodes, nodes', elems, a, b)
    ensures forall j {:trigger ShapeAt(nodes', Swap(a, b, root), elems, SwapSub(sub, a, b), NIL, j)} ::
      j in elems ==> ShapeAt(nodes', Swap(a, b, root), elems, SwapSub(sub, a, b), NIL, j)
  {
    forall j | j in elems ensures ShapeAt(nodes', Swap(a, b, root), elems, SwapSub(sub, a, b), NIL, j) {
      assert Swap(a, b, Swap(a, b, j)) == j;
      SwapShapeAt(nodes, root, elems, sub, a, b, nodes', Swap(a, b, j));
    }
  }

  lemma SwapShape<K, V>(nodes: seq<RBNode<K, V>>, root: int, elems: set<int>, sub: map<int, set<int>>,
                        a: int, b: int, nodes': seq<RBNode<K, V>>)
    requires Shape(nodes, root, elems, sub, NIL) && Swapped(nodes, nodes', elems, a, b)
    ensures Shape(nodes', Swap(a, b, root), elems, SwapSub(sub, a, b), NIL)
  {
    SwapShapeAll(nodes, root, elems, sub, a, b, nodes');
    assert NIL !in elems by {
      assert NIL in elems ==> 0 <= NIL < |nodes|;
    }
    if root != NIL {
      SwapSubOf(elems, sub, a, b, root);
      assert SwapSet(elems, a, b) == elems;
    }
  }

  lemma SwapBlackAt<K, V>(nodes: seq<RBNode<K, V>>, root: int, elems: set<int>, sub: map<int, set<int>>, bh: map<int, int>,
                          a: int, b: int, nodes': seq<RBNode<K, V>>, i: int)
    requires Shape(nodes, root, elems, sub, NIL) && Balanced(nodes, elems, bh, NIL, NIL) && NoRedRed(nodes, elems, NIL)
    requires Swapped(nodes, nodes', elems, a, b) && i in elems
    ensures BlackAt(nodes', elems, SwapBH(bh, a, b), NIL, NIL, Swap(a, b, i))
    ensures RedAt(nodes', elems, NIL, Swap(a, b, i))
  {
    assert ShapeAt(nodes, root, elems, sub, NIL, i) && BlackAt(nodes, elems, bh, NIL, NIL, i) && RedAt(nodes, elems, NIL, i);
    assert SwapAt(nodes, nodes', a, b, i);
    var n := nodes[i];
    if n.left != NIL {
      assert SwapAt(nodes, nodes', a, b, n.left);
    }
    if n.right != NIL {
      assert SwapAt(nodes, nodes', a, b, n.right);
    }
  }

  lemma SwapColors<K, V>(nodes: seq<RBNode<K, V>>, root: int, elems: set<int>, sub: map<int, set<int>>, bh: map<int, int>,
                         a: int, b: int, nodes': seq<RBNode<K, V>>)
    requires Shape(nodes, root, elems, sub, NIL) && Balanced(nodes, elems, bh, NIL, NIL) && NoRedRed(nodes, elems, NIL)
    requires RootBlack(nodes, root) && Swapped(nodes, nodes', elems, a, b)
    ensures Balanced(nodes', elems, SwapBH(bh, a, b), NIL, NIL) && NoRedRed(nodes', elems, NIL)
    ensures RootBlack(nodes', Swap(a, b, root))
  {
    forall j | j in elems
      ensures BlackAt(nodes', elems, SwapBH(bh, a, b), NIL, NIL, j) && RedAt(nodes', elems, NIL, j)
    {
      assert Swap(a, b, Swap(a, b, j)) == j;
      SwapBlackAt(nodes, root, elems, sub, bh, a, b, nodes', Swap(a, b, j));
    }
    if root != NIL {
      assert SwapAt(nodes, nodes', a, b, root);
    }
  }

  /** Keys stay in their slots, so no two tree nodes share a key afterwards either. */
  lemma SwapDistinct<K, V>(nodes: seq<RBNode<K, V>>, elems: set<int>, a: int, b: int, nodes': seq<RBNode<K, V>>)
    requires Distinct(nodes, elems) && Swapped(nodes, nodes', elems, a, b)
    ensures Distinct(nodes', elems)
  {
    forall i | i in elems && 0 <= i < |nodes| ensures nodes'[i].key == nodes[i].key {
      assert Swap(a, b, Swap(a, b, i)) == i;
      assert SwapAt(nodes, nodes', a, b, Swap(a, b, i));
    }
  }

  /**
   * The key order at the node now at `Swap(a, b, i)`. With `b` the successor
   * of `a`, the key of `b` relates to every other key as the key of `a` did.
   */
  lemma SwapOrderedAt<K(!new), V>(nodes: seq<RBNode<K, V>>, root: int, elems: set<int>, sub: map<int, set<int>>, cmp: (K, K) -> int,
                                   a: int, b: int, nodes': seq<RBNode<K, V>>, i: int)
    requires TotalOrder(cmp) && Shape(nodes, root, elems, sub, NIL) && Ordered(nodes, elems, sub, cmp, NIL) && Distinct(nodes, elems)
    requires Swapped(nodes, nodes', elems, a, b) && IsSucc(nodes, elems, cmp, a, b) && i in elems
    ensures OrderedAt(nodes', elems, SwapSub(sub, a, b), cmp, a, Swap(a, b, i))
  {
    assert ShapeAt(nodes, root, elems, sub, NIL, i) && OrderedAt(nodes, elems, sub, cmp, NIL, i);
    assert SwapAt(nodes, nodes', a, b, i) && SwapAt(nodes, nodes', a, b, a) && SwapAt(nodes, nodes', a, b, b);
    assert NIL !in elems by {
      assert NIL in elems ==> 0 <= NIL < |nodes|;
    }
    var n, j := nodes[i], Swap(a, b, i);
    var sub' := SwapSub(sub, a, b);
    SwapSubOf(elems, sub, a, b, n.left);
    SwapSubOf(elems, sub, a, b, n.right);
    if j != a {
      forall k | k in SubOf(elems, sub', nodes'[j].left) && k != a ensures Lt(nodes', cmp, k, j) {
        var m := Swap(a, b, k);
        assert m in SubOf(elems, sub, n.left) && Lt(nodes, cmp, m, i);
        assert SwapAt(nodes, nodes', a, b, m) && SwapAt(nodes, nodes', a, b, k);
        if i == a {
          assert Lt(nodes, cmp, a, b);
        } else if m == a {
          assert Lt(nodes, cmp, a, i) && i != b;
        }
      }
      forall k | k in SubOf(elems, sub', nodes'[j].right) && k != a ensures Lt(nodes', cmp, j, k) {
        var m := Swap(a, b, k);
        assert m in SubOf(elems, sub, n.right) && Lt(nodes, cmp, i, m);
        assert SwapAt(nodes, nodes', a, b, m) && SwapAt(nodes, nodes', a, b, k);
        if i == a {
          assert m != b;
        } else if m == a {
          assert Lt(nodes, cmp, a, b);
        }
      }
    }
  }

  lemma SwapOrdered<K(!new), V>(nodes: seq<RBNode<K, V>>, root: int, elems: set<int>, sub: map<int, set<int>>, cmp: (K, K) -> int,
                                a: int, b: int, nodes': seq<RBNode<K, V>>)
    requires TotalOrder(cmp) && Shape(nodes, root, elems, sub, NIL) && Ordered(nodes, elems, sub, cmp, NIL) && Distinct(nodes, elems)
    requires Swapped(nodes, nodes', elems, a, b) && IsSucc(nodes, elems, cmp, a, b)
    ensures Ordered(nodes', elems, SwapSub(sub, a, b), cmp, a)
  {
    forall j | j in elems ensures OrderedAt(nodes', elems, SwapSub(sub, a, b), cmp, a, j) {
      assert Swap(a, b, Swap(a, b, j)) == j;
      SwapOrderedAt(nodes, root, elems, sub, cmp, a, b, nodes', Swap(a, b, j));
    }
  }

  // ---------------------------------------------------------------------------
  // Go's swapnode, step by step, is such an exchange
  // ---------------------------------------------------------------------------

  /** Go's `if x != nil { x.parent = p }`: nil lies outside the arena. */
  function SetParent<K, V>(nodes: seq<RBNode<K, V>>, x: int, p: int): seq<RBNode<K, V>> {
    if 0 <= x < |nodes| then nodes[x := nodes[x].(parent := p)] else nodes
  }

  /** Go's `replaceparent(x, a, b)`: the link of `x` that held `a` now holds `b`. */
  function ReplaceParent<K, V>(nodes: seq<RBNode<K, V>>, x: int, a: int, b: int): seq<RBNode<K, V>> {
    if 0 <= x < |nodes| then nodes[x := Redirect(nodes[x], a, b)] else nodes
  }

  /** The first block of Go's `swapnode`: `a` and `b` trade parents, and the parents' links follow. */
  function SwapParents<K, V>(nodes: seq<RBNode<K, V>>, a: int, b: int): (r: seq<RBNode<K, V>>)
    requires 0 <= a < |nodes| && 0 <= b < |nodes|
    ensures |r| == |nodes|
  {
    var x := nodes[a].parent;
    var t1 := nodes[a := nodes[a].(parent := nodes[b].parent)];
    var t2 := ReplaceParent(t1, x, a, b);
    var t3 := t2[b := t2[b].(parent := x)];
    ReplaceParent(t3, t3[a].parent, b, a)
  }

  /** The second block: `a` and `b` trade left children, which point back at their new parents. */
  function SwapLefts<K, V>(nodes: seq<RBNode<K, V>>, a: int, b: int): (r: seq<RBNode<K, V>>)
    requires 0 <= a < |nodes| && 0 <= b < |nodes|
    ensures |r| == |nodes|
  {
    var x := nodes[a].left;
    var t1 := nodes[a := nodes[a].(left := nodes[b].left)];
    var t2 := t1[b := t1[b].(left := x)];
    var t3 := SetParent(t2, x, b);
    SetParent(t3, t3[a].left, a)
  }

  /** The third block: the same for the right children. */
  function SwapRights<K, V>(nodes: seq<RBNode<K, V>>, a: int, b: int): (r: seq<RBNode<K, V>>)
    requires 0 <= a < |nodes| && 0 <= b < |nodes|
    ensures |r| == |nodes|
  {
    var x := nodes[a].right;
    var t1 := nodes[a := nodes[a].(right := nodes[b].right)];
    var t2 := t1[b := t1[b].(right := x)];
    var t3 := SetParent(t2, x, b);
    SetParent(t3, t3[a].right, a)
  }

  /** Go's `a.swapcolor(b)`. */
  function SwapColor<K, V>(nodes: seq<RBNode<K, V>>, a: int, b: int): (r: seq<RBNode<K, V>>)
    requires 0 <= a < |nodes| && 0 <= b < |nodes|
    ensures |r| == |nodes|
  {
    nodes[a := nodes[a].(color := nodes[b].color)][b := nodes[b].(color := nodes[a].color)]
  }

  /** Go's `swapnode(a, b)`: its three blocks of pointer updates, then the colour exchange. */
  function SwapNodes<K, V>(nodes: seq<RBNode<K, V>>, a: int, b: int): (r: seq<RBNode<K, V>>)
    requires 0 <= a < |nodes| && 0 <= b < |nodes|
    ensures |r| == |nodes|
  {
    SwapColor(SwapRights(SwapLefts(SwapParents(nodes, a, b), a, b), a, b), a, b)
  }

  /** The parents block when `bp`, the parent of `b`, is not `a`. */
  lemma SwapParentsFar<K, V>(nodes: seq<RBNode<K, V>>, a: int, b: int, k: int)
    requires 0 <= a < |nodes| && 0 <= b < |nodes| && a != b && 0 <= k < |nodes|
    requires var P, bp := nodes[a].parent, nodes[b].parent;
      && (P == NIL || (0 <= P < |nodes| && P != a && P != b))
      && 0 <= bp < |nodes| && bp != a && bp != b && bp != P
    ensures var P, bp := nodes[a].parent, nodes[b].parent;
      SwapParents(nodes, a, b)[k] ==
        if k == a then nodes[a].(parent := bp)
        else if k == b then nodes[b].(parent := P)
        else if k == P then Redirect(nodes[P], a, b)
        else if k == bp then Redirect(nodes[bp], b, a)
        else nodes[k]
  {
  }

  /** The parents block when `b` is the right child of `a`: `a` briefly links to itself. */
  lemma SwapParentsNear<K, V>(nodes: seq<RBNode<K, V>>, a: int, b: int, k: int)
    requires 0 <= a < |nodes| && 0 <= b < |nodes| && a != b && 0 <= k < |nodes|
    requires var P := nodes[a].parent;
      && (P == NIL || (0 <= P < |nodes| && P != a && P != b))
      && nodes[b].parent == a && nodes[a].right == b && nodes[a].left != b
    ensures var P := nodes[a].parent;
      SwapParents(nodes, a, b)[k] ==
        if k == a then nodes[a].(parent := a, right := a)
        else if k == b then nodes[b].(parent := P)
        else if k == P then Redirect(nodes[P], a, b)
        else nodes[k]
  {
  }

  /** The left-children block when `b` has no left child. */
  lemma SwapLeftsAt<K, V>(nodes: seq<RBNode<K, V>>, a: int, b: int, k: int)
    requires 0 <= a < |nodes| && 0 <= b < |nodes| && a != b && nodes[b].left == NIL && 0 <= k < |nodes|
    requires var x := nodes[a].left; x == NIL || (0 <= x < |nodes| && x != a && x != b)
    ensures var x := nodes[a].left;
      SwapLefts(nodes, a, b)[k] ==
        if k == a then nodes[a].(left := NIL)
        else if k == b then nodes[b].(left := x)
        else if k == x then nodes[x].(parent := b)
        else nodes[k]
  {
  }

  /** The right-children block; `x`, the right child of `a`, may be `a` itself after the parents block. */
  lemma SwapRightsAt<K, V>(nodes: seq<RBNode<K, V>>, a: int, b: int, k: int)
    requires 0 <= a < |nodes| && 0 <= b < |nodes| && a != b && 0 <= k < |nodes|
    requires var x, y := nodes[a].right, nodes[b].right;
      && 0 <= x < |nodes| && x != b && (y == NIL || (0 <= y < |nodes| && y != a && y != b && y != x))
    ensures var x, y := nodes[a].right, nodes[b].right;
      SwapRights(nodes, a, b)[k] ==
        if k == a then (if x == a then nodes[a].(right := y, parent := b) else nodes[a].(right := y))
        else if k == b then nodes[b].(right := x)
        else if k == y then nodes[y].(parent := a)
        else if k == x then nodes[x].(parent := b)
        else nodes[k]
  {
  }

  /**
   * The neighbourhood of `a` and `b` as `Remove` finds it: `b` lies in the
   * right subtree of `a` and has no left child. `P`, `L`, `R` are the parent and
   * children of `a`, `bp` and `br` the parent and right child of `b`.
   */
  ghost predicate SwapRoles<K, V>(nodes: seq<RBNode<K, V>>, elems: set<int>, a: int, b: int) {
    && 0 <= a < |nodes| && 0 <= b < |nodes| && a in elems && b in elems && a != b
    && var P, L, R := nodes[a].parent, nodes[a].left, nodes[a].right;
    && var bp, br := nodes[b].parent, nodes[b].right;
    && nodes[b].left == NIL
    && 0 <= R < |nodes| && 0 <= bp < |nodes| && R != a && bp != b
    && (R == b <==> bp == a)
    && (P != NIL ==> 0 <= P < |nodes| && P != a && P != b && P != L && P != R && P != bp && P != br)
    && (L != NIL ==> 0 <= L < |nodes| && L != a && L != b && L != R && L != bp && L != br)
    && (R != b ==> R != br)
    && (bp != a ==> bp != br)
    && (br != NIL ==> 0 <= br < |nodes| && br != a && br != b)
  }

  /** Slot `k` after `swapnode`. */
  ghost function SwappedSlot<K, V>(nodes: seq<RBNode<K, V>>, a: int, b: int, k: int): RBNode<K, V>
    requires 0 <= a < |nodes| && 0 <= b < |nodes| && 0 <= k < |nodes|
  {
    var P, L, R := nodes[a].parent, nodes[a].left, nodes[a].right;
    var bp, br := nodes[b].parent, nodes[b].right;
    if k == a then nodes[a].(parent := Swap(a, b, bp), left := NIL, right := br, color := nodes[b].color)
    else if k == b then nodes[b].(parent := P, left := L, right := Swap(a, b, R), color := nodes[a].color)
    else if k == P then Redirect(nodes[P], a, b)
    else if k == L then nodes[L].(parent := b)
    else if k == R && k == bp then Redirect(nodes[R], b, a).(parent := b)
    else if k == R then nodes[R].(parent := b)
    else if k == bp then Redirect(nodes[bp], b, a)
    else if k == br then nodes[br].(parent := a)
    else nodes[k]
  }

  /** The arena after `swapnode`, slot by slot. */
  ghost predicate SwapFinal<K, V>(nodes: seq<RBNode<K, V>>, nodes': seq<RBNode<K, V>>, a: int, b: int)
    requires 0 <= a < |nodes| && 0 <= b < |nodes|
  {
    |nodes'| == |nodes| && forall k :: 0 <= k < |nodes| ==> nodes'[k] == SwappedSlot(nodes, a, b, k)
  }

  /** Slot `k` after `swapnode` on the right child of `a`. */
  lemma SwapNodesNear<K, V>(nodes: seq<RBNode<K, V>>, elems: set<int>, a: int, b: int, k: int)
    requires SwapRoles(nodes, elems, a, b) && 0 <= k < |nodes| && nodes[a].right == b
    ensures SwapNodes(nodes, a, b)[k] == SwappedSlot(nodes, a, b, k)
  {
    var u := SwapParents(nodes, a, b);
    var v := SwapLefts(u, a, b);
    var w := SwapRights(v, a, b);
    SwapParentsNear(nodes, a, b, a);
    SwapParentsNear(nodes, a, b, b);
    SwapLeftsAt(u, a, b, a);
    SwapLeftsAt(u, a, b, b);
    SwapRightsAt(v, a, b, a);
    SwapRightsAt(v, a, b, b);
    if k == a || k == b {
      assert SwapNodes(nodes, a, b)[k] == if k == a then w[a].(color := w[b].color) else w[b].(color := w[a].color);
    } else {
      assert SwapNodes(nodes, a, b)[k] == w[k];
      SwapParentsNear(nodes, a, b, k);
      SwapLeftsAt(u, a, b, k);
      SwapRightsAt(v, a, b, k);
    }
  }

  /** Slots `a` and `b` after `swapnode` on a node deeper in the right subtree of `a`. */
  lemma SwapNodesFarPair<K, V>(nodes: seq<RBNode<K, V>>, elems: set<int>, a: int, b: int, k: int)
    requires SwapRoles(nodes, elems, a, b) && nodes[a].right != b && (k == a || k == b)
    ensures SwapNodes(nodes, a, b)[k] == SwappedSlot(nodes, a, b, k)
  {
    var u := SwapParents(nodes, a, b);
    var v := SwapLefts(u, a, b);
    var w := SwapRights(v, a, b);
    SwapParentsFar(nodes, a, b, a);
    SwapParentsFar(nodes, a, b, b);
    SwapLeftsAt(u, a, b, a);
    SwapLeftsAt(u, a, b, b);
    SwapRightsAt(v, a, b, a);
    SwapRightsAt(v, a, b, b);
    assert SwapNodes(nodes, a, b)[k] == if k == a then w[a].(color := w[b].color) else w[b].(color := w[a].color);
  }

  /** Every other slot after `swapnode` on a node deeper in the right subtree of `a`. */
  lemma SwapNodesFarOther<K, V>(nodes: seq<RBNode<K, V>>, elems: set<int>, a: int, b: int, k: int)
    requires SwapRoles(nodes, elems, a, b) && nodes[a].right != b && 0 <= k < |nodes| && k != a && k != b
    ensures SwapNodes(nodes, a, b)[k] == SwappedSlot(nodes, a, b, k)
  {
    var u := SwapParents(nodes, a, b);
    var v := SwapLefts(u, a, b);
    var w := SwapRights(v, a, b);
    SwapParentsFar(nodes, a, b, a);
    SwapParentsFar(nodes, a, b, b);
    SwapLeftsAt(u, a, b, a);
    SwapLeftsAt(u, a, b, b);
    assert SwapNodes(nodes, a, b)[k] == w[k];
    SwapParentsFar(nodes, a, b, k);
    SwapLeftsAt(u, a, b, k);
    SwapRightsAt(v, a, b, k);
  }

  lemma SwapNodesFinal<K, V>(nodes: seq<RBNode<K, V>>, elems: set<int>, a: int, b: int)
    requires SwapRoles(nodes, elems, a, b)
    ensures SwapFinal(nodes, SwapNodes(nodes, a, b), a, b)
  {
    forall k | 0 <= k < |nodes| ensures SwapNodes(nodes, a, b)[k] == SwappedSlot(nodes, a, b, k) {
      if nodes[a].right == b {
        SwapNodesNear(nodes, elems, a, b, k);
      } else {
        if k == a || k == b {
          SwapNodesFarPair(nodes, elems, a, b, k);
        } else {
          SwapNodesFarOther(nodes, elems, a, b, k);
        }
      }
    }
  }

  /** `Remove` finds `a` and `b` in the neighbourhood `swapnode` is written for. */
  lemma SwapFacts<K, V>(nodes: seq<RBNode<K, V>>, root: int, elems: set<int>, sub: map<int, set<int>>, a: int, b: int)
    requires Shape(nodes, root, elems, sub, NIL) && a in elems
    requires nodes[a].right != NIL && b in SubOf(elems, sub, nodes[a].right) && 0 <= b < |nodes| && nodes[b].left == NIL
    ensures SwapRoles(nodes, elems, a, b)
  {
    var P, L, R := nodes[a].parent, nodes[a].left, nodes[a].right;
    assert ShapeAt(nodes, root, elems, sub, NIL, a) && ShapeAt(nodes, root, elems, sub, NIL, R);
    Nested(nodes, root, elems, sub, NIL, R, b);
    assert ShapeAt(nodes, root, elems, sub, NIL, b);
    var bp, br := nodes[b].parent, nodes[b].right;
    assert b != root by {
      assert root in elems ==> a in sub[root];
    }
    if P != NIL {
      assert ShapeAt(nodes, root, elems, sub, NIL, P);
      assert a in sub[P];
      AncestorNotBelow(nodes, root, elems, sub, P, a);
    }
    if L != NIL {
      assert ShapeAt(nodes, root, elems, sub, NIL, L);
    }
    if br != NIL {
      assert ShapeAt(nodes, root, elems, sub, NIL, br);
    }
  }

  /** The exchanged pair reappears relabelled after `swapnode`. */
  lemma SwapAtPair<K, V>(nodes: seq<RBNode<K, V>>, root: int, elems: set<int>, sub: map<int, set<int>>, a: int, b: int,
                       nodes': seq<RBNode<K, V>>, i: int)
    requires Shape(nodes, root, elems, sub, NIL) && SwapRoles(nodes, elems, a, b) && SwapFinal(nodes, nodes', a, b) && i in elems
    requires i == a || i == b
    ensures SwapAt(nodes, nodes', a, b, i)
  {
    assert nodes'[a] == SwappedSlot(nodes, a, b, a) && nodes'[b] == SwappedSlot(nodes, a, b, b);
  }

  /** The parent of `a` now links to `b`. */
  lemma SwapAtParent<K, V>(nodes: seq<RBNode<K, V>>, root: int, elems: set<int>, sub: map<int, set<int>>, a: int, b: int,
                       nodes': seq<RBNode<K, V>>, i: int)
    requires Shape(nodes, root, elems, sub, NIL) && SwapRoles(nodes, elems, a, b) && SwapFinal(nodes, nodes', a, b) && i in elems
    requires i != a && i != b
    requires i == nodes[a].parent
    ensures SwapAt(nodes, nodes', a, b, i)
  {
    assert ShapeAt(nodes, root, elems, sub, NIL, i) && ShapeAt(nodes, root, elems, sub, NIL, a);
    assert nodes'[i] == SwappedSlot(nodes, a, b, i);
  }

  /** The left child of `a` now hangs from `b`. */
  lemma SwapAtLeft<K, V>(nodes: seq<RBNode<K, V>>, root: int, elems: set<int>, sub: map<int, set<int>>, a: int, b: int,
                       nodes': seq<RBNode<K, V>>, i: int)
    requires Shape(nodes, root, elems, sub, NIL) && SwapRoles(nodes, elems, a, b) && SwapFinal(nodes, nodes', a, b) && i in elems
    requires i != a && i != b
    requires i == nodes[a].left
    ensures SwapAt(nodes, nodes', a, b, i)
  {
    assert ShapeAt(nodes, root, elems, sub, NIL, i) && ShapeAt(nodes, root, elems, sub, NIL, a);
    assert nodes'[i] == SwappedSlot(nodes, a, b, i);
  }

  /** The right child of `a` now hangs from `b`, and links to `a` if it was the parent of `b`. */
  lemma SwapAtRight<K, V>(nodes: seq<RBNode<K, V>>, root: int, elems: set<int>, sub: map<int, set<int>>, a: int, b: int,
                       nodes': seq<RBNode<K, V>>, i: int)
    requires Shape(nodes, root, elems, sub, NIL) && SwapRoles(nodes, elems, a, b) && SwapFinal(nodes, nodes', a, b) && i in elems
    requires i != a && i != b
    requires i == nodes[a].right
    ensures SwapAt(nodes, nodes', a, b, i)
  {
    assert ShapeAt(nodes, root, elems, sub, NIL, i) && ShapeAt(nodes, root, elems, sub, NIL, a) && ShapeAt(nodes, root, elems, sub, NIL, b);
    assert nodes'[i] == SwappedSlot(nodes, a, b, i);
  }

  /** The parent of `b`, deeper than the right child of `a`, now links to `a`. */
  lemma SwapAtPath<K, V>(nodes: seq<RBNode<K, V>>, root: int, elems: set<int>, sub: map<int, set<int>>, a: int, b: int,
                       nodes': seq<RBNode<K, V>>, i: int)
    requires Shape(nodes, root, elems, sub, NIL) && SwapRoles(nodes, elems, a, b) && SwapFinal(nodes, nodes', a, b) && i in elems
    requires i != a && i != b
    requires i != nodes[a].right && i == nodes[b].parent
    ensures SwapAt(nodes, nodes', a, b, i)
  {
    assert ShapeAt(nodes, root, elems, sub, NIL, i) && ShapeAt(nodes, root, elems, sub, NIL, b);
    assert nodes'[i] == SwappedSlot(nodes, a, b, i);
  }

  /** The right child of `b` now hangs from `a`. */
  lemma SwapAtBelow<K, V>(nodes: seq<RBNode<K, V>>, root: int, elems: set<int>, sub: map<int, set<int>>, a: int, b: int,
                       nodes': seq<RBNode<K, V>>, i: int)
    requires Shape(nodes, root, elems, sub, NIL) && SwapRoles(nodes, elems, a, b) && SwapFinal(nodes, nodes', a, b) && i in elems
    requires i != a && i != b
    requires i == nodes[b].right
    ensures SwapAt(nodes, nodes', a, b, i)
  {
    assert ShapeAt(nodes, root, elems, sub, NIL, i) && ShapeAt(nodes, root, elems, sub, NIL, b);
    assert nodes'[i] == SwappedSlot(nodes, a, b, i);
  }

  /** Every other tree node keeps its slot and its links, none of which leads to `a` or `b`. */
  lemma SwapAtOther<K, V>(nodes: seq<RBNode<K, V>>, root: int, elems: set<int>, sub: map<int, set<int>>, a: int, b: int,
                       nodes': seq<RBNode<K, V>>, i: int)
    requires Shape(nodes, root, elems, sub, NIL) && SwapRoles(nodes, elems, a, b) && SwapFinal(nodes, nodes', a, b) && i in elems
    requires i != a && i != b
    requires var n, m := nodes[a], nodes[b]; i != n.parent && i != n.left && i != n.right && i != m.parent && i != m.right
    ensures SwapAt(nodes, nodes', a, b, i)
  {
    assert ShapeAt(nodes, root, elems, sub, NIL, i) && ShapeAt(nodes, root, elems, sub, NIL, a) && ShapeAt(nodes, root, elems, sub, NIL, b);
    assert nodes'[i] == SwappedSlot(nodes, a, b, i) == nodes[i];
  }

  /** Tree node `i` reappears relabelled after `swapnode`. */
  lemma SwapAtOf<K, V>(nodes: seq<RBNode<K, V>>, root: int, elems: set<int>, sub: map<int, set<int>>, a: int, b: int,
                       nodes': seq<RBNode<K, V>>, i: int)
    requires Shape(nodes, root, elems, sub, NIL) && SwapRoles(nodes, elems, a, b) && SwapFinal(nodes, nodes', a, b) && i in elems
    ensures SwapAt(nodes, nodes', a, b, i)
  {
    var n, m := nodes[a], nodes[b];
    if i == a || i == b {
      SwapAtPair(nodes, root, elems, sub, a, b, nodes', i);
    } else if i == n.parent || i == n.left || i == n.right || i == m.parent || i == m.right {
      if i == n.parent {
        SwapAtParent(nodes, root, elems, sub, a, b, nodes', i);
      } else if i == n.left {
        SwapAtLeft(nodes, root, elems, sub, a, b, nodes', i);
      } else if i == m.right {
        SwapAtBelow(nodes, root, elems, sub, a, b, nodes', i);
      } else if i == n.right {
        SwapAtRight(nodes, root, elems, sub, a, b, nodes', i);
      } else {
        SwapAtPath(nodes, root, elems, sub, a, b, nodes', i);
      }
    } else {
      SwapAtOther(nodes, root, elems, sub, a, b, nodes', i);
    }
  }

  lemma SwappedOf<K, V>(nodes: seq<RBNode<K, V>>, root: int, elems: set<int>, sub: map<int, set<int>>, a: int, b: int,
                        nodes': seq<RBNode<K, V>>)
    requires Shape(nodes, root, elems, sub, NIL) && SwapRoles(nodes, elems, a, b) && SwapFinal(nodes, nodes', a, b)
    ensures Swapped(nodes, nodes', elems, a, b)
  {
    forall i | i in elems ensures SwapAt(nodes, nodes', a, b, i) {
      SwapAtOf(nodes, root, elems, sub, a, b, nodes', i);
    }
    assert ShapeAt(nodes, root, elems, sub, NIL, a) && ShapeAt(nodes, root, elems, sub, NIL, b);
    forall k | 0 <= k < |nodes| && k !in elems ensures nodes'[k] == nodes[k] {
      assert nodes'[k] == SwappedSlot(nodes, a, b, k);
    }
  }

  /**
   * The first half of Go's `Remove` on a node `a` with a right child: `b` is
   * the leftmost node of that subtree, `swapnode(a, b)` runs, and the root
   * moves to `b` when `b` ends up without a parent. The key of `b` is the
   * successor of the key of `a`; afterwards the tree is the old one with `a`
   * and `b` exchanged, every key and value still in its slot, and every
   * invariant holds except the key order around `a`, which has no left child
   * and is ready for `removeone`.
   */
  lemma SwapForRemove<K(!new), V>(nodes: seq<RBNode<K, V>>, root: int, elems: set<int>, sub: map<int, set<int>>, bh: map<int, int>,
                                  cmp: (K, K) -> int, a: int, b: int)
    requires RBTree(nodes, root, elems, sub, bh, cmp) && a in elems && 0 <= a < |nodes| && 0 <= b < |nodes|
    requires nodes[a].right != NIL && MinOf(nodes, cmp, SubOf(elems, sub, nodes[a].right), b) && nodes[b].left == NIL
    ensures IsSucc(nodes, elems, cmp, a, b)
    ensures var nodes' := SwapNodes(nodes, a, b);
      var root' := if nodes'[b].parent == NIL then b else root;
      && root' == Swap(a, b, root) && SamePayload(nodes, nodes') && nodes'[a].left == NIL
      && a in sub && b in sub && a in bh && b in bh
      && RemovePoint(nodes', root', elems, SwapSub(sub, a, b), SwapBH(bh, a, b), cmp, a)
  {
    SuccIsRightMin(nodes, root, elems, sub, cmp, a, b);
    SwapFacts(nodes, root, elems, sub, a, b);
    SwapNodesFinal(nodes, elems, a, b);
    var nodes' := SwapNodes(nodes, a, b);
    SwappedOf(nodes, root, elems, sub, a, b, nodes');
    SwapSlots(nodes, root, elems, sub, a, b, nodes');
    SwapInvariants(nodes, root, elems, sub, bh, cmp, a, b, nodes');
  }

  /** What `swapnode` leaves in the slots themselves: payloads in place, no left child under `a`, the root found by `Remove`. */
  lemma SwapSlots<K, V>(nodes: seq<RBNode<K, V>>, root: int, elems: set<int>, sub: map<int, set<int>>, a: int, b: int,
                        nodes': seq<RBNode<K, V>>)
    requires Shape(nodes, root, elems, sub, NIL) && SwapRoles(nodes, elems, a, b) && SwapFinal(nodes, nodes', a, b)
    ensures SamePayload(nodes, nodes') && nodes'[a].left == NIL
    ensures (if nodes'[b].parent == NIL then b else root) == Swap(a, b, root)
  {
    assert nodes'[a] == SwappedSlot(nodes, a, b, a) && nodes'[b] == SwappedSlot(nodes, a, b, b);
    assert ShapeAt(nodes, root, elems, sub, NIL, a) && ShapeAt(nodes, root, elems, sub, NIL, b);
    forall k | 0 <= k < |nodes| ensures nodes'[k].key == nodes[k].key && nodes'[k].value == nodes[k].value {
      assert nodes'[k] == SwappedSlot(nodes, a, b, k);
    }
  }

  /** The exchange keeps every invariant of the tree except the key order around `a`. */
  lemma SwapInvariants<K(!new), V>(nodes: seq<RBNode<K, V>>, root: int, elems: set<int>, sub: map<int, set<int>>, bh: map<int, int>,
                                   cmp: (K, K) -> int, a: int, b: int, nodes': seq<RBNode<K, V>>)
    requires RBTree(nodes, root, elems, sub, bh, cmp) && Swapped(nodes, nodes', elems, a, b) && IsSucc(nodes, elems, cmp, a, b)
    requires 0 <= a < |nodes'| && nodes'[a].left == NIL
    ensures a in sub && b in sub && a in bh && b in bh
    ensures RemovePoint(nodes', Swap(a, b, root), elems, SwapSub(sub, a, b), SwapBH(bh, a, b), cmp, a)
  {
    SwapShape(nodes, root, elems, sub, a, b, nodes');
    SwapColors(nodes, root, elems, sub, bh, a, b, nodes');
    SwapDistinct(nodes, elems, a, b, nodes');
    SwapOrdered(nodes, root, elems, sub, cmp, a, b, nodes');
  }
}
