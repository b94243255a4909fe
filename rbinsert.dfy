/**
 * Insertion: attaching the new node as a red leaf under its insertion point
 * (`Insert`), and the steps of the repair loop `rotate` that follows it. Each
 * step is stated on values: the arena and ghost bookkeeping before and after,
 * and which invariants the after-state meets.
 */
module RBInsert {
  import opened RBNodes
  import opened RBSearch
  import opened RBRotate

  // ---------------------------------------------------------------------------
  // Attaching the new leaf
  // ---------------------------------------------------------------------------

  /**
   * `nodes'` is `nodes` with slot `x` made a fresh red leaf below `p`, hung on
   * side `goLeft` of `p`.
   */
  ghost predicate Attached<K, V>(nodes: seq<RBNode<K, V>>, nodes': seq<RBNode<K, V>>, x: int, p: int, goLeft: bool) {
    && |nodes'| == |nodes| && 0 <= x < |nodes| && 0 <= p < |nodes| && x != p
    && nodes'[x] == nodes[x].(parent := p, left := NIL, right := NIL, valid := true, color := Red)
    && nodes'[p] == SetLink(nodes[p], goLeft, x)
    && (forall k :: 0 <= k < |nodes| && k != x && k != p ==> nodes'[k] == nodes[k])
  }

  /** Subtree sets after attaching `x` below `p`: every subtree holding `p` now holds `x`. */
  ghost function AttachSub(sub: map<int, set<int>>, p: int, x: int): map<int, set<int>> {
    (map a | a in sub :: if p in sub[a] then sub[a] + {x} else sub[a])[x := {x}]
  }

  /** The facts about the attach point that the per-node lemmas share. */
  ghost predicate AttachPoint<K, V>(nodes: seq<RBNode<K, V>>, root: int, elems: set<int>, x: int, p: int, goLeft: bool) {
    && NIL !in elems && x !in elems && p in elems && 0 <= x < |nodes| && x != root
    && LinkAt(nodes, root, elems, NIL, p)
    && Link(nodes[p], goLeft) == NIL
    && nodes[p].parent != p
    && (nodes[p].parent != NIL ==> LinkAt(nodes, root, elems, NIL, nodes[p].parent))
  }

  /** Both links of `i` are nil or lead to tree nodes. */
  ghost predicate ChildrenIn<K, V>(nodes: seq<RBNode<K, V>>, elems: set<int>, i: int) {
    0 <= i < |nodes| && (nodes[i].left == NIL || nodes[i].left in elems) && (nodes[i].right == NIL || nodes[i].right in elems)
  }

  lemma AttachLinkAt<K, V>(nodes: seq<RBNode<K, V>>, root: int, elems: set<int>, nodes': seq<RBNode<K, V>>, x: int, p: int, goLeft: bool, i: int)
    requires AttachPoint(nodes, root, elems, x, p, goLeft) && Attached(nodes, nodes', x, p, goLeft)
    requires i == x || (i in elems && LinkAt(nodes, root, elems, NIL, i))
    ensures LinkAt(nodes', root, elems + {x}, NIL, i)
  {
    var E := elems + {x};
    if i == x {
      assert Link(nodes'[p], goLeft) == x;
    } else if i == p {
      var n := nodes[p];
      var d := Link(n, !goLeft);
      assert Link(nodes'[p], !goLeft) == d;
      if d != NIL {
        assert d != x && nodes'[d].parent == nodes[d].parent;
      }
      if n.parent != NIL {
        assert nodes'[n.parent] == nodes[n.parent];
      }
    } else {
      var n := nodes[i];
      assert nodes'[i] == n;
      if n.parent == p {
        assert i == Link(nodes[p], !goLeft) && Link(nodes'[p], !goLeft) == i;
      }
    }
  }

  lemma AttachSubAt<K, V>(nodes: seq<RBNode<K, V>>, elems: set<int>, sub: map<int, set<int>>, nodes': seq<RBNode<K, V>>, x: int, p: int, goLeft: bool, i: int)
    requires NIL !in elems && x !in elems && p in elems && 0 <= x < |nodes|
    requires Attached(nodes, nodes', x, p, goLeft) && Link(nodes[p], goLeft) == NIL
    requires i == x || (i in elems && SubAt(nodes, elems, sub, i) && ChildrenIn(nodes, elems, i))
    ensures SubAt(nodes', elems + {x}, AttachSub(sub, p, x), i)
  {
    var E, sub' := elems + {x}, AttachSub(sub, p, x);
    assert SubOf(elems + {x}, sub', NIL) == {};
    if i != x {
      var n, n' := nodes[i], nodes'[i];
      var L, R := SubOf(elems, sub, n.left), SubOf(elems, sub, n.right);
      assert x !in sub[i] && L <= sub[i] && R <= sub[i];
      if i == p {
        assert n' == SetLink(n, goLeft, x);
        assert SubOf(E, sub', x) == {x};
        assert SubOf(E, sub', Link(n, !goLeft)) == SubOf(elems, sub, Link(n, !goLeft));
        if goLeft {
          assert sub'[p] == {x} + {p} + R;
        } else {
          assert sub'[p] == L + {p} + {x};
        }
      } else {
        assert n' == n;
        assert SubOf(E, sub', n.left) == if p in L then L + {x} else L;
        assert SubOf(E, sub', n.right) == if p in R then R + {x} else R;
      }
    }
  }

  /** An ancestor of `p` is not below `p`. */
  lemma AncestorNotBelow<K, V>(nodes: seq<RBNode<K, V>>, root: int, elems: set<int>, sub: map<int, set<int>>, i: int, p: int)
    requires Shape(nodes, root, elems, sub, NIL)
    requires i in elems && p in sub[i] && p != i
    ensures p in elems && p in sub && i !in sub[p]
  {
    Nested(nodes, root, elems, sub, NIL, i, p);
    assert ShapeAt(nodes, root, elems, sub, NIL, i);
    var n := nodes[i];
    var c := if p in SubOf(elems, sub, n.left) then n.left else n.right;
    assert p in SubOf(elems, sub, c) && i !in SubOf(elems, sub, c);
    assert c in elems && c in sub;
    Nested(nodes, root, elems, sub, NIL, c, p);
  }

  /** The subtree set behind a link other than the new leaf gains the leaf exactly when it holds the parent. */
  lemma AttachSubOf(elems: set<int>, sub: map<int, set<int>>, p: int, x: int, c: int)
    requires c != x
    ensures var S := SubOf(elems, sub, c);
      SubOf(elems + {x}, AttachSub(sub, p, x), c) == if p in S then S + {x} else S
  {
  }

  /** The new leaf's parent gains it on the side its key belongs. */
  lemma AttachOrderedAtParent<K, V>(nodes: seq<RBNode<K, V>>, elems: set<int>, sub: map<int, set<int>>, cmp: (K, K) -> int,
                                    nodes': seq<RBNode<K, V>>, x: int, p: int, goLeft: bool)
    requires NIL !in elems && x !in elems && p in elems && 0 <= x < |nodes|
    requires Attached(nodes, nodes', x, p, goLeft) && Link(nodes[p], goLeft) == NIL
    requires goLeft ==> cmp(nodes[x].key, nodes[p].key) < 0
    requires !goLeft ==> cmp(nodes[p].key, nodes[x].key) < 0
    requires SubAt(nodes, elems, sub, p) && ChildrenIn(nodes, elems, p) && OrderedAt(nodes, elems, sub, cmp, NIL, p)
    ensures OrderedAt(nodes', elems + {x}, AttachSub(sub, p, x), cmp, NIL, p)
  {
    var E, sub' := elems + {x}, AttachSub(sub, p, x);
    var n := nodes[p];
    var d := Link(n, !goLeft);
    assert nodes'[p] == SetLink(n, goLeft, x);
    assert SubOf(E, sub', x) == {x};
    assert SubOf(E, sub', d) == SubOf(elems, sub, d);
    assert forall k :: k in SubOf(elems, sub, d) ==> 0 <= k < |nodes| && k != x && k != p && nodes'[k].key == nodes[k].key;
  }

  /** A node with the parent below it gains the new leaf on the parent's side. */
  lemma AttachOrderedAtAbove<K(!new), V>(nodes: seq<RBNode<K, V>>, elems: set<int>, sub: map<int, set<int>>, cmp: (K, K) -> int,
                                         nodes': seq<RBNode<K, V>>, x: int, p: int, goLeft: bool, i: int)
    requires TotalOrder(cmp) && NIL !in elems && x !in elems && p in elems && 0 <= x < |nodes|
    requires Attached(nodes, nodes', x, p, goLeft)
    requires i in elems && SubAt(nodes, elems, sub, i) && ChildrenIn(nodes, elems, i) && OrderedAt(nodes, elems, sub, cmp, NIL, i)
    requires nodes[x].key != nodes[i].key
    requires SameSideOutside(nodes, elems, sub, cmp, nodes[x].key, p)
    requires i != p && p in sub[i] && i !in sub[p]
    ensures OrderedAt(nodes', elems + {x}, AttachSub(sub, p, x), cmp, NIL, i)
  {
    var E, sub' := elems + {x}, AttachSub(sub, p, x);
    var n := nodes[i];
    var L, R := SubOf(elems, sub, n.left), SubOf(elems, sub, n.right);
    assert nodes'[i] == n;
    assert forall k :: 0 <= k < |nodes| ==> nodes'[k].key == nodes[k].key;
    AttachSubOf(elems, sub, p, x, n.left);
    AttachSubOf(elems, sub, p, x, n.right);
    var key, ik := nodes[x].key, nodes[i].key;
    if p in L {
      assert cmp(nodes[p].key, ik) < 0 by { assert Lt(nodes, cmp, p, i); }
      assert !(cmp(ik, key) < 0) && cmp(ik, key) != 0;
      assert Lt(nodes', cmp, x, i);
    } else {
      assert Lt(nodes, cmp, i, p);
      assert Lt(nodes', cmp, i, x);
    }
  }

  /** A node whose subtree does not hold the parent keeps its subtrees. */
  lemma AttachOrderedAtAway<K, V>(nodes: seq<RBNode<K, V>>, elems: set<int>, sub: map<int, set<int>>, cmp: (K, K) -> int,
                                  nodes': seq<RBNode<K, V>>, x: int, p: int, goLeft: bool, i: int)
    requires NIL !in elems && x !in elems && p in elems && 0 <= x < |nodes|
    requires Attached(nodes, nodes', x, p, goLeft)
    requires i in elems && SubAt(nodes, elems, sub, i) && ChildrenIn(nodes, elems, i) && OrderedAt(nodes, elems, sub, cmp, NIL, i)
    requires p !in sub[i]
    ensures OrderedAt(nodes', elems + {x}, AttachSub(sub, p, x), cmp, NIL, i)
  {
    var E, sub' := elems + {x}, AttachSub(sub, p, x);
    var n := nodes[i];
    assert nodes'[i] == n;
    assert forall k :: k in sub[i] ==> 0 <= k < |nodes| && k != x && nodes'[k].key == nodes[k].key;
    assert SubOf(E, sub', n.left) == SubOf(elems, sub, n.left);
    assert SubOf(E, sub', n.right) == SubOf(elems, sub, n.right);
  }

  lemma AttachColorsAt<K, V>(nodes: seq<RBNode<K, V>>, elems: set<int>, bh: map<int, int>,
                             nodes': seq<RBNode<K, V>>, x: int, p: int, goLeft: bool, i: int)
    requires NIL !in elems && x !in elems && p in elems && 0 <= x < |nodes|
    requires Attached(nodes, nodes', x, p, goLeft) && Link(nodes[p], goLeft) == NIL
    requires i == x || (i in elems && ChildrenIn(nodes, elems, i) && BlackAt(nodes, elems, bh, NIL, NIL, i) && RedAt(nodes, elems, NIL, i))
    ensures BlackAt(nodes', elems + {x}, bh[x := 0], NIL, NIL, i)
    ensures RedAt(nodes', elems + {x}, x, i)
  {
    var E := elems + {x};
    if i == p {
      assert Link(nodes'[p], goLeft) == x && Link(nodes'[p], !goLeft) == Link(nodes[p], !goLeft);
      assert BH(E, bh[x := 0], x) == 0;
      assert BH(E, bh[x := 0], Link(nodes[p], !goLeft)) == BH(elems, bh, Link(nodes[p], !goLeft));
    } else if i != x {
      assert nodes'[i] == nodes[i];
      assert nodes[i].left != x && nodes[i].right != x;
      assert BH(E, bh[x := 0], nodes[i].left) == BH(elems, bh, nodes[i].left);
      assert BH(E, bh[x := 0], nodes[i].right) == BH(elems, bh, nodes[i].right);
      assert RedLink(nodes', E, nodes[i].left) == RedLink(nodes, elems, nodes[i].left);
      assert RedLink(nodes', E, nodes[i].right) == RedLink(nodes, elems, nodes[i].right);
    }
  }

  lemma AttachShape<K, V>(nodes: seq<RBNode<K, V>>, root: int, elems: set<int>, sub: map<int, set<int>>,
                          nodes': seq<RBNode<K, V>>, x: int, p: int, goLeft: bool)
    requires Shape(nodes, root, elems, sub, NIL)
    requires 0 <= x < |nodes| && x !in elems && p in elems && Link(nodes[p], goLeft) == NIL
    requires Attached(nodes, nodes', x, p, goLeft)
    ensures Shape(nodes', root, elems + {x}, AttachSub(sub, p, x), NIL)
  {
    var E, sub' := elems + {x}, AttachSub(sub, p, x);
    assert ShapeAt(nodes, root, elems, sub, NIL, p);
    if nodes[p].parent != NIL {
      assert ShapeAt(nodes, root, elems, sub, NIL, nodes[p].parent);
    }
    assert AttachPoint(nodes, root, elems, x, p, goLeft);
    forall i | i in E ensures ShapeAt(nodes', root, E, sub', NIL, i) {
      if i != x {
        assert ShapeAt(nodes, root, elems, sub, NIL, i);
      }
      AttachLinkAt(nodes, root, elems, nodes', x, p, goLeft, i);
      AttachSubAt(nodes, elems, sub, nodes', x, p, goLeft, i);
    }
    assert sub'[root] == E;
  }

  lemma AttachOrdered<K(!new), V>(nodes: seq<RBNode<K, V>>, root: int, elems: set<int>, sub: map<int, set<int>>, cmp: (K, K) -> int,
                                  nodes': seq<RBNode<K, V>>, x: int, p: int)
    requires TotalOrder(cmp) && Shape(nodes, root, elems, sub, NIL) && Ordered(nodes, elems, sub, cmp, NIL)
    requires 0 <= x < |nodes| && x !in elems && p != NIL
    requires InsertionPoint(nodes, elems, sub, cmp, nodes[x].key, p)
    requires Attached(nodes, nodes', x, p, cmp(nodes[x].key, nodes[p].key) < 0)
    ensures Ordered(nodes', elems + {x}, AttachSub(sub, p, x), cmp, NIL)
    ensures Distinct(nodes', elems + {x}) <== Distinct(nodes, elems)
  {
    var E, sub' := elems + {x}, AttachSub(sub, p, x);
    var goLeft := cmp(nodes[x].key, nodes[p].key) < 0;
    assert ShapeAt(nodes, root, elems, sub, NIL, p);
    assert NIL !in elems;
    assert !goLeft ==> cmp(nodes[p].key, nodes[x].key) < 0;
    forall i | i in E ensures OrderedAt(nodes', E, sub', cmp, NIL, i) {
      if i == x {
        assert SubOf(E, sub', NIL) == {};
        assert nodes'[x].left == NIL && nodes'[x].right == NIL;
      } else {
        assert ShapeAt(nodes, root, elems, sub, NIL, i) && OrderedAt(nodes, elems, sub, cmp, NIL, i);
        if i == p {
          AttachOrderedAtParent(nodes, elems, sub, cmp, nodes', x, p, goLeft);
        } else if p in sub[i] {
          AncestorNotBelow(nodes, root, elems, sub, i, p);
          AttachOrderedAtAbove(nodes, elems, sub, cmp, nodes', x, p, goLeft, i);
        } else {
          AttachOrderedAtAway(nodes, elems, sub, cmp, nodes', x, p, goLeft, i);
        }
      }
    }
  }

  lemma AttachColors<K, V>(nodes: seq<RBNode<K, V>>, root: int, elems: set<int>, sub: map<int, set<int>>, bh: map<int, int>,
                           nodes': seq<RBNode<K, V>>, x: int, p: int, goLeft: bool)
    requires Shape(nodes, root, elems, sub, NIL)
    requires Balanced(nodes, elems, bh, NIL, NIL) && NoRedRed(nodes, elems, NIL) && RootBlack(nodes, root)
    requires 0 <= x < |nodes| && x !in elems && p in elems && Link(nodes[p], goLeft) == NIL
    requires Attached(nodes, nodes', x, p, goLeft)
    ensures Balanced(nodes', elems + {x}, bh[x := 0], NIL, NIL)
    ensures NoRedRed(nodes', elems + {x}, x)
    ensures RootBlack(nodes', root)
  {
    var E, bh' := elems + {x}, bh[x := 0];
    forall i | i in E ensures BlackAt(nodes', E, bh', NIL, NIL, i) && RedAt(nodes', E, x, i) {
      if i != x {
        assert ShapeAt(nodes, root, elems, sub, NIL, i);
        assert BlackAt(nodes, elems, bh, NIL, NIL, i) && RedAt(nodes, elems, NIL, i);
      }
      AttachColorsAt(nodes, elems, bh, nodes', x, p, goLeft, i);
    }
    assert root in elems && root != x && nodes'[root].color == nodes[root].color;
  }

  /**
   * Attaching a red leaf at the insertion point of its key keeps a search
   * tree with balanced black heights; the only red-red link that can appear
   * is the one into the new leaf.
   */
  lemma AttachLeaf<K(!new), V>(nodes: seq<RBNode<K, V>>, root: int, elems: set<int>, sub: map<int, set<int>>, bh: map<int, int>, cmp: (K, K) -> int,
                               nodes': seq<RBNode<K, V>>, x: int, p: int)
    requires RBTree(nodes, root, elems, sub, bh, cmp)
    requires 0 <= x < |nodes| && x !in elems && p != NIL
    requires InsertionPoint(nodes, elems, sub, cmp, nodes[x].key, p)
    requires Attached(nodes, nodes', x, p, cmp(nodes[x].key, nodes[p].key) < 0)
    ensures Shape(nodes', root, elems + {x}, AttachSub(sub, p, x), NIL)
    ensures Ordered(nodes', elems + {x}, AttachSub(sub, p, x), cmp, NIL)
    ensures Distinct(nodes', elems + {x})
    ensures Balanced(nodes', elems + {x}, bh[x := 0], NIL, NIL)
    ensures NoRedRed(nodes', elems + {x}, x)
    ensures RootBlack(nodes', root)
  {
    var goLeft := cmp(nodes[x].key, nodes[p].key) < 0;
    assert Link(nodes[p], goLeft) == NIL;
    AttachShape(nodes, root, elems, sub, nodes', x, p, goLeft);
    AttachOrdered(nodes, root, elems, sub, cmp, nodes', x, p);
    AttachColors(nodes, root, elems, sub, bh, nodes', x, p, goLeft);
  }

  /** The first node of an empty tree becomes a black root. */
  lemma AttachRoot<K(!new), V>(nodes: seq<RBNode<K, V>>, root: int, elems: set<int>, sub: map<int, set<int>>, bh: map<int, int>, cmp: (K, K) -> int,
                               nodes': seq<RBNode<K, V>>, x: int)
    requires RBTree(nodes, root, elems, sub, bh, cmp) && elems == {}
    requires 0 <= x < |nodes| && |nodes'| == |nodes|
    requires nodes'[x] == nodes[x].(parent := NIL, left := NIL, right := NIL, valid := true, color := Black)
    ensures RBTree(nodes', x, {x}, sub[x := {x}], bh[x := 1], cmp)
  {
    var sub', bh' := sub[x := {x}], bh[x := 1];
    assert ShapeAt(nodes', x, {x}, sub', NIL, x);
    assert OrderedAt(nodes', {x}, sub', cmp, NIL, x);
    assert BlackAt(nodes', {x}, bh', NIL, NIL, x);
    assert RedAt(nodes', {x}, NIL, x);
  }

  // ---------------------------------------------------------------------------
  // The repair loop of `rotate`
  // ---------------------------------------------------------------------------

  /**
   * The state at the head of the loop: a search tree with balanced black
   * heights whose one possible red-red link is from `c`, which is red, to its
   * parent; the root is black unless it is `c`.
   */
  ghost predicate FixInv<K(!new), V>(nodes: seq<RBNode<K, V>>, root: int, elems: set<int>, sub: map<int, set<int>>, bh: map<int, int>, cmp: (K, K) -> int, c: int) {
    && TotalOrder(cmp)
    && Shape(nodes, root, elems, sub, NIL)
    && Ordered(nodes, elems, sub, cmp, NIL)
    && Distinct(nodes, elems)
    && Balanced(nodes, elems, bh, NIL, NIL)
    && NoRedRed(nodes, elems, c)
    && c in elems && 0 <= c < |nodes| && nodes[c].color == Red
    && (RootBlack(nodes, root) || root == c)
  }

  /** The other child of `p` than `c` (in the insert loop, the uncle of the red node). */
  ghost function Sibling<K, V>(nodes: seq<RBNode<K, V>>, p: int, c: int): int
    requires 0 <= p < |nodes|
  {
    if nodes[p].left == c then nodes[p].right else nodes[p].left
  }

  /** `c` is the inner grandchild of its grandparent (left child of a right child, or the mirror). */
  ghost predicate Inner<K, V>(nodes: seq<RBNode<K, V>>, c: int) {
    && 0 <= c < |nodes|
    && var p := nodes[c].parent;
    && 0 <= p < |nodes|
    && var g := nodes[p].parent;
    && 0 <= g < |nodes|
    && ((nodes[g].left == p && nodes[p].right == c) || (nodes[g].right == p && nodes[p].left == c))
  }

  /** How far up the tree `c` still is from the root: 0 at the root, then one more than the nodes outside its parent's subtree. */
  ghost function FixRank<K, V>(nodes: seq<RBNode<K, V>>, elems: set<int>, sub: map<int, set<int>>, c: int): int
    requires 0 <= c < |nodes|
  {
    var p := nodes[c].parent;
    if p == NIL then 0 else |elems| - |SubOf(elems, sub, p)| + 1
  }

  /** `nodes'` is `nodes` with `p` and `u` painted black and `g` red. */
  ghost predicate Recolored<K, V>(nodes: seq<RBNode<K, V>>, nodes': seq<RBNode<K, V>>, p: int, u: int, g: int) {
    && |nodes'| == |nodes| && 0 <= p < |nodes| && 0 <= u < |nodes| && 0 <= g < |nodes|
    && SameLinks(nodes, nodes')
    && nodes'[p] == nodes[p].(color := Black)
    && nodes'[u] == nodes[u].(color := Black)
    && nodes'[g] == nodes[g].(color := Red)
    && (forall k :: 0 <= k < |nodes| && k != p && k != u && k != g ==> nodes'[k] == nodes[k])
  }

  /** The loop ends at the root: `c` is painted black and the tree is settled. */
  lemma FixAtRoot<K(!new), V>(nodes: seq<RBNode<K, V>>, root: int, elems: set<int>, sub: map<int, set<int>>, bh: map<int, int>, cmp: (K, K) -> int, c: int,
                              nodes': seq<RBNode<K, V>>)
    requires FixInv(nodes, root, elems, sub, bh, cmp, c) && nodes[c].parent == NIL
    requires nodes' == nodes[c := nodes[c].(color := Black)]
    ensures c in bh && RBTree(nodes', root, elems, sub, bh[c := bh[c] + 1], cmp)
  {
    var bh' := bh[c := bh[c] + 1];
    assert ShapeAt(nodes, root, elems, sub, NIL, c);
    SameLinksKeep(nodes, root, elems, sub, NIL, cmp, nodes');
    forall i | i in elems ensures BlackAt(nodes', elems, bh', NIL, NIL, i) && RedAt(nodes', elems, NIL, i) {
      assert ShapeAt(nodes, root, elems, sub, NIL, i) && BlackAt(nodes, elems, bh, NIL, NIL, i) && RedAt(nodes, elems, c, i);
      var n := nodes[i];
      assert n.left != c && n.right != c;
      if i != c {
        ColorsKeptAt(nodes, elems, bh, NIL, NIL, c, nodes', bh', NIL, NIL, NIL, i);
      }
    }
  }

  /** The loop ends below a black parent: the red-red exemption is not needed. */
  lemma FixParentBlack<K(!new), V>(nodes: seq<RBNode<K, V>>, root: int, elems: set<int>, sub: map<int, set<int>>, bh: map<int, int>, cmp: (K, K) -> int, c: int)
    requires FixInv(nodes, root, elems, sub, bh, cmp, c)
    requires var p := nodes[c].parent; p != NIL && 0 <= p < |nodes| && nodes[p].color == Black
    ensures RBTree(nodes, root, elems, sub, bh, cmp)
  {
    assert ShapeAt(nodes, root, elems, sub, NIL, c);
    forall i | i in elems ensures RedAt(nodes, elems, NIL, i) {
      assert ShapeAt(nodes, root, elems, sub, NIL, i) && RedAt(nodes, elems, c, i);
      if nodes[i].left == c || nodes[i].right == c {
        assert i == nodes[c].parent;
      }
    }
  }

  /** The facts the recolouring step works from: `g` over `p` (on side `!tl`) and the red uncle `u`. */
  ghost predicate RecolorPoint<K, V>(nodes: seq<RBNode<K, V>>, root: int, elems: set<int>, bh: map<int, int>, c: int,
                                     nodes': seq<RBNode<K, V>>, g: int, tl: bool) {
    && RotNeighbours(nodes, root, elems, NIL, g, tl)
    && var p, u := Link(nodes[g], !tl), Link(nodes[g], tl);
    && u in elems && c in elems && 0 <= c < |nodes| && nodes[c].parent == p
    && nodes[p].color == Red && nodes[u].color == Red && nodes[g].color == Black
    && Recolored(nodes, nodes', p, u, g)
    && p in bh && u in bh
  }

  /** The recoloured nodes themselves. */
  lemma RecolorColorsPainted<K, V>(nodes: seq<RBNode<K, V>>, root: int, elems: set<int>, bh: map<int, int>, c: int,
                                   nodes': seq<RBNode<K, V>>, g: int, tl: bool, i: int)
    requires RecolorPoint(nodes, root, elems, bh, c, nodes', g, tl)
    requires i == g || i == Link(nodes[g], !tl) || i == Link(nodes[g], tl)
    requires LinkAt(nodes, root, elems, NIL, i) && BlackAt(nodes, elems, bh, NIL, NIL, i) && RedAt(nodes, elems, c, i)
    ensures var p, u := Link(nodes[g], !tl), Link(nodes[g], tl);
      var bh' := bh[p := bh[p] + 1][u := bh[u] + 1];
      BlackAt(nodes', elems, bh', NIL, NIL, i) && RedAt(nodes', elems, g, i)
  {
    var p, u := Link(nodes[g], !tl), Link(nodes[g], tl);
    var bh' := bh[p := bh[p] + 1][u := bh[u] + 1];
    var n := nodes[i];
    if i == g {
      assert BH(elems, bh', p) == BH(elems, bh, p) + 1 && BH(elems, bh', u) == BH(elems, bh, u) + 1;
    } else {
      assert n.left != p && n.left != u && n.right != p && n.right != u;
      assert BH(elems, bh', n.left) == BH(elems, bh, n.left) && BH(elems, bh', n.right) == BH(elems, bh, n.right);
      assert n.left != c && n.right != c ==> !RedLink(nodes, elems, n.left) && !RedLink(nodes, elems, n.right);
    }
  }

  /** A node the recolouring step does not paint. */
  lemma RecolorColorsOther<K, V>(nodes: seq<RBNode<K, V>>, root: int, elems: set<int>, bh: map<int, int>, c: int,
                                 nodes': seq<RBNode<K, V>>, g: int, tl: bool, i: int)
    requires RecolorPoint(nodes, root, elems, bh, c, nodes', g, tl)
    requires i in elems && i != g && i != Link(nodes[g], !tl) && i != Link(nodes[g], tl)
    requires LinkAt(nodes, root, elems, NIL, i) && BlackAt(nodes, elems, bh, NIL, NIL, i) && RedAt(nodes, elems, c, i)
    ensures var p, u := Link(nodes[g], !tl), Link(nodes[g], tl);
      var bh' := bh[p := bh[p] + 1][u := bh[u] + 1];
      BlackAt(nodes', elems, bh', NIL, NIL, i) && RedAt(nodes', elems, g, i)
  {
    var p, u := Link(nodes[g], !tl), Link(nodes[g], tl);
    var bh' := bh[p := bh[p] + 1][u := bh[u] + 1];
    var n := nodes[i];
    assert nodes'[i] == n;
    assert n.left != p && n.left != u && n.right != p && n.right != u;
    assert n.left != c && n.right != c;
    assert n.left in elems ==> nodes'[n.left].color == nodes[n.left].color || n.left == g;
    assert n.right in elems ==> nodes'[n.right].color == nodes[n.right].color || n.right == g;
    ColorsKeptAt(nodes, elems, bh, NIL, NIL, c, nodes', bh', NIL, NIL, g, i);
  }

  lemma RecolorColors<K, V>(nodes: seq<RBNode<K, V>>, root: int, elems: set<int>, bh: map<int, int>, c: int,
                            nodes': seq<RBNode<K, V>>, g: int, tl: bool, p: int, u: int)
    requires AllLinks(nodes, root, elems, NIL) && Balanced(nodes, elems, bh, NIL, NIL) && NoRedRed(nodes, elems, c)
    requires RecolorPoint(nodes, root, elems, bh, c, nodes', g, tl)
    requires p == Link(nodes[g], !tl) && u == Link(nodes[g], tl)
    ensures Balanced(nodes', elems, bh[p := bh[p] + 1][u := bh[u] + 1], NIL, NIL) && NoRedRed(nodes', elems, g)
  {
    var bh' := bh[p := bh[p] + 1][u := bh[u] + 1];
    forall i | i in elems ensures BlackAt(nodes', elems, bh', NIL, NIL, i) && RedAt(nodes', elems, g, i) {
      assert LinkAt(nodes, root, elems, NIL, i) && BlackAt(nodes, elems, bh, NIL, NIL, i) && RedAt(nodes, elems, c, i);
      if i == g || i == p || i == u {
        RecolorColorsPainted(nodes, root, elems, bh, c, nodes', g, tl, i);
      } else {
        RecolorColorsOther(nodes, root, elems, bh, c, nodes', g, tl, i);
      }
    }
  }

  /** The neighbourhood of the recolouring step, read off a tree state at the head of the loop. */
  lemma RecolorSetup<K, V>(nodes: seq<RBNode<K, V>>, root: int, elems: set<int>, sub: map<int, set<int>>, bh: map<int, int>, c: int,
                           nodes': seq<RBNode<K, V>>)
    requires Shape(nodes, root, elems, sub, NIL) && Balanced(nodes, elems, bh, NIL, NIL) && NoRedRed(nodes, elems, c)
    requires c in elems && 0 <= c < |nodes| && nodes[c].color == Red && (RootBlack(nodes, root) || root == c)
    requires var p := nodes[c].parent; p != NIL && 0 <= p < |nodes| && nodes[p].color == Red
    requires var p := nodes[c].parent; var g := nodes[p].parent; 0 <= g < |nodes|
    requires var p := nodes[c].parent; var g := nodes[p].parent; var u := Sibling(nodes, g, p);
      u != NIL && 0 <= u < |nodes| && nodes[u].color == Red && Recolored(nodes, nodes', p, u, g)
    ensures var p := nodes[c].parent; var g := nodes[p].parent;
      && RecolorPoint(nodes, root, elems, bh, c, nodes', g, nodes[g].right == p)
      && Sibling(nodes, g, p) == Link(nodes[g], nodes[g].right == p) && p == Link(nodes[g], !(nodes[g].right == p))
      && g in elems && root != p && root != Sibling(nodes, g, p) && RootBlack(nodes, root)
  {
    var p := nodes[c].parent;
    var g := nodes[p].parent;
    var u := Sibling(nodes, g, p);
    var tl := nodes[g].right == p;
    assert LinkAt(nodes, root, elems, NIL, c) by { assert ShapeAt(nodes, root, elems, sub, NIL, c); }
    assert p != root;
    assert LinkAt(nodes, root, elems, NIL, p) by { assert ShapeAt(nodes, root, elems, sub, NIL, p); }
    assert LinkAt(nodes, root, elems, NIL, g) by { assert ShapeAt(nodes, root, elems, sub, NIL, g); }
    assert Link(nodes[g], !tl) == p && Link(nodes[g], tl) == u;
    RotateFacts(nodes, root, elems, sub, NIL, g, tl);
    assert RedAt(nodes, elems, c, g) && nodes[g].color == Black;
    assert p in bh && u in bh;
  }

  /** Moving up from `c` to its grandparent brings the loop nearer the root. */
  lemma RankUp<K, V>(nodes: seq<RBNode<K, V>>, root: int, elems: set<int>, sub: map<int, set<int>>, c: int, nodes': seq<RBNode<K, V>>)
    requires Shape(nodes, root, elems, sub, NIL) && SameLinks(nodes, nodes')
    requires c in elems && 0 <= c < |nodes|
    requires var p := nodes[c].parent; p != NIL && 0 <= p < |nodes| && 0 <= nodes[p].parent < |nodes|
    ensures 0 <= FixRank(nodes', elems, sub, nodes[nodes[c].parent].parent) < FixRank(nodes, elems, sub, c)
  {
    var p := nodes[c].parent;
    ChildSubSmaller(nodes, root, elems, sub, NIL, c);
    ChildSubSmaller(nodes, root, elems, sub, NIL, p);
    var g := nodes[p].parent;
    ChildSubSmaller(nodes, root, elems, sub, NIL, g);
    assert nodes'[g].parent == nodes[g].parent;
    if nodes[g].parent != NIL {
      ChildSubSmaller(nodes, root, elems, sub, NIL, nodes[g].parent);
    }
  }

  /**
   * The uncle is red: the parent and the uncle turn black, the grandparent
   * red, and the loop goes on from the grandparent, which is nearer the root.
   */
  lemma FixRecolor<K(!new), V>(nodes: seq<RBNode<K, V>>, root: int, elems: set<int>, sub: map<int, set<int>>, bh: map<int, int>, cmp: (K, K) -> int, c: int,
                               nodes': seq<RBNode<K, V>>)
    requires FixInv(nodes, root, elems, sub, bh, cmp, c)
    requires var p := nodes[c].parent; p != NIL && 0 <= p < |nodes| && nodes[p].color == Red
    requires var p := nodes[c].parent; var g := nodes[p].parent; 0 <= g < |nodes|
    requires var p := nodes[c].parent; var g := nodes[p].parent; var u := Sibling(nodes, g, p);
      u != NIL && 0 <= u < |nodes| && nodes[u].color == Red && Recolored(nodes, nodes', p, u, g)
    ensures var p := nodes[c].parent; var g := nodes[p].parent; var u := Sibling(nodes, g, p);
      && p in bh && u in bh
      && FixInv(nodes', root, elems, sub, bh[p := bh[p] + 1][u := bh[u] + 1], cmp, g)
      && 0 <= FixRank(nodes', elems, sub, g) < FixRank(nodes, elems, sub, c)
  {
    var p := nodes[c].parent;
    var g := nodes[p].parent;
    var tl := nodes[g].right == p;
    RecolorSetup(nodes, root, elems, sub, bh, c, nodes');
    RankUp(nodes, root, elems, sub, c, nodes');
    ShapeLinks(nodes, root, elems, sub, NIL);
    RecolorColors(nodes, root, elems, bh, c, nodes', g, tl, p, Sibling(nodes, g, p));
    SameLinksKeep(nodes, root, elems, sub, NIL, cmp, nodes');
    assert root != g ==> nodes'[root] == nodes[root];
  }

  /** Moving keys and values along with their nodes keeps them distinct. */
  lemma PayloadDistinct<K, V>(nodes: seq<RBNode<K, V>>, elems: set<int>, nodes': seq<RBNode<K, V>>)
    requires Distinct(nodes, elems) && SamePayload(nodes, nodes')
    ensures Distinct(nodes', elems)
  {
    forall i, j | i in elems && j in elems && i != j && 0 <= i < |nodes'| && 0 <= j < |nodes'|
      ensures nodes'[i].key != nodes'[j].key
    {
      assert nodes'[i].key == nodes[i].key && nodes'[j].key == nodes[j].key;
    }
  }

  // Inner case: `c` is the inner grandchild; rotating at `p` makes `p` the
  // outer grandchild below `c`, and the loop goes on from `p`.

  /** The facts the inner step works from: rotating at `p` lifts `c`. */
  ghost predicate InnerPoint<K, V>(nodes: seq<RBNode<K, V>>, root: int, elems: set<int>, bh: map<int, int>, c: int,
                                   nodes': seq<RBNode<K, V>>, p: int, tl: bool) {
    && RotNeighbours(nodes, root, elems, NIL, p, tl)
    && Link(nodes[p], !tl) == c
    && var g := nodes[p].parent;
    && g != NIL && 0 <= g < |nodes|
    && Rotated(nodes, root, nodes', root, p, tl)
    && nodes[p].color == Red && nodes[c].color == Red && nodes[g].color == Black
    && nodes'[p].color == Red && nodes'[c].color == Red
    && nodes[g].left != c && nodes[g].right != c
    && p in bh && c in bh
  }

  /** The two nodes the inner rotation moves. */
  lemma InnerColorsMoved<K, V>(nodes: seq<RBNode<K, V>>, root: int, elems: set<int>, bh: map<int, int>, c: int,
                               nodes': seq<RBNode<K, V>>, p: int, tl: bool, i: int)
    requires InnerPoint(nodes, root, elems, bh, c, nodes', p, tl)
    requires i == p || i == c
    requires BlackAt(nodes, elems, bh, NIL, NIL, p) && RedAt(nodes, elems, c, p)
    requires BlackAt(nodes, elems, bh, NIL, NIL, c) && RedAt(nodes, elems, c, c)
    ensures BlackAt(nodes', elems, bh, NIL, NIL, i) && RedAt(nodes', elems, p, i)
  {
    var a, b, d := Link(nodes[p], tl), Link(nodes[c], tl), Link(nodes[c], !tl);
    assert nodes'[p] == SetLink(nodes[p], !tl, b).(parent := c, color := Red);
    assert nodes'[c] == SetLink(nodes[c], tl, p).(parent := nodes[p].parent, color := Red);
    assert BH(elems, bh, c) == bh[c] && BH(elems, bh, p) == bh[p];
    assert a in elems ==> nodes'[a].color == nodes[a].color;
    assert b in elems ==> nodes'[b].color == nodes[b].color;
    assert d in elems ==> nodes'[d].color == nodes[d].color;
    assert !RedLink(nodes, elems, a) && !RedLink(nodes, elems, b) && !RedLink(nodes, elems, d);
  }

  lemma InnerColors<K, V>(nodes: seq<RBNode<K, V>>, root: int, elems: set<int>, sub: map<int, set<int>>, bh: map<int, int>, c: int,
                          nodes': seq<RBNode<K, V>>, p: int, tl: bool)
    requires AllLinks(nodes, root, elems, NIL) && Balanced(nodes, elems, bh, NIL, NIL) && NoRedRed(nodes, elems, c)
    requires InnerPoint(nodes, root, elems, bh, c, nodes', p, tl)
    ensures Balanced(nodes', elems, bh, NIL, NIL) && NoRedRed(nodes', elems, p)
  {
    var g := nodes[p].parent;
    assert bh == bh[p := bh[p]][c := bh[c]];
    assert BlackAt(nodes, elems, bh, NIL, NIL, p) && RedAt(nodes, elems, c, p);
    assert BlackAt(nodes, elems, bh, NIL, NIL, c) && RedAt(nodes, elems, c, c);
    forall i | i in elems ensures BlackAt(nodes', elems, bh, NIL, NIL, i) && RedAt(nodes', elems, p, i) {
      assert LinkAt(nodes, root, elems, NIL, i) && BlackAt(nodes, elems, bh, NIL, NIL, i) && RedAt(nodes, elems, c, i);
      if i == p || i == c {
        InnerColorsMoved(nodes, root, elems, bh, c, nodes', p, tl, i);
      } else if i == g {
        RotColorsAbove(nodes, root, elems, NIL, bh, NIL, NIL, c, nodes', root, bh, NIL, NIL, p, p, tl, bh[p], bh[c]);
      } else {
        assert nodes[i].left != c && nodes[i].right != c;
        RotColorsAway(nodes, root, elems, NIL, bh, NIL, NIL, c, nodes', root, bh, NIL, NIL, p, p, tl, bh[p], bh[c], i);
      }
    }
  }

  /** The neighbourhood of the inner step, read off a tree state at the head of the loop. */
  lemma InnerSetup<K, V>(nodes: seq<RBNode<K, V>>, root: int, elems: set<int>, sub: map<int, set<int>>, bh: map<int, int>, c: int,
                         nodes': seq<RBNode<K, V>>)
    requires Shape(nodes, root, elems, sub, NIL) && Balanced(nodes, elems, bh, NIL, NIL) && NoRedRed(nodes, elems, c)
    requires c in elems && 0 <= c < |nodes| && nodes[c].color == Red && (RootBlack(nodes, root) || root == c)
    requires Inner(nodes, c)
    requires var p := nodes[c].parent; nodes[p].color == Red
    requires var p := nodes[c].parent; var g := nodes[p].parent;
      && Rotated(nodes, root, nodes', root, p, nodes[g].left == p)
      && nodes'[p].color == Red && nodes'[c].color == Red
    ensures var p := nodes[c].parent; var g := nodes[p].parent;
      && InnerPoint(nodes, root, elems, bh, c, nodes', p, nodes[g].left == p)
      && root != p && root != c && RootBlack(nodes, root)
      && Link(nodes[c], nodes[g].left == p) != p && Link(nodes[g], nodes[g].left != p) != c
  {
    var p := nodes[c].parent;
    var g := nodes[p].parent;
    var tl := nodes[g].left == p;
    assert LinkAt(nodes, root, elems, NIL, c) by { assert ShapeAt(nodes, root, elems, sub, NIL, c); }
    assert LinkAt(nodes, root, elems, NIL, p) by { assert ShapeAt(nodes, root, elems, sub, NIL, p); }
    assert LinkAt(nodes, root, elems, NIL, g) by { assert ShapeAt(nodes, root, elems, sub, NIL, g); }
    if tl {
      assert nodes[p].right == c;
    } else {
      assert nodes[g].right == p && nodes[p].left == c;
    }
    RotateFacts(nodes, root, elems, sub, NIL, p, tl);
    assert RedAt(nodes, elems, c, g) && nodes[g].color == Black;
    assert p in bh && c in bh;
  }

  /**
   * The parent is red, the uncle black and `c` the inner grandchild: rotating
   * at the parent keeps every invariant, with the parent as the new `c`; the
   * loop is no nearer the root, but no longer in the inner configuration.
   */
  lemma FixInner<K(!new), V>(nodes: seq<RBNode<K, V>>, root: int, elems: set<int>, sub: map<int, set<int>>, bh: map<int, int>, cmp: (K, K) -> int, c: int,
                             nodes': seq<RBNode<K, V>>)
    requires FixInv(nodes, root, elems, sub, bh, cmp, c)
    requires Inner(nodes, c)
    requires var p := nodes[c].parent; nodes[p].color == Red
    requires var p := nodes[c].parent; var g := nodes[p].parent;
      && Rotated(nodes, root, nodes', root, p, nodes[g].left == p)
      && nodes'[p].color == Red && nodes'[c].color == Red
    ensures var p := nodes[c].parent; var g := nodes[p].parent;
      && 0 <= p < |nodes| && p in sub && 0 <= c < |nodes|
      && var sub' := RotSub(nodes, elems, sub, p, nodes[g].left == p);
      && FixInv(nodes', root, elems, sub', bh, cmp, p)
      && FixRank(nodes', elems, sub', p) == FixRank(nodes, elems, sub, c)
      && !Inner(nodes', p)
  {
    var p := nodes[c].parent;
    var g := nodes[p].parent;
    var tl := nodes[g].left == p;
    InnerSetup(nodes, root, elems, sub, bh, c, nodes');
    var sub' := RotSub(nodes, elems, sub, p, tl);
    RotateShape(nodes, root, elems, sub, NIL, nodes', root, p, tl);
    RotateOrdered(nodes, root, elems, sub, NIL, cmp, nodes', root, p, tl);
    RotatedPayload(nodes, root, nodes', root, p, tl);
    PayloadDistinct(nodes, elems, nodes');
    ShapeLinks(nodes, root, elems, sub, NIL);
    InnerColors(nodes, root, elems, sub, bh, c, nodes', p, tl);
    assert nodes'[root].color == nodes[root].color;
    assert nodes'[p].parent == c && nodes'[c].parent == g;
  }

  // Outer case: `c` is the outer grandchild; rotating at `g` lifts `p`,
  // which turns black over `c` and the now red `g`, and the loop ends.

  /** The facts the outer step works from: rotating at `g` lifts `p`, over its outer child `c`. */
  ghost predicate OuterPoint<K, V>(nodes: seq<RBNode<K, V>>, root: int, elems: set<int>, bh: map<int, int>, c: int,
                                   nodes': seq<RBNode<K, V>>, root': int, g: int, tl: bool) {
    && RotNeighbours(nodes, root, elems, NIL, g, tl)
    && var p, u := Link(nodes[g], !tl), Link(nodes[g], tl);
    && c == Link(nodes[p], !tl) && c in elems && 0 <= c < |nodes| && nodes[c].parent == p
    && Rotated(nodes, root, nodes', root', g, tl)
    && nodes[p].color == Red && nodes[c].color == Red && nodes[g].color == Black && !RedLink(nodes, elems, u)
    && nodes'[p].color == Black && nodes'[g].color == Red
    && p in bh && g in bh && c in bh
  }

  /** The two nodes the outer rotation moves. */
  lemma OuterColorsMoved<K, V>(nodes: seq<RBNode<K, V>>, root: int, elems: set<int>, bh: map<int, int>, c: int,
                               nodes': seq<RBNode<K, V>>, root': int, g: int, tl: bool, i: int)
    requires OuterPoint(nodes, root, elems, bh, c, nodes', root', g, tl)
    requires i == g || i == Link(nodes[g], !tl)
    requires BlackAt(nodes, elems, bh, NIL, NIL, g) && RedAt(nodes, elems, c, g)
    requires var p := Link(nodes[g], !tl); BlackAt(nodes, elems, bh, NIL, NIL, p) && RedAt(nodes, elems, c, p)
    requires BlackAt(nodes, elems, bh, NIL, NIL, c) && RedAt(nodes, elems, c, c)
    ensures var p := Link(nodes[g], !tl);
      BlackAt(nodes', elems, bh[g := bh[p]][p := bh[g]], NIL, NIL, i) && RedAt(nodes', elems, NIL, i)
  {
    var p := Link(nodes[g], !tl);
    var bh' := bh[g := bh[p]][p := bh[g]];
    var u, b := Link(nodes[g], tl), Link(nodes[p], tl);
    assert nodes'[g] == SetLink(nodes[g], !tl, b).(parent := p, color := Red);
    assert nodes'[p] == SetLink(nodes[p], tl, g).(parent := nodes[g].parent, color := Black);
    assert BH(elems, bh, p) == bh[p] && BH(elems, bh, c) == bh[c];
    assert BH(elems, bh', u) == BH(elems, bh, u) && BH(elems, bh', b) == BH(elems, bh, b) && BH(elems, bh', c) == BH(elems, bh, c);
    assert BH(elems, bh', g) == bh[p];
    assert b != c;
    assert u in elems ==> nodes'[u].color == nodes[u].color;
    assert b in elems ==> nodes'[b].color == nodes[b].color;
    assert !RedLink(nodes, elems, b);
  }

  lemma OuterColors<K, V>(nodes: seq<RBNode<K, V>>, root: int, elems: set<int>, sub: map<int, set<int>>, bh: map<int, int>, c: int,
                          nodes': seq<RBNode<K, V>>, root': int, g: int, tl: bool)
    requires AllLinks(nodes, root, elems, NIL) && Balanced(nodes, elems, bh, NIL, NIL) && NoRedRed(nodes, elems, c)
    requires OuterPoint(nodes, root, elems, bh, c, nodes', root', g, tl)
    ensures var p := Link(nodes[g], !tl);
      Balanced(nodes', elems, bh[g := bh[p]][p := bh[g]], NIL, NIL) && NoRedRed(nodes', elems, NIL)
  {
    var p := Link(nodes[g], !tl);
    var bh' := bh[g := bh[p]][p := bh[g]];
    var gg := nodes[g].parent;
    assert BlackAt(nodes, elems, bh, NIL, NIL, g) && RedAt(nodes, elems, c, g);
    assert BlackAt(nodes, elems, bh, NIL, NIL, p) && RedAt(nodes, elems, c, p);
    assert BlackAt(nodes, elems, bh, NIL, NIL, c) && RedAt(nodes, elems, c, c);
    forall i | i in elems ensures BlackAt(nodes', elems, bh', NIL, NIL, i) && RedAt(nodes', elems, NIL, i) {
      assert LinkAt(nodes, root, elems, NIL, i) && BlackAt(nodes, elems, bh, NIL, NIL, i) && RedAt(nodes, elems, c, i);
      if i == g || i == p {
        OuterColorsMoved(nodes, root, elems, bh, c, nodes', root', g, tl, i);
      } else if i == gg {
        assert nodes[i].left != c && nodes[i].right != c;
        RotColorsAbove(nodes, root, elems, NIL, bh, NIL, NIL, c, nodes', root', bh', NIL, NIL, NIL, g, tl, bh[p], bh[g]);
      } else {
        assert nodes[i].left != c && nodes[i].right != c;
        RotColorsAway(nodes, root, elems, NIL, bh, NIL, NIL, c, nodes', root', bh', NIL, NIL, NIL, g, tl, bh[p], bh[g], i);
      }
    }
  }

  /** The neighbourhood of the outer step, read off a tree state at the head of the loop. */
  lemma OuterSetup<K, V>(nodes: seq<RBNode<K, V>>, root: int, elems: set<int>, sub: map<int, set<int>>, bh: map<int, int>, c: int,
                         nodes': seq<RBNode<K, V>>, root': int)
    requires Shape(nodes, root, elems, sub, NIL) && Balanced(nodes, elems, bh, NIL, NIL) && NoRedRed(nodes, elems, c)
    requires c in elems && 0 <= c < |nodes| && nodes[c].color == Red && (RootBlack(nodes, root) || root == c)
    requires var p := nodes[c].parent; p != NIL && 0 <= p < |nodes| && nodes[p].color == Red
    requires var p := nodes[c].parent; var g := nodes[p].parent; 0 <= g < |nodes|
    requires var p := nodes[c].parent; var g := nodes[p].parent; var u := Sibling(nodes, g, p);
      && !(u != NIL && 0 <= u < |nodes| && nodes[u].color == Red) && !Inner(nodes, c)
      && Rotated(nodes, root, nodes', root', g, nodes[p].left != c)
      && nodes'[p].color == Black && nodes'[g].color == Red
    ensures var p := nodes[c].parent; var g := nodes[p].parent;
      && OuterPoint(nodes, root, elems, bh, c, nodes', root', g, nodes[p].left != c)
      && p == Link(nodes[g], !(nodes[p].left != c))
      && root != c && root != p && RootBlack(nodes, root)
  {
    var p := nodes[c].parent;
    var g := nodes[p].parent;
    var u := Sibling(nodes, g, p);
    var tl := nodes[p].left != c;
    assert LinkAt(nodes, root, elems, NIL, c) by { assert ShapeAt(nodes, root, elems, sub, NIL, c); }
    assert p != root;
    assert LinkAt(nodes, root, elems, NIL, p) by { assert ShapeAt(nodes, root, elems, sub, NIL, p); }
    assert LinkAt(nodes, root, elems, NIL, g) by { assert ShapeAt(nodes, root, elems, sub, NIL, g); }
    if tl {
      assert nodes[p].right == c && nodes[g].left != p;
    } else {
      assert nodes[g].right != p;
    }
    assert Link(nodes[g], !tl) == p && Link(nodes[g], tl) == u;
    RotateFacts(nodes, root, elems, sub, NIL, g, tl);
    assert RedAt(nodes, elems, c, g) && nodes[g].color == Black;
    assert p in bh && g in bh && c in bh;
  }

  /**
   * The parent is red, the uncle black and `c` the outer grandchild:
   * rotating at the grandparent, with the parent painted black and the
   * grandparent red, settles the tree.
   */
  lemma FixOuter<K(!new), V>(nodes: seq<RBNode<K, V>>, root: int, elems: set<int>, sub: map<int, set<int>>, bh: map<int, int>, cmp: (K, K) -> int, c: int,
                             nodes': seq<RBNode<K, V>>, root': int)
    requires FixInv(nodes, root, elems, sub, bh, cmp, c)
    requires var p := nodes[c].parent; p != NIL && 0 <= p < |nodes| && nodes[p].color == Red
    requires var p := nodes[c].parent; var g := nodes[p].parent; 0 <= g < |nodes|
    requires var p := nodes[c].parent; var g := nodes[p].parent; var u := Sibling(nodes, g, p);
      && !(u != NIL && 0 <= u < |nodes| && nodes[u].color == Red) && !Inner(nodes, c)
      && Rotated(nodes, root, nodes', root', g, nodes[p].left != c)
      && nodes'[p].color == Black && nodes'[g].color == Red
    ensures var p := nodes[c].parent; var g := nodes[p].parent;
      && g in sub && p in bh && g in bh && 0 <= Link(nodes[g], !(nodes[p].left != c)) < |nodes|
      && RBTree(nodes', root', elems, RotSub(nodes, elems, sub, g, nodes[p].left != c), bh[g := bh[p]][p := bh[g]], cmp)
  {
    var p := nodes[c].parent;
    var g := nodes[p].parent;
    var tl := nodes[p].left != c;
    OuterSetup(nodes, root, elems, sub, bh, c, nodes', root');
    RotateShape(nodes, root, elems, sub, NIL, nodes', root', g, tl);
    RotateOrdered(nodes, root, elems, sub, NIL, cmp, nodes', root', g, tl);
    RotatedPayload(nodes, root, nodes', root', g, tl);
    PayloadDistinct(nodes, elems, nodes');
    ShapeLinks(nodes, root, elems, sub, NIL);
    OuterColors(nodes, root, elems, sub, bh, c, nodes', root', g, tl);
    assert root' != root ==> root' == p;
    assert root' == root ==> nodes'[root].color == nodes[root].color;
  }
}
