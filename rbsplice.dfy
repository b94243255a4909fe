/**
 * Cutting a node with at most one child out of the tree (`removeone`). The
 * parent takes over the child; when the node is a black leaf, a fresh black
 * placeholder takes its place instead, and the repair loop of deletion
 * starts from it. Once the loop is done the placeholder is unlinked again.
 */
module RBSplice {
  import opened RBNodes
  import opened RBRotate
  import opened RBInsert
  import opened RBRemove

  /** The child of a node with at most one child (nil when it has none): the left one first, as `removeone` picks it. */
  function OnlyChild<K, V>(n: RBNode<K, V>): int {
    if n.left != NIL then n.left else n.right
  }

  /** The subtree sets once `a` has left the tree. */
  ghost function RemoveSub(sub: map<int, set<int>>, a: int): map<int, set<int>> {
    map i | i in sub && i != a :: sub[i] - {a}
  }

  /** `nodes'` is `nodes` with `a` cut out below `P`: `P` links `c` where it linked `a`, and `c` hangs from `P` (its colour aside). */
  ghost predicate Spliced<K, V>(nodes: seq<RBNode<K, V>>, nodes': seq<RBNode<K, V>>, a: int, c: int, P: int) {
    && |nodes'| == |nodes| && 0 <= P < |nodes|
    && nodes'[P] == Redirect(nodes[P], a, c)
    && (c != NIL ==> 0 <= c < |nodes| && nodes'[c] == nodes[c].(parent := P, color := nodes'[c].color))
    && (forall k :: 0 <= k < |nodes| && k != P && k != c ==> nodes'[k] == nodes[k])
  }

  /**
   * The neighbourhood of the splice as plain link facts: `a` a tree node
   * below `P` with at most one child; `c` is that child, or, when `ph` is
   * set, `a` is a leaf and `c` is the placeholder `ph`, a black leaf slot
   * outside the tree.
   */
  ghost predicate SpliceNeighbours<K, V>(nodes: seq<RBNode<K, V>>, root: int, elems: set<int>, ph: int, a: int, c: int, P: int) {
    && 0 <= a < |nodes| && 0 <= P < |nodes| && NIL !in elems && a in elems && P in elems
    && nodes[a].parent == P && P != a && a != root && (nodes[P].left == a || nodes[P].right == a)
    && LinkAt(nodes, root, elems, NIL, P) && LinkAt(nodes, root, elems, NIL, a)
    && c != a && c != P && nodes[P].parent != a
    && (nodes[a].left == NIL || nodes[a].right == NIL)
    && (ph == NIL ==> c == OnlyChild(nodes[a]) && (c != NIL ==> c in elems && LinkAt(nodes, root, elems, NIL, c)))
    && (ph == NIL && c != NIL ==> nodes[c].parent == a && nodes[c].left != P && nodes[c].right != P)
    && (ph != NIL ==>
          && c == ph && 0 <= ph < |nodes| && ph !in elems
          && nodes[a].left == NIL && nodes[a].right == NIL
          && nodes[ph].left == NIL && nodes[ph].right == NIL && nodes[ph].color == Black)
  }

  /** What `removeone` starts from below a parent: a tree, `a` with at most one child, and the placeholder when `a` is a leaf to be replaced by it. */
  ghost predicate SplicePoint<K, V>(nodes: seq<RBNode<K, V>>, root: int, elems: set<int>, sub: map<int, set<int>>, ph: int, a: int, c: int) {
    && Shape(nodes, root, elems, sub, NIL)
    && a in elems && 0 <= a < |nodes| && nodes[a].parent != NIL
    && (nodes[a].left == NIL || nodes[a].right == NIL)
    && (ph == NIL ==> c == OnlyChild(nodes[a]))
    && (ph != NIL ==>
          && c == ph && 0 <= ph < |nodes| && ph !in elems
          && nodes[a].left == NIL && nodes[a].right == NIL
          && nodes[ph].left == NIL && nodes[ph].right == NIL && nodes[ph].color == Black)
  }

  /** The neighbourhood of the splice and the subtree sets around it, read off the tree. */
  lemma SpliceFacts<K, V>(nodes: seq<RBNode<K, V>>, root: int, elems: set<int>, sub: map<int, set<int>>, ph: int, a: int, c: int)
    requires SplicePoint(nodes, root, elems, sub, ph, a, c)
    ensures SpliceNeighbours(nodes, root, elems, ph, a, c, nodes[a].parent)
    ensures var P := nodes[a].parent;
      && a in sub && P in sub && a in sub[P] && sub[a] == {a} + SubOf(elems, sub, c) && a !in SubOf(elems, sub, c)
      && SubAt(nodes, elems, sub, P)
  {
    var P := nodes[a].parent;
    assert ShapeAt(nodes, root, elems, sub, NIL, a);
    assert P in elems;
    assert ShapeAt(nodes, root, elems, sub, NIL, P);
    AncestorNotBelow(nodes, root, elems, sub, P, a);
    if c != NIL && c != ph {
      assert ShapeAt(nodes, root, elems, sub, NIL, c);
      assert SubOf(elems, sub, nodes[c].left) <= sub[a] && SubOf(elems, sub, nodes[c].right) <= sub[a];
    }
    if nodes[P].parent == a {
      assert false;
    }
  }
  /** Every remaining tree node keeps consistent links across the splice. */
  lemma SpliceLinkAt<K, V>(nodes: seq<RBNode<K, V>>, root: int, elems: set<int>, ph: int, a: int, c: int, P: int,
                           nodes': seq<RBNode<K, V>>, i: int)
    requires SpliceNeighbours(nodes, root, elems, ph, a, c, P) && Spliced(nodes, nodes', a, c, P)
    requires i in elems && i != a && LinkAt(nodes, root, elems, NIL, i)
    ensures LinkAt(nodes', root, elems - {a}, ph, i)
  {
    var n := nodes[i];
    if i == P {
      SpliceLinkParent(nodes, root, elems, ph, a, c, P, nodes');
    } else if i == c {
    } else {
      assert n.left != a && n.right != a;
      assert n.parent != a;
    }
  }

  /** The parent now links the child where it linked `a`. */
  lemma SpliceLinkParent<K, V>(nodes: seq<RBNode<K, V>>, root: int, elems: set<int>, ph: int, a: int, c: int, P: int,
                               nodes': seq<RBNode<K, V>>)
    requires SpliceNeighbours(nodes, root, elems, ph, a, c, P) && Spliced(nodes, nodes', a, c, P)
    ensures LinkAt(nodes', root, elems - {a}, ph, P)
  {
    var n := nodes[P];
  }
  /** Behind any link but `a`, the subtree set loses `a` and nothing else. */
  lemma RemoveSubOf(elems: set<int>, sub: map<int, set<int>>, a: int, x: int)
    requires x != a
    ensures SubOf(elems - {a}, RemoveSub(sub, a), x) == SubOf(elems, sub, x) - {a}
  {
  }

  /** Every remaining tree node keeps its subtree split, with `a` gone from it. */
  lemma SpliceSubAt<K, V>(nodes: seq<RBNode<K, V>>, root: int, elems: set<int>, sub: map<int, set<int>>, ph: int, a: int, c: int, P: int,
                          nodes': seq<RBNode<K, V>>, i: int)
    requires SpliceNeighbours(nodes, root, elems, ph, a, c, P) && Spliced(nodes, nodes', a, c, P)
    requires a in sub && sub[a] == {a} + SubOf(elems, sub, c) && a !in SubOf(elems, sub, c)
    requires i in elems && i != a && SubAt(nodes, elems, sub, i) && LinkAt(nodes, root, elems, NIL, i)
    ensures SubAt(nodes', elems - {a}, RemoveSub(sub, a), i)
  {
    var n, n' := nodes[i], nodes'[i];
    assert n'.left != a && n'.right != a;
    RemoveSubOf(elems, sub, a, n'.left);
    RemoveSubOf(elems, sub, a, n'.right);
    if i == P {
      assert SubOf(elems, sub, a) - {a} == SubOf(elems, sub, c);
    } else {
      assert n'.left == n.left && n'.right == n.right;
    }
  }

  /** The splice leaves a binary tree over the other nodes, in which the placeholder, when set, hangs from `P`. */
  lemma SpliceShape<K, V>(nodes: seq<RBNode<K, V>>, root: int, elems: set<int>, sub: map<int, set<int>>, ph: int, a: int, c: int,
                          nodes': seq<RBNode<K, V>>)
    requires SplicePoint(nodes, root, elems, sub, ph, a, c) && Spliced(nodes, nodes', a, c, nodes[a].parent)
    requires ph != NIL ==> nodes'[ph].color == Black
    ensures Shape(nodes', root, elems - {a}, RemoveSub(sub, a), ph)
  {
    var P := nodes[a].parent;
    SpliceFacts(nodes, root, elems, sub, ph, a, c);
    forall i | i in elems - {a} ensures ShapeAt(nodes', root, elems - {a}, RemoveSub(sub, a), ph, i) {
      assert ShapeAt(nodes, root, elems, sub, NIL, i);
      SpliceLinkAt(nodes, root, elems, ph, a, c, P, nodes', i);
      SpliceSubAt(nodes, root, elems, sub, ph, a, c, P, nodes', i);
    }
    if ph != NIL {
      forall i | i in elems - {a} && 0 <= i < |nodes'| && i != P ensures nodes'[i].left != ph && nodes'[i].right != ph {
        assert LinkAt(nodes, root, elems, NIL, i) by { assert ShapeAt(nodes, root, elems, sub, NIL, i); }
      }
    }
  }
  /** The splice keeps every key and value. */
  lemma SplicePayload<K, V>(nodes: seq<RBNode<K, V>>, nodes': seq<RBNode<K, V>>, a: int, c: int, P: int)
    requires Spliced(nodes, nodes', a, c, P)
    ensures SamePayload(nodes, nodes')
  {
  }

  /**
   * Cutting out `a` restores the search order: `a` was the one node exempt
   * from it, and every other node sees the same keys on each side, less `a`.
   */
  lemma SpliceOrdered<K, V>(nodes: seq<RBNode<K, V>>, root: int, elems: set<int>, sub: map<int, set<int>>, ph: int, cmp: (K, K) -> int,
                            a: int, c: int, nodes': seq<RBNode<K, V>>)
    requires SplicePoint(nodes, root, elems, sub, ph, a, c) && Spliced(nodes, nodes', a, c, nodes[a].parent)
    requires Ordered(nodes, elems, sub, cmp, a)
    ensures Ordered(nodes', elems - {a}, RemoveSub(sub, a), cmp, NIL)
  {
    var P := nodes[a].parent;
    SpliceFacts(nodes, root, elems, sub, ph, a, c);
    SplicePayload(nodes, nodes', a, c, P);
    forall i | i in elems - {a} ensures OrderedAt(nodes', elems - {a}, RemoveSub(sub, a), cmp, NIL, i) {
      assert OrderedAt(nodes, elems, sub, cmp, a, i);
      assert LinkAt(nodes, root, elems, NIL, i) by { assert ShapeAt(nodes, root, elems, sub, NIL, i); }
      SpliceSidesShrink(nodes, root, elems, sub, ph, a, c, P, nodes', i);
      forall j | j in SubOf(elems - {a}, RemoveSub(sub, a), nodes'[i].left) ensures Lt(nodes', cmp, j, i) {
        assert Lt(nodes, cmp, j, i);
      }
      forall j | j in SubOf(elems - {a}, RemoveSub(sub, a), nodes'[i].right) ensures Lt(nodes', cmp, i, j) {
        assert Lt(nodes, cmp, i, j);
      }
    }
  }

  /** What a remaining node sees on each side after the splice it saw before, less `a`. */
  lemma SpliceSidesShrink<K, V>(nodes: seq<RBNode<K, V>>, root: int, elems: set<int>, sub: map<int, set<int>>, ph: int, a: int, c: int, P: int,
                                nodes': seq<RBNode<K, V>>, i: int)
    requires SpliceNeighbours(nodes, root, elems, ph, a, c, P) && Spliced(nodes, nodes', a, c, P)
    requires a in sub && sub[a] == {a} + SubOf(elems, sub, c)
    requires i in elems && i != a && LinkAt(nodes, root, elems, NIL, i)
    ensures SubOf(elems - {a}, RemoveSub(sub, a), nodes'[i].left) <= SubOf(elems, sub, nodes[i].left) - {a}
    ensures SubOf(elems - {a}, RemoveSub(sub, a), nodes'[i].right) <= SubOf(elems, sub, nodes[i].right) - {a}
  {
    var n, n' := nodes[i], nodes'[i];
    assert n'.left != a && n'.right != a;
    RemoveSubOf(elems, sub, a, n'.left);
    RemoveSubOf(elems, sub, a, n'.right);
    if i != P {
      assert n'.left == n.left && n'.right == n.right;
    }
  }

  /** The remaining nodes keep distinct keys. */
  lemma SpliceDistinct<K, V>(nodes: seq<RBNode<K, V>>, elems: set<int>, a: int, c: int, P: int, nodes': seq<RBNode<K, V>>)
    requires Spliced(nodes, nodes', a, c, P) && Distinct(nodes, elems)
    ensures Distinct(nodes', elems - {a})
  {
    SplicePayload(nodes, nodes', a, c, P);
    PayloadDistinct(nodes, elems, nodes');
  }

  /** A search order with no exemption holds with any. */
  lemma OrderedExempt<K, V>(nodes: seq<RBNode<K, V>>, root: int, elems: set<int>, sub: map<int, set<int>>, cmp: (K, K) -> int, ex: int)
    requires Shape(nodes, root, elems, sub, NIL) && Ordered(nodes, elems, sub, cmp, NIL)
    ensures Ordered(nodes, elems, sub, cmp, ex)
  {
    assert NIL in elems ==> ShapeAt(nodes, root, elems, sub, NIL, NIL);
    forall i | i in elems ensures OrderedAt(nodes, elems, sub, cmp, ex, i) {
      assert OrderedAt(nodes, elems, sub, cmp, NIL, i);
      assert ShapeAt(nodes, root, elems, sub, NIL, i);
    }
  }
  /**
   * In a balanced tree without red-red links, a node with one child is
   * black and its child a red leaf; a node with none has black height 1 if
   * black and 0 if red.
   */
  lemma LoneChild<K, V>(nodes: seq<RBNode<K, V>>, root: int, elems: set<int>, sub: map<int, set<int>>, bh: map<int, int>, a: int)
    requires Shape(nodes, root, elems, sub, NIL) && Balanced(nodes, elems, bh, NIL, NIL) && NoRedRed(nodes, elems, NIL)
    requires a in elems && (nodes[a].left == NIL || nodes[a].right == NIL)
    ensures var c := OnlyChild(nodes[a]);
      && a in bh
      && (c == NIL ==> bh[a] == Blk(nodes[a]))
      && (c != NIL ==>
            && c in elems && c in bh && 0 <= c < |nodes| && nodes[a].color == Black && bh[a] == 1
            && nodes[c].color == Red && bh[c] == 0 && nodes[c].left == NIL && nodes[c].right == NIL)
  {
    var c := OnlyChild(nodes[a]);
    assert ShapeAt(nodes, root, elems, sub, NIL, a) && BlackAt(nodes, elems, bh, NIL, NIL, a) && RedAt(nodes, elems, NIL, a);
    if c != NIL {
      var n := nodes[c];
      assert ShapeAt(nodes, root, elems, sub, NIL, c) && BlackAt(nodes, elems, bh, NIL, NIL, c) && RedAt(nodes, elems, NIL, c);
      assert n.left in elems ==> BlackAt(nodes, elems, bh, NIL, NIL, n.left);
      assert n.right in elems ==> BlackAt(nodes, elems, bh, NIL, NIL, n.right);
    }
  }

  /** A node away from the splice keeps its colour conditions, whether or not `c` gains a black. */
  lemma SpliceColorsAway<K, V>(nodes: seq<RBNode<K, V>>, root: int, elems: set<int>, bh: map<int, int>, ph: int, a: int, c: int, P: int,
                               nodes': seq<RBNode<K, V>>, bh': map<int, int>, dn': int, dp': int, i: int)
    requires SpliceNeighbours(nodes, root, elems, ph, a, c, P) && Spliced(nodes, nodes', a, c, P)
    requires bh' == bh || (c in bh && bh' == bh[c := bh[c] + 1])
    requires i in elems && i != a && i != P && i != c && i != dp' && LinkAt(nodes, root, elems, NIL, i)
    requires BlackAt(nodes, elems, bh, NIL, NIL, i) && RedAt(nodes, elems, NIL, i)
    ensures BlackAt(nodes', elems - {a}, bh', dn', dp', i) && RedAt(nodes', elems - {a}, NIL, i)
  {
    var n := nodes[i];
    assert n.left != a && n.right != a && (c != NIL ==> n.left != c && n.right != c);
    assert nodes'[i] == n;
    assert n.left == P || n.right == P ==> nodes'[P].color == nodes[P].color;
  }
  /**
   * The three ways `removeone` splices below a parent: a red leaf goes
   * (`bh` unchanged); a black node's red child takes its place and turns
   * black (one black more for that child); a black leaf makes way for the
   * black placeholder, which leaves the deficit of one black at `ph` below `P`.
   */
  ghost predicate SpliceCase<K, V>(nodes: seq<RBNode<K, V>>, elems: set<int>, bh: map<int, int>, ph: int, a: int, c: int, P: int,
                                   nodes': seq<RBNode<K, V>>, bh': map<int, int>, dn': int, dp': int) {
    && 0 <= a < |nodes| && |nodes'| == |nodes|
    && (|| (ph == NIL && nodes[a].color == Red && bh' == bh && dn' == NIL && dp' == NIL)
        || (ph == NIL && c != NIL && c in bh && 0 <= c < |nodes| && bh' == bh[c := bh[c] + 1] && nodes'[c].color == Black && dn' == NIL && dp' == NIL)
        || (ph != NIL && 0 <= ph < |nodes| && nodes[a].color == Black && bh' == bh && dn' == ph && dp' == P && nodes'[ph].color == Black))
  }

  /** The parent of `a` meets the colour conditions after the splice. */
  lemma SpliceColorsParent<K, V>(nodes: seq<RBNode<K, V>>, root: int, elems: set<int>, bh: map<int, int>, ph: int, a: int, c: int, P: int,
                                 nodes': seq<RBNode<K, V>>, bh': map<int, int>, dn': int, dp': int)
    requires SpliceNeighbours(nodes, root, elems, ph, a, c, P) && Spliced(nodes, nodes', a, c, P)
    requires SpliceCase(nodes, elems, bh, ph, a, c, P, nodes', bh', dn', dp')
    requires BlackAt(nodes, elems, bh, NIL, NIL, P) && RedAt(nodes, elems, NIL, P)
    requires a in bh && (c == NIL || c == ph ==> bh[a] == Blk(nodes[a]))
    requires c != NIL && c != ph ==> c in bh && bh[c] == 0 && bh[a] == 1 && nodes[a].color == Black
    ensures BlackAt(nodes', elems - {a}, bh', dn', dp', P) && RedAt(nodes', elems - {a}, NIL, P)
  {
    var n := nodes[P];
    var d := if n.left == a then n.right else n.left;
    assert d != a && d != P && (d != NIL ==> d != c);
    assert d in elems ==> nodes'[d] == nodes[d];
    assert BH(elems - {a}, bh', d) == BH(elems, bh, d);
  }

  /** Every remaining node meets the colour conditions after the splice, and the root stays black. */
  lemma SpliceColors<K, V>(nodes: seq<RBNode<K, V>>, root: int, elems: set<int>, sub: map<int, set<int>>, bh: map<int, int>, ph: int, a: int, c: int,
                           nodes': seq<RBNode<K, V>>, bh': map<int, int>, dn': int, dp': int)
    requires SplicePoint(nodes, root, elems, sub, ph, a, c) && Spliced(nodes, nodes', a, c, nodes[a].parent)
    requires Balanced(nodes, elems, bh, NIL, NIL) && NoRedRed(nodes, elems, NIL) && RootBlack(nodes, root)
    requires SpliceCase(nodes, elems, bh, ph, a, c, nodes[a].parent, nodes', bh', dn', dp')
    ensures Balanced(nodes', elems - {a}, bh', dn', dp') && NoRedRed(nodes', elems - {a}, NIL) && RootBlack(nodes', root)
  {
    var P := nodes[a].parent;
    SpliceFacts(nodes, root, elems, sub, ph, a, c);
    LoneChild(nodes, root, elems, sub, bh, a);
    forall i | i in elems - {a} ensures BlackAt(nodes', elems - {a}, bh', dn', dp', i) && RedAt(nodes', elems - {a}, NIL, i) {
      assert ShapeAt(nodes, root, elems, sub, NIL, i) && BlackAt(nodes, elems, bh, NIL, NIL, i) && RedAt(nodes, elems, NIL, i);
      if i == P {
        SpliceColorsParent(nodes, root, elems, bh, ph, a, c, P, nodes', bh', dn', dp');
      } else if i == c {
        assert nodes'[c].left == NIL && nodes'[c].right == NIL;
      } else {
        SpliceColorsAway(nodes, root, elems, bh, ph, a, c, P, nodes', bh', dn', dp', i);
      }
    }
    assert root != c && root != a;
  }
  // ---------------------------------------------------------------------------
  // The cases of `removeone`
  // ---------------------------------------------------------------------------

  /** What `removeone` starts from: a red-black tree in which only `a` may be out of key order, `a` having at most one child. */
  ghost predicate RemovePoint<K(!new), V>(nodes: seq<RBNode<K, V>>, root: int, elems: set<int>, sub: map<int, set<int>>, bh: map<int, int>, cmp: (K, K) -> int,
                                          a: int) {
    && TotalOrder(cmp)
    && Shape(nodes, root, elems, sub, NIL)
    && Ordered(nodes, elems, sub, cmp, a)
    && Distinct(nodes, elems)
    && Balanced(nodes, elems, bh, NIL, NIL)
    && NoRedRed(nodes, elems, NIL)
    && RootBlack(nodes, root)
    && a in elems && 0 <= a < |nodes| && (nodes[a].left == NIL || nodes[a].right == NIL)
  }

  /** A red node below a parent is a leaf, and simply goes. */
  lemma RemoveRed<K(!new), V>(nodes: seq<RBNode<K, V>>, root: int, elems: set<int>, sub: map<int, set<int>>, bh: map<int, int>, cmp: (K, K) -> int,
                              a: int, nodes': seq<RBNode<K, V>>)
    requires RemovePoint(nodes, root, elems, sub, bh, cmp, a) && nodes[a].parent != NIL && nodes[a].color == Red
    requires var P := nodes[a].parent; 0 <= P < |nodes| && nodes' == nodes[P := Redirect(nodes[P], a, OnlyChild(nodes[a]))]
    ensures OnlyChild(nodes[a]) == NIL
    ensures RBTree(nodes', root, elems - {a}, RemoveSub(sub, a), bh, cmp)
  {
    LoneChild(nodes, root, elems, sub, bh, a);
    SpliceShape(nodes, root, elems, sub, NIL, a, NIL, nodes');
    SpliceOrdered(nodes, root, elems, sub, NIL, cmp, a, NIL, nodes');
    SpliceDistinct(nodes, elems, a, NIL, nodes[a].parent, nodes');
    SpliceColors(nodes, root, elems, sub, bh, NIL, a, NIL, nodes', bh, NIL, NIL);
  }

  /** A black node with a child: the child, a red leaf, takes its place and turns black. */
  lemma RemoveBlackWithChild<K(!new), V>(nodes: seq<RBNode<K, V>>, root: int, elems: set<int>, sub: map<int, set<int>>, bh: map<int, int>, cmp: (K, K) -> int,
                                         a: int, nodes': seq<RBNode<K, V>>)
    requires RemovePoint(nodes, root, elems, sub, bh, cmp, a) && nodes[a].parent != NIL && OnlyChild(nodes[a]) != NIL
    requires var P, c := nodes[a].parent, OnlyChild(nodes[a]);
      && 0 <= P < |nodes| && 0 <= c < |nodes|
      && nodes' == nodes[P := Redirect(nodes[P], a, c)][c := nodes[c].(parent := P, color := Black)]
    ensures var c := OnlyChild(nodes[a]);
      && nodes[a].color == Black && nodes[c].color == Red && c in bh
      && RBTree(nodes', root, elems - {a}, RemoveSub(sub, a), bh[c := bh[c] + 1], cmp)
  {
    var P, c := nodes[a].parent, OnlyChild(nodes[a]);
    LoneChild(nodes, root, elems, sub, bh, a);
    SpliceFacts(nodes, root, elems, sub, NIL, a, c);
    SpliceShape(nodes, root, elems, sub, NIL, a, c, nodes');
    SpliceOrdered(nodes, root, elems, sub, NIL, cmp, a, c, nodes');
    SpliceDistinct(nodes, elems, a, c, P, nodes');
    SpliceColors(nodes, root, elems, sub, bh, NIL, a, c, nodes', bh[c := bh[c] + 1], NIL, NIL);
  }

  /** The slot `removeone` hangs where a black leaf was: black, childless, with the leaf's key and value. */
  function Placeholder<K, V>(n: RBNode<K, V>): (r: RBNode<K, V>)
    ensures r.color == Black && r.left == NIL && r.right == NIL && r.parent == NIL && r.valid
    ensures r.key == n.key && r.value == n.value
  {
    RBNode(n.key, n.value, NIL, NIL, NIL, Black, true)
  }

  /** A new slot at the end of the arena changes nothing about the tree. */
  lemma AppendKeep<K(!new), V>(nodes: seq<RBNode<K, V>>, root: int, elems: set<int>, sub: map<int, set<int>>, bh: map<int, int>, cmp: (K, K) -> int,
                               a: int, x: RBNode<K, V>)
    requires RemovePoint(nodes, root, elems, sub, bh, cmp, a)
    ensures RemovePoint(nodes + [x], root, elems, sub, bh, cmp, a) && |nodes| !in elems
  {
    forall i | i in elems
      ensures ShapeAt(nodes + [x], root, elems, sub, NIL, i) && OrderedAt(nodes + [x], elems, sub, cmp, a, i)
      ensures BlackAt(nodes + [x], elems, bh, NIL, NIL, i) && RedAt(nodes + [x], elems, NIL, i)
    {
      assert OrderedAt(nodes, elems, sub, cmp, a, i) && BlackAt(nodes, elems, bh, NIL, NIL, i) && RedAt(nodes, elems, NIL, i);
      AppendKeepAt(nodes, root, elems, sub, bh, cmp, a, x, i);
    }
    assert |nodes| in elems ==> ShapeAt(nodes, root, elems, sub, NIL, |nodes|);
  }

  lemma AppendKeepAt<K(!new), V>(nodes: seq<RBNode<K, V>>, root: int, elems: set<int>, sub: map<int, set<int>>, bh: map<int, int>, cmp: (K, K) -> int,
                                 a: int, x: RBNode<K, V>, i: int)
    requires Shape(nodes, root, elems, sub, NIL) && i in elems
    requires OrderedAt(nodes, elems, sub, cmp, a, i) && BlackAt(nodes, elems, bh, NIL, NIL, i) && RedAt(nodes, elems, NIL, i)
    ensures ShapeAt(nodes + [x], root, elems, sub, NIL, i) && OrderedAt(nodes + [x], elems, sub, cmp, a, i)
    ensures BlackAt(nodes + [x], elems, bh, NIL, NIL, i) && RedAt(nodes + [x], elems, NIL, i)
  {
    var nodes1 := nodes + [x];
    assert ShapeAt(nodes, root, elems, sub, NIL, i);
    var n := nodes[i];
    assert nodes1[i] == n;
    assert n.left in elems ==> ShapeAt(nodes, root, elems, sub, NIL, n.left) && nodes1[n.left] == nodes[n.left];
    assert n.right in elems ==> ShapeAt(nodes, root, elems, sub, NIL, n.right) && nodes1[n.right] == nodes[n.right];
    assert n.parent in elems ==> nodes1[n.parent] == nodes[n.parent];
    assert forall j :: j in elems ==> 0 <= j < |nodes|;
  }

  /**
   * A black leaf below a parent: the placeholder takes its place, and the
   * repair loop starts with the deficit at the placeholder.
   */
  lemma RemoveBlackLeaf<K(!new), V>(nodes: seq<RBNode<K, V>>, root: int, elems: set<int>, sub: map<int, set<int>>, bh: map<int, int>, cmp: (K, K) -> int,
                                    a: int, nodes': seq<RBNode<K, V>>)
    requires RemovePoint(nodes, root, elems, sub, bh, cmp, a) && nodes[a].parent != NIL
    requires nodes[a].color == Black && OnlyChild(nodes[a]) == NIL
    requires var P, ph := nodes[a].parent, |nodes|;
      && 0 <= P < |nodes|
      && nodes' == (nodes + [Placeholder(nodes[a])])[P := Redirect(nodes[P], a, ph)][ph := Placeholder(nodes[a]).(parent := P)]
    ensures |nodes| !in elems && |nodes'| == |nodes| + 1
    ensures DelInv(nodes', root, elems - {a}, RemoveSub(sub, a), bh, cmp, |nodes|, |nodes|, nodes[a].parent)
  {
    var P, ph := nodes[a].parent, |nodes|;
    var nodes1 := nodes + [Placeholder(nodes[a])];
    AppendKeep(nodes, root, elems, sub, bh, cmp, a, Placeholder(nodes[a]));
    assert nodes1[P] == nodes[P] && nodes1[a] == nodes[a];
    assert Spliced(nodes1, nodes', a, ph, P);
    SpliceShape(nodes1, root, elems, sub, ph, a, ph, nodes');
    SpliceOrdered(nodes1, root, elems, sub, ph, cmp, a, ph, nodes');
    SpliceDistinct(nodes1, elems, a, ph, P, nodes');
    SpliceColors(nodes1, root, elems, sub, bh, ph, a, ph, nodes', bh, ph, P);
  }
  /** The root without children: the tree becomes empty. */
  lemma RemoveRootLeaf<K(!new), V>(nodes: seq<RBNode<K, V>>, root: int, elems: set<int>, sub: map<int, set<int>>, bh: map<int, int>, cmp: (K, K) -> int,
                                   a: int)
    requires RemovePoint(nodes, root, elems, sub, bh, cmp, a) && nodes[a].parent == NIL && OnlyChild(nodes[a]) == NIL
    ensures a == root && nodes[a].color == Black && elems - {a} == {}
    ensures RBTree(nodes, NIL, elems - {a}, RemoveSub(sub, a), bh, cmp)
  {
    assert ShapeAt(nodes, root, elems, sub, NIL, a);
    assert sub[a] == {a};
  }

  /** The root with a child: the child, a red leaf, becomes the black root of a one-node tree. */
  lemma RemoveRootWithChild<K(!new), V>(nodes: seq<RBNode<K, V>>, root: int, elems: set<int>, sub: map<int, set<int>>, bh: map<int, int>, cmp: (K, K) -> int,
                                        a: int, nodes': seq<RBNode<K, V>>)
    requires RemovePoint(nodes, root, elems, sub, bh, cmp, a) && nodes[a].parent == NIL && OnlyChild(nodes[a]) != NIL
    requires var c := OnlyChild(nodes[a]); 0 <= c < |nodes| && nodes' == nodes[c := nodes[c].(color := Black, parent := NIL)]
    ensures var c := OnlyChild(nodes[a]); elems - {a} == {c} && RBTree(nodes', c, elems - {a}, RemoveSub(sub, a), bh[c := 1], cmp)
  {
    var c := OnlyChild(nodes[a]);
    LoneChild(nodes, root, elems, sub, bh, a);
    assert ShapeAt(nodes, root, elems, sub, NIL, a);
    assert ShapeAt(nodes, root, elems, sub, NIL, c);
    assert sub[c] == {c};
    assert elems - {a} == {c};
    var sub', bh' := RemoveSub(sub, a), bh[c := 1];
    assert ShapeAt(nodes', c, {c}, sub', NIL, c);
    assert OrderedAt(nodes', {c}, sub', cmp, NIL, c);
    assert BlackAt(nodes', {c}, bh', NIL, NIL, c);
    assert RedAt(nodes', {c}, NIL, c);
    assert Distinct(nodes', {c});
  }

  /** Once the repair loop is done, unlinking the placeholder leaves a red-black tree. */
  lemma UnlinkPlaceholder<K(!new), V>(nodes: seq<RBNode<K, V>>, root: int, elems: set<int>, sub: map<int, set<int>>, bh: map<int, int>, cmp: (K, K) -> int,
                                      ph: int, nodes': seq<RBNode<K, V>>)
    requires DelDone(nodes, root, elems, sub, bh, cmp, ph) && ph != NIL
    requires 0 <= ph < |nodes| && var h := nodes[ph].parent;
      0 <= h < |nodes| && nodes' == nodes[h := Redirect(nodes[h], ph, NIL)][ph := nodes[ph].(parent := NIL)]
    ensures RBTree(nodes', root, elems, sub, bh, cmp)
  {
    var h := nodes[ph].parent;
    forall i | i in elems
      ensures ShapeAt(nodes', root, elems, sub, NIL, i) && OrderedAt(nodes', elems, sub, cmp, NIL, i)
      ensures BlackAt(nodes', elems, bh, NIL, NIL, i) && RedAt(nodes', elems, NIL, i)
    {
      assert ShapeAt(nodes, root, elems, sub, ph, i) && OrderedAt(nodes, elems, sub, cmp, NIL, i);
      assert BlackAt(nodes, elems, bh, NIL, NIL, i) && RedAt(nodes, elems, NIL, i);
      UnlinkAt(nodes, root, elems, sub, bh, cmp, ph, nodes', i);
    }
    assert RootBlack(nodes, root);
  }

  lemma UnlinkAt<K(!new), V>(nodes: seq<RBNode<K, V>>, root: int, elems: set<int>, sub: map<int, set<int>>, bh: map<int, int>, cmp: (K, K) -> int,
                             ph: int, nodes': seq<RBNode<K, V>>, i: int)
    requires Shape(nodes, root, elems, sub, ph) && ph != NIL && i in elems
    requires 0 <= ph < |nodes| && var h := nodes[ph].parent;
      0 <= h < |nodes| && nodes' == nodes[h := Redirect(nodes[h], ph, NIL)][ph := nodes[ph].(parent := NIL)]
    requires ShapeAt(nodes, root, elems, sub, ph, i) && OrderedAt(nodes, elems, sub, cmp, NIL, i)
    requires BlackAt(nodes, elems, bh, NIL, NIL, i) && RedAt(nodes, elems, NIL, i)
    ensures ShapeAt(nodes', root, elems, sub, NIL, i) && OrderedAt(nodes', elems, sub, cmp, NIL, i)
    ensures BlackAt(nodes', elems, bh, NIL, NIL, i) && RedAt(nodes', elems, NIL, i)
  {
    var h := nodes[ph].parent;
    var n := nodes[i];
    assert nodes'[i] == if i == h then Redirect(n, ph, NIL) else n;
    assert n.parent != ph;
    assert n.parent != NIL ==> nodes'[n.parent].left == nodes[n.parent].left || nodes'[n.parent].left == NIL;
    assert n.left in elems ==> nodes'[n.left] == nodes[n.left] || n.left == h;
    assert n.right in elems ==> nodes'[n.right] == nodes[n.right] || n.right == h;
  }
}
