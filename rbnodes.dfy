/**
 * The node arena of the red-black tree and the invariants of the tree, stated
 * on values so that every lemma about them is a plain (one-state) lemma.
 *
 * A Go `*RBTnode` is an index into `nodes: seq<RBNode<K, V>>`; nil is `NIL`.
 * Ghost bookkeeping beside the arena:
 *   elems  the indices of the nodes currently in the tree,
 *   sub    for each of them, the set of indices of its subtree,
 *   bh     for each of them, the number of black nodes on every path from it
 *          (itself included) down to a nil child.
 * The in-order sequence of the tree is the enumeration of `elems` by ascending
 * key; `Ordered` makes the key order agree with the links.
 *
 * Some invariants carry a parameter that lets a fixup state what is broken
 * while it runs:
 *   ph  the black placeholder that deletion links in place of a removed black
 *       leaf; while linked it counts as a nil child,
 *   ex  the node swapped out of place by `swapnode`, exempt from key order,
 *   dn, dp  a child `dn` of `dp` that is one black short (the "double black"),
 *   xc  the one node that may be a red child of a red parent.
 * `NIL` for a parameter means "nothing is broken".
 */
module RBNodes {

  const NIL: int := -1

  datatype Color = Red | Black

  /** Go's RBTnode: the key/value pair, three links, a colour and the `valid` flag. */
  datatype RBNode<K, V> = RBNode(key: K, value: V, left: int, right: int, parent: int, color: Color, valid: bool)

  /**
   * What the tree demands of its comparator: zero exactly on equal keys, the
   * sign flips when the operands swap, and "less" is transitive.
   */
  ghost predicate TotalOrder<K(!new)>(cmp: (K, K) -> int) {
    && (forall a, b :: cmp(a, b) == 0 <==> a == b)
    && (forall a, b :: cmp(a, b) < 0 <==> cmp(b, a) > 0)
    && (forall a, b, c :: cmp(a, b) < 0 && cmp(b, c) < 0 ==> cmp(a, c) < 0)
  }

  /** The key of node `i` is below the key of node `j`. */
  ghost predicate Lt<K, V>(nodes: seq<RBNode<K, V>>, cmp: (K, K) -> int, i: int, j: int) {
    0 <= i < |nodes| && 0 <= j < |nodes| && cmp(nodes[i].key, nodes[j].key) < 0
  }

  /** The index set of the subtree hanging from link `c` (empty for nil or the placeholder). */
  ghost function SubOf(elems: set<int>, sub: map<int, set<int>>, c: int): set<int> {
    if c in elems && c in sub then sub[c] else {}
  }

  /** Link `c` of node `i` is nil, the placeholder, or a tree node whose parent link is `i`. */
  ghost predicate ChildOK<K, V>(nodes: seq<RBNode<K, V>>, elems: set<int>, ph: int, i: int, c: int) {
    c == NIL || c == ph || (c in elems && 0 <= c < |nodes| && nodes[c].parent == i)
  }

  /** The links of tree node `i`: its children point back at it, and it hangs from its parent (or is the root). */
  ghost predicate LinkAt<K, V>(nodes: seq<RBNode<K, V>>, root: int, elems: set<int>, ph: int, i: int) {
    && 0 <= i < |nodes|
    && var n := nodes[i];
    && n.valid
    && ChildOK(nodes, elems, ph, i, n.left)
    && ChildOK(nodes, elems, ph, i, n.right)
    && (n.left == n.right ==> n.left == NIL)
    && (n.parent == NIL <==> i == root)
    && (n.parent != NIL ==> n.parent in elems && 0 <= n.parent < |nodes| &&
                            (nodes[n.parent].left == i || nodes[n.parent].right == i))
  }

  /** The subtree set of `i` is its own index between the disjoint subtree sets of its children `l` and `r`. */
  ghost predicate SubSplit(elems: set<int>, sub: map<int, set<int>>, i: int, l: int, r: int) {
    var L, R := SubOf(elems, sub, l), SubOf(elems, sub, r);
    && i in sub && sub[i] == L + {i} + R
    && i !in L && i !in R && L !! R && sub[i] <= elems
  }

  ghost predicate SubAt<K, V>(nodes: seq<RBNode<K, V>>, elems: set<int>, sub: map<int, set<int>>, i: int) {
    0 <= i < |nodes| && SubSplit(elems, sub, i, nodes[i].left, nodes[i].right)
  }

  /** The links and the subtree set of tree node `i`. */
  ghost predicate ShapeAt<K, V>(nodes: seq<RBNode<K, V>>, root: int, elems: set<int>, sub: map<int, set<int>>, ph: int, i: int) {
    LinkAt(nodes, root, elems, ph, i) && SubAt(nodes, elems, sub, i)
  }

  /** The link conditions of every tree node, without the subtree sets. */
  ghost predicate AllLinks<K, V>(nodes: seq<RBNode<K, V>>, root: int, elems: set<int>, ph: int) {
    forall i {:trigger LinkAt(nodes, root, elems, ph, i)} :: i in elems ==> LinkAt(nodes, root, elems, ph, i)
  }

  /** The placeholder, when there is one, is a black childless slot outside the tree hanging from exactly one link. */
  ghost predicate PlaceholderOK<K, V>(nodes: seq<RBNode<K, V>>, elems: set<int>, ph: int) {
    ph == NIL ||
    (&& 0 <= ph < |nodes| && ph !in elems
     && nodes[ph].color == Black && nodes[ph].left == NIL && nodes[ph].right == NIL
     && var h := nodes[ph].parent;
     && h in elems && 0 <= h < |nodes| && (nodes[h].left == ph || nodes[h].right == ph)
     && (forall i :: i in elems && 0 <= i < |nodes| && i != h ==> nodes[i].left != ph && nodes[i].right != ph))
  }

  /** The tree is a binary tree rooted at `root` whose parent links mirror its child links. */
  ghost predicate Shape<K, V>(nodes: seq<RBNode<K, V>>, root: int, elems: set<int>, sub: map<int, set<int>>, ph: int) {
    && (forall i :: i in elems ==> 0 <= i < |nodes| && i in sub)
    && (forall i {:trigger ShapeAt(nodes, root, elems, sub, ph, i)} :: i in elems ==> ShapeAt(nodes, root, elems, sub, ph, i))
    && (root == NIL <==> elems == {})
    && (root != NIL ==> root in elems && root in sub && sub[root] == elems)
    && PlaceholderOK(nodes, elems, ph)
  }

  /** Keys in the left subtree of `i` are below its key, keys in the right subtree above (pairs with `ex` aside). */
  ghost predicate OrderedAt<K, V>(nodes: seq<RBNode<K, V>>, elems: set<int>, sub: map<int, set<int>>, cmp: (K, K) -> int, ex: int, i: int) {
    0 <= i < |nodes| &&
    (i != ex ==>
      && (forall j :: j in SubOf(elems, sub, nodes[i].left) && j != ex ==> Lt(nodes, cmp, j, i))
      && (forall j :: j in SubOf(elems, sub, nodes[i].right) && j != ex ==> Lt(nodes, cmp, i, j)))
  }

  ghost predicate Ordered<K, V>(nodes: seq<RBNode<K, V>>, elems: set<int>, sub: map<int, set<int>>, cmp: (K, K) -> int, ex: int) {
    forall i {:trigger OrderedAt(nodes, elems, sub, cmp, ex, i)} :: i in elems ==> OrderedAt(nodes, elems, sub, cmp, ex, i)
  }

  /** No two tree nodes hold the same key. */
  ghost predicate Distinct<K, V>(nodes: seq<RBNode<K, V>>, elems: set<int>) {
    forall i, j :: i in elems && j in elems && i != j && 0 <= i < |nodes| && 0 <= j < |nodes| ==> nodes[i].key != nodes[j].key
  }

  /** The black height of link `c`: 0 for nil and the placeholder. */
  ghost function BH(elems: set<int>, bh: map<int, int>, c: int): int {
    if c in elems && c in bh then bh[c] else 0
  }

  function Blk<K, V>(n: RBNode<K, V>): int {
    if n.color == Black then 1 else 0
  }

  /** Both subtrees of `i` have the same black height, except that `dn` below `dp` is one short. */
  ghost predicate BlackAt<K, V>(nodes: seq<RBNode<K, V>>, elems: set<int>, bh: map<int, int>, dn: int, dp: int, i: int) {
    && 0 <= i < |nodes| && i in bh
    && var n := nodes[i];
    var l, r := BH(elems, bh, n.left), BH(elems, bh, n.right);
    && 0 <= l && 0 <= r
    && if i != dp then l == r && bh[i] == Blk(n) + l
    else
      && (n.left == dn || n.right == dn)
      && (n.left == dn ==> l + 1 == r && bh[i] == Blk(n) + r)
      && (n.right == dn ==> r + 1 == l && bh[i] == Blk(n) + l)
  }

  ghost predicate Balanced<K, V>(nodes: seq<RBNode<K, V>>, elems: set<int>, bh: map<int, int>, dn: int, dp: int) {
    && (forall i :: i in elems ==> i in bh)
    && (forall i {:trigger BlackAt(nodes, elems, bh, dn, dp, i)} :: i in elems ==> BlackAt(nodes, elems, bh, dn, dp, i))
  }

  /** Link `c` leads to a red tree node (nil and the placeholder are black). */
  ghost predicate RedLink<K, V>(nodes: seq<RBNode<K, V>>, elems: set<int>, c: int) {
    c in elems && 0 <= c < |nodes| && nodes[c].color == Red
  }

  /** A red node `i` has no red child other than `xc`. */
  ghost predicate RedAt<K, V>(nodes: seq<RBNode<K, V>>, elems: set<int>, xc: int, i: int) {
    0 <= i < |nodes| &&
    (nodes[i].color == Red ==>
      (RedLink(nodes, elems, nodes[i].left) ==> nodes[i].left == xc) &&
      (RedLink(nodes, elems, nodes[i].right) ==> nodes[i].right == xc))
  }

  ghost predicate NoRedRed<K, V>(nodes: seq<RBNode<K, V>>, elems: set<int>, xc: int) {
    forall i {:trigger RedAt(nodes, elems, xc, i)} :: i in elems ==> RedAt(nodes, elems, xc, i)
  }

  ghost predicate RootBlack<K, V>(nodes: seq<RBNode<K, V>>, root: int) {
    root == NIL || (0 <= root < |nodes| && nodes[root].color == Black)
  }

  /** The settled state: a red-black binary search tree over the keys of `elems`. */
  ghost predicate RBTree<K(!new), V>(nodes: seq<RBNode<K, V>>, root: int, elems: set<int>, sub: map<int, set<int>>, bh: map<int, int>, cmp: (K, K) -> int) {
    && TotalOrder(cmp)
    && Shape(nodes, root, elems, sub, NIL)
    && Ordered(nodes, elems, sub, cmp, NIL)
    && Distinct(nodes, elems)
    && Balanced(nodes, elems, bh, NIL, NIL)
    && NoRedRed(nodes, elems, NIL)
    && RootBlack(nodes, root)
  }

  // ---------------------------------------------------------------------------
  // Order-theoretic descriptions of positions in the in-order sequence
  // ---------------------------------------------------------------------------

  /** `m` holds the smallest key of the tree. */
  ghost predicate IsMin<K, V>(nodes: seq<RBNode<K, V>>, elems: set<int>, cmp: (K, K) -> int, m: int) {
    m in elems && forall k :: k in elems && k != m ==> Lt(nodes, cmp, m, k)
  }

  /** `m` holds the largest key of the tree. */
  ghost predicate IsMax<K, V>(nodes: seq<RBNode<K, V>>, elems: set<int>, cmp: (K, K) -> int, m: int) {
    m in elems && forall k :: k in elems && k != m ==> Lt(nodes, cmp, k, m)
  }

  /** `j` comes right after `i` in the in-order sequence. */
  ghost predicate IsSucc<K, V>(nodes: seq<RBNode<K, V>>, elems: set<int>, cmp: (K, K) -> int, i: int, j: int) {
    j in elems && Lt(nodes, cmp, i, j) &&
    forall k :: k in elems && Lt(nodes, cmp, i, k) ==> k == j || Lt(nodes, cmp, j, k)
  }

  /** `j` comes right before `i` in the in-order sequence. */
  ghost predicate IsPred<K, V>(nodes: seq<RBNode<K, V>>, elems: set<int>, cmp: (K, K) -> int, i: int, j: int) {
    j in elems && Lt(nodes, cmp, j, i) &&
    forall k :: k in elems && Lt(nodes, cmp, k, i) ==> k == j || Lt(nodes, cmp, k, j)
  }

  // ---------------------------------------------------------------------------
  // Structural lemmas
  // ---------------------------------------------------------------------------

  /** The subtree of a node inside the subtree of `i` lies inside it. */
  lemma {:induction false} Nested<K, V>(nodes: seq<RBNode<K, V>>, root: int, elems: set<int>, sub: map<int, set<int>>, ph: int, i: int, j: int)
    requires Shape(nodes, root, elems, sub, ph)
    requires i in elems && j in sub[i]
    ensures j in elems && j in sub && sub[j] <= sub[i]
    decreases |sub[i]|
  {
    assert ShapeAt(nodes, root, elems, sub, ph, i);
    if j != i {
      var n := nodes[i];
      var L, R := SubOf(elems, sub, n.left), SubOf(elems, sub, n.right);
      if j in L {
        assert ShapeAt(nodes, root, elems, sub, ph, n.left);
        assert |sub[n.left]| < |sub[i]| by {
          assert sub[n.left] <= sub[i] - {i};
        }
        Nested(nodes, root, elems, sub, ph, n.left, j);
      } else {
        assert j in R;
        assert ShapeAt(nodes, root, elems, sub, ph, n.right);
        assert |sub[n.right]| < |sub[i]| by {
          assert sub[n.right] <= sub[i] - {i};
        }
        Nested(nodes, root, elems, sub, ph, n.right, j);
      }
    }
  }

  /** A red link into `c` in the new state was a red link already, and not the exempt one unless that stays exempt. */
  ghost predicate RedKept<K, V>(nodes: seq<RBNode<K, V>>, nodes': seq<RBNode<K, V>>, elems: set<int>, xc: int, xc': int, c: int) {
    RedLink(nodes', elems, c) ==> c == xc' || (RedLink(nodes, elems, c) && (c == xc ==> xc' == xc))
  }

  /**
   * A node whose links, colour and black height stay, and whose children keep
   * their black heights and gain no red, keeps its colour conditions.
   */
  lemma ColorsKeptAt<K, V>(nodes: seq<RBNode<K, V>>, elems: set<int>, bh: map<int, int>, dn: int, dp: int, xc: int,
                           nodes': seq<RBNode<K, V>>, bh': map<int, int>, dn': int, dp': int, xc': int, i: int)
    requires BlackAt(nodes, elems, bh, dn, dp, i) && RedAt(nodes, elems, xc, i)
    requires 0 <= i < |nodes'|
    requires var n, n' := nodes[i], nodes'[i]; n'.left == n.left && n'.right == n.right && n'.color == n.color
    requires i in bh' && bh'[i] == bh[i]
    requires BH(elems, bh', nodes[i].left) == BH(elems, bh, nodes[i].left)
    requires BH(elems, bh', nodes[i].right) == BH(elems, bh, nodes[i].right)
    requires RedKept(nodes, nodes', elems, xc, xc', nodes[i].left) && RedKept(nodes, nodes', elems, xc, xc', nodes[i].right)
    requires (i == dp) == (i == dp') && (i == dp ==> dn == dn')
    ensures BlackAt(nodes', elems, bh', dn', dp', i) && RedAt(nodes', elems, xc', i)
  {
  }

  /** `nodes'` differs from `nodes` at most in colours. */
  ghost predicate SameLinks<K, V>(nodes: seq<RBNode<K, V>>, nodes': seq<RBNode<K, V>>) {
    |nodes'| == |nodes| &&
    forall k :: 0 <= k < |nodes| ==> nodes'[k] == nodes[k].(color := nodes'[k].color)
  }

  /** Recolouring keeps the shape, the order and the distinct keys. */
  lemma SameLinksKeep<K, V>(nodes: seq<RBNode<K, V>>, root: int, elems: set<int>, sub: map<int, set<int>>, ph: int, cmp: (K, K) -> int,
                            nodes': seq<RBNode<K, V>>)
    requires SameLinks(nodes, nodes')
    ensures Shape(nodes, root, elems, sub, ph) && (ph == NIL || (0 <= ph < |nodes| && nodes'[ph].color == nodes[ph].color)) ==>
            Shape(nodes', root, elems, sub, ph)
    ensures Ordered(nodes, elems, sub, cmp, NIL) ==> Ordered(nodes', elems, sub, cmp, NIL)
    ensures Distinct(nodes, elems) ==> Distinct(nodes', elems)
  {
    if Shape(nodes, root, elems, sub, ph) && (ph == NIL || (0 <= ph < |nodes| && nodes'[ph].color == nodes[ph].color)) {
      forall i | i in elems ensures ShapeAt(nodes', root, elems, sub, ph, i) {
        assert ShapeAt(nodes, root, elems, sub, ph, i);
        var n := nodes[i];
        assert nodes'[i] == n.(color := nodes'[i].color);
        if n.parent != NIL {
          assert nodes'[n.parent] == nodes[n.parent].(color := nodes'[n.parent].color);
        }
        if n.left in elems {
          assert nodes'[n.left] == nodes[n.left].(color := nodes'[n.left].color);
        }
        if n.right in elems {
          assert nodes'[n.right] == nodes[n.right].(color := nodes'[n.right].color);
        }
      }
      if ph != NIL {
        var h := nodes[ph].parent;
        assert nodes'[ph] == nodes[ph] && nodes'[h] == nodes[h].(color := nodes'[h].color);
        forall i | i in elems && 0 <= i < |nodes| && i != h ensures nodes'[i].left != ph && nodes'[i].right != ph {
          assert nodes'[i] == nodes[i].(color := nodes'[i].color);
        }
      }
    }
    if Ordered(nodes, elems, sub, cmp, NIL) {
      forall i | i in elems ensures OrderedAt(nodes', elems, sub, cmp, NIL, i) {
        assert OrderedAt(nodes, elems, sub, cmp, NIL, i);
        assert forall k :: 0 <= k < |nodes| ==> nodes'[k].key == nodes[k].key;
      }
    }
    assert forall k :: 0 <= k < |nodes| ==> nodes'[k].key == nodes[k].key;
  }

  lemma ShapeLinks<K, V>(nodes: seq<RBNode<K, V>>, root: int, elems: set<int>, sub: map<int, set<int>>, ph: int)
    requires Shape(nodes, root, elems, sub, ph)
    ensures AllLinks(nodes, root, elems, ph)
  {
    forall i | i in elems ensures LinkAt(nodes, root, elems, ph, i) {
      assert ShapeAt(nodes, root, elems, sub, ph, i);
    }
  }

  /** A node lies in its own subtree, and the subtree of a child is a strict part of its parent's. */
  lemma ChildSubSmaller<K, V>(nodes: seq<RBNode<K, V>>, root: int, elems: set<int>, sub: map<int, set<int>>, ph: int, i: int)
    requires Shape(nodes, root, elems, sub, ph)
    requires i in elems
    ensures i in sub && i in sub[i] && |sub[i]| <= |elems|
    ensures nodes[i].parent != NIL ==>
      var p := nodes[i].parent;
      p in elems && p in sub && sub[i] < sub[p] && |sub[i]| < |sub[p]|
  {
    assert ShapeAt(nodes, root, elems, sub, ph, i);
    SubsetCard(sub[i], elems);
    var p := nodes[i].parent;
    if p != NIL {
      assert ShapeAt(nodes, root, elems, sub, ph, p);
      assert sub[i] <= sub[p] - {p};
      SubsetCard(sub[i], sub[p]);
    }
  }

  lemma SubsetCard(a: set<int>, b: set<int>)
    requires a <= b
    ensures |a| <= |b| && (a < b ==> |a| < |b|)
  {
    assert b == a + (b - a);
    if a < b {
      assert b - a != {};
    }
  }

  /**
   * A node outside the subtree of `i` never splits it: its key is above every
   * key of the subtree, or below every key of it.
   */
  lemma {:induction false} SubtreeInterval<K(!new), V>(nodes: seq<RBNode<K, V>>, root: int, elems: set<int>, sub: map<int, set<int>>, cmp: (K, K) -> int, i: int, k: int)
    requires TotalOrder(cmp) && Shape(nodes, root, elems, sub, NIL) && Ordered(nodes, elems, sub, cmp, NIL)
    requires i in elems && k in elems && k !in sub[i]
    ensures (forall j :: j in sub[i] ==> Lt(nodes, cmp, j, k)) || (forall j :: j in sub[i] ==> Lt(nodes, cmp, k, j))
    decreases |elems| - |sub[i]|
  {
    ChildSubSmaller(nodes, root, elems, sub, NIL, i);
    assert ShapeAt(nodes, root, elems, sub, NIL, i);
    var p := nodes[i].parent;
    if p == NIL {
      assert false;
    }
    assert ShapeAt(nodes, root, elems, sub, NIL, p);
    assert OrderedAt(nodes, elems, sub, cmp, NIL, p);
    ChildSubSmaller(nodes, root, elems, sub, NIL, p);
    var pn := nodes[p];
    if k !in sub[p] {
      SubtreeInterval(nodes, root, elems, sub, cmp, p, k);
    } else if pn.left == i {
      assert sub[i] == SubOf(elems, sub, pn.left);
      assert forall j :: j in sub[i] ==> Lt(nodes, cmp, j, p);
      if k != p {
        assert k in SubOf(elems, sub, pn.right);
        assert forall j :: j in sub[i] ==> Lt(nodes, cmp, j, k);
      }
    } else {
      assert sub[i] == SubOf(elems, sub, pn.right);
      assert forall j :: j in sub[i] ==> Lt(nodes, cmp, p, j);
      if k != p {
        assert k in SubOf(elems, sub, pn.left);
        assert forall j :: j in sub[i] ==> Lt(nodes, cmp, k, j);
      }
    }
  }
}
