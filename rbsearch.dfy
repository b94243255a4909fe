/**
 * Why the read-only walks over the tree find what they claim: the descent of
 * `Find`, the leftmost/rightmost descents of `Begin`/`Rbegin`, and the two
 * phases of `Next`/`Pre` (down to the extreme node of a child subtree, or up
 * until the walk leaves a left/right child).
 */
module RBSearch {
  import opened RBNodes

  // ---------------------------------------------------------------------------
  // Find
  // ---------------------------------------------------------------------------

  /**
   * No node outside the subtree of `n` holds `key`, and none separates `key`
   * from the key of `n`: inserting `key` below `n` keeps every outside node's
   * order.
   */
  ghost predicate SameSideOutside<K, V>(nodes: seq<RBNode<K, V>>, elems: set<int>, sub: map<int, set<int>>, cmp: (K, K) -> int, key: K, n: int) {
    n in sub && 0 <= n < |nodes| &&
    forall k :: k in elems && k !in sub[n] && 0 <= k < |nodes| ==>
      nodes[k].key != key && (cmp(nodes[k].key, key) < 0 <==> cmp(nodes[k].key, nodes[n].key) < 0)
  }

  /** `key` is held by no tree node. */
  ghost predicate Absent<K, V>(nodes: seq<RBNode<K, V>>, elems: set<int>, key: K) {
    forall k :: k in elems && 0 <= k < |nodes| ==> nodes[k].key != key
  }

  /**
   * `p` is where a node holding `key` goes: nil on an empty tree, otherwise a
   * tree node whose link on the side of `key` is nil and below which `key`
   * keeps every other node's order.
   */
  ghost predicate InsertionPoint<K, V>(nodes: seq<RBNode<K, V>>, elems: set<int>, sub: map<int, set<int>>, cmp: (K, K) -> int, key: K, p: int) {
    && Absent(nodes, elems, key)
    && (p == NIL <==> elems == {})
    && (p != NIL ==>
         && p in elems && 0 <= p < |nodes|
         && (cmp(key, nodes[p].key) < 0 ==> nodes[p].left == NIL)
         && (cmp(key, nodes[p].key) > 0 ==> nodes[p].right == NIL)
         && SameSideOutside(nodes, elems, sub, cmp, key, p))
  }

  /** At the root nothing is outside. */
  lemma SameSideAtRoot<K, V>(nodes: seq<RBNode<K, V>>, root: int, elems: set<int>, sub: map<int, set<int>>, cmp: (K, K) -> int, key: K)
    requires Shape(nodes, root, elems, sub, NIL) && root != NIL
    ensures SameSideOutside(nodes, elems, sub, cmp, key, root)
  {
  }

  /** One step of the descent of `Find`: from `n` to its child on the side of `key`. */
  lemma SameSideDescend<K(!new), V>(nodes: seq<RBNode<K, V>>, root: int, elems: set<int>, sub: map<int, set<int>>, cmp: (K, K) -> int, key: K, n: int)
    requires TotalOrder(cmp) && Shape(nodes, root, elems, sub, NIL) && Ordered(nodes, elems, sub, cmp, NIL)
    requires n in elems && SameSideOutside(nodes, elems, sub, cmp, key, n)
    requires cmp(key, nodes[n].key) != 0
    ensures var c := if cmp(key, nodes[n].key) < 0 then nodes[n].left else nodes[n].right;
      c != NIL ==> c in elems && nodes[c].parent == n && SameSideOutside(nodes, elems, sub, cmp, key, c)
  {
    assert ShapeAt(nodes, root, elems, sub, NIL, n) && OrderedAt(nodes, elems, sub, cmp, NIL, n);
    var goLeft := cmp(key, nodes[n].key) < 0;
    var c := if goLeft then nodes[n].left else nodes[n].right;
    var other := if goLeft then nodes[n].right else nodes[n].left;
    if c != NIL {
      assert ShapeAt(nodes, root, elems, sub, NIL, c);
      assert sub[n] == SubOf(elems, sub, c) + {n} + SubOf(elems, sub, other) by {
        if !goLeft {
          assert sub[n] == SubOf(elems, sub, other) + {n} + SubOf(elems, sub, c);
        }
      }
      forall k | k in elems && k !in sub[c] && 0 <= k < |nodes|
        ensures nodes[k].key != key && (cmp(nodes[k].key, key) < 0 <==> cmp(nodes[k].key, nodes[c].key) < 0)
      {
        if k !in sub[n] {
          SubtreeInterval(nodes, root, elems, sub, cmp, n, k);
          assert n in sub[n] && c in sub[n];
        } else if k == n {
          assert c in SubOf(elems, sub, c);
        } else {
          assert k in SubOf(elems, sub, other);
          assert c in SubOf(elems, sub, c);
        }
      }
    }
  }

  /** The descent stopped at a nil link on the side of `key`: `n` is where `key` goes. */
  lemma InsertionPointFound<K(!new), V>(nodes: seq<RBNode<K, V>>, root: int, elems: set<int>, sub: map<int, set<int>>, cmp: (K, K) -> int, key: K, n: int)
    requires TotalOrder(cmp) && Shape(nodes, root, elems, sub, NIL) && Ordered(nodes, elems, sub, cmp, NIL)
    requires n in elems && SameSideOutside(nodes, elems, sub, cmp, key, n)
    requires cmp(key, nodes[n].key) < 0 ==> nodes[n].left == NIL
    requires cmp(key, nodes[n].key) > 0 ==> nodes[n].right == NIL
    requires cmp(key, nodes[n].key) != 0
    ensures InsertionPoint(nodes, elems, sub, cmp, key, n)
  {
    assert ShapeAt(nodes, root, elems, sub, NIL, n) && OrderedAt(nodes, elems, sub, cmp, NIL, n);
    forall k | k in elems && 0 <= k < |nodes| ensures nodes[k].key != key {
      if k in sub[n] && k != n {
        if cmp(key, nodes[n].key) < 0 {
          assert k in SubOf(elems, sub, nodes[n].right);
        } else {
          assert k in SubOf(elems, sub, nodes[n].left);
        }
      }
    }
  }

  // ---------------------------------------------------------------------------
  // Extremes of a subtree
  // ---------------------------------------------------------------------------

  /** Every node of `t` outside the subtree of `m` holds a larger key than `m`. */
  ghost predicate MinOutside<K, V>(nodes: seq<RBNode<K, V>>, elems: set<int>, sub: map<int, set<int>>, cmp: (K, K) -> int, t: set<int>, m: int) {
    m in t && m in sub && forall k :: k in t && k !in sub[m] ==> Lt(nodes, cmp, m, k)
  }

  /** Every node of `t` outside the subtree of `m` holds a smaller key than `m`. */
  ghost predicate MaxOutside<K, V>(nodes: seq<RBNode<K, V>>, elems: set<int>, sub: map<int, set<int>>, cmp: (K, K) -> int, t: set<int>, m: int) {
    m in t && m in sub && forall k :: k in t && k !in sub[m] ==> Lt(nodes, cmp, k, m)
  }

  /** `m` holds the smallest key of `t`. */
  ghost predicate MinOf<K, V>(nodes: seq<RBNode<K, V>>, cmp: (K, K) -> int, t: set<int>, m: int) {
    m in t && forall k :: k in t && k != m ==> Lt(nodes, cmp, m, k)
  }

  /** `m` holds the largest key of `t`. */
  ghost predicate MaxOf<K, V>(nodes: seq<RBNode<K, V>>, cmp: (K, K) -> int, t: set<int>, m: int) {
    m in t && forall k :: k in t && k != m ==> Lt(nodes, cmp, k, m)
  }

  /** Going left keeps `MinOutside`, and the leftmost node of a subtree is its minimum. */
  lemma LeftmostStep<K(!new), V>(nodes: seq<RBNode<K, V>>, root: int, elems: set<int>, sub: map<int, set<int>>, cmp: (K, K) -> int, t: set<int>, m: int)
    requires TotalOrder(cmp) && Shape(nodes, root, elems, sub, NIL) && Ordered(nodes, elems, sub, cmp, NIL)
    requires m in elems && t <= elems && sub[m] <= t && MinOutside(nodes, elems, sub, cmp, t, m)
    ensures var l := nodes[m].left;
      (l != NIL ==> l in elems && sub[l] <= t && MinOutside(nodes, elems, sub, cmp, t, l)) &&
      (l == NIL ==> MinOf(nodes, cmp, t, m))
  {
    assert ShapeAt(nodes, root, elems, sub, NIL, m) && OrderedAt(nodes, elems, sub, cmp, NIL, m);
    var l := nodes[m].left;
    if l != NIL {
      assert ShapeAt(nodes, root, elems, sub, NIL, l);
      forall k | k in t && k !in sub[l] ensures Lt(nodes, cmp, l, k) {
        assert l in SubOf(elems, sub, l);
        if k in sub[m] && k != m {
          assert k in SubOf(elems, sub, nodes[m].right);
        }
      }
    }
  }

  /** Going right keeps `MaxOutside`, and the rightmost node of a subtree is its maximum. */
  lemma RightmostStep<K(!new), V>(nodes: seq<RBNode<K, V>>, root: int, elems: set<int>, sub: map<int, set<int>>, cmp: (K, K) -> int, t: set<int>, m: int)
    requires TotalOrder(cmp) && Shape(nodes, root, elems, sub, NIL) && Ordered(nodes, elems, sub, cmp, NIL)
    requires m in elems && t <= elems && sub[m] <= t && MaxOutside(nodes, elems, sub, cmp, t, m)
    ensures var r := nodes[m].right;
      (r != NIL ==> r in elems && sub[r] <= t && MaxOutside(nodes, elems, sub, cmp, t, r)) &&
      (r == NIL ==> MaxOf(nodes, cmp, t, m))
  {
    assert ShapeAt(nodes, root, elems, sub, NIL, m) && OrderedAt(nodes, elems, sub, cmp, NIL, m);
    var r := nodes[m].right;
    if r != NIL {
      assert ShapeAt(nodes, root, elems, sub, NIL, r);
      forall k | k in t && k !in sub[r] ensures Lt(nodes, cmp, k, r) {
        assert r in SubOf(elems, sub, r);
        if k in sub[m] && k != m {
          assert k in SubOf(elems, sub, nodes[m].left);
        }
      }
    }
  }

  // ---------------------------------------------------------------------------
  // Successor and predecessor
  // ---------------------------------------------------------------------------

  /** The minimum of the right subtree of `i` is the successor of `i`. */
  lemma SuccIsRightMin<K(!new), V>(nodes: seq<RBNode<K, V>>, root: int, elems: set<int>, sub: map<int, set<int>>, cmp: (K, K) -> int, i: int, m: int)
    requires TotalOrder(cmp) && Shape(nodes, root, elems, sub, NIL) && Ordered(nodes, elems, sub, cmp, NIL)
    requires i in elems && nodes[i].right != NIL && MinOf(nodes, cmp, SubOf(elems, sub, nodes[i].right), m)
    ensures IsSucc(nodes, elems, cmp, i, m)
  {
    assert ShapeAt(nodes, root, elems, sub, NIL, i) && OrderedAt(nodes, elems, sub, cmp, NIL, i);
    forall k | k in elems && Lt(nodes, cmp, i, k) ensures k == m || Lt(nodes, cmp, m, k) {
      if k !in sub[i] {
        SubtreeInterval(nodes, root, elems, sub, cmp, i, k);
        assert i in sub[i] && m in sub[i];
      } else if k in SubOf(elems, sub, nodes[i].left) {
        assert false;
      }
    }
  }

  /** The maximum of the left subtree of `i` is the predecessor of `i`. */
  lemma PredIsLeftMax<K(!new), V>(nodes: seq<RBNode<K, V>>, root: int, elems: set<int>, sub: map<int, set<int>>, cmp: (K, K) -> int, i: int, m: int)
    requires TotalOrder(cmp) && Shape(nodes, root, elems, sub, NIL) && Ordered(nodes, elems, sub, cmp, NIL)
    requires i in elems && nodes[i].left != NIL && MaxOf(nodes, cmp, SubOf(elems, sub, nodes[i].left), m)
    ensures IsPred(nodes, elems, cmp, i, m)
  {
    assert ShapeAt(nodes, root, elems, sub, NIL, i) && OrderedAt(nodes, elems, sub, cmp, NIL, i);
    forall k | k in elems && Lt(nodes, cmp, k, i) ensures k == m || Lt(nodes, cmp, k, m) {
      if k !in sub[i] {
        SubtreeInterval(nodes, root, elems, sub, cmp, i, k);
        assert i in sub[i] && m in sub[i];
      } else if k in SubOf(elems, sub, nodes[i].right) {
        assert false;
      }
    }
  }

  /** A node without a right child is the maximum of its own subtree. */
  lemma MaxOfOwnSubtree<K(!new), V>(nodes: seq<RBNode<K, V>>, root: int, elems: set<int>, sub: map<int, set<int>>, cmp: (K, K) -> int, i: int)
    requires TotalOrder(cmp) && Shape(nodes, root, elems, sub, NIL) && Ordered(nodes, elems, sub, cmp, NIL)
    requires i in elems && nodes[i].right == NIL
    ensures MaxOf(nodes, cmp, sub[i], i)
  {
    assert ShapeAt(nodes, root, elems, sub, NIL, i) && OrderedAt(nodes, elems, sub, cmp, NIL, i);
  }

  /** A node without a left child is the minimum of its own subtree. */
  lemma MinOfOwnSubtree<K(!new), V>(nodes: seq<RBNode<K, V>>, root: int, elems: set<int>, sub: map<int, set<int>>, cmp: (K, K) -> int, i: int)
    requires TotalOrder(cmp) && Shape(nodes, root, elems, sub, NIL) && Ordered(nodes, elems, sub, cmp, NIL)
    requires i in elems && nodes[i].left == NIL
    ensures MinOf(nodes, cmp, sub[i], i)
  {
    assert ShapeAt(nodes, root, elems, sub, NIL, i) && OrderedAt(nodes, elems, sub, cmp, NIL, i);
  }

  /**
   * One step up in `Next`: `i` is the maximum of the subtree of `top`. When
   * `top` is the right child of its parent, `i` is also the maximum of the
   * parent's subtree; when it is the left child, the parent is the successor
   * of `i`.
   */
  lemma SuccAscend<K(!new), V>(nodes: seq<RBNode<K, V>>, root: int, elems: set<int>, sub: map<int, set<int>>, cmp: (K, K) -> int, i: int, top: int)
    requires TotalOrder(cmp) && Shape(nodes, root, elems, sub, NIL) && Ordered(nodes, elems, sub, cmp, NIL)
    requires top in elems && MaxOf(nodes, cmp, sub[top], i)
    ensures var p := nodes[top].parent;
      (p == NIL ==> IsMax(nodes, elems, cmp, i)) &&
      (p != NIL ==>
        && p in elems && 0 <= p < |nodes|
        && (nodes[p].left == top ==> IsSucc(nodes, elems, cmp, i, p))
        && (nodes[p].left != top ==> nodes[p].right == top && MaxOf(nodes, cmp, sub[p], i)))
  {
    assert ShapeAt(nodes, root, elems, sub, NIL, top);
    var p := nodes[top].parent;
    if p != NIL {
      assert ShapeAt(nodes, root, elems, sub, NIL, p) && OrderedAt(nodes, elems, sub, cmp, NIL, p);
      assert top in SubOf(elems, sub, top);
      if nodes[p].left == top {
        forall k | k in elems && Lt(nodes, cmp, i, k) ensures k == p || Lt(nodes, cmp, p, k) {
          if k !in sub[p] {
            SubtreeInterval(nodes, root, elems, sub, cmp, p, k);
            assert i in sub[p] && p in sub[p];
          } else if k in sub[top] && k != i {
            assert false;
          }
        }
      } else {
        forall k | k in sub[p] && k != i ensures Lt(nodes, cmp, k, i) {
          if k !in sub[top] {
            assert k == p || k in SubOf(elems, sub, nodes[p].left);
          }
        }
      }
    }
  }

  /** The mirror image of `SuccAscend`, for `Pre`. */
  lemma PredAscend<K(!new), V>(nodes: seq<RBNode<K, V>>, root: int, elems: set<int>, sub: map<int, set<int>>, cmp: (K, K) -> int, i: int, top: int)
    requires TotalOrder(cmp) && Shape(nodes, root, elems, sub, NIL) && Ordered(nodes, elems, sub, cmp, NIL)
    requires top in elems && MinOf(nodes, cmp, sub[top], i)
    ensures var p := nodes[top].parent;
      (p == NIL ==> IsMin(nodes, elems, cmp, i)) &&
      (p != NIL ==>
        && p in elems && 0 <= p < |nodes|
        && (nodes[p].right == top ==> IsPred(nodes, elems, cmp, i, p))
        && (nodes[p].right != top ==> nodes[p].left == top && MinOf(nodes, cmp, sub[p], i)))
  {
    assert ShapeAt(nodes, root, elems, sub, NIL, top);
    var p := nodes[top].parent;
    if p != NIL {
      assert ShapeAt(nodes, root, elems, sub, NIL, p) && OrderedAt(nodes, elems, sub, cmp, NIL, p);
      assert top in SubOf(elems, sub, top);
      if nodes[p].right == top {
        forall k | k in elems && Lt(nodes, cmp, k, i) ensures k == p || Lt(nodes, cmp, k, p) {
          if k !in sub[p] {
            SubtreeInterval(nodes, root, elems, sub, cmp, p, k);
            assert i in sub[p] && p in sub[p];
          } else if k in sub[top] && k != i {
            assert false;
          }
        }
      } else {
        forall k | k in sub[p] && k != i ensures Lt(nodes, cmp, i, k) {
          if k !in sub[top] {
            assert k == p || k in SubOf(elems, sub, nodes[p].right);
          }
        }
      }
    }
  }
}
