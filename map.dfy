/**
 * Go's `Map` and `MapIterator`: a sorted key/value map kept in a red-black
 * tree, with a count of its entries. The map a tree stores is `View`: each
 * tree node contributes its key and its value.
 */
module OrderedMap {
  import opened RBNodes
  import opened RBSearch
  import opened RedBlack
  import RBRotate

  /** The tree nodes of `elems` are slots of the arena. */
  ghost predicate InArena<K, V>(nodes: seq<RBNode<K, V>>, elems: set<int>) {
    forall i :: i in elems ==> 0 <= i < |nodes|
  }

  /** The key/value map stored by the tree nodes `elems` of an arena. */
  ghost function View<K, V>(nodes: seq<RBNode<K, V>>, elems: set<int>): (m: map<K, V>)
    requires InArena(nodes, elems) && Distinct(nodes, elems)
    ensures forall i :: i in elems ==> nodes[i].key in m && m[nodes[i].key] == nodes[i].value
  {
    map i | i in elems :: nodes[i].key := nodes[i].value
  }

  /** Every key of the map comes from a tree node. */
  lemma ViewKey<K, V>(nodes: seq<RBNode<K, V>>, elems: set<int>, key: K) returns (i: int)
    requires InArena(nodes, elems) && Distinct(nodes, elems) && key in View(nodes, elems)
    ensures i in elems && nodes[i].key == key
  {
    i :| i in elems && nodes[i].key == key;
  }

  /** A key is in the map exactly when some tree node holds it. */
  lemma ViewHas<K, V>(nodes: seq<RBNode<K, V>>, elems: set<int>, key: K)
    requires InArena(nodes, elems) && Distinct(nodes, elems)
    ensures key in View(nodes, elems) <==> exists i :: i in elems && 0 <= i < |nodes| && nodes[i].key == key
  {
    if key in View(nodes, elems) {
      var i := ViewKey(nodes, elems, key);
    }
  }

  /** One more tree node adds one more key. */
  lemma ViewAdd<K, V>(nodes: seq<RBNode<K, V>>, all: set<int>, rest: set<int>, i: int)
    requires InArena(nodes, all) && Distinct(nodes, all) && all == rest + {i} && i !in rest
    ensures InArena(nodes, rest) && Distinct(nodes, rest) && nodes[i].key !in View(nodes, rest)
    ensures View(nodes, all) == View(nodes, rest)[nodes[i].key := nodes[i].value]
    ensures |View(nodes, all)| == |View(nodes, rest)| + 1 && |all| == |rest| + 1
  {
    var A, B := View(nodes, all), View(nodes, rest);
    if nodes[i].key in B {
      var j := ViewKey(nodes, rest, nodes[i].key);
      assert false;
    }
    forall k | k in A
      ensures k in B[nodes[i].key := nodes[i].value] && A[k] == B[nodes[i].key := nodes[i].value][k]
    {
      var j := ViewKey(nodes, all, k);
    }
    assert A == B[nodes[i].key := nodes[i].value];
  }

  /** The tree nodes in the first `n` slots of the arena. */
  ghost function Below(elems: set<int>, n: int): (e: set<int>)
    ensures e <= elems
  {
    set i | i in elems && i < n
  }

  /** Distinct keys make the map of the first `n` slots exactly as large as the tree nodes there. */
  lemma {:induction false} ViewSizeBelow<K, V>(nodes: seq<RBNode<K, V>>, elems: set<int>, n: nat)
    requires InArena(nodes, elems) && Distinct(nodes, elems) && n <= |nodes|
    ensures |View(nodes, Below(elems, n))| == |Below(elems, n)|
    decreases n
  {
    if n == 0 {
      ViewSizeNone(nodes, elems);
    } else {
      SubsetArena(nodes, elems, Below(elems, n - 1));
      ViewSizeBelow(nodes, elems, n - 1);
      ViewSizeStep(nodes, elems, n);
    }
  }

  /** No slot below 0 holds a tree node, so the map there is empty. */
  lemma ViewSizeNone<K, V>(nodes: seq<RBNode<K, V>>, elems: set<int>)
    requires InArena(nodes, elems) && Distinct(nodes, elems)
    ensures |View(nodes, Below(elems, 0))| == |Below(elems, 0)| == 0
  {
    var e := Below(elems, 0);
    SubsetArena(nodes, elems, e);
    assert e == {};
    assert View(nodes, e) == map[];
  }

  /** Slot `n - 1` adds one key exactly when it adds one tree node. */
  lemma ViewSizeStep<K, V>(nodes: seq<RBNode<K, V>>, elems: set<int>, n: nat)
    requires InArena(nodes, elems) && Distinct(nodes, elems) && 0 < n <= |nodes|
    requires |View(nodes, Below(elems, n - 1))| == |Below(elems, n - 1)|
    ensures |View(nodes, Below(elems, n))| == |Below(elems, n)|
  {
    var e0, e1 := Below(elems, n - 1), Below(elems, n);
    SubsetArena(nodes, elems, e1);
    BelowStep(elems, n);
    if n - 1 in elems {
      ViewAdd(nodes, e1, e0, n - 1);
    } else {
      assert e1 == e0;
    }
  }

  /** Part of the tree is still in the arena with distinct keys. */
  lemma SubsetArena<K, V>(nodes: seq<RBNode<K, V>>, elems: set<int>, e: set<int>)
    requires InArena(nodes, elems) && Distinct(nodes, elems) && e <= elems
    ensures InArena(nodes, e) && Distinct(nodes, e)
  {
  }

  /** The first `n` slots add slot `n - 1` to the first `n - 1` when it is a tree node. */
  lemma BelowStep(elems: set<int>, n: int)
    ensures n - 1 !in Below(elems, n - 1)
    ensures Below(elems, n) == if n - 1 in elems then Below(elems, n - 1) + {n - 1} else Below(elems, n - 1)
  {
  }

  /** Distinct keys make the map exactly as large as the tree. */
  lemma ViewSize<K, V>(nodes: seq<RBNode<K, V>>, elems: set<int>)
    requires InArena(nodes, elems) && Distinct(nodes, elems)
    ensures |View(nodes, elems)| == |elems|
  {
    ViewSizeBelow(nodes, elems, |nodes|);
    assert Below(elems, |nodes|) == elems;
  }

  /** A new value in a tree node replaces the value of its key and nothing else. */
  lemma ViewSetValue<K, V>(nodes: seq<RBNode<K, V>>, elems: set<int>, x: int, value: V)
    requires InArena(nodes, elems) && Distinct(nodes, elems) && x in elems
    ensures var nodes' := nodes[x := nodes[x].(value := value)];
      InArena(nodes', elems) && Distinct(nodes', elems) &&
      View(nodes', elems) == View(nodes, elems)[nodes[x].key := value]
  {
    var nodes' := nodes[x := nodes[x].(value := value)];
    var A, B := View(nodes', elems), View(nodes, elems)[nodes[x].key := value];
    forall k | k in A
      ensures k in B && A[k] == B[k]
    {
      var j := ViewKey(nodes', elems, k);
      assert j != x ==> nodes'[j] == nodes[j];
    }
    forall k | k in B
      ensures k in A
    {
      if k != nodes[x].key {
        var j := ViewKey(nodes, elems, k);
        assert nodes'[j].key == k;
      }
    }
    assert A == B;
  }

  /** Linking a new slot `x` into the tree adds its key and value; the other slots keep theirs. */
  lemma ViewInsert<K, V>(nodes: seq<RBNode<K, V>>, elems: set<int>, x: int, nodes': seq<RBNode<K, V>>)
    requires InArena(nodes, elems) && Distinct(nodes, elems) && 0 <= x < |nodes| && x !in elems
    requires SameSlots(nodes[x := nodes[x].(valid := true)], nodes') && Distinct(nodes', elems + {x})
    ensures InArena(nodes', elems + {x})
    ensures View(nodes', elems + {x}) == View(nodes, elems)[nodes[x].key := nodes[x].value]
  {
    var n1 := nodes[x := nodes[x].(valid := true)];
    assert n1[x].key == nodes[x].key && n1[x].value == nodes[x].value;
    var A, B := View(nodes', elems + {x}), View(nodes, elems)[nodes[x].key := nodes[x].value];
    forall k | k in A
      ensures k in B && A[k] == B[k]
    {
      var j := ViewKey(nodes', elems + {x}, k);
      if j != x {
        assert n1[j] == nodes[j];
        assert nodes[j].key in View(nodes, elems);
      }
    }
    forall k | k in B
      ensures k in A
    {
      if k != nodes[x].key {
        var j := ViewKey(nodes, elems, k);
        assert n1[j] == nodes[j];
      }
    }
    assert A == B;
  }

  /** Unlinking tree node `x` takes its key out of the map; the other slots keep theirs. */
  lemma ViewRemove<K, V>(nodes: seq<RBNode<K, V>>, elems: set<int>, x: int, nodes': seq<RBNode<K, V>>)
    requires InArena(nodes, elems) && Distinct(nodes, elems) && x in elems
    requires SameSlots(nodes[x := nodes[x].(valid := false)], nodes') && Distinct(nodes', elems - {x})
    ensures InArena(nodes', elems - {x})
    ensures View(nodes', elems - {x}) == View(nodes, elems) - {nodes[x].key}
  {
    var n1 := nodes[x := nodes[x].(valid := false)];
    var A, B := View(nodes', elems - {x}), View(nodes, elems) - {nodes[x].key};
    forall k | k in A
      ensures k in B && A[k] == B[k]
    {
      var j := ViewKey(nodes', elems - {x}, k);
      assert n1[j] == nodes[j];
    }
    forall k | k in B
      ensures k in A
    {
      var j := ViewKey(nodes, elems, k);
      assert j != x && n1[j] == nodes[j];
    }
    assert A == B;
  }

  /** Only the tree slots matter: appending a slot or changing one outside the tree keeps the map. */
  lemma ViewSame<K, V>(nodes: seq<RBNode<K, V>>, elems: set<int>, nodes': seq<RBNode<K, V>>)
    requires InArena(nodes, elems) && Distinct(nodes, elems) && SameTree(nodes, nodes', elems)
    ensures InArena(nodes', elems) && Distinct(nodes', elems) && View(nodes', elems) == View(nodes, elems)
  {
    var A, B := View(nodes', elems), View(nodes, elems);
    forall k | k in A
      ensures k in B && A[k] == B[k]
    {
      var j := ViewKey(nodes', elems, k);
    }
    forall k | k in B
      ensures k in A
    {
      var j := ViewKey(nodes, elems, k);
    }
    assert A == B;
  }

  /** A slot appended to the arena, outside the tree, changes neither the map nor where a new key goes. */
  lemma Appended<K, V>(nodes: seq<RBNode<K, V>>, elems: set<int>, sub: map<int, set<int>>, cmp: (K, K) -> int,
                       key: K, p: int, node: RBNode<K, V>)
    requires InArena(nodes, elems) && Distinct(nodes, elems) && InsertionPoint(nodes, elems, sub, cmp, key, p)
    ensures InArena(nodes + [node], elems) && Distinct(nodes + [node], elems)
    ensures InsertionPoint(nodes + [node], elems, sub, cmp, key, p)
    ensures View(nodes + [node], elems) == View(nodes, elems)
  {
    assert SameTree(nodes, nodes + [node], elems);
    SameTreeInsertionPoint(nodes, elems, sub, cmp, key, p, nodes + [node]);
    ViewSame(nodes, elems, nodes + [node]);
  }

  /** Inserting the appended slot keeps the old slots and makes the new one valid. */
  lemma AppendedSlots<K, V>(nodes: seq<RBNode<K, V>>, node: RBNode<K, V>, nodes': seq<RBNode<K, V>>)
    requires SameSlots((nodes + [node])[|nodes| := node.(valid := true)], nodes')
    ensures |nodes'| == |nodes| + 1 && SameSlots(nodes, nodes'[..|nodes|]) && nodes'[|nodes|].valid
  {
    var x, nodes1 := |nodes|, nodes + [node];
    var n2 := nodes1[x := node.(valid := true)];
    forall k | 0 <= k < x
      ensures nodes'[..x][k].key == nodes[k].key && nodes'[..x][k].value == nodes[k].value && nodes'[..x][k].valid == nodes[k].valid
    {
      assert n2[k] == nodes1[k] == nodes[k];
    }
  }

  /** Distinct keys: the slot found for a key is the only tree node holding it. */
  lemma OnlySlot<K, V>(nodes: seq<RBNode<K, V>>, elems: set<int>, i: int)
    requires InArena(nodes, elems) && Distinct(nodes, elems) && i in elems
    ensures forall x :: x in elems && nodes[x].key == nodes[i].key ==> x == i
  {
  }

  /** An erase keeps every key and value where it was. */
  lemma ErasedPayload<K, V>(nodes: seq<RBNode<K, V>>, nodes1: seq<RBNode<K, V>>, x: int, nodes': seq<RBNode<K, V>>)
    requires RBRotate.SamePayload(nodes, nodes1) && 0 <= x < |nodes1|
    requires nodes' == nodes1 || SameSlots(nodes1[x := nodes1[x].(valid := false)], nodes')
    ensures RBRotate.SamePayload(nodes, nodes')
  {
    if nodes' != nodes1 {
      forall k | 0 <= k < |nodes|
        ensures nodes'[k].key == nodes[k].key && nodes'[k].value == nodes[k].value
      {
        assert nodes1[x := nodes1[x].(valid := false)][k].key == nodes1[k].key;
        assert nodes1[x := nodes1[x].(valid := false)][k].value == nodes1[k].value;
      }
    }
  }

  // ---------------------------------------------------------------------------
  // Positions in the sorted key sequence of a map
  // ---------------------------------------------------------------------------

  /** `k` is the smallest key of `m`. */
  ghost predicate Least<K, V>(m: map<K, V>, cmp: (K, K) -> int, k: K) {
    k in m && forall k' :: k' in m && k' != k ==> cmp(k, k') < 0
  }

  /** `k` is the largest key of `m`. */
  ghost predicate Greatest<K, V>(m: map<K, V>, cmp: (K, K) -> int, k: K) {
    k in m && forall k' :: k' in m && k' != k ==> cmp(k', k) < 0
  }

  /** `k'` is the key of `m` right after `k`. */
  ghost predicate Following<K, V>(m: map<K, V>, cmp: (K, K) -> int, k: K, k': K) {
    k' in m && cmp(k, k') < 0 && forall j :: j in m && cmp(k, j) < 0 ==> j == k' || cmp(k', j) < 0
  }

  /** `k'` is the key of `m` right before `k`. */
  ghost predicate Preceding<K, V>(m: map<K, V>, cmp: (K, K) -> int, k: K, k': K) {
    k' in m && cmp(k', k) < 0 && forall j :: j in m && cmp(j, k) < 0 ==> j == k' || cmp(j, k') < 0
  }

  /** The tree's leftmost node holds the smallest key of the map. */
  lemma MinIsLeast<K(!new), V>(nodes: seq<RBNode<K, V>>, elems: set<int>, cmp: (K, K) -> int, i: int)
    requires InArena(nodes, elems) && Distinct(nodes, elems) && IsMin(nodes, elems, cmp, i)
    ensures Least(View(nodes, elems), cmp, nodes[i].key)
  {
    var m := View(nodes, elems);
    forall k | k in m && k != nodes[i].key
      ensures cmp(nodes[i].key, k) < 0
    {
      var j := ViewKey(nodes, elems, k);
      assert Lt(nodes, cmp, i, j);
    }
  }

  /** The tree's rightmost node holds the largest key of the map. */
  lemma MaxIsGreatest<K(!new), V>(nodes: seq<RBNode<K, V>>, elems: set<int>, cmp: (K, K) -> int, i: int)
    requires InArena(nodes, elems) && Distinct(nodes, elems) && IsMax(nodes, elems, cmp, i)
    ensures Greatest(View(nodes, elems), cmp, nodes[i].key)
  {
    var m := View(nodes, elems);
    forall k | k in m && k != nodes[i].key
      ensures cmp(k, nodes[i].key) < 0
    {
      var j := ViewKey(nodes, elems, k);
      assert Lt(nodes, cmp, j, i);
    }
  }

  /** The in-order successor node holds the next key of the map, so the key it follows is not the largest. */
  lemma SuccIsFollowing<K(!new), V>(nodes: seq<RBNode<K, V>>, elems: set<int>, cmp: (K, K) -> int, i: int, j: int)
    requires TotalOrder(cmp) && InArena(nodes, elems) && Distinct(nodes, elems) && i in elems && IsSucc(nodes, elems, cmp, i, j)
    ensures Following(View(nodes, elems), cmp, nodes[i].key, nodes[j].key)
    ensures !Greatest(View(nodes, elems), cmp, nodes[i].key)
  {
    var m := View(nodes, elems);
    forall k | k in m && cmp(nodes[i].key, k) < 0
      ensures k == nodes[j].key || cmp(nodes[j].key, k) < 0
    {
      var l := ViewKey(nodes, elems, k);
      assert Lt(nodes, cmp, i, l);
    }
    assert nodes[j].key != nodes[i].key;
  }

  /** The in-order predecessor node holds the previous key of the map, so the key it precedes is not the smallest. */
  lemma PredIsPreceding<K(!new), V>(nodes: seq<RBNode<K, V>>, elems: set<int>, cmp: (K, K) -> int, i: int, j: int)
    requires TotalOrder(cmp) && InArena(nodes, elems) && Distinct(nodes, elems) && i in elems && IsPred(nodes, elems, cmp, i, j)
    ensures Preceding(View(nodes, elems), cmp, nodes[i].key, nodes[j].key)
    ensures !Least(View(nodes, elems), cmp, nodes[i].key)
  {
    var m := View(nodes, elems);
    forall k | k in m && cmp(k, nodes[i].key) < 0
      ensures k == nodes[j].key || cmp(k, nodes[j].key) < 0
    {
      var l := ViewKey(nodes, elems, k);
      assert Lt(nodes, cmp, l, i);
    }
    assert nodes[j].key != nodes[i].key;
  }

  /** Go's `MapIterator`: a tree node, or nil past either end. */
  datatype MapIterator = MapIterator(node: int) {
    /** Go's `IsEnd`: true exactly for the one iterator that holds no node. */
    predicate IsEnd(): (r: bool)
      ensures r <==> this == MapIterator(NIL)
    {
      node == NIL
    }

    /** Go's `MapIterator.Next`: the iterator of the next key, End after the last key and after End. */
    method Next<K(!new), V>(tree: RBtree<K, V>) returns (r: MapIterator)
      requires tree.Valid() && (node == NIL || node in tree.elems)
      ensures IsEnd() ==> r.IsEnd()
      ensures !IsEnd() ==> var m, k := View(tree.nodes, tree.elems), tree.nodes[node].key;
        && (r.IsEnd() <==> Greatest(m, tree.compare, k))
        && (!r.IsEnd() ==> r.node in tree.elems && Following(m, tree.compare, k, tree.nodes[r.node].key))
    {
      if node != NIL {
        var n := tree.Next(node);
        if n == NIL {
          MaxIsGreatest(tree.nodes, tree.elems, tree.compare, node);
        } else {
          SuccIsFollowing(tree.nodes, tree.elems, tree.compare, node, n);
        }
        return MapIterator(n);
      }
      return MapIterator(NIL);
    }

    /** Go's `MapIterator.Pre`: the iterator of the previous key, End before the first key and after End. */
    method Pre<K(!new), V>(tree: RBtree<K, V>) returns (r: MapIterator)
      requires tree.Valid() && (node == NIL || node in tree.elems)
      ensures IsEnd() ==> r.IsEnd()
      ensures !IsEnd() ==> var m, k := View(tree.nodes, tree.elems), tree.nodes[node].key;
        && (r.IsEnd() <==> Least(m, tree.compare, k))
        && (!r.IsEnd() ==> r.node in tree.elems && Preceding(m, tree.compare, k, tree.nodes[r.node].key))
    {
      if node != NIL {
        var n := tree.Pre(node);
        if n == NIL {
          MinIsLeast(tree.nodes, tree.elems, tree.compare, node);
        } else {
          PredIsPreceding(tree.nodes, tree.elems, tree.compare, node, n);
        }
        return MapIterator(n);
      }
      return MapIterator(NIL);
    }

    /** Go's `MapIterator.Value`: nil for End, otherwise the key and value of the iterator's node, which is an entry of the map. */
    function Value<K(!new), V>(tree: RBtree<K, V>): (r: Option<Pair<K, V>>)
      reads tree
      requires tree.Valid() && (node == NIL || node in tree.elems)
      ensures r.None? <==> IsEnd()
      ensures r.Some? ==> r.value == Pair(tree.nodes[node].key, tree.nodes[node].value)
      ensures r.Some? ==> var m := View(tree.nodes, tree.elems); r.value.first in m && m[r.value.first] == r.value.value
    {
      tree.Get(node)
    }
  }

  /** Go's `Map`: the tree and the number of its entries. */
  class Map<K(!new), V> {
    const tree: RBtree<K, V>
    var size: nat

    /** The tree is a red-black tree and `size` counts its nodes. */
    ghost predicate Valid()
      reads this, tree
    {
      tree.Valid() && size == |tree.elems|
    }

    /** The key/value map held. */
    ghost function Model(): map<K, V>
      reads this, tree
      requires Valid()
    {
      View(tree.nodes, tree.elems)
    }

    /** Go's `Init`: an empty map ordered by `compare`. */
    constructor Init(compare: (K, K) -> int)
      requires TotalOrder(compare)
      ensures Valid() && Model() == map[] && size == 0 && tree.compare == compare
    {
      tree := new RBtree.Init(compare);
      size := 0;
      new;
      assert View(tree.nodes, tree.elems) == map[];
    }

    /** Go's `Size`: the number of keys in the map. */
    function Size(): (r: nat)
      reads this, tree
      requires Valid()
      ensures r == |Model()|
    {
      ViewSize(tree.nodes, tree.elems);
      size
    }

    /** Go's `End`: the iterator past either end. */
    function End(): (r: MapIterator)
      ensures r.IsEnd()
    {
      MapIterator(NIL)
    }

    /** Go's `Begin`: End on an empty map, otherwise the iterator of the smallest key. */
    method Begin() returns (r: MapIterator)
      requires Valid()
      ensures r.IsEnd() <==> Model() == map[]
      ensures !r.IsEnd() ==> r.node in tree.elems && Least(Model(), tree.compare, tree.nodes[r.node].key)
    {
      ViewSize(tree.nodes, tree.elems);
      if size > 0 {
        var n := tree.Begin();
        MinIsLeast(tree.nodes, tree.elems, tree.compare, n);
        return MapIterator(n);
      }
      return MapIterator(NIL);
    }

    /** Go's `Rbegin`: End on an empty map, otherwise the iterator of the largest key. */
    method Rbegin() returns (r: MapIterator)
      requires Valid()
      ensures r.IsEnd() <==> Model() == map[]
      ensures !r.IsEnd() ==> r.node in tree.elems && Greatest(Model(), tree.compare, tree.nodes[r.node].key)
    {
      ViewSize(tree.nodes, tree.elems);
      if size > 0 {
        var n := tree.Rbegin();
        MaxIsGreatest(tree.nodes, tree.elems, tree.compare, n);
        return MapIterator(n);
      }
      return MapIterator(NIL);
    }

    /** Go's `Find`: the iterator of `key`, End when no key of the map equals it. */
    method Find(key: K) returns (r: MapIterator)
      requires Valid()
      ensures r.IsEnd() <==> key !in Model()
      ensures !r.IsEnd() ==> r.node in tree.elems && tree.nodes[r.node].key == key
    {
      var isParent, node := tree.Find(key);
      ViewHas(tree.nodes, tree.elems, key);
      if !isParent && node != NIL {
        return MapIterator(node);
      }
      return MapIterator(NIL);
    }

    /**
     * Go's `Set`: a key already there keeps its node and gets the new value;
     * a new key goes into a new node and the count grows by one.
     */
    method Set(key: K, value: V) returns (r: MapIterator)
      modifies this, tree
      requires Valid()
      ensures Valid() && Model() == old(Model())[key := value]
      ensures size == old(size) + (if key in old(Model()) then 0 else 1)
      ensures r.node in tree.elems && tree.nodes[r.node].key == key && tree.nodes[r.node].value == value
      ensures key in old(Model()) ==>
        && 0 <= r.node < |old(tree.nodes)| && tree.root == old(tree.root)
        && tree.nodes == old(tree.nodes)[r.node := old(tree.nodes)[r.node].(value := value)]
      ensures key in old(Model()) ==> tree.elems == old(tree.elems)
      ensures key !in old(Model()) ==>
        && r.node == |old(tree.nodes)| && |tree.nodes| == r.node + 1 && tree.elems == old(tree.elems) + {r.node}
        && SameSlots(old(tree.nodes), tree.nodes[..r.node]) && tree.nodes[r.node].valid
    {
      var isParent, node := tree.Find(key);
      ViewHas(tree.nodes, tree.elems, key);
      if !isParent && node != NIL {
        ViewSetValue(tree.nodes, tree.elems, node, value);
        tree.SetValue(node, value);
        return MapIterator(node);
      }
      var x := Add(node, key, value);
      return MapIterator(x);
    }

    /** The new-key path of Go's `Set`: a new node for `key` goes below `parent`, and the count grows by one. */
    method Add(parent: int, key: K, value: V) returns (x: int)
      modifies this, tree
      requires Valid() && InsertionPoint(tree.nodes, tree.elems, tree.sub, tree.compare, key, parent)
      ensures Valid() && key !in old(Model()) && Model() == old(Model())[key := value] && size == old(size) + 1
      ensures x == |old(tree.nodes)| && x in tree.elems && tree.nodes[x].key == key && tree.nodes[x].value == value
      ensures |tree.nodes| == x + 1 && tree.elems == old(tree.elems) + {x}
      ensures SameSlots(old(tree.nodes), tree.nodes[..x]) && tree.nodes[x].valid
    {
      ghost var n0 := tree.nodes;
      ViewHas(tree.nodes, tree.elems, key);
      Appended(tree.nodes, tree.elems, tree.sub, tree.compare, key, parent, RBNode(key, value, NIL, NIL, NIL, Red, false));
      x := tree.NewNode(key, value);
      ghost var n1, e1 := tree.nodes, tree.elems;
      assert n1[x].key == key && n1[x].value == value;
      tree.Insert(parent, x);
      AppendedSlots(n0, RBNode(key, value, NIL, NIL, NIL, Red, false), tree.nodes);
      ViewInsert(n1, e1, x, tree.nodes);
      assert |tree.elems| == |e1| + 1;
      size := size + 1;
    }

    /** Go's `Erase`: End or an iterator whose node has left the tree changes nothing; otherwise its key goes. */
    method Erase(it: MapIterator)
      modifies this, tree
      requires Valid() && (it.node == NIL || 0 <= it.node < |tree.nodes|)
      ensures Valid()
      ensures if it.node != NIL && old(tree.nodes[it.node].valid) then
          && Model() == old(Model()) - {old(tree.nodes[it.node].key)}
          && size == old(size) - 1
          && tree.elems == old(tree.elems) - {it.node}
          && SameSlots(old(tree.nodes)[it.node := old(tree.nodes[it.node]).(valid := false)], tree.nodes)
        else
          && tree.nodes == old(tree.nodes) && tree.elems == old(tree.elems)
          && Model() == old(Model()) && size == old(size)
    {
      if it.node != NIL && tree.nodes[it.node].valid {
        ghost var n0, e0 := tree.nodes, tree.elems;
        tree.Remove(it.node);
        ViewRemove(n0, e0, it.node, tree.nodes);
        size := size - 1;
      }
    }

    /** Go's `Remove`: `key` leaves the map; an absent key changes nothing. */
    method Remove(key: K)
      modifies this, tree
      requires Valid()
      ensures Valid() && Model() == old(Model()) - {key}
      ensures size == old(size) - (if key in old(Model()) then 1 else 0)
      ensures key !in old(Model()) ==> tree.nodes == old(tree.nodes) && tree.elems == old(tree.elems) && size == old(size)
      ensures forall x :: x in old(tree.elems) && old(tree.nodes[x].key) == key ==>
        && tree.elems == old(tree.elems) - {x}
        && SameSlots(old(tree.nodes)[x := old(tree.nodes[x]).(valid := false)], tree.nodes)
    {
      var it := Find(key);
      if !it.IsEnd() {
        assert ShapeAt(tree.nodes, tree.root, tree.elems, tree.sub, NIL, it.node);
        OnlySlot(tree.nodes, tree.elems, it.node);
      }
      Erase(it);
      if key !in old(Model()) {
        assert old(Model()) - {key} == old(Model());
      }
    }

    /** Go's `Clear`: erase the first entry until the count is zero. */
    method Clear()
      modifies this, tree
      requires Valid()
      ensures Valid() && Model() == map[] && size == 0
      ensures tree.elems == {} && RBRotate.SamePayload(old(tree.nodes), tree.nodes)
    {
      while size > 0
        invariant Valid() && RBRotate.SamePayload(old(tree.nodes), tree.nodes)
        decreases size
      {
        ViewSize(tree.nodes, tree.elems);
        var b := Begin();
        assert ShapeAt(tree.nodes, tree.root, tree.elems, tree.sub, NIL, b.node);
        ghost var n0 := tree.nodes;
        Erase(b);
        ErasedPayload(old(tree.nodes), n0, b.node, tree.nodes);
      }
      ViewSize(tree.nodes, tree.elems);
    }
  }
}
