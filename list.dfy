/**
 * A doubly linked list with `first`/`last` ends, a `count` and nodes linked
 * through `pre`/`nxt`, all updated in place; and the iterator that names a
 * node of it (or End, a nil node).
 *
 * The ghost sequence `Nodes` lists the nodes from first to last; `Valid()` ties
 * it to the links. Values are of a type parameter `T`; an absent result,
 * Go's `(nil, false)`, is `None`.
 */
module LinkedList {

  datatype Option<+T> = None | Some(value: T)

  class ListNode<T> {
    var pre: ListNode?<T>
    var nxt: ListNode?<T>
    var value: T

    constructor (pre: ListNode?<T>, nxt: ListNode?<T>, value: T)
      ensures this.pre == pre && this.nxt == nxt && this.value == value
    {
      this.pre := pre;
      this.nxt := nxt;
      this.value := value;
    }

    /** A node unlinked from its list: both links are nil. */
    predicate Detached()
      reads this
    {
      pre == null && nxt == null
    }
  }

  class List<T> {
    var first: ListNode?<T>
    var last: ListNode?<T>
    var count: int
    ghost var Nodes: seq<ListNode<T>>

    /** The links, ends and count agree with `Nodes`, and no node occurs twice. */
    ghost predicate Valid()
      reads this, Nodes
    {
      && count == |Nodes|
      && (Nodes == [] ==> first == null && last == null)
      && (Nodes != [] ==> first == Nodes[0] && last == Nodes[|Nodes| - 1])
      && (Nodes != [] ==> Nodes[0].pre == null && Nodes[|Nodes| - 1].nxt == null)
      && (forall i :: 0 < i < |Nodes| ==> Nodes[i].pre == Nodes[i - 1])
      && (forall i :: 0 <= i < |Nodes| - 1 ==> Nodes[i].nxt == Nodes[i + 1])
      && (forall i, j :: 0 <= i < j < |Nodes| ==> Nodes[i] != Nodes[j])
    }

    /** The values from first to last. */
    ghost function Contents(): seq<T>
      reads this, Nodes
    {
      seq(|Nodes|, i reads this, Nodes requires 0 <= i < |Nodes| => Nodes[i].value)
    }

    /** Go's zero value: an empty list. */
    constructor ()
      ensures Valid() && Nodes == [] && Contents() == []
    {
      first, last, count := null, null, 0;
      Nodes := [];
    }

    function Size(): (r: int)
      reads this, Nodes
      requires Valid()
      ensures r == |Contents()|
    {
      count
    }

    function End(): (it: ListIterator<T>)
      reads this
      ensures it.root == this && it.node == null
    {
      ListIterator(this, null)
    }

    function Front(): (it: ListIterator<T>)
      reads this, Nodes
      requires Valid()
      ensures it.root == this
      ensures Nodes == [] ==> it.node == null
      ensures Nodes != [] ==> it.node == Nodes[0]
    {
      ListIterator(this, first)
    }

    function Back(): (it: ListIterator<T>)
      reads this, Nodes
      requires Valid()
      ensures it.root == this
      ensures Nodes == [] ==> it.node == null
      ensures Nodes != [] ==> it.node == Nodes[|Nodes| - 1]
    {
      ListIterator(this, last)
    }

    method PushBack(value: T) returns (it: ListIterator<T>)
      requires Valid()
      modifies this, Nodes
      ensures Valid()
      ensures Contents() == old(Contents()) + [value]
      ensures Nodes == old(Nodes) + [it.node] && fresh(it.node)
      ensures it.root == this && it.node == last
    {
      var n := new ListNode(last, null, value);
      if count == 0 {
        first := n;
      } else {
        last.nxt := n;
      }
      last := n;
      count := count + 1;
      Nodes := Nodes + [n];
      it := ListIterator(this, n);
      forall i | 0 < i < |Nodes| ensures Nodes[i].pre == Nodes[i - 1] {
        if i < |Nodes| - 1 {
          assert old(Nodes[i].pre) == old(Nodes[i - 1]);
        }
      }
      forall i | 0 <= i < |Nodes| - 1 ensures Nodes[i].nxt == Nodes[i + 1] {
        if i < |Nodes| - 2 {
          assert old(Nodes[i].nxt) == old(Nodes[i + 1]);
        }
      }
      assert Contents() == old(Contents()) + [value];
    }

    method PushFront(value: T) returns (it: ListIterator<T>)
      requires Valid()
      modifies this, Nodes
      ensures Valid()
      ensures Contents() == [value] + old(Contents())
      ensures Nodes == [it.node] + old(Nodes) && fresh(it.node)
      ensures it.root == this && it.node == first
    {
      var n := new ListNode(null, first, value);
      if count == 0 {
        last := n;
      } else {
        first.pre := n;
      }
      first := n;
      count := count + 1;
      Nodes := [n] + Nodes;
      it := ListIterator(this, n);
      forall i | 0 < i < |Nodes| ensures Nodes[i].pre == Nodes[i - 1] {
        if i > 1 {
          assert old(Nodes[i - 1].pre) == old(Nodes[i - 2]);
        }
      }
      forall i | 0 <= i < |Nodes| - 1 ensures Nodes[i].nxt == Nodes[i + 1] {
        if i > 0 {
          assert old(Nodes[i - 1].nxt) == old(Nodes[i]);
        }
      }
      assert Contents() == [value] + old(Contents());
    }

    method PopFront() returns (r: Option<T>)
      requires Valid()
      modifies this, Nodes
      ensures Valid()
      ensures old(Nodes) == [] ==> r.None? && Nodes == [] && first == null && last == null
      ensures old(Nodes) != [] ==>
        r == Some(old(Nodes[0].value)) && Contents() == old(Contents())[1..] &&
        Nodes == old(Nodes)[1..] && old(Nodes)[0].Detached()
      ensures Nodes == [] ==> first == null && last == null
    {
      if count == 0 {
        return None;
      }
      var rnode := first;
      var ret := rnode.value;
      assert |Nodes| > 1 ==> rnode.nxt == Nodes[1];
      first := rnode.nxt;
      count := count - 1;
      if count == 0 {
        last := null;
      } else {
        first.pre := null;
        rnode.nxt := null;
      }
      Nodes := Nodes[1..];
      r := Some(ret);
      forall i | 0 < i < |Nodes| ensures Nodes[i].pre == Nodes[i - 1] {
        assert old(Nodes[i + 1].pre) == old(Nodes[i]);
      }
      forall i | 0 <= i < |Nodes| - 1 ensures Nodes[i].nxt == Nodes[i + 1] {
        assert old(Nodes[i + 1].nxt) == old(Nodes[i + 2]);
      }
      assert Contents() == old(Contents())[1..];
    }

    method PopBack() returns (r: Option<T>)
      requires Valid()
      modifies this, Nodes
      ensures Valid()
      ensures old(Nodes) == [] ==> r.None? && Nodes == [] && first == null && last == null
      ensures old(Nodes) != [] ==>
        r == Some(old(Nodes[|Nodes| - 1].value)) &&
        Contents() == old(Contents())[..|old(Contents())| - 1] &&
        Nodes == old(Nodes)[..|old(Nodes)| - 1] && old(Nodes)[|old(Nodes)| - 1].Detached()
      ensures Nodes == [] ==> first == null && last == null
    {
      if count == 0 {
        return None;
      }
      var rnode := last;
      var ret := rnode.value;
      assert |Nodes| > 1 ==> rnode.pre == Nodes[|Nodes| - 2];
      last := rnode.pre;
      count := count - 1;
      if count == 0 {
        first := null;
      } else {
        last.nxt := null;
        rnode.pre := null;
      }
      Nodes := Nodes[..|Nodes| - 1];
      r := Some(ret);
      forall i | 0 < i < |Nodes| ensures Nodes[i].pre == Nodes[i - 1] {
        assert old(Nodes[i].pre) == old(Nodes[i - 1]);
      }
      forall i | 0 <= i < |Nodes| - 1 ensures Nodes[i].nxt == Nodes[i + 1] {
        assert old(Nodes[i].nxt) == old(Nodes[i + 1]);
      }
      assert Contents() == old(Contents())[..|old(Contents())| - 1];
    }

    method Clear()
      requires Valid()
      modifies this, Nodes
      ensures Valid() && Nodes == [] && count == 0 && Contents() == []
      ensures forall n :: n in old(Nodes) ==> n.Detached()
    {
      while count > 0
        invariant Valid()
        invariant |Nodes| <= |old(Nodes)| && Nodes == old(Nodes)[|old(Nodes)| - |Nodes|..]
        invariant forall k :: 0 <= k < |old(Nodes)| - |Nodes| ==> old(Nodes)[k].Detached()
        decreases count
      {
        ghost var before := Nodes;
        var _ := PopFront();
        assert old(Nodes)[|old(Nodes)| - |before|] == before[0];
      }
    }
  }

  /** A position in a list: a node of it, or End (a nil node). */
  datatype ListIterator<T> = ListIterator(root: List?<T>, node: ListNode?<T>)
  {
    /**
     * The iterators the list hands out: a nil root comes only with a nil node,
     * and a node is one of the list's nodes or one unlinked from it.
     */
    ghost predicate WellFormed()
      reads root, node, if root != null then root.Nodes else []
    {
      && (root == null ==> node == null)
      && (root != null ==> root.Valid())
      && (node != null ==> root != null && (node in root.Nodes || (node !in root.Nodes && node.pre == null && node.nxt == null)))
    }

    /** The node's links still place it in the list (End is always valid). */
    predicate Valid()
      reads root, node, if root != null then root.Nodes else []
      requires WellFormed()
      ensures Valid() <==> root != null && (node == null || node in root.Nodes)
    {
      if root == null then false
      else if node == null then true
      else if root.count == 0 then false
      else
        Neighbours(root, node);
        if node.pre == null then root.first == node
      else if node.nxt == null then root.last == node
      else node.pre.nxt == node && node.nxt.pre == node
    }

    /** Overwrites the node's value; fails on End. */
    method Set(value: T) returns (ok: bool)
      requires WellFormed()
      modifies node
      ensures ok <==> node != null
      ensures ok ==> node.value == value
      ensures root != null && node != null && node in root.Nodes ==>
        exists k :: 0 <= k < |root.Nodes| && root.Nodes[k] == node && root.Contents() == old(root.Contents())[k := value]
      ensures root != null && (node == null || node !in root.Nodes) ==> root.Contents() == old(root.Contents())
    {
      if node == null {
        return false;
      }
      ghost var inList := root != null && node in root.Nodes;
      ghost var k := if inList then IndexOf(root.Nodes, node) else 0;
      node.value := value;
      if inList {
        assert root.Contents() == old(root.Contents())[k := value];
      }
      return true;
    }

    function Value(): (r: Option<T>)
      reads root, node, if root != null then root.Nodes else []
      requires WellFormed()
      ensures r.None? <==> root == null || node == null || node !in root.Nodes
      ensures r.Some? ==> r.value == node.value
    {
      if Valid() && node != null then Some(node.value) else None
    }

    /** The iterator on the next node (End past the last node, or when this one is End or invalid). */
    function Back(): (it: ListIterator<T>)
      reads root, node, if root != null then root.Nodes else []
      requires WellFormed()
      ensures it.root == root && it.WellFormed()
      ensures root != null && node != null && node in root.Nodes ==>
        var k := IndexOf(root.Nodes, node);
        it.node == if k + 1 < |root.Nodes| then root.Nodes[k + 1] else null
      ensures root == null || node == null || node !in root.Nodes ==> it.node == null
    {
      if Valid() && node != null then
        LinksAt(root, IndexOf(root.Nodes, node));
        ListIterator(root, node.nxt)
      else ListIterator(root, null)
    }

    /** The iterator on the previous node (End before the first node, or when this one is End or invalid). */
    function Front(): (it: ListIterator<T>)
      reads root, node, if root != null then root.Nodes else []
      requires WellFormed()
      ensures it.root == root && it.WellFormed()
      ensures root != null && node != null && node in root.Nodes ==>
        var k := IndexOf(root.Nodes, node);
        it.node == if k > 0 then root.Nodes[k - 1] else null
      ensures root == null || node == null || node !in root.Nodes ==> it.node == null
    {
      if Valid() && node != null then
        LinksAt(root, IndexOf(root.Nodes, node));
        ListIterator(root, node.pre)
      else ListIterator(root, null)
    }

    /**
     * Unlinks the node and returns its value. Go dereferences the nil node of
     * End on a non-empty list, so that call is excluded.
     */
    method Remove() returns (r: Option<T>)
      requires WellFormed()
      requires root != null && node == null ==> root.count == 0
      modifies root, if root != null then root.Nodes else []
      ensures root != null ==> root.Valid()
      ensures root == null || node == null || old(node !in root.Nodes) ==>
        r.None? && (root != null ==> root.Nodes == old(root.Nodes) && root.Contents() == old(root.Contents()))
      ensures root != null && node != null && old(node in root.Nodes) ==>
        var k := old(IndexOf(root.Nodes, node));
        r == Some(old(node.value)) &&
        root.Nodes == old(root.Nodes[..k] + root.Nodes[k + 1..]) &&
        root.Contents() == old(root.Contents()[..k] + root.Contents()[k + 1..]) &&
        node.Detached()
    {
      if !Valid() || root.count == 0 {
        return None;
      }
      assert node in root.Nodes;
      ghost var nodes := root.Nodes;
      ghost var k := IndexOf(root.Nodes, node);
      LinksAt(root, k);
      if node.pre == null || node.nxt == null {
        r := PopAt(root, node, k);
        return;
      }
      assert 0 < k < |nodes| - 1;
      var ret := Unlink(root, node, k);
      r := Some(ret);
    }

    /** Links a new node holding `value` just before this one; fails on End or an invalid iterator. */
    method InsertFront(value: T) returns (it: ListIterator<T>, ok: bool)
      requires WellFormed()
      modifies root, if root != null then root.Nodes else []
      ensures root != null ==> root.Valid()
      ensures it.root == root
      ensures ok <==> root != null && node != null && old(node in root.Nodes)
      ensures !ok ==> it.node == null && (root != null ==> root.Nodes == old(root.Nodes) && root.Contents() == old(root.Contents()))
      ensures ok ==>
        var k := old(IndexOf(root.Nodes, node));
        fresh(it.node) &&
        root.Nodes == old(root.Nodes[..k]) + [it.node] + old(root.Nodes[k..]) &&
        root.Contents() == old(root.Contents()[..k]) + [value] + old(root.Contents()[k..])
    {
      if !Valid() || node == null {
        return ListIterator(root, null), false;
      }
      var n := LinkBefore(root, node, IndexOf(root.Nodes, node), value);
      return ListIterator(root, n), true;
    }

    /** Links a new node holding `value` just after this one; fails on End or an invalid iterator. */
    method InsertBack(value: T) returns (it: ListIterator<T>, ok: bool)
      requires WellFormed()
      modifies root, if root != null then root.Nodes else []
      ensures root != null ==> root.Valid()
      ensures it.root == root
      ensures ok <==> root != null && node != null && old(node in root.Nodes)
      ensures !ok ==> it.node == null && (root != null ==> root.Nodes == old(root.Nodes) && root.Contents() == old(root.Contents()))
      ensures ok ==>
        var k := old(IndexOf(root.Nodes, node));
        fresh(it.node) &&
        root.Nodes == old(root.Nodes[..k + 1]) + [it.node] + old(root.Nodes[k + 1..]) &&
        root.Contents() == old(root.Contents()[..k + 1]) + [value] + old(root.Contents()[k + 1..])
    {
      if !Valid() || node == null {
        return ListIterator(root, null), false;
      }
      var n := LinkAfter(root, node, IndexOf(root.Nodes, node), value);
      return ListIterator(root, n), true;
    }
  }

  /**
   * The end-node cases of `ListIterator.Remove`: the first node goes by
   * `PopFront`, the last by `PopBack`.
   */
  method PopAt<T>(l: List<T>, node: ListNode<T>, ghost k: int) returns (r: Option<T>)
    requires l.Valid() && 0 <= k < |l.Nodes| && l.Nodes[k] == node
    requires node.pre == null || node.nxt == null
    modifies l, l.Nodes
    ensures l.Valid() && node.Detached() && r == Some(old(node.value))
    ensures l.Nodes == old(l.Nodes[..k] + l.Nodes[k + 1..])
    ensures l.Contents() == old(l.Contents()[..k] + l.Contents()[k + 1..])
  {
    ghost var nodes, vals := l.Nodes, l.Contents();
    LinksAt(l, k);
    DropEnds(nodes, k);
    DropEnds(vals, k);
    assert vals[k] == node.value;
    if node.pre == null {
      r := l.PopFront();
      assert l.Nodes == nodes[1..] && l.Contents() == vals[1..];
    } else {
      r := l.PopBack();
      assert l.Nodes == nodes[..k] && l.Contents() == vals[..k];
    }
  }

  /**
   * The inner-node case of `ListIterator.Remove`: joins the node's neighbours,
   * decrements the count and clears the node's links.
   */
  method Unlink<T>(l: List<T>, node: ListNode<T>, ghost k: int) returns (v: T)
    requires l.Valid() && 0 < k < |l.Nodes| - 1 && l.Nodes[k] == node
    modifies l, l.Nodes
    ensures l.Valid() && node.Detached() && v == old(node.value)
    ensures l.Nodes == old(l.Nodes[..k] + l.Nodes[k + 1..])
    ensures l.Contents() == old(l.Contents()[..k] + l.Contents()[k + 1..])
  {
    ghost var nodes, vals := l.Nodes, l.Contents();
    LinksAt(l, k);
    node.pre.nxt := node.nxt;
    node.nxt.pre := node.pre;
    l.count := l.count - 1;
    v := node.value;
    node.pre := null;
    node.nxt := null;
    l.Nodes := l.Nodes[..k] + l.Nodes[k + 1..];
    forall i {:trigger nodes[i].pre} | 0 <= i < |nodes| && i != k
      ensures nodes[i].pre == (if i == k + 1 then nodes[k - 1] else if i == 0 then null else nodes[i - 1])
    {
      if i > 0 {
        assert old(nodes[i].pre) == nodes[i - 1];
      }
      assert nodes[i] != nodes[k];
      if i != k + 1 {
        assert nodes[i] != nodes[k + 1];
      }
    }
    forall i {:trigger nodes[i].nxt} | 0 <= i < |nodes| && i != k
      ensures nodes[i].nxt == (if i == k - 1 then nodes[k + 1] else if i == |nodes| - 1 then null else nodes[i + 1])
    {
      if i < |nodes| - 1 {
        assert old(nodes[i].nxt) == nodes[i + 1];
      }
      assert nodes[i] != nodes[k];
      if i != k - 1 {
        assert nodes[i] != nodes[k - 1];
      }
    }
    SplicedOut(l, nodes, vals, k);
  }

  /** The linking step of `ListIterator.InsertFront`: a new node holding `value` goes in before `node`. */
  method LinkBefore<T>(l: List<T>, node: ListNode<T>, ghost k: int, value: T) returns (n: ListNode<T>)
    requires l.Valid() && 0 <= k < |l.Nodes| && l.Nodes[k] == node
    modifies l, l.Nodes
    ensures l.Valid() && fresh(n)
    ensures l.Nodes == old(l.Nodes[..k]) + [n] + old(l.Nodes[k..])
    ensures l.Contents() == old(l.Contents()[..k]) + [value] + old(l.Contents()[k..])
  {
    ghost var nodes, vals := l.Nodes, l.Contents();
    LinksAt(l, k);
    n := new ListNode(node.pre, node, value);
    node.pre := n;
    if n.pre == null {
      l.first := n;
    } else {
      n.pre.nxt := n;
    }
    l.count := l.count + 1;
    l.Nodes := l.Nodes[..k] + [n] + l.Nodes[k..];
    forall i {:trigger nodes[i].pre} | 0 <= i < |nodes|
      ensures nodes[i].pre == (if i == k then n else if i == 0 then null else nodes[i - 1])
    {
      if i > 0 {
        assert old(nodes[i].pre) == nodes[i - 1];
      }
      if i != k {
        assert nodes[i] != nodes[k];
      }
    }
    forall i {:trigger nodes[i].nxt} | 0 <= i < |nodes|
      ensures nodes[i].nxt == (if i == k - 1 then n else if i == |nodes| - 1 then null else nodes[i + 1])
    {
      if i < |nodes| - 1 {
        assert old(nodes[i].nxt) == nodes[i + 1];
      }
      if 0 < k && i != k - 1 {
        assert nodes[i] != nodes[k - 1];
      }
    }
    SplicedIn(l, nodes, vals, k, n);
  }

  /** The linking step of `ListIterator.InsertBack`: a new node holding `value` goes in after `node`. */
  method LinkAfter<T>(l: List<T>, node: ListNode<T>, ghost k: int, value: T) returns (n: ListNode<T>)
    requires l.Valid() && 0 <= k < |l.Nodes| && l.Nodes[k] == node
    modifies l, l.Nodes
    ensures l.Valid() && fresh(n)
    ensures l.Nodes == old(l.Nodes[..k + 1]) + [n] + old(l.Nodes[k + 1..])
    ensures l.Contents() == old(l.Contents()[..k + 1]) + [value] + old(l.Contents()[k + 1..])
  {
    ghost var nodes, vals := l.Nodes, l.Contents();
    LinksAt(l, k);
    n := new ListNode(node, node.nxt, value);
    node.nxt := n;
    if n.nxt == null {
      l.last := n;
    } else {
      n.nxt.pre := n;
    }
    l.count := l.count + 1;
    l.Nodes := l.Nodes[..k + 1] + [n] + l.Nodes[k + 1..];
    forall i {:trigger nodes[i].pre} | 0 <= i < |nodes|
      ensures nodes[i].pre == (if i == k + 1 then n else if i == 0 then null else nodes[i - 1])
    {
      if i > 0 {
        assert old(nodes[i].pre) == nodes[i - 1];
      }
      if i != k + 1 && k < |nodes| - 1 {
        assert nodes[i] != nodes[k + 1];
      }
    }
    forall i {:trigger nodes[i].nxt} | 0 <= i < |nodes|
      ensures nodes[i].nxt == (if i == k then n else if i == |nodes| - 1 then null else nodes[i + 1])
    {
      if i < |nodes| - 1 {
        assert old(nodes[i].nxt) == nodes[i + 1];
      }
      if i != k {
        assert nodes[i] != nodes[k];
      }
    }
    SplicedIn(l, nodes, vals, k + 1, n);
  }

  /**
   * A list whose nodes are `nodes` with a node `n` spliced in at position `p`,
   * every link pointing where a valid list's would, is valid, and its values
   * are `vals` with `n.value` at `p`.
   */
  lemma SplicedIn<T>(l: List<T>, nodes: seq<ListNode<T>>, vals: seq<T>, p: int, n: ListNode<T>)
    requires 0 <= p <= |nodes| == |vals| && n !in nodes
    requires forall i, j :: 0 <= i < j < |nodes| ==> nodes[i] != nodes[j]
    requires l.Nodes == nodes[..p] + [n] + nodes[p..] && l.count == |nodes| + 1
    requires l.first == (if p == 0 then n else nodes[0])
    requires l.last == (if p == |nodes| then n else nodes[|nodes| - 1])
    requires n.pre == (if p == 0 then null else nodes[p - 1])
    requires n.nxt == (if p == |nodes| then null else nodes[p])
    requires forall i :: 0 <= i < |nodes| ==> nodes[i].value == vals[i]
    requires forall i {:trigger nodes[i].pre} :: 0 <= i < |nodes| ==> nodes[i].pre == (if i == p then n else if i == 0 then null else nodes[i - 1])
    requires forall i {:trigger nodes[i].nxt} :: 0 <= i < |nodes| ==> nodes[i].nxt == (if i == p - 1 then n else if i == |nodes| - 1 then null else nodes[i + 1])
    ensures l.Valid()
    ensures l.Contents() == vals[..p] + [n.value] + vals[p..]
  {
    forall i | 0 < i < |l.Nodes| ensures l.Nodes[i].pre == l.Nodes[i - 1] {
      if i < p {
        assert l.Nodes[i] == nodes[i] && l.Nodes[i - 1] == nodes[i - 1];
      } else if i == p + 1 {
        assert l.Nodes[i] == nodes[p];
      } else if i > p + 1 {
        assert l.Nodes[i] == nodes[i - 1] && l.Nodes[i - 1] == nodes[i - 2];
      }
    }
    forall i | 0 <= i < |l.Nodes| - 1 ensures l.Nodes[i].nxt == l.Nodes[i + 1] {
      if i < p - 1 {
        assert l.Nodes[i] == nodes[i] && l.Nodes[i + 1] == nodes[i + 1];
      } else if i == p - 1 {
        assert l.Nodes[i] == nodes[p - 1];
      } else if i > p {
        assert l.Nodes[i] == nodes[i - 1] && l.Nodes[i + 1] == nodes[i];
      }
    }
    forall i, j | 0 <= i < j < |l.Nodes| ensures l.Nodes[i] != l.Nodes[j] {
      if i != p && j != p {
        var i', j' := if i < p then i else i - 1, if j < p then j else j - 1;
        assert l.Nodes[i] == nodes[i'] && l.Nodes[j] == nodes[j'];
      }
    }
    if p > 0 {
      assert l.Nodes[0] == nodes[0];
    }
    if p < |nodes| {
      assert l.Nodes[|l.Nodes| - 1] == nodes[|nodes| - 1];
    }
    forall i | 0 <= i < |l.Nodes| ensures l.Contents()[i] == (vals[..p] + [n.value] + vals[p..])[i] {
      if i < p {
        assert l.Nodes[i] == nodes[i];
      } else if i > p {
        assert l.Nodes[i] == nodes[i - 1];
      }
    }
  }

  /**
   * A list whose nodes are `nodes` without the inner one at position `p`, its
   * neighbours joined and every other link pointing where a valid list's
   * would, is valid, and its values are `vals` without the one at `p`.
   */
  lemma SplicedOut<T>(l: List<T>, nodes: seq<ListNode<T>>, vals: seq<T>, p: int)
    requires 0 < p < |nodes| - 1 && |nodes| == |vals|
    requires forall i, j :: 0 <= i < j < |nodes| ==> nodes[i] != nodes[j]
    requires l.Nodes == nodes[..p] + nodes[p + 1..] && l.count == |nodes| - 1
    requires l.first == nodes[0] && l.last == nodes[|nodes| - 1]
    requires forall i :: 0 <= i < |nodes| && i != p ==> nodes[i].value == vals[i]
    requires forall i {:trigger nodes[i].pre} :: 0 <= i < |nodes| && i != p ==> nodes[i].pre == (if i == p + 1 then nodes[p - 1] else if i == 0 then null else nodes[i - 1])
    requires forall i {:trigger nodes[i].nxt} :: 0 <= i < |nodes| && i != p ==> nodes[i].nxt == (if i == p - 1 then nodes[p + 1] else if i == |nodes| - 1 then null else nodes[i + 1])
    ensures l.Valid()
    ensures l.Contents() == vals[..p] + vals[p + 1..]
  {
    forall i | 0 < i < |l.Nodes| ensures l.Nodes[i].pre == l.Nodes[i - 1] {
      if i < p {
        assert l.Nodes[i] == nodes[i] && l.Nodes[i - 1] == nodes[i - 1];
      } else if i == p {
        assert l.Nodes[i] == nodes[p + 1] && l.Nodes[i - 1] == nodes[p - 1];
      } else {
        assert l.Nodes[i] == nodes[i + 1] && l.Nodes[i - 1] == nodes[i];
      }
    }
    forall i | 0 <= i < |l.Nodes| - 1 ensures l.Nodes[i].nxt == l.Nodes[i + 1] {
      if i < p - 1 {
        assert l.Nodes[i] == nodes[i] && l.Nodes[i + 1] == nodes[i + 1];
      } else if i == p - 1 {
        assert l.Nodes[i] == nodes[p - 1] && l.Nodes[i + 1] == nodes[p + 1];
      } else {
        assert l.Nodes[i] == nodes[i + 1] && l.Nodes[i + 1] == nodes[i + 2];
      }
    }
    assert l.Nodes[0] == nodes[0];
    assert l.Nodes[|l.Nodes| - 1] == nodes[|nodes| - 1];
    forall i, j | 0 <= i < j < |l.Nodes| ensures l.Nodes[i] != l.Nodes[j] {
      var i', j' := if i < p then i else i + 1, if j < p then j else j + 1;
      assert l.Nodes[i] == nodes[i'] && l.Nodes[j] == nodes[j'];
    }
    forall i | 0 <= i < |l.Nodes| ensures l.Contents()[i] == (vals[..p] + vals[p + 1..])[i] {
      if i < p {
        assert l.Nodes[i] == nodes[i];
      } else {
        assert l.Nodes[i] == nodes[i + 1];
      }
    }
  }

  /** A node of a valid list sits between its neighbours, and a nil link marks an end. */
  lemma Neighbours<T>(l: List<T>, n: ListNode<T>)
    requires l.Valid()
    ensures n in l.Nodes && n.pre != null ==> n.pre in l.Nodes && n.pre.nxt == n
    ensures n in l.Nodes && n.nxt != null ==> n.nxt in l.Nodes && n.nxt.pre == n
    ensures n in l.Nodes && n.pre == null ==> l.first == n
    ensures n in l.Nodes && n.nxt == null ==> l.last == n
  {
    if n in l.Nodes {
      var k := IndexOf(l.Nodes, n);
      if k > 0 {
        assert l.Nodes[k].pre == l.Nodes[k - 1];
      }
      if k < |l.Nodes| - 1 {
        assert l.Nodes[k].nxt == l.Nodes[k + 1];
      }
    }
  }

  /** The links of the node at position `k` of a valid list. */
  lemma LinksAt<T>(l: List<T>, k: int)
    requires l.Valid() && 0 <= k < |l.Nodes|
    ensures l.Nodes[k].pre == (if k == 0 then null else l.Nodes[k - 1])
    ensures l.Nodes[k].nxt == (if k == |l.Nodes| - 1 then null else l.Nodes[k + 1])
    ensures l.Nodes[k].pre == null <==> k == 0
    ensures l.Nodes[k].nxt == null <==> k == |l.Nodes| - 1
  {
  }

  /** Dropping the first or the last element of a sequence, written as a cut at `k`. */
  lemma DropEnds<X>(s: seq<X>, k: int)
    requires 0 <= k < |s|
    ensures k == 0 ==> s[..k] + s[k + 1..] == s[1..]
    ensures k == |s| - 1 ==> s[..k] + s[k + 1..] == s[..k]
  {
    if k == 0 {
      assert s[..k] + s[k + 1..] == s[1..];
    }
    if k == |s| - 1 {
      assert s[..k] + s[k + 1..] == s[..k];
    }
  }

  /** The position of `x` in `s`. */
  ghost function IndexOf<T>(s: seq<T>, x: T): (k: nat)
    requires x in s
    ensures k < |s| && s[k] == x
  {
    var k :| 0 <= k < |s| && s[k] == x; k
  }
}
