/**
 * The exclusively-owned singly-linked stack.
 *
 * Every node is owned by exactly one link (the list's `head` or the `next`
 * of its predecessor), so the nodes form an acyclic chain ending in an empty
 * `next`. The ghost sequence `nodes` is that chain, head first; the list's
 * abstract value is the sequence of their values, so `push` and `pop` work at
 * index 0.
 */
module SinglyLinked {
  import opened Shared

  class Node<T> {
    var val: T
    var next: Node?<T>

    constructor (val: T, next: Node?<T>)
      ensures this.val == val && this.next == next
    {
      this.val := val;
      this.next := next;
    }
  }

  /**
   * `ns` is the chain that starts at `first`: consecutive along `next` and
   * ending with an empty `next`.
   */
  ghost predicate Chain<T>(first: Node?<T>, ns: seq<Node<T>>)
    reads ns`next
  {
    first == (if ns == [] then null else ns[0])
    && (forall i :: 0 <= i < |ns| - 1 ==> ns[i].next == ns[i + 1])
    && (ns != [] ==> ns[|ns| - 1].next == null)
  }

  /** No node occurs twice in `ns`: each node has a single owner. */
  ghost predicate Distinct<T>(ns: seq<Node<T>>)
  {
    forall i, j :: 0 <= i < j < |ns| ==> ns[i] != ns[j]
  }

  /** The values held by `ns`, in order. */
  ghost function Values<T>(ns: seq<Node<T>>): (r: seq<T>)
    reads ns`val
    ensures |r| == |ns|
  {
    if ns == [] then [] else [ns[0].val] + Values(ns[1..])
  }

  /** The value at position `i` is the value of the `i`-th node. */
  lemma {:induction false} ValuesAt<T>(ns: seq<Node<T>>, i: nat)
    requires i < |ns|
    ensures Values(ns)[i] == ns[i].val
  {
    if i > 0 {
      ValuesAt(ns[1..], i - 1);
    }
  }

  /** Every position of `Values(ns)` holds the value of the node there. */
  lemma ValuesPointwise<T>(ns: seq<Node<T>>)
    ensures forall i :: 0 <= i < |ns| ==> Values(ns)[i] == ns[i].val
  {
    forall i | 0 <= i < |ns|
      ensures Values(ns)[i] == ns[i].val
    {
      ValuesAt(ns, i);
    }
  }

  /** If every node holds the image of the matching old value, the values are the mapped old values. */
  lemma ValuesMapped<T>(ns: seq<Node<T>>, before: seq<T>, f: T -> T)
    requires |before| == |ns|
    requires forall i :: 0 <= i < |ns| ==> ns[i].val == f(before[i])
    ensures Values(ns) == Map(f, before)
  {
    ValuesPointwise(ns);
  }

  /** The rest of a chain is the chain of the second node. */
  lemma ChainTail<T>(first: Node<T>, ns: seq<Node<T>>)
    requires Chain(first, ns)
    ensures Chain(first.next, ns[1..])
  {
    assert |ns| > 1 ==> first.next == ns[1];
  }

  class List<T> {
    var head: Node?<T>
    ghost var nodes: seq<Node<T>>

    ghost predicate Valid()
      reads this, nodes`next
    {
      Chain(head, nodes) && Distinct(nodes)
    }

    /** The list's values, from the head (the most recently pushed) on. */
    ghost function Contents(): seq<T>
      reads this, nodes`val
    {
      Values(nodes)
    }

    /** The empty list. */
    constructor ()
      ensures Valid() && Contents() == [] && head == null && nodes == []
    {
      head := null;
      nodes := [];
    }

    /** Puts `v` on top: a fresh node whose `next` is the old head. */
    method Push(v: T)
      requires Valid()
      modifies this
      ensures Valid() && Contents() == [v] + old(Contents())
      ensures head != null && fresh(head) && nodes == [head] + old(nodes)
    {
      var node := new Node(v, head);
      head := node;
      nodes := [node] + nodes;
    }

    /** Takes the top value off, or reports an empty list. */
    method Pop() returns (r: Option<T>)
      requires Valid()
      modifies this
      ensures Valid()
      ensures old(Contents()) == [] ==> r == None && Contents() == [] && nodes == []
      ensures old(Contents()) != [] ==>
        r == Some(old(Contents())[0]) && Contents() == old(Contents())[1..] && nodes == old(nodes[1..])
    {
      if head == null {
        r := None;
      } else {
        var node := head;
        ChainTail(node, nodes);
        head := node.next;
        nodes := nodes[1..];
        r := Some(node.val);
      }
    }

    /** The top value, if there is one; the list is only read. */
    function Head(): (r: Option<T>)
      requires Valid()
      reads this, nodes
      ensures Contents() == [] <==> r == None
      ensures r.Some? ==> r.value == Contents()[0]
    {
      if head == null then None else Some(head.val)
    }

    /** A read-only cursor at the head node. */
    method Iter() returns (it: Iter<T>)
      requires Valid()
      ensures fresh(it) && it.Valid() && it.chain == nodes && it.k == 0 && it.node == head
    {
      it := new Iter(head, nodes);
    }

    /** A writing cursor at the head node. */
    method IterMut() returns (it: IterMut<T>)
      requires Valid()
      ensures fresh(it) && it.Valid() && it.chain == nodes && it.k == 0 && it.node == head
    {
      it := new IterMut(head, nodes);
    }

    /** Moves the list into a draining iterator. */
    method IntoIter() returns (it: IntoIter<T>)
      ensures fresh(it) && it.list == this
    {
      it := new IntoIter(this);
    }

    /** The conversion into a vector: takes the head and collects the values head first. */
    method IntoVec() returns (v: seq<T>)
      requires Valid()
      modifies this
      ensures v == old(Contents())
      ensures head == null && nodes == [] && Valid()
    {
      var node := head;
      ghost var ns := nodes;
      head := null;
      nodes := [];
      v := CollectValues([], node, ns);
    }

    /** The `Display` rendering: "List[" + the values head first, separated by ", " + "]". */
    method Fmt(show: T -> string) returns (s: string)
      requires Valid()
      ensures s == "List[" + Join(Map(show, Contents()), ", ") + "]"
    {
      var v := RenderValues([], head, nodes, show);
      assert v == Map(show, Contents());
      s := "List[" + Join(v, ", ") + "]";
    }

    /**
     * The teardown loop: takes the head, then repeatedly takes the `next` of
     * the current node, so every node's link is cleared one at a time.
     */
    method Drop()
      requires Valid()
      modifies this, nodes
      ensures head == null && nodes == []
      ensures forall i :: 0 <= i < |old(nodes)| ==> old(nodes)[i].next == null
      ensures forall i :: 0 <= i < |old(nodes)| ==> old(nodes)[i].val == old(nodes[i].val)
    {
      var node := head;
      ghost var ns := nodes;
      head := null;
      nodes := [];
      ghost var k := 0;
      while node != null
        invariant 0 <= k <= |ns| && node == if k < |ns| then ns[k] else null
        invariant forall i :: 0 <= i < k ==> ns[i].next == null
        invariant forall i :: k <= i < |ns| - 1 ==> ns[i].next == ns[i + 1]
        invariant ns != [] ==> ns[|ns| - 1].next == null
        invariant forall i, j :: 0 <= i < j < |ns| ==> ns[i] != ns[j]
        invariant forall i :: 0 <= i < |ns| ==> ns[i].val == old(ns[i].val)
        modifies ns
        decreases |ns| - k
      {
        var p := node;
        node := p.next;
        p.next := null;
        k := k + 1;
      }
    }
  }

  /** The recursive helper of the vector conversion: appends every value from `node` on. */
  method CollectValues<T>(v: seq<T>, node: Node?<T>, ghost ns: seq<Node<T>>) returns (w: seq<T>)
    requires Chain(node, ns)
    ensures w == v + Values(ns)
    decreases |ns|
  {
    if node == null {
      w := v;
    } else {
      ChainTail(node, ns);
      w := CollectValues(v + [node.val], node.next, ns[1..]);
    }
  }

  /** The recursive helper of `Display`: appends the rendering of every value from `node` on. */
  method RenderValues<T>(v: seq<string>, node: Node?<T>, ghost ns: seq<Node<T>>, show: T -> string)
    returns (w: seq<string>)
    requires Chain(node, ns)
    ensures w == v + Map(show, Values(ns))
    decreases |ns|
  {
    if node == null {
      w := v;
    } else {
      ChainTail(node, ns);
      w := RenderValues(v + [show(node.val)], node.next, ns[1..], show);
    }
  }

  /**
   * A read-only cursor over the chain `chain` of the list it came from:
   * `node` is `chain[k]`, or empty once all `|chain|` values have been yielded.
   */
  class Iter<T> {
    var node: Node?<T>
    ghost const chain: seq<Node<T>>
    ghost var k: nat

    ghost predicate Valid()
      reads this, chain`next
    {
      Chain(if chain == [] then null else chain[0], chain)
      && k <= |chain|
      && node == (if k < |chain| then chain[k] else null)
    }

    constructor (node: Node?<T>, ghost chain: seq<Node<T>>)
      requires Chain(node, chain)
      ensures Valid() && this.node == node && this.chain == chain && k == 0
    {
      this.node := node;
      this.chain := chain;
      this.k := 0;
    }

    /** Yields the value of the current node and moves to its successor. */
    method Next() returns (r: Option<T>)
      requires Valid()
      modifies this
      ensures Valid()
      ensures old(k) == |chain| ==> r == None && k == old(k)
      ensures old(k) < |chain| ==> r == Some(chain[old(k)].val) && k == old(k) + 1
    {
      if node == null {
        r := None;
      } else {
        r := Some(node.val);
        node := node.next;
        k := k + 1;
      }
    }
  }

  /**
   * A writing cursor over the chain `chain` of the list it came from: `node`
   * is `chain[k]`, or empty once all `|chain|` nodes have been handed out.
   * `Next` hands out the node whose `val` field is the place to write.
   */
  class IterMut<T> {
    var node: Node?<T>
    ghost const chain: seq<Node<T>>
    ghost var k: nat

    ghost predicate Valid()
      reads this, chain`next
    {
      Chain(if chain == [] then null else chain[0], chain)
      && k <= |chain|
      && node == (if k < |chain| then chain[k] else null)
    }

    constructor (node: Node?<T>, ghost chain: seq<Node<T>>)
      requires Chain(node, chain)
      ensures Valid() && this.node == node && this.chain == chain && k == 0
    {
      this.node := node;
      this.chain := chain;
      this.k := 0;
    }

    /** Yields the current node (its value, writable) and moves to its successor. */
    method Next() returns (cell: Node?<T>)
      requires Valid()
      modifies this
      ensures Valid()
      ensures old(k) == |chain| ==> cell == null && k == old(k)
      ensures old(k) < |chain| ==> cell == chain[old(k)] && k == old(k) + 1
    {
      cell := node;
      if cell != null {
        node := cell.next;
        k := k + 1;
      }
    }
  }

  /** The draining iterator: every step is a `Pop` of the list it owns. */
  class IntoIter<T> {
    const list: List<T>

    constructor (list: List<T>)
      ensures this.list == list
    {
      this.list := list;
    }

    method Next() returns (r: Option<T>)
      requires list.Valid()
      modifies list
      ensures list.Valid()
      ensures old(list.Contents()) == [] ==> r == None && list.Contents() == []
      ensures old(list.Contents()) != [] ==>
        r == Some(old(list.Contents())[0]) && list.Contents() == old(list.Contents())[1..]
    {
      r := list.Pop();
    }
  }

  /** `list.iter().collect()`: every value once, head first, and the list is left as it was. */
  method CollectIter<T>(l: List<T>) returns (s: seq<T>)
    requires l.Valid()
    ensures s == l.Contents()
  {
    ghost var ns, c := l.nodes, l.Contents();
    ValuesPointwise(ns);
    var it := l.Iter();
    s := [];
    while true
      invariant fresh(it) && it.Valid() && it.chain == ns
      invariant s == c[..it.k]
      decreases |ns| - it.k
    {
      var x := it.Next();
      if x.None? {
        break;
      }
      assert c[..it.k] == c[..it.k - 1] + [x.value];
      s := s + [x.value];
    }
    assert c[..it.k] == c;
  }

  /**
   * `for v in list.iter_mut() { *v = f(*v) }`: every value is replaced by its
   * image under `f`, in place; the nodes, their order and their number stay.
   */
  method UpdateEach<T>(l: List<T>, f: T -> T)
    requires l.Valid()
    modifies l.nodes`val
    ensures l.Valid() && l.nodes == old(l.nodes)
    ensures l.Contents() == Map(f, old(l.Contents()))
  {
    ghost var ns, before := l.nodes, l.Contents();
    ValuesPointwise(ns);
    var it := l.IterMut();
    while true
      invariant fresh(it) && it.Valid() && it.chain == ns
      invariant forall i :: 0 <= i < it.k ==> ns[i].val == f(before[i])
      invariant forall i :: it.k <= i < |ns| ==> ns[i].val == before[i]
      decreases |ns| - it.k
    {
      var cell := it.Next();
      if cell == null {
        break;
      }
      cell.val := f(cell.val);
    }
    ValuesMapped(ns, before, f);
  }

  /** `list.into_iter().collect()`: exactly the successive pops, with the list drained. */
  method Drain<T>(l: List<T>) returns (s: seq<T>)
    requires l.Valid()
    modifies l
    ensures s == old(l.Contents()) && l.Valid() && l.Contents() == []
  {
    var it := l.IntoIter();
    s := [];
    ghost var c := l.Contents();
    while true
      invariant fresh(it) && it.list == l
      invariant l.Valid() && s + l.Contents() == c
      decreases |l.Contents()|
    {
      ghost var before := l.Contents();
      var x := it.Next();
      if x.None? {
        break;
      }
      AppendHead(s, before, l.Contents());
      s := s + [x.value];
    }
  }

  /** Moving the first value of `before` to the end of `s` keeps the concatenation. */
  lemma AppendHead<T>(s: seq<T>, before: seq<T>, rest: seq<T>)
    requires before != [] && rest == before[1..]
    ensures (s + [before[0]]) + rest == s + before
  {
    assert before == [before[0]] + rest;
  }

  /** push(v) then pop() hands back `v` and restores the previous list. */
  method PushPop<T>(l: List<T>, v: T) returns (r: Option<T>)
    requires l.Valid()
    modifies l
    ensures l.Valid() && r == Some(v)
    ensures l.head == old(l.head) && l.nodes == old(l.nodes) && l.Contents() == old(l.Contents())
  {
    l.Push(v);
    r := l.Pop();
  }

  /** `head()` reports exactly what the next `pop()` hands back. */
  method PeekPop<T>(l: List<T>) returns (h: Option<T>, r: Option<T>)
    requires l.Valid()
    modifies l
    ensures h == r
    ensures r == None <==> old(l.Contents()) == []
  {
    h := l.Head();
    r := l.Pop();
  }

  /** The conversion into a vector yields the same sequence as the borrowing iterator. */
  method IntoVecMatchesIter<T>(l: List<T>) returns (a: seq<T>, b: seq<T>)
    requires l.Valid()
    modifies l
    ensures a == b
  {
    a := CollectIter(l);
    b := l.IntoVec();
  }
}
