/**
 * The shared-ownership doubly-linked list bounded by two sentinel nodes.
 *
 * The chain the code builds is linear: starting at the `tail` sentinel and
 * following `next` one meets every real node and then the `head` sentinel,
 * whose `next` is empty; `prev` mirrors `next` and the `prev` of `tail` is
 * empty. The ghost sequence `nodes` is this chain (sentinels included) and
 * `contents` the values strictly between the sentinels, in `next` order.
 * Owning forward links and weak back links are both plain references here.
 */
module DoublyLinked {
  import opened Shared

  class Node<T> {
    var next: Node?<T>
    var prev: Node?<T>
    var val: T

    /** A node holding `val`, linked to nothing. */
    constructor (val: T)
      ensures this.val == val && next == null && prev == null
    {
      this.val := val;
      next := null;
      prev := null;
    }
  }

  /**
   * `ns` is a chain along `next`: consecutive, ending in an empty `next`, and
   * without repeated nodes. This is all the teardown loop relies on.
   */
  ghost predicate ForwardChain<T>(ns: seq<Node<T>>)
    reads ns
  {
    |ns| >= 1
    && (forall i :: 0 <= i < |ns| - 1 ==> ns[i].next == ns[i + 1])
    && ns[|ns| - 1].next == null
    && (forall i, j :: 0 <= i < j < |ns| ==> ns[i] != ns[j])
  }

  class DoubleLinkList<T> {
    var head: Node<T>
    var tail: Node<T>
    var size: nat
    ghost var nodes: seq<Node<T>>
    ghost var contents: seq<T>

    /**
     * The structural invariant: the chain tail, real nodes..., head with
     * mirrored links, distinct nodes, open ends, and a counter that never
     * undercounts (split_at leaves it too large, never too small).
     */
    ghost predicate Valid()
      reads this, nodes
    {
      2 <= |nodes| && nodes[0] == tail && nodes[|nodes| - 1] == head
      && tail.prev == null && head.next == null
      && (forall i :: 0 <= i < |nodes| - 1 ==> nodes[i].next == nodes[i + 1])
      && (forall i :: 0 < i < |nodes| ==> nodes[i].prev == nodes[i - 1])
      && (forall i, j :: 0 <= i < j < |nodes| ==> nodes[i] != nodes[j])
      && |contents| == |nodes| - 2
      && (forall i :: 0 <= i < |contents| ==> contents[i] == nodes[i + 1].val)
      && |contents| <= size
    }

    /** The counter equals the number of real nodes. */
    ghost predicate Counted()
      reads this
    {
      size == |contents|
    }

    /**
     * No node of the chain holds an owning link to `n`, and `n` is no
     * sentinel: the condition under which `Rc::into_inner` hands back the
     * node's value instead of failing.
     */
    ghost predicate Unreferenced(n: Node<T>)
      reads this, nodes
    {
      n !in nodes && n != head && n != tail
      && forall i :: 0 <= i < |nodes| ==> nodes[i].next != n
    }

    /**
     * The empty list after empty pops: the two sentinels and no real node,
     * where an empty `pop_back` may have taken `tail.next` and an empty
     * `pop_front` may have taken `head.prev`. With both links still there
     * this is exactly the valid empty list.
     */
    ghost predicate Torn()
      reads this, tail, head
    {
      nodes == [tail, head] && head != tail && contents == []
      && tail.prev == null && head.next == null
      && (tail.next == head || tail.next == null)
      && (head.prev == tail || head.prev == null)
    }

    /**
     * The states in which the tail sentinel's forward link is there, which
     * is all `push_back`, `pop_back` and `Display` unwrap: a valid list, or
     * an empty one whose `head.prev` an empty `pop_front` has taken.
     */
    ghost predicate TailLinked()
      reads this, nodes, tail, head
    {
      Valid() || (Torn() && tail.next == head)
    }

    /**
     * The states in which the head sentinel's back link is there, which is
     * all `push_front` and `pop_front` unwrap: a valid list, or an empty one
     * whose `tail.next` an empty `pop_back` has taken.
     */
    ghost predicate HeadLinked()
      reads this, nodes, tail, head
    {
      Valid() || (Torn() && head.prev == tail)
    }

    /** An empty list: tail.next is head, head.prev is tail, both open ends empty. */
    constructor (filler: T)
      ensures Valid() && Counted() && contents == [] && size == 0
      ensures nodes == [tail, head] && fresh(head) && fresh(tail) && head != tail
      ensures tail.next == head && head.prev == tail && head.next == null && tail.prev == null
    {
      var h := new Node(filler);
      var t := new Node(filler);
      t.next := h;
      h.prev := t;
      head, tail, size := h, t, 0;
      nodes, contents := [t, h], [];
    }

    /** Inserts `v` right after the tail sentinel: it becomes the first element. */
    method PushBack(v: T)
      requires TailLinked()
      modifies this, nodes
      ensures Valid() && head == old(head) && tail == old(tail)
      ensures contents == [v] + old(contents)
      ensures size == old(size) + 1 && (Counted() <==> old(Counted()))
      ensures fresh(nodes[1]) && nodes == [tail, nodes[1]] + old(nodes[1..])
    {
      assert tail.next == nodes[1];
      var t := new Node(v);
      var p := tail;
      var q := p.next;
      // p -> t -> q
      p.next := t;
      t.next := q;
      q.prev := t;
      t.prev := p;
      size := size + 1;
      nodes := [tail, t] + nodes[1..];
      contents := [v] + contents;
    }

    /** Inserts `v` right before the head sentinel: it becomes the last element. */
    method PushFront(v: T)
      requires HeadLinked()
      modifies this, nodes
      ensures Valid() && head == old(head) && tail == old(tail)
      ensures contents == old(contents) + [v]
      ensures size == old(size) + 1 && (Counted() <==> old(Counted()))
      ensures |nodes| == |old(nodes)| + 1 && fresh(nodes[|nodes| - 2])
      ensures nodes == old(nodes[..|nodes| - 1]) + [nodes[|nodes| - 2], head]
    {
      assert head.prev == nodes[|nodes| - 2];
      var t := new Node(v);
      var q := head;
      var p := q.prev;
      // p -> t -> q
      p.next := t;
      t.next := q;
      q.prev := t;
      t.prev := p;
      size := size + 1;
      nodes := nodes[..|nodes| - 1] + [t, head];
      contents := contents + [v];
    }

    /**
     * Removes the last element (the one before the head sentinel). On an
     * empty list the head sentinel's back link has already been taken when
     * the empty predecessor of the tail sentinel is found, so the list is
     * left without `head.prev` and no longer satisfies `Valid()`; its
     * `tail.next` is as it was, so `push_back`, `pop_back` and `Display`
     * still work when it is there.
     */
    method PopFront() returns (r: Option<T>)
      requires HeadLinked()
      modifies this, nodes
      ensures head == old(head) && tail == old(tail)
      ensures old(contents) == [] ==>
        r == None && head.prev == null && tail.next == old(tail.next)
        && Torn() && !Valid()
        && nodes == old(nodes) && contents == [] && size == old(size)
      ensures old(contents) != [] ==>
        Valid()
        && r == Some(old(contents)[|old(contents)| - 1])
        && contents == old(contents)[..|old(contents)| - 1]
        && size == old(size) - 1 && (Counted() <==> old(Counted()))
        && nodes == old(nodes[..|nodes| - 2]) + [head]
        && Unreferenced(old(nodes[|nodes| - 2]))
        && old(nodes[|nodes| - 2]).prev == null
    {
      if Valid() && contents == [] {
        EmptyValidTorn();
      }
      assert head.prev == nodes[|nodes| - 2];
      assert |nodes| > 2 ==> nodes[|nodes| - 2].prev == nodes[|nodes| - 3];
      var q := head;
      var t := q.prev;
      q.prev := null;
      var p := t.prev;
      t.prev := null;
      if p == null {
        TornValid();
        return None;
      }
      // p -> q
      p.next := q;
      q.prev := p;
      size := size - 1;
      nodes := nodes[..|nodes| - 2] + [head];
      contents := contents[..|contents| - 1];
      UnreferencedOutside(t);
      r := Some(t.val);
    }

    /**
     * Removes the first element (the one after the tail sentinel). On an
     * empty list the tail sentinel's forward link has already been taken
     * when the empty successor of the head sentinel is found, so the list is
     * left without `tail.next` and no longer satisfies `Valid()`; its
     * `head.prev` is as it was, so `push_front` and `pop_front` still work
     * when it is there.
     */
    method PopBack() returns (r: Option<T>)
      requires TailLinked()
      modifies this, nodes
      ensures head == old(head) && tail == old(tail)
      ensures old(contents) == [] ==>
        r == None && tail.next == null && head.prev == old(head.prev)
        && Torn() && !Valid()
        && nodes == old(nodes) && contents == [] && size == old(size)
      ensures old(contents) != [] ==>
        Valid()
        && r == Some(old(contents)[0])
        && contents == old(contents)[1..]
        && size == old(size) - 1 && (Counted() <==> old(Counted()))
        && nodes == [tail] + old(nodes[2..])
        && Unreferenced(old(nodes[1]))
        && old(nodes[1]).next == null
    {
      if Valid() && contents == [] {
        EmptyValidTorn();
      }
      assert tail.next == nodes[1];
      assert |nodes| > 2 ==> nodes[1].next == nodes[2];
      var p := tail;
      var t := p.next;
      p.next := null;
      var q := t.next;
      t.next := null;
      if q == null {
        TornValid();
        return None;
      }
      // p -> q
      p.next := q;
      q.prev := p;
      size := size - 1;
      nodes := [tail] + nodes[2..];
      contents := contents[1..];
      UnreferencedOutside(t);
      r := Some(t.val);
    }

    /**
     * Detaches the real node `t` from the chain, linking its neighbours to
     * each other and clearing both of its links. The counter is not changed,
     * so a counted list is no longer counted afterwards. For a sentinel
     * `split_at` panics at the `unwrap` of its empty end, hence the
     * precondition.
     */
    method SplitAt(t: Node<T>) returns (ghost k: nat)
      requires Valid() && t in nodes && t != head && t != tail
      modifies this, nodes
      ensures Valid() && head == old(head) && tail == old(tail)
      ensures 0 < k < |old(nodes)| - 1 && old(nodes[k]) == t
      ensures nodes == old(nodes[..k]) + old(nodes[k + 1..])
      ensures contents == old(contents[..k - 1]) + old(contents[k..])
      ensures t.next == null && t.prev == null && Unreferenced(t)
      ensures size == old(size) && !Counted()
    {
      k :| 0 <= k < |nodes| && nodes[k] == t;
      assert t.prev == nodes[k - 1] && t.next == nodes[k + 1];
      var p := t.prev;
      t.prev := null;
      var q := t.next;
      t.next := null;
      // p -> q
      p.next := q;
      q.prev := p;
      nodes := nodes[..k] + nodes[k + 1..];
      contents := contents[..k - 1] + contents[k..];
      UnreferencedOutside(t);
    }

    /**
     * The `Display` traversal: walks from the tail sentinel to the head
     * sentinel, rendering every real node on the way, and joins the
     * renderings with " -> ". It stops at the head sentinel because that is
     * the only node whose `next` is empty.
     */
    method Fmt(show: T -> string) returns (s: string)
      requires TailLinked()
      ensures s == Join(Map(show, contents), " -> ")
    {
      var p := tail;
      var q := p.next;
      var arr: seq<string> := [];
      ghost var k := 1;
      while q.next != null
        invariant 1 <= k < |nodes| && q == nodes[k]
        invariant q.next == if k < |nodes| - 1 then nodes[k + 1] else null
        invariant arr == Map(show, contents[..k - 1])
        decreases |nodes| - k
      {
        var t := q.next;
        p := q;
        q := t;
        arr := arr + [show(p.val)];
        k := k + 1;
      }
      assert contents[..k - 1] == contents;
      s := Join(arr, " -> ");
    }

    /**
     * The teardown loop: from the tail sentinel, takes each node's forward
     * link until a node without one is reached. `chain` is the forward chain
     * that starts at the tail sentinel; for a valid list it is `nodes`, and
     * after an empty `PopBack` it is just the tail sentinel.
     */
    method Drop(ghost chain: seq<Node<T>>)
      requires ForwardChain(chain) && chain[0] == tail
      modifies chain
      ensures forall i :: 0 <= i < |chain| ==> chain[i].next == null
      ensures forall i :: 0 <= i < |chain| ==> chain[i].prev == old(chain[i].prev) && chain[i].val == old(chain[i].val)
    {
      var cur := tail;
      ghost var k := 0;
      while cur.next != null
        invariant 0 <= k < |chain| && cur == chain[k]
        invariant cur.next == if k < |chain| - 1 then chain[k + 1] else null
        invariant forall i :: 0 <= i < k ==> chain[i].next == null
        invariant forall i :: k <= i < |chain| - 1 ==> chain[i].next == chain[i + 1]
        invariant chain[|chain| - 1].next == null
        invariant forall i :: 0 <= i < |chain| ==> chain[i].prev == old(chain[i].prev) && chain[i].val == old(chain[i].val)
        decreases |chain| - k
      {
        var next := cur.next;
        cur.next := null;
        cur := next;
        k := k + 1;
      }
    }

    /** In a valid list, a node outside the chain has no owning link into it. */
    lemma UnreferencedOutside(n: Node<T>)
      requires Valid() && n !in nodes
      ensures Unreferenced(n)
    {
      forall i | 0 <= i < |nodes| - 1
        ensures nodes[i].next != n
      {
        assert nodes[i].next == nodes[i + 1];
      }
    }

    /** A torn list is valid exactly when both inner sentinel links are back. */
    lemma TornValid()
      requires Torn()
      ensures Valid() <==> (tail.next == head && head.prev == tail)
    {
    }

    /** The valid empty list is a torn list with both inner sentinel links. */
    lemma EmptyValidTorn()
      requires Valid() && contents == []
      ensures Torn() && tail.next == head && head.prev == tail
    {
      assert nodes == [nodes[0], nodes[1]];
    }

    /** A valid list's node sequence is a forward chain from the tail sentinel. */
    lemma ValidIsForwardChain()
      requires Valid()
      ensures ForwardChain(nodes) && nodes[0] == tail
    {
    }
  }

  /** push_back then pop_back hands back the value and restores the whole structure. */
  method PushPopBack<T>(l: DoubleLinkList<T>, v: T) returns (r: Option<T>)
    requires l.Valid()
    modifies l, l.nodes
    ensures l.Valid() && r == Some(v)
    ensures l.contents == old(l.contents) && l.nodes == old(l.nodes) && l.size == old(l.size)
  {
    l.PushBack(v);
    r := l.PopBack();
  }

  /** push_front then pop_front hands back the value and restores the whole structure. */
  method PushPopFront<T>(l: DoubleLinkList<T>, v: T) returns (r: Option<T>)
    requires l.Valid()
    modifies l, l.nodes
    ensures l.Valid() && r == Some(v)
    ensures l.contents == old(l.contents) && l.nodes == old(l.nodes) && l.size == old(l.size)
  {
    l.PushFront(v);
    r := l.PopFront();
  }

  /**
   * Dropping a valid list clears the forward link of every node, sentinels
   * included, and leaves every backward link and every value as it was.
   */
  method Teardown<T>(l: DoubleLinkList<T>)
    requires l.Valid()
    modifies l.nodes
    ensures forall i :: 0 <= i < |l.nodes| ==> l.nodes[i].next == null
    ensures forall i :: 0 <= i < |l.nodes| ==>
      l.nodes[i].prev == old(l.nodes[i].prev) && l.nodes[i].val == old(l.nodes[i].val)
  {
    l.ValidIsForwardChain();
    l.Drop(l.nodes);
  }
}
