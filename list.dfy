/** `LinkedList<T>`: a singly linked FIFO. `head` owns the first node and
    every node owns the next; `tail` is a raw pointer to the last node,
    null when the list is empty; `size` is a `u32`. */
module SinglyLinked {
  import opened Arena

  const U32_MAX: nat := 0xFFFF_FFFF

  datatype SNode<T> = SNode(elem: T, next: Link)

  type SCells<T> = map<nat, SNode<T>>

  /** `r` is the run of nodes reached from `head`: each node is allocated,
      points at the next one, and the last points at nothing. */
  ghost predicate Points<T>(c: SCells<T>, r: seq<nat>, head: Link) {
    && head == LinkTo(r, 0)
    && (forall i :: 0 <= i < |r| ==> r[i] in c)
    && (forall i {:trigger c[r[i]]} :: 0 <= i < |r| ==> c[r[i]].next == LinkTo(r, i + 1))
  }

  ghost predicate Chain<T>(c: SCells<T>, r: seq<nat>, head: Link) {
    Points(c, r, head) && Unique(r)
  }

  /** Position `i` of a run, as a term of its own: `Unique` is instantiated
      only where a proof names two positions with `Apart`. */
  ghost function At(r: seq<nat>, i: nat): nat
    requires i < |r|
  {
    r[i]
  }

  /** No node occurs twice in the run. */
  ghost predicate Unique(r: seq<nat>) {
    forall i, j :: 0 <= i < j < |r| ==> At(r, i) != At(r, j)
  }

  lemma Apart(r: seq<nat>, i: nat, j: nat)
    requires Unique(r) && i < |r| && j < |r| && i != j
    ensures r[i] != r[j]
  {
    if i < j {
      assert At(r, i) != At(r, j);
    } else {
      assert At(r, j) != At(r, i);
    }
  }

  ghost function Elems<T>(c: SCells<T>, r: seq<nat>): (s: seq<T>)
    requires forall i :: 0 <= i < |r| ==> r[i] in c
    ensures |s| == |r|
  {
    seq(|r|, i requires 0 <= i < |r| => c[r[i]].elem)
  }

  /** The list without its first `x`: what `remove(x)` leaves. */
  function RemoveFirst<T(==)>(s: seq<T>, x: T): (t: seq<T>)
    ensures |t| == if x in s then |s| - 1 else |s|
  {
    if s == [] then []
    else if s[0] == x then s[1..]
    else
      assert x in s[1..] <==> x in s by { assert s == [s[0]] + s[1..]; }
      [s[0]] + RemoveFirst(s[1..], x)
  }

  /** The first `x` of `s` is at `k`: `RemoveFirst` cuts out exactly that position. */
  lemma {:induction false} RemoveFirstAt<T>(s: seq<T>, x: T, k: nat)
    requires k < |s| && s[k] == x && x !in s[..k]
    ensures RemoveFirst(s, x) == s[..k] + s[k + 1..]
  {
    if k > 0 {
      assert s[0] in s[..k];
      assert s[1..][k - 1] == x && s[1..][..k - 1] == s[..k][1..];
      RemoveFirstAt(s[1..], x, k - 1);
      assert s[..k] == [s[0]] + s[1..][..k - 1];
      assert s[k + 1..] == s[1..][k..];
    }
  }

  /** Removing an absent value changes nothing. */
  lemma {:induction false} RemoveFirstAbsent<T>(s: seq<T>, x: T)
    requires x !in s
    ensures RemoveFirst(s, x) == s
  {
    if s != [] {
      assert x !in s[1..] by { assert s == [s[0]] + s[1..]; }
      RemoveFirstAbsent(s[1..], x);
      assert s == [s[0]] + s[1..];
    }
  }

  /** The link reference `node_it` of `remove`: either `&mut self.head` or
      `&mut node.next` of the node at `owner`. */
  datatype Slot = HeadSlot | NextSlot(owner: nat)

  /** The slot that holds the link to position `k` of `r`. */
  function SlotOf(r: seq<nat>, k: nat): Slot
    requires k <= |r|
  {
    if k == 0 then HeadSlot else NextSlot(r[k - 1])
  }

  class LinkedList<T(==)> {
    const heap: Heap<SNode<T>>
    var head: Link
    var tail: Link
    var size: nat
    ghost var Repr: seq<nat>

    /** The nodes and `size` agree; `tail` is not constrained. */
    ghost predicate Linked()
      reads this, heap
    {
      heap.Valid() && Chain(heap.cells, Repr, head) && size == |Repr| <= U32_MAX
    }

    ghost predicate Valid()
      reads this, heap
    {
      Linked() && tail == LinkTo(Repr, |Repr| - 1)
    }

    ghost function Contents(): seq<T>
      reads this, heap
      requires Linked()
    {
      Elems(heap.cells, Repr)
    }

    constructor ()
      ensures Valid() && Contents() == [] && fresh(heap)
    {
      heap := new Heap();
      head, tail, size := Null, Null, 0;
      Repr := [];
    }

    function Size(): (n: nat)
      reads this, heap
      requires Linked()
      ensures n == |Contents()| && n <= U32_MAX
    {
      size
    }

    /** Allocate a node, hang it after the tail (or make it the head of an
        empty list) and make it the tail. */
    method Add(elem: T)
      requires Valid() && size < U32_MAX
      modifies this, heap
      ensures Valid() && Contents() == old(Contents()) + [elem]
    {
      ghost var c0, r0 := heap.cells, Repr;
      var node := heap.Alloc(SNode(elem, Null));
      if tail.Ptr? {
        heap.cells := heap.cells[tail.addr := heap.cells[tail.addr].(next := Ptr(node))];
      } else {
        head := Ptr(node);
      }
      tail := Ptr(node);
      size := size + 1;
      Repr := Repr + [node];
      AppendNode(c0, r0, head, node, elem, heap.cells);
    }

    /** Take the head node, make its successor the head, and reset `tail`
        when nothing follows. */
    method Pop() returns (r: Option<T>)
      requires Valid()
      modifies this, heap
      ensures Valid()
      ensures old(Contents()) == [] ==> r == None && Contents() == []
      ensures old(Contents()) != [] ==> r == Some(old(Contents())[0]) && Contents() == old(Contents())[1..]
    {
      if head.Null? {
        return None;
      }
      ghost var c0, r0 := heap.cells, Repr;
      var h := head.addr;
      var n := heap.cells[h];
      head := n.next;
      if head.Null? {
        tail := Null;
      }
      size := size - 1;
      heap.Free(h);
      Repr := Repr[1..];
      DropFront(c0, r0, heap.cells);
      r := Some(n.elem);
    }

    /** The link held by a slot. */
    function Get(slot: Slot): Link
      reads this, heap
      requires slot.NextSlot? ==> slot.owner in heap.cells
    {
      match slot
      case HeadSlot => head
      case NextSlot(owner) => heap.cells[owner].next
    }

    /** `removed = node_it.take(); *node_it = removed.next.take();` and the drop
        of `removed`: the node at position `k`, held by `slot`, leaves the chain. */
    method TakeAt(slot: Slot, ghost k: nat) returns (elem: T, next: Link)
      requires Linked() && k < |Repr| && slot == SlotOf(Repr, k)
      modifies this, heap
      ensures heap.Valid() && Chain(heap.cells, Repr, head) && size == old(size) && tail == old(tail)
      ensures Repr == old(Repr)[..k] + old(Repr)[k + 1..]
      ensures elem == old(Contents())[k] && Elems(heap.cells, Repr) == old(Contents())[..k] + old(Contents())[k + 1..]
      ensures old(Repr)[k] !in heap.cells
      ensures next == LinkTo(old(Repr), k + 1)
    {
      ghost var c0, r0 := heap.cells, Repr;
      var removed := if slot.HeadSlot? then head.addr else heap.cells[slot.owner].next.addr;
      next := heap.cells[removed].next;
      if slot.HeadSlot? {
        head := next;
      } else {
        heap.cells := heap.cells[slot.owner := heap.cells[slot.owner].(next := next)];
      }
      elem := heap.cells[removed].elem;
      heap.Free(removed);
      Repr := Repr[..k] + Repr[k + 1..];
      Bypass(c0, r0, old(head), k, slot, head, heap.cells);
    }

    /** The body of `remove` once `slot`, at position `k`, holds the first
        node equal to `elem`, as written: `tail` is reset only when `head`
        has become null. */
    method UnlinkAsWritten(slot: Slot, ghost k: nat, elem: T, ghost s: seq<T>) returns (r: Option<T>)
      requires Valid() && s == Contents() && k < |Repr| && slot == SlotOf(Repr, k) && s[k] == elem && elem !in s[..k]
      modifies this, heap
      ensures Linked() && Contents() == RemoveFirst(s, elem)
      ensures r == if elem in s then Some(elem) else None
      ensures tail == if Repr == [] then Null else old(tail)
      ensures |s| >= 2 && s[|s| - 1] == elem && elem !in s[..|s| - 1] ==> tail.Ptr? && tail.addr !in heap.cells
    {
      var e, _ := TakeAt(slot, k);
      RemoveFirstAt(s, elem, k);
      if head.Null? {
        tail := Null;
      }
      size := size - 1;
      assert k < |s| - 1 ==> s[k] in s[..|s| - 1];
      r := Some(e);
    }

    /** The same, with `tail` moved to the node that held the slot (null for
        `head`) when the removed node was the last. */
    method Unlink(slot: Slot, ghost k: nat, elem: T, ghost s: seq<T>) returns (r: Option<T>)
      requires Valid() && s == Contents() && k < |Repr| && slot == SlotOf(Repr, k) && s[k] == elem && elem !in s[..k]
      modifies this, heap
      ensures Valid() && Contents() == RemoveFirst(s, elem)
      ensures r == if elem in s then Some(elem) else None
    {
      ghost var r0 := Repr;
      var e, next := TakeAt(slot, k);
      RemoveFirstAt(s, elem, k);
      MendTail(r0, k, slot, next);
      r := Some(e);
    }

    /** The corrected tail update after the node at position `k` of `r0`
        has left, followed by the `size` decrement. */
    method MendTail(ghost r0: seq<nat>, ghost k: nat, slot: Slot, next: Link)
      requires heap.Valid() && Chain(heap.cells, Repr, head) && size == |r0| <= U32_MAX
      requires k < |r0| && Repr == r0[..k] + r0[k + 1..] && slot == SlotOf(r0, k)
      requires tail == LinkTo(r0, |r0| - 1) && next == LinkTo(r0, k + 1)
      modifies this
      ensures Valid() && Repr == old(Repr) && head == old(head)
    {
      if next.Null? {
        tail := if slot.HeadSlot? then Null else Ptr(slot.owner);
      }
      size := size - 1;
      TailAfterTake(r0, k, Repr, slot, tail, old(tail));
    }

    /** `remove` as the source writes it: walk the slots until one holds a
        node equal to `elem`, unlink that node, and reset `tail` only when the
        list has become empty. When the removed node was the last of two or
        more, `tail` is left pointing at the freed node. */
    method RemoveAsWritten(elem: T) returns (r: Option<T>)
      requires Valid()
      modifies this, heap
      ensures Linked() && Contents() == RemoveFirst(old(Contents()), elem)
      ensures r == if elem in old(Contents()) then Some(elem) else None
      ensures tail == if Repr == [] then Null else old(tail)
      ensures var s := old(Contents());
              |s| >= 2 && s[|s| - 1] == elem && elem !in s[..|s| - 1] ==> tail.Ptr? && tail.addr !in heap.cells
    {
      ghost var s := Contents();
      var slot := HeadSlot;
      ghost var k := 0;
      while Get(slot).Ptr?
        invariant unchanged(this) && unchanged(heap) && Valid() && Contents() == s
        invariant k <= |Repr| && slot == SlotOf(Repr, k) && Get(slot) == LinkTo(Repr, k)
        invariant elem !in s[..k]
        decreases |Repr| - k
      {
        var node := Get(slot).addr;
        if heap.cells[node].elem == elem {
          r := UnlinkAsWritten(slot, k, elem, s);
          return;
        }
        Step(s, elem, k);
        slot := NextSlot(node);
        k := k + 1;
      }
      assert s[..k] == s;
      RemoveFirstAbsent(s, elem);
      return None;
    }

    /** `remove` as intended: the same walk, and when the removed node was
        the last, `tail` moves to the node that held the slot (null if the
        slot was `head`). */
    method Remove(elem: T) returns (r: Option<T>)
      requires Valid()
      modifies this, heap
      ensures Valid() && Contents() == RemoveFirst(old(Contents()), elem)
      ensures r == if elem in old(Contents()) then Some(elem) else None
    {
      ghost var s := Contents();
      var slot := HeadSlot;
      ghost var k := 0;
      while Get(slot).Ptr?
        invariant unchanged(this) && unchanged(heap) && Valid() && Contents() == s
        invariant k <= |Repr| && slot == SlotOf(Repr, k) && Get(slot) == LinkTo(Repr, k)
        invariant elem !in s[..k]
        decreases |Repr| - k
      {
        var node := Get(slot).addr;
        if heap.cells[node].elem == elem {
          r := Unlink(slot, k, elem, s);
          return;
        }
        Step(s, elem, k);
        slot := NextSlot(node);
        k := k + 1;
      }
      assert s[..k] == s;
      RemoveFirstAbsent(s, elem);
      return None;
    }
  }

  /** Passing a node that is not `x` keeps `x` out of the prefix walked so far. */
  lemma Step<T>(s: seq<T>, x: T, k: nat)
    requires k < |s| && s[k] != x && x !in s[..k]
    ensures x !in s[..k + 1]
  {
    assert s[..k + 1] == s[..k] + [s[k]];
  }

  /** After the node at `k` leaves, the corrected `tail` is the last node again. */
  lemma TailAfterTake(r0: seq<nat>, k: nat, r: seq<nat>, slot: Slot, tail: Link, oldTail: Link)
    requires k < |r0| && r == r0[..k] + r0[k + 1..] && slot == SlotOf(r0, k)
    requires oldTail == LinkTo(r0, |r0| - 1)
    requires tail == if k == |r0| - 1 then (if slot.HeadSlot? then Null else Ptr(slot.owner)) else oldTail
    ensures tail == LinkTo(r, |r| - 1)
  {
    if k < |r0| - 1 {
      assert r[|r| - 1] == r0[|r0| - 1];
    }
  }

  /** `add`: the fresh node `a` appended after the last node of `r`. */
  lemma AppendNode<T>(c: SCells<T>, r: seq<nat>, head: Link, a: nat, elem: T, c': SCells<T>)
    requires Chain(c, r, if r == [] then Null else head) && a !in c
    requires r != [] ==> head == Ptr(r[0])
    requires r == [] ==> head == Ptr(a)
    requires var c1 := c[a := SNode(elem, Null)];
             c' == if r == [] then c1 else c1[r[|r| - 1] := c1[r[|r| - 1]].(next := Ptr(a))]
    ensures Chain(c', r + [a], head)
    ensures Elems(c', r + [a]) == Elems(c, r) + [elem]
    ensures forall x :: x in c && x !in r ==> x in c' && c'[x] == c[x]
  {
    var r' := r + [a];
    forall i, j | 0 <= i < j < |r'| ensures At(r', i) != At(r', j) {
      if j == |r| {
        assert r[i] in c;
      } else {
        Apart(r, i, j);
      }
    }
    forall i | 0 <= i < |r'| ensures r'[i] in c' && c'[r'[i]].next == LinkTo(r', i + 1) {
      if i < |r| - 1 {
        Apart(r, i, |r| - 1);
      }
      if i < |r| {
        assert r[i] in c && r'[i] == r[i];
      }
    }
  }

  /** `pop`: the chain without its first node, that node freed. */
  lemma DropFront<T>(c: SCells<T>, r: seq<nat>, c': SCells<T>)
    requires Chain(c, r, LinkTo(r, 0)) && r != [] && c' == c - {r[0]}
    ensures Chain(c', r[1..], c[r[0]].next)
    ensures Elems(c', r[1..]) == Elems(c, r)[1..]
  {
    forall i | 0 <= i < |r| - 1 ensures r[1..][i] in c' && c'[r[1..][i]].next == LinkTo(r[1..], i + 1) {
      Apart(r, i + 1, 0);
    }
    forall i, j | 0 <= i < j < |r| - 1 ensures At(r[1..], i) != At(r[1..], j) {
      Apart(r, i + 1, j + 1);
    }
  }

  /** `remove`'s relinking: the slot at position `k` is given the removed
      node's successor, and the removed node is freed. */
  lemma Bypass<T>(c: SCells<T>, r: seq<nat>, head: Link, k: nat, slot: Slot, head': Link, c': SCells<T>)
    requires Chain(c, r, head) && k < |r| && slot == SlotOf(r, k)
    requires var next := c[r[k]].next;
             && (slot.HeadSlot? ==> head' == next && c' == c - {r[k]})
             && (slot.NextSlot? ==> head' == head && c' == c[slot.owner := c[slot.owner].(next := next)] - {r[k]})
    ensures Chain(c', r[..k] + r[k + 1..], head')
    ensures Elems(c', r[..k] + r[k + 1..]) == Elems(c, r)[..k] + Elems(c, r)[k + 1..]
    ensures Elems(c, r)[k] == c[r[k]].elem && r[k] !in c'
    ensures slot.NextSlot? ==> slot.owner in c' && c'[slot.owner].next == LinkTo(r, k + 1)
    ensures slot.HeadSlot? ==> head' == LinkTo(r, k + 1)
  {
    CutUnique(r, k);
    forall i | 0 <= i < |r| && i != k ensures r[i] != r[k] {
      Apart(r, i, k);
    }
    BypassPoints(c, r, head, k, slot, head', c');
    BypassElems(c, r, k, c');
  }

  lemma CutUnique(r: seq<nat>, k: nat)
    requires k < |r| && Unique(r)
    ensures Unique(r[..k] + r[k + 1..])
  {
    var r' := r[..k] + r[k + 1..];
    forall i, j | 0 <= i < j < |r'| ensures At(r', i) != At(r', j) {
      var i0 := if i < k then i else i + 1;
      var j0 := if j < k then j else j + 1;
      assert r'[i] == r[i0] && r'[j] == r[j0];
      Apart(r, i0, j0);
    }
  }

  lemma BypassPoints<T>(c: SCells<T>, r: seq<nat>, head: Link, k: nat, slot: Slot, head': Link, c': SCells<T>)
    requires Points(c, r, head) && k < |r| && slot == SlotOf(r, k)
    requires forall i :: 0 <= i < |r| && i != k ==> r[i] != r[k]
    requires var next := c[r[k]].next;
             && (slot.HeadSlot? ==> head' == next && c' == c - {r[k]})
             && (slot.NextSlot? ==> head' == head && c' == c[slot.owner := c[slot.owner].(next := next)] - {r[k]})
    ensures Points(c', r[..k] + r[k + 1..], head')
  {
    var r' := r[..k] + r[k + 1..];
    forall i | 0 <= i < |r'| ensures r'[i] in c' && c'[r'[i]].next == LinkTo(r', i + 1) {
      var i0 := if i < k then i else i + 1;
      assert r'[i] == r[i0] && r[i0] != r[k];
      if i + 1 < |r'| {
        var j0 := if i + 1 < k then i + 1 else i + 2;
        assert r'[i + 1] == r[j0];
      }
    }
  }

  lemma BypassElems<T>(c: SCells<T>, r: seq<nat>, k: nat, c': SCells<T>)
    requires k < |r| && forall i :: 0 <= i < |r| ==> r[i] in c
    requires forall i :: 0 <= i < |r| && i != k ==> r[i] in c' && c'[r[i]].elem == c[r[i]].elem
    ensures var r' := r[..k] + r[k + 1..];
            (forall i :: 0 <= i < |r'| ==> r'[i] in c') && Elems(c', r') == Elems(c, r)[..k] + Elems(c, r)[k + 1..]
  {
    var r' := r[..k] + r[k + 1..];
    forall i | 0 <= i < |r'| ensures r'[i] in c' {
      var i0 := if i < k then i else i + 1;
      assert r'[i] == r[i0];
    }
    var e, e' := Elems(c, r), Elems(c', r');
    forall i | 0 <= i < |r'| ensures e'[i] == (e[..k] + e[k + 1..])[i] {
      var i0 := if i < k then i else i + 1;
      assert r'[i] == r[i0];
    }
  }
}
