/** `DequeueList<T>` (src/dequeue.rs): a doubly linked list whose nodes
    live on a heap shared with every other list, so that the cursor can
    move whole node chains between lists by relinking. */
module Dequeue {
  import opened Arena
  import opened DequeueLinks

  class DequeueList<T> {
    const heap: Heap<Node<T>>
    var head: Link
    var tail: Link
    var len: nat
    /** The addresses of the nodes, from head to tail. */
    ghost var Repr: seq<nat>

    ghost predicate Valid()
      reads this, heap
    {
      heap.Valid() && Chain(heap.cells, Repr, head, tail) && len == |Repr|
    }

    /** The elements, from head to tail. */
    ghost function Contents(): seq<T>
      reads this, heap
      requires Valid()
    {
      Elems(heap.cells, Repr)
    }

    /** `DequeueList::new` (and `Default`). */
    constructor (heap: Heap<Node<T>>)
      requires heap.Valid()
      ensures Valid() && this.heap == heap && Repr == [] && Contents() == []
    {
      this.heap := heap;
      head, tail, len := Null, Null, 0;
      Repr := [];
    }

    /** The struct literal `DequeueList { head, tail, len, .. }`. */
    constructor Parts(heap: Heap<Node<T>>, head: Link, tail: Link, len: nat, ghost repr: seq<nat>)
      ensures this.heap == heap && this.head == head && this.tail == tail && this.len == len && Repr == repr
    {
      this.heap := heap;
      this.head, this.tail, this.len := head, tail, len;
      Repr := repr;
    }

    function Len(): (n: nat)
      reads this, heap
      requires Valid()
      ensures n == |Contents()|
    {
      len
    }

    function IsEmpty(): (b: bool)
      reads this, heap
      requires Valid()
      ensures b <==> Contents() == []
    {
      len == 0
    }

    /** `front`/`front_mut` read through the head pointer. */
    function Front(): (r: Option<T>)
      reads this, heap
      requires Valid()
      ensures r == if Contents() == [] then None else Some(Contents()[0])
    {
      ChainEnds(heap.cells, Repr, head, tail);
      match head
      case Null => None
      case Ptr(a) => ElemsAt(heap.cells, Repr, 0); Some(heap.cells[a].elem)
    }

    /** `back`/`back_mut` read through the tail pointer. */
    function Back(): (r: Option<T>)
      reads this, heap
      requires Valid()
      ensures r == if Contents() == [] then None else Some(Contents()[|Contents()| - 1])
    {
      ChainEnds(heap.cells, Repr, head, tail);
      match tail
      case Null => None
      case Ptr(a) => ElemsAt(heap.cells, Repr, |Repr| - 1); Some(heap.cells[a].elem)
    }

    method PushFront(elem: T)
      requires Valid()
      modifies this, heap
      ensures Valid() && Contents() == [elem] + old(Contents())
      ensures Repr[1..] == old(Repr) && Repr[0] !in old(heap.cells)
      ensures Untouched(old(heap.cells), heap.cells, old(Repr)) && Confined(old(heap.cells), old(Repr), Repr)
    {
      ghost var c0, r0, h0, t0 := heap.cells, Repr, head, tail;
      ChainEnds(c0, r0, h0, t0);
      var newNode := heap.Alloc(Node(Null, Null, elem));
      if head.Ptr? {
        heap.cells := SetPrev(heap.cells, head.addr, Ptr(newNode));
        heap.cells := SetNext(heap.cells, newNode, head);
        LinkFront(c0, r0, h0, t0, newNode, elem, heap.cells);
      } else {
        tail := Ptr(newNode);
        LinkOnly(c0, r0, h0, t0, newNode, elem);
      }
      head, len, Repr := Ptr(newNode), len + 1, [newNode] + Repr;
    }

    method PushBack(elem: T)
      requires Valid()
      modifies this, heap
      ensures Valid() && Contents() == old(Contents()) + [elem]
      ensures Repr[..|Repr| - 1] == old(Repr) && Repr[|Repr| - 1] !in old(heap.cells)
      ensures Untouched(old(heap.cells), heap.cells, old(Repr)) && Confined(old(heap.cells), old(Repr), Repr)
    {
      ghost var c0, r0, h0, t0 := heap.cells, Repr, head, tail;
      ChainEnds(c0, r0, h0, t0);
      var newNode := heap.Alloc(Node(Null, Null, elem));
      if tail.Ptr? {
        heap.cells := SetNext(heap.cells, tail.addr, Ptr(newNode));
        heap.cells := SetPrev(heap.cells, newNode, tail);
        LinkBack(c0, r0, h0, t0, newNode, elem, heap.cells);
      } else {
        head := Ptr(newNode);
        LinkOnly(c0, r0, h0, t0, newNode, elem);
      }
      tail := Ptr(newNode);
      len := len + 1;
      Repr := Repr + [newNode];
      assert Repr[..|Repr| - 1] == r0;
    }

    method PopFront() returns (r: Option<T>)
      requires Valid()
      modifies this, heap
      ensures Valid()
      ensures old(Contents()) == [] ==> r == None && Repr == old(Repr) && heap.cells == old(heap.cells)
      ensures old(Contents()) != [] ==> r == Some(old(Contents())[0]) && Repr == old(Repr)[1..]
      ensures Contents() == if old(Contents()) == [] then [] else old(Contents())[1..]
      ensures Untouched(old(heap.cells), heap.cells, old(Repr)) && Confined(old(heap.cells), old(Repr), Repr)
    {
      ghost var c0, r0, h0, t0 := heap.cells, Repr, head, tail;
      ChainEnds(c0, r0, h0, t0);
      if head.Ptr? {
        var node := head.addr;
        Neighbours(c0, r0, h0, t0, 0);
        ElemsAt(c0, r0, 0);
        var current := heap.cells[node];
        head := current.next;
        if head.Ptr? {
          heap.cells := SetPrev(heap.cells, head.addr, Null);
        } else {
          tail := Null;
        }
        len := len - 1;
        heap.Free(node);
        if head.Ptr? {
          UnlinkFront(c0, r0, h0, t0, heap.cells);
        } else {
          UnlinkOnly(c0, r0, h0, t0);
        }
        Repr := Repr[1..];
        r := Some(current.elem);
      } else {
        r := None;
      }
    }

    method PopBack() returns (r: Option<T>)
      requires Valid()
      modifies this, heap
      ensures Valid()
      ensures old(Contents()) == [] ==> r == None && Repr == old(Repr) && heap.cells == old(heap.cells)
      ensures old(Contents()) != [] ==> r == Some(old(Contents())[|old(Contents())| - 1]) && Repr == old(Repr)[..|old(Repr)| - 1]
      ensures Contents() == if old(Contents()) == [] then [] else old(Contents())[..|old(Contents())| - 1]
      ensures Untouched(old(heap.cells), heap.cells, old(Repr)) && Confined(old(heap.cells), old(Repr), Repr)
    {
      ghost var c0, r0, h0, t0 := heap.cells, Repr, head, tail;
      ChainEnds(c0, r0, h0, t0);
      if tail.Ptr? {
        var node := tail.addr;
        Neighbours(c0, r0, h0, t0, |r0| - 1);
        ElemsAt(c0, r0, |r0| - 1);
        var current := heap.cells[node];
        tail := current.prev;
        if tail.Ptr? {
          heap.cells := SetNext(heap.cells, tail.addr, Null);
        } else {
          head := Null;
        }
        len := len - 1;
        heap.Free(node);
        if tail.Ptr? {
          UnlinkBack(c0, r0, h0, t0, heap.cells);
        } else {
          UnlinkOnly(c0, r0, h0, t0);
        }
        Repr := Repr[..|Repr| - 1];
        r := Some(current.elem);
      } else {
        r := None;
      }
    }

    /** `clear` (the same loop is `Drop`): pop from the front until nothing is left. */
    method Clear()
      requires Valid()
      modifies this, heap
      ensures Valid() && Contents() == [] && Repr == []
      ensures Untouched(old(heap.cells), heap.cells, old(Repr)) && Confined(old(heap.cells), old(Repr), Repr)
    {
      while true
        invariant Valid()
        invariant Untouched(old(heap.cells), heap.cells, old(Repr)) && Confined(old(heap.cells), old(Repr), Repr)
        decreases len
      {
        ghost var c1, r1 := heap.cells, Repr;
        var popped := PopFront();
        FrameTrans(old(heap.cells), c1, heap.cells, old(Repr), r1, Repr);
        if popped.None? {
          break;
        }
      }
    }

    /** A write through a `&mut T` into node `a` (`front_mut`, `back_mut`,
        `IterMut`, and the cursor's `current`/`peek_*` all yield one). */
    method Write(a: nat, v: T)
      requires Valid() && a in Repr
      modifies heap
      ensures Valid() && Repr == old(Repr)
      ensures Contents() == old(Contents())[IndexOf(Repr, a) := v]
      ensures Untouched(old(heap.cells), heap.cells, Repr)
    {
      ghost var c0 := heap.cells;
      ghost var i := IndexOf(Repr, a);
      SetElem(c0, Repr, head, tail, i, v);
      heap.cells := heap.cells[a := heap.cells[a].(elem := v)];
    }

    /** `std::mem::replace(list, DequeueList::new())`: the nodes move to a
        new list header and this list is left empty. */
    method Take() returns (out: DequeueList<T>)
      requires Valid()
      modifies this
      ensures fresh(out) && out.heap == heap && out.Valid() && Valid()
      ensures out.Repr == old(Repr) && out.Contents() == old(Contents())
      ensures Repr == [] && Contents() == []
    {
      out := new DequeueList.Parts(heap, head, tail, len, Repr);
      head, tail, len := Null, Null, 0;
      Repr := [];
    }

    /** `*self = input`: this list becomes the other list's nodes and the
        other is left with none. */
    method TakeFrom(input: DequeueList<T>)
      requires Valid() && input.Valid() && input != this && input.heap == heap && Repr == []
      modifies this, input
      ensures Valid() && input.Valid() && Repr == old(input.Repr) && input.Repr == []
      ensures Contents() == old(input.Contents()) && input.Contents() == []
    {
      head, tail, len, Repr := input.head, input.tail, input.len, input.Repr;
      input.head, input.tail, input.len, input.Repr := Null, Null, 0, [];
    }

    /** `head.take()` and `tail.take()` on a non-empty list, with `len`
        cleared: the list gives up its chain, which stays in the heap. */
    method Release() returns (h: nat, t: nat, n: nat)
      requires Valid() && Repr != []
      modifies this
      ensures Chain(heap.cells, old(Repr), Ptr(h), Ptr(t)) && n == |old(Repr)|
      ensures Valid() && Repr == [] && Contents() == []
    {
      ChainEnds(heap.cells, Repr, head, tail);
      h, t, n := head.addr, tail.addr, len;
      head, tail, len, Repr := Null, Null, 0, [];
    }

    /** `extend`: push every item at the back, in order. */
    method Extend(items: seq<T>)
      requires Valid()
      modifies this, heap
      ensures Valid() && Contents() == old(Contents()) + items
      ensures Untouched(old(heap.cells), heap.cells, old(Repr)) && Confined(old(heap.cells), old(Repr), Repr)
    {
      ghost var c0, r0, s0 := heap.cells, Repr, Contents();
      var k := 0;
      while k < |items|
        invariant k <= |items| && Valid() && Contents() == s0 + items[..k]
        invariant Untouched(c0, heap.cells, r0) && Confined(c0, r0, Repr)
      {
        ghost var c1, r1 := heap.cells, Repr;
        PushBack(items[k]);
        FrameTrans(c0, c1, heap.cells, r0, r1, Repr);
        assert items[..k + 1] == items[..k] + [items[k]];
        assert s0 + items[..k + 1] == (s0 + items[..k]) + [items[k]];
        k := k + 1;
      }
      assert items[..k] == items;
    }
  }

  /** `FromIterator::from_iter`: a new list extended by the items. */
  method FromIter<T>(heap: Heap<Node<T>>, items: seq<T>) returns (list: DequeueList<T>)
    requires heap.Valid()
    modifies heap
    ensures fresh(list) && list.heap == heap && list.Valid() && list.Contents() == items
    ensures Untouched(old(heap.cells), heap.cells, []) && Confined(old(heap.cells), [], list.Repr)
  {
    list := new DequeueList(heap);
    list.Extend(items);
  }

  /** `Iter` and `IterMut`: one pair of ends and one remaining count shared
      by `next` and `next_back`. They yield node references, so the two
      iterators differ only in what the caller may do with a yielded node. */
  class Iter<T> {
    const list: DequeueList<T>
    var head: Link
    var tail: Link
    var len: nat
    /** The nodes still to come are `list.Repr[lo..hi]`. */
    ghost var lo: nat
    ghost var hi: nat

    ghost predicate Valid()
      reads this, list, list.heap
    {
      && list.Valid()
      && lo <= hi <= |list.Repr|
      && len == hi - lo
      && head == LinkTo(list.Repr, lo)
      && tail == LinkTo(list.Repr, hi - 1)
    }

    /** The elements still to be yielded. */
    ghost function Remaining(): seq<T>
      reads this, list, list.heap
      requires Valid()
    {
      list.Contents()[lo..hi]
    }

    /** `DequeueList::iter` and `iter_mut`. */
    constructor (list: DequeueList<T>)
      requires list.Valid()
      ensures Valid() && this.list == list && lo == 0 && hi == |list.Repr|
    {
      this.list := list;
      head, tail, len := list.head, list.tail, list.len;
      lo, hi := 0, list.len;
    }

    method Next() returns (r: Option<nat>)
      requires Valid()
      modifies this
      ensures Valid() && hi == old(hi)
      ensures lo == if old(lo) < old(hi) then old(lo) + 1 else old(lo)
      ensures r == if old(lo) < old(hi) then Some(list.Repr[old(lo)]) else None
      ensures r.Some? ==> r.value in list.heap.cells && list.heap.cells[r.value].elem == list.Contents()[old(lo)]
    {
      if len == 0 {
        return None;
      }
      var node := head.addr;
      Neighbours(list.heap.cells, list.Repr, list.head, list.tail, lo);
      ElemsAt(list.heap.cells, list.Repr, lo);
      len := len - 1;
      head := list.heap.cells[node].next;
      lo := lo + 1;
      r := Some(node);
    }

    method NextBack() returns (r: Option<nat>)
      requires Valid()
      modifies this
      ensures Valid() && lo == old(lo)
      ensures hi == if old(lo) < old(hi) then old(hi) - 1 else old(hi)
      ensures r == if old(lo) < old(hi) then Some(list.Repr[old(hi) - 1]) else None
      ensures r.Some? ==> r.value in list.heap.cells && list.heap.cells[r.value].elem == list.Contents()[old(hi) - 1]
    {
      if len == 0 {
        return None;
      }
      var node := tail.addr;
      Neighbours(list.heap.cells, list.Repr, list.head, list.tail, hi - 1);
      ElemsAt(list.heap.cells, list.Repr, hi - 1);
      len := len - 1;
      tail := list.heap.cells[node].prev;
      hi := hi - 1;
      r := Some(node);
    }

    /** `size_hint` (and `ExactSizeIterator::len`). */
    function SizeHint(): (r: (nat, Option<nat>))
      reads this, list, list.heap
      requires Valid()
      ensures r.0 == |Remaining()| && r.1 == Some(|Remaining()| as nat)
    {
      (len, Some(len))
    }
  }

  /** `IntoIter`: owns the list and pops from either end. */
  class IntoIter<T> {
    const list: DequeueList<T>

    constructor (list: DequeueList<T>)
      ensures this.list == list
    {
      this.list := list;
    }

    method Next() returns (r: Option<T>)
      requires list.Valid()
      modifies list, list.heap
      ensures list.Valid()
      ensures r == if old(list.Contents()) == [] then None else Some(old(list.Contents())[0])
      ensures list.Contents() == if old(list.Contents()) == [] then [] else old(list.Contents())[1..]
    {
      r := list.PopFront();
    }

    method NextBack() returns (r: Option<T>)
      requires list.Valid()
      modifies list, list.heap
      ensures list.Valid()
      ensures var s := old(list.Contents()); r == if s == [] then None else Some(s[|s| - 1])
      ensures var s := old(list.Contents()); list.Contents() == if s == [] then [] else s[..|s| - 1]
    {
      r := list.PopBack();
    }

    function SizeHint(): (r: (nat, Option<nat>))
      reads this, list, list.heap
      requires list.Valid()
      ensures r.0 == |list.Contents()| && r.1 == Some(|list.Contents()| as nat)
    {
      (list.len, Some(list.len))
    }
  }

  /** `Clone`: push a copy of every element, met through `iter`, onto a new list. */
  method Clone<T>(list: DequeueList<T>) returns (copy: DequeueList<T>)
    requires list.Valid()
    modifies list.heap
    ensures fresh(copy) && copy.heap == list.heap && copy.Valid() && copy.Contents() == old(list.Contents())
    ensures list.Valid() && list.Contents() == old(list.Contents())
    ensures Untouched(old(list.heap.cells), list.heap.cells, []) && Confined(old(list.heap.cells), [], copy.Repr)
  {
    ghost var c0, s0 := list.heap.cells, list.Contents();
    copy := new DequeueList(list.heap);
    var it := new Iter(list);
    while true
      invariant it.Valid() && it.list == list && it.hi == |list.Repr|
      invariant fresh(copy) && copy.heap == list.heap && copy.Valid()
      invariant list.Contents() == s0 && copy.Contents() == s0[..it.lo]
      invariant Untouched(c0, list.heap.cells, []) && Confined(c0, [], copy.Repr) && Allocated(c0, list.Repr)
      decreases it.len
    {
      var value := it.Next();
      if value.None? {
        break;
      }
      var elem := list.heap.cells[value.value].elem;
      assert elem == s0[it.lo - 1];
      CloneStep(list, copy, it, elem, c0, s0);
    }
  }

  /** One step of `Clone`: the copy grows by the element at `lo - 1`, and the
      original list keeps its nodes and contents. */
  method CloneStep<T>(list: DequeueList<T>, copy: DequeueList<T>, it: Iter<T>, elem: T, ghost c0: Cells<T>, ghost s0: seq<T>)
    requires list.Valid() && copy.Valid() && copy.heap == list.heap && copy != list && it.Valid() && it.list == list
    requires list.Contents() == s0 && 0 < it.lo <= |s0| && elem == s0[it.lo - 1] && copy.Contents() == s0[..it.lo - 1]
    requires Untouched(c0, list.heap.cells, []) && Confined(c0, [], copy.Repr) && Allocated(c0, list.Repr)
    modifies copy, list.heap
    ensures copy.Valid() && copy.Contents() == s0[..it.lo]
    ensures list.Valid() && list.Contents() == s0 && it.Valid()
    ensures Untouched(c0, list.heap.cells, []) && Confined(c0, [], copy.Repr)
  {
    ghost var c1, r1 := list.heap.cells, copy.Repr;
    copy.PushBack(elem);
    FrameTrans(c0, c1, list.heap.cells, [], r1, copy.Repr);
    CopyFrame(c0, c1, list.heap.cells, r1, list.Repr, list.head, list.tail);
    TakeOneMore(s0, it.lo);
  }

  lemma TakeOneMore<T>(s: seq<T>, k: nat)
    requires 0 < k <= |s|
    ensures s[..k] == s[..k - 1] + [s[k - 1]]
  {
  }

  /** A chain allocated before `c0` survives a step that only touches nodes allocated since. */
  lemma CopyFrame<T>(c0: Cells<T>, c1: Cells<T>, c2: Cells<T>, fresh1: seq<nat>, r: seq<nat>, head: Link, tail: Link)
    requires Chain(c1, r, head, tail) && Allocated(c0, r)
    requires Untouched(c1, c2, fresh1) && Confined(c0, [], fresh1)
    ensures Chain(c2, r, head, tail) && Elems(c2, r) == Elems(c1, r)
  {
    assert Disjoint(r, fresh1);
    ChainFrame(c1, c2, fresh1, r, head, tail);
  }
}
