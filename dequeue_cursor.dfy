/** `CursorMut` (src/dequeue.rs): a position in a `DequeueList` that is
    either on a node or on the "ghost" between the tail and the head, and
    that edits the list around that position by relinking nodes. */
module DequeueCursor {
  import opened Arena
  import opened DequeueLinks
  import opened DequeueSegments
  import opened Dequeue

  /** The element at a position, `None` at the ghost or past the end. */
  function At<T>(s: seq<T>, p: Option<nat>): (r: Option<T>)
    ensures r.Some? <==> p.Some? && p.value < |s|
    ensures r.Some? ==> r.value == s[p.value]
  {
    match p
    case None => None
    case Some(i) => if i < |s| then Some(s[i]) else None
  }

  /** A position of a list of length `n`: the ghost or an index below `n`. */
  predicate ValidPos(p: Option<nat>, n: nat) {
    p.Some? ==> p.value < n
  }

  /** Where `move_next` goes from position `p` in a list of length `n`. */
  function NextPos(p: Option<nat>, n: nat): (q: Option<nat>)
    ensures ValidPos(q, n)
  {
    match p
    case None => if n == 0 then None else Some(0)
    case Some(i) => if i + 1 < n then Some(i + 1) else None
  }

  /** Where `move_prev` goes from position `p` in a list of length `n`. */
  function PrevPos(p: Option<nat>, n: nat): (q: Option<nat>)
    requires ValidPos(p, n)
    ensures ValidPos(q, n)
  {
    match p
    case None => if n == 0 then None else Some(n - 1)
    case Some(i) => if i > 0 then Some(i - 1) else None
  }

  /** `move_prev` undoes `move_next` and `move_next` undoes `move_prev`. */
  lemma MovesInverse(p: Option<nat>, n: nat)
    requires ValidPos(p, n)
    ensures PrevPos(NextPos(p, n), n) == p
    ensures NextPos(PrevPos(p, n), n) == p
  {
  }

  /** The position after `k` calls of `move_next` from `p`. */
  function NextPosN(p: Option<nat>, n: nat, k: nat): (q: Option<nat>)
    ensures ValidPos(q, n)
  {
    if k == 0 then (if p.Some? && p.value >= n then None else p) else NextPos(NextPosN(p, n, k - 1), n)
  }

  /** From the ghost, `move_next` visits the indices `0 .. n-1` in order. */
  lemma {:induction false} WalkFromGhost(n: nat, k: nat)
    requires 0 < k <= n
    ensures NextPosN(None, n, k) == Some(k - 1)
  {
    if k > 1 {
      WalkFromGhost(n, k - 1);
    }
  }

  /** `n + 1` moves from the ghost come back to the ghost. */
  lemma CycleFromGhost(n: nat)
    ensures NextPosN(None, n, n + 1) == None
  {
    if n > 0 {
      WalkFromGhost(n, n);
    }
  }

  /** `e` spliced in front of position `p` of `s`, or at the back from the ghost. */
  function InsertBeforePos<X>(s: seq<X>, e: seq<X>, p: Option<nat>): (t: seq<X>)
    requires ValidPos(p, |s|)
    ensures |t| == |s| + |e|
  {
    match p
    case None => s + e
    case Some(i) => s[..i] + e + s[i..]
  }

  /** `e` spliced after position `p` of `s`, or at the front from the ghost. */
  function InsertAfterPos<X>(s: seq<X>, e: seq<X>, p: Option<nat>): (t: seq<X>)
    requires ValidPos(p, |s|)
    ensures |t| == |s| + |e|
  {
    match p
    case None => e + s
    case Some(i) => s[..i + 1] + e + s[i + 1..]
  }

  /** Splicing in an empty list changes nothing, wherever the cursor is. */
  lemma InsertNothing<X, Y>(s: seq<X>, t: seq<Y>, p: Option<nat>)
    requires ValidPos(p, |s|) && ValidPos(p, |t|)
    ensures InsertBeforePos(s, [], p) == s && InsertAfterPos(s, [], p) == s
    ensures InsertBeforePos(t, [], p) == t && InsertAfterPos(t, [], p) == t
  {
    if p.Some? {
      assert s[..p.value] + [] + s[p.value..] == s;
      assert s[..p.value + 1] + [] + s[p.value + 1..] == s;
      assert t[..p.value] + [] + t[p.value..] == t;
      assert t[..p.value + 1] + [] + t[p.value + 1..] == t;
    }
  }

  class CursorMut<T> {
    const list: DequeueList<T>
    var current: Link
    var index: Option<nat>

    /** A cursor on a node is on a node of its list and has an index.
        The index need not be that node's position: see `Accurate`. */
    ghost predicate Valid()
      reads this, list, list.heap
    {
      list.Valid() && (current.Ptr? ==> current.addr in list.Repr && index.Some?)
    }

    /** The position of the current node, `None` at the ghost. */
    ghost function Pos(): (p: Option<nat>)
      reads this, list
      requires current.Ptr? ==> current.addr in list.Repr
      ensures ValidPos(p, |list.Repr|)
    {
      if current.Ptr? then Some(IndexOf(list.Repr, current.addr)) else None
    }

    /** A cursor on the `k`-th node is at position `k`. */
    lemma PosAt(k: nat)
      requires list.Valid() && current.Ptr? && index.Some? && k < |list.Repr| && list.Repr[k] == current.addr
      ensures Valid() && Pos() == Some(k)
    {
      IndexOfDistinct(list.Repr, k);
    }

    /** `index` says where the cursor is: the position of the current
        node, and `None` at the ghost. */
    ghost predicate Accurate()
      reads this, list
    {
      match current
      case Null => index.None?
      case Ptr(a) => index.Some? && index.value < |list.Repr| && list.Repr[index.value] == a
    }

    lemma AccuratePos()
      requires Valid()
      ensures Accurate() <==> index == Pos()
    {
      if current.Ptr? && index.Some? && index.value < |list.Repr| {
        IndexOfDistinct(list.Repr, index.value);
      }
    }

    /** `DequeueList::cursor_mut`: the cursor starts on the ghost. */
    constructor (list: DequeueList<T>)
      requires list.Valid()
      ensures Valid() && Accurate() && this.list == list && Pos() == None
    {
      this.list := list;
      current := Null;
      index := None;
    }

    /** `index`. */
    function Index(): (r: Option<nat>)
      reads this, list, list.heap
      requires Valid()
      ensures Accurate() ==> r == Pos()
    {
      index
    }

    method MoveNext()
      requires Valid()
      modifies this
      ensures Valid()
      ensures Pos() == NextPos(old(Pos()), |list.Repr|)
      ensures index == if old(current).Ptr? then (if current.Ptr? then Some(old(index).value + 1) else None)
                       else if list.Repr != [] then Some(0) else old(index)
      ensures old(Accurate()) ==> Accurate()
    {
      if current.Ptr? {
        ghost var i := IndexOf(list.Repr, current.addr);
        Neighbours(list.heap.cells, list.Repr, list.head, list.tail, i);
        current := list.heap.cells[current.addr].next;
        if current.Ptr? {
          index := Some(index.value + 1);
          IndexOfDistinct(list.Repr, i + 1);
        } else {
          index := None;
        }
      } else if !list.IsEmpty() {
        current := list.head;
        index := Some(0);
        IndexOfDistinct(list.Repr, 0);
      }
    }

    /** `move_prev` decrements a `usize` index: it must not be 0 when the
        current node has a predecessor. */
    ghost predicate CanMovePrev()
      reads this, list, list.heap
      requires Valid()
    {
      current.Ptr? && list.heap.cells[current.addr].prev.Ptr? ==> index.value > 0
    }

    lemma AccurateCanMovePrev()
      requires Valid() && Accurate()
      ensures CanMovePrev()
    {
      if current.Ptr? {
        Neighbours(list.heap.cells, list.Repr, list.head, list.tail, Pos().value);
      }
    }

    method MovePrev()
      requires Valid() && CanMovePrev()
      modifies this
      ensures Valid()
      ensures Pos() == PrevPos(old(Pos()), |list.Repr|)
      ensures index == if old(current).Ptr? then (if current.Ptr? then Some(old(index).value - 1) else None)
                       else if list.Repr != [] then Some(|list.Repr| - 1) else old(index)
      ensures old(Accurate()) ==> Accurate()
    {
      if current.Ptr? {
        ghost var i := IndexOf(list.Repr, current.addr);
        Neighbours(list.heap.cells, list.Repr, list.head, list.tail, i);
        current := list.heap.cells[current.addr].prev;
        if current.Ptr? {
          index := Some(index.value - 1);
          IndexOfDistinct(list.Repr, i - 1);
        } else {
          index := None;
        }
      } else if !list.IsEmpty() {
        current := list.tail;
        index := Some(list.len - 1);
        IndexOfDistinct(list.Repr, list.len - 1);
      }
    }

    /** `current`: the element under the cursor. */
    function Current(): (r: Option<T>)
      reads this, list, list.heap
      requires Valid()
      ensures r == At(list.Contents(), Pos())
    {
      match current
      case Null => None
      case Ptr(a) => ElemsAt(list.heap.cells, list.Repr, IndexOf(list.Repr, a)); Some(list.heap.cells[a].elem)
    }

    /** `peek_next`: the element `move_next` would go to. */
    function PeekNext(): (r: Option<T>)
      reads this, list, list.heap
      requires Valid()
      ensures r == At(list.Contents(), NextPos(Pos(), |list.Repr|))
    {
      ChainEnds(list.heap.cells, list.Repr, list.head, list.tail);
      var next := if current.Ptr? then
                    Neighbours(list.heap.cells, list.Repr, list.head, list.tail, IndexOf(list.Repr, current.addr));
                    list.heap.cells[current.addr].next
                  else list.head;
      match next
      case Null => None
      case Ptr(a) => ElemsAt(list.heap.cells, list.Repr, NextPos(Pos(), |list.Repr|).value); Some(list.heap.cells[a].elem)
    }

    /** `peek_prev`: the element `move_prev` would go to. */
    function PeekPrev(): (r: Option<T>)
      reads this, list, list.heap
      requires Valid()
      ensures r == At(list.Contents(), PrevPos(Pos(), |list.Repr|))
    {
      ChainEnds(list.heap.cells, list.Repr, list.head, list.tail);
      var prev := if current.Ptr? then
                    Neighbours(list.heap.cells, list.Repr, list.head, list.tail, IndexOf(list.Repr, current.addr));
                    list.heap.cells[current.addr].prev
                  else list.tail;
      match prev
      case Null => None
      case Ptr(a) => ElemsAt(list.heap.cells, list.Repr, PrevPos(Pos(), |list.Repr|).value); Some(list.heap.cells[a].elem)
    }

    /** `split_before`: the nodes before the cursor leave as a new list.
        On a node the cursor's index must be its position, since the
        lengths are computed from it. The returned header is the corrected
        `SplitBeforeOutput`: on the head node it is the empty list, where the
        source builds `(old head, None, 0)` (see `SplitBeforeAtHeadAsWritten`). */
    method SplitBefore() returns (out: DequeueList<T>)
      requires Valid() && (current.Ptr? ==> Accurate())
      modifies this, list, list.heap
      ensures fresh(out) && out.heap == list.heap && Valid() && out.Valid()
      ensures old(current).Null? ==> out.Repr == old(list.Repr) && out.Contents() == old(list.Contents())
                                     && list.Repr == [] && list.Contents() == []
      ensures old(current).Ptr? ==> var k := old(index).value;
              && out.Repr == old(list.Repr)[..k] && list.Repr == old(list.Repr)[k..]
              && out.Contents() == old(list.Contents())[..k] && list.Contents() == old(list.Contents())[k..]
      ensures current == old(current) && index == (if current.Ptr? then Some(0) else old(index))
      ensures current.Ptr? ==> Accurate()
      ensures Untouched(old(list.heap.cells), list.heap.cells, old(list.Repr))
    {
      if current.Null? {
        out := list.Take();
        return;
      }
      ghost var c0, r0 := list.heap.cells, list.Repr;
      var cur := current.addr;
      var oldLen := list.len;
      var oldIdx := index.value;
      assert r0[oldIdx] == cur;
      SplitBeforeCells(c0, r0, list.head, list.tail, oldIdx);
      var prev := list.heap.cells[cur].prev;
      var newLen := oldLen - oldIdx;
      var newHead := current;
      var newTail := list.tail;
      var output := SplitBeforeOutput(list.head, prev, oldLen, oldIdx);
      ghost var c' := if prev.Ptr? then SetNext(SetPrev(c0, cur, Null), prev.addr, Null) else c0;
      if prev.Ptr? {
        list.heap.cells := SetPrev(list.heap.cells, cur, Null);
        list.heap.cells := SetNext(list.heap.cells, prev.addr, Null);
      }
      assert list.heap.cells == c' && list.heap.Valid();
      list.len, list.head, list.tail := newLen, newHead, newTail;
      list.Repr := r0[oldIdx..];
      index := Some(0);
      out := new DequeueList.Parts(list.heap, output.0, output.1, output.2, r0[..oldIdx]);
    }

    /** `split_after`: the nodes after the cursor leave as a new list.
        On a node the cursor's index must be its position. The returned
        header is the corrected `SplitAfterOutput`: on the tail node it is the
        empty list, where the source builds `(None, old tail, 0)` (see
        `SplitAfterAtTailAsWritten`). */
    method SplitAfter() returns (out: DequeueList<T>)
      requires Valid() && (current.Ptr? ==> Accurate())
      modifies this, list, list.heap
      ensures fresh(out) && out.heap == list.heap && Valid() && out.Valid()
      ensures old(current).Null? ==> out.Repr == old(list.Repr) && out.Contents() == old(list.Contents())
                                     && list.Repr == [] && list.Contents() == []
      ensures old(current).Ptr? ==> var k := old(index).value + 1;
              && list.Repr == old(list.Repr)[..k] && out.Repr == old(list.Repr)[k..]
              && list.Contents() == old(list.Contents())[..k] && out.Contents() == old(list.Contents())[k..]
      ensures current == old(current) && index == old(index)
      ensures old(Accurate()) ==> Accurate()
      ensures Untouched(old(list.heap.cells), list.heap.cells, old(list.Repr))
    {
      if current.Null? {
        out := list.Take();
        return;
      }
      ghost var c0, r0 := list.heap.cells, list.Repr;
      var cur := current.addr;
      var oldLen := list.len;
      var oldIdx := index.value;
      assert r0[oldIdx] == cur;
      SplitAfterCells(c0, r0, list.head, list.tail, oldIdx);
      var next := list.heap.cells[cur].next;
      var newLen := oldIdx + 1;
      var newHead := list.head;
      var newTail := current;
      var newIdx := Some(oldIdx);
      var output := SplitAfterOutput(next, list.tail, oldLen, oldIdx);
      ghost var c' := if next.Ptr? then SetPrev(SetNext(c0, cur, Null), next.addr, Null) else c0;
      if next.Ptr? {
        list.heap.cells := SetNext(list.heap.cells, cur, Null);
        list.heap.cells := SetPrev(list.heap.cells, next.addr, Null);
      }
      assert list.heap.cells == c' && list.heap.Valid();
      list.len, list.tail, list.head := newLen, newTail, newHead;
      list.Repr := r0[..oldIdx + 1];
      index := newIdx;
      out := new DequeueList.Parts(list.heap, output.0, output.1, output.2, r0[oldIdx + 1..]);
    }

    /** `splice_before`: the donor's nodes go in just before the cursor
        (at the back when the cursor is on the ghost). `current` and
        `index` are left alone, so on a node the index falls behind. */
    method SpliceBefore(input: DequeueList<T>)
      requires Valid() && input.Valid() && input.heap == list.heap && input != list
      requires Disjoint(list.Repr, input.Repr)
      modifies list, input, list.heap
      ensures Valid() && input.Valid() && input.Repr == [] && input.Contents() == []
      ensures current == old(current) && index == old(index)
      ensures list.Repr == InsertBeforePos(old(list.Repr), old(input.Repr), old(Pos()))
      ensures list.Contents() == InsertBeforePos(old(list.Contents()), old(input.Contents()), old(Pos()))
      ensures old(current).Ptr? ==> Pos() == Some(old(Pos()).value + |old(input.Repr)|)
      ensures Untouched(old(list.heap.cells), list.heap.cells, old(list.Repr) + old(input.Repr))
    {
      if input.IsEmpty() {
        InsertNothing(list.Repr, list.Contents(), Pos());
      } else if list.IsEmpty() {
        Adopt(input);
      } else {
        SpliceBeforeBoth(input);
      }
    }

    /** `*self.list = input` in `splice_before` and `splice_after`: an empty
        list takes over the donor's nodes, whichever side they were to go. */
    method Adopt(input: DequeueList<T>)
      requires Valid() && input.Valid() && input.heap == list.heap && input != list
      requires Disjoint(list.Repr, input.Repr)
      requires list.Repr == [] && input.Repr != []
      modifies list, input
      ensures Valid() && input.Valid() && input.Repr == [] && input.Contents() == []
      ensures current == old(current) && index == old(index)
      ensures list.Repr == InsertBeforePos(old(list.Repr), old(input.Repr), old(Pos()))
      ensures list.Contents() == InsertBeforePos(old(list.Contents()), old(input.Contents()), old(Pos()))
      ensures Untouched(old(list.heap.cells), list.heap.cells, old(list.Repr) + old(input.Repr))
      ensures list.Repr == InsertAfterPos(old(list.Repr), old(input.Repr), old(Pos()))
      ensures list.Contents() == InsertAfterPos(old(list.Contents()), old(input.Contents()), old(Pos()))
      ensures Pos() == old(Pos()) && (old(Accurate()) ==> Accurate())
    {
      ghost var r0, d0, s0, e0 := list.Repr, input.Repr, list.Contents(), input.Contents();
      assert Pos() == None && s0 == [];
      list.TakeFrom(input);
      assert r0 + d0 == d0 + r0 == d0 && s0 + e0 == e0 + s0 == e0;
    }

    /** `splice_before` once both lists have nodes: the donor gives up its
        chain, which is linked in before the cursor. */
    method SpliceBeforeBoth(input: DequeueList<T>)
      requires Valid() && input.Valid() && input.heap == list.heap && input != list
      requires Disjoint(list.Repr, input.Repr)
      requires list.Repr != [] && input.Repr != []
      modifies list, input, list.heap
      ensures Valid() && input.Valid() && input.Repr == [] && input.Contents() == []
      ensures current == old(current) && index == old(index)
      ensures list.Repr == InsertBeforePos(old(list.Repr), old(input.Repr), old(Pos()))
      ensures list.Contents() == InsertBeforePos(old(list.Contents()), old(input.Contents()), old(Pos()))
      ensures old(current).Ptr? ==> Pos() == Some(old(Pos()).value + |old(input.Repr)|)
      ensures Untouched(old(list.heap.cells), list.heap.cells, old(list.Repr) + old(input.Repr))
    {
      ghost var d0 := input.Repr;
      var inputHead, inputTail, n := input.Release();
      assert Valid() && Pos() == old(Pos()) && list.Contents() == old(list.Contents());
      InsertBefore(inputHead, inputTail, d0, n);
    }

    /** `splice_before` once both lists are known to be non-empty: the
        donor chain `d` from `ih` to `it`, of length `n`, is linked in and
        the length grows by `n`. */
    method InsertBefore(ih: nat, it: nat, ghost d: seq<nat>, n: nat)
      requires Valid() && list.Repr != [] && Chain(list.heap.cells, d, Ptr(ih), Ptr(it))
      requires d != [] && n == |d| && Disjoint(list.Repr, d)
      modifies list, list.heap
      ensures Valid()
      ensures list.Repr == InsertBeforePos(old(list.Repr), d, old(Pos()))
      ensures list.Contents() == InsertBeforePos(old(list.Contents()), Elems(old(list.heap.cells), d), old(Pos()))
      ensures old(current).Ptr? ==> Pos() == Some(old(Pos()).value + |d|)
      ensures Untouched(old(list.heap.cells), list.heap.cells, old(list.Repr) + d)
    {
      if current.Ptr? {
        InsertBeforeNode(ih, it, d, n);
      } else {
        list.len := list.len + n;
        LinkAtBack(ih, it, d);
      }
    }

    /** `splice_before` on a node, once both lists have nodes. */
    method InsertBeforeNode(ih: nat, it: nat, ghost d: seq<nat>, n: nat)
      requires Valid() && current.Ptr? && Chain(list.heap.cells, d, Ptr(ih), Ptr(it))
      requires d != [] && n == |d| && Disjoint(list.Repr, d)
      modifies list, list.heap
      ensures Valid()
      ensures list.Repr == InsertBeforePos(old(list.Repr), d, old(Pos()))
      ensures list.Contents() == InsertBeforePos(old(list.Contents()), Elems(old(list.heap.cells), d), old(Pos()))
      ensures Pos() == Some(old(Pos()).value + |d|)
      ensures Untouched(old(list.heap.cells), list.heap.cells, old(list.Repr) + d)
    {
      ghost var c0, r0, p0 := list.heap.cells, list.Repr, Pos();
      list.len := list.len + n;
      var cur := current.addr;
      ghost var i := p0.value;
      LinkBefore(cur, ih, it, d, i);
      SpliceShift(r0, d, i);
      PosAt(i + |d|);
    }

    /** The relinking of `splice_before` on node `cur`, the `i`-th: the
        donor chain `d` goes just before it. */
    method LinkBefore(cur: nat, ih: nat, it: nat, ghost d: seq<nat>, ghost i: nat)
      requires list.heap.Valid() && Chain(list.heap.cells, list.Repr, list.head, list.tail)
      requires i < |list.Repr| && list.Repr[i] == cur
      requires Chain(list.heap.cells, d, Ptr(ih), Ptr(it)) && Disjoint(list.Repr, d)
      modifies list, list.heap
      ensures list.heap.Valid() && list.len == old(list.len) && Chain(list.heap.cells, list.Repr, list.head, list.tail)
      ensures list.Repr == old(list.Repr)[..i] + d + old(list.Repr)[i..]
      ensures Elems(list.heap.cells, list.Repr) == Elems(old(list.heap.cells), old(list.Repr))[..i] + Elems(old(list.heap.cells), d) + Elems(old(list.heap.cells), old(list.Repr))[i..]
      ensures Untouched(old(list.heap.cells), list.heap.cells, old(list.Repr) + d)
    {
      ghost var c0, r0 := list.heap.cells, list.Repr;
      Neighbours(c0, r0, list.head, list.tail, i);
      var prev := list.heap.cells[cur].prev;
      if prev.Ptr? {
        LinkBetween(prev.addr, cur, ih, it, d, i);
      } else {
        LinkAtFront(ih, it, d);
        SpliceShift(r0, d, i);
        SpliceShiftElems(Elems(c0, r0), Elems(c0, d), i);
      }
    }

    /** The relinking of `splice_before` on node `y`, the `i`-th, whose
        `prev` is `x`: the donor chain `d` goes between the two. */
    method LinkBetween(x: nat, y: nat, ih: nat, it: nat, ghost d: seq<nat>, ghost i: nat)
      requires list.heap.Valid() && Chain(list.heap.cells, list.Repr, list.head, list.tail)
      requires 0 < i < |list.Repr| && x == list.Repr[i - 1] && y == list.Repr[i]
      requires Chain(list.heap.cells, d, Ptr(ih), Ptr(it)) && Disjoint(list.Repr, d)
      modifies list, list.heap
      ensures list.heap.Valid() && list.len == old(list.len) && list.head == old(list.head) && list.tail == old(list.tail)
      ensures list.Repr == old(list.Repr)[..i] + d + old(list.Repr)[i..]
      ensures Chain(list.heap.cells, list.Repr, list.head, list.tail)
      ensures Elems(list.heap.cells, list.Repr) == Elems(old(list.heap.cells), old(list.Repr))[..i] + Elems(old(list.heap.cells), d) + Elems(old(list.heap.cells), old(list.Repr))[i..]
      ensures Untouched(old(list.heap.cells), list.heap.cells, old(list.Repr) + d)
    {
      ghost var r0 := list.Repr;
      SpliceBeforeMiddle(list.heap.cells, r0, list.head, list.tail, d, i, x, y, ih, it);
      var cells := list.heap.cells;
      cells := SetNext(cells, x, Ptr(ih));
      cells := SetPrev(cells, ih, Ptr(x));
      cells := SetPrev(cells, y, Ptr(it));
      cells := SetNext(cells, it, Ptr(y));
      list.heap.cells := cells;
      list.Repr := r0[..i] + d + r0[i..];
    }

    /** The relinking of `splice_before` on the ghost, or of `splice_after`
        on the tail: the donor chain `d` goes after the tail. */
    method LinkAtBack(ih: nat, it: nat, ghost d: seq<nat>)
      requires list.heap.Valid() && Chain(list.heap.cells, list.Repr, list.head, list.tail) && list.Repr != []
      requires Chain(list.heap.cells, d, Ptr(ih), Ptr(it)) && d != [] && Disjoint(list.Repr, d)
      modifies list, list.heap
      ensures list.heap.Valid() && list.len == old(list.len) && list.head == old(list.head)
      ensures list.Repr == old(list.Repr) + d && Chain(list.heap.cells, list.Repr, list.head, list.tail)
      ensures Elems(list.heap.cells, list.Repr) == Elems(old(list.heap.cells), old(list.Repr)) + Elems(old(list.heap.cells), d)
      ensures Untouched(old(list.heap.cells), list.heap.cells, old(list.Repr) + d)
    {
      ghost var c0, r0 := list.heap.cells, list.Repr;
      var last := list.tail.addr;
      SpliceAtEnd(c0, r0, list.head, list.tail, d, last, ih, it);
      var cells := list.heap.cells;
      cells := SetNext(cells, last, Ptr(ih));
      cells := SetPrev(cells, ih, Ptr(last));
      list.heap.cells := cells;
      list.tail := Ptr(it);
      list.Repr := r0 + d;
    }

    /** `splice_after`: the donor's nodes go in just after the cursor
        (at the front when the cursor is on the ghost); `current` and
        `index` are left alone. */
    method SpliceAfter(input: DequeueList<T>)
      requires Valid() && input.Valid() && input.heap == list.heap && input != list
      requires Disjoint(list.Repr, input.Repr)
      modifies list, input, list.heap
      ensures Valid() && input.Valid() && input.Repr == [] && input.Contents() == []
      ensures current == old(current) && index == old(index)
      ensures list.Repr == InsertAfterPos(old(list.Repr), old(input.Repr), old(Pos()))
      ensures list.Contents() == InsertAfterPos(old(list.Contents()), old(input.Contents()), old(Pos()))
      ensures Pos() == old(Pos()) && (old(Accurate()) ==> Accurate())
      ensures Untouched(old(list.heap.cells), list.heap.cells, old(list.Repr) + old(input.Repr))
    {
      if input.IsEmpty() {
        InsertNothing(list.Repr, list.Contents(), Pos());
      } else if list.IsEmpty() {
        Adopt(input);
      } else {
        SpliceAfterBoth(input);
      }
    }

    /** `splice_after` once both lists have nodes: the donor gives up its
        chain, which is linked in after the cursor. */
    method SpliceAfterBoth(input: DequeueList<T>)
      requires Valid() && input.Valid() && input.heap == list.heap && input != list
      requires Disjoint(list.Repr, input.Repr)
      requires list.Repr != [] && input.Repr != []
      modifies list, input, list.heap
      ensures Valid() && input.Valid() && input.Repr == [] && input.Contents() == []
      ensures current == old(current) && index == old(index)
      ensures list.Repr == InsertAfterPos(old(list.Repr), old(input.Repr), old(Pos()))
      ensures list.Contents() == InsertAfterPos(old(list.Contents()), old(input.Contents()), old(Pos()))
      ensures Pos() == old(Pos()) && (old(Accurate()) ==> Accurate())
      ensures Untouched(old(list.heap.cells), list.heap.cells, old(list.Repr) + old(input.Repr))
    {
      ghost var d0 := input.Repr;
      var inputHead, inputTail, n := input.Release();
      assert Valid() && Pos() == old(Pos()) && list.Contents() == old(list.Contents());
      InsertAfter(inputHead, inputTail, d0, n);
    }

    /** `splice_after` once both lists are known to be non-empty: the
        donor chain `d` from `ih` to `it`, of length `n`, is linked in and
        the length grows by `n`. */
    method InsertAfter(ih: nat, it: nat, ghost d: seq<nat>, n: nat)
      requires Valid() && list.Repr != [] && Chain(list.heap.cells, d, Ptr(ih), Ptr(it))
      requires d != [] && n == |d| && Disjoint(list.Repr, d)
      modifies list, list.heap
      ensures Valid()
      ensures list.Repr == InsertAfterPos(old(list.Repr), d, old(Pos()))
      ensures list.Contents() == InsertAfterPos(old(list.Contents()), Elems(old(list.heap.cells), d), old(Pos()))
      ensures Pos() == old(Pos()) && (old(Accurate()) ==> Accurate())
      ensures Untouched(old(list.heap.cells), list.heap.cells, old(list.Repr) + d)
    {
      if current.Ptr? {
        InsertAfterNode(ih, it, d, n);
      } else {
        list.len := list.len + n;
        LinkAtFront(ih, it, d);
      }
    }

    /** `splice_after` on a node, once both lists have nodes. */
    method InsertAfterNode(ih: nat, it: nat, ghost d: seq<nat>, n: nat)
      requires Valid() && current.Ptr? && Chain(list.heap.cells, d, Ptr(ih), Ptr(it))
      requires d != [] && n == |d| && Disjoint(list.Repr, d)
      modifies list, list.heap
      ensures Valid()
      ensures list.Repr == InsertAfterPos(old(list.Repr), d, old(Pos()))
      ensures list.Contents() == InsertAfterPos(old(list.Contents()), Elems(old(list.heap.cells), d), old(Pos()))
      ensures Pos() == old(Pos()) && (old(Accurate()) ==> Accurate())
      ensures Untouched(old(list.heap.cells), list.heap.cells, old(list.Repr) + d)
    {
      ghost var c0, r0, p0 := list.heap.cells, list.Repr, Pos();
      list.len := list.len + n;
      var cur := current.addr;
      ghost var i := p0.value;
      LinkAfter(cur, ih, it, d, i);
      SpliceKeep(r0, d, i);
      PosAt(i);
    }

    /** The relinking of `splice_after` on node `cur`, the `i`-th: the
        donor chain `d` goes just after it. */
    method LinkAfter(cur: nat, ih: nat, it: nat, ghost d: seq<nat>, ghost i: nat)
      requires list.heap.Valid() && Chain(list.heap.cells, list.Repr, list.head, list.tail)
      requires i < |list.Repr| && list.Repr[i] == cur
      requires Chain(list.heap.cells, d, Ptr(ih), Ptr(it)) && Disjoint(list.Repr, d)
      modifies list, list.heap
      ensures list.heap.Valid() && list.len == old(list.len) && Chain(list.heap.cells, list.Repr, list.head, list.tail)
      ensures list.Repr == old(list.Repr)[..i + 1] + d + old(list.Repr)[i + 1..]
      ensures Elems(list.heap.cells, list.Repr) == Elems(old(list.heap.cells), old(list.Repr))[..i + 1] + Elems(old(list.heap.cells), d) + Elems(old(list.heap.cells), old(list.Repr))[i + 1..]
      ensures Untouched(old(list.heap.cells), list.heap.cells, old(list.Repr) + d)
    {
      ghost var c0, r0 := list.heap.cells, list.Repr;
      Neighbours(c0, r0, list.head, list.tail, i);
      var next := list.heap.cells[cur].next;
      if next.Ptr? {
        LinkBetweenAfter(cur, next.addr, ih, it, d, i);
      } else {
        LinkAtBack(ih, it, d);
        SpliceKeep(r0, d, i);
        SpliceKeepElems(Elems(c0, r0), Elems(c0, d), i);
      }
    }

    /** The relinking of `splice_after` on node `x`, the `i`-th, whose
        `next` is `y`: the donor chain `d` goes between the two, with the
        writes in `splice_after`'s order. */
    method LinkBetweenAfter(x: nat, y: nat, ih: nat, it: nat, ghost d: seq<nat>, ghost i: nat)
      requires list.heap.Valid() && Chain(list.heap.cells, list.Repr, list.head, list.tail)
      requires i + 1 < |list.Repr| && x == list.Repr[i] && y == list.Repr[i + 1]
      requires Chain(list.heap.cells, d, Ptr(ih), Ptr(it)) && Disjoint(list.Repr, d)
      modifies list, list.heap
      ensures list.heap.Valid() && list.len == old(list.len) && list.head == old(list.head) && list.tail == old(list.tail)
      ensures list.Repr == old(list.Repr)[..i + 1] + d + old(list.Repr)[i + 1..]
      ensures Chain(list.heap.cells, list.Repr, list.head, list.tail)
      ensures Elems(list.heap.cells, list.Repr) == Elems(old(list.heap.cells), old(list.Repr))[..i + 1] + Elems(old(list.heap.cells), d) + Elems(old(list.heap.cells), old(list.Repr))[i + 1..]
      ensures Untouched(old(list.heap.cells), list.heap.cells, old(list.Repr) + d)
    {
      ghost var r0 := list.Repr;
      SpliceAfterMiddle(list.heap.cells, r0, list.head, list.tail, d, i, x, y, ih, it);
      var cells := list.heap.cells;
      cells := SetPrev(cells, y, Ptr(it));
      cells := SetNext(cells, it, Ptr(y));
      cells := SetNext(cells, x, Ptr(ih));
      cells := SetPrev(cells, ih, Ptr(x));
      list.heap.cells := cells;
      list.Repr := r0[..i + 1] + d + r0[i + 1..];
    }

    /** The relinking of `splice_after` on the ghost, or of `splice_before`
        on the head: the donor chain `d` goes before the head. */
    method LinkAtFront(ih: nat, it: nat, ghost d: seq<nat>)
      requires list.heap.Valid() && Chain(list.heap.cells, list.Repr, list.head, list.tail) && list.Repr != []
      requires Chain(list.heap.cells, d, Ptr(ih), Ptr(it)) && d != [] && Disjoint(list.Repr, d)
      modifies list, list.heap
      ensures list.heap.Valid() && list.len == old(list.len) && list.tail == old(list.tail)
      ensures list.Repr == d + old(list.Repr) && Chain(list.heap.cells, list.Repr, list.head, list.tail)
      ensures Elems(list.heap.cells, list.Repr) == Elems(old(list.heap.cells), d) + Elems(old(list.heap.cells), old(list.Repr))
      ensures Untouched(old(list.heap.cells), list.heap.cells, old(list.Repr) + d)
    {
      ghost var c0, r0 := list.heap.cells, list.Repr;
      var first := list.head.addr;
      SpliceInFront(c0, r0, list.head, list.tail, d, first, ih, it);
      var cells := list.heap.cells;
      cells := SetPrev(cells, first, Ptr(it));
      cells := SetNext(cells, it, Ptr(first));
      list.heap.cells := cells;
      list.head := Ptr(ih);
      list.Repr := d + r0;
    }

    /** The relinking of `remove_current` on node `node`, the `i`-th: its
        neighbours are joined, the list's ends move when it was one, and it
        is freed. The result is the node's old successor. */
    method Unlink(node: nat, ghost i: nat) returns (next: Link)
      requires list.Valid() && i < |list.Repr| && list.Repr[i] == node
      modifies list, list.heap
      ensures list.Valid() && next == LinkTo(old(list.Repr), i + 1)
      ensures list.Repr == old(list.Repr)[..i] + old(list.Repr)[i + 1..]
      ensures list.Contents() == old(list.Contents())[..i] + old(list.Contents())[i + 1..]
      ensures Untouched(old(list.heap.cells), list.heap.cells, old(list.Repr))
    {
      ghost var c0, r0, h0, t0 := list.heap.cells, list.Repr, list.head, list.tail;
      RemoveNode(c0, r0, h0, t0, i);
      next := list.heap.cells[node].next;
      var cells, newHead, newTail := Bypass(node, i);
      list.heap.cells := cells;
      list.heap.Free(node);
      list.head, list.tail, list.len, list.Repr := newHead, newTail, list.len - 1, r0[..i] + r0[i + 1..];
    }

    /** The writes of `remove_current` around node `node`, the `i`-th: its
        neighbours are made to point past it, and the list's new ends are
        returned. The node itself is not yet freed. */
    method Bypass(node: nat, ghost i: nat) returns (cells: Cells<T>, newHead: Link, newTail: Link)
      requires list.Valid() && i < |list.Repr| && list.Repr[i] == node
      ensures node in list.heap.cells && var n := list.heap.cells[node];
              && (n.prev.Ptr? ==> n.prev.addr in list.heap.cells) && (n.next.Ptr? ==> n.next.addr in list.heap.cells)
      ensures cells.Keys == list.heap.cells.Keys && cells - {node} == Removed(list.heap.cells, node)
      ensures newHead == (if i == 0 then LinkTo(list.Repr, 1) else list.head)
      ensures newTail == (if i == |list.Repr| - 1 then LinkTo(list.Repr, |list.Repr| - 2) else list.tail)
    {
      ghost var c0, r0, h0, t0 := list.heap.cells, list.Repr, list.head, list.tail;
      RemoveNode(c0, r0, h0, t0, i);
      var cell := list.heap.cells[node];
      cells, newHead, newTail := list.heap.cells, list.head, list.tail;
      if cell.next.Ptr? {
        if cell.prev.Ptr? {
          cells := SetNext(cells, cell.prev.addr, cell.next);
          cells := SetPrev(cells, cell.next.addr, cell.prev);
        } else {
          newHead := cell.next;
          cells := SetPrev(cells, cell.next.addr, Null);
        }
      } else {
        if cell.prev.Ptr? {
          newTail := cell.prev;
          cells := SetNext(cells, cell.prev.addr, Null);
        } else {
          newTail, newHead := Null, Null;
        }
      }
    }

    /** `remove_current`: unlink and free the current node and move to its
        successor; after the tail the cursor is on the ghost, but `index`
        is left as it was. */
    method RemoveCurrent() returns (r: Option<T>)
      requires Valid()
      modifies this, list, list.heap
      ensures Valid() && index == old(index)
      ensures old(current).Null? ==> r == None && current == Null
                                     && list.Repr == old(list.Repr) && list.heap.cells == old(list.heap.cells)
      ensures old(current).Ptr? ==> var i := old(Pos()).value;
              && r == Some(old(list.Contents())[i])
              && list.Repr == old(list.Repr)[..i] + old(list.Repr)[i + 1..]
              && list.Contents() == old(list.Contents())[..i] + old(list.Contents())[i + 1..]
              && Pos() == (if i < |list.Repr| then Some(i) else None)
      ensures Untouched(old(list.heap.cells), list.heap.cells, old(list.Repr))
    {
      if list.IsEmpty() {
        return None;
      }
      if current.Null? {
        return None;
      }
      ghost var r0 := list.Repr;
      var node := current.addr;
      ghost var i := IndexOf(r0, node);
      ElemsAt(list.heap.cells, r0, i);
      var value := list.heap.cells[node].elem;
      current := Unlink(node, i);
      if current.Ptr? {
        IndexOfDistinct(list.Repr, i);
      }
      r := Some(value);
    }
  }

  /** Where the donor goes in front of position `i`, the node that was at
      `i` is now at `i + |d|`. */
  lemma SpliceShift(r: seq<nat>, d: seq<nat>, i: nat)
    requires i < |r|
    ensures (r[..i] + d + r[i..])[i + |d|] == r[i]
    ensures i == 0 ==> r[..i] + d + r[i..] == d + r
  {
    if i == 0 {
      assert r[..i] == [] && r[i..] == r;
    }
  }

  /** Inserting in front of position 0 is prepending. */
  lemma SpliceShiftElems<X>(s: seq<X>, e: seq<X>, i: nat)
    requires i == 0
    ensures s[..i] + e + s[i..] == e + s
  {
    assert s[..i] == [] && s[i..] == s;
  }

  /** Inserting after the last position is appending. */
  lemma SpliceKeepElems<X>(s: seq<X>, e: seq<X>, i: nat)
    requires i == |s| - 1
    ensures s[..i + 1] + e + s[i + 1..] == s + e
  {
    assert s[..i + 1] == s && s[i + 1..] == [];
  }

  /** Where the donor goes after position `i`, the node at `i` stays there. */
  lemma SpliceKeep(r: seq<nat>, d: seq<nat>, i: nat)
    requires i < |r|
    ensures (r[..i + 1] + d + r[i + 1..])[i] == r[i]
    ensures i == |r| - 1 ==> r[..i + 1] + d + r[i + 1..] == r + d
  {
    if i == |r| - 1 {
      assert r[..i + 1] == r && r[i + 1..] == [];
    }
  }

  /** Dropping position `i`: these are the three shapes `remove_current` meets. */
  lemma RemoveShift<X>(r: seq<X>, i: nat)
    requires i < |r|
    ensures i == 0 ==> r[..i] + r[i + 1..] == r[1..]
    ensures i == |r| - 1 ==> r[..i] + r[i + 1..] == r[..|r| - 1]
    ensures i + 1 < |r| ==> (r[..i] + r[i + 1..])[i] == r[i + 1]
  {
  }

  /** The cells after `split_before` on node `i`: the link before `r[i]`,
      if any, is cut, and the header of the returned list is `r[..i]`'s. */
  lemma SplitBeforeCells<T>(c: Cells<T>, r: seq<nat>, head: Link, tail: Link, i: nat)
    requires Chain(c, r, head, tail) && i < |r|
    ensures r[i] in c && c[r[i]].prev == LinkTo(r, i - 1)
    ensures var prev := c[r[i]].prev;
            var c' := if prev.Ptr? then SetNext(SetPrev(c, r[i], Null), prev.addr, Null) else c;
            var h := SplitBeforeOutput(head, prev, |r|, i);
            && c'.Keys == c.Keys
            && Chain(c', r[..i], h.0, h.1) && Chain(c', r[i..], Ptr(r[i]), tail)
            && Elems(c', r[..i]) == Elems(c, r)[..i] && Elems(c', r[i..]) == Elems(c, r)[i..]
            && Untouched(c, c', r)
  {
    Neighbours(c, r, head, tail, i);
    SplitBeforeOutputSound(c, r, tail, i);
    if i > 0 {
      CutChain(c, r, head, tail, i);
    } else {
      assert r[i..] == r && r[..i] == [];
    }
  }

  /** The cells after `split_after` on node `i`: the link after `r[i]`,
      if any, is cut, and the header of the returned list is `r[i+1..]`'s. */
  lemma SplitAfterCells<T>(c: Cells<T>, r: seq<nat>, head: Link, tail: Link, i: nat)
    requires Chain(c, r, head, tail) && i < |r|
    ensures r[i] in c && c[r[i]].next == LinkTo(r, i + 1)
    ensures var next := c[r[i]].next;
            var c' := if next.Ptr? then SetPrev(SetNext(c, r[i], Null), next.addr, Null) else c;
            var h := SplitAfterOutput(next, tail, |r|, i);
            && c'.Keys == c.Keys
            && Chain(c', r[..i + 1], head, Ptr(r[i])) && Chain(c', r[i + 1..], h.0, h.1)
            && Elems(c', r[..i + 1]) == Elems(c, r)[..i + 1] && Elems(c', r[i + 1..]) == Elems(c, r)[i + 1..]
            && Untouched(c, c', r)
  {
    Neighbours(c, r, head, tail, i);
    SplitAfterOutputSound(c, r, head, i);
    if i + 1 < |r| {
      CutChainAfter(c, r, head, tail, i + 1);
    } else {
      assert r[..i + 1] == r && r[i + 1..] == [];
    }
  }

  /** The cells after `splice_before` on node `cur`, the `i`-th, whose
      `prev` is `prev`: the donor chain `d` from `ih` to `it` goes between
      the two, with the four writes in the order the source makes them. */
  lemma SpliceBeforeMiddle<T>(c: Cells<T>, r: seq<nat>, head: Link, tail: Link, d: seq<nat>, i: nat,
                              prev: nat, cur: nat, ih: nat, it: nat)
    requires Chain(c, r, head, tail) && Chain(c, d, Ptr(ih), Ptr(it)) && Disjoint(r, d)
    requires 0 < i < |r| && prev == r[i - 1] && cur == r[i]
    ensures prev in c && cur in c && ih in c && it in c
    ensures var c' := SetNext(SetPrev(SetPrev(SetNext(c, prev, Ptr(ih)), ih, Ptr(prev)), cur, Ptr(it)), it, Ptr(cur));
            && c'.Keys == c.Keys
            && Chain(c', r[..i] + d + r[i..], head, tail)
            && Elems(c', r[..i] + d + r[i..]) == Elems(c, r)[..i] + Elems(c, d) + Elems(c, r)[i..]
            && Untouched(c, c', r + d)
  {
    ChainEnds(c, d, Ptr(ih), Ptr(it));
    var a, b := r[..i], r[i..];
    Pieces(c, r, head, tail, i);
    DisjointPieces(r, d, i);
    JoinNextPrev(c, a, d, Null, Ptr(cur), Null, Null);
    var c1 := SetPrev(SetNext(c, prev, Ptr(ih)), ih, Ptr(prev));
    FrameBeyond(c, c1, b, Ptr(prev), Null, [prev, ih]);
    JoinAfterDonor(c1, a, d, b, it);
    var c2 := SetNext(SetPrev(c1, cur, Ptr(it)), it, Ptr(cur));
    assert (a + d + b)[0] == r[0] && (a + d + b)[|a + d + b| - 1] == r[|r| - 1];
    TwoJoinsUntouched(c, c1, c2, r, d, [prev, ih], [it, cur]);
  }

  /** The second join of `splice_before`: run `a + d`, which ends with the
      donor's tail `it`, is joined to the rest `b` of the list. */
  lemma JoinAfterDonor<T>(c: Cells<T>, a: seq<nat>, d: seq<nat>, b: seq<nat>, it: nat)
    requires Seg(c, a + d, Null, Null) && Seg(c, b, Last(a, Null), Null) && a != [] && d != [] && b != []
    requires it == d[|d| - 1] && Disjoint(a, b) && Disjoint(d, b)
    ensures it in c && b[0] in c
    ensures var c' := SetNext(SetPrev(c, b[0], Ptr(it)), it, Ptr(b[0]));
            && Seg(c', a + d + b, Null, Null) && Elems(c', a + d + b) == Elems(c, a + d) + Elems(c, b)
            && c'.Keys == c.Keys && Untouched(c, c', [it, b[0]])
  {
    assert (a + d)[|a + d| - 1] == it;
    assert Disjoint(a + d, b);
    JoinPrevNext(c, a + d, b, Null, Null, Last(a, Null), Null);
  }

  /** A run outside the nodes a step wrote to keeps its links and elements. */
  lemma FrameBeyond<T>(c: Cells<T>, c': Cells<T>, b: seq<nat>, p: Link, n: Link, written: seq<nat>)
    requires Seg(c, b, p, n) && Untouched(c, c', written) && Disjoint(written, b)
    ensures Seg(c', b, p, n) && Elems(c', b) == Elems(c, b)
  {
    SegFrame(c, c', b, p, n);
  }

  /** Two joins, each writing two nodes of the list or the donor, leave the
      rest of the heap alone. */
  lemma TwoJoinsUntouched<T>(c0: Cells<T>, c1: Cells<T>, c2: Cells<T>, r: seq<nat>, d: seq<nat>, w1: seq<nat>, w2: seq<nat>)
    requires Untouched(c0, c1, w1) && Untouched(c1, c2, w2)
    requires forall x :: x in w1 ==> x in r + d
    requires forall x :: x in w2 ==> x in r + d
    ensures Untouched(c0, c2, r + d)
  {
    UntouchedWithin(c0, c1, w1, r + d);
    UntouchedWithin(c1, c2, w2, r + d);
    UntouchedTrans(c0, c1, c2, r + d);
  }

  /** The cells after `splice_before` on the head `cur`, or `splice_after`
      on the ghost: the donor chain goes in front, the writes in the
      source's order. */
  lemma SpliceInFront<T>(c: Cells<T>, r: seq<nat>, head: Link, tail: Link, d: seq<nat>, cur: nat, ih: nat, it: nat)
    requires Chain(c, r, head, tail) && Chain(c, d, Ptr(ih), Ptr(it)) && Disjoint(r, d)
    requires head == Ptr(cur)
    ensures cur in c && it in c
    ensures var c' := SetNext(SetPrev(c, cur, Ptr(it)), it, Ptr(cur));
            && c'.Keys == c.Keys
            && Chain(c', d + r, Ptr(ih), tail)
            && Elems(c', d + r) == Elems(c, d) + Elems(c, r)
            && Untouched(c, c', r + d)
  {
    ChainEnds(c, d, Ptr(ih), Ptr(it));
    assert Disjoint(d, r);
    JoinPrevNext(c, d, r, Null, Null, Null, Null);
    assert (d + r)[0] == ih && (d + r)[|d + r| - 1] == r[|r| - 1];
    assert cur in r + d && it in r + d;
    UntouchedWithin(c, SetNext(SetPrev(c, cur, Ptr(it)), it, Ptr(cur)), [it, cur], r + d);
  }

  /** The cells after `splice_after` on the tail `last`, or `splice_before`
      on the ghost: the donor chain goes after it, the writes in the
      source's order. */
  lemma SpliceAtEnd<T>(c: Cells<T>, r: seq<nat>, head: Link, tail: Link, d: seq<nat>, last: nat, ih: nat, it: nat)
    requires Chain(c, r, head, tail) && Chain(c, d, Ptr(ih), Ptr(it)) && Disjoint(r, d)
    requires tail == Ptr(last)
    ensures last in c && ih in c
    ensures var c' := SetPrev(SetNext(c, last, Ptr(ih)), ih, Ptr(last));
            && c'.Keys == c.Keys
            && Chain(c', r + d, head, Ptr(it))
            && Elems(c', r + d) == Elems(c, r) + Elems(c, d)
            && Untouched(c, c', r + d)
  {
    ChainEnds(c, d, Ptr(ih), Ptr(it));
    JoinNextPrev(c, r, d, Null, Null, Null, Null);
    assert (r + d)[0] == r[0] && (r + d)[|r + d| - 1] == it;
    assert last in r + d && ih in r + d;
    UntouchedWithin(c, SetPrev(SetNext(c, last, Ptr(ih)), ih, Ptr(last)), [last, ih], r + d);
  }

  /** The cells after `splice_after` on node `cur`, the `i`-th, whose
      `next` is `next`: the donor chain `d` from `ih` to `it` goes between
      the two, with the four writes in the order the source makes them. */
  lemma SpliceAfterMiddle<T>(c: Cells<T>, r: seq<nat>, head: Link, tail: Link, d: seq<nat>, i: nat,
                             cur: nat, next: nat, ih: nat, it: nat)
    requires Chain(c, r, head, tail) && Chain(c, d, Ptr(ih), Ptr(it)) && Disjoint(r, d)
    requires i + 1 < |r| && cur == r[i] && next == r[i + 1]
    ensures cur in c && next in c && ih in c && it in c
    ensures var c' := SetPrev(SetNext(SetNext(SetPrev(c, next, Ptr(it)), it, Ptr(next)), cur, Ptr(ih)), ih, Ptr(cur));
            && c'.Keys == c.Keys
            && Chain(c', r[..i + 1] + d + r[i + 1..], head, tail)
            && Elems(c', r[..i + 1] + d + r[i + 1..]) == Elems(c, r)[..i + 1] + Elems(c, d) + Elems(c, r)[i + 1..]
            && Untouched(c, c', r + d)
  {
    ChainEnds(c, d, Ptr(ih), Ptr(it));
    var a, b := r[..i + 1], r[i + 1..];
    Pieces(c, r, head, tail, i + 1);
    DisjointPieces(r, d, i + 1);
    JoinPrevNext(c, d, b, Null, Null, Ptr(cur), Null);
    var c1 := SetNext(SetPrev(c, next, Ptr(it)), it, Ptr(next));
    FrameBeyond(c, c1, a, Null, Ptr(next), [it, next]);
    JoinBeforeDonor(c1, a, d, b, ih);
    var c2 := SetPrev(SetNext(c1, cur, Ptr(ih)), ih, Ptr(cur));
    assert (a + d + b)[0] == r[0] && (a + d + b)[|a + d + b| - 1] == r[|r| - 1];
    TwoJoinsUntouched(c, c1, c2, r, d, [it, next], [cur, ih]);
    var ea, ed, eb := Elems(c, a), Elems(c, d), Elems(c, b);
    assert Elems(c2, a + d + b) == ea + (ed + eb);
    assert ea + (ed + eb) == ea + ed + eb;
  }

  /** The second join of `splice_after`: the front `a` of the list is
      joined to run `d + b`, which starts with the donor's head `ih`. */
  lemma JoinBeforeDonor<T>(c: Cells<T>, a: seq<nat>, d: seq<nat>, b: seq<nat>, ih: nat)
    requires Seg(c, a, Null, First(b, Null)) && Seg(c, d + b, Null, Null) && a != [] && d != [] && b != []
    requires ih == d[0] && Disjoint(a, d) && Disjoint(a, b)
    ensures a[|a| - 1] in c && ih in c
    ensures var x := a[|a| - 1];
            var c' := SetPrev(SetNext(c, x, Ptr(ih)), ih, Ptr(x));
            && Seg(c', a + d + b, Null, Null) && Elems(c', a + d + b) == Elems(c, a) + Elems(c, d + b)
            && c'.Keys == c.Keys && Untouched(c, c', [x, ih])
  {
    assert (d + b)[0] == ih;
    assert Disjoint(a, d + b);
    JoinNextPrev(c, a, d + b, Null, First(b, Null), Null, Null);
    assert a + (d + b) == a + d + b;
  }

  /** No list has a head without a tail, or a tail without a head. */
  lemma HalfHeader<T>(c: Cells<T>, r: seq<nat>, head: Link, tail: Link)
    requires head.Null? != tail.Null?
    ensures !Chain(c, r, head, tail)
  {
  }

  /** The `(head, tail, len)` that `split_before` builds for the returned
      list, from the bound list's head, the current node's `prev`, the
      length and the index, as the source writes it. */
  function SplitBeforeOutputAsWritten(head: Link, prev: Link, oldLen: nat, oldIdx: nat): (Link, Link, int)
  {
    (head, prev, oldLen - (oldLen - oldIdx))
  }

  /** On the head node the header above has a head but no tail: it is no list at all. */
  lemma SplitBeforeAtHeadAsWritten<T>(c: Cells<T>, r: seq<nat>, tail: Link, c': Cells<T>, r': seq<nat>)
    requires Chain(c, r, LinkTo(r, 0), tail) && r != []
    ensures r[0] in c
    ensures var h := SplitBeforeOutputAsWritten(LinkTo(r, 0), c[r[0]].prev, |r|, 0);
            h == (Ptr(r[0]), Null, 0) && !Chain(c', r', h.0, h.1)
  {
    ChainEnds(c, r, LinkTo(r, 0), tail);
    HalfHeader(c', r', Ptr(r[0]), Null);
  }

  /** The header `split_before` should build: no head when nothing precedes the cursor. */
  function SplitBeforeOutput(head: Link, prev: Link, oldLen: nat, oldIdx: nat): (h: (Link, Link, nat))
    requires oldIdx <= oldLen
  {
    (if prev.Ptr? then head else Null, prev, oldLen - (oldLen - oldIdx))
  }

  /** For a cursor on node `i`, the corrected header is the chain `r[..i]`. */
  lemma SplitBeforeOutputSound<T>(c: Cells<T>, r: seq<nat>, tail: Link, i: nat)
    requires Chain(c, r, LinkTo(r, 0), tail) && i < |r|
    ensures r[i] in c
    ensures SplitBeforeOutput(LinkTo(r, 0), c[r[i]].prev, |r|, i) == (LinkTo(r[..i], 0), LinkTo(r[..i], i - 1), i)
  {
    Neighbours(c, r, LinkTo(r, 0), tail, i);
  }

  /** The `(head, tail, len)` that `split_after` builds for the returned
      list, from the current node's `next`, the bound list's tail, the
      length and the index, as the source writes it. */
  function SplitAfterOutputAsWritten(next: Link, tail: Link, oldLen: nat, oldIdx: nat): (Link, Link, int)
  {
    (next, tail, oldLen - (oldIdx + 1))
  }

  /** On the tail node the header above has a tail but no head. */
  lemma SplitAfterAtTailAsWritten<T>(c: Cells<T>, r: seq<nat>, head: Link, c': Cells<T>, r': seq<nat>)
    requires Chain(c, r, head, LinkTo(r, |r| - 1)) && r != []
    ensures r[|r| - 1] in c
    ensures var h := SplitAfterOutputAsWritten(c[r[|r| - 1]].next, LinkTo(r, |r| - 1), |r|, |r| - 1);
            h == (Null, Ptr(r[|r| - 1]), 0) && !Chain(c', r', h.0, h.1)
  {
    ChainEnds(c, r, head, LinkTo(r, |r| - 1));
    HalfHeader(c', r', Null, Ptr(r[|r| - 1]));
  }

  /** The header `split_after` should build: no tail when nothing follows the cursor. */
  function SplitAfterOutput(next: Link, tail: Link, oldLen: nat, oldIdx: nat): (h: (Link, Link, nat))
    requires oldIdx < oldLen
  {
    (next, if next.Ptr? then tail else Null, oldLen - (oldIdx + 1))
  }

  /** For a cursor on node `i`, the corrected header is the chain `r[i+1..]`. */
  lemma SplitAfterOutputSound<T>(c: Cells<T>, r: seq<nat>, head: Link, i: nat)
    requires Chain(c, r, head, LinkTo(r, |r| - 1)) && i < |r|
    ensures r[i] in c
    ensures var s := r[i + 1..];
            SplitAfterOutput(c[r[i]].next, LinkTo(r, |r| - 1), |r|, i) == (LinkTo(s, 0), LinkTo(s, |s| - 1), |r| - (i + 1))
  {
    Neighbours(c, r, head, LinkTo(r, |r| - 1), i);
  }
}
