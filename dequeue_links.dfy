/** The node graph of the doubly linked list (src/dequeue.rs): runs of node
    addresses whose `next`/`prev` links agree with the order of the run,
    and one lemma for each kind of link write the list makes. */
module DequeueLinks {
  import opened Arena

  /** `Node<T>`: the element and its two links. */
  datatype Node<T> = Node(next: Link, prev: Link, elem: T)

  type Cells<T> = map<nat, Node<T>>

  /** `(*x).next = l` and `(*x).prev = l`. */
  function SetNext<T>(c: Cells<T>, x: nat, l: Link): Cells<T>
    requires x in c
  {
    c[x := c[x].(next := l)]
  }

  function SetPrev<T>(c: Cells<T>, x: nat, l: Link): Cells<T>
    requires x in c
  {
    c[x := c[x].(prev := l)]
  }

  /** The link to the front of `r`, or `n` when `r` is empty. */
  function First(r: seq<nat>, n: Link): Link {
    if r == [] then n else Ptr(r[0])
  }

  /** The link to the back of `r`, or `p` when `r` is empty. */
  function Last(r: seq<nat>, p: Link): Link {
    if r == [] then p else Ptr(r[|r| - 1])
  }

  ghost predicate Allocated<T>(c: Cells<T>, r: seq<nat>) {
    forall x :: x in r ==> x in c
  }

  /** `r` is a run of nodes linked both ways: the first node's `prev` is
      `p`, the last node's `next` is `n`, and each inner pair of
      neighbours points at each other. */
  ghost predicate Linked<T>(c: Cells<T>, r: seq<nat>, p: Link, n: Link)
    decreases |r|
  {
    r == [] || (r[0] in c && c[r[0]].prev == p && c[r[0]].next == First(r[1..], n) && Linked(c, r[1..], Ptr(r[0]), n))
  }

  /** A run of distinct allocated nodes, entered from `p` and left towards `n`. */
  ghost predicate Seg<T>(c: Cells<T>, r: seq<nat>, p: Link, n: Link) {
    Linked(c, r, p, n) && Allocated(c, r) && Distinct(r)
  }

  /** The list invariant: `r` is the chain from `head` to `tail`, the head
      has no `prev` and the tail no `next`. */
  ghost predicate Chain<T>(c: Cells<T>, r: seq<nat>, head: Link, tail: Link) {
    Seg(c, r, Null, Null) && head == LinkTo(r, 0) && tail == LinkTo(r, |r| - 1)
  }

  /** The elements along the run, in order. */
  ghost function Elems<T>(c: Cells<T>, r: seq<nat>): (s: seq<T>)
    requires Allocated(c, r)
    ensures |s| == |r|
    decreases |r|
  {
    if r == [] then [] else [c[r[0]].elem] + Elems(c, r[1..])
  }

  /** The `i`-th element is the one in the `i`-th node. */
  lemma {:induction false} ElemsAt<T>(c: Cells<T>, r: seq<nat>, i: nat)
    requires Allocated(c, r) && i < |r|
    ensures Elems(c, r)[i] == c[r[i]].elem
    decreases i
  {
    if i > 0 {
      ElemsAt(c, r[1..], i - 1);
    }
  }

  lemma ElemsEvery<T>(c: Cells<T>, r: seq<nat>)
    requires Allocated(c, r)
    ensures forall i :: 0 <= i < |r| ==> Elems(c, r)[i] == c[r[i]].elem
  {
    forall i | 0 <= i < |r| ensures Elems(c, r)[i] == c[r[i]].elem {
      ElemsAt(c, r, i);
    }
  }

  lemma {:induction false} LinkedConcat<T>(c: Cells<T>, a: seq<nat>, b: seq<nat>, p: Link, n: Link)
    ensures Linked(c, a + b, p, n) <==> Linked(c, a, p, First(b, n)) && Linked(c, b, Last(a, p), n)
    decreases |a|
  {
    if a == [] {
      assert a + b == b;
    } else {
      assert (a + b)[0] == a[0] && (a + b)[1..] == a[1..] + b;
      LinkedConcat(c, a[1..], b, Ptr(a[0]), n);
    }
  }

  lemma {:induction false} LinkedAt<T>(c: Cells<T>, r: seq<nat>, p: Link, n: Link, i: nat)
    requires Linked(c, r, p, n) && i < |r|
    ensures r[i] in c
    ensures c[r[i]].prev == (if i == 0 then p else Ptr(r[i - 1]))
    ensures c[r[i]].next == (if i == |r| - 1 then n else Ptr(r[i + 1]))
    decreases i
  {
    if i > 0 {
      LinkedAt(c, r[1..], Ptr(r[0]), n, i - 1);
    }
  }

  /** A run depends only on the links of its own cells. */
  lemma {:induction false} LinkedFrame<T>(c: Cells<T>, c': Cells<T>, r: seq<nat>, p: Link, n: Link)
    requires Linked(c, r, p, n)
    requires forall x :: x in r ==> x in c && x in c' && c'[x].next == c[x].next && c'[x].prev == c[x].prev
    ensures Linked(c', r, p, n)
    decreases |r|
  {
    if r != [] {
      assert r[0] in r;
      assert forall x :: x in r[1..] ==> x in r;
      LinkedFrame(c, c', r[1..], Ptr(r[0]), n);
    }
  }

  lemma ElemsFrame<T>(c: Cells<T>, c': Cells<T>, r: seq<nat>)
    requires Allocated(c, r) && Allocated(c', r)
    requires forall x :: x in r ==> c'[x].elem == c[x].elem
    ensures Elems(c', r) == Elems(c, r)
  {
    forall i | 0 <= i < |r| ensures Elems(c', r)[i] == Elems(c, r)[i] {
      assert r[i] in r;
      ElemsAt(c, r, i);
      ElemsAt(c', r, i);
    }
  }

  lemma {:induction false} ElemsConcat<T>(c: Cells<T>, a: seq<nat>, b: seq<nat>)
    requires Allocated(c, a) && Allocated(c, b)
    ensures Allocated(c, a + b)
    ensures Elems(c, a + b) == Elems(c, a) + Elems(c, b)
    decreases |a|
  {
    if a == [] {
      assert a + b == b;
    } else {
      assert (a + b)[0] == a[0] && (a + b)[1..] == a[1..] + b;
      assert forall x :: x in a[1..] ==> x in a;
      ElemsConcat(c, a[1..], b);
    }
  }

  lemma ElemsSlices<T>(c: Cells<T>, r: seq<nat>, i: nat)
    requires Allocated(c, r) && i <= |r|
    ensures Allocated(c, r[..i]) && Allocated(c, r[i..])
    ensures Elems(c, r[..i]) == Elems(c, r)[..i] && Elems(c, r[i..]) == Elems(c, r)[i..]
  {
    assert r == r[..i] + r[i..];
    assert forall x :: x in r[..i] ==> x in r;
    assert forall x :: x in r[i..] ==> x in r;
    ElemsConcat(c, r[..i], r[i..]);
  }

  /** Two runs placed end to end, each entered from the other, are one run. */
  lemma SegConcat<T>(c: Cells<T>, a: seq<nat>, b: seq<nat>, p: Link, n: Link)
    ensures Seg(c, a + b, p, n) <==> Seg(c, a, p, First(b, n)) && Seg(c, b, Last(a, p), n) && Disjoint(a, b)
    ensures Allocated(c, a) && Allocated(c, b) ==> Elems(c, a + b) == Elems(c, a) + Elems(c, b)
  {
    LinkedConcat(c, a, b, p, n);
    if Distinct(a + b) {
      DistinctSplit(a, b);
    }
    if Distinct(a) && Distinct(b) && Disjoint(a, b) {
      DistinctConcat(a, b);
    }
    if Allocated(c, a) && Allocated(c, b) {
      ElemsConcat(c, a, b);
    }
  }

  /** A run survives any step that keeps the cells of its nodes. */
  lemma SegFrame<T>(c: Cells<T>, c': Cells<T>, r: seq<nat>, p: Link, n: Link)
    requires Seg(c, r, p, n) && forall x :: x in r ==> x in c' && c'[x] == c[x]
    ensures Seg(c', r, p, n) && Elems(c', r) == Elems(c, r)
  {
    LinkedFrame(c, c', r, p, n);
    ElemsFrame(c, c', r);
  }

  /** Writing a cell outside the run keeps it. */
  lemma SegKeep<T>(c: Cells<T>, r: seq<nat>, p: Link, n: Link, x: nat, v: Node<T>)
    requires Seg(c, r, p, n) && x !in r
    ensures Seg(c[x := v], r, p, n) && Elems(c[x := v], r) == Elems(c, r)
  {
    SegFrame(c, c[x := v], r, p, n);
  }

  /** Freeing a cell outside the run keeps it. */
  lemma SegFree<T>(c: Cells<T>, r: seq<nat>, p: Link, n: Link, x: nat)
    requires Seg(c, r, p, n) && x !in r
    ensures Seg(c - {x}, r, p, n) && Elems(c - {x}, r) == Elems(c, r)
  {
    SegFrame(c, c - {x}, r, p, n);
  }

  /** `(*first).prev = l` re-enters the run from `l`. */
  lemma SegPrevOfFirst<T>(c: Cells<T>, r: seq<nat>, p: Link, n: Link, l: Link)
    requires Seg(c, r, p, n) && r != []
    ensures r[0] in c
    ensures Seg(SetPrev(c, r[0], l), r, l, n) && Elems(SetPrev(c, r[0], l), r) == Elems(c, r)
  {
    var x, t := r[0], r[1..];
    var c' := SetPrev(c, x, l);
    assert r == [x] + t;
    DistinctSplit([x], t);
    assert forall y :: y in t ==> y in r;
    LinkedFrame(c, c', t, Ptr(x), n);
    ElemsFrame(c, c', r);
  }

  /** `(*last).next = l` leaves the run towards `l`. */
  lemma SegNextOfLast<T>(c: Cells<T>, r: seq<nat>, p: Link, n: Link, l: Link)
    requires Seg(c, r, p, n) && r != []
    ensures r[|r| - 1] in c
    ensures Seg(SetNext(c, r[|r| - 1], l), r, p, l) && Elems(SetNext(c, r[|r| - 1], l), r) == Elems(c, r)
  {
    var x, a := r[|r| - 1], r[..|r| - 1];
    var c' := SetNext(c, x, l);
    assert r == a + [x];
    DistinctSplit(a, [x]);
    LinkedConcat(c, a, [x], p, n);
    assert forall y :: y in a ==> y in r;
    LinkedFrame(c, c', a, p, Ptr(x));
    assert [x][1..] == [];
    assert Linked(c', [x], Last(a, p), l);
    LinkedConcat(c', a, [x], p, l);
    ElemsFrame(c, c', r);
  }

  /** A one-node run. */
  lemma SegSingle<T>(c: Cells<T>, x: nat, p: Link, n: Link)
    requires x in c && c[x].prev == p && c[x].next == n
    ensures Seg(c, [x], p, n) && Elems(c, [x]) == [c[x].elem]
  {
    assert [x][1..] == [];
  }

  /** The empty list is exactly the one without a head, and without a tail. */
  lemma ChainEnds<T>(c: Cells<T>, r: seq<nat>, head: Link, tail: Link)
    requires Chain(c, r, head, tail)
    ensures r == [] <==> head == Null
    ensures r == [] <==> tail == Null
    ensures head.Ptr? ==> head.addr in c && c[head.addr].prev == Null
    ensures tail.Ptr? ==> tail.addr in c && c[tail.addr].next == Null
  {
    if r != [] {
      LinkedAt(c, r, Null, Null, 0);
      LinkedAt(c, r, Null, Null, |r| - 1);
    }
  }

  /** Each node of the chain links to its neighbours, and to null past either end. */
  lemma Neighbours<T>(c: Cells<T>, r: seq<nat>, head: Link, tail: Link, i: nat)
    requires Chain(c, r, head, tail) && i < |r|
    ensures r[i] in c && c[r[i]].next == LinkTo(r, i + 1) && c[r[i]].prev == LinkTo(r, i - 1)
  {
    LinkedAt(c, r, Null, Null, i);
  }

  /** A chain only depends on its own cells: another list's operations,
      which change other cells, keep it and its elements. */
  lemma ChainFrame<T>(c: Cells<T>, c': Cells<T>, owned: seq<nat>, r: seq<nat>, head: Link, tail: Link)
    requires Chain(c, r, head, tail) && Untouched(c, c', owned) && Disjoint(r, owned)
    ensures Chain(c', r, head, tail) && Elems(c', r) == Elems(c, r)
  {
    SegFrame(c, c', r, Null, Null);
  }

  /** A write through a `&mut T`: the element of node `r[i]` becomes `v`. */
  lemma SetElem<T>(c: Cells<T>, r: seq<nat>, head: Link, tail: Link, i: nat, v: T)
    requires Chain(c, r, head, tail) && i < |r|
    ensures r[i] in c
    ensures var c' := c[r[i] := c[r[i]].(elem := v)];
            && Chain(c', r, head, tail) && Elems(c', r) == Elems(c, r)[i := v]
            && Untouched(c, c', r)
  {
    assert r[i] in r;
    LinkedFrame(c, c[r[i] := c[r[i]].(elem := v)], r, Null, Null);
    ElemsSetElem(c, r, i, v);
  }

  lemma ElemsSetElem<T>(c: Cells<T>, r: seq<nat>, i: nat, v: T)
    requires Allocated(c, r) && Distinct(r) && i < |r|
    ensures r[i] in c
    ensures Allocated(c[r[i] := c[r[i]].(elem := v)], r)
    ensures Elems(c[r[i] := c[r[i]].(elem := v)], r) == Elems(c, r)[i := v]
  {
    assert r[i] in r;
    var c' := c[r[i] := c[r[i]].(elem := v)];
    forall j | 0 <= j < |r| ensures Elems(c', r)[j] == Elems(c, r)[i := v][j] {
      ElemsAt(c, r, j);
      ElemsAt(c', r, j);
      if j != i {
        assert IndexOf(r, r[j]) == j;
      }
    }
  }

  /** `push_front` on an empty list, or `push_back`: the new node alone. */
  lemma LinkOnly<T>(c: Cells<T>, r: seq<nat>, head: Link, tail: Link, a: nat, elem: T)
    requires Chain(c, r, head, tail) && r == [] && a !in c
    ensures var c' := c[a := Node(Null, Null, elem)];
            && Chain(c', [a], Ptr(a), Ptr(a)) && Elems(c', [a]) == [elem]
            && Untouched(c, c', r)
  {
    SegSingle(c[a := Node(Null, Null, elem)], a, Null, Null);
  }

  /** `push_front` on a non-empty list: the new node `a` is linked in front
      of the old head, with the writes in the order the source makes them. */
  lemma LinkFront<T>(c: Cells<T>, r: seq<nat>, head: Link, tail: Link, a: nat, elem: T, c': Cells<T>)
    requires Chain(c, r, head, tail) && r != [] && a !in c
    requires r[0] in c && c' == SetNext(SetPrev(c[a := Node(Null, Null, elem)], r[0], Ptr(a)), a, Ptr(r[0]))
    ensures Chain(c', [a] + r, Ptr(a), tail) && Elems(c', [a] + r) == [elem] + Elems(c, r)
    ensures Untouched(c, c', r)
  {
    var c1 := c[a := Node(Null, Null, elem)];
    var c2 := SetPrev(c1, r[0], Ptr(a));
    SegKeep(c, r, Null, Null, a, Node(Null, Null, elem));
    SegPrevOfFirst(c1, r, Null, Null, Ptr(a));
    SegKeep(c2, r, Ptr(a), Null, a, c2[a].(next := Ptr(r[0])));
    SegSingle(c', a, Null, Ptr(r[0]));
    SegConcat(c', [a], r, Null, Null);
    assert ([a] + r)[|r|] == r[|r| - 1];
    assert r[0] in r;
  }

  /** `push_back` on a non-empty list: the new node `a` is linked after the
      old tail, with the writes in the order the source makes them. */
  lemma LinkBack<T>(c: Cells<T>, r: seq<nat>, head: Link, tail: Link, a: nat, elem: T, c': Cells<T>)
    requires Chain(c, r, head, tail) && r != [] && a !in c
    requires r[|r| - 1] in c
    requires c' == SetPrev(SetNext(c[a := Node(Null, Null, elem)], r[|r| - 1], Ptr(a)), a, Ptr(r[|r| - 1]))
    ensures Chain(c', r + [a], head, Ptr(a)) && Elems(c', r + [a]) == Elems(c, r) + [elem]
    ensures Untouched(c, c', r)
  {
    var t := r[|r| - 1];
    var c1 := c[a := Node(Null, Null, elem)];
    var c2 := SetNext(c1, t, Ptr(a));
    SegKeep(c, r, Null, Null, a, Node(Null, Null, elem));
    SegNextOfLast(c1, r, Null, Null, Ptr(a));
    SegKeep(c2, r, Null, Ptr(a), a, c2[a].(prev := Ptr(t)));
    SegSingle(c', a, Ptr(t), Null);
    SegConcat(c', r, [a], Null, Null);
    assert (r + [a])[0] == r[0];
    assert t in r;
  }

  /** `pop_front` of the only node: it is freed and the list is empty. */
  lemma UnlinkOnly<T>(c: Cells<T>, r: seq<nat>, head: Link, tail: Link)
    requires Chain(c, r, head, tail) && |r| == 1
    ensures Chain(c - {r[0]}, [], Null, Null) && Untouched(c, c - {r[0]}, r)
  {
    assert r[0] in r;
  }

  /** `pop_front` of a list of two or more: the successor's `prev` is
      cleared and the head is freed. */
  lemma UnlinkFront<T>(c: Cells<T>, r: seq<nat>, head: Link, tail: Link, c': Cells<T>)
    requires Chain(c, r, head, tail) && |r| > 1
    requires r[1] in c && c' == SetPrev(c, r[1], Null) - {r[0]}
    ensures Chain(c', r[1..], Ptr(r[1]), tail) && Elems(c', r[1..]) == Elems(c, r)[1..]
    ensures Untouched(c, c', r)
  {
    var x, s := r[0], r[1..];
    assert r == [x] + s;
    SegConcat(c, [x], s, Null, Null);
    assert x !in s;
    SegPrevOfFirst(c, s, Ptr(x), Null, Null);
    SegFree(SetPrev(c, s[0], Null), s, Null, Null, x);
    assert s[|s| - 1] == r[|r| - 1];
    assert r[1] in r;
  }

  /** `pop_back` of a list of two or more: the predecessor's `next` is
      cleared and the tail is freed. */
  lemma UnlinkBack<T>(c: Cells<T>, r: seq<nat>, head: Link, tail: Link, c': Cells<T>)
    requires Chain(c, r, head, tail) && |r| > 1
    requires r[|r| - 2] in c && c' == SetNext(c, r[|r| - 2], Null) - {r[|r| - 1]}
    ensures Chain(c', r[..|r| - 1], head, Ptr(r[|r| - 2])) && Elems(c', r[..|r| - 1]) == Elems(c, r)[..|r| - 1]
    ensures Untouched(c, c', r)
  {
    var x, s := r[|r| - 1], r[..|r| - 1];
    assert r == s + [x];
    SegConcat(c, s, [x], Null, Null);
    assert x !in s;
    SegNextOfLast(c, s, Null, Ptr(x), Null);
    SegFree(SetNext(c, s[|s| - 1], Null), s, Null, Null, x);
    assert s[0] == r[0];
    assert r[|r| - 2] in r;
  }
}
