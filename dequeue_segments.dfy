/** How the cursor (src/dequeue.rs) relinks runs of nodes: two writes join
    the last node of one run to the first of another, or cut the link
    between two neighbours. Each comes in both orders of its two writes,
    as the source makes them. */
module DequeueSegments {
  import opened Arena
  import opened DequeueLinks

  /** `(*x).next = Some(y); (*y).prev = Some(x)`, with `x` the last node of
      run `a` and `y` the first of run `b`: the two runs become one. */
  lemma JoinNextPrev<T>(c: Cells<T>, a: seq<nat>, b: seq<nat>, p: Link, n1: Link, p1: Link, n: Link)
    requires Seg(c, a, p, n1) && Seg(c, b, p1, n) && Disjoint(a, b) && a != [] && b != []
    ensures a[|a| - 1] in c && b[0] in c
    ensures var x, y := a[|a| - 1], b[0];
            var c' := SetPrev(SetNext(c, x, Ptr(y)), y, Ptr(x));
            && Seg(c', a + b, p, n) && Elems(c', a + b) == Elems(c, a) + Elems(c, b)
            && c'.Keys == c.Keys && Untouched(c, c', [x, y])
  {
    var x, y := a[|a| - 1], b[0];
    assert x in a && y in b;
    var c1 := SetNext(c, x, Ptr(y));
    SegNextOfLast(c, a, p, n1, Ptr(y));
    SegKeep(c, b, p1, n, x, c[x].(next := Ptr(y)));
    SegPrevOfFirst(c1, b, p1, n, Ptr(x));
    SegKeep(c1, a, p, Ptr(y), y, c1[y].(prev := Ptr(x)));
    SegConcat(SetPrev(c1, y, Ptr(x)), a, b, p, n);
  }

  /** The same join with the writes the other way round:
      `(*y).prev = Some(x); (*x).next = Some(y)`. */
  lemma JoinPrevNext<T>(c: Cells<T>, a: seq<nat>, b: seq<nat>, p: Link, n1: Link, p1: Link, n: Link)
    requires Seg(c, a, p, n1) && Seg(c, b, p1, n) && Disjoint(a, b) && a != [] && b != []
    ensures a[|a| - 1] in c && b[0] in c
    ensures var x, y := a[|a| - 1], b[0];
            var c' := SetNext(SetPrev(c, y, Ptr(x)), x, Ptr(y));
            && Seg(c', a + b, p, n) && Elems(c', a + b) == Elems(c, a) + Elems(c, b)
            && c'.Keys == c.Keys && Untouched(c, c', [x, y])
  {
    var x, y := a[|a| - 1], b[0];
    assert x in a && y in b;
    var c1 := SetPrev(c, y, Ptr(x));
    SegPrevOfFirst(c, b, p1, n, Ptr(x));
    SegKeep(c, a, p, n1, y, c[y].(prev := Ptr(x)));
    SegNextOfLast(c1, a, p, n1, Ptr(y));
    SegKeep(c1, b, Ptr(x), n, x, c1[x].(next := Ptr(y)));
    SegConcat(SetNext(c1, x, Ptr(y)), a, b, p, n);
  }

  /** `(*y).prev = None; (*x).next = None` between the last node `x` of
      `a` and the first node `y` of `b` in the run `a + b`: two runs. */
  lemma CutPrevNext<T>(c: Cells<T>, a: seq<nat>, b: seq<nat>, p: Link, n: Link)
    requires Seg(c, a + b, p, n) && a != [] && b != []
    ensures a[|a| - 1] in c && b[0] in c
    ensures var x, y := a[|a| - 1], b[0];
            var c' := SetNext(SetPrev(c, y, Null), x, Null);
            && Seg(c', a, p, Null) && Seg(c', b, Null, n) && Disjoint(a, b)
            && Elems(c', a) + Elems(c', b) == Elems(c, a + b)
            && c'.Keys == c.Keys && Untouched(c, c', [x, y])
  {
    var x, y := a[|a| - 1], b[0];
    assert x in a && y in b;
    SegConcat(c, a, b, p, n);
    var c1 := SetPrev(c, y, Null);
    SegPrevOfFirst(c, b, Ptr(x), n, Null);
    SegKeep(c, a, p, Ptr(y), y, c[y].(prev := Null));
    SegNextOfLast(c1, a, p, Ptr(y), Null);
    SegKeep(c1, b, Null, n, x, c1[x].(next := Null));
  }

  /** The same cut with the writes the other way round:
      `(*x).next = None; (*y).prev = None`. */
  lemma CutNextPrev<T>(c: Cells<T>, a: seq<nat>, b: seq<nat>, p: Link, n: Link)
    requires Seg(c, a + b, p, n) && a != [] && b != []
    ensures a[|a| - 1] in c && b[0] in c
    ensures var x, y := a[|a| - 1], b[0];
            var c' := SetPrev(SetNext(c, x, Null), y, Null);
            && Seg(c', a, p, Null) && Seg(c', b, Null, n) && Disjoint(a, b)
            && Elems(c', a) + Elems(c', b) == Elems(c, a + b)
            && c'.Keys == c.Keys && Untouched(c, c', [x, y])
  {
    var x, y := a[|a| - 1], b[0];
    assert x in a && y in b;
    SegConcat(c, a, b, p, n);
    var c1 := SetNext(c, x, Null);
    SegNextOfLast(c, a, p, Ptr(y), Null);
    SegKeep(c, b, Ptr(x), n, x, c[x].(next := Null));
    SegPrevOfFirst(c1, b, Ptr(x), n, Null);
    SegKeep(c1, a, p, Null, y, c1[y].(prev := Null));
  }

  /** A chain cut in two at `k` (`split_before` on node `k`). */
  lemma CutChain<T>(c: Cells<T>, r: seq<nat>, head: Link, tail: Link, k: nat)
    requires Chain(c, r, head, tail) && 0 < k < |r|
    ensures r[k] in c && r[k - 1] in c
    ensures var c' := SetNext(SetPrev(c, r[k], Null), r[k - 1], Null);
            && c'.Keys == c.Keys
            && Chain(c', r[..k], head, Ptr(r[k - 1])) && Chain(c', r[k..], Ptr(r[k]), tail)
            && Elems(c', r[..k]) == Elems(c, r)[..k] && Elems(c', r[k..]) == Elems(c, r)[k..]
            && Untouched(c, c', r)
  {
    var a, b := r[..k], r[k..];
    assert r == a + b;
    assert a[|a| - 1] == r[k - 1] && b[0] == r[k];
    CutPrevNext(c, a, b, Null, Null);
    var c' := SetNext(SetPrev(c, r[k], Null), r[k - 1], Null);
    AppendSlices(Elems(c', a), Elems(c', b), Elems(c, r));
    assert LinkTo(a, 0) == head && LinkTo(a, |a| - 1) == Ptr(r[k - 1]);
    assert LinkTo(b, 0) == Ptr(r[k]) && LinkTo(b, |b| - 1) == tail;
    assert r[k] in r && r[k - 1] in r;
    UntouchedWithin(c, c', [r[k - 1], r[k]], r);
  }

  /** A chain cut in two after `k - 1` (`split_after` on node `k - 1`). */
  lemma CutChainAfter<T>(c: Cells<T>, r: seq<nat>, head: Link, tail: Link, k: nat)
    requires Chain(c, r, head, tail) && 0 < k < |r|
    ensures r[k] in c && r[k - 1] in c
    ensures var c' := SetPrev(SetNext(c, r[k - 1], Null), r[k], Null);
            && c'.Keys == c.Keys
            && Chain(c', r[..k], head, Ptr(r[k - 1])) && Chain(c', r[k..], Ptr(r[k]), tail)
            && Elems(c', r[..k]) == Elems(c, r)[..k] && Elems(c', r[k..]) == Elems(c, r)[k..]
            && Untouched(c, c', r)
  {
    var a, b := r[..k], r[k..];
    assert r == a + b;
    assert a[|a| - 1] == r[k - 1] && b[0] == r[k];
    CutNextPrev(c, a, b, Null, Null);
    var c' := SetPrev(SetNext(c, r[k - 1], Null), r[k], Null);
    AppendSlices(Elems(c', a), Elems(c', b), Elems(c, r));
    assert LinkTo(a, 0) == head && LinkTo(a, |a| - 1) == Ptr(r[k - 1]);
    assert LinkTo(b, 0) == Ptr(r[k]) && LinkTo(b, |b| - 1) == tail;
    assert r[k] in r && r[k - 1] in r;
    UntouchedWithin(c, c', [r[k - 1], r[k]], r);
  }

  /** A chain's pieces before and after position `i`, and their links. */
  lemma Pieces<T>(c: Cells<T>, r: seq<nat>, head: Link, tail: Link, i: nat)
    requires Chain(c, r, head, tail) && 0 < i <= |r|
    ensures r == r[..i] + r[i..]
    ensures Seg(c, r[..i], Null, First(r[i..], Null)) && Seg(c, r[i..], Ptr(r[i - 1]), Null)
    ensures Disjoint(r[..i], r[i..])
    ensures Elems(c, r[..i]) == Elems(c, r)[..i] && Elems(c, r[i..]) == Elems(c, r)[i..]
  {
    assert r == r[..i] + r[i..];
    SegConcat(c, r[..i], r[i..], Null, Null);
    ElemsSlices(c, r, i);
  }

  /** A donor disjoint from a list is disjoint from both of its pieces. */
  lemma DisjointPieces(r: seq<nat>, d: seq<nat>, i: nat)
    requires Disjoint(r, d) && i <= |r|
    ensures Disjoint(r[..i], d) && Disjoint(d, r[i..])
  {
    assert forall x :: x in r[..i] ==> x in r;
    assert forall x :: x in r[i..] ==> x in r;
  }

  /** Node `m` dropped from between runs `a` and `b`: the last node of `a`
      and the first of `b` are joined (`next` first, then `prev`), and `m`
      is freed. */
  lemma Unlink<T>(c: Cells<T>, a: seq<nat>, m: nat, b: seq<nat>, p: Link, n: Link)
    requires Seg(c, a + [m] + b, p, n) && a != [] && b != []
    ensures a[|a| - 1] in c && b[0] in c
    ensures var x, y := a[|a| - 1], b[0];
            var c' := SetPrev(SetNext(c, x, Ptr(y)), y, Ptr(x)) - {m};
            && Seg(c', a + b, p, n) && Elems(c', a + b) == Elems(c, a) + Elems(c, b)
            && Elems(c, a + [m] + b) == Elems(c, a) + [c[m].elem] + Elems(c, b)
            && Untouched(c, c', [x, m, y])
  {
    UnlinkSplit(c, a, m, b, p, n);
    var x, y := a[|a| - 1], b[0];
    JoinNextPrev(c, a, b, p, Ptr(m), Ptr(m), n);
    var c2 := SetPrev(SetNext(c, x, Ptr(y)), y, Ptr(x));
    assert m !in a + b;
    SegFree(c2, a + b, p, n, m);
  }

  /** The run `a + [m] + b` seen as its three parts. */
  lemma UnlinkSplit<T>(c: Cells<T>, a: seq<nat>, m: nat, b: seq<nat>, p: Link, n: Link)
    requires Seg(c, a + [m] + b, p, n) && a != [] && b != []
    ensures Seg(c, a, p, Ptr(m)) && Seg(c, b, Ptr(m), n) && Disjoint(a, b) && m !in a && m !in b && m in c
    ensures Elems(c, a + [m] + b) == Elems(c, a) + [c[m].elem] + Elems(c, b)
  {
    assert a + [m] + b == a + ([m] + b);
    SegConcat(c, a, [m] + b, p, n);
    SegConcat(c, [m], b, Last(a, p), n);
    assert m !in b && m !in a;
    assert forall x :: x in b ==> x in [m] + b;
    assert Elems(c, [m]) == [c[m].elem];
  }

  /** `remove_current` on an inner node `r[i]`: its neighbours are joined
      (`next` first, then `prev`) and it is freed. */
  lemma UnlinkMiddle<T>(c: Cells<T>, r: seq<nat>, head: Link, tail: Link, i: nat, c': Cells<T>)
    requires Chain(c, r, head, tail) && 0 < i < |r| - 1
    requires r[i - 1] in c && r[i + 1] in c
    requires c' == SetPrev(SetNext(c, r[i - 1], Ptr(r[i + 1])), r[i + 1], Ptr(r[i - 1])) - {r[i]}
    ensures Chain(c', r[..i] + r[i + 1..], head, tail)
    ensures Elems(c', r[..i] + r[i + 1..]) == Elems(c, r)[..i] + Elems(c, r)[i + 1..]
    ensures Untouched(c, c', r)
  {
    var a, m, b := r[..i], r[i], r[i + 1..];
    assert r == a + [m] + b;
    Unlink(c, a, m, b, Null, Null);
    AppendSlices3(Elems(c, a), [c[m].elem], Elems(c, b), Elems(c, r));
    assert (a + b)[0] == r[0] && (a + b)[|a + b| - 1] == r[|r| - 1];
    assert r[i - 1] in r && r[i + 1] in r && m in r;
    UntouchedWithin(c, c', [r[i - 1], m, r[i + 1]], r);
  }

  /** The cells after `remove_current` frees node `x`: a predecessor and a
      successor are joined (`next` first), a lone successor loses its
      `prev`, a lone predecessor its `next`. */
  ghost function Removed<T>(c: Cells<T>, x: nat): Cells<T>
    requires x in c
    requires c[x].prev.Ptr? ==> c[x].prev.addr in c
    requires c[x].next.Ptr? ==> c[x].next.addr in c
  {
    var n := c[x];
    var c' := match (n.prev, n.next)
              case (Ptr(p), Ptr(q)) => SetPrev(SetNext(c, p, n.next), q, n.prev)
              case (Null, Ptr(q)) => SetPrev(c, q, Null)
              case (Ptr(p), Null) => SetNext(c, p, Null)
              case (Null, Null) => c;
    c' - {x}
  }

  /** `remove_current` on node `r[i]`: what is left is the chain without
      it, with its elements, and the head or tail moves when it was one. */
  lemma RemoveNode<T>(c: Cells<T>, r: seq<nat>, head: Link, tail: Link, i: nat)
    requires Chain(c, r, head, tail) && i < |r|
    ensures r[i] in c && c[r[i]].prev == LinkTo(r, i - 1) && c[r[i]].next == LinkTo(r, i + 1)
    ensures (c[r[i]].prev.Ptr? ==> c[r[i]].prev.addr in c) && (c[r[i]].next.Ptr? ==> c[r[i]].next.addr in c)
    ensures var c' := Removed(c, r[i]);
            && Chain(c', r[..i] + r[i + 1..], if i == 0 then LinkTo(r, 1) else head,
                     if i == |r| - 1 then LinkTo(r, |r| - 2) else tail)
            && Elems(c', r[..i] + r[i + 1..]) == Elems(c, r)[..i] + Elems(c, r)[i + 1..]
            && Untouched(c, c', r)
  {
    Neighbours(c, r, head, tail, i);
    var c' := Removed(c, r[i]);
    if 0 < i < |r| - 1 {
      Neighbours(c, r, head, tail, i - 1);
      UnlinkMiddle(c, r, head, tail, i, c');
    } else if i == 0 && |r| > 1 {
      UnlinkFront(c, r, head, tail, c');
      assert r[..i] + r[i + 1..] == r[1..];
      assert Elems(c, r)[..i] + Elems(c, r)[i + 1..] == Elems(c, r)[1..];
    } else if i > 0 {
      UnlinkBack(c, r, head, tail, c');
      assert r[..i] + r[i + 1..] == r[..|r| - 1];
      assert Elems(c, r)[..i] + Elems(c, r)[i + 1..] == Elems(c, r)[..|r| - 1];
    } else {
      UnlinkOnly(c, r, head, tail);
      assert r[..i] + r[i + 1..] == [];
    }
  }
}
