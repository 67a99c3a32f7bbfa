/** Shared vocabulary of the linked containers: optional values, nullable
    links, and an arena that stands for the process heap. A `Box::into_raw`
    allocation is `Heap.Alloc`, a `Box::from_raw` drop is `Heap.Free`, and a
    `NonNull` pointer is an address of the arena. */
module Arena {

  datatype Option<T> = None | Some(value: T)

  /** `Option<NonNull<Node>>`: either null or the address of a node. */
  datatype Link = Null | Ptr(addr: nat)

  /** The link to position `i` of a chain of addresses, null outside it. */
  function LinkTo(r: seq<nat>, i: int): (l: Link)
    ensures l.Ptr? <==> 0 <= i < |r|
    ensures l.Ptr? ==> l.addr == r[i]
  {
    if 0 <= i < |r| then Ptr(r[i]) else Null
  }

  /** No address occurs twice: each member's position is the one it is found at. */
  ghost predicate Distinct(r: seq<nat>) {
    forall i :: 0 <= i < |r| ==> IndexOf(r, r[i]) == i
  }

  /** Distinctness as a statement about pairs of positions. */
  lemma DistinctPairs(r: seq<nat>)
    requires Distinct(r)
    ensures forall i, j :: 0 <= i < j < |r| ==> r[i] != r[j]
  {
    forall i, j | 0 <= i < j < |r| ensures r[i] != r[j] {
      assert IndexOf(r, r[i]) == i && IndexOf(r, r[j]) == j;
    }
  }

  lemma PairsDistinct(r: seq<nat>)
    requires forall i, j :: 0 <= i < j < |r| ==> r[i] != r[j]
    ensures Distinct(r)
  {
    forall i | 0 <= i < |r| ensures IndexOf(r, r[i]) == i {
      var k := IndexOf(r, r[i]);
      assert r[k] == r[i];
    }
  }

  ghost predicate Disjoint(a: seq<nat>, b: seq<nat>) {
    forall x :: x in a ==> x !in b
  }

  /** Every cell outside `owned` that existed before still exists, unchanged. */
  ghost predicate Untouched<N>(before: map<nat, N>, after: map<nat, N>, owned: seq<nat>) {
    forall x :: x in before && x !in owned ==> x in after && after[x] == before[x]
  }

  /** Every address in `now` was in `was` or was not allocated before. */
  ghost predicate Confined<N>(before: map<nat, N>, was: seq<nat>, now: seq<nat>) {
    forall x :: x in now ==> x in was || x !in before
  }

  /** Two steps that each leave the rest of the heap alone leave it alone together. */
  lemma FrameTrans<N>(c0: map<nat, N>, c1: map<nat, N>, c2: map<nat, N>, o0: seq<nat>, o1: seq<nat>, o2: seq<nat>)
    requires Untouched(c0, c1, o0) && Confined(c0, o0, o1)
    requires Untouched(c1, c2, o1) && Confined(c1, o1, o2)
    ensures Untouched(c0, c2, o0) && Confined(c0, o0, o2)
  {
  }

  /** A step that keeps every cell outside `inner` keeps every cell outside a larger `owned`. */
  lemma UntouchedWithin<N>(c: map<nat, N>, c': map<nat, N>, inner: seq<nat>, owned: seq<nat>)
    requires Untouched(c, c', inner) && forall x :: x in inner ==> x in owned
    ensures Untouched(c, c', owned)
  {
  }

  /** Two steps that each keep the cells outside `owned` keep them together. */
  lemma UntouchedTrans<N>(c0: map<nat, N>, c1: map<nat, N>, c2: map<nat, N>, owned: seq<nat>)
    requires Untouched(c0, c1, owned) && Untouched(c1, c2, owned)
    ensures Untouched(c0, c2, owned)
  {
  }

  /** The two halves of a concatenation are its slices. */
  lemma AppendSlices<T>(x: seq<T>, y: seq<T>, z: seq<T>)
    requires x + y == z
    ensures z[..|x|] == x && z[|x|..] == y
  {
  }

  /** The outer parts of a three-way concatenation are its slices. */
  lemma AppendSlices3<T>(x: seq<T>, y: seq<T>, z: seq<T>, w: seq<T>)
    requires x + y + z == w
    ensures w[..|x|] == x && w[|x| + |y|..] == z
  {
    assert w == x + (y + z);
  }

  /** The position of `x` in `r`: the first one (`IndexOfFirst`), the only one
      when `r` is distinct. */
  function IndexOf(r: seq<nat>, x: nat): (i: nat)
    requires x in r
    ensures i < |r| && r[i] == x
  {
    if r[0] == x then 0 else
      assert x in r[1..] by { assert r == [r[0]] + r[1..]; }
      1 + IndexOf(r[1..], x)
  }

  lemma {:induction false} IndexOfFirst(r: seq<nat>, x: nat, k: nat)
    requires x in r && k < |r| && r[k] == x
    ensures IndexOf(r, x) <= k
  {
    if r[0] != x {
      assert x in r[1..] by { assert r == [r[0]] + r[1..]; }
      assert r[1..][k - 1] == x;
      IndexOfFirst(r[1..], x, k - 1);
    }
  }

  lemma IndexOfDistinct(r: seq<nat>, i: nat)
    requires Distinct(r) && i < |r|
    ensures IndexOf(r, r[i]) == i
  {
  }

  lemma DistinctConcat(a: seq<nat>, b: seq<nat>)
    requires Distinct(a) && Distinct(b) && Disjoint(a, b)
    ensures Distinct(a + b)
  {
    DistinctPairs(a);
    DistinctPairs(b);
    forall i, j | 0 <= i < j < |a + b| ensures (a + b)[i] != (a + b)[j] {
      if j < |a| {
      } else if i >= |a| {
        assert (a + b)[i] == b[i - |a|] && (a + b)[j] == b[j - |a|];
      } else {
        assert (a + b)[i] in a && (a + b)[j] == b[j - |a|];
      }
    }
    PairsDistinct(a + b);
  }

  /** The converse of `DistinctConcat`. */
  lemma DistinctSplit(a: seq<nat>, b: seq<nat>)
    requires Distinct(a + b)
    ensures Distinct(a) && Distinct(b) && Disjoint(a, b)
  {
    DistinctPairs(a + b);
    forall i, j | 0 <= i < j < |a| ensures a[i] != a[j] {
      assert a[i] == (a + b)[i] && a[j] == (a + b)[j];
    }
    forall i, j | 0 <= i < j < |b| ensures b[i] != b[j] {
      assert b[i] == (a + b)[|a| + i] && b[j] == (a + b)[|a| + j];
    }
    forall i, j | 0 <= i < |a| && 0 <= j < |b| ensures a[i] != b[j] {
      assert a[i] == (a + b)[i] && b[j] == (a + b)[|a| + j];
    }
    PairsDistinct(a);
    PairsDistinct(b);
  }

  /** An arena of cells addressed by natural numbers. Every address at or
      above `top` is unused, so `Alloc` always returns a fresh address. */
  class Heap<N> {
    var cells: map<nat, N>
    var top: nat

    ghost predicate Valid()
      reads this
    {
      forall x :: x in cells ==> x < top
    }

    constructor ()
      ensures Valid() && cells == map[]
    {
      cells := map[];
      top := 0;
    }

    /** `Box::into_raw(Box::new(n))`. */
    method Alloc(n: N) returns (a: nat)
      requires Valid()
      modifies this
      ensures Valid()
      ensures a !in old(cells) && cells == old(cells)[a := n]
    {
      a := top;
      cells := cells[a := n];
      top := top + 1;
    }

    /** `drop(Box::from_raw(a))`. */
    method Free(a: nat)
      requires Valid() && a in cells
      modifies this
      ensures Valid()
      ensures cells == old(cells) - {a}
    {
      cells := cells - {a};
    }
  }
}
