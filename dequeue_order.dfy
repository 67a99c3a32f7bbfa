/** The comparison traits of `DequeueList`: `PartialEq`, `PartialOrd`, `Ord`
    and `Hash` are folds over the traversal order, so they are stated here
    over a list's `Contents()`. Element comparison is a parameter. */
module DequeueOrder {
  import opened Arena

  /** `std::cmp::Ordering`. */
  datatype Ordering = Less | Equal | Greater

  function Reverse(o: Ordering): (r: Ordering)
    ensures (r == Less <==> o == Greater) && (r == Equal <==> o == Equal)
  {
    match o
    case Less => Greater
    case Equal => Equal
    case Greater => Less
  }

  /** `Iterator::eq`: walk both sides together; they are equal when they run
      out together and every pair met on the way is equal. */
  function IterEq<T(==)>(a: seq<T>, b: seq<T>): (r: bool)
    ensures r <==> a == b
  {
    if a == [] || b == [] then a == [] && b == []
    else
      var r := a[0] == b[0] && IterEq(a[1..], b[1..]);
      assert a == [a[0]] + a[1..] && b == [b[0]] + b[1..];
      r
  }

  /** `PartialEq::eq`: lengths first, then the element-by-element walk. */
  function Eq<T(==)>(a: seq<T>, b: seq<T>): (r: bool)
    ensures r <==> a == b
  {
    |a| == |b| && IterEq(a, b)
  }

  /** `PartialEq::ne`, written out in the source rather than derived. */
  function Ne<T(==)>(a: seq<T>, b: seq<T>): (r: bool)
    ensures r <==> a != b
  {
    |a| != |b| || !IterEq(a, b)
  }

  /** `cmp` is a total order on `T`: anti-symmetric, transitive, and
      `Equal` exactly on equal values. */
  ghost predicate TotalOrder<T(!new)>(cmp: (T, T) -> Ordering) {
    && (forall x, y :: cmp(x, y) == Reverse(cmp(y, x)))
    && (forall x, y :: cmp(x, y) == Equal <==> x == y)
    && (forall x, y, z :: cmp(x, y) == Less && cmp(y, z) == Less ==> cmp(x, z) == Less)
  }

  /** `Iterator::cmp` over `Ord` elements: the first unequal pair decides,
      otherwise the side that runs out first is the smaller. */
  function IterCmp<T>(a: seq<T>, b: seq<T>, cmp: (T, T) -> Ordering): Ordering {
    if a == [] && b == [] then Equal
    else if a == [] then Less
    else if b == [] then Greater
    else
      match cmp(a[0], b[0])
      case Equal => IterCmp(a[1..], b[1..], cmp)
      case o => o
  }

  /** `Ord::cmp` of two lists. */
  function Cmp<T>(a: seq<T>, b: seq<T>, cmp: (T, T) -> Ordering): Ordering {
    IterCmp(a, b, cmp)
  }

  lemma {:induction false} CmpEqual<T(!new)>(a: seq<T>, b: seq<T>, cmp: (T, T) -> Ordering)
    requires TotalOrder(cmp)
    ensures Cmp(a, b, cmp) == Equal <==> a == b
    decreases |a|
  {
    if a != [] && b != [] {
      CmpEqual(a[1..], b[1..], cmp);
      assert a == [a[0]] + a[1..] && b == [b[0]] + b[1..];
    }
  }

  lemma {:induction false} CmpReverse<T(!new)>(a: seq<T>, b: seq<T>, cmp: (T, T) -> Ordering)
    requires TotalOrder(cmp)
    ensures Cmp(a, b, cmp) == Reverse(Cmp(b, a, cmp))
    decreases |a|
  {
    if a != [] && b != [] {
      CmpReverse(a[1..], b[1..], cmp);
    }
  }

  lemma {:induction false} CmpTransitive<T(!new)>(a: seq<T>, b: seq<T>, c: seq<T>, cmp: (T, T) -> Ordering)
    requires TotalOrder(cmp)
    requires Cmp(a, b, cmp) == Less && Cmp(b, c, cmp) == Less
    ensures Cmp(a, c, cmp) == Less
    decreases |a|
  {
    if a != [] && b != [] && c != [] {
      var x, y, z := a[0], b[0], c[0];
      if cmp(x, y) == Equal && cmp(y, z) == Equal {
        CmpTransitive(a[1..], b[1..], c[1..], cmp);
      } else if cmp(x, y) == Equal {
        assert x == y;
      } else if cmp(y, z) == Equal {
        assert y == z;
      }
    }
  }

  /** A proper prefix is smaller than the longer list. */
  lemma {:induction false} PrefixLess<T>(a: seq<T>, b: seq<T>, cmp: (T, T) -> Ordering)
    requires (forall x :: cmp(x, x) == Equal) && |a| < |b| && a == b[..|a|]
    ensures Cmp(a, b, cmp) == Less
    decreases |a|
  {
    if a != [] {
      assert a[0] == b[0] && a[1..] == b[1..][..|a| - 1];
      PrefixLess(a[1..], b[1..], cmp);
    }
  }

  /** `Iterator::partial_cmp` over `PartialOrd` elements: a pair that is not
      `Some(Equal)` decides, incomparable pairs included. */
  function IterPartialCmp<T>(a: seq<T>, b: seq<T>, pcmp: (T, T) -> Option<Ordering>): Option<Ordering> {
    if a == [] && b == [] then Some(Equal)
    else if a == [] then Some(Less)
    else if b == [] then Some(Greater)
    else
      match pcmp(a[0], b[0])
      case Some(Equal) => IterPartialCmp(a[1..], b[1..], pcmp)
      case o => o
  }

  /** `PartialOrd::partial_cmp` of two lists. */
  function PartialCmp<T>(a: seq<T>, b: seq<T>, pcmp: (T, T) -> Option<Ordering>): Option<Ordering> {
    IterPartialCmp(a, b, pcmp)
  }

  /** For elements whose partial order is total, `partial_cmp` agrees with `cmp`. */
  lemma {:induction false} PartialCmpAgrees<T>(a: seq<T>, b: seq<T>, pcmp: (T, T) -> Option<Ordering>, cmp: (T, T) -> Ordering)
    requires forall x, y :: pcmp(x, y) == Some(cmp(x, y))
    ensures PartialCmp(a, b, pcmp) == Some(Cmp(a, b, cmp))
    decreases |a|
  {
    if a != [] && b != [] {
      PartialCmpAgrees(a[1..], b[1..], pcmp, cmp);
    }
  }

  /** The first incomparable pair, if no unequal pair precedes it, makes the lists incomparable. */
  lemma {:induction false} PartialCmpIncomparable<T>(a: seq<T>, b: seq<T>, pcmp: (T, T) -> Option<Ordering>, k: nat)
    requires k < |a| && k < |b| && pcmp(a[k], b[k]) == None
    requires forall i :: 0 <= i < k ==> pcmp(a[i], b[i]) == Some(Equal)
    ensures PartialCmp(a, b, pcmp) == None
    decreases k
  {
    if k > 0 {
      assert pcmp(a[0], b[0]) == Some(Equal);
      forall i | 0 <= i < k - 1 ensures pcmp(a[1..][i], b[1..][i]) == Some(Equal) {
        assert a[1..][i] == a[i + 1] && b[1..][i] == b[i + 1];
      }
      PartialCmpIncomparable(a[1..], b[1..], pcmp, k - 1);
    }
  }

  /** What `Hash::hash` feeds the hasher: the length, then every element in order. */
  datatype HashWord<T> = Length(n: nat) | Item(elem: T)

  function HashStream<T>(s: seq<T>): (w: seq<HashWord<T>>)
    ensures |w| == |s| + 1 && w[0] == Length(|s|)
    ensures forall i :: 0 <= i < |s| ==> w[i + 1] == Item(s[i])
  {
    [Length(|s|)] + seq(|s|, i requires 0 <= i < |s| => Item(s[i]))
  }

  /** Equal lists hash alike and, the length coming first, no list's stream
      is a proper prefix of another's: a stream determines its list. */
  lemma HashPrefixFree<T>(a: seq<T>, b: seq<T>)
    requires |HashStream(a)| <= |HashStream(b)| && HashStream(a) == HashStream(b)[..|HashStream(a)|]
    ensures a == b
  {
    var wa, wb := HashStream(a), HashStream(b);
    assert wa[0] == wb[0];
    forall i | 0 <= i < |a| ensures a[i] == b[i] {
      assert wa[i + 1] == wb[i + 1];
    }
  }
}
