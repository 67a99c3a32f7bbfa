/** `BTree`: an unbalanced binary search tree of boxed nodes, each holding a
    left link, a right link and an element. Nodes live in an `Arena.Heap`;
    a ghost `Tree` records the shape the links spell out from a given link.
    Elements are `int`, standing for any `Ord` type. */
module BinaryTree {
  import opened Arena

  datatype TNode = TNode(left: Link, right: Link, elem: int)
  type TCells = map<nat, TNode>

  /** The shape of the nodes reachable from a link, with their handles. */
  datatype Tree = Leaf | Branch(addr: nat, left: Tree, elem: int, right: Tree)

  /** The links in `c`, followed from `l`, spell out `t`. */
  ghost predicate Shaped(c: TCells, l: Link, t: Tree)
    decreases t
  {
    match t
    case Leaf => l == Null
    case Branch(a, lt, e, rt) =>
      l == Ptr(a) && a in c && c[a].elem == e && Shaped(c, c[a].left, lt) && Shaped(c, c[a].right, rt)
  }

  /** The handles of the nodes of `t`. */
  ghost function Fp(t: Tree): set<nat> {
    match t
    case Leaf => {}
    case Branch(a, l, _, r) => {a} + Fp(l) + Fp(r)
  }

  /** No node is reachable twice. */
  ghost predicate Disjointly(t: Tree) {
    match t
    case Leaf => true
    case Branch(a, l, _, r) => a !in Fp(l) && a !in Fp(r) && Fp(l) !! Fp(r) && Disjointly(l) && Disjointly(r)
  }

  ghost function Keys(t: Tree): set<int> {
    match t
    case Leaf => {}
    case Branch(_, l, e, r) => Keys(l) + {e} + Keys(r)
  }

  /** The elements in the order `push_inorder` visits them. */
  ghost function InOrder(t: Tree): seq<int> {
    match t
    case Leaf => []
    case Branch(_, l, e, r) => InOrder(l) + [e] + InOrder(r)
  }

  /** The search-tree ordering: every key on the left is less than a node's
      element and every key on the right is greater. */
  ghost predicate Ordered(t: Tree) {
    match t
    case Leaf => true
    case Branch(_, l, e, r) =>
      Ordered(l) && Ordered(r) && (forall k :: k in Keys(l) ==> k < e) && (forall k :: k in Keys(r) ==> e < k)
  }

  ghost predicate Increasing(s: seq<int>) {
    forall i, j :: 0 <= i < j < |s| ==> s[i] < s[j]
  }

  lemma {:induction false} ShapedIn(c: TCells, l: Link, t: Tree)
    requires Shaped(c, l, t)
    ensures forall x :: x in Fp(t) ==> x in c
    decreases t
  {
    if t.Branch? {
      ShapedIn(c, c[t.addr].left, t.left);
      ShapedIn(c, c[t.addr].right, t.right);
    }
  }

  /** One step down a shape. */
  lemma ShapedLink(c: TCells, l: Link, t: Tree)
    requires Shaped(c, l, t)
    ensures l.Null? <==> t.Leaf?
    ensures l.Ptr? ==> t.addr == l.addr && l.addr in c && c[l.addr].elem == t.elem
    ensures l.Ptr? ==> Shaped(c, c[l.addr].left, t.left) && Shaped(c, c[l.addr].right, t.right)
  {
  }

  /** A shape depends only on the cells of its own nodes. */
  lemma {:induction false} ShapedFrame(c: TCells, d: TCells, l: Link, t: Tree)
    requires Shaped(c, l, t)
    requires forall x :: x in Fp(t) ==> x in c && x in d && d[x] == c[x]
    ensures Shaped(d, l, t)
    decreases t
  {
    if t.Branch? {
      ShapedFrame(c, d, c[t.addr].left, t.left);
      ShapedFrame(c, d, c[t.addr].right, t.right);
    }
  }

  /** The in-order sequence holds exactly the keys. */
  lemma {:induction false} InOrderKeys(t: Tree)
    ensures forall x :: x in InOrder(t) <==> x in Keys(t)
    decreases t
  {
    if t.Branch? {
      InOrderKeys(t.left);
      InOrderKeys(t.right);
    }
  }

  /** An ordered tree is visited in strictly increasing order. */
  lemma {:induction false} InOrderSorted(t: Tree)
    requires Ordered(t)
    ensures Increasing(InOrder(t))
    decreases t
  {
    if t.Branch? {
      var L, R, s := InOrder(t.left), InOrder(t.right), InOrder(t);
      InOrderSorted(t.left);
      InOrderSorted(t.right);
      InOrderKeys(t.left);
      InOrderKeys(t.right);
      forall i, j | 0 <= i < j < |s| ensures s[i] < s[j] {
        if j < |L| {
          assert s[i] == L[i] && s[j] == L[j];
        } else if i > |L| {
          assert s[i] == R[i - |L| - 1] && s[j] == R[j - |L| - 1];
        } else {
          if i < |L| {
            assert s[i] == L[i] && L[i] in L;
          }
          if j > |L| {
            assert s[j] == R[j - |L| - 1] && R[j - |L| - 1] in R;
          }
        }
      }
    }
  }

  /** An ordered tree holds each key once, so its node count is its key count. */
  lemma {:induction false} CountIsKeys(t: Tree)
    requires Ordered(t)
    ensures |InOrder(t)| == |Keys(t)|
    decreases t
  {
    if t.Branch? {
      CountIsKeys(t.left);
      CountIsKeys(t.right);
      var L, R := Keys(t.left), Keys(t.right);
      assert t.elem !in L;
      assert |L + {t.elem}| == |L| + 1;
      forall k | k in L + {t.elem} ensures k !in R {
        assert k <= t.elem;
      }
      assert (L + {t.elem}) * R == {};
    }
  }

  /** Below an ordered node, a smaller element can only be on the left and a
      greater one only on the right. */
  lemma KeysBelow(t: Tree, x: int)
    requires t.Branch? && Ordered(t)
    ensures x < t.elem ==> (x in Keys(t) <==> x in Keys(t.left))
    ensures x > t.elem ==> (x in Keys(t) <==> x in Keys(t.right))
  {
  }

  /** The node holding the least element: the end of the leftmost path. */
  ghost function MinNode(t: Tree): (m: Tree)
    requires t.Branch?
    ensures m.Branch?
    decreases t
  {
    if t.left == Leaf then t else MinNode(t.left)
  }

  /** `t` with its leftmost node replaced by that node's right subtree. */
  ghost function DeleteMin(t: Tree): Tree
    requires t.Branch?
    decreases t
  {
    if t.left == Leaf then t.right else Branch(t.addr, DeleteMin(t.left), t.elem, t.right)
  }

  /** Taking out the leftmost node takes out the first element visited. */
  lemma {:induction false} DeleteMinKeys(t: Tree)
    requires t.Branch?
    ensures InOrder(t) == [MinNode(t).elem] + InOrder(DeleteMin(t))
    ensures Keys(t) == Keys(DeleteMin(t)) + {MinNode(t).elem}
    ensures Fp(t) == Fp(DeleteMin(t)) + {MinNode(t).addr}
    decreases t
  {
    if t.left != Leaf {
      DeleteMinKeys(t.left);
      assert InOrder(t) == InOrder(t.left) + [t.elem] + InOrder(t.right);
      assert InOrder(DeleteMin(t)) == InOrder(DeleteMin(t.left)) + [t.elem] + InOrder(t.right);
    }
  }

  /** In an ordered tree the leftmost element is the least, and taking its
      node out keeps the tree ordered. */
  lemma {:induction false} DeleteMinOrdered(t: Tree)
    requires t.Branch? && Ordered(t)
    ensures Ordered(DeleteMin(t))
    ensures forall k :: k in Keys(DeleteMin(t)) ==> MinNode(t).elem < k
    decreases t
  {
    if t.left != Leaf {
      DeleteMinOrdered(t.left);
      DeleteMinKeys(t.left);
    }
  }

  /** Taking the leftmost node out keeps the nodes distinct and leaves that
      node out. */
  lemma {:induction false} DeleteMinDisjoint(t: Tree)
    requires t.Branch? && Disjointly(t)
    ensures Disjointly(DeleteMin(t)) && MinNode(t).addr !in Fp(DeleteMin(t))
    decreases t
  {
    if t.left != Leaf {
      DeleteMinDisjoint(t.left);
      DeleteMinKeys(t.left);
    }
  }

  /** The ghost shape is determined by the cells and the link. */
  lemma {:induction false} ShapeUnique(c: TCells, l: Link, t: Tree, u: Tree)
    requires Shaped(c, l, t) && Shaped(c, l, u)
    ensures t == u
    decreases t
  {
    if t.Branch? {
      ShapeUnique(c, c[t.addr].left, t.left, u.left);
      ShapeUnique(c, c[t.addr].right, t.right, u.right);
    }
  }

  /** `search_recursive`: go left when smaller, right when greater, stop when
      equal; over an ordered tree this decides membership. */
  function Search(c: TCells, l: Link, x: int, ghost t: Tree): (b: bool)
    requires Shaped(c, l, t)
    ensures Ordered(t) ==> (b <==> x in Keys(t))
    decreases t
  {
    match l
    case Null => false
    case Ptr(a) =>
      if x < c[a].elem then Search(c, c[a].left, x, t.left)
      else if x > c[a].elem then Search(c, c[a].right, x, t.right)
      else true
  }

  /** `min_value_parent_node`: the parent of the leftmost node below `a`, or
      `None` when `a` itself has no left child. */
  function MinParent(c: TCells, a: nat, ghost t: Tree): (p: Link)
    requires Shaped(c, Ptr(a), t)
    ensures p == Null <==> t.left == Leaf
    ensures p.Ptr? ==> p.addr in Fp(t) && MinNode(t).addr in Fp(t.left)
    decreases t
  {
    ShapedLink(c, c[a].left, t.left);
    match c[a].left
    case Null => Null
    case Ptr(b) =>
      ShapedLink(c, c[b].left, t.left.left);
      match c[b].left
      case Null => Ptr(a)
      case Ptr(_) => MinParent(c, b, t.left)
  }

  /** The leftmost node is one of the shape's nodes. */
  lemma {:induction false} MinShaped(c: TCells, l: Link, t: Tree)
    requires Shaped(c, l, t) && t.Branch?
    ensures Shaped(c, Ptr(MinNode(t).addr), MinNode(t))
    decreases t
  {
    if t.left != Leaf {
      MinShaped(c, c[t.addr].left, t.left);
    }
  }

  /** Pointing the min parent's left link past the leftmost node turns the
      shape into `DeleteMin(t)`. */
  lemma {:induction false} UnlinkMin(c: TCells, a: nat, t: Tree)
    requires Shaped(c, Ptr(a), t) && Disjointly(t) && t.left != Leaf
    ensures var p, m := MinParent(c, a, t).addr, MinNode(t).addr;
      p in c && m in c && p != m && c[p].left == Ptr(m) &&
      Shaped(c[p := c[p].(left := c[m].right)], Ptr(a), DeleteMin(t))
    decreases t
  {
    ShapedLink(c, c[a].left, t.left);
    ShapedLink(c, c[t.left.addr].left, t.left.left);
    var p, m := MinParent(c, a, t).addr, MinNode(t).addr;
    ShapedIn(c, Ptr(a), t);
    DeleteMinKeys(t.left);
    var d := c[p := c[p].(left := c[m].right)];
    if t.left.left == Leaf {
      ShapedFrame(c, d, c[m].right, t.left.right);
    } else {
      UnlinkMin(c, t.left.addr, t.left);
    }
    ShapedFrame(c, d, c[a].right, t.right);
  }

  /** What a recursive insert or remove leaves: `l` spells out `u`, an
      ordered tree of distinct nodes, each an old node of `t` or a new one,
      and every cell outside `t` is as it was in `c0`. */
  ghost predicate Rebuilt(c0: TCells, c: TCells, t: Tree, l: Link, u: Tree) {
    && Shaped(c, l, u) && Disjointly(u) && Ordered(u)
    && (forall x :: x in Fp(u) ==> x in Fp(t) || x !in c0)
    && (forall x :: x in c0 && x !in Fp(t) ==> x in c && c[x] == c0[x])
  }

  /** Storing a rebuilt left subtree in its parent rebuilds the parent. */
  lemma ReplaceLeft(c0: TCells, c1: TCells, t: Tree, l: Link, lt: Tree)
    requires t.Branch? && Shaped(c0, Ptr(t.addr), t) && Disjointly(t) && Ordered(t)
    requires Rebuilt(c0, c1, t.left, l, lt) && forall k :: k in Keys(lt) ==> k < t.elem
    ensures t.addr in c1 && c1[t.addr] == c0[t.addr]
    ensures Rebuilt(c0, c1[t.addr := c1[t.addr].(left := l)], t, Ptr(t.addr), Branch(t.addr, lt, t.elem, t.right))
  {
    var c2 := c1[t.addr := c1[t.addr].(left := l)];
    ShapedIn(c0, Ptr(t.addr), t);
    ShapedIn(c1, l, lt);
    ShapedFrame(c1, c2, l, lt);
    ShapedFrame(c0, c2, c0[t.addr].right, t.right);
  }

  /** Storing a rebuilt right subtree in its parent rebuilds the parent. */
  lemma ReplaceRight(c0: TCells, c1: TCells, t: Tree, l: Link, rt: Tree)
    requires t.Branch? && Shaped(c0, Ptr(t.addr), t) && Disjointly(t) && Ordered(t)
    requires Rebuilt(c0, c1, t.right, l, rt) && forall k :: k in Keys(rt) ==> t.elem < k
    ensures t.addr in c1 && c1[t.addr] == c0[t.addr]
    ensures Rebuilt(c0, c1[t.addr := c1[t.addr].(right := l)], t, Ptr(t.addr), Branch(t.addr, t.left, t.elem, rt))
  {
    var c2 := c1[t.addr := c1[t.addr].(right := l)];
    ShapedIn(c0, Ptr(t.addr), t);
    ShapedIn(c1, l, rt);
    ShapedFrame(c1, c2, l, rt);
    ShapedFrame(c0, c2, c0[t.addr].left, t.left);
  }

  /** Freeing a node with at most one child and returning that child. */
  lemma LiftChild(c0: TCells, t: Tree, keepRight: bool)
    requires t.Branch? && Shaped(c0, Ptr(t.addr), t) && Disjointly(t) && Ordered(t)
    requires if keepRight then t.left == Leaf else t.right == Leaf
    ensures var child := if keepRight then c0[t.addr].right else c0[t.addr].left;
      var u := if keepRight then t.right else t.left;
      Rebuilt(c0, c0 - {t.addr}, t, child, u) && Keys(u) == Keys(t) - {t.elem} && |InOrder(u)| == |InOrder(t)| - 1
  {
    ShapedIn(c0, Ptr(t.addr), t);
    if keepRight {
      ShapedFrame(c0, c0 - {t.addr}, c0[t.addr].right, t.right);
    } else {
      ShapedFrame(c0, c0 - {t.addr}, c0[t.addr].left, t.left);
    }
  }

  /** The two-child case rebuilt: the node keeps its handle and left subtree,
      takes the least element of its right subtree, and that element's node
      leaves the right subtree. */
  ghost function Successor(t: Tree): Tree
    requires t.Branch? && t.right.Branch?
  {
    Branch(t.addr, t.left, MinNode(t.right).elem, DeleteMin(t.right))
  }

  /** The successor tree is an ordered tree of distinct nodes. */
  lemma SuccessorOrdered(t: Tree)
    requires t.Branch? && t.right.Branch? && Ordered(t) && Disjointly(t)
    ensures Ordered(Successor(t)) && Disjointly(Successor(t))
  {
    var r := t.right;
    DeleteMinKeys(r);
    DeleteMinOrdered(r);
    DeleteMinDisjoint(r);
    assert MinNode(r).elem in Keys(r);
  }

  /** The successor tree holds the keys other than the removed element. */
  lemma SuccessorKeys(t: Tree)
    requires t.Branch? && t.right.Branch? && Ordered(t)
    ensures Keys(Successor(t)) == Keys(t) - {t.elem} && |InOrder(Successor(t))| == |InOrder(t)| - 1
  {
    var r := t.right;
    DeleteMinKeys(r);
    assert t.elem !in Keys(t.left) && t.elem !in Keys(r);
    assert Keys(Successor(t)) == Keys(t.left) + Keys(r);
  }

  /** The successor tree holds the nodes other than the leftmost one of the
      right subtree. */
  lemma SuccessorFp(t: Tree)
    requires t.Branch? && t.right.Branch? && Disjointly(t)
    ensures Fp(Successor(t)) == Fp(t) - {MinNode(t.right).addr}
  {
    var r := t.right;
    DeleteMinKeys(r);
    assert MinNode(r).addr in Fp(r) && MinNode(r).addr != t.addr && MinNode(r).addr !in Fp(t.left);
    DeleteMinDisjoint(r);
  }

  /** The cells after the two-child case when the successor `m` hangs
      below the min parent `p`: `n` takes `m`'s element, `p`'s left link
      takes `m`'s right link, and `m` is freed. */
  ghost function DeepCells(c0: TCells, n: nat, p: nat, m: nat): TCells
    requires n in c0 && p in c0 && m in c0
  {
    var c1 := c0[n := c0[n].(elem := c0[m].elem)];
    c1[p := c1[p].(left := c0[m].right)] - {m}
  }

  lemma DeepCellsAt(c0: TCells, n: nat, p: nat, m: nat)
    requires n in c0 && p in c0 && m in c0 && n != p && n != m && p != m
    ensures var c := DeepCells(c0, n, p, m);
      m !in c && n in c && p in c && c[n] == c0[n].(elem := c0[m].elem) && c[p] == c0[p].(left := c0[m].right)
    ensures var c := DeepCells(c0, n, p, m);
      forall x :: x in c0 && x != n && x != p && x != m ==> x in c && c[x] == c0[x]
  {
  }

  /** The two-child case when the right child has a left child. */
  lemma SuccessorDeep(c0: TCells, t: Tree)
    requires t.Branch? && Shaped(c0, Ptr(t.addr), t) && Disjointly(t) && Ordered(t)
    requires t.right.Branch? && t.right.left != Leaf && Shaped(c0, Ptr(t.right.addr), t.right)
    ensures var n, p, m := t.addr, MinParent(c0, t.right.addr, t.right).addr, MinNode(t.right).addr;
      n in c0 && p in c0 && m in c0 && c0[p].left == Ptr(m) &&
      Rebuilt(c0, DeepCells(c0, n, p, m), t, Ptr(n), Successor(t))
  {
    var n, r := t.addr, t.right;
    var p, m := MinParent(c0, r.addr, r).addr, MinNode(r).addr;
    ShapedIn(c0, Ptr(n), t);
    UnlinkMin(c0, r.addr, r);
    DeleteMinKeys(r);
    DeleteMinDisjoint(r);
    assert p in Fp(r) && m in Fp(r);
    DeepCellsAt(c0, n, p, m);
    var d := c0[p := c0[p].(left := c0[m].right)];
    var c := DeepCells(c0, n, p, m);
    ShapedFrame(d, c, Ptr(r.addr), DeleteMin(r));
    ShapedFrame(c0, c, c0[n].left, t.left);
    SuccessorKeys(t);
    SuccessorFp(t);
    SuccessorOrdered(t);
    ShapedLink(c0, Ptr(n), t);
    MinShaped(c0, Ptr(r.addr), r);
  }

  /** The cells after the two-child case when the successor is the right
      child `m` itself: `n` takes its element and its right link, and `m` is
      freed. */
  ghost function ShallowCells(c0: TCells, n: nat, m: nat): TCells
    requires n in c0 && m in c0
  {
    var c1 := c0[n := c0[n].(elem := c0[m].elem)];
    c1[n := c1[n].(right := c0[m].right)] - {m}
  }

  /** The two-child case when the right child has no left child: the right
      child holds the least element of the right subtree. */
  lemma SuccessorShallow(c0: TCells, t: Tree)
    requires t.Branch? && Shaped(c0, Ptr(t.addr), t) && Disjointly(t) && Ordered(t)
    requires t.right.Branch? && t.right.left == Leaf
    ensures var n, m := t.addr, t.right.addr;
      n in c0 && m in c0 && Rebuilt(c0, ShallowCells(c0, n, m), t, Ptr(n), Successor(t))
  {
    var n, m := t.addr, t.right.addr;
    ShapedIn(c0, Ptr(n), t);
    SuccessorKeys(t);
    SuccessorFp(t);
    SuccessorOrdered(t);
    var c := ShallowCells(c0, n, m);
    ShapedFrame(c0, c, c0[m].right, t.right.right);
    ShapedFrame(c0, c, c0[n].left, t.left);
  }

  class BTree {
    const heap: Heap<TNode>
    var root: Link
    var size: nat
    ghost var tree: Tree

    ghost predicate Valid()
      reads this, heap
    {
      heap.Valid() && Shaped(heap.cells, root, tree) && Disjointly(tree) && Ordered(tree) && size == |InOrder(tree)|
    }

    /** `BTree::new`. */
    constructor ()
      ensures Valid() && tree == Leaf && fresh(heap)
    {
      heap := new Heap();
      root := Null;
      size := 0;
      tree := Leaf;
    }

    /** `size`: the number of distinct elements held. */
    function Size(): (n: nat)
      reads this, heap
      requires Valid()
      ensures n == |Keys(tree)|
    {
      CountIsKeys(tree);
      size
    }

    function IsEmpty(): (b: bool)
      reads this, heap
      requires Valid()
      ensures b <==> Keys(tree) == {}
    {
      CountIsKeys(tree);
      size == 0
    }

    /** `insert_recursive`: descend by comparison, link a new leaf where the
        search falls off the tree, do nothing when the element is present. */
    method InsertRec(current: Link, ghost t: Tree, elem: int) returns (link: Link, ghost u: Tree)
      requires heap.Valid() && Shaped(heap.cells, current, t) && Disjointly(t) && Ordered(t)
      modifies this, heap
      ensures heap.Valid() && Rebuilt(old(heap.cells), heap.cells, t, link, u)
      ensures root == old(root) && tree == old(tree)
      ensures Keys(u) == Keys(t) + {elem}
      ensures elem in Keys(t) ==> link == current && u == t && heap.cells == old(heap.cells) && size == old(size)
      ensures elem !in Keys(t) ==> size == old(size) + 1 && |InOrder(u)| == |InOrder(t)| + 1
      decreases t, 1
    {
      if current.Null? {
        var a := heap.Alloc(TNode(Null, Null, elem));
        size := size + 1;
        return Ptr(a), Branch(a, Leaf, elem, Leaf);
      }
      var node := current.addr;
      if elem < heap.cells[node].elem {
        u := InsertLeft(node, t, elem);
      } else if elem > heap.cells[node].elem {
        u := InsertRight(node, t, elem);
      } else {
        u := t;
      }
      link := current;
    }

    /** `(*node).left = insert_recursive((*node).left, elem)`. */
    method InsertLeft(node: nat, ghost t: Tree, elem: int) returns (ghost u: Tree)
      requires heap.Valid() && Shaped(heap.cells, Ptr(node), t) && Disjointly(t) && Ordered(t) && elem < t.elem
      modifies this, heap
      ensures heap.Valid() && Rebuilt(old(heap.cells), heap.cells, t, Ptr(node), u)
      ensures root == old(root) && tree == old(tree)
      ensures Keys(u) == Keys(t) + {elem}
      ensures elem in Keys(t) ==> u == t && heap.cells == old(heap.cells) && size == old(size)
      ensures elem !in Keys(t) ==> size == old(size) + 1 && |InOrder(u)| == |InOrder(t)| + 1
      decreases t, 0
    {
      ghost var c0 := heap.cells;
      KeysBelow(t, elem);
      var l, lt := InsertRec(heap.cells[node].left, t.left, elem);
      ReplaceLeft(c0, heap.cells, t, l, lt);
      heap.cells := heap.cells[node := heap.cells[node].(left := l)];
      u := Branch(node, lt, t.elem, t.right);
      if elem in Keys(t) {
        assert heap.cells == c0;
      }
    }

    /** `(*node).right = insert_recursive((*node).right, elem)`. */
    method InsertRight(node: nat, ghost t: Tree, elem: int) returns (ghost u: Tree)
      requires heap.Valid() && Shaped(heap.cells, Ptr(node), t) && Disjointly(t) && Ordered(t) && elem > t.elem
      modifies this, heap
      ensures heap.Valid() && Rebuilt(old(heap.cells), heap.cells, t, Ptr(node), u)
      ensures root == old(root) && tree == old(tree)
      ensures Keys(u) == Keys(t) + {elem}
      ensures elem in Keys(t) ==> u == t && heap.cells == old(heap.cells) && size == old(size)
      ensures elem !in Keys(t) ==> size == old(size) + 1 && |InOrder(u)| == |InOrder(t)| + 1
      decreases t, 0
    {
      ghost var c0 := heap.cells;
      KeysBelow(t, elem);
      var r, rt := InsertRec(heap.cells[node].right, t.right, elem);
      ReplaceRight(c0, heap.cells, t, r, rt);
      heap.cells := heap.cells[node := heap.cells[node].(right := r)];
      u := Branch(node, t.left, t.elem, rt);
      if elem in Keys(t) {
        assert heap.cells == c0;
      }
    }

    /** `insert`. */
    method Insert(elem: int)
      requires Valid()
      modifies this, heap
      ensures Valid() && Keys(tree) == old(Keys(tree)) + {elem}
      ensures size == old(size) + (if elem in old(Keys(tree)) then 0 else 1)
      ensures elem in old(Keys(tree)) ==> tree == old(tree) && heap.cells == old(heap.cells)
    {
      var l;
      ghost var u;
      l, u := InsertRec(root, tree, elem);
      root := l;
      tree := u;
    }

    /** `contains`. */
    function Contains(elem: int): (b: bool)
      reads this, heap
      requires Valid()
      ensures b <==> elem in Keys(tree)
    {
      Search(heap.cells, root, elem, tree)
    }

    /** `remove_recursive`: descend by comparison; on the node holding the
        element, splice out a node with at most one child, or overwrite the
        element with its in-order successor and free the successor's node. */
    method RemoveRec(current: Link, ghost t: Tree, elem: int) returns (link: Link, ghost u: Tree)
      requires heap.Valid() && Shaped(heap.cells, current, t) && Disjointly(t) && Ordered(t) && |InOrder(t)| <= size
      modifies this, heap
      ensures heap.Valid() && Rebuilt(old(heap.cells), heap.cells, t, link, u)
      ensures root == old(root) && tree == old(tree)
      ensures Keys(u) == Keys(t) - {elem}
      ensures elem !in Keys(t) ==> link == current && u == t && heap.cells == old(heap.cells) && size == old(size)
      ensures elem in Keys(t) ==> size == old(size) - 1 && |InOrder(u)| == |InOrder(t)| - 1
      decreases t, 1
    {
      if current.Null? {
        return Null, Leaf;
      }
      var node := current.addr;
      if elem < heap.cells[node].elem {
        u := RemoveLeft(node, t, elem);
        return current, u;
      }
      if elem > heap.cells[node].elem {
        u := RemoveRight(node, t, elem);
        return current, u;
      }
      link, u := RemoveFound(node, t);
    }

    /** `(*node).left = remove_recursive((*node).left, elem)`. */
    method RemoveLeft(node: nat, ghost t: Tree, elem: int) returns (ghost u: Tree)
      requires heap.Valid() && Shaped(heap.cells, Ptr(node), t) && Disjointly(t) && Ordered(t) && |InOrder(t)| <= size
      requires elem < t.elem
      modifies this, heap
      ensures heap.Valid() && Rebuilt(old(heap.cells), heap.cells, t, Ptr(node), u)
      ensures root == old(root) && tree == old(tree)
      ensures Keys(u) == Keys(t) - {elem}
      ensures elem !in Keys(t) ==> u == t && heap.cells == old(heap.cells) && size == old(size)
      ensures elem in Keys(t) ==> size == old(size) - 1 && |InOrder(u)| == |InOrder(t)| - 1
      decreases t, 0
    {
      ghost var c0 := heap.cells;
      KeysBelow(t, elem);
      var l, lt := RemoveRec(heap.cells[node].left, t.left, elem);
      ReplaceLeft(c0, heap.cells, t, l, lt);
      heap.cells := heap.cells[node := heap.cells[node].(left := l)];
      u := Branch(node, lt, t.elem, t.right);
      if elem !in Keys(t) {
        assert heap.cells == c0;
      }
    }

    /** `(*node).right = remove_recursive((*node).right, elem)`. */
    method RemoveRight(node: nat, ghost t: Tree, elem: int) returns (ghost u: Tree)
      requires heap.Valid() && Shaped(heap.cells, Ptr(node), t) && Disjointly(t) && Ordered(t) && |InOrder(t)| <= size
      requires elem > t.elem
      modifies this, heap
      ensures heap.Valid() && Rebuilt(old(heap.cells), heap.cells, t, Ptr(node), u)
      ensures root == old(root) && tree == old(tree)
      ensures Keys(u) == Keys(t) - {elem}
      ensures elem !in Keys(t) ==> u == t && heap.cells == old(heap.cells) && size == old(size)
      ensures elem in Keys(t) ==> size == old(size) - 1 && |InOrder(u)| == |InOrder(t)| - 1
      decreases t, 0
    {
      ghost var c0 := heap.cells;
      KeysBelow(t, elem);
      var r, rt := RemoveRec(heap.cells[node].right, t.right, elem);
      ReplaceRight(c0, heap.cells, t, r, rt);
      heap.cells := heap.cells[node := heap.cells[node].(right := r)];
      u := Branch(node, t.left, t.elem, rt);
      if elem !in Keys(t) {
        assert heap.cells == c0;
      }
    }

    /** The node holding the element is found. */
    method RemoveFound(node: nat, ghost t: Tree) returns (link: Link, ghost u: Tree)
      requires heap.Valid() && Shaped(heap.cells, Ptr(node), t) && Disjointly(t) && Ordered(t) && |InOrder(t)| <= size
      modifies this, heap
      ensures heap.Valid() && Rebuilt(old(heap.cells), heap.cells, t, link, u)
      ensures root == old(root) && tree == old(tree)
      ensures Keys(u) == Keys(t) - {t.elem}
      ensures size == old(size) - 1 && |InOrder(u)| == |InOrder(t)| - 1
    {
      size := size - 1;
      var n := heap.cells[node];
      if n.left.Null? || n.right.Null? {
        LiftChild(heap.cells, t, n.left.Null?);
        heap.Free(node);
        return if n.left.Null? then n.right else n.left, if n.left.Null? then t.right else t.left;
      }
      SuccessorKeys(t);
      ReplaceBySuccessor(node, t);
      return Ptr(node), Successor(t);
    }

    /** The two-child case: the element of the leftmost node of the right
        subtree moves up into `node`, and that leftmost node is freed. */
    method ReplaceBySuccessor(node: nat, ghost t: Tree)
      requires heap.Valid() && Shaped(heap.cells, Ptr(node), t) && Disjointly(t) && Ordered(t)
      requires t.left != Leaf && t.right != Leaf
      modifies heap
      ensures heap.Valid() && Rebuilt(old(heap.cells), heap.cells, t, Ptr(node), Successor(t))
    {
      ShapedLink(heap.cells, Ptr(node), t);
      ShapedLink(heap.cells, heap.cells[node].right, t.right);
      var right := heap.cells[node].right.addr;
      var parent := MinParent(heap.cells, right, t.right);
      var drop: nat;
      if parent.Ptr? {
        SuccessorDeep(heap.cells, t);
        drop := heap.cells[parent.addr].left.addr;
        var left := heap.cells[drop];
        heap.cells := heap.cells[node := heap.cells[node].(elem := left.elem)];
        heap.cells := heap.cells[parent.addr := heap.cells[parent.addr].(left := left.right)];
      } else {
        SuccessorShallow(heap.cells, t);
        drop := right;
        var rightNode := heap.cells[drop];
        heap.cells := heap.cells[node := heap.cells[node].(elem := rightNode.elem)];
        heap.cells := heap.cells[node := heap.cells[node].(right := rightNode.right)];
      }
      heap.Free(drop);
    }

    /** `remove`. */
    method Remove(elem: int)
      requires Valid()
      modifies this, heap
      ensures Valid() && Keys(tree) == old(Keys(tree)) - {elem}
      ensures size == old(size) - (if elem in old(Keys(tree)) then 1 else 0)
      ensures elem !in old(Keys(tree)) ==> tree == old(tree) && heap.cells == old(heap.cells)
    {
      var l;
      ghost var u;
      l, u := RemoveRec(root, tree, elem);
      root := l;
      tree := u;
    }

    /** `push_inorder`: left subtree, then the node, then the right subtree,
        appended to `elems`. */
    method PushInorder(current: Link, ghost t: Tree, elems: seq<int>) returns (out: seq<int>)
      requires Shaped(heap.cells, current, t)
      ensures out == elems + InOrder(t)
      decreases t
    {
      out := elems;
      if current.Ptr? {
        var n := heap.cells[current.addr];
        out := PushInorder(n.left, t.left, out);
        out := out + [n.elem];
        out := PushInorder(n.right, t.right, out);
      }
    }

    /** `iter`: collect the elements in order, then walk them. They come out
        strictly increasing, `size` of them. */
    method Iter() returns (it: Iter)
      requires Valid()
      ensures fresh(it) && it.Valid() && it.Remaining() == InOrder(tree)
      ensures Increasing(it.Remaining()) && |it.Remaining()| == size
      ensures forall x :: x in it.Remaining() <==> x in Keys(tree)
    {
      var elems := PushInorder(root, tree, []);
      InOrderSorted(tree);
      InOrderKeys(tree);
      it := new Iter(elems);
    }
  }

  /** `binary_tree::Iter`: the collected elements and the index of the next. */
  class Iter {
    const elems: seq<int>
    var currentIdx: nat

    ghost predicate Valid()
      reads this
    {
      currentIdx <= |elems|
    }

    ghost function Remaining(): seq<int>
      reads this
      requires Valid()
    {
      elems[currentIdx..]
    }

    constructor (elems: seq<int>)
      ensures Valid() && this.elems == elems && Remaining() == elems
    {
      this.elems := elems;
      currentIdx := 0;
    }

    method Next() returns (r: Option<int>)
      requires Valid()
      modifies this
      ensures Valid()
      ensures old(Remaining()) == [] ==> r == None && currentIdx == old(currentIdx)
      ensures old(Remaining()) != [] ==> r == Some(old(Remaining())[0]) && Remaining() == old(Remaining())[1..]
    {
      if currentIdx == |elems| {
        return None;
      }
      r := Some(elems[currentIdx]);
      currentIdx := currentIdx + 1;
    }

    /** `size_hint`: exact, the number of elements not yet returned. */
    function SizeHint(): (r: (nat, Option<nat>))
      reads this
      requires Valid()
      ensures r.0 == |Remaining()| && r.1 == Some(|Remaining()| as nat)
    {
      (|elems| - currentIdx, Some(|elems| - currentIdx))
    }
  }
}
