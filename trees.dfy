/**
 * The abstract view of a red-black tree: a colored binary tree of integer keys.
 * The node graph kept by the class in module RBT is mapped onto this datatype,
 * and every query of the tree (search, min, max, height, the sorted walk) is a
 * function over it.
 */
module Trees {

  datatype Color = Red | Black

  datatype Tree = Leaf | Node(color: Color, val: int, left: Tree, right: Tree)

  /** The keys in the order the sorted walk visits them: left subtree, node, right subtree. */
  function InOrder(t: Tree): seq<int>
  {
    match t
    case Leaf => []
    case Node(_, k, l, r) => InOrder(l) + [k] + InOrder(r)
  }

  ghost predicate Sorted(s: seq<int>)
  {
    forall i, j :: 0 <= i < j < |s| ==> s[i] <= s[j]
  }

  /** The ordering the tree keeps: its sorted walk is ascending (equal keys may sit on either side). */
  ghost predicate Ordered(t: Tree)
  {
    Sorted(InOrder(t))
  }

  /**
   * The stricter ordering that insertion's descent alone would produce:
   * every key on the left is smaller, every key on the right is greater or equal.
   */
  ghost predicate SearchTree(t: Tree)
  {
    match t
    case Leaf => true
    case Node(_, k, l, r) =>
      && SearchTree(l) && SearchTree(r)
      && (forall v :: v in InOrder(l) ==> v < k)
      && (forall v :: v in InOrder(r) ==> k <= v)
  }

  lemma OrderedNodeSplit(c: Color, k: int, l: Tree, r: Tree)
    requires Ordered(Node(c, k, l, r))
    ensures Ordered(l) && Ordered(r)
    ensures forall v :: v in InOrder(l) ==> v <= k
    ensures forall v :: v in InOrder(r) ==> k <= v
  {
    SortedSplitLeft(InOrder(l), k, InOrder(r));
    SortedSplitRight(InOrder(l), k, InOrder(r));
  }

  /** The part of an ascending sequence before `k` is ascending and bounded by `k`. */
  lemma SortedSplitLeft(a: seq<int>, k: int, b: seq<int>)
    requires Sorted(a + [k] + b)
    ensures Sorted(a) && forall v :: v in a ==> v <= k
  {
    var s := a + [k] + b;
    assert s[|a|] == k;
    forall i, j | 0 <= i < j < |a| ensures a[i] <= a[j] {
      assert a[i] == s[i] && a[j] == s[j];
    }
    forall v | v in a ensures v <= k {
      var i :| 0 <= i < |a| && a[i] == v;
      assert s[i] == v;
    }
  }

  /** The part of an ascending sequence after `k` is ascending and bounded below by `k`. */
  lemma SortedSplitRight(a: seq<int>, k: int, b: seq<int>)
    requires Sorted(a + [k] + b)
    ensures Sorted(b) && forall v :: v in b ==> k <= v
  {
    var s := a + [k] + b;
    assert s[|a|] == k;
    forall i, j | 0 <= i < j < |b| ensures b[i] <= b[j] {
      assert b[i] == s[|a| + 1 + i] && b[j] == s[|a| + 1 + j];
    }
    forall v | v in b ensures k <= v {
      var i :| 0 <= i < |b| && b[i] == v;
      assert s[|a| + 1 + i] == v;
    }
  }

  /** OrderedNodeSplit for any node: what an ordered node says about its two subtrees. */
  lemma OrderedParts(c: Color, k: int, l: Tree, r: Tree)
    ensures Ordered(Node(c, k, l, r)) ==>
              && Ordered(l) && Ordered(r)
              && (forall v :: v in InOrder(l) ==> v <= k)
              && (forall v :: v in InOrder(r) ==> k <= v)
  {
    if Ordered(Node(c, k, l, r)) {
      OrderedNodeSplit(c, k, l, r);
    }
  }

  lemma OrderedNodeJoin(c: Color, k: int, l: Tree, r: Tree)
    requires Ordered(l) && Ordered(r)
    requires forall v :: v in InOrder(l) ==> v <= k
    requires forall v :: v in InOrder(r) ==> k <= v
    ensures Ordered(Node(c, k, l, r))
  {
    var s := InOrder(Node(c, k, l, r));
    var sl, sr := InOrder(l), InOrder(r);
    assert s == sl + [k] + sr;
    forall i, j | 0 <= i < j < |s| ensures s[i] <= s[j] {
      if j < |sl| {
        assert s[i] == sl[i] && s[j] == sl[j];
      } else if i > |sl| {
        assert s[i] == sr[i - |sl| - 1] && s[j] == sr[j - |sl| - 1];
      } else {
        if i < |sl| {
          assert s[i] == sl[i] && sl[i] in sl;
        }
        if j > |sl| {
          assert s[j] == sr[j - |sl| - 1] && sr[j - |sl| - 1] in sr;
        }
      }
    }
  }

  // ---------------------------------------------------------------------------
  // Red-black invariants
  // ---------------------------------------------------------------------------

  predicate IsRedRooted(t: Tree)
  {
    t.Node? && t.color == Red
  }

  /** Black nodes on the leftmost path, counting the node itself. */
  function BlackHeight(t: Tree): nat
  {
    match t
    case Leaf => 0
    case Node(c, _, l, _) => BlackHeight(l) + (if c == Black then 1 else 0)
  }

  /** Every path from a node down to an absent child passes the same number of Black nodes. */
  ghost predicate Balanced(t: Tree)
  {
    match t
    case Leaf => true
    case Node(_, _, l, r) => Balanced(l) && Balanced(r) && BlackHeight(l) == BlackHeight(r)
  }

  /** No Red node has a Red child. */
  ghost predicate NoRedRed(t: Tree)
  {
    match t
    case Leaf => true
    case Node(c, _, l, r) =>
      && NoRedRed(l) && NoRedRed(r)
      && (c == Red ==> !IsRedRooted(l) && !IsRedRooted(r))
  }

  ghost predicate IsRedBlack(t: Tree)
  {
    !IsRedRooted(t) && NoRedRed(t) && Balanced(t)
  }

  /** Every path from `t` to an absent child passes exactly BlackHeight(t) Black nodes. */
  ghost predicate AllPathsBlack(t: Tree, n: nat)
  {
    match t
    case Leaf => n == 0
    case Node(c, _, l, r) =>
      var m := if c == Black then 1 else 0;
      n >= m && AllPathsBlack(l, n - m) && AllPathsBlack(r, n - m)
  }

  lemma {:induction false} BalancedAllPaths(t: Tree)
    requires Balanced(t)
    ensures AllPathsBlack(t, BlackHeight(t))
  {
    match t
    case Leaf =>
    case Node(c, _, l, r) =>
      BalancedAllPaths(l);
      BalancedAllPaths(r);
  }

  // ---------------------------------------------------------------------------
  // Rotations on the abstract tree
  // ---------------------------------------------------------------------------

  function RotateLeft(t: Tree): (r: Tree)
    requires t.Node? && t.right.Node?
    ensures InOrder(r) == InOrder(t)
  {
    Node(t.right.color, t.right.val, Node(t.color, t.val, t.left, t.right.left), t.right.right)
  }

  function RotateRight(t: Tree): (r: Tree)
    requires t.Node? && t.left.Node?
    ensures InOrder(r) == InOrder(t)
  {
    Node(t.left.color, t.left.val, t.left.left, Node(t.color, t.val, t.left.right, t.right))
  }

  /**
   * Rotations keep the sorted walk but not the strict search-tree ordering once equal
   * keys are present.  This is the state the fixup reaches on the third insertion of
   * 5 into an empty tree: the new 5 hangs to the right of the right child, and the
   * left rotation of the root moves the first 5 into the left subtree of another 5.
   */
  lemma RotationMovesEqualKeyLeft()
    ensures var t := Node(Red, 5, Leaf, Node(Black, 5, Leaf, Node(Red, 5, Leaf, Leaf)));
      SearchTree(t) && !SearchTree(RotateLeft(t)) && Ordered(RotateLeft(t))
  {
    var t := Node(Red, 5, Leaf, Node(Black, 5, Leaf, Node(Red, 5, Leaf, Leaf)));
    var u := RotateLeft(t);
    assert InOrder(u.left) == [5];
    assert 5 in InOrder(u.left);
    assert InOrder(u) == [5, 5, 5];
  }

  // ---------------------------------------------------------------------------
  // Placement of a new key (the descent of insertion, before any rebalancing)
  // ---------------------------------------------------------------------------

  /** Attach a Red leaf holding `v`: go left while the node's key is greater than `v`, else right. */
  function InsertLeaf(t: Tree, v: int): Tree
  {
    match t
    case Leaf => Node(Red, v, Leaf, Leaf)
    case Node(c, k, l, r) =>
      if k > v then Node(c, k, InsertLeaf(l, v), r) else Node(c, k, l, InsertLeaf(r, v))
  }

  lemma {:induction false} InsertLeafElements(t: Tree, v: int)
    ensures multiset(InOrder(InsertLeaf(t, v))) == multiset(InOrder(t)) + multiset{v}
  {
    match t
    case Leaf =>
    case Node(c, k, l, r) =>
      if k > v {
        InsertLeafElements(l, v);
        assert InOrder(InsertLeaf(t, v)) == InOrder(InsertLeaf(l, v)) + [k] + InOrder(r);
        assert multiset(InOrder(InsertLeaf(t, v)))
            == multiset(InOrder(InsertLeaf(l, v))) + multiset{k} + multiset(InOrder(r));
      } else {
        InsertLeafElements(r, v);
        assert InOrder(InsertLeaf(t, v)) == InOrder(l) + [k] + InOrder(InsertLeaf(r, v));
        assert multiset(InOrder(InsertLeaf(t, v)))
            == multiset(InOrder(l)) + multiset{k} + multiset(InOrder(InsertLeaf(r, v)));
      }
  }

  lemma {:induction false} InsertLeafMembers(t: Tree, v: int)
    ensures forall x :: x in InOrder(InsertLeaf(t, v)) <==> x in InOrder(t) || x == v
  {
    match t
    case Leaf =>
    case Node(c, k, l, r) =>
      if k > v {
        InsertLeafMembers(l, v);
      } else {
        InsertLeafMembers(r, v);
      }
  }

  lemma {:induction false} InsertLeafOrdered(t: Tree, v: int)
    requires Ordered(t)
    ensures Ordered(InsertLeaf(t, v))
  {
    match t
    case Leaf =>
    case Node(c, k, l, r) =>
      OrderedNodeSplit(c, k, l, r);
      if k > v {
        InsertLeafOrdered(l, v);
        InsertLeafMembers(l, v);
        OrderedNodeJoin(c, k, InsertLeaf(l, v), r);
      } else {
        InsertLeafOrdered(r, v);
        InsertLeafMembers(r, v);
        OrderedNodeJoin(c, k, l, InsertLeaf(r, v));
      }
  }

  /** The descent alone keeps the strict ordering: smaller keys left, equal and greater keys right. */
  lemma {:induction false} InsertLeafSearchTree(t: Tree, v: int)
    requires SearchTree(t)
    ensures SearchTree(InsertLeaf(t, v))
  {
    match t
    case Leaf =>
    case Node(c, k, l, r) =>
      if k > v {
        InsertLeafSearchTree(l, v);
        InsertLeafMembers(l, v);
      } else {
        InsertLeafSearchTree(r, v);
        InsertLeafMembers(r, v);
      }
  }

  // ---------------------------------------------------------------------------
  // Queries
  // ---------------------------------------------------------------------------

  /** Number of node levels on the longest downward path. */
  function Height(t: Tree): nat
  {
    match t
    case Leaf => 0
    case Node(_, _, l, r) => Max2(Height(l) + 1, Height(r) + 1)
  }

  function Max2(a: int, b: int): int
  {
    if a >= b then a else b
  }

  function Pow2(n: nat): nat
  {
    if n == 0 then 1 else 2 * Pow2(n - 1)
  }

  lemma {:induction false} Pow2Monotone(a: nat, b: nat)
    requires a <= b
    ensures Pow2(a) <= Pow2(b)
  {
    if a < b {
      Pow2Monotone(a, b - 1);
    }
  }

  lemma {:induction false} HeightByBlackHeight(t: Tree)
    requires NoRedRed(t) && Balanced(t)
    ensures Height(t) <= 2 * BlackHeight(t) + (if IsRedRooted(t) then 1 else 0)
  {
    match t
    case Leaf =>
    case Node(c, _, l, r) =>
      HeightByBlackHeight(l);
      HeightByBlackHeight(r);
  }

  lemma {:induction false} SizeByBlackHeight(t: Tree)
    requires Balanced(t)
    ensures Pow2(BlackHeight(t)) <= |InOrder(t)| + 1
  {
    match t
    case Leaf =>
    case Node(c, _, l, r) =>
      SizeByBlackHeight(l);
      SizeByBlackHeight(r);
  }

  lemma {:induction false} Pow2Add(a: nat, b: nat)
    ensures Pow2(a + b) == Pow2(a) * Pow2(b)
  {
    if a > 0 {
      Pow2Add(a - 1, b);
    }
  }

  /** A red-black tree with n keys has height h with 2^h <= (n + 1)^2, that is h <= 2 log2(n + 1). */
  lemma HeightBound(t: Tree)
    requires IsRedBlack(t)
    ensures Pow2(Height(t)) <= (|InOrder(t)| + 1) * (|InOrder(t)| + 1)
  {
    var b := BlackHeight(t);
    HeightByBlackHeight(t);
    SizeByBlackHeight(t);
    Pow2Monotone(Height(t), b + b);
    Pow2Add(b, b);
    SquareMonotone(Pow2(b), |InOrder(t)| + 1);
  }

  lemma SquareMonotone(a: nat, b: nat)
    requires a <= b
    ensures a * a <= b * b
  {
    assert a * a <= a * b by { MulLeft(a, a, b); }
    assert a * b <= b * b by { MulLeft(b, a, b); }
  }

  lemma {:induction false} MulLeft(k: nat, a: nat, b: nat)
    requires a <= b
    ensures k * a <= k * b
  {
    if k > 0 {
      MulLeft(k - 1, a, b);
    }
  }
}
