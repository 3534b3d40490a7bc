/**
 * The red-black tree object: an arena of nodes (colour, value and the three
 * links at each index, -1 for null) and the index of the root. The ghost
 * `shape` says which node sits where, and the ghost `bh` records each node's
 * black height, so that the invariants can be stated node by node and lifted
 * to the abstract Tree of module Trees.
 */
module RBT {
  import opened Trees
  import opened Arena
  import opened Fixup

  class RedBlackTrees {
    var color: seq<Color>
    var val: seq<int>
    var left: seq<int>
    var right: seq<int>
    var parent: seq<int>
    var root: int
    ghost var shape: Shape
    ghost var bh: seq<nat>

    /** The arena is a tree: the links agree with `shape`, which uses every index once. */
    ghost predicate WellFormed()
      reads this
    {
      Shaped(shape, color, val, left, right, parent, bh, root)
    }

    /** The tree the arena denotes. */
    ghost function Abstract(): Tree
      reads this
    {
      Abs(shape, color, val)
    }

    /** The values in the order the sorted walk visits them. */
    ghost function Values(): seq<int>
      reads this
    {
      InOrder(Abstract())
    }

    /** The invariant Insert keeps: a well-formed, ordered red-black tree. */
    ghost predicate Valid()
      reads this
    {
      && Settled(shape, color, val, left, right, parent, bh, root)
      && !IsRed(color, root)
      && Sorted(Values())
    }

    constructor ()
      ensures Valid() && Abstract() == Leaf && root == -1 && val == []
    {
      color, val, left, right, parent := [], [], [], [], [];
      root := -1;
      shape := Nil;
      bh := [];
    }

    /** A valid object denotes an ordered red-black tree. */
    lemma ValidIsRedBlack()
      requires Valid()
      ensures IsRedBlack(Abstract()) && Ordered(Abstract())
      ensures AllPathsBlack(Abstract(), BlackHeight(Abstract()))
    {
      LocalToGlobal(shape, -1, left, right, parent, color, val, bh);
      BalancedAllPaths(Abstract());
    }

    /** Rotate left at `x`: its right child takes its place and `x` becomes that child's left child. */
    method LeftRotate(x: int)
      requires WellFormed() && 0 <= x < |val| && right[x] != -1
      modifies this
      ensures WellFormed()
      ensures (left, right, parent) == RotatedLeft(old(left), old(right), old(parent), x)
      ensures root == if old(parent[x]) == -1 then old(right[x]) else old(root)
      ensures color == old(color) && val == old(val) && bh == old(bh)
      ensures shape == Replace(old(shape), x, RotL(Sub(old(shape), x)))
      ensures Values() == old(Values())
      ensures old(Below(x)).Node? && old(Below(x)).right.Node? && Below(old(right[x])) == RotateLeft(old(Below(x)))
    {
      hide ArenaTree, InOrder, Abs, Sub, Replace, RotL, RotR, InOrderIds;
      ghost var L, R, P, s := left, right, parent, shape;
      RotateLeftInArena(shape, left, right, parent, x);
      var X := right[x];
      var Y := left[X];
      left := left[X := x];
      right := right[x := Y];
      parent := parent[X := parent[x]];
      if parent[x] == -1 {
        root := X;
      } else if x == left[parent[x]] {
        left := left[parent[x] := X];
      } else {
        right := right[parent[x] := X];
      }
      parent := parent[x := X];
      if Y != -1 {
        parent := parent[Y := x];
      }
      RotateLeftArena(s, L, R, P, x, left, right, parent);
      shape := Replace(s, x, RotL(Sub(s, x)));
      SameWalk(s, color, shape, color, val);
      RotateLeftBelow(s, L, R, P, x, color, val);
    }

    /** Rotate right at `x`: its left child takes its place and `x` becomes that child's right child. */
    method RightRotate(x: int)
      requires WellFormed() && 0 <= x < |val| && left[x] != -1
      modifies this
      ensures WellFormed()
      ensures (left, right, parent) == RotatedRight(old(left), old(right), old(parent), x)
      ensures root == if old(parent[x]) == -1 then old(left[x]) else old(root)
      ensures color == old(color) && val == old(val) && bh == old(bh)
      ensures shape == Replace(old(shape), x, RotR(Sub(old(shape), x)))
      ensures Values() == old(Values())
      ensures old(Below(x)).Node? && old(Below(x)).left.Node? && Below(old(left[x])) == RotateRight(old(Below(x)))
    {
      hide ArenaTree, InOrder, Abs, Sub, Replace, RotL, RotR, InOrderIds;
      ghost var L, R, P, s := left, right, parent, shape;
      RotateRightInArena(shape, left, right, parent, x);
      var X := left[x];
      var Y := right[X];
      right := right[X := x];
      left := left[x := Y];
      parent := parent[X := parent[x]];
      if parent[x] == -1 {
        root := X;
      } else if x == left[parent[x]] {
        left := left[parent[x] := X];
      } else {
        right := right[parent[x] := X];
      }
      parent := parent[x := X];
      if Y != -1 {
        parent := parent[Y := x];
      }
      RotateRightArena(s, L, R, P, x, left, right, parent);
      shape := Replace(s, x, RotR(Sub(s, x)));
      SameWalk(s, color, shape, color, val);
      RotateRightBelow(s, L, R, P, x, color, val);
    }

    /**
     * The descent of insertUtil: walk from `node` towards `value` as a search
     * would, and return the last node visited, the parent of the new leaf.
     */
    method FindParent(node: int, value: int) returns (y: int)
      requires WellFormed() && node == root && node != -1
      ensures 0 <= y < |val| && y == InsParent(shape, val, value)
      ensures if val[y] > value then left[y] == -1 else right[y] == -1
    {
      hide ArenaTree, Sub, Size, InsParent;
      DescentStart(shape, color, val, left, right, parent, bh, root, value);
      var x := node;
      y := -1;
      while x != -1
        invariant -1 <= x < |val| && -1 <= y < |val|
        invariant x != -1 ==> InsParent(Sub(shape, x), val, value) == InsParent(shape, val, value)
        invariant x == -1 ==> y != -1 && y == InsParent(shape, val, value)
        invariant x == -1 ==> if val[y] > value then left[y] == -1 else right[y] == -1
        decreases if x == -1 then 0 else Size(Sub(shape, x)) + 1
      {
        DescentStep(shape, color, val, left, right, parent, bh, root, value, x);
        y := x;
        if val[x] > value {
          x := left[x];
        } else {
          x := right[x];
        }
      }
    }

    /**
     * Attach a new Red node holding `value` as the child of `y` on the side the
     * descent left the tree; the new node's index is the old number of nodes.
     */
    method Attach(y: int, value: int) returns (z: int)
      requires Valid() && root != -1 && 0 <= y < |val| && y == InsParent(shape, val, value)
      modifies this
      ensures z == old(|val|) && val == old(val) + [value] && |parent| == |val| && parent[z] == y
      ensures Repairing(shape, color, val, left, right, parent, bh, root, z) && Sorted(Values())
      ensures parent[y] == -1 <==> y == root
      ensures multiset(Values()) == multiset(old(Values())) + multiset{value}
      ensures InsertLeaf(old(Abstract()), value) == Abstract()
      ensures color == old(color) + [Red] && shape == InsShape(old(shape), old(val), value, z)
      ensures left == if old(val[y]) > value then (old(left) + [-1])[y := z] else old(left) + [-1]
      ensures right == if old(val[y]) > value then old(right) + [-1] else (old(right) + [-1])[y := z]
      ensures parent == (old(parent) + [-1])[z := y]
    {
      hide ArenaTree, LocallyBalanced, RedRedFreeExcept, Sorted, InOrder, Abs, Sub, Size, InsParent, InsShape, InsertLeaf,
        Repairing;
      ghost var s, C, V := shape, color, val;
      AttachCase(shape, color, val, left, right, parent, bh, root, value, y);
      z := |val|;
      color, val := color + [Red], val + [value];
      left, right, parent := left + [-1], right + [-1], parent + [-1];
      bh := bh + [0];
      parent := parent[z := y];
      if val[y] > value {
        left := left[y := z];
      } else {
        right := right[y := z];
      }
      shape := InsShape(s, V, value, z);
      InsertLeafOrdered(Abs(s, C, V), value);
      InsertLeafElements(Abs(s, C, V), value);
    }

    /**
     * Insertion below `node`, which is the root: find where a search for `value`
     * leaves the tree, attach a new Red node there, and repair a Red parent.
     */
    method InsertUtil(node: int, value: int)
      requires Valid() && node == root
      modifies this
      ensures Valid()
      ensures node == -1 ==> color == old(color) && val == old(val) && shape == old(shape)
      ensures node == -1 ==> left == old(left) && right == old(right) && parent == old(parent)
      ensures node != -1 ==> val == old(val) + [value]
      ensures node != -1 ==> multiset(Values()) == multiset(old(Values())) + multiset{value}
    {
      if node == -1 {
        return;
      }
      hide ArenaTree, LocallyBalanced, RedRedFreeExcept, Sorted, InOrder, Abs, Sub, Size, InsParent, InsShape, InsertLeaf,
        Repairing;
      var y := FindParent(node, value);
      var z := Attach(y, value);
      assert parent[z] != -1;
      if parent[parent[z]] == -1 {
        ResolvedCase(shape, color, val, left, right, parent, bh, root, z);
        return;
      }
      HandleRedRedConflict(z);
    }

    /** What the repair loop keeps: `node` is the one Red node that may have a Red parent. */
    ghost predicate Fixing(node: int)
      reads this
    {
      && Repairing(shape, color, val, left, right, parent, bh, root, node)
      && |color| == |val| == |left| == |right| == |parent| == |bh|
      && 0 <= node < |parent| && 0 <= parent[node] < |color| && node != root
    }

    /**
     * One round of the repair when the parent of `node` is Red and a left child:
     * recolour if the uncle is as Red as the parent and continue from the
     * grandparent, otherwise rotate (twice for a zig-zag), which ends the conflict.
     */
    method RepairLeftParent(node: int) returns (next: int)
      requires Fixing(node) && IsRed(color, parent[node])
      requires 0 <= parent[parent[node]] < |left| && left[parent[parent[node]]] == parent[node]
      modifies this
      ensures val == old(val) && InOrderIds(shape) == InOrderIds(old(shape))
      ensures (old(right[parent[parent[node]]]) != -1 && old(color[parent[node]] == color[right[parent[parent[node]]]])) ==>
                next == old(parent[parent[node]])
                && color == old(color[right[parent[parent[node]]] := Black][parent[node] := Black][parent[parent[node]] := Red])
                && left == old(left) && right == old(right) && parent == old(parent) && shape == old(shape) && root == old(root)
      ensures !(old(right[parent[parent[node]]]) != -1 && old(color[parent[node]] == color[right[parent[parent[node]]]])) ==>
                next != root && 0 <= next < |parent| && 0 <= parent[next] < |color| && !IsRed(color, parent[next])
                && next == (if old(right[parent[node]]) == node then old(parent[node]) else node)
                && color == old(color)[(if old(right[parent[node]]) == node then node else old(parent[node])) := Black][old(parent[parent[node]]) := Red]
                && (var s0, p0, g0 := old(shape), old(parent[node]), old(parent[parent[node]]);
                    var s1 := if old(right[parent[node]]) == node then Replace(s0, p0, RotL(Sub(s0, p0))) else s0;
                    shape == Replace(s1, g0, RotR(Sub(s1, g0))))
      ensures next == root ==> Settled(shape, color, val, left, right, parent, bh, root) && 0 <= root < |left|
      ensures next != root ==> Fixing(next)
      ensures next != root && IsRed(color, parent[next]) ==>
                0 <= Size(shape) - Size(Sub(shape, next)) < old(Size(shape) - Size(Sub(shape, node)))
    {
      hide ArenaTree, LocallyBalanced, RedRedFreeExcept, Sorted, InOrder, Abs, Sub, Size, Replace, RotL, RotR,
        InOrderIds, RotatedLeft, RotatedRight, Settled, Repairing, LeftLeftConflict, RightRightConflict;
      ConflictFacts(shape, color, val, left, right, parent, bh, root, node);
      next := node;
      var uncle := right[parent[parent[next]]];
      if uncle != -1 && color[parent[next]] == color[uncle] {
        ghost var g := parent[parent[next]];
        RecolorCase(shape, color, val, left, right, parent, bh, root, next, parent[next], g, uncle);
        color := color[uncle := Black];
        color := color[parent[next] := Black];
        color := color[parent[parent[next]] := Red];
        bh := bh[g := bh[g] + 1];
        next := parent[parent[next]];
      } else {
        next := RotateAtLeftParent(node);
      }
    }

    /**
     * The rotation case of the repair, for a Red parent whose uncle is absent or Black,
     * when its parent is a left child: a left rotation at the parent first when the node is a right child,
     * then the parent painted Black, the grandparent Red and a right rotation at the grandparent.
     */
    method RotateAtLeftParent(node: int) returns (next: int)
      requires Fixing(node) && IsRed(color, parent[node])
      requires 0 <= parent[parent[node]] < |left| && left[parent[parent[node]]] == parent[node]
      requires !(right[parent[parent[node]]] != -1 && color[parent[node]] == color[right[parent[parent[node]]]])
      modifies this
      ensures val == old(val) && InOrderIds(shape) == InOrderIds(old(shape))
      ensures Fixing(next) && !IsRed(color, parent[next])
      ensures next == (if old(right[parent[node]]) == node then old(parent[node]) else node)
      ensures color == old(color)[(if old(right[parent[node]]) == node then node else old(parent[node])) := Black][old(parent[parent[node]]) := Red]
      ensures var s0, p0, g0 := old(shape), old(parent[node]), old(parent[parent[node]]);
              var s1 := if old(right[parent[node]]) == node then Replace(s0, p0, RotL(Sub(s0, p0))) else s0;
              shape == Replace(s1, g0, RotR(Sub(s1, g0)))
    {
      hide ArenaTree, LocallyBalanced, RedRedFreeExcept, Sorted, InOrder, Abs, Sub, Size, Replace, RotL, RotR,
        InOrderIds, RotatedLeft, RotatedRight, Settled, Repairing, LeftLeftConflict, RightRightConflict;
      ConflictFacts(shape, color, val, left, right, parent, bh, root, node);
      next := node;
      if right[parent[next]] == next {
        ZigZagLeftCase(shape, color, val, left, right, parent, bh, root, next, parent[next]);
        next := parent[next];
        LeftRotate(next);
      } else {
        LeftLeftDirect(shape, color, val, left, right, parent, bh, root, next);
      }
      ZigZigLeftCase(shape, color, val, left, right, parent, bh, root, next, parent[parent[next]]);
      color := color[parent[next] := Black];
      color := color[parent[parent[next]] := Red];
      RightRotate(parent[parent[next]]);
    }

    /** The mirror image of RepairLeftParent, for a parent that is a right child. */
    method RepairRightParent(node: int) returns (next: int)
      requires Fixing(node) && IsRed(color, parent[node])
      requires 0 <= parent[parent[node]] < |left| && left[parent[parent[node]]] != parent[node]
      modifies this
      ensures val == old(val) && InOrderIds(shape) == InOrderIds(old(shape))
      ensures (old(left[parent[parent[node]]]) != -1 && old(color[parent[node]] == color[left[parent[parent[node]]]])) ==>
                next == old(parent[parent[node]])
                && color == old(color[left[parent[parent[node]]] := Black][parent[node] := Black][parent[parent[node]] := Red])
                && left == old(left) && right == old(right) && parent == old(parent) && shape == old(shape) && root == old(root)
      ensures !(old(left[parent[parent[node]]]) != -1 && old(color[parent[node]] == color[left[parent[parent[node]]]])) ==>
                next != root && 0 <= next < |parent| && 0 <= parent[next] < |color| && !IsRed(color, parent[next])
                && next == (if old(left[parent[node]]) == node then old(parent[node]) else node)
                && color == old(color)[(if old(left[parent[node]]) == node then node else old(parent[node])) := Black][old(parent[parent[node]]) := Red]
                && (var s0, p0, g0 := old(shape), old(parent[node]), old(parent[parent[node]]);
                    var s1 := if old(left[parent[node]]) == node then Replace(s0, p0, RotR(Sub(s0, p0))) else s0;
                    shape == Replace(s1, g0, RotL(Sub(s1, g0))))
      ensures next == root ==> Settled(shape, color, val, left, right, parent, bh, root) && 0 <= root < |left|
      ensures next != root ==> Fixing(next)
      ensures next != root && IsRed(color, parent[next]) ==>
                0 <= Size(shape) - Size(Sub(shape, next)) < old(Size(shape) - Size(Sub(shape, node)))
    {
      hide ArenaTree, LocallyBalanced, RedRedFreeExcept, Sorted, InOrder, Abs, Sub, Size, Replace, RotL, RotR,
        InOrderIds, RotatedLeft, RotatedRight, Settled, Repairing, LeftLeftConflict, RightRightConflict;
      ConflictFacts(shape, color, val, left, right, parent, bh, root, node);
      next := node;
      var uncle := left[parent[parent[next]]];
      if uncle != -1 && color[parent[next]] == color[uncle] {
        ghost var g := parent[parent[next]];
        RecolorCase(shape, color, val, left, right, parent, bh, root, next, parent[next], g, uncle);
        color := color[uncle := Black];
        color := color[parent[next] := Black];
        color := color[parent[parent[next]] := Red];
        bh := bh[g := bh[g] + 1];
        next := parent[parent[next]];
      } else {
        next := RotateAtRightParent(node);
      }
    }

    /**
     * The rotation case of the repair, for a Red parent whose uncle is absent or Black,
     * when its parent is a right child: the mirror image of RotateAtLeftParent.
     */
    method RotateAtRightParent(node: int) returns (next: int)
      requires Fixing(node) && IsRed(color, parent[node])
      requires 0 <= parent[parent[node]] < |left| && left[parent[parent[node]]] != parent[node]
      requires !(left[parent[parent[node]]] != -1 && color[parent[node]] == color[left[parent[parent[node]]]])
      modifies this
      ensures val == old(val) && InOrderIds(shape) == InOrderIds(old(shape))
      ensures Fixing(next) && !IsRed(color, parent[next])
      ensures next == (if old(left[parent[node]]) == node then old(parent[node]) else node)
      ensures color == old(color)[(if old(left[parent[node]]) == node then node else old(parent[node])) := Black][old(parent[parent[node]]) := Red]
      ensures var s0, p0, g0 := old(shape), old(parent[node]), old(parent[parent[node]]);
              var s1 := if old(left[parent[node]]) == node then Replace(s0, p0, RotR(Sub(s0, p0))) else s0;
              shape == Replace(s1, g0, RotL(Sub(s1, g0)))
    {
      hide ArenaTree, LocallyBalanced, RedRedFreeExcept, Sorted, InOrder, Abs, Sub, Size, Replace, RotL, RotR,
        InOrderIds, RotatedLeft, RotatedRight, Settled, Repairing, LeftLeftConflict, RightRightConflict;
      ConflictFacts(shape, color, val, left, right, parent, bh, root, node);
      next := node;
      if left[parent[next]] == next {
        ZigZagRightCase(shape, color, val, left, right, parent, bh, root, next, parent[next]);
        next := parent[next];
        RightRotate(next);
      } else {
        RightRightDirect(shape, color, val, left, right, parent, bh, root, next);
      }
      ZigZigRightCase(shape, color, val, left, right, parent, bh, root, next, parent[parent[next]]);
      color := color[parent[next] := Black];
      color := color[parent[parent[next]] := Red];
      LeftRotate(parent[parent[next]]);
    }

    /**
     * Repair after attaching the Red node `z`: while the node in conflict has a
     * Red parent, handle the side its parent hangs on, stopping at the root;
     * finally paint the root Black.
     */
    method HandleRedRedConflict(z: int)
      requires Repairing(shape, color, val, left, right, parent, bh, root, z) && Sorted(Values())
      modifies this
      ensures Valid()
      ensures val == old(val) && Values() == old(Values())
    {
      hide ArenaTree, LocallyBalanced, RedRedFreeExcept, Sorted, InOrder, Abs, Sub, Size, InOrderIds,
        Settled, Repairing;
      var node := z;
      RepairingParent(shape, color, val, left, right, parent, bh, root, node);
      while color[parent[node]] == Red
        invariant Fixing(node)
        invariant val == old(val) && InOrderIds(shape) == InOrderIds(old(shape))
        decreases (if IsRed(color, parent[node]) then 1 else 0), Size(shape) - Size(Sub(shape, node))
      {
        ConflictFacts(shape, color, val, left, right, parent, bh, root, node);
        if left[parent[parent[node]]] == parent[node] {
          node := RepairLeftParent(node);
        } else {
          node := RepairRightParent(node);
        }
        if node == root {
          break;
        }
      }
      if node != root {
        ResolvedCase(shape, color, val, left, right, parent, bh, root, node);
      }
      BlackenRootCase(shape, color, val, left, right, parent, bh, root);
      color := color[root := Black];
      SameWalk(old(shape), old(color), shape, color, val);
    }

    /** Insert `value`: an empty tree gets a single Black node, otherwise insertUtil does the work. */
    method Insert(value: int)
      requires Valid()
      modifies this
      ensures Valid()
      ensures val == old(val) + [value]
      ensures multiset(Values()) == multiset(old(Values())) + multiset{value}
      ensures old(root) == -1 ==> root == 0 && color == [Black] && left == [-1] && right == [-1] && parent == [-1]
    {
      if root == -1 {
        EmptyWhenNoRoot();
        var temp := |val|;
        color, val := color + [Red], val + [value];
        left, right, parent := left + [-1], right + [-1], parent + [-1];
        color := color[temp := Black];
        root := temp;
        bh := bh + [0];
        shape := Br(Nil, temp, Nil);
        assert temp == 0 && color == [Black] && val == [value] && bh == [0];
        assert left == [-1] && right == [-1] && parent == [-1];
        SingleNode(value);
      } else {
        InsertUtil(root, value);
      }
    }

    /** Without a root the arena holds no node. */
    lemma EmptyWhenNoRoot()
      requires WellFormed() && root == -1
      ensures shape == Nil && val == [] && color == [] && bh == []
      ensures left == [] && right == [] && parent == []
    {
      EmptyShape(shape, left, right, parent);
    }

    // -------------------------------------------------------------------------
    // Read-only queries
    // -------------------------------------------------------------------------

    /** The tree hanging from arena index `x`; Leaf for -1. */
    ghost function Below(x: int): Tree
      reads this
    {
      Abs(Sub(shape, x), color, val)
    }

    /** One level of the tree below `x`: the node itself over the trees below its two children. */
    lemma BelowAt(x: int)
      requires WellFormed() && -1 <= x < |val|
      ensures Sub(shape, -1) == Nil && Below(-1) == Leaf
      ensures x != -1 ==> && -1 <= left[x] < |val| && -1 <= right[x] < |val|
                          && Sub(shape, x) == Br(Sub(shape, left[x]), x, Sub(shape, right[x]))
                          && Below(x) == Node(color[x], val[x], Below(left[x]), Below(right[x]))
    {
      SubTop(shape, left, right, parent);
      if x != -1 {
        SubAt(shape, left, right, parent, x);
      }
    }

    /** search: from `x`, stop at an equal value, else go left when the node's value is greater. */
    function Search(x: int, value: int): (found: bool)
      reads this
      requires WellFormed() && -1 <= x < |val|
      ensures Ordered(Below(x)) ==> (found <==> value in InOrder(Below(x)))
      decreases Size(Sub(shape, x))
    {
      BelowAt(x);
      if x == -1 then false
      else
        OrderedParts(color[x], val[x], Below(left[x]), Below(right[x]));
        if val[x] == value then true
        else if val[x] > value then Search(left[x], value)
        else Search(right[x], value)
    }

    /** On a valid tree, search from the root finds exactly the stored values. */
    lemma SearchFindsStored(value: int)
      requires Valid()
      ensures Search(root, value) <==> value in Values()
    {
      SubTop(shape, left, right, parent);
    }

    /** min: the leftmost node below `x`, the first of its subtree in the sorted walk. */
    function Min(x: int): (m: int)
      reads this
      requires WellFormed() && -1 <= x < |val|
      ensures -1 <= m < |val| && (m == -1 <==> x == -1)
      ensures m != -1 ==> left[m] == -1 && IsFirst(InOrderIds(Sub(shape, x)), m)
      decreases Size(Sub(shape, x))
    {
      BelowAt(x);
      if x == -1 then -1
      else if left[x] == -1 then x
      else Min(left[x])
    }

    /** max: the rightmost node below `x`, the last of its subtree in the sorted walk. */
    function Max(x: int): (m: int)
      reads this
      requires WellFormed() && -1 <= x < |val|
      ensures -1 <= m < |val| && (m == -1 <==> x == -1)
      ensures m != -1 ==> right[m] == -1 && IsLast(InOrderIds(Sub(shape, x)), m)
      decreases Size(Sub(shape, x))
    {
      BelowAt(x);
      if x == -1 then -1
      else if right[x] == -1 then x
      else Max(right[x])
    }

    /** On a valid non-empty tree, min and max from the root hold the least and the greatest value. */
    lemma MinMaxAreExtremes()
      requires Valid() && root != -1
      ensures 0 <= Min(root) < |val| && 0 <= Max(root) < |val|
      ensures |Values()| > 0 && val[Min(root)] == Values()[0] && val[Max(root)] == Values()[|Values()| - 1]
      ensures forall v :: v in Values() ==> val[Min(root)] <= v <= val[Max(root)]
    {
      SubTop(shape, left, right, parent);
      AbsInOrder(shape, color, val);
      var q := InOrderIds(shape);
      assert ValAt(val, q[0]) == val[Min(root)];
      assert ValAt(val, q[|q| - 1]) == val[Max(root)];
      var w := Values();
      forall v | v in w ensures w[0] <= v <= w[|w| - 1] {
        var i :| 0 <= i < |w| && w[i] == v;
        assert w[0] <= w[i] <= w[|w| - 1];
      }
    }

    /** height: the number of node levels on the longest downward path from `x`. */
    function Height(x: int): (h: nat)
      reads this
      requires WellFormed() && -1 <= x < |val|
      ensures h == Trees.Height(Below(x))
      decreases Size(Sub(shape, x))
    {
      BelowAt(x);
      if x == -1 then 0
      else Max2(Height(left[x]) + 1, Height(right[x]) + 1)
    }

    /** A valid tree is balanced: its height is at most about twice the logarithm of its size. */
    lemma HeightLogarithmic()
      requires Valid()
      ensures Pow2(Height(root)) <= (|Values()| + 1) * (|Values()| + 1)
    {
      ValidIsRedBlack();
      SubTop(shape, left, right, parent);
      HeightBound(Abstract());
    }

    /** Sort: the values below `x` in the order the in-order walk prints them. */
    function Sort(x: int): (walk: seq<int>)
      reads this
      requires WellFormed() && -1 <= x < |val|
      ensures walk == InOrder(Below(x))
      decreases Size(Sub(shape, x))
    {
      BelowAt(x);
      if x == -1 then []
      else Sort(left[x]) + [val[x]] + Sort(right[x])
    }

    /** On a valid tree, Sort from the root prints the stored values in ascending order. */
    lemma SortIsAscending()
      requires Valid()
      ensures Sort(root) == Values() && Sorted(Sort(root))
    {
      SubTop(shape, left, right, parent);
    }

    /** The parent of a non-root node sits above it, with the node as one of its children. */
    lemma ParentAbove(c: int)
      requires WellFormed() && 0 <= c < |val|
      ensures -1 <= parent[c] < |val|
      ensures parent[c] != -1 ==> left[parent[c]] == c || right[parent[c]] == c
      ensures parent[c] != -1 ==> Size(Sub(shape, c)) < Size(Sub(shape, parent[c])) <= Size(shape)
    {
      if parent[c] != -1 {
        assert c in Ids(shape) && c != Id(shape);
        ParentSub(shape, c, -1, left, right, parent);
        SubFacts(shape, parent[c], -1, left, right, parent);
      }
    }

    /**
     * successor: the node after `x` in the sorted walk, or -1 when `x` is last.
     * With a right subtree it is that subtree's minimum; otherwise climb while
     * coming from a right child, and the first ancestor reached from the left follows.
     */
    method Successor(x: int) returns (y: int)
      requires WellFormed() && 0 <= x < |val|
      ensures -1 <= y < |val|
      ensures y == -1 <==> IsLast(InOrderIds(shape), x)
      ensures y != -1 ==> Follows(InOrderIds(shape), x, y)
    {
      hide InOrderIds, Sub, Size, ArenaTree;
      ghost var A, B := WalkAt(shape, left, right, parent, x);
      if right[x] != -1 {
        y := Min(right[x]);
        FollowsBeforeBlock(InOrderIds(shape), A + InOrderIds(Sub(shape, left[x])), x,
                           InOrderIds(Sub(shape, right[x])), B, y);
        FollowedIsNotLast(shape, left, right, parent, x, y);
        return;
      }
      OwnWalkEnds(shape, left, right, parent, x);
      var c := x;
      ParentAbove(c);
      y := parent[x];
      while y != -1 && c == right[y]
        invariant 0 <= c < |val| && -1 <= y < |val| && y == parent[c]
        invariant IsLast(InOrderIds(Sub(shape, c)), x)
        decreases Size(shape) - Size(Sub(shape, c))
      {
        ParentAbove(c);
        LastOfRight(shape, left, right, parent, y, x);
        c := y;
        ParentAbove(c);
        y := parent[y];
      }
      if y == -1 {
        RootOf(c);
      } else {
        ParentAbove(c);
        A, B := WalkAt(shape, left, right, parent, y);
        FollowsAfterBlock(InOrderIds(shape), A, InOrderIds(Sub(shape, c)), y,
                          InOrderIds(Sub(shape, right[y])) + B, x);
        FollowedIsNotLast(shape, left, right, parent, x, y);
      }
    }

    /**
     * predecessor: the node before `x` in the sorted walk, or -1 when `x` is first;
     * the mirror image of Successor.
     */
    method Predecessor(x: int) returns (y: int)
      requires WellFormed() && 0 <= x < |val|
      ensures -1 <= y < |val|
      ensures y == -1 <==> IsFirst(InOrderIds(shape), x)
      ensures y != -1 ==> Follows(InOrderIds(shape), y, x)
    {
      hide InOrderIds, Sub, Size, ArenaTree;
      ghost var A, B := WalkAt(shape, left, right, parent, x);
      if left[x] != -1 {
        y := Max(left[x]);
        FollowsAfterBlock(InOrderIds(shape), A, InOrderIds(Sub(shape, left[x])), x,
                          InOrderIds(Sub(shape, right[x])) + B, y);
        FollowerIsNotFirst(shape, left, right, parent, y, x);
        return;
      }
      OwnWalkEnds(shape, left, right, parent, x);
      var c := x;
      ParentAbove(c);
      y := parent[x];
      while y != -1 && c == left[y]
        invariant 0 <= c < |val| && -1 <= y < |val| && y == parent[c]
        invariant IsFirst(InOrderIds(Sub(shape, c)), x)
        decreases Size(shape) - Size(Sub(shape, c))
      {
        ParentAbove(c);
        FirstOfLeft(shape, left, right, parent, y, x);
        c := y;
        ParentAbove(c);
        y := parent[y];
      }
      if y == -1 {
        RootOf(c);
      } else {
        ParentAbove(c);
        A, B := WalkAt(shape, left, right, parent, y);
        FollowsBeforeBlock(InOrderIds(shape), A + InOrderIds(Sub(shape, left[y])), y,
                           InOrderIds(Sub(shape, c)), B, x);
        FollowerIsNotFirst(shape, left, right, parent, y, x);
      }
    }

    /** A node without a parent is the root, whose subtree is the whole tree. */
    lemma RootOf(c: int)
      requires WellFormed() && 0 <= c < |val| && parent[c] == -1
      ensures Sub(shape, c) == shape
    {
      SubTop(shape, left, right, parent);
    }
  }
}
