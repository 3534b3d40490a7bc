/**
 * The node graph of the tree, kept as an arena: node `i` has its children and
 * parent stored at index `i` of the sequences L, R and P, with -1 standing for
 * an absent node.  A ghost Shape (a binary tree of node ids) says which ids sit
 * where; Linked ties the three link sequences to it.  Everything here is a
 * value-level fact about sequences, so that the class in module RBT can use it
 * on its fields before and after an update.
 */
module Arena {
  import opened Trees

  datatype Shape = Nil | Br(left: Shape, id: int, right: Shape)

  function Id(s: Shape): int
  {
    if s.Nil? then -1 else s.id
  }

  function Ids(s: Shape): set<int>
  {
    match s
    case Nil => {}
    case Br(l, i, r) => Ids(l) + {i} + Ids(r)
  }

  function Size(s: Shape): nat
  {
    match s
    case Nil => 0
    case Br(l, _, r) => Size(l) + 1 + Size(r)
  }

  /** Each id occurs once in the shape. */
  ghost predicate Distinct(s: Shape)
  {
    match s
    case Nil => true
    case Br(l, i, r) =>
      && Distinct(l) && Distinct(r)
      && i !in Ids(l) && i !in Ids(r) && Ids(l) !! Ids(r)
  }

  /**
   * The links of every node in `s` agree with the shape: its left and right
   * entries name its children in `s` (or -1), and its parent entry names the
   * node above it, `p` for the top of `s`.
   */
  ghost predicate Linked(s: Shape, p: int, L: seq<int>, R: seq<int>, P: seq<int>)
  {
    match s
    case Nil => true
    case Br(l, i, r) =>
      && 0 <= i < |L| && i < |R| && i < |P|
      && L[i] == Id(l) && R[i] == Id(r) && P[i] == p
      && Linked(l, i, L, R, P) && Linked(r, i, L, R, P)
  }

  /** The subtree whose top node is `x` (Nil when `x` does not occur). */
  function Sub(s: Shape, x: int): Shape
  {
    match s
    case Nil => Nil
    case Br(l, i, r) =>
      if i == x then s else if x in Ids(l) then Sub(l, x) else Sub(r, x)
  }

  /** `s` with the subtree whose top node is `x` replaced by `t`. */
  function Replace(s: Shape, x: int, t: Shape): Shape
  {
    match s
    case Nil => Nil
    case Br(l, i, r) =>
      if i == x then t
      else if x in Ids(l) then Br(Replace(l, x, t), i, r)
      else if x in Ids(r) then Br(l, i, Replace(r, x, t))
      else s
  }

  /** Node ids in the order of the sorted walk. */
  function InOrderIds(s: Shape): seq<int>
  {
    match s
    case Nil => []
    case Br(l, i, r) => InOrderIds(l) + [i] + InOrderIds(r)
  }

  ghost predicate NoDuplicates(q: seq<int>)
  {
    forall i, j :: 0 <= i < j < |q| ==> q[i] != q[j]
  }

  /** The shape of a left rotation: the right child is promoted over its parent. */
  function RotL(t: Shape): Shape
  {
    if t.Br? && t.right.Br? then Br(Br(t.left, t.id, t.right.left), t.right.id, t.right.right) else t
  }

  /** The shape of a right rotation: the left child is promoted over its parent. */
  function RotR(t: Shape): Shape
  {
    if t.Br? && t.left.Br? then Br(t.left.left, t.left.id, Br(t.left.right, t.id, t.right)) else t
  }

  // ---------------------------------------------------------------------------
  // Basic facts about linked shapes
  // ---------------------------------------------------------------------------

  lemma {:induction false} InOrderIdsFacts(s: Shape)
    requires Distinct(s)
    ensures forall i :: i in InOrderIds(s) <==> i in Ids(s)
    ensures NoDuplicates(InOrderIds(s))
    ensures |InOrderIds(s)| == Size(s)
  {
    match s
    case Nil =>
    case Br(l, i, r) =>
      InOrderIdsFacts(l);
      InOrderIdsFacts(r);
      var a, b := InOrderIds(l), InOrderIds(r);
      var q := InOrderIds(s);
      assert q == a + [i] + b;
      forall m, n | 0 <= m < n < |q| ensures q[m] != q[n] {
        if n < |a| {
          assert q[m] == a[m] && q[n] == a[n];
        } else if m > |a| {
          assert q[m] == b[m - |a| - 1] && q[n] == b[n - |a| - 1];
        } else {
          if m < |a| {
            assert q[m] == a[m] && a[m] in a;
          }
          if n > |a| {
            assert q[n] == b[n - |a| - 1] && b[n - |a| - 1] in b;
          }
        }
      }
  }

  lemma {:induction false} LinkedFacts(s: Shape, p: int, L: seq<int>, R: seq<int>, P: seq<int>)
    requires Linked(s, p, L, R, P) && Distinct(s) && p !in Ids(s)
    ensures forall i :: i in Ids(s) ==> 0 <= i < |L| && i < |R| && i < |P|
    ensures forall i :: i in Ids(s) && L[i] != -1 ==> L[i] in Ids(s) && P[L[i]] == i
    ensures forall i :: i in Ids(s) && R[i] != -1 ==> R[i] in Ids(s) && P[R[i]] == i
    ensures forall i :: i in Ids(s) && L[i] != -1 ==> L[i] != R[i]
    ensures forall i :: i in Ids(s) && i != Id(s) ==> P[i] in Ids(s) && (L[P[i]] == i || R[P[i]] == i)
    ensures s.Br? ==> P[s.id] == p
  {
    match s
    case Nil =>
    case Br(l, i, r) =>
      LinkedFacts(l, i, L, R, P);
      LinkedFacts(r, i, L, R, P);
  }

  /** Unchanged entries for the ids of `s` keep `s` linked. */
  lemma {:induction false} LinkedFrame(s: Shape, p: int, L: seq<int>, R: seq<int>, P: seq<int>,
                                       L': seq<int>, R': seq<int>, P': seq<int>)
    requires Linked(s, p, L, R, P)
    requires forall j :: j in Ids(s) ==>
      0 <= j < |L'| && j < |R'| && j < |P'| && j < |L| && j < |R| && j < |P| &&
      L'[j] == L[j] && R'[j] == R[j] && P'[j] == P[j]
    ensures Linked(s, p, L', R', P')
  {
    match s
    case Nil =>
    case Br(l, i, r) =>
      LinkedFrame(l, i, L, R, P, L', R', P');
      LinkedFrame(r, i, L, R, P, L', R', P');
  }

  lemma {:induction false} LinkedBounds(s: Shape, p: int, L: seq<int>, R: seq<int>, P: seq<int>)
    requires Linked(s, p, L, R, P)
    ensures forall j :: j in Ids(s) ==> 0 <= j < |L| && j < |R| && j < |P|
  {
    match s
    case Nil =>
    case Br(l, i, r) =>
      LinkedBounds(l, i, L, R, P);
      LinkedBounds(r, i, L, R, P);
  }

  /** Links outside a set D of changed entries keep every subtree that avoids D linked. */
  lemma LinkedFrameExcept(s: Shape, p: int, L: seq<int>, R: seq<int>, P: seq<int>,
                          L': seq<int>, R': seq<int>, P': seq<int>, D: set<int>)
    requires Linked(s, p, L, R, P) && Ids(s) !! D
    requires |L'| == |L| && |R'| == |R| && |P'| == |P|
    requires forall j :: 0 <= j < |L| && j !in D ==> L'[j] == L[j]
    requires forall j :: 0 <= j < |R| && j !in D ==> R'[j] == R[j]
    requires forall j :: 0 <= j < |P| && j !in D ==> P'[j] == P[j]
    ensures Linked(s, p, L', R', P')
  {
    LinkedBounds(s, p, L, R, P);
    LinkedFrame(s, p, L, R, P, L', R', P');
  }

  /** The parent entry of a node of `s` is either the node above `s` or a node of `s`. */
  lemma {:induction false} ParentIn(s: Shape, p: int, L: seq<int>, R: seq<int>, P: seq<int>, x: int)
    requires Linked(s, p, L, R, P) && x in Ids(s)
    ensures 0 <= x < |P|
    ensures x == Id(s) ==> P[x] == p
    ensures x != Id(s) ==> P[x] in Ids(s)
  {
    match s
    case Br(l, i, r) =>
      if x in Ids(l) {
        ParentIn(l, i, L, R, P, x);
      } else if x in Ids(r) {
        ParentIn(r, i, L, R, P, x);
      }
  }

  lemma {:induction false} SubFacts(s: Shape, x: int, p: int, L: seq<int>, R: seq<int>, P: seq<int>)
    requires Linked(s, p, L, R, P) && Distinct(s) && p !in Ids(s) && x in Ids(s)
    ensures 0 <= x < |L| && x < |R| && x < |P|
    ensures Sub(s, x).Br? && Sub(s, x).id == x
    ensures Ids(Sub(s, x)) <= Ids(s) && Distinct(Sub(s, x))
    ensures Linked(Sub(s, x), P[x], L, R, P) && P[x] !in Ids(Sub(s, x))
    ensures L[x] == Id(Sub(s, x).left) && R[x] == Id(Sub(s, x).right)
    ensures Size(Sub(s, x)) <= Size(s)
  {
    LinkedFacts(s, p, L, R, P);
    match s
    case Br(l, i, r) =>
      if i == x {
      } else if x in Ids(l) {
        SubFacts(l, x, i, L, R, P);
      } else {
        SubFacts(r, x, i, L, R, P);
      }
  }

  lemma {:induction false} SubSub(s: Shape, x: int, y: int)
    requires Distinct(s) && x in Ids(s) && y in Ids(Sub(s, x))
    ensures Sub(s, y) == Sub(Sub(s, x), y)
  {
    match s
    case Br(l, i, r) =>
      if i == x {
      } else if x in Ids(l) {
        SubIds(l, x);
        SubSub(l, x, y);
      } else {
        SubIds(r, x);
        SubSub(r, x, y);
      }
  }

  lemma {:induction false} SubIds(s: Shape, x: int)
    requires Distinct(s) && x in Ids(s)
    ensures Sub(s, x).Br? && Sub(s, x).id == x
    ensures Ids(Sub(s, x)) <= Ids(s) && Distinct(Sub(s, x))
  {
    match s
    case Br(l, i, r) =>
      if i == x {
      } else if x in Ids(l) {
        SubIds(l, x);
      } else {
        SubIds(r, x);
      }
  }

  lemma {:induction false} SubOfLeftChild(s: Shape, x: int)
    requires Distinct(s) && x in Ids(s) && Sub(s, x).Br? && Sub(s, x).left.Br?
    ensures Sub(s, Sub(s, x).left.id) == Sub(s, x).left
  {
    SubIds(s, x);
    var t := Sub(s, x);
    SubSub(s, x, t.left.id);
  }

  lemma {:induction false} SubOfRightChild(s: Shape, x: int)
    requires Distinct(s) && x in Ids(s) && Sub(s, x).Br? && Sub(s, x).right.Br?
    ensures Sub(s, Sub(s, x).right.id) == Sub(s, x).right
  {
    SubIds(s, x);
    var t := Sub(s, x);
    SubSub(s, x, t.right.id);
    assert t.right.id !in Ids(t.left);
  }

  /** The subtree of a child is the corresponding part of its parent's subtree. */
  lemma {:induction false} SubChildren(s: Shape, x: int, p: int, L: seq<int>, R: seq<int>, P: seq<int>)
    requires Linked(s, p, L, R, P) && Distinct(s) && p !in Ids(s) && x in Ids(s)
    ensures 0 <= x < |L| && x < |R| && x < |P|
    ensures Sub(s, x).Br? && Sub(s, x).id == x && Size(Sub(s, x)) <= Size(s)
    ensures L[x] == Id(Sub(s, x).left) && R[x] == Id(Sub(s, x).right)
    ensures L[x] != -1 ==> L[x] in Ids(s) && Sub(s, L[x]) == Sub(s, x).left
    ensures R[x] != -1 ==> R[x] in Ids(s) && Sub(s, R[x]) == Sub(s, x).right
  {
    SubFacts(s, x, p, L, R, P);
    if L[x] != -1 {
      SubOfLeftChild(s, x);
    }
    if R[x] != -1 {
      SubOfRightChild(s, x);
    }
  }

  /** A node lies strictly below its parent: its subtree is smaller than the parent's. */
  lemma {:induction false} ParentSub(s: Shape, x: int, p: int, L: seq<int>, R: seq<int>, P: seq<int>)
    requires Linked(s, p, L, R, P) && Distinct(s) && p !in Ids(s) && x in Ids(s) && x != Id(s)
    ensures 0 <= x < |P|
    ensures P[x] in Ids(s) && Size(Sub(s, x)) < Size(Sub(s, P[x]))
  {
    LinkedFacts(s, p, L, R, P);
    SubChildren(s, P[x], p, L, R, P);
  }

  /** The sorted walk of `s` contains that of each of its subtrees as a contiguous block. */
  lemma {:induction false} SubContext(s: Shape, x: int) returns (A: seq<int>, B: seq<int>)
    requires x in Ids(s)
    ensures InOrderIds(s) == A + InOrderIds(Sub(s, x)) + B
  {
    match s
    case Br(l, i, r) =>
      if i == x {
        A, B := [], [];
      } else if x in Ids(l) {
        var A', B' := SubContext(l, x);
        A, B := A', B' + [i] + InOrderIds(r);
      } else {
        var A', B' := SubContext(r, x);
        A, B := InOrderIds(l) + [i] + A', B';
      }
  }

  // ---------------------------------------------------------------------------
  // Replacing a subtree
  // ---------------------------------------------------------------------------

  lemma {:induction false} ReplaceFacts(s: Shape, x: int, t: Shape)
    requires Distinct(s) && x in Ids(s) && Distinct(t)
    requires Ids(t) == Ids(Sub(s, x)) && InOrderIds(t) == InOrderIds(Sub(s, x))
    ensures Ids(Replace(s, x, t)) == Ids(s) && Distinct(Replace(s, x, t))
    ensures InOrderIds(Replace(s, x, t)) == InOrderIds(s)
    ensures Id(Replace(s, x, t)) == if Id(s) == x then Id(t) else Id(s)
  {
    match s
    case Br(l, i, r) =>
      if i == x {
      } else if x in Ids(l) {
        ReplaceFacts(l, x, t);
        SubIds(l, x);
      } else {
        ReplaceFacts(r, x, t);
        SubIds(r, x);
      }
  }

  lemma RotLFacts(t: Shape)
    requires Distinct(t) && t.Br? && t.right.Br?
    ensures Ids(RotL(t)) == Ids(t) && Distinct(RotL(t)) && InOrderIds(RotL(t)) == InOrderIds(t)
    ensures Id(RotL(t)) == t.right.id
  {
    RotLDistinct(t);
    RotLWalk(t);
  }

  lemma RotLDistinct(t: Shape)
    requires Distinct(t) && t.Br? && t.right.Br?
    ensures Ids(RotL(t)) == Ids(t) && Distinct(RotL(t))
  {
    var a, x, b, X, c := t.left, t.id, t.right.left, t.right.id, t.right.right;
    assert Distinct(Br(a, x, b));
  }

  lemma RotLWalk(t: Shape)
    requires t.Br? && t.right.Br?
    ensures InOrderIds(RotL(t)) == InOrderIds(t)
  {
    var a, x, b, X, c := t.left, t.id, t.right.left, t.right.id, t.right.right;
    var A, B, C := InOrderIds(a), InOrderIds(b), InOrderIds(c);
    assert InOrderIds(t) == A + [x] + (B + [X] + C);
    assert InOrderIds(RotL(t)) == (A + [x] + B) + [X] + C;
    RegroupAround(A, x, B, X, C);
  }

  /** A rotation regroups the walk around its two nodes without reordering it. */
  lemma RegroupAround(A: seq<int>, x: int, B: seq<int>, y: int, C: seq<int>)
    ensures A + [x] + (B + [y] + C) == (A + [x] + B) + [y] + C
  {
  }

  lemma RotRFacts(t: Shape)
    requires Distinct(t) && t.Br? && t.left.Br?
    ensures Ids(RotR(t)) == Ids(t) && Distinct(RotR(t)) && InOrderIds(RotR(t)) == InOrderIds(t)
    ensures Id(RotR(t)) == t.left.id
  {
    RotRDistinct(t);
    RotRWalk(t);
  }

  lemma RotRDistinct(t: Shape)
    requires Distinct(t) && t.Br? && t.left.Br?
    ensures Ids(RotR(t)) == Ids(t) && Distinct(RotR(t))
  {
    var a, X, b, x, c := t.left.left, t.left.id, t.left.right, t.id, t.right;
    assert Distinct(Br(b, x, c));
  }

  lemma RotRWalk(t: Shape)
    requires t.Br? && t.left.Br?
    ensures InOrderIds(RotR(t)) == InOrderIds(t)
  {
    var a, X, b, x, c := t.left.left, t.left.id, t.left.right, t.id, t.right;
    var A, B, C := InOrderIds(a), InOrderIds(b), InOrderIds(c);
    assert InOrderIds(t) == (A + [X] + B) + [x] + C;
    assert InOrderIds(RotR(t)) == A + [X] + (B + [x] + C);
    RegroupAround(A, X, B, x, C);
  }

  // ---------------------------------------------------------------------------
  // Rotations on the link sequences
  // ---------------------------------------------------------------------------

  // A rotation appears in three forms, each for one use: RotatedLeft replays the
  // assignments in the order leftRotate makes them (so the method's new links are
  // stated exactly), LeftRotationOf says entry by entry what changed (the form the
  // link proofs reason with; RotateLeftArena shows the two agree), and RotL is the
  // same rotation on the ghost Shape. Trees.RotateLeft is its meaning on the
  // abstract tree (AbsRotateLeft). The right rotation has the same three forms.

  /** The links after a left rotation of node `x`, written in the order the rotation assigns them. */
  function RotatedLeft(L: seq<int>, R: seq<int>, P: seq<int>, x: int): (seq<int>, seq<int>, seq<int>)
    requires |L| == |R| == |P| && 0 <= x < |L|
    requires 0 <= R[x] < |L| && -1 <= L[R[x]] < |L| && -1 <= P[x] < |L|
  {
    var X := R[x];
    var Y := L[X];
    var p := P[x];
    var L1 := L[X := x];
    var R1 := R[x := Y];
    var P1 := P[X := p];
    var L2 := if p != -1 && x == L1[p] then L1[p := X] else L1;
    var R2 := if p != -1 && x != L1[p] then R1[p := X] else R1;
    var P2 := P1[x := X];
    var P3 := if Y != -1 then P2[Y := x] else P2;
    (L2, R2, P3)
  }

  /** The links after a right rotation of node `x`, written in the order the rotation assigns them. */
  function RotatedRight(L: seq<int>, R: seq<int>, P: seq<int>, x: int): (seq<int>, seq<int>, seq<int>)
    requires |L| == |R| == |P| && 0 <= x < |L|
    requires 0 <= L[x] < |L| && -1 <= R[L[x]] < |L| && -1 <= P[x] < |L|
  {
    var X := L[x];
    var Y := R[X];
    var p := P[x];
    var R1 := R[X := x];
    var L1 := L[x := Y];
    var P1 := P[X := p];
    var L2 := if p != -1 && x == L1[p] then L1[p := X] else L1;
    var R2 := if p != -1 && x != L1[p] then R1[p := X] else R1;
    var P2 := P1[x := X];
    var P3 := if Y != -1 then P2[Y := x] else P2;
    (L2, R2, P3)
  }

  /**
   * What a left rotation of `x` does to the links, entry by entry: with X the right
   * child of `x`, Y the left child of X and p the parent of `x`, X takes `x`'s place
   * under p, `x` becomes X's left child and Y becomes `x`'s right child.
   */
  ghost predicate LeftRotationOf(L: seq<int>, R: seq<int>, P: seq<int>, x: int,
                                 L': seq<int>, R': seq<int>, P': seq<int>)
    requires |L| == |R| == |P| && 0 <= x < |L|
    requires 0 <= R[x] < |L| && -1 <= L[R[x]] < |L| && -1 <= P[x] < |L|
  {
    var X, Y, p := R[x], L[R[x]], P[x];
    && |L'| == |L| && |R'| == |R| && |P'| == |P|
    && (forall j :: 0 <= j < |L| && j != X && j != p ==> L'[j] == L[j])
    && (forall j :: 0 <= j < |R| && j != x && j != p ==> R'[j] == R[j])
    && (forall j :: 0 <= j < |P| && j != X && j != x && j != Y ==> P'[j] == P[j])
    && L'[X] == x && R'[x] == Y && P'[X] == p && P'[x] == X && (Y != -1 ==> P'[Y] == x)
    && (p != -1 && L[p] == x ==> L'[p] == X && R'[p] == R[p])
    && (p != -1 && L[p] != x ==> L'[p] == L[p] && R'[p] == X)
  }

  /** The mirror image of LeftRotationOf. */
  ghost predicate RightRotationOf(L: seq<int>, R: seq<int>, P: seq<int>, x: int,
                                  L': seq<int>, R': seq<int>, P': seq<int>)
    requires |L| == |R| == |P| && 0 <= x < |L|
    requires 0 <= L[x] < |L| && -1 <= R[L[x]] < |L| && -1 <= P[x] < |L|
  {
    var X, Y, p := L[x], R[L[x]], P[x];
    && |L'| == |L| && |R'| == |R| && |P'| == |P|
    && (forall j :: 0 <= j < |L| && j != x && j != p ==> L'[j] == L[j])
    && (forall j :: 0 <= j < |R| && j != X && j != p ==> R'[j] == R[j])
    && (forall j :: 0 <= j < |P| && j != X && j != x && j != Y ==> P'[j] == P[j])
    && R'[X] == x && L'[x] == Y && P'[X] == p && P'[x] == X && (Y != -1 ==> P'[Y] == x)
    && (p != -1 && L[p] == x ==> L'[p] == X && R'[p] == R[p])
    && (p != -1 && L[p] != x ==> L'[p] == L[p] && R'[p] == X)
  }

  lemma RotatedLeftEffect(L: seq<int>, R: seq<int>, P: seq<int>, x: int)
    requires |L| == |R| == |P| && 0 <= x < |L|
    requires 0 <= R[x] < |L| && -1 <= L[R[x]] < |L| && -1 <= P[x] < |L|
    requires R[x] != x && P[x] != x && P[x] != R[x]
    requires L[R[x]] != -1 ==> L[R[x]] != x && L[R[x]] != R[x]
    ensures var (L', R', P') := RotatedLeft(L, R, P, x); LeftRotationOf(L, R, P, x, L', R', P')
  {
  }

  lemma RotatedRightEffect(L: seq<int>, R: seq<int>, P: seq<int>, x: int)
    requires |L| == |R| == |P| && 0 <= x < |L|
    requires 0 <= L[x] < |L| && -1 <= R[L[x]] < |L| && -1 <= P[x] < |L|
    requires L[x] != x && P[x] != x && P[x] != L[x]
    requires R[L[x]] != -1 ==> R[L[x]] != x && R[L[x]] != L[x]
    ensures var (L', R', P') := RotatedRight(L, R, P, x); RightRotationOf(L, R, P, x, L', R', P')
  {
  }

  /** The rotated node is the top of `s`: the new top is its former right child. */
  lemma {:induction false} LeftRotationTop(s: Shape, L: seq<int>, R: seq<int>, P: seq<int>,
                                           L': seq<int>, R': seq<int>, P': seq<int>)
    requires s.Br? && |L| == |R| == |P| && 0 <= s.id < |L|
    requires 0 <= R[s.id] < |L| && -1 <= L[R[s.id]] < |L| && -1 <= P[s.id] < |L|
    requires Linked(s, P[s.id], L, R, P) && Distinct(s) && P[s.id] !in Ids(s)
    requires LeftRotationOf(L, R, P, s.id, L', R', P')
    ensures s.right.Br? && Linked(RotL(s), P[s.id], L', R', P')
  {
    var x := s.id;
    var a, b, c := s.left, s.right.left, s.right.right;
    var X, Y, p := R[x], L[R[x]], P[x];
    var D := {X, x, Y, p};
    LinkedBounds(s, p, L, R, P);
    assert Linked(s.right, x, L, R, P);
    assert Linked(b, X, L, R, P);
    assert X == s.right.id && Y == Id(b);
    assert Distinct(s.right) && Distinct(b) && Ids(b) <= Ids(s.right) <= Ids(s);
    assert b.Br? ==> Ids(b.left) <= Ids(b) && Ids(b.right) <= Ids(b);
    LinkedFrameExcept(a, x, L, R, P, L', R', P', D);
    LinkedFrameExcept(c, X, L, R, P, L', R', P', D);
    if b.Br? {
      LinkedFrameExcept(b.left, Y, L, R, P, L', R', P', D);
      LinkedFrameExcept(b.right, Y, L, R, P, L', R', P', D);
    }
  }

  /** The mirror image of LeftRotationTop. */
  lemma {:induction false} RightRotationTop(s: Shape, L: seq<int>, R: seq<int>, P: seq<int>,
                                            L': seq<int>, R': seq<int>, P': seq<int>)
    requires s.Br? && |L| == |R| == |P| && 0 <= s.id < |L|
    requires 0 <= L[s.id] < |L| && -1 <= R[L[s.id]] < |L| && -1 <= P[s.id] < |L|
    requires Linked(s, P[s.id], L, R, P) && Distinct(s) && P[s.id] !in Ids(s)
    requires RightRotationOf(L, R, P, s.id, L', R', P')
    ensures s.left.Br? && Linked(RotR(s), P[s.id], L', R', P')
  {
    var x := s.id;
    var a, b, c := s.left.left, s.left.right, s.right;
    var X, Y, p := L[x], R[L[x]], P[x];
    var D := {X, x, Y, p};
    LinkedBounds(s, p, L, R, P);
    assert Linked(s.left, x, L, R, P);
    assert Linked(b, X, L, R, P);
    assert X == s.left.id && Y == Id(b);
    assert Distinct(s.left) && Distinct(b) && Ids(b) <= Ids(s.left) <= Ids(s);
    assert b.Br? ==> Ids(b.left) <= Ids(b) && Ids(b.right) <= Ids(b);
    LinkedFrameExcept(a, X, L, R, P, L', R', P', D);
    LinkedFrameExcept(c, x, L, R, P, L', R', P', D);
    if b.Br? {
      LinkedFrameExcept(b.left, Y, L, R, P, L', R', P', D);
      LinkedFrameExcept(b.right, Y, L, R, P, L', R', P', D);
    }
  }

  /** A left rotation of node `x` re-links the tree as the shape with `x`'s subtree rotated. */
  lemma {:induction false} LeftRotationLinked(s: Shape, p0: int, L: seq<int>, R: seq<int>, P: seq<int>, x: int,
                                              L': seq<int>, R': seq<int>, P': seq<int>)
    requires |L| == |R| == |P| && 0 <= x < |L|
    requires 0 <= R[x] < |L| && -1 <= L[R[x]] < |L| && -1 <= P[x] < |L|
    requires Linked(s, p0, L, R, P) && Distinct(s) && p0 !in Ids(s)
    requires LeftRotationOf(L, R, P, x, L', R', P')
    requires x in Ids(s)
    ensures Sub(s, x).Br? && Sub(s, x).right.Br?
    ensures Linked(Replace(s, x, RotL(Sub(s, x))), p0, L', R', P')
  {
    SubFacts(s, x, p0, L, R, P);
    match s
    case Br(l, i, r) =>
      if i == x {
        LeftRotationTop(s, L, R, P, L', R', P');
      } else if x in Ids(l) {
        LeftRotationLinked(l, i, L, R, P, x, L', R', P');
        LeftRotationInLeft(s, p0, L, R, P, x, L', R', P');
      } else {
        LeftRotationLinked(r, i, L, R, P, x, L', R', P');
        LeftRotationInRight(s, p0, L, R, P, x, L', R', P');
      }
  }

  /** The step of LeftRotationLinked when `x` lies below the left child of the top. */
  lemma LeftRotationInLeft(s: Shape, p0: int, L: seq<int>, R: seq<int>, P: seq<int>, x: int,
                           L': seq<int>, R': seq<int>, P': seq<int>)
    requires |L| == |R| == |P| && 0 <= x < |L|
    requires 0 <= R[x] < |L| && -1 <= L[R[x]] < |L| && -1 <= P[x] < |L|
    requires Linked(s, p0, L, R, P) && Distinct(s) && p0 !in Ids(s)
    requires LeftRotationOf(L, R, P, x, L', R', P')
    requires s.Br? && s.id != x && x in Ids(s.left)
    requires Sub(s.left, x).Br? && Sub(s.left, x).right.Br?
    requires Linked(Replace(s.left, x, RotL(Sub(s.left, x))), s.id, L', R', P')
    ensures Linked(Replace(s, x, RotL(Sub(s, x))), p0, L', R', P')
  {
    var l, i, r := s.left, s.id, s.right;
    var X, Y, p := R[x], L[R[x]], P[x];
    SubFacts(s, x, p0, L, R, P);
    SubFacts(l, x, i, L, R, P);
    LinkedBounds(l, i, L, R, P);
    LinkedBounds(r, i, L, R, P);
    ParentIn(l, i, L, R, P, x);
    assert Linked(Sub(l, x).right, x, L, R, P);
    assert X in Ids(Sub(l, x)) && (Y != -1 ==> Y in Ids(Sub(l, x)));
    LinkedFrameExcept(r, i, L, R, P, L', R', P', {X, x, Y, p});
    RotLFacts(Sub(l, x));
    ReplaceFacts(l, x, RotL(Sub(l, x)));
    var l' := Replace(l, x, RotL(Sub(l, x)));
    assert Replace(s, x, RotL(Sub(s, x))) == Br(l', i, r);
    assert Id(l') == if Id(l) == x then X else Id(l);
    assert Id(l) == x ==> p == i && L[i] == x;
    assert Id(l) != x ==> p != i;
    assert L'[i] == Id(l') && R'[i] == Id(r) && P'[i] == p0;
  }

  /** The step of LeftRotationLinked when `x` lies below the right child of the top. */
  lemma LeftRotationInRight(s: Shape, p0: int, L: seq<int>, R: seq<int>, P: seq<int>, x: int,
                            L': seq<int>, R': seq<int>, P': seq<int>)
    requires |L| == |R| == |P| && 0 <= x < |L|
    requires 0 <= R[x] < |L| && -1 <= L[R[x]] < |L| && -1 <= P[x] < |L|
    requires Linked(s, p0, L, R, P) && Distinct(s) && p0 !in Ids(s)
    requires LeftRotationOf(L, R, P, x, L', R', P')
    requires s.Br? && s.id != x && x in Ids(s.right)
    requires Sub(s.right, x).Br? && Sub(s.right, x).right.Br?
    requires Linked(Replace(s.right, x, RotL(Sub(s.right, x))), s.id, L', R', P')
    ensures Linked(Replace(s, x, RotL(Sub(s, x))), p0, L', R', P')
  {
    var l, i, r := s.left, s.id, s.right;
    var X, Y, p := R[x], L[R[x]], P[x];
    SubFacts(s, x, p0, L, R, P);
    SubFacts(r, x, i, L, R, P);
    LinkedBounds(l, i, L, R, P);
    LinkedBounds(r, i, L, R, P);
    ParentIn(r, i, L, R, P, x);
    assert Linked(Sub(r, x).right, x, L, R, P);
    assert X in Ids(Sub(r, x)) && (Y != -1 ==> Y in Ids(Sub(r, x)));
    LinkedFrameExcept(l, i, L, R, P, L', R', P', {X, x, Y, p});
    RotLFacts(Sub(r, x));
    ReplaceFacts(r, x, RotL(Sub(r, x)));
    var r' := Replace(r, x, RotL(Sub(r, x)));
    assert Replace(s, x, RotL(Sub(s, x))) == Br(l, i, r');
    assert Id(r') == if Id(r) == x then X else Id(r);
    assert Id(r) == x ==> p == i && L[i] != x;
    assert Id(r) != x ==> p != i;
    assert L'[i] == Id(l) && R'[i] == Id(r') && P'[i] == p0;
  }

  /** The mirror image of LeftRotationLinked. */
  lemma {:induction false} RightRotationLinked(s: Shape, p0: int, L: seq<int>, R: seq<int>, P: seq<int>, x: int,
                                               L': seq<int>, R': seq<int>, P': seq<int>)
    requires |L| == |R| == |P| && 0 <= x < |L|
    requires 0 <= L[x] < |L| && -1 <= R[L[x]] < |L| && -1 <= P[x] < |L|
    requires Linked(s, p0, L, R, P) && Distinct(s) && p0 !in Ids(s)
    requires RightRotationOf(L, R, P, x, L', R', P')
    requires x in Ids(s)
    ensures Sub(s, x).Br? && Sub(s, x).left.Br?
    ensures Linked(Replace(s, x, RotR(Sub(s, x))), p0, L', R', P')
  {
    SubFacts(s, x, p0, L, R, P);
    match s
    case Br(l, i, r) =>
      if i == x {
        RightRotationTop(s, L, R, P, L', R', P');
      } else if x in Ids(l) {
        RightRotationLinked(l, i, L, R, P, x, L', R', P');
        RightRotationInLeft(s, p0, L, R, P, x, L', R', P');
      } else {
        RightRotationLinked(r, i, L, R, P, x, L', R', P');
        RightRotationInRight(s, p0, L, R, P, x, L', R', P');
      }
  }

  /** The step of RightRotationLinked when `x` lies below the left child of the top. */
  lemma RightRotationInLeft(s: Shape, p0: int, L: seq<int>, R: seq<int>, P: seq<int>, x: int,
                            L': seq<int>, R': seq<int>, P': seq<int>)
    requires |L| == |R| == |P| && 0 <= x < |L|
    requires 0 <= L[x] < |L| && -1 <= R[L[x]] < |L| && -1 <= P[x] < |L|
    requires Linked(s, p0, L, R, P) && Distinct(s) && p0 !in Ids(s)
    requires RightRotationOf(L, R, P, x, L', R', P')
    requires s.Br? && s.id != x && x in Ids(s.left)
    requires Sub(s.left, x).Br? && Sub(s.left, x).left.Br?
    requires Linked(Replace(s.left, x, RotR(Sub(s.left, x))), s.id, L', R', P')
    ensures Linked(Replace(s, x, RotR(Sub(s, x))), p0, L', R', P')
  {
    var l, i, r := s.left, s.id, s.right;
    var X, Y, p := L[x], R[L[x]], P[x];
    SubFacts(s, x, p0, L, R, P);
    SubFacts(l, x, i, L, R, P);
    LinkedBounds(l, i, L, R, P);
    LinkedBounds(r, i, L, R, P);
    ParentIn(l, i, L, R, P, x);
    assert Linked(Sub(l, x).left, x, L, R, P);
    assert X in Ids(Sub(l, x)) && (Y != -1 ==> Y in Ids(Sub(l, x)));
    LinkedFrameExcept(r, i, L, R, P, L', R', P', {X, x, Y, p});
    RotRFacts(Sub(l, x));
    ReplaceFacts(l, x, RotR(Sub(l, x)));
    var l' := Replace(l, x, RotR(Sub(l, x)));
    assert Replace(s, x, RotR(Sub(s, x))) == Br(l', i, r);
    assert Id(l') == if Id(l) == x then X else Id(l);
    assert Id(l) == x ==> p == i && L[i] == x;
    assert Id(l) != x ==> p != i;
    assert L'[i] == Id(l') && R'[i] == Id(r) && P'[i] == p0;
  }

  /** The step of RightRotationLinked when `x` lies below the right child of the top. */
  lemma RightRotationInRight(s: Shape, p0: int, L: seq<int>, R: seq<int>, P: seq<int>, x: int,
                             L': seq<int>, R': seq<int>, P': seq<int>)
    requires |L| == |R| == |P| && 0 <= x < |L|
    requires 0 <= L[x] < |L| && -1 <= R[L[x]] < |L| && -1 <= P[x] < |L|
    requires Linked(s, p0, L, R, P) && Distinct(s) && p0 !in Ids(s)
    requires RightRotationOf(L, R, P, x, L', R', P')
    requires s.Br? && s.id != x && x in Ids(s.right)
    requires Sub(s.right, x).Br? && Sub(s.right, x).left.Br?
    requires Linked(Replace(s.right, x, RotR(Sub(s.right, x))), s.id, L', R', P')
    ensures Linked(Replace(s, x, RotR(Sub(s, x))), p0, L', R', P')
  {
    var l, i, r := s.left, s.id, s.right;
    var X, Y, p := L[x], R[L[x]], P[x];
    SubFacts(s, x, p0, L, R, P);
    SubFacts(r, x, i, L, R, P);
    LinkedBounds(l, i, L, R, P);
    LinkedBounds(r, i, L, R, P);
    ParentIn(r, i, L, R, P, x);
    assert Linked(Sub(r, x).left, x, L, R, P);
    assert X in Ids(Sub(r, x)) && (Y != -1 ==> Y in Ids(Sub(r, x)));
    LinkedFrameExcept(l, i, L, R, P, L', R', P', {X, x, Y, p});
    RotRFacts(Sub(r, x));
    ReplaceFacts(r, x, RotR(Sub(r, x)));
    var r' := Replace(r, x, RotR(Sub(r, x)));
    assert Replace(s, x, RotR(Sub(s, x))) == Br(l, i, r');
    assert Id(r') == if Id(r) == x then X else Id(r);
    assert Id(r) == x ==> p == i && L[i] != x;
    assert Id(r) != x ==> p != i;
    assert L'[i] == Id(l) && R'[i] == Id(r') && P'[i] == p0;
  }

  // ---------------------------------------------------------------------------
  // The abstract tree
  // ---------------------------------------------------------------------------

  function ColorAt(C: seq<Color>, i: int): Color
  {
    if 0 <= i < |C| then C[i] else Black
  }

  function ValAt(V: seq<int>, i: int): int
  {
    if 0 <= i < |V| then V[i] else 0
  }

  /** The tree the shape denotes, each node carrying its color and value from C and V. */
  function Abs(s: Shape, C: seq<Color>, V: seq<int>): Tree
  {
    match s
    case Nil => Leaf
    case Br(l, i, r) => Node(ColorAt(C, i), ValAt(V, i), Abs(l, C, V), Abs(r, C, V))
  }

  function ValuesAt(q: seq<int>, V: seq<int>): seq<int>
  {
    seq(|q|, k requires 0 <= k < |q| => ValAt(V, q[k]))
  }

  /** The sorted walk of the abstract tree reads the values of the nodes in walk order. */
  lemma {:induction false} AbsInOrder(s: Shape, C: seq<Color>, V: seq<int>)
    ensures InOrder(Abs(s, C, V)) == ValuesAt(InOrderIds(s), V)
  {
    match s
    case Nil =>
    case Br(l, i, r) =>
      AbsInOrder(l, C, V);
      AbsInOrder(r, C, V);
      var a, b := InOrderIds(l), InOrderIds(r);
      assert ValuesAt(a + [i] + b, V) == ValuesAt(a, V) + [ValAt(V, i)] + ValuesAt(b, V);
  }

  /** Two shapes with the same nodes in the same sorted order denote the same sorted walk, whatever the colours. */
  lemma SameWalk(s: Shape, C: seq<Color>, s': Shape, C': seq<Color>, V: seq<int>)
    requires InOrderIds(s) == InOrderIds(s')
    ensures InOrder(Abs(s, C, V)) == InOrder(Abs(s', C', V))
  {
    AbsInOrder(s, C, V);
    AbsInOrder(s', C', V);
  }

  lemma {:induction false} AbsFrame(s: Shape, C: seq<Color>, V: seq<int>, C': seq<Color>, V': seq<int>)
    requires forall j :: j in Ids(s) ==> ColorAt(C', j) == ColorAt(C, j) && ValAt(V', j) == ValAt(V, j)
    ensures Abs(s, C', V') == Abs(s, C, V)
  {
    match s
    case Nil =>
    case Br(l, i, r) =>
      AbsFrame(l, C, V, C', V');
      AbsFrame(r, C, V, C', V');
  }

  /** The rotated shape of a node denotes the abstract left rotation of the tree it denoted. */
  lemma AbsRotateLeft(t: Shape, C: seq<Color>, V: seq<int>)
    requires t.Br? && t.right.Br?
    ensures Abs(t.right, C, V).Node? && Abs(RotL(t), C, V) == RotateLeft(Abs(t, C, V))
  {
  }

  /** The rotated shape of a node denotes the abstract right rotation of the tree it denoted. */
  lemma AbsRotateRight(t: Shape, C: seq<Color>, V: seq<int>)
    requires t.Br? && t.left.Br?
    ensures Abs(t.left, C, V).Node? && Abs(RotR(t), C, V) == RotateRight(Abs(t, C, V))
  {
  }

  /** After replacing the subtree at `x` by a tree on the same nodes, that tree is the subtree at its own top. */
  lemma {:induction false} SubOfReplace(s: Shape, x: int, t: Shape)
    requires Distinct(s) && x in Ids(s) && Distinct(t) && t.Br?
    requires Ids(t) == Ids(Sub(s, x)) && InOrderIds(t) == InOrderIds(Sub(s, x))
    ensures Sub(Replace(s, x, t), t.id) == t
  {
    match s
    case Br(l, i, r) =>
      if i == x {
      } else if x in Ids(l) {
        SubIds(l, x);
        ReplaceFacts(l, x, t);
        SubOfReplace(l, x, t);
      } else {
        SubIds(r, x);
        ReplaceFacts(r, x, t);
        SubOfReplace(r, x, t);
      }
  }

  /** The tree leftRotate leaves where `x` stood, now topped by `R[x]`, is the abstract left rotation of the tree below `x`. */
  lemma RotateLeftBelow(s: Shape, L: seq<int>, R: seq<int>, P: seq<int>, x: int, C: seq<Color>, V: seq<int>)
    requires ArenaTree(s, L, R, P) && 0 <= x < |L| && R[x] != -1
    ensures var a := Abs(Sub(s, x), C, V);
            && a.Node? && a.right.Node?
            && Abs(Sub(Replace(s, x, RotL(Sub(s, x))), R[x]), C, V) == RotateLeft(a)
  {
    SubFacts(s, x, -1, L, R, P);
    var t := Sub(s, x);
    RotLFacts(t);
    SubOfReplace(s, x, RotL(t));
    AbsRotateLeft(t, C, V);
  }

  /** The mirror image of RotateLeftBelow, for rightRotate. */
  lemma RotateRightBelow(s: Shape, L: seq<int>, R: seq<int>, P: seq<int>, x: int, C: seq<Color>, V: seq<int>)
    requires ArenaTree(s, L, R, P) && 0 <= x < |L| && L[x] != -1
    ensures var a := Abs(Sub(s, x), C, V);
            && a.Node? && a.left.Node?
            && Abs(Sub(Replace(s, x, RotR(Sub(s, x))), L[x]), C, V) == RotateRight(a)
  {
    SubFacts(s, x, -1, L, R, P);
    var t := Sub(s, x);
    RotRFacts(t);
    SubOfReplace(s, x, RotR(t));
    AbsRotateRight(t, C, V);
  }

  // ---------------------------------------------------------------------------
  // Placing a new node
  // ---------------------------------------------------------------------------

  /** The node the descent of insertion stops at: the last node before an absent child. */
  function InsParent(s: Shape, V: seq<int>, v: int): int
  {
    match s
    case Nil => -1
    case Br(l, i, r) =>
      if ValAt(V, i) > v then (if l.Nil? then i else InsParent(l, V, v))
      else (if r.Nil? then i else InsParent(r, V, v))
  }

  /** The shape after attaching node `n` where the descent of insertion stops. */
  function InsShape(s: Shape, V: seq<int>, v: int, n: int): Shape
  {
    match s
    case Nil => Br(Nil, n, Nil)
    case Br(l, i, r) =>
      if ValAt(V, i) > v then Br(InsShape(l, V, v, n), i, r) else Br(l, i, InsShape(r, V, v, n))
  }

  lemma {:induction false} InsParentIn(s: Shape, V: seq<int>, v: int)
    requires s.Br?
    ensures InsParent(s, V, v) in Ids(s)
  {
    match s
    case Br(l, i, r) =>
      if ValAt(V, i) > v {
        if l.Br? { InsParentIn(l, V, v); }
      } else {
        if r.Br? { InsParentIn(r, V, v); }
      }
  }

  lemma {:induction false} InsShapeFacts(s: Shape, V: seq<int>, v: int, n: int)
    requires Distinct(s) && n !in Ids(s)
    ensures Ids(InsShape(s, V, v, n)) == Ids(s) + {n} && Distinct(InsShape(s, V, v, n))
    ensures Id(InsShape(s, V, v, n)) == if s.Nil? then n else Id(s)
  {
    match s
    case Nil =>
    case Br(l, i, r) =>
      InsShapeFacts(l, V, v, n);
      InsShapeFacts(r, V, v, n);
  }

  /**
   * The links after attaching node `n` (at the end of the arena) below `y`,
   * on its left when `goLeft`, else on its right.
   */
  ghost predicate AttachedAt(L: seq<int>, R: seq<int>, P: seq<int>, y: int, goLeft: bool,
                             L': seq<int>, R': seq<int>, P': seq<int>)
  {
    var n := |L|;
    && |R| == n && |P| == n && 0 <= y < n
    && |L'| == n + 1 && |R'| == n + 1 && |P'| == n + 1
    && L'[n] == -1 && R'[n] == -1 && P'[n] == y
    && (forall j :: 0 <= j < n && j != y ==> L'[j] == L[j] && R'[j] == R[j])
    && (forall j :: 0 <= j < n ==> P'[j] == P[j])
    && (goLeft ==> L'[y] == n && R'[y] == R[y])
    && (!goLeft ==> L'[y] == L[y] && R'[y] == n)
  }

  lemma {:induction false} AttachLinked(s: Shape, p0: int, L: seq<int>, R: seq<int>, P: seq<int>,
                                        V: seq<int>, v: int, L': seq<int>, R': seq<int>, P': seq<int>)
    requires s.Br? && Linked(s, p0, L, R, P) && Distinct(s) && p0 !in Ids(s)
    requires InsParent(s, V, v) in Ids(s)
    requires AttachedAt(L, R, P, InsParent(s, V, v), ValAt(V, InsParent(s, V, v)) > v, L', R', P')
    ensures Linked(InsShape(s, V, v, |L|), p0, L', R', P')
  {
    var n, y := |L|, InsParent(s, V, v);
    LinkedBounds(s, p0, L, R, P);
    match s
    case Br(l, i, r) =>
      if ValAt(V, i) > v {
        if l.Br? {
          InsParentIn(l, V, v);
        }
        assert y == i || y in Ids(l);
        LinkedFrameExcept(r, i, L, R, P, L'[..n], R'[..n], P'[..n], {y});
        LinkedBounds(r, i, L, R, P);
        LinkedFrame(r, i, L'[..n], R'[..n], P'[..n], L', R', P');
        if l.Br? {
          AttachLinked(l, i, L, R, P, V, v, L', R', P');
        }
      } else {
        if r.Br? {
          InsParentIn(r, V, v);
        }
        assert y == i || y in Ids(r);
        LinkedFrameExcept(l, i, L, R, P, L'[..n], R'[..n], P'[..n], {y});
        LinkedBounds(l, i, L, R, P);
        LinkedFrame(l, i, L'[..n], R'[..n], P'[..n], L', R', P');
        if r.Br? {
          AttachLinked(r, i, L, R, P, V, v, L', R', P');
        }
      }
  }

  /** Attaching node `n`, Red and holding `v`, is the abstract insertion of a Red leaf. */
  lemma {:induction false} InsShapeAbs(s: Shape, C: seq<Color>, V: seq<int>, v: int)
    requires |C| == |V| && forall j :: j in Ids(s) ==> 0 <= j < |V|
    ensures Abs(InsShape(s, V, v, |V|), C + [Red], V + [v]) == InsertLeaf(Abs(s, C, V), v)
  {
    var C', V' := C + [Red], V + [v];
    match s
    case Nil =>
    case Br(l, i, r) =>
      assert forall j :: j in Ids(l) ==> j in Ids(s);
      assert forall j :: j in Ids(r) ==> j in Ids(s);
      assert forall j :: j in Ids(s) ==> ColorAt(C', j) == ColorAt(C, j) && ValAt(V', j) == ValAt(V, j);
      if ValAt(V, i) > v {
        InsShapeAbs(l, C, V, v);
        AbsFrame(r, C, V, C', V');
      } else {
        InsShapeAbs(r, C, V, v);
        AbsFrame(l, C, V, C', V');
      }
  }

  // ---------------------------------------------------------------------------
  // The red-black invariants, node by node
  // ---------------------------------------------------------------------------

  predicate IsRed(C: seq<Color>, i: int)
  {
    0 <= i < |C| && C[i] == Red
  }

  /** Black nodes from `c` down to an absent child, counting `c` itself; 0 for an absent node. */
  function BhOf(C: seq<Color>, bh: seq<nat>, c: int): nat
  {
    if 0 <= c < |bh| then bh[c] + (if IsRed(C, c) then 0 else 1) else 0
  }

  /** Both children of every node agree on the Black count recorded for that node. */
  ghost predicate LocallyBalanced(L: seq<int>, R: seq<int>, C: seq<Color>, bh: seq<nat>)
  {
    && (forall i {:trigger L[i]} :: 0 <= i < |L| && i < |bh| ==> BhOf(C, bh, L[i]) == bh[i])
    && (forall i {:trigger R[i]} :: 0 <= i < |R| && i < |bh| ==> BhOf(C, bh, R[i]) == bh[i])
  }

  /** A Red node has no Red child, except possibly the node `z`. */
  ghost predicate RedRedFreeExcept(L: seq<int>, R: seq<int>, C: seq<Color>, z: int)
  {
    && (forall i {:trigger L[i]} :: 0 <= i < |L| && IsRed(C, i) ==> L[i] == z || !IsRed(C, L[i]))
    && (forall i {:trigger R[i]} :: 0 <= i < |R| && IsRed(C, i) ==> R[i] == z || !IsRed(C, R[i]))
  }

  /** The node-by-node invariants make the abstract tree balanced and free of Red-Red edges. */
  lemma {:induction false} LocalToGlobal(s: Shape, p: int, L: seq<int>, R: seq<int>, P: seq<int>,
                                         C: seq<Color>, V: seq<int>, bh: seq<nat>)
    requires Linked(s, p, L, R, P) && |bh| == |L| && |C| == |L|
    requires LocallyBalanced(L, R, C, bh) && RedRedFreeExcept(L, R, C, -1)
    ensures Balanced(Abs(s, C, V)) && NoRedRed(Abs(s, C, V))
    ensures BlackHeight(Abs(s, C, V)) == BhOf(C, bh, Id(s))
    ensures IsRedRooted(Abs(s, C, V)) <==> IsRed(C, Id(s))
  {
    match s
    case Nil =>
    case Br(l, i, r) =>
      LocalToGlobal(l, i, L, R, P, C, V, bh);
      LocalToGlobal(r, i, L, R, P, C, V, bh);
  }
  // ---------------------------------------------------------------------------
  // Node-by-node consequences of a linked arena
  // ---------------------------------------------------------------------------

  /**
   * The link facts each step of the fixup relies on: links stay inside the arena,
   * a child's parent entry points back, a parent has the node as one of its two
   * distinct children, and no node is its own parent or grandparent.
   */
  ghost predicate Consistent(L: seq<int>, R: seq<int>, P: seq<int>)
  {
    && |L| == |R| == |P|
    && (forall i :: 0 <= i < |L| ==> -1 <= L[i] < |L|)
    && (forall i :: 0 <= i < |L| ==> -1 <= R[i] < |L|)
    && (forall i :: 0 <= i < |L| ==> -1 <= P[i] < |L|)
    && (forall i, j {:trigger L[i], P[j]} :: 0 <= i < |L| && 0 <= j < |L| && L[i] == j ==> P[j] == i)
    && (forall i, j {:trigger R[i], P[j]} :: 0 <= i < |L| && 0 <= j < |L| && R[i] == j ==> P[j] == i)
    && (forall i :: 0 <= i < |L| && L[i] != -1 ==> L[i] != R[i])
    && (forall i, j {:trigger P[i], L[j]} :: 0 <= i < |L| && 0 <= j < |L| && P[i] == j ==> L[j] == i || R[j] == i)
    && (forall i :: 0 <= i < |L| ==> P[i] != i)
    && (forall i, j {:trigger P[i], P[j]} :: 0 <= i < |L| && 0 <= j < |L| && P[i] == j ==> P[j] != i)
  }

  lemma LinkedConsistent(s: Shape, L: seq<int>, R: seq<int>, P: seq<int>)
    requires Linked(s, -1, L, R, P) && Distinct(s) && |L| == |R| == |P|
    requires forall i :: i in Ids(s) <==> 0 <= i < |L|
    ensures Consistent(L, R, P)
    ensures forall i :: 0 <= i < |L| ==> (P[i] == -1 <==> i == Id(s))
  {
    LinkedFacts(s, -1, L, R, P);
    forall i | 0 <= i < |L| && P[i] != -1
      ensures P[i] != i && P[P[i]] != i
    {
      assert i in Ids(s);
      ParentSub(s, i, -1, L, R, P);
      if P[i] != Id(s) {
        ParentSub(s, P[i], -1, L, R, P);
      } else {
        assert P[P[i]] == -1;
      }
    }
  }

  lemma {:induction false} SubAbsent(s: Shape, x: int)
    requires x !in Ids(s)
    ensures Sub(s, x) == Nil
  {
    match s
    case Nil =>
    case Br(l, i, r) =>
      SubAbsent(r, x);
  }

  // ---------------------------------------------------------------------------
  // The arena as a whole, and what the two rotations do to it
  // ---------------------------------------------------------------------------

  /** The links form the tree `s`, whose ids are exactly the indices of the arena. */
  ghost predicate ArenaTree(s: Shape, L: seq<int>, R: seq<int>, P: seq<int>)
  {
    && |L| == |R| == |P|
    && Distinct(s) && (forall i :: i in Ids(s) <==> 0 <= i < |L|)
    && Linked(s, -1, L, R, P)
    && Consistent(L, R, P)
    && (forall i :: 0 <= i < |L| ==> (P[i] == -1 <==> i == Id(s)))
  }

  /** The links a left rotation of `x` stays within the arena. */
  lemma RotateLeftInArena(s: Shape, L: seq<int>, R: seq<int>, P: seq<int>, x: int)
    requires ArenaTree(s, L, R, P) && 0 <= x < |L| && R[x] != -1
    ensures 0 <= R[x] < |L| && -1 <= L[R[x]] < |L| && -1 <= P[x] < |L|
    ensures P[x] == -1 <==> x == Id(s)
  {
  }

  /** A left rotation of `x` leaves a tree of the same ids in the same sorted order. */
  lemma RotateLeftArena(s: Shape, L: seq<int>, R: seq<int>, P: seq<int>, x: int,
                        L': seq<int>, R': seq<int>, P': seq<int>)
    requires ArenaTree(s, L, R, P) && 0 <= x < |L| && R[x] != -1
    requires 0 <= R[x] < |L| && -1 <= L[R[x]] < |L| && -1 <= P[x] < |L|
    requires (L', R', P') == RotatedLeft(L, R, P, x)
    ensures LeftRotationOf(L, R, P, x, L', R', P')
    ensures ArenaTree(Replace(s, x, RotL(Sub(s, x))), L', R', P')
    ensures InOrderIds(Replace(s, x, RotL(Sub(s, x)))) == InOrderIds(s)
    ensures Id(Replace(s, x, RotL(Sub(s, x)))) == if P[x] == -1 then R[x] else Id(s)
  {
    var X := R[x];
    assert P[X] == x && X != x && P[x] != x && P[x] != X;
    assert L[X] != -1 ==> P[L[X]] == X && L[X] != x && L[X] != X;
    RotatedLeftEffect(L, R, P, x);
    LeftRotationLinked(s, -1, L, R, P, x, L', R', P');
    SubIds(s, x);
    RotLFacts(Sub(s, x));
    var s' := Replace(s, x, RotL(Sub(s, x)));
    ReplaceFacts(s, x, RotL(Sub(s, x)));
    assert Ids(s') == Ids(s);
    LinkedConsistent(s', L', R', P');
  }

  /** The links a right rotation of `x` stays within the arena. */
  lemma RotateRightInArena(s: Shape, L: seq<int>, R: seq<int>, P: seq<int>, x: int)
    requires ArenaTree(s, L, R, P) && 0 <= x < |L| && L[x] != -1
    ensures 0 <= L[x] < |L| && -1 <= R[L[x]] < |L| && -1 <= P[x] < |L|
    ensures P[x] == -1 <==> x == Id(s)
  {
  }

  /** A right rotation of `x` leaves a tree of the same ids in the same sorted order. */
  lemma RotateRightArena(s: Shape, L: seq<int>, R: seq<int>, P: seq<int>, x: int,
                         L': seq<int>, R': seq<int>, P': seq<int>)
    requires ArenaTree(s, L, R, P) && 0 <= x < |L| && L[x] != -1
    requires 0 <= L[x] < |L| && -1 <= R[L[x]] < |L| && -1 <= P[x] < |L|
    requires (L', R', P') == RotatedRight(L, R, P, x)
    ensures RightRotationOf(L, R, P, x, L', R', P')
    ensures ArenaTree(Replace(s, x, RotR(Sub(s, x))), L', R', P')
    ensures InOrderIds(Replace(s, x, RotR(Sub(s, x)))) == InOrderIds(s)
    ensures Id(Replace(s, x, RotR(Sub(s, x)))) == if P[x] == -1 then L[x] else Id(s)
  {
    var X := L[x];
    assert P[X] == x && X != x && P[x] != x && P[x] != X;
    assert R[X] != -1 ==> P[R[X]] == X && R[X] != x && R[X] != X;
    RotatedRightEffect(L, R, P, x);
    RightRotationLinked(s, -1, L, R, P, x, L', R', P');
    SubIds(s, x);
    RotRFacts(Sub(s, x));
    var s' := Replace(s, x, RotR(Sub(s, x)));
    ReplaceFacts(s, x, RotR(Sub(s, x)));
    assert Ids(s') == Ids(s);
    LinkedConsistent(s', L', R', P');
  }

  /** The descent of insertion stops at a node whose child on the side it would take is absent. */
  lemma {:induction false} InsParentEmpty(s: Shape, p: int, L: seq<int>, R: seq<int>, P: seq<int>, V: seq<int>, v: int)
    requires s.Br? && Linked(s, p, L, R, P)
    ensures 0 <= InsParent(s, V, v) < |L| && InsParent(s, V, v) < |R|
    ensures ValAt(V, InsParent(s, V, v)) > v ==> L[InsParent(s, V, v)] == -1
    ensures ValAt(V, InsParent(s, V, v)) <= v ==> R[InsParent(s, V, v)] == -1
  {
    match s
    case Br(l, i, r) =>
      if ValAt(V, i) > v {
        if l.Br? { InsParentEmpty(l, i, L, R, P, V, v); }
      } else {
        if r.Br? { InsParentEmpty(r, i, L, R, P, V, v); }
      }
  }

  /** Attaching the new node where the descent stops leaves a tree with one more id. */
  lemma AttachArena(s: Shape, L: seq<int>, R: seq<int>, P: seq<int>, V: seq<int>, v: int,
                    L': seq<int>, R': seq<int>, P': seq<int>)
    requires ArenaTree(s, L, R, P) && s.Br?
    requires AttachedAt(L, R, P, InsParent(s, V, v), ValAt(V, InsParent(s, V, v)) > v, L', R', P')
    ensures ArenaTree(InsShape(s, V, v, |L|), L', R', P') && Id(InsShape(s, V, v, |L|)) == Id(s)
  {
    InsParentIn(s, V, v);
    AttachLinked(s, -1, L, R, P, V, v, L', R', P');
    InsShapeFacts(s, V, v, |L|);
    var s' := InsShape(s, V, v, |L|);
    assert forall i :: i in Ids(s') <==> 0 <= i < |L'|;
    LinkedConsistent(s', L', R', P');
  }

  // ---------------------------------------------------------------------------
  // Walking the arena
  // ---------------------------------------------------------------------------

  /** The subtree at an index of the arena is that node over the subtrees at its two child links. */
  lemma SubAt(s: Shape, L: seq<int>, R: seq<int>, P: seq<int>, x: int)
    requires ArenaTree(s, L, R, P) && 0 <= x < |L|
    ensures -1 <= L[x] < |L| && -1 <= R[x] < |L|
    ensures Sub(s, x) == Br(Sub(s, L[x]), x, Sub(s, R[x]))
  {
    assert x in Ids(s);
    SubChildren(s, x, -1, L, R, P);
    SubIds(s, x);
    var t := Sub(s, x);
    assert Ids(t.left) <= Ids(t) && Ids(t.right) <= Ids(t);
    assert -1 !in Ids(s);
    SubAbsent(s, -1);
    if t.left.Br? {
      assert t.left.id in Ids(s);
    } else {
      assert Sub(s, L[x]) == Nil;
    }
    if t.right.Br? {
      assert t.right.id in Ids(s);
    } else {
      assert Sub(s, R[x]) == Nil;
    }
  }

  /** The subtree at the root is the whole tree, and there is none at -1. */
  lemma SubTop(s: Shape, L: seq<int>, R: seq<int>, P: seq<int>)
    requires ArenaTree(s, L, R, P)
    ensures Sub(s, Id(s)) == s && Sub(s, -1) == Nil
  {
    assert -1 !in Ids(s);
    SubAbsent(s, -1);
  }

  /** The arena is empty exactly when the tree is, and then the root id is -1. */
  lemma EmptyShape(s: Shape, L: seq<int>, R: seq<int>, P: seq<int>)
    requires ArenaTree(s, L, R, P)
    ensures s == Nil <==> Id(s) == -1
    ensures s == Nil <==> |L| == 0
  {
    match s
    case Nil =>
      assert |L| > 0 ==> 0 in Ids(s);
    case Br(_, i, _) =>
      assert i in Ids(s);
  }

  /** `y` comes right after `x` in the walk `q`. */
  ghost predicate Follows(q: seq<int>, x: int, y: int)
  {
    exists i :: 0 <= i < |q| - 1 && q[i] == x && q[i + 1] == y
  }

  /** `x` is the first element of the walk `q`. */
  ghost predicate IsFirst(q: seq<int>, x: int)
  {
    |q| > 0 && q[0] == x
  }

  /** `x` is the last element of the walk `q`. */
  ghost predicate IsLast(q: seq<int>, x: int)
  {
    |q| > 0 && q[|q| - 1] == x
  }

  /** A node that some node follows in the walk of an arena tree is not its last node. */
  lemma FollowedIsNotLast(s: Shape, L: seq<int>, R: seq<int>, P: seq<int>, x: int, y: int)
    requires ArenaTree(s, L, R, P) && Follows(InOrderIds(s), x, y)
    ensures !IsLast(InOrderIds(s), x)
  {
    InOrderIdsFacts(s);
    var q := InOrderIds(s);
    var i :| 0 <= i < |q| - 1 && q[i] == x && q[i + 1] == y;
    assert q[i] != q[|q| - 1];
  }

  /** A node that follows some node in the walk of an arena tree is not its first node. */
  lemma FollowerIsNotFirst(s: Shape, L: seq<int>, R: seq<int>, P: seq<int>, y: int, x: int)
    requires ArenaTree(s, L, R, P) && Follows(InOrderIds(s), y, x)
    ensures !IsFirst(InOrderIds(s), x)
  {
    InOrderIdsFacts(s);
    var q := InOrderIds(s);
    var i :| 0 <= i < |q| - 1 && q[i] == y && q[i + 1] == x;
    assert q[0] != q[i + 1];
  }

  /** Where a node and its two subtrees sit in the walk of the whole tree. */
  lemma WalkAt(s: Shape, L: seq<int>, R: seq<int>, P: seq<int>, x: int) returns (A: seq<int>, B: seq<int>)
    requires ArenaTree(s, L, R, P) && 0 <= x < |L|
    ensures -1 <= L[x] < |L| && -1 <= R[x] < |L|
    ensures InOrderIds(s) == A + InOrderIds(Sub(s, L[x])) + [x] + InOrderIds(Sub(s, R[x])) + B
  {
    SubAt(s, L, R, P, x);
    assert x in Ids(s);
    A, B := SubContext(s, x);
  }

  /** The walk of a node ends with the walk of its right subtree, when that is not empty. */
  lemma LastOfRight(s: Shape, L: seq<int>, R: seq<int>, P: seq<int>, y: int, x: int)
    requires ArenaTree(s, L, R, P) && 0 <= y < |L| && R[y] != -1
    requires IsLast(InOrderIds(Sub(s, R[y])), x)
    ensures IsLast(InOrderIds(Sub(s, y)), x)
  {
    SubAt(s, L, R, P, y);
  }

  /** The walk of a node starts with the walk of its left subtree, when that is not empty. */
  lemma FirstOfLeft(s: Shape, L: seq<int>, R: seq<int>, P: seq<int>, y: int, x: int)
    requires ArenaTree(s, L, R, P) && 0 <= y < |L| && L[y] != -1
    requires IsFirst(InOrderIds(Sub(s, L[y])), x)
    ensures IsFirst(InOrderIds(Sub(s, y)), x)
  {
    SubAt(s, L, R, P, y);
  }

  /** A node with no left subtree starts the walk of its own subtree; with no right subtree it ends it. */
  lemma OwnWalkEnds(s: Shape, L: seq<int>, R: seq<int>, P: seq<int>, x: int)
    requires ArenaTree(s, L, R, P) && 0 <= x < |L|
    ensures L[x] == -1 ==> IsFirst(InOrderIds(Sub(s, x)), x)
    ensures R[x] == -1 ==> IsLast(InOrderIds(Sub(s, x)), x)
  {
    SubAt(s, L, R, P, x);
    SubTop(s, L, R, P);
  }

  /** An element that ends a block is followed by whatever comes right after the block. */
  lemma FollowsAfterBlock(q: seq<int>, A: seq<int>, W: seq<int>, y: int, Z: seq<int>, x: int)
    requires q == A + W + [y] + Z && IsLast(W, x)
    ensures Follows(q, x, y)
  {
    var i := |A| + |W| - 1;
    assert q[i] == x && q[i + 1] == y;
  }

  /** An element that starts a block follows whatever comes right before the block. */
  lemma FollowsBeforeBlock(q: seq<int>, A: seq<int>, y: int, W: seq<int>, Z: seq<int>, x: int)
    requires q == A + [y] + W + Z && IsFirst(W, x)
    ensures Follows(q, y, x)
  {
    var i := |A|;
    assert q[i] == y && q[i + 1] == x;
  }
}
