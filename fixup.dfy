/**
 * One step of the Red-Red repair that follows an insertion, stated on the link,
 * colour and black-height sequences of the arena. Each lemma takes the state at
 * the top of an iteration (node `z` Red, its parent Red) and shows what the
 * step's recolouring or rotation leaves behind.
 */
module Fixup {
  import opened Trees
  import opened Arena

  /** The state at the top of an iteration of the repair loop. */
  ghost predicate Conflict(L: seq<int>, R: seq<int>, P: seq<int>, C: seq<Color>, bh: seq<nat>, z: int)
  {
    && Consistent(L, R, P) && |C| == |L| && |bh| == |L|
    && LocallyBalanced(L, R, C, bh) && RedRedFreeExcept(L, R, C, z)
    && 0 <= z < |L| && IsRed(C, z) && IsRed(C, P[z])
  }

  /** In a conflict the grandparent exists, is Black, and the three nodes are distinct. */
  lemma ConflictShape(L: seq<int>, R: seq<int>, P: seq<int>, C: seq<Color>, bh: seq<nat>, z: int, root: int)
    requires Conflict(L, R, P, C, bh, z)
    requires !IsRed(C, root) && (forall i :: 0 <= i < |L| ==> (P[i] == -1 <==> i == root))
    ensures 0 <= P[z] < |L| && 0 <= P[P[z]] < |L|
    ensures P[z] != z && P[P[z]] != z && P[P[z]] != P[z]
    ensures !IsRed(C, P[P[z]])
    ensures L[P[P[z]]] == P[z] || R[P[P[z]]] == P[z]
    ensures L[P[z]] == z || R[P[z]] == z
  {
    var p := P[z];
    assert p != root;
    var g := P[p];
    assert L[g] == p || R[g] == p;
    assert p != z;
  }

  /**
   * Red uncle: the parent and the uncle turn Black and the grandparent Red; the
   * grandparent's black height grows by one and it becomes the node in conflict.
   */
  lemma RecolorStep(L: seq<int>, R: seq<int>, P: seq<int>, C: seq<Color>, bh: seq<nat>, z: int, u: int)
    requires Conflict(L, R, P, C, bh, z)
    requires 0 <= P[P[z]] < |L| && P[P[z]] != P[z] && P[P[z]] != z && !IsRed(C, P[P[z]])
    requires (L[P[P[z]]] == P[z] && u == R[P[P[z]]]) || (R[P[P[z]]] == P[z] && u == L[P[P[z]]])
    requires IsRed(C, u)
    ensures var p := P[z]; var g := P[p];
            var C' := C[u := Black][p := Black][g := Red];
            var bh' := bh[g := bh[g] + 1];
            && LocallyBalanced(L, R, C', bh') && RedRedFreeExcept(L, R, C', g) && IsRed(C', g)
  {
    RecolorBalanced(L, R, P, C, bh, z, u);
    RecolorRedFree(L, R, P, C, bh, z, u);
  }

  lemma RecolorBalanced(L: seq<int>, R: seq<int>, P: seq<int>, C: seq<Color>, bh: seq<nat>, z: int, u: int)
    requires Conflict(L, R, P, C, bh, z)
    requires 0 <= P[P[z]] < |L| && P[P[z]] != P[z] && P[P[z]] != z && !IsRed(C, P[P[z]])
    requires (L[P[P[z]]] == P[z] && u == R[P[P[z]]]) || (R[P[P[z]]] == P[z] && u == L[P[P[z]]])
    requires IsRed(C, u)
    ensures var p := P[z]; var g := P[p];
            LocallyBalanced(L, R, C[u := Black][p := Black][g := Red], bh[g := bh[g] + 1])
  {
    var p := P[z];
    var g := P[p];
    assert u != p && u != g && P[u] == g && P[p] == g;
    assert BhOf(C, bh, p) == bh[g] && BhOf(C, bh, u) == bh[g];
    RecolorBhOf(C, bh, u, p, g);
    forall i | 0 <= i < |L|
      ensures BhOf(C[u := Black][p := Black][g := Red], bh[g := bh[g] + 1], L[i]) == bh[g := bh[g] + 1][i]
      ensures BhOf(C[u := Black][p := Black][g := Red], bh[g := bh[g] + 1], R[i]) == bh[g := bh[g] + 1][i]
    {
      assert BhOf(C, bh, L[i]) == bh[i] && BhOf(C, bh, R[i]) == bh[i];
      if i != g {
        assert L[i] != p && L[i] != u && R[i] != p && R[i] != u;
      }
    }
  }

  /** How the recolouring changes BhOf, node by node. */
  lemma RecolorBhOf(C: seq<Color>, bh: seq<nat>, u: int, p: int, g: int)
    requires |C| == |bh| && 0 <= u < |C| && 0 <= p < |C| && 0 <= g < |C|
    requires u != p && u != g && p != g && C[u] == Red && C[p] == Red && C[g] == Black
    ensures var C', bh' := C[u := Black][p := Black][g := Red], bh[g := bh[g] + 1];
            && (forall j :: j != u && j != p && j != g ==> BhOf(C', bh', j) == BhOf(C, bh, j))
            && BhOf(C', bh', g) == BhOf(C, bh, g)
            && BhOf(C', bh', p) == BhOf(C, bh, p) + 1 && BhOf(C', bh', u) == BhOf(C, bh, u) + 1
            && bh'[g] == bh[g] + 1
  {
  }

  lemma RecolorRedFree(L: seq<int>, R: seq<int>, P: seq<int>, C: seq<Color>, bh: seq<nat>, z: int, u: int)
    requires Conflict(L, R, P, C, bh, z)
    requires 0 <= P[P[z]] < |L| && P[P[z]] != P[z] && P[P[z]] != z && !IsRed(C, P[P[z]])
    requires (L[P[P[z]]] == P[z] && u == R[P[P[z]]]) || (R[P[P[z]]] == P[z] && u == L[P[P[z]]])
    requires IsRed(C, u)
    ensures var p := P[z]; var g := P[p];
            var C' := C[u := Black][p := Black][g := Red];
            RedRedFreeExcept(L, R, C', g) && IsRed(C', g)
  {
    var p := P[z];
    var g := P[p];
    var C' := C[u := Black][p := Black][g := Red];
    assert u != p && u != g;
    assert forall j :: IsRed(C', j) ==> j == g || (IsRed(C, j) && j != p);
    forall i | 0 <= i < |L| && IsRed(C', i)
      ensures (L[i] == g || !IsRed(C', L[i])) && (R[i] == g || !IsRed(C', R[i]))
    {
      if i != g {
        assert IsRed(C, i) && i != p;
        assert L[i] != z && R[i] != z;
      }
    }
  }

  /**
   * Zig-zag on the left (`z` is the right child of a left child): rotating the
   * parent left turns it into the zig-zig case with the roles of `z` and its
   * parent exchanged; black heights are untouched.
   */
  lemma ZigZagLeft(L: seq<int>, R: seq<int>, P: seq<int>, C: seq<Color>, bh: seq<nat>, z: int,
                   L': seq<int>, R': seq<int>, P': seq<int>)
    requires Conflict(L, R, P, C, bh, z)
    requires 0 <= P[P[z]] < |L| && P[P[z]] != P[z] && P[P[z]] != z && !IsRed(C, P[P[z]])
    requires L[P[P[z]]] == P[z] && R[P[z]] == z
    requires LeftRotationOf(L, R, P, P[z], L', R', P')
    ensures var p := P[z]; var g := P[p];
            && LocallyBalanced(L', R', C, bh) && RedRedFreeExcept(L', R', C, p)
            && P'[p] == z && P'[z] == g && L'[g] == z && L'[z] == p && R'[g] == R[g]
  {
    var p := P[z];
    var g := P[p];
    var b := L[z];
    assert b != -1 ==> b != p && b != z && b != g;
    forall i | 0 <= i < |L|
      ensures BhOf(C, bh, L'[i]) == bh[i] && BhOf(C, bh, R'[i]) == bh[i]
    {
      assert BhOf(C, bh, L[i]) == bh[i] && BhOf(C, bh, R[i]) == bh[i];
      if i == z {
        assert BhOf(C, bh, p) == bh[z];
      } else if i == p {
        assert BhOf(C, bh, b) == bh[z];
      } else if i == g {
        assert BhOf(C, bh, z) == bh[g];
      }
    }
    forall i | 0 <= i < |L| && IsRed(C, i)
      ensures (L'[i] == p || !IsRed(C, L'[i])) && (R'[i] == p || !IsRed(C, R'[i]))
    {
      if i == p {
        assert L[p] != z;
        assert !IsRed(C, b);
      } else if i != z {
        assert i != g;
        assert L[i] == z ==> i == p;
        assert R[i] == z ==> i == p;
        assert L'[i] == L[i] && R'[i] == R[i];
      }
    }
  }

  /** The mirror image of ZigZagLeft. */
  lemma ZigZagRight(L: seq<int>, R: seq<int>, P: seq<int>, C: seq<Color>, bh: seq<nat>, z: int,
                    L': seq<int>, R': seq<int>, P': seq<int>)
    requires Conflict(L, R, P, C, bh, z)
    requires 0 <= P[P[z]] < |L| && P[P[z]] != P[z] && P[P[z]] != z && !IsRed(C, P[P[z]])
    requires R[P[P[z]]] == P[z] && L[P[z]] == z
    requires RightRotationOf(L, R, P, P[z], L', R', P')
    ensures var p := P[z]; var g := P[p];
            && LocallyBalanced(L', R', C, bh) && RedRedFreeExcept(L', R', C, p)
            && P'[p] == z && P'[z] == g && R'[g] == z && R'[z] == p && L'[g] == L[g]
  {
    var p := P[z];
    var g := P[p];
    var b := R[z];
    assert b != -1 ==> b != p && b != z && b != g;
    forall i | 0 <= i < |L|
      ensures BhOf(C, bh, L'[i]) == bh[i] && BhOf(C, bh, R'[i]) == bh[i]
    {
      assert BhOf(C, bh, L[i]) == bh[i] && BhOf(C, bh, R[i]) == bh[i];
      if i == z {
        assert BhOf(C, bh, p) == bh[z];
      } else if i == p {
        assert BhOf(C, bh, b) == bh[z];
      } else if i == g {
        assert BhOf(C, bh, z) == bh[g];
      }
    }
    forall i | 0 <= i < |L| && IsRed(C, i)
      ensures (L'[i] == p || !IsRed(C, L'[i])) && (R'[i] == p || !IsRed(C, R'[i]))
    {
      if i == p {
        assert R[p] != z;
        assert !IsRed(C, b);
      } else if i != z {
        assert i != g;
        assert L[i] == z ==> i == p;
        assert R[i] == z ==> i == p;
        assert L'[i] == L[i] && R'[i] == R[i];
      }
    }
  }

  /**
   * Zig-zig on the left (`z` is the left child of a left child, the uncle is not
   * Red): the parent turns Black, the grandparent Red, and rotating the
   * grandparent right removes the last Red-Red edge.
   */
  lemma ZigZigLeft(L: seq<int>, R: seq<int>, P: seq<int>, C: seq<Color>, bh: seq<nat>, z: int,
                   L': seq<int>, R': seq<int>, P': seq<int>)
    requires Conflict(L, R, P, C, bh, z)
    requires 0 <= P[P[z]] < |L| && P[P[z]] != P[z] && P[P[z]] != z && !IsRed(C, P[P[z]])
    requires L[P[P[z]]] == P[z] && L[P[z]] == z && !IsRed(C, R[P[P[z]]])
    requires RightRotationOf(L, R, P, P[P[z]], L', R', P')
    ensures var p := P[z]; var g := P[p];
            var C' := C[p := Black][g := Red];
            && LocallyBalanced(L', R', C', bh) && RedRedFreeExcept(L', R', C', -1)
            && P'[z] == p && P'[p] == P[g]
  {
    ZigZigLeftBalanced(L, R, P, C, bh, z, L', R', P');
    ZigZigLeftRedFree(L, R, P, C, bh, z, L', R', P');
  }

  lemma ZigZigLeftBalanced(L: seq<int>, R: seq<int>, P: seq<int>, C: seq<Color>, bh: seq<nat>, z: int,
                           L': seq<int>, R': seq<int>, P': seq<int>)
    requires Conflict(L, R, P, C, bh, z)
    requires 0 <= P[P[z]] < |L| && P[P[z]] != P[z] && P[P[z]] != z && !IsRed(C, P[P[z]])
    requires L[P[P[z]]] == P[z] && L[P[z]] == z && !IsRed(C, R[P[P[z]]])
    requires RightRotationOf(L, R, P, P[P[z]], L', R', P')
    ensures var p := P[z]; var g := P[p];
            LocallyBalanced(L', R', C[p := Black][g := Red], bh)
  {
    var p := P[z];
    var g := P[p];
    var s := R[p];
    var u := R[g];
    assert s != -1 ==> s != p && s != g && s != z;
    assert u != -1 ==> u != p && u != g;
    RepaintFacts(C, bh, p, g);
    forall i | 0 <= i < |L|
      ensures BhOf(C[p := Black][g := Red], bh, L'[i]) == bh[i]
      ensures BhOf(C[p := Black][g := Red], bh, R'[i]) == bh[i]
    {
      assert BhOf(C, bh, L[i]) == bh[i] && BhOf(C, bh, R[i]) == bh[i];
      if i == p {
        assert BhOf(C, bh, p) == bh[g];
      } else if i == g {
      } else if i == P[g] {
        assert L[i] != p && R[i] != p;
      } else {
        assert L[i] != p && R[i] != p && L[i] != g && R[i] != g;
      }
    }
  }

  lemma ZigZigLeftRedFree(L: seq<int>, R: seq<int>, P: seq<int>, C: seq<Color>, bh: seq<nat>, z: int,
                          L': seq<int>, R': seq<int>, P': seq<int>)
    requires Conflict(L, R, P, C, bh, z)
    requires 0 <= P[P[z]] < |L| && P[P[z]] != P[z] && P[P[z]] != z && !IsRed(C, P[P[z]])
    requires L[P[P[z]]] == P[z] && L[P[z]] == z && !IsRed(C, R[P[P[z]]])
    requires RightRotationOf(L, R, P, P[P[z]], L', R', P')
    ensures var p := P[z]; var g := P[p];
            && RedRedFreeExcept(L', R', C[p := Black][g := Red], -1)
            && P'[z] == p && P'[p] == P[g]
  {
    var p := P[z];
    var g := P[p];
    var C' := C[p := Black][g := Red];
    var s := R[p];
    assert s != -1 ==> s != p && s != g && s != z;
    RepaintFacts(C, bh, p, g);
    forall i | 0 <= i < |L| && IsRed(C', i)
      ensures !IsRed(C', L'[i]) && !IsRed(C', R'[i])
    {
      if i == g {
        assert L[p] != R[p];
        assert !IsRed(C, s);
      } else {
        assert IsRed(C, i) && i != p;
        assert L[i] != z && R[i] != z;
        assert i != P[g] ==> L[i] != g && R[i] != g;
      }
    }
  }

  /** The mirror image of ZigZigLeft. */
  lemma ZigZigRight(L: seq<int>, R: seq<int>, P: seq<int>, C: seq<Color>, bh: seq<nat>, z: int,
                    L': seq<int>, R': seq<int>, P': seq<int>)
    requires Conflict(L, R, P, C, bh, z)
    requires 0 <= P[P[z]] < |L| && P[P[z]] != P[z] && P[P[z]] != z && !IsRed(C, P[P[z]])
    requires R[P[P[z]]] == P[z] && R[P[z]] == z && !IsRed(C, L[P[P[z]]])
    requires LeftRotationOf(L, R, P, P[P[z]], L', R', P')
    ensures var p := P[z]; var g := P[p];
            var C' := C[p := Black][g := Red];
            && LocallyBalanced(L', R', C', bh) && RedRedFreeExcept(L', R', C', -1)
            && P'[z] == p && P'[p] == P[g]
  {
    ZigZigRightBalanced(L, R, P, C, bh, z, L', R', P');
    ZigZigRightRedFree(L, R, P, C, bh, z, L', R', P');
  }

  lemma ZigZigRightBalanced(L: seq<int>, R: seq<int>, P: seq<int>, C: seq<Color>, bh: seq<nat>, z: int,
                            L': seq<int>, R': seq<int>, P': seq<int>)
    requires Conflict(L, R, P, C, bh, z)
    requires 0 <= P[P[z]] < |L| && P[P[z]] != P[z] && P[P[z]] != z && !IsRed(C, P[P[z]])
    requires R[P[P[z]]] == P[z] && R[P[z]] == z && !IsRed(C, L[P[P[z]]])
    requires LeftRotationOf(L, R, P, P[P[z]], L', R', P')
    ensures var p := P[z]; var g := P[p];
            LocallyBalanced(L', R', C[p := Black][g := Red], bh)
  {
    var p := P[z];
    var g := P[p];
    var s := L[p];
    var u := L[g];
    assert s != -1 ==> s != p && s != g && s != z;
    assert u != -1 ==> u != p && u != g;
    RepaintFacts(C, bh, p, g);
    forall i | 0 <= i < |L|
      ensures BhOf(C[p := Black][g := Red], bh, L'[i]) == bh[i]
      ensures BhOf(C[p := Black][g := Red], bh, R'[i]) == bh[i]
    {
      assert BhOf(C, bh, L[i]) == bh[i] && BhOf(C, bh, R[i]) == bh[i];
      if i == p {
        assert BhOf(C, bh, p) == bh[g];
      } else if i == g {
      } else if i == P[g] {
        assert L[i] != p && R[i] != p;
      } else {
        assert L[i] != p && R[i] != p && L[i] != g && R[i] != g;
      }
    }
  }

  lemma ZigZigRightRedFree(L: seq<int>, R: seq<int>, P: seq<int>, C: seq<Color>, bh: seq<nat>, z: int,
                           L': seq<int>, R': seq<int>, P': seq<int>)
    requires Conflict(L, R, P, C, bh, z)
    requires 0 <= P[P[z]] < |L| && P[P[z]] != P[z] && P[P[z]] != z && !IsRed(C, P[P[z]])
    requires R[P[P[z]]] == P[z] && R[P[z]] == z && !IsRed(C, L[P[P[z]]])
    requires LeftRotationOf(L, R, P, P[P[z]], L', R', P')
    ensures var p := P[z]; var g := P[p];
            && RedRedFreeExcept(L', R', C[p := Black][g := Red], -1)
            && P'[z] == p && P'[p] == P[g]
  {
    var p := P[z];
    var g := P[p];
    var C' := C[p := Black][g := Red];
    var s := L[p];
    assert s != -1 ==> s != p && s != g && s != z;
    RepaintFacts(C, bh, p, g);
    forall i | 0 <= i < |L| && IsRed(C', i)
      ensures !IsRed(C', L'[i]) && !IsRed(C', R'[i])
    {
      if i == g {
        assert L[p] != R[p];
        assert !IsRed(C, s);
      } else {
        assert IsRed(C, i) && i != p;
        assert L[i] != z && R[i] != z;
        assert i != P[g] ==> L[i] != g && R[i] != g;
      }
    }
  }

  /** Swapping the colours of a Red node and a Black node, as the zig-zig step does. */
  lemma RepaintFacts(C: seq<Color>, bh: seq<nat>, p: int, g: int)
    requires |C| == |bh| && 0 <= p < |C| && 0 <= g < |C| && p != g && C[p] == Red && C[g] == Black
    ensures var C' := C[p := Black][g := Red];
            && (forall j :: j != p && j != g ==> BhOf(C', bh, j) == BhOf(C, bh, j) && (IsRed(C', j) <==> IsRed(C, j)))
            && BhOf(C', bh, p) == BhOf(C, bh, p) + 1 && BhOf(C', bh, g) + 1 == BhOf(C, bh, g)
            && IsRed(C', g) && !IsRed(C', p)
  {
  }

  /** Once the node in conflict has no Red parent, no Red node has a Red child. */
  lemma ConflictResolved(L: seq<int>, R: seq<int>, P: seq<int>, C: seq<Color>, z: int)
    requires Consistent(L, R, P) && |C| == |L| && 0 <= z < |L|
    requires RedRedFreeExcept(L, R, C, z) && !IsRed(C, P[z])
    ensures RedRedFreeExcept(L, R, C, -1)
  {
    forall i | 0 <= i < |L| && IsRed(C, i)
      ensures !IsRed(C, L[i]) && !IsRed(C, R[i])
    {
      assert P[z] != i;
    }
  }

  /** Painting the root Black keeps both node-by-node invariants. */
  lemma BlackenRoot(L: seq<int>, R: seq<int>, P: seq<int>, C: seq<Color>, bh: seq<nat>, root: int)
    requires Consistent(L, R, P) && |C| == |L| && |bh| == |L| && 0 <= root < |L| && P[root] == -1
    requires LocallyBalanced(L, R, C, bh) && RedRedFreeExcept(L, R, C, -1)
    ensures LocallyBalanced(L, R, C[root := Black], bh) && RedRedFreeExcept(L, R, C[root := Black], -1)
  {
    forall i | 0 <= i < |L|
      ensures BhOf(C[root := Black], bh, L[i]) == bh[i] && BhOf(C[root := Black], bh, R[i]) == bh[i]
    {
      assert L[i] != root && R[i] != root;
      assert BhOf(C, bh, L[i]) == bh[i] && BhOf(C, bh, R[i]) == bh[i];
    }
  }

  /**
   * Attaching a Red node with no children at the end of the arena, in an
   * empty child position of `y`, keeps every black height and leaves at most
   * one Red-Red edge, the one into the new node.
   */
  lemma AttachLocal(L: seq<int>, R: seq<int>, P: seq<int>, C: seq<Color>, bh: seq<nat>, y: int, goLeft: bool,
                    L': seq<int>, R': seq<int>, P': seq<int>)
    requires Consistent(L, R, P) && |C| == |L| && |bh| == |L|
    requires LocallyBalanced(L, R, C, bh) && RedRedFreeExcept(L, R, C, -1)
    requires AttachedAt(L, R, P, y, goLeft, L', R', P')
    requires goLeft ==> L[y] == -1
    requires !goLeft ==> R[y] == -1
    ensures LocallyBalanced(L', R', C + [Red], bh + [0]) && RedRedFreeExcept(L', R', C + [Red], |L|)
  {
    var n := |L|;
    var C', bh' := C + [Red], bh + [0];
    assert forall j :: -1 <= j < n ==> BhOf(C', bh', j) == BhOf(C, bh, j) && (IsRed(C', j) <==> IsRed(C, j));
    assert BhOf(C', bh', n) == 0 && IsRed(C', n);
    forall i | 0 <= i < n + 1
      ensures BhOf(C', bh', L'[i]) == bh'[i] && BhOf(C', bh', R'[i]) == bh'[i]
    {
      if i < n {
        assert BhOf(C, bh, L[i]) == bh[i] && BhOf(C, bh, R[i]) == bh[i];
        assert -1 <= L[i] < n && -1 <= R[i] < n;
      }
    }
    forall i | 0 <= i < n + 1 && IsRed(C', i)
      ensures (L'[i] == n || !IsRed(C', L'[i])) && (R'[i] == n || !IsRed(C', R'[i]))
    {
      if i < n {
        assert -1 <= L[i] < n && -1 <= R[i] < n;
      }
    }
  }

  /**
   * Attaching a new Red node holding `v` at the end of the descent for `v`:
   * the arena is still a tree with the same root, the abstract tree is the
   * abstract insertion of a Red leaf, and the only Red-Red edge, if any, is the
   * one into the new node.
   */
  lemma AttachStep(s: Shape, L: seq<int>, R: seq<int>, P: seq<int>, C: seq<Color>, V: seq<int>, bh: seq<nat>,
                   v: int, L': seq<int>, R': seq<int>, P': seq<int>)
    requires ArenaTree(s, L, R, P) && s.Br? && |C| == |L| && |V| == |L| && |bh| == |L|
    requires LocallyBalanced(L, R, C, bh) && RedRedFreeExcept(L, R, C, -1)
    requires AttachedAt(L, R, P, InsParent(s, V, v), ValAt(V, InsParent(s, V, v)) > v, L', R', P')
    ensures var s' := InsShape(s, V, v, |L|);
            && ArenaTree(s', L', R', P') && Id(s') == Id(s)
            && Abs(s', C + [Red], V + [v]) == InsertLeaf(Abs(s, C, V), v)
            && LocallyBalanced(L', R', C + [Red], bh + [0]) && RedRedFreeExcept(L', R', C + [Red], |L|)
  {
    var y := InsParent(s, V, v);
    InsParentEmpty(s, -1, L, R, P, V, v);
    AttachArena(s, L, R, P, V, v, L', R', P');
    AttachLocal(L, R, P, C, bh, y, ValAt(V, y) > v, L', R', P');
    InsShapeAbs(s, C, V, v);
  }

  // ---------------------------------------------------------------------------
  // The whole state of the tree object, and one case of the repair loop each
  // ---------------------------------------------------------------------------

  /** The arrays have one entry per node, the links form the tree `s`, and `root` is its top node. */
  ghost predicate Shaped(s: Shape, C: seq<Color>, V: seq<int>, L: seq<int>, R: seq<int>, P: seq<int>,
                         bh: seq<nat>, root: int)
  {
    && |C| == |L| && |V| == |L| && |R| == |L| && |P| == |L| && |bh| == |L|
    && ArenaTree(s, L, R, P) && root == Id(s)
  }

  /** A red-black tree except that the root may be Red. */
  ghost predicate Settled(s: Shape, C: seq<Color>, V: seq<int>, L: seq<int>, R: seq<int>, P: seq<int>,
                          bh: seq<nat>, root: int)
  {
    && Shaped(s, C, V, L, R, P, bh, root)
    && LocallyBalanced(L, R, C, bh) && RedRedFreeExcept(L, R, C, -1)
  }

  /**
   * The state at the top of the repair loop: the Red node `z` is not the root,
   * the root is not Red, and the edge from `z`'s parent to `z` is the only one
   * that may join two Red nodes.
   */
  ghost predicate Repairing(s: Shape, C: seq<Color>, V: seq<int>, L: seq<int>, R: seq<int>, P: seq<int>,
                            bh: seq<nat>, root: int, z: int)
  {
    && Shaped(s, C, V, L, R, P, bh, root)
    && LocallyBalanced(L, R, C, bh) && RedRedFreeExcept(L, R, C, z)
    && 0 <= z < |L| && IsRed(C, z) && z != root && !IsRed(C, root)
  }

  /** The node `z` in conflict has a parent, which is a node of the arena. */
  lemma RepairingParent(s: Shape, C: seq<Color>, V: seq<int>, L: seq<int>, R: seq<int>, P: seq<int>,
                        bh: seq<nat>, root: int, z: int)
    requires Repairing(s, C, V, L, R, P, bh, root, z)
    ensures Shaped(s, C, V, L, R, P, bh, root) && 0 <= z < |L| && 0 <= P[z] < |L| && z != root
  {
  }

  /**
   * With a Red parent, the node in conflict has a grandparent: the parent is one of
   * its two children, the uncle is the other (or absent), and `z` is a child of the parent.
   */
  lemma ConflictFacts(s: Shape, C: seq<Color>, V: seq<int>, L: seq<int>, R: seq<int>, P: seq<int>,
                      bh: seq<nat>, root: int, z: int)
    requires Repairing(s, C, V, L, R, P, bh, root, z) && IsRed(C, P[z])
    ensures var p := P[z];
            && 0 <= p < |L| && 0 <= P[p] < |L| && P[p] != p && P[p] != z
            && (L[P[p]] == p || R[P[p]] == p) && (L[P[p]] == p ==> R[P[p]] != p)
            && -1 <= L[P[p]] < |L| && -1 <= R[P[p]] < |L|
            && (L[p] == z || R[p] == z) && (L[p] == z ==> R[p] != z)
  {
    ConflictShape(L, R, P, C, bh, z, root);
  }

  /**
   * The recolouring case (the uncle `u` is as Red as the parent): after the parent and the
   * uncle turn Black and the grandparent `g` Red, `g` is the node in conflict, or, if
   * `g` is the root, no Red-Red edge is left. `g` lies strictly above `z`.
   */
  lemma RecolorCase(s: Shape, C: seq<Color>, V: seq<int>, L: seq<int>, R: seq<int>, P: seq<int>,
                    bh: seq<nat>, root: int, z: int, p: int, g: int, u: int)
    requires Repairing(s, C, V, L, R, P, bh, root, z)
    requires p == P[z] && 0 <= p < |L| && g == P[p] && 0 <= g < |L| && C[p] == Red
    requires (L[g] == p && u == R[g]) || (L[g] != p && u == L[g])
    requires 0 <= u < |L| && C[u] == C[p]
    ensures var C', bh' := C[u := Black][p := Black][g := Red], bh[g := bh[g] + 1];
            && (g != root ==> Repairing(s, C', V, L, R, P, bh', root, g) && 0 <= P[g] < |L|)
            && (g == root ==> Settled(s, C', V, L, R, P, bh', root) && 0 <= root < |L|)
    ensures Size(Sub(s, z)) < Size(Sub(s, g)) <= Size(s)
  {
    ConflictShape(L, R, P, C, bh, z, root);
    RecolorStep(L, R, P, C, bh, z, u);
    var C' := C[u := Black][p := Black][g := Red];
    assert P[u] == g && P[p] == g;
    assert root != u && root != p;
    if g == root {
      RootConflictFree(L, R, P, C', g);
    }
    GrandparentAbove(s, L, R, P, z);
  }

  /** No node has the root as a child, so an exception for the root is no exception. */
  lemma RootConflictFree(L: seq<int>, R: seq<int>, P: seq<int>, C: seq<Color>, root: int)
    requires Consistent(L, R, P) && |C| == |L| && 0 <= root < |L| && P[root] == -1
    requires RedRedFreeExcept(L, R, C, root)
    ensures RedRedFreeExcept(L, R, C, -1)
  {
    forall i | 0 <= i < |L| && IsRed(C, i)
      ensures !IsRed(C, L[i]) && !IsRed(C, R[i])
    {
      assert L[i] != root && R[i] != root;
    }
  }

  /** The subtree of a grandparent is larger than that of its grandchild. */
  lemma GrandparentAbove(s: Shape, L: seq<int>, R: seq<int>, P: seq<int>, z: int)
    requires ArenaTree(s, L, R, P) && 0 <= z < |L| && 0 <= P[z] < |L| && 0 <= P[P[z]] < |L|
    ensures Size(Sub(s, z)) < Size(Sub(s, P[P[z]])) <= Size(s)
  {
    ParentSub(s, z, -1, L, R, P);
    ParentSub(s, P[z], -1, L, R, P);
    SubFacts(s, P[P[z]], -1, L, R, P);
  }

  /** The zig-zig shape on the left: `z` is the left child of a left child, and the uncle is not Red. */
  ghost predicate LeftLeftConflict(s: Shape, C: seq<Color>, V: seq<int>, L: seq<int>, R: seq<int>, P: seq<int>,
                                   bh: seq<nat>, root: int, z: int)
  {
    && Repairing(s, C, V, L, R, P, bh, root, z)
    && 0 <= P[z] < |L| && 0 <= P[P[z]] < |L| && IsRed(C, P[z])
    && L[P[P[z]]] == P[z] && L[P[z]] == z && !IsRed(C, R[P[P[z]]])
  }

  /** The zig-zig shape on the right: `z` is the right child of a right child, and the uncle is not Red. */
  ghost predicate RightRightConflict(s: Shape, C: seq<Color>, V: seq<int>, L: seq<int>, R: seq<int>, P: seq<int>,
                                     bh: seq<nat>, root: int, z: int)
  {
    && Repairing(s, C, V, L, R, P, bh, root, z)
    && 0 <= P[z] < |L| && 0 <= P[P[z]] < |L| && IsRed(C, P[z])
    && R[P[P[z]]] == P[z] && R[P[z]] == z && !IsRed(C, L[P[P[z]]])
  }

  /** Without a zig-zag, the conflict on the left is already in the zig-zig shape. */
  lemma LeftLeftDirect(s: Shape, C: seq<Color>, V: seq<int>, L: seq<int>, R: seq<int>, P: seq<int>,
                       bh: seq<nat>, root: int, z: int)
    requires Repairing(s, C, V, L, R, P, bh, root, z)
    requires 0 <= P[z] < |L| && 0 <= P[P[z]] < |L| && IsRed(C, P[z])
    requires L[P[P[z]]] == P[z] && L[P[z]] == z && !IsRed(C, R[P[P[z]]])
    ensures LeftLeftConflict(s, C, V, L, R, P, bh, root, z)
  {
  }

  /** The mirror image of LeftLeftDirect. */
  lemma RightRightDirect(s: Shape, C: seq<Color>, V: seq<int>, L: seq<int>, R: seq<int>, P: seq<int>,
                         bh: seq<nat>, root: int, z: int)
    requires Repairing(s, C, V, L, R, P, bh, root, z)
    requires 0 <= P[z] < |L| && 0 <= P[P[z]] < |L| && IsRed(C, P[z])
    requires R[P[P[z]]] == P[z] && R[P[z]] == z && !IsRed(C, L[P[P[z]]])
    ensures RightRightConflict(s, C, V, L, R, P, bh, root, z)
  {
  }

  /**
   * The zig-zag case on the left (`z` is the right child of the left child `p`, the
   * uncle is not Red): rotating `p` left makes `p` the node in conflict, in the
   * zig-zig shape, without changing the sorted walk.
   */
  lemma ZigZagLeftCase(s: Shape, C: seq<Color>, V: seq<int>, L: seq<int>, R: seq<int>, P: seq<int>,
                       bh: seq<nat>, root: int, z: int, p: int)
    requires Repairing(s, C, V, L, R, P, bh, root, z)
    requires p == P[z] && 0 <= p < |L| && 0 <= P[p] < |L| && C[p] == Red
    requires L[P[p]] == p && R[p] == z && !IsRed(C, R[P[p]])
    ensures Shaped(s, C, V, L, R, P, bh, root)
    ensures 0 <= R[p] < |L| && -1 <= L[R[p]] < |L| && P[p] != -1
    ensures var (L', R', P') := RotatedLeft(L, R, P, p);
            var s' := Replace(s, p, RotL(Sub(s, p)));
            && |P'| == |L| && 0 <= P'[p] < |L| && 0 <= P'[P'[p]] < |L|
            && P'[p] == z && P'[z] == P[p]
            && LeftLeftConflict(s', C, V, L', R', P', bh, root, p)
            && InOrderIds(s') == InOrderIds(s)
  {
    ConflictShape(L, R, P, C, bh, z, root);
    RotateLeftInArena(s, L, R, P, p);
    var (L', R', P') := RotatedLeft(L, R, P, p);
    RotateLeftArena(s, L, R, P, p, L', R', P');
    ZigZagLeft(L, R, P, C, bh, z, L', R', P');
    var g := P[p];
    assert p != root;
    assert P'[p] == z && P'[z] == g && L'[g] == z && L'[z] == p;
  }

  /** The mirror image of ZigZagLeftCase. */
  lemma ZigZagRightCase(s: Shape, C: seq<Color>, V: seq<int>, L: seq<int>, R: seq<int>, P: seq<int>,
                        bh: seq<nat>, root: int, z: int, p: int)
    requires Repairing(s, C, V, L, R, P, bh, root, z)
    requires p == P[z] && 0 <= p < |L| && 0 <= P[p] < |L| && C[p] == Red
    requires R[P[p]] == p && L[p] == z && !IsRed(C, L[P[p]])
    ensures Shaped(s, C, V, L, R, P, bh, root)
    ensures 0 <= L[p] < |L| && -1 <= R[L[p]] < |L| && P[p] != -1
    ensures var (L', R', P') := RotatedRight(L, R, P, p);
            var s' := Replace(s, p, RotR(Sub(s, p)));
            && |P'| == |L| && 0 <= P'[p] < |L| && 0 <= P'[P'[p]] < |L|
            && P'[p] == z && P'[z] == P[p]
            && RightRightConflict(s', C, V, L', R', P', bh, root, p)
            && InOrderIds(s') == InOrderIds(s)
  {
    ConflictShape(L, R, P, C, bh, z, root);
    RotateRightInArena(s, L, R, P, p);
    var (L', R', P') := RotatedRight(L, R, P, p);
    RotateRightArena(s, L, R, P, p, L', R', P');
    ZigZagRight(L, R, P, C, bh, z, L', R', P');
    var g := P[p];
    assert p != root;
    assert P'[p] == z && P'[z] == g && R'[g] == z && R'[z] == p;
  }

  /**
   * The zig-zig case on the left: the parent turns Black, the grandparent `g` Red, and
   * rotating `g` right leaves no Red-Red edge; the parent takes `g`'s place, as the
   * root if `g` was the root. The sorted walk is unchanged.
   */
  lemma ZigZigLeftCase(s: Shape, C: seq<Color>, V: seq<int>, L: seq<int>, R: seq<int>, P: seq<int>,
                       bh: seq<nat>, root: int, z: int, g: int)
    requires LeftLeftConflict(s, C, V, L, R, P, bh, root, z) && g == P[P[z]]
    ensures 0 <= L[g] < |L| && -1 <= R[L[g]] < |L| && -1 <= P[g] < |L|
    ensures Shaped(s, C[P[z] := Black][g := Red], V, L, R, P, bh, root)
    ensures var C' := C[P[z] := Black][g := Red];
            var (L', R', P') := RotatedRight(L, R, P, g);
            var s' := Replace(s, g, RotR(Sub(s, g)));
            var root' := if P[g] == -1 then L[g] else root;
            && Repairing(s', C', V, L', R', P', bh, root', z) && z != root'
            && |P'| == |L| && 0 <= P'[z] < |L| && !IsRed(C', P'[z])
            && InOrderIds(s') == InOrderIds(s)
  {
    var p := P[z];
    ConflictShape(L, R, P, C, bh, z, root);
    var C' := C[p := Black][g := Red];
    RotateRightInArena(s, L, R, P, g);
    var (L', R', P') := RotatedRight(L, R, P, g);
    RotateRightArena(s, L, R, P, g, L', R', P');
    ZigZigLeft(L, R, P, C, bh, z, L', R', P');
    var root' := if P[g] == -1 then L[g] else root;
    assert root' == Id(Replace(s, g, RotR(Sub(s, g))));
    assert P[g] != -1 ==> root != g && root != p;
    assert RedRedFreeExcept(L', R', C', z);
  }

  /** The mirror image of ZigZigLeftCase. */
  lemma ZigZigRightCase(s: Shape, C: seq<Color>, V: seq<int>, L: seq<int>, R: seq<int>, P: seq<int>,
                        bh: seq<nat>, root: int, z: int, g: int)
    requires RightRightConflict(s, C, V, L, R, P, bh, root, z) && g == P[P[z]]
    ensures 0 <= R[g] < |L| && -1 <= L[R[g]] < |L| && -1 <= P[g] < |L|
    ensures Shaped(s, C[P[z] := Black][g := Red], V, L, R, P, bh, root)
    ensures var C' := C[P[z] := Black][g := Red];
            var (L', R', P') := RotatedLeft(L, R, P, g);
            var s' := Replace(s, g, RotL(Sub(s, g)));
            var root' := if P[g] == -1 then R[g] else root;
            && Repairing(s', C', V, L', R', P', bh, root', z) && z != root'
            && |P'| == |L| && 0 <= P'[z] < |L| && !IsRed(C', P'[z])
            && InOrderIds(s') == InOrderIds(s)
  {
    var p := P[z];
    ConflictShape(L, R, P, C, bh, z, root);
    var C' := C[p := Black][g := Red];
    RotateLeftInArena(s, L, R, P, g);
    var (L', R', P') := RotatedLeft(L, R, P, g);
    RotateLeftArena(s, L, R, P, g, L', R', P');
    ZigZigRight(L, R, P, C, bh, z, L', R', P');
    var root' := if P[g] == -1 then R[g] else root;
    assert root' == Id(Replace(s, g, RotL(Sub(s, g))));
    assert P[g] != -1 ==> root != g && root != p;
    assert RedRedFreeExcept(L', R', C', z);
  }

  /** Once the node in conflict has a parent that is not Red, no Red-Red edge is left. */
  lemma ResolvedCase(s: Shape, C: seq<Color>, V: seq<int>, L: seq<int>, R: seq<int>, P: seq<int>,
                     bh: seq<nat>, root: int, z: int)
    requires Repairing(s, C, V, L, R, P, bh, root, z) && !IsRed(C, P[z])
    ensures Settled(s, C, V, L, R, P, bh, root) && 0 <= root < |L|
  {
    ConflictResolved(L, R, P, C, z);
    assert z in Ids(s);
  }

  /** Painting the root Black, after the loop, keeps the tree settled and makes the root Black. */
  lemma BlackenRootCase(s: Shape, C: seq<Color>, V: seq<int>, L: seq<int>, R: seq<int>, P: seq<int>,
                        bh: seq<nat>, root: int)
    requires Settled(s, C, V, L, R, P, bh, root) && 0 <= root < |L|
    ensures 0 <= root < |C| && Settled(s, C[root := Black], V, L, R, P, bh, root)
  {
    BlackenRoot(L, R, P, C, bh, root);
  }

  // ---------------------------------------------------------------------------
  // The descent and the attachment of insertion, on the whole state
  // ---------------------------------------------------------------------------

  /**
   * One step of the descent from node `x`: the next node is `x`'s left child when `x`
   * holds a greater value, else its right child; when that child is absent, `x` is
   * where the new node goes.
   */
  lemma DescentStep(s: Shape, C: seq<Color>, V: seq<int>, L: seq<int>, R: seq<int>, P: seq<int>,
                    bh: seq<nat>, root: int, v: int, x: int)
    requires Shaped(s, C, V, L, R, P, bh, root) && 0 <= x < |L|
    requires InsParent(Sub(s, x), V, v) == InsParent(s, V, v)
    ensures var next := if V[x] > v then L[x] else R[x];
            && -1 <= next < |L|
            && (next == -1 ==> x == InsParent(s, V, v))
            && (next != -1 ==> InsParent(Sub(s, next), V, v) == InsParent(s, V, v))
            && (next != -1 ==> Size(Sub(s, next)) < Size(Sub(s, x)))
  {
    assert x in Ids(s);
    SubChildren(s, x, -1, L, R, P);
    assert ValAt(V, x) == V[x];
    var t := Sub(s, x);
    SubIds(s, x);
    assert t.left.Br? ==> t.left.id in Ids(t) && L[x] >= 0;
    assert t.right.Br? ==> t.right.id in Ids(t) && R[x] >= 0;
    assert InsParent(t, V, v) == if V[x] > v then (if t.left.Nil? then x else InsParent(t.left, V, v))
                                 else (if t.right.Nil? then x else InsParent(t.right, V, v));
  }

  /** The descent starts at the root, whose subtree is the whole tree. */
  lemma DescentStart(s: Shape, C: seq<Color>, V: seq<int>, L: seq<int>, R: seq<int>, P: seq<int>,
                     bh: seq<nat>, root: int, v: int)
    requires Shaped(s, C, V, L, R, P, bh, root) && root != -1
    ensures 0 <= root < |L| && InsParent(Sub(s, root), V, v) == InsParent(s, V, v)
  {
  }

  /**
   * Attaching a Red node `n` (the next free index) holding `v` below `y`, the node where
   * the descent stopped, on the side the comparison picks: the new node is in conflict
   * (its parent may be Red), the tree denoted is the old one with a Red leaf `v` placed
   * by the descent, and the parent test of the caller reads the old parent of `y`.
   */
  lemma AttachCase(s: Shape, C: seq<Color>, V: seq<int>, L: seq<int>, R: seq<int>, P: seq<int>,
                   bh: seq<nat>, root: int, v: int, y: int)
    requires Settled(s, C, V, L, R, P, bh, root) && !IsRed(C, root) && root != -1
    requires y == InsParent(s, V, v) && 0 <= y < |L|
    ensures var n := |L|;
            var L' := if V[y] > v then (L + [-1])[y := n] else L + [-1];
            var R' := if V[y] > v then R + [-1] else (R + [-1])[y := n];
            var P' := (P + [-1])[n := y];
            var s' := InsShape(s, V, v, n);
            && Repairing(s', C + [Red], V + [v], L', R', P', bh + [0], root, n)
            && Abs(s', C + [Red], V + [v]) == InsertLeaf(Abs(s, C, V), v)
    ensures P[y] == -1 <==> y == root
  {
    var n := |L|;
    var L' := if V[y] > v then (L + [-1])[y := n] else L + [-1];
    var R' := if V[y] > v then R + [-1] else (R + [-1])[y := n];
    var P' := (P + [-1])[n := y];
    assert ValAt(V, y) == V[y];
    assert AttachedAt(L, R, P, y, ValAt(V, y) > v, L', R', P');
    AttachStep(s, L, R, P, C, V, bh, v, L', R', P');
  }

  /** A lone Black node is a settled tree. */
  lemma SingleNode(v: int)
    ensures Settled(Br(Nil, 0, Nil), [Black], [v], [-1], [-1], [-1], [0], 0)
    ensures Abs(Br(Nil, 0, Nil), [Black], [v]) == Node(Black, v, Leaf, Leaf)
  {
    var s := Br(Nil, 0, Nil);
    assert Ids(s) == {0};
    assert Linked(s, -1, [-1], [-1], [-1]);
    LinkedConsistent(s, [-1], [-1], [-1]);
  }
}
