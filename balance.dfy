/**
 * What the balance arithmetic of the AVL layer means in terms of subtree
 * heights. A `Shape` is the bare structure of a subtree; a node's true
 * balance is its left height minus its right height. The lemmas compare
 * the values the source stores with the true balances.
 */
module AvlBalance {
  import opened AvlRotations

  datatype Shape = Empty | Fork(left: Shape, right: Shape)

  /** Height, with the empty subtree at 0 and a leaf at 1. */
  function Height(t: Shape): nat
  {
    match t
    case Empty => 0
    case Fork(l, r) => 1 + Max(Height(l), Height(r))
  }

  /** The balance of a node: left height minus right height. */
  function TrueBalance(t: Shape): int
    requires t.Fork?
  {
    Height(t.left) - Height(t.right)
  }

  /** The shape change of `rotateRight(y)`: (A x B) y C becomes A x (B y C). */
  function RotateRightShape(t: Shape): (r: Shape)
    requires t.Fork? && t.left.Fork?
    ensures r.Fork? && r.right.Fork?
  {
    Fork(t.left.left, Fork(t.left.right, t.right))
  }

  /** The shape change of `rotateLeft(x)`: A x (B y C) becomes (A x B) y C. */
  function RotateLeftShape(t: Shape): (r: Shape)
    requires t.Fork? && t.right.Fork?
    ensures r.Fork? && r.left.Fork?
  {
    Fork(Fork(t.left, t.right.left), t.right.right)
  }

  /**
   * The balances `rotateRight(y)` computes are exact: from the true
   * balances of y and its left child x, y's new balance is the true balance
   * of y in its new place, and x's new balance, computed from it, is the
   * true balance of x at the top.
   */
  lemma RightRotationBalances(t: Shape)
    requires t.Fork? && t.left.Fork?
    ensures var yb' := RightLoweredBalance(TrueBalance(t), TrueBalance(t.left));
      && yb' == TrueBalance(RotateRightShape(t).right)
      && RightLiftedBalance(TrueBalance(t.left), yb') == TrueBalance(RotateRightShape(t))
  {
    var A, B, C := t.left.left, t.left.right, t.right;
    var a: int, b: int, c: int := Height(A), Height(B), Height(C);
    ForkHeight(A, B);
    ForkHeight(B, C);
    RightRotationArith(a, b, c);
  }

  /** One level of `Height`. */
  lemma ForkHeight(l: Shape, r: Shape)
    ensures Height(Fork(l, r)) == 1 + Max(Height(l), Height(r))
  {
  }

  /** The arithmetic behind `RightRotationBalances`, on the three subtree heights. */
  lemma RightRotationArith(a: int, b: int, c: int)
    ensures RightLoweredBalance(1 + Max(a, b) - c, a - b) == b - c
    ensures RightLiftedBalance(a - b, b - c) == a - (1 + Max(b, c))
  {
  }

  /**
   * `rotateLeft(x)` sets both balances to 0. Those zeroes are the true
   * balances of x and of its right child y after the rotation exactly when
   * x's balance was -2 and y's was -1 before it.
   */
  lemma LeftRotationZeroes(t: Shape)
    requires t.Fork? && t.right.Fork?
    ensures (TrueBalance(RotateLeftShape(t).left) == 0 && TrueBalance(RotateLeftShape(t)) == 0)
        <==> (TrueBalance(t) == -2 && TrueBalance(t.right) == -1)
  {
    var A, B, C := t.left, t.right.left, t.right.right;
    var a: int, b: int, c: int := Height(A), Height(B), Height(C);
    ForkHeight(B, C);
    ForkHeight(A, B);
    LeftRotationArith(a, b, c);
  }

  /** The arithmetic behind `LeftRotationZeroes`, on the three subtree heights. */
  lemma LeftRotationArith(a: int, b: int, c: int)
    ensures (a - b == 0 && 1 + Max(a, b) - c == 0) <==> (a - (1 + Max(b, c)) == -2 && b - c == -1)
  {
  }

  /**
   * The balance `rebalanceAfterRemove` stores at a node, with the stored
   * balances of the children standing in for their heights and -1 for an
   * absent child, when the children's stored balances are true.
   */
  function ProxyBalance(t: Shape): int
    requires t.Fork?
  {
    (if t.left.Fork? then TrueBalance(t.left) else -1) - (if t.right.Fork? then TrueBalance(t.right) else -1)
  }

  /** When every child is absent or a leaf, the stored balance is the true one. */
  lemma ProxyBalanceAtLeaves(t: Shape)
    requires t.Fork?
    requires t.left.Fork? ==> t.left == Fork(Empty, Empty)
    requires t.right.Fork? ==> t.right == Fork(Empty, Empty)
    ensures ProxyBalance(t) == TrueBalance(t)
  {
  }

  /**
   * In general it is not: a node whose left child roots a full subtree of
   * height 2 and whose right child is a leaf has true balance 1, but both
   * children have balance 0, so 0 is stored.
   */
  lemma ProxyBalanceDiffers()
    ensures var leaf := Fork(Empty, Empty);
      var t := Fork(Fork(leaf, leaf), leaf);
      ProxyBalance(t) == 0 && TrueBalance(t) == 1
  {
    var leaf := Fork(Empty, Empty);
    assert Height(leaf) == 1;
    assert Height(Fork(leaf, leaf)) == 2;
  }
}
