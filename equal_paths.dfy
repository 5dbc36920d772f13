/**
 * `equalPaths(root)`: does every leaf of a binary tree sit at the same
 * depth? The recursive helper `IfEqualPaths` threads the depth of the first
 * leaf it reaches through a by-reference accumulator; here the accumulator
 * is passed in and its final value returned alongside the answer.
 */
module EqualPaths {
  /** A binary tree: only the left and right links matter. */
  datatype Tree = Nil | Node(left: Tree, right: Tree)

  predicate IsLeaf(t: Tree)
  {
    t.Node? && t.left.Nil? && t.right.Nil?
  }

  /**
   * `IfEqualPaths(node, depth, LeafDepth)`: the answer and the final value
   * of `LeafDepth`. An empty tree answers true; a leaf records its depth if
   * no leaf has been seen (`LeafDepth` is -1) and compares its depth with
   * the recorded one; an inner node checks its right subtree, then its left
   * one, and answers the conjunction. Once set, `LeafDepth` never changes.
   */
  function IfEqualPaths(t: Tree, depth: int, leafDepth: int): (r: (bool, int))
    ensures leafDepth != -1 ==> r.1 == leafDepth
    ensures t.Nil? ==> r == (true, leafDepth)
  {
    match t
    case Nil => (true, leafDepth)
    case Node(l, rt) =>
      if IsLeaf(t) then
        var recorded := if leafDepth == -1 then depth else leafDepth;
        (depth == recorded, recorded)
      else
        var (rightOk, afterRight) := IfEqualPaths(rt, depth + 1, leafDepth);
        var (leftOk, afterLeft) := IfEqualPaths(l, depth + 1, afterRight);
        (rightOk && leftOk, afterLeft)
  }

  /** `equalPaths(root)`: start at depth 0 with no leaf seen. */
  function EqualPathsOf(t: Tree): (r: bool)
    ensures r <==> AllSame(LeafDepths(t, 0))
  {
    UnsetCorrect(t, 0);
    IfEqualPaths(t, 0, -1).0
  }

  /** The depths of the leaves of t, t itself being at depth `depth`. */
  function LeafDepths(t: Tree, depth: int): set<int>
  {
    match t
    case Nil => {}
    case Node(l, r) =>
      if IsLeaf(t) then {depth} else LeafDepths(l, depth + 1) + LeafDepths(r, depth + 1)
  }

  /** The depth of the first leaf the walk reaches (right before left), or -1 if there is none. */
  function FirstLeafDepth(t: Tree, depth: int): int
  {
    match t
    case Nil => -1
    case Node(l, r) =>
      if IsLeaf(t) then depth
      else if FirstLeafDepth(r, depth + 1) != -1 then FirstLeafDepth(r, depth + 1)
      else FirstLeafDepth(l, depth + 1)
  }

  /** The first leaf reached is a leaf, and there is one exactly when the tree has leaves. */
  lemma {:induction false} FirstLeafIsLeaf(t: Tree, depth: int)
    requires depth >= 0
    ensures FirstLeafDepth(t, depth) == -1 <==> LeafDepths(t, depth) == {}
    ensures FirstLeafDepth(t, depth) != -1 ==> FirstLeafDepth(t, depth) in LeafDepths(t, depth)
  {
    match t
    case Nil =>
    case Node(l, r) =>
      if !IsLeaf(t) {
        FirstLeafIsLeaf(l, depth + 1);
        FirstLeafIsLeaf(r, depth + 1);
      }
  }

  /** Every depth in s is d. */
  predicate AllAt(s: set<int>, d: int)
  {
    forall x | x in s :: x == d
  }

  /** All depths in s are the same. */
  predicate AllSame(s: set<int>)
  {
    forall x, y | x in s && y in s :: x == y
  }

  /**
   * With a leaf depth d already recorded, the walk answers whether every
   * leaf of t is at depth d.
   */
  lemma {:induction false} RecordedCorrect(t: Tree, depth: int, d: int)
    requires d != -1
    ensures IfEqualPaths(t, depth, d).0 == AllAt(LeafDepths(t, depth), d)
  {
    match t
    case Nil =>
    case Node(l, r) =>
      if !IsLeaf(t) {
        var ls, rs := LeafDepths(l, depth + 1), LeafDepths(r, depth + 1);
        RecordedCorrect(r, depth + 1, d);
        RecordedCorrect(l, depth + 1, d);
        assert LeafDepths(t, depth) == ls + rs;
        assert AllAt(ls + rs, d) == (AllAt(ls, d) && AllAt(rs, d));
      }
  }

  /**
   * With no leaf seen yet, the walk answers whether all leaves of t have the
   * same depth, and leaves `LeafDepth` at the depth of the first leaf it
   * reached (still -1 when t has no leaf).
   */
  lemma {:induction false} UnsetCorrect(t: Tree, depth: int)
    requires depth >= 0
    ensures IfEqualPaths(t, depth, -1).0 == AllSame(LeafDepths(t, depth))
    ensures IfEqualPaths(t, depth, -1).1 == FirstLeafDepth(t, depth)
  {
    match t
    case Nil =>
    case Node(l, r) =>
      if !IsLeaf(t) {
        var ls, rs := LeafDepths(l, depth + 1), LeafDepths(r, depth + 1);
        UnsetCorrect(r, depth + 1);
        FirstLeafIsLeaf(r, depth + 1);
        var afterRight := IfEqualPaths(r, depth + 1, -1).1;
        assert LeafDepths(t, depth) == ls + rs;
        if afterRight == -1 {
          UnsetCorrect(l, depth + 1);
          assert ls + rs == ls;
        } else {
          RecordedCorrect(l, depth + 1, afterRight);
          assert afterRight in rs;
          assert AllSame(ls + rs) == (AllSame(rs) && AllAt(ls, afterRight));
        }
      }
  }

  /** An empty tree answers true. */
  lemma EmptyTreeEqual()
    ensures EqualPathsOf(Nil)
  {
  }

  /** A single node answers true: its leaf records depth 0 and compares equal. */
  lemma SingleNodeEqual()
    ensures IfEqualPaths(Node(Nil, Nil), 0, -1) == (true, 0)
    ensures EqualPathsOf(Node(Nil, Nil))
  {
  }

  /**
   * A node with one child is not a leaf: its missing side answers true, so
   * a path that ends there does not count. A root with one leaf child
   * answers true although its two sides have different lengths.
   */
  lemma OneChildNotLeaf()
    ensures EqualPathsOf(Node(Node(Nil, Nil), Nil))
    ensures EqualPathsOf(Node(Nil, Node(Node(Nil, Nil), Nil)))
  {
  }

  /** Leaves at depths 1 and 2 make the answer false. */
  lemma UnequalLeaves()
    ensures !EqualPathsOf(Node(Node(Nil, Nil), Node(Node(Nil, Nil), Nil)))
  {
  }
}
