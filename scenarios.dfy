/**
 * A concrete run from the empty tree, with each key stored as its own value:
 * insert 3, 1, 2 and then remove 1. Node ids follow the order of insertion
 * (key 3 is id 0, key 1 is id 1, key 2 is id 2). The lemmas state one stage
 * each: the leaf attached, the insert walk, the splice and the remove walk;
 * `InsertThenRemove` runs the calls on an `AVLTree` and ends where the
 * remove walk would follow a null pointer.
 */
module AvlScenarios {
  import opened AvlArena
  import opened AvlInsertion
  import opened AvlRemoval
  import opened AvlRotations
  import opened AvlTree

  /** After insert 3: one node, the root. */
  function WithThree(): Arena<int>
  {
    Arena(map[0 := Node(3, 3, Null, Null, Null, 0)], Ref(0), map[0 := {0}])
  }

  /** Insert 1 has attached the leaf 1 as the left child of 3, before the walk. */
  function OneAttached(): Arena<int>
  {
    Arena(map[0 := Node(3, 3, Ref(1), Null, Null, 0), 1 := Node(1, 1, Null, Null, Ref(0), 0)],
          Ref(0), map[0 := {0, 1}, 1 := {1}])
  }

  /** After insert 1: the walk has given 3 balance 1. */
  function WithOne(): Arena<int>
  {
    Arena(map[0 := Node(3, 3, Ref(1), Null, Null, 1), 1 := Node(1, 1, Null, Null, Ref(0), 0)],
          Ref(0), map[0 := {0, 1}, 1 := {1}])
  }

  /** Insert 2 has attached the leaf 2 as the right child of 1, before the walk. */
  function TwoAttached(): Arena<int>
  {
    Arena(map[0 := Node(3, 3, Ref(1), Null, Null, 1), 1 := Node(1, 1, Null, Ref(2), Ref(0), 0),
              2 := Node(2, 2, Null, Null, Ref(1), 0)],
          Ref(0), map[0 := {0, 1, 2}, 1 := {1, 2}, 2 := {2}])
  }

  /** The insert 2 walk after its first step: 1 has balance -1. */
  function TwoStepped(): Arena<int>
  {
    Arena(map[0 := Node(3, 3, Ref(1), Null, Null, 1), 1 := Node(1, 1, Null, Ref(2), Ref(0), -1),
              2 := Node(2, 2, Null, Null, Ref(1), 0)],
          Ref(0), map[0 := {0, 1, 2}, 1 := {1, 2}, 2 := {2}])
  }

  /** The insert 2 walk on reaching 3, which now has balance 2. */
  function TwoWalked(): Arena<int>
  {
    Arena(map[0 := Node(3, 3, Ref(1), Null, Null, 2), 1 := Node(1, 1, Null, Ref(2), Ref(0), -1),
              2 := Node(2, 2, Null, Null, Ref(1), 0)],
          Ref(0), map[0 := {0, 1, 2}, 1 := {1, 2}, 2 := {2}])
  }

  /** Between the two rotations: 1 rotated left, so 2 hangs under 3. */
  function TwoHalfRotated(): Arena<int>
  {
    Arena(map[0 := Node(3, 3, Ref(2), Null, Null, 2), 1 := Node(1, 1, Null, Null, Ref(2), 0),
              2 := Node(2, 2, Ref(1), Null, Ref(0), 0)],
          Ref(0), map[0 := {0, 1, 2}, 1 := {1}, 2 := {1, 2}])
  }

  /**
   * After insert 2: the double rotation has made 2 the root with children
   * 1 and 3, and left the balances the rotations assign (3 gets 1, 2 gets -1).
   */
  function WithTwo(): Arena<int>
  {
    Arena(map[0 := Node(3, 3, Null, Null, Ref(2), 1), 1 := Node(1, 1, Null, Null, Ref(2), 0),
              2 := Node(2, 2, Ref(1), Ref(0), Null, -1)],
          Ref(2), map[0 := {0}, 1 := {1}, 2 := {0, 1, 2}])
  }

  /**
   * After remove 1 has spliced out the leaf 1, before the walk: node 2
   * (balance -1) is the root, node 3 (balance 1) its right child.
   */
  function AfterSplice(): Arena<int>
  {
    Arena(map[0 := Node(3, 3, Null, Null, Ref(2), 1), 2 := Node(2, 2, Null, Ref(0), Null, -1)],
          Ref(2), map[0 := {0}, 2 := {0, 2}])
  }

  /** Insert 3 into the empty tree can only make the one-node tree. */
  lemma InsertThreeMakes(r: Arena<int>)
    requires FirstNode(Arena(map[], Null, map[]), r, 3, 3, 0)
    ensures r == WithThree()
  {
    assert r.nodes == WithThree().nodes;
    assert r.sub == WithThree().sub;
  }

  /** Insert 1 can only attach the leaf left of 3, the one node. */
  lemma InsertOneAttaches(r: Arena<int>)
    requires LeafInserted(WithThree(), r, 1, 1, 1)
    ensures r == OneAttached()
  {
    var a := WithThree();
    assert r.nodes[1].parent == Ref(0);
    assert r.nodes == OneAttached().nodes;
    assert Grown(a.sub, r.sub, 0, 1, 0);
    assert r.sub.Keys == {0, 1} && r.sub[0] == {0, 1} && r.sub[1] == {1};
    assert r.sub == OneAttached().sub;
  }

  /** The walk gives 3 (only a left child) balance 1 and reaches the root. */
  lemma InsertOneWalk(idOf: map<int, nat>)
    requires Valid(OneAttached(), idOf)
    ensures InsertWalkOf(OneAttached(), idOf, Ref(0)) == (WithOne(), ReachedRoot)
  {
    var a := OneAttached();
    InsertWalkStep(a, idOf, 0);
    assert InsertDelta(a.nodes, 0) == 1;
    assert a.nodes[0 := a.nodes[0].(balance := 1)] == WithOne().nodes;
  }

  /**
   * Key 2 fits the paths to both 3 and 1, but attaching it under 3, whose
   * left slot 1 fills, would leave 1 unlinked: only the leaf under 1 gives
   * a valid tree.
   */
  lemma InsertTwoAttaches(r: Arena<int>, idOf: map<int, nat>)
    requires LeafInserted(WithOne(), r, 2, 2, 2) && Valid(r, idOf)
    ensures r == TwoAttached()
  {
    var a := WithOne();
    var p := r.nodes[2].parent.id;
    assert NodeLinked(r.nodes, r.root, r.sub, 1);
    assert p != 0;
    assert Kept(a.nodes, r.nodes, 0);
    assert r.nodes == TwoAttached().nodes;
    assert Grown(a.sub, r.sub, 1, 2, 0) && Grown(a.sub, r.sub, 1, 2, 1);
    assert r.sub.Keys == {0, 1, 2} && r.sub[0] == {0, 1, 2} && r.sub[1] == {1, 2} && r.sub[2] == {2};
    assert r.sub == TwoAttached().sub;
  }

  /** The balances the insert 2 walk stores, one step at a time. */
  lemma InsertTwoBalances()
    ensures InsertDelta(TwoAttached().nodes, 1) == -1 && InsertDelta(TwoStepped().nodes, 0) == 1
    ensures var a := TwoAttached(); Arena(a.nodes[1 := a.nodes[1].(balance := -1)], a.root, a.sub) == TwoStepped()
    ensures var a := TwoStepped(); Arena(a.nodes[0 := a.nodes[0].(balance := 2)], a.root, a.sub) == TwoWalked()
  {
    var a := TwoAttached();
    assert a.nodes[1 := a.nodes[1].(balance := -1)] == TwoStepped().nodes;
    var b := TwoStepped();
    assert b.nodes[0 := b.nodes[0].(balance := 2)] == TwoWalked().nodes;
  }

  /** Rotating 1 left lifts 2 under 3; rotating 3 right then lifts 2 to the root. */
  lemma DoubleRotationAtThree()
    ensures LeftRotatable(TwoWalked().nodes, 1) && RotateLeftOf(TwoWalked(), 1) == TwoHalfRotated()
    ensures RightRotatable(TwoHalfRotated().nodes, 0) && RotateRightOf(TwoHalfRotated(), 0) == WithTwo()
  {
    var l := RotateLeftOf(TwoWalked(), 1);
    assert l.nodes == TwoHalfRotated().nodes;
    assert l.sub == TwoHalfRotated().sub;
    var r := RotateRightOf(TwoHalfRotated(), 0);
    assert r.nodes == WithTwo().nodes;
    assert r.sub == WithTwo().sub;
  }

  /** The first step gives 1 (only a right child) balance -1 and goes on to 3. */
  lemma InsertWalkAtOne(idOf: map<int, nat>)
    requires Valid(TwoAttached(), idOf)
    ensures Valid(TwoStepped(), idOf)
    ensures InsertWalkOf(TwoAttached(), idOf, Ref(1)) == InsertWalkOf(TwoStepped(), idOf, Ref(0))
  {
    InsertTwoBalances();
    InsertWalkStep(TwoAttached(), idOf, 1);
  }

  /** At 3 the left child 1 leans right, so the fix rotates 1 left and then 3 right. */
  lemma LeftFixAtThree(idOf: map<int, nat>)
    requires Valid(TwoStepped(), idOf)
    ensures Valid(TwoWalked(), idOf) && !LeftHeavyBroken(TwoWalked().nodes, 0)
    ensures LeftFixOf(TwoWalked(), idOf, 0) == WithTwo()
  {
    InsertTwoBalances();
    BalanceSetValid(TwoStepped(), idOf, 0, 2);
    DoubleRotationAtThree();
  }

  /**
   * The insert 2 walk gives 1 balance -1 and 3 balance 2, and as 3's left
   * child leans right, it rotates 1 left and 3 right.
   */
  lemma InsertTwoWalk(idOf: map<int, nat>)
    requires Valid(TwoAttached(), idOf)
    ensures InsertWalkOf(TwoAttached(), idOf, Ref(1)) == (WithTwo(), Rotated)
  {
    InsertWalkAtOne(idOf);
    InsertTwoBalances();
    LeftFixAtThree(idOf);
    InsertWalkStep(TwoStepped(), idOf, 0);
  }

  /** Remove 1 splices out the leaf 1, which leaves 2 without a left child. */
  lemma RemoveOneSplice()
    ensures SpliceOf(WithTwo(), 1) == AfterSplice()
  {
    var a, r := WithTwo(), AfterSplice();
    var s := SpliceOf(a, 1);
    assert s.nodes == r.nodes;
    assert s.sub.Keys == r.sub.Keys;
    assert s.sub[0] == r.sub[0] && s.sub[2] == r.sub[2];
    assert s.sub == r.sub;
  }

  /**
   * The remove walk from node 2 stores -1 - 1 = -2 there, finds the right
   * child leaning right (balance 1) with no left child, and stops where the
   * source would call `rotateRight` on it and follow its null left child.
   */
  lemma RemoveWalkMeetsNull(idOf: map<int, nat>, fuel: nat)
    requires Valid(AfterSplice(), idOf) && fuel > 0
    ensures var a := AfterSplice();
      RemoveWalkOf(a, idOf, Ref(2), fuel)
        == (Arena(a.nodes[2 := a.nodes[2].(balance := -2)], a.root, a.sub), NullChild)
  {
    var a := AfterSplice();
    assert NodeLinked(a.nodes, a.root, a.sub, 2);
    assert RemoveBalance(a.nodes, 2) == -2;
  }

  /** A new tree after insert 3. */
  method NewWithThree() returns (t: AVLTree<int>)
    ensures fresh(t) && t.Valid() && t.State() == WithThree() && t.nextId == 1
  {
    t := new AVLTree<int>();
    var w, attached := t.Insert(3, 3);
    InsertThreeMakes(t.State());
  }

  /** Insert 1 into the tree holding 3. */
  method InsertOneInto(t: AVLTree<int>)
    requires t.Valid() && t.State() == WithThree() && t.nextId == 1
    modifies t
    ensures t.Valid() && t.State() == WithOne() && t.nextId == 2
  {
    var w, attached := t.Insert(1, 1);
    InsertOneAttaches(attached);
    InsertOneWalk(t.idOf);
  }

  /** Insert 2 into the tree holding 3 and 1. */
  method InsertTwoInto(t: AVLTree<int>)
    requires t.Valid() && t.State() == WithOne() && t.nextId == 2
    modifies t
    ensures t.Valid() && t.State() == WithTwo()
  {
    var w, attached := t.Insert(2, 2);
    InsertTwoAttaches(attached, t.idOf);
    InsertTwoWalk(t.idOf);
  }

  /**
   * Insert 3, 1, 2 into a new tree and remove 1: the remove walk ends with
   * `NullChild`, at the point where the source calls `rotateRight` on a
   * node with no left child.
   */
  method InsertThenRemove(fuel: nat) returns (walk: Walk)
    requires fuel > 0
    ensures walk == NullChild
  {
    var t := NewWithThree();
    InsertOneInto(t);
    InsertTwoInto(t);
    assert t.idOf[1] == 1;
    RemoveOneSplice();
    ghost var swapped, pred, spliced, from;
    walk, swapped, pred, spliced, from := t.Remove(1, fuel);
    RemoveWalkMeetsNull(t.idOf, fuel);
  }
}
