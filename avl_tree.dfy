/**
 * `AVLTree<Key, Value>`: the self-balancing binary search tree map. The
 * tree's pointer structure lives in an arena (`nodes`, `root`); the ghost
 * fields `sub` and `idOf` carry the subtree sets and the key index the
 * well-formedness argument needs. Every public operation keeps the tree a
 * well-linked BST whose key -> value map is `Contents()`.
 */
module AvlTree {
  import opened AvlArena
  import opened AvlRotations
  import opened AvlInsertion
  import opened AvlRemoval

  /**
   * How a rebalancing walk ended: at a node whose balance became 0, after a
   * rotation, past the root, where the source would follow a null child
   * pointer, when the fuel bound ran out, or without a walk at all.
   */
  datatype Walk = Balanced | Rotated | ReachedRoot | NullChild | OutOfFuel | NoWalk

  /** Every key fits the search path to the root: no ancestor constrains it. */
  lemma RootFits<V>(a: Arena<V>, k: int)
    requires Linked(a) && a.root.Ref?
    ensures a.root.id in a.nodes && PathFits(a, a.root.id, k)
  {
    forall m | m in a.nodes
      ensures FitsAt(a, a.root.id, k, m)
    {
      RootIsTop(a, m);
    }
  }

  /**
   * One step of a BST search for k from node c: the child on k's side has a
   * smaller subtree, and if k is in the tree its node is in that subtree.
   */
  lemma SearchStep<V>(a: Arena<V>, idOf: map<int, nat>, c: nat, k: int)
    requires Valid(a, idOf) && c in a.nodes && k != a.nodes[c].key
    requires k in idOf ==> idOf[k] in a.sub[c]
    ensures var ch := if k < a.nodes[c].key then a.nodes[c].left else a.nodes[c].right;
      && (ch.Ref? ==> ch.id in a.nodes && ch.id in a.sub && |a.sub[ch.id]| < |a.sub[c]|)
      && (k in idOf ==> ch.Ref? && idOf[k] in a.sub[ch.id])
  {
    assert NodeLinked(a.nodes, a.root, a.sub, c);
    assert OrderedAt(a.nodes, a.sub, c);
    var ch := if k < a.nodes[c].key then a.nodes[c].left else a.nodes[c].right;
    if ch.Ref? {
      assert a.sub[ch.id] < a.sub[c];
    }
  }

  /** An empty tree indexes no key. */
  lemma EmptyIndex<V>(a: Arena<V>, idOf: map<int, nat>)
    requires Valid(a, idOf) && a.root.Null?
    ensures a.nodes == map[] && Contents(a.nodes, idOf) == map[]
  {
    forall k | k in idOf
      ensures false
    {
    }
  }

  /** A node's parent has a strictly larger subtree. */
  lemma ParentAbove<V>(a: Arena<V>, n: nat)
    requires Linked(a) && n in a.nodes && a.nodes[n].parent.Ref?
    ensures var p := a.nodes[n].parent.id;
      && p in a.nodes && n in a.sub && p in a.sub
      && |a.nodes.Keys - a.sub[p]| < |a.nodes.Keys - a.sub[n]|
  {
    assert NodeLinked(a.nodes, a.root, a.sub, n);
    var p := a.nodes[n].parent.id;
    assert NodeLinked(a.nodes, a.root, a.sub, p);
    assert a.sub[n] < a.sub[p];
    assert a.nodes.Keys - a.sub[p] < a.nodes.Keys - a.sub[n];
  }

  /** Setting one node's balance keeps the tree valid, its entries and its contents. */
  lemma BalanceSetValid<V>(a: Arena<V>, idOf: map<int, nat>, n: nat, b: int)
    requires Valid(a, idOf) && n in a.nodes
    ensures var r := Arena(a.nodes[n := a.nodes[n].(balance := b)], a.root, a.sub);
      && Valid(r, idOf) && SameEntries(a.nodes, r.nodes)
      && Contents(r.nodes, idOf) == Contents(a.nodes, idOf)
  {
    var ns := a.nodes[n := a.nodes[n].(balance := b)];
    SameShapeValid(a, ns, idOf);
    SameEntriesContents(a.nodes, ns, idOf);
  }

  /** Setting one balance keeps the shape. */
  lemma BalanceSetKeepsShape<V>(nodes: Nodes<V>, n: nat, b: int)
    requires n in nodes
    ensures SameShape(nodes, nodes[n := nodes[n].(balance := b)])
  {
  }

  /** Setting one more balance keeps the shape the walk started from. */
  lemma BalanceSetShape<V>(nodes0: Nodes<V>, nodes: Nodes<V>, n: nat, b: int)
    requires SameShape(nodes0, nodes) && n in nodes
    ensures SameShape(nodes0, nodes[n := nodes[n].(balance := b)])
  {
  }

  /**
   * The change `rebalanceAfterInsert` applies to the balance of node n, by
   * its four guarded branches in order: -1 when only the right child is
   * present, +1 when only the left one is, and the two further branches,
   * which test the same child configurations again, never fire. A node
   * with two children or none is left as it is.
   */
  function InsertDelta<V>(nodes: Nodes<V>, n: nat): (d: int)
    requires n in nodes
    ensures d == -1 <==> nodes[n].left.Null? && nodes[n].right.Ref?
    ensures d == 1 <==> nodes[n].left.Ref? && nodes[n].right.Null?
    ensures d == 0 <==> nodes[n].left.Null? == nodes[n].right.Null?
  {
    var nd := nodes[n];
    if nd.left.Null? && nd.right.Ref? then -1
    else if nd.right.Null? && nd.left.Ref? then 1
    else if nd.left.Ref? && nd.right.Null? && ChildKeyBelow(nodes, nd.left, nd.key) then 1
    else if nd.right.Ref? && nd.left.Null? && ChildKeyAbove(nodes, nd.right, nd.key) then -1
    else 0
  }

  /** The child pointer c names a node whose key is below k. */
  predicate ChildKeyBelow<V>(nodes: Nodes<V>, c: Ptr, k: int)
  {
    c.Ref? && c.id in nodes && nodes[c.id].key < k
  }

  /** The child pointer c names a node whose key is above k. */
  predicate ChildKeyAbove<V>(nodes: Nodes<V>, c: Ptr, k: int)
  {
    c.Ref? && c.id in nodes && nodes[c.id].key > k
  }

  /**
   * The balance `rebalanceAfterRemove` stores at node n: the left child's
   * balance minus the right child's, an absent child counting as -1.
   */
  function RemoveBalance<V>(nodes: Nodes<V>, n: nat): int
    requires n in nodes
    requires nodes[n].left.Ref? ==> nodes[n].left.id in nodes
    requires nodes[n].right.Ref? ==> nodes[n].right.id in nodes
  {
    var nd := nodes[n];
    var lh := if nd.left.Ref? then nodes[nd.left.id].balance else -1;
    var rh := if nd.right.Ref? then nodes[nd.right.id].balance else -1;
    lh - rh
  }

  /**
   * At a node of balance -2 the source reads the right child's balance and,
   * when that is 1, rotates the right child right, which reads its left
   * child: these are the null pointers it can follow there.
   */
  ghost predicate RightHeavyBroken<V>(nodes: Nodes<V>, n: nat)
    requires n in nodes
  {
    var r := nodes[n].right;
    r.Null? || (r.id in nodes && nodes[r.id].balance == 1 && nodes[r.id].left.Null?)
  }

  /** The mirror of `RightHeavyBroken` for a node of balance 2. */
  ghost predicate LeftHeavyBroken<V>(nodes: Nodes<V>, n: nat)
    requires n in nodes
  {
    var l := nodes[n].left;
    l.Null? || (l.id in nodes && nodes[l.id].balance == -1 && nodes[l.id].right.Null?)
  }

  /**
   * The state the balance -2 case leaves when it finds no null pointer: the
   * right child c rotated right when its balance is 1, then n rotated left.
   */
  ghost function RightFixOf<V>(a: Arena<V>, idOf: map<int, nat>, n: nat): Arena<V>
    requires Valid(a, idOf) && n in a.nodes && !RightHeavyBroken(a.nodes, n)
  {
    assert NodeLinked(a.nodes, a.root, a.sub, n);
    var c := a.nodes[n].right.id;
    if a.nodes[c].balance == 1 then
      assert NodeLinked(a.nodes, a.root, a.sub, c);
      RightRotatableLinked(a, c);
      RotateRightOfRotated(a, c);
      RotateRightValid(a, RotateRightOf(a, c), idOf, c);
      var a' := RotateRightOf(a, c);
      assert NodeLinked(a'.nodes, a'.root, a'.sub, n);
      LeftRotatableLinked(a', n);
      RotateLeftOf(a', n)
    else
      LeftRotatableLinked(a, n);
      RotateLeftOf(a, n)
  }

  /**
   * The state the balance 2 case leaves when it finds no null pointer: the
   * left child c rotated left when its balance is -1, then n rotated right.
   */
  ghost function LeftFixOf<V>(a: Arena<V>, idOf: map<int, nat>, n: nat): Arena<V>
    requires Valid(a, idOf) && n in a.nodes && !LeftHeavyBroken(a.nodes, n)
  {
    assert NodeLinked(a.nodes, a.root, a.sub, n);
    var c := a.nodes[n].left.id;
    if a.nodes[c].balance == -1 then
      assert NodeLinked(a.nodes, a.root, a.sub, c);
      LeftRotatableLinked(a, c);
      RotateLeftOfRotated(a, c);
      RotateLeftValid(a, RotateLeftOf(a, c), idOf, c);
      var a' := RotateLeftOf(a, c);
      assert NodeLinked(a'.nodes, a'.root, a'.sub, n);
      RightRotatableLinked(a', n);
      RotateRightOf(a', n)
    else
      RightRotatableLinked(a, n);
      RotateRightOf(a, n)
  }

  /**
   * The walk `rebalanceAfterInsert(node)` performs, step by step: at each
   * node add `InsertDelta` to its balance; stop with `Balanced` at 0, fix a
   * balance of -2 or 2 (stopping with `NullChild` where the source would
   * follow a null pointer) and stop, or else go on to the parent.
   */
  ghost function InsertWalkOf<V>(a: Arena<V>, idOf: map<int, nat>, curr: Ptr): (r: (Arena<V>, Walk))
    requires Valid(a, idOf) && (curr.Ref? ==> curr.id in a.nodes)
    decreases if curr.Ref? && curr.id in a.sub then |a.nodes.Keys - a.sub[curr.id]| + 1 else 0
  {
    if curr.Null? then (a, ReachedRoot)
    else
      var n := curr.id;
      var b := a.nodes[n].balance + InsertDelta(a.nodes, n);
      var a' := Arena(a.nodes[n := a.nodes[n].(balance := b)], a.root, a.sub);
      BalanceSetValid(a, idOf, n, b);
      if b == 0 then (a', Balanced)
      else if b == -2 then
        if RightHeavyBroken(a'.nodes, n) then (a', NullChild) else (RightFixOf(a', idOf, n), Rotated)
      else if b == 2 then
        if LeftHeavyBroken(a'.nodes, n) then (a', NullChild) else (LeftFixOf(a', idOf, n), Rotated)
      else
        assert NodeLinked(a'.nodes, a'.root, a'.sub, n);
        var p := a'.nodes[n].parent;
        if p.Null? then (a', ReachedRoot)
        else
          ParentAbove(a', n);
          InsertWalkOf(a', idOf, p)
  }

  /** One step of the insert walk at node n, by the balance n receives. */
  lemma InsertWalkStep<V>(a: Arena<V>, idOf: map<int, nat>, n: nat)
    requires Valid(a, idOf) && n in a.nodes
    ensures var b := a.nodes[n].balance + InsertDelta(a.nodes, n);
      var a' := Arena(a.nodes[n := a.nodes[n].(balance := b)], a.root, a.sub);
      && Valid(a', idOf)
      && (b == 0 ==> InsertWalkOf(a, idOf, Ref(n)) == (a', Balanced))
      && (b == -2 && RightHeavyBroken(a'.nodes, n) ==> InsertWalkOf(a, idOf, Ref(n)) == (a', NullChild))
      && (b == -2 && !RightHeavyBroken(a'.nodes, n) ==> InsertWalkOf(a, idOf, Ref(n)) == (RightFixOf(a', idOf, n), Rotated))
      && (b == 2 && LeftHeavyBroken(a'.nodes, n) ==> InsertWalkOf(a, idOf, Ref(n)) == (a', NullChild))
      && (b == 2 && !LeftHeavyBroken(a'.nodes, n) ==> InsertWalkOf(a, idOf, Ref(n)) == (LeftFixOf(a', idOf, n), Rotated))
      && (b != 0 && b != -2 && b != 2 ==>
            (a.nodes[n].parent.Ref? ==> a.nodes[n].parent.id in a'.nodes)
            && InsertWalkOf(a, idOf, Ref(n)) == InsertWalkOf(a', idOf, a.nodes[n].parent))
  {
    var b := a.nodes[n].balance + InsertDelta(a.nodes, n);
    BalanceSetValid(a, idOf, n, b);
    assert NodeLinked(a.nodes, a.root, a.sub, n);
  }

  /** The balance -2 fix keeps the tree valid and every key with its value. */
  lemma RightFixValid<V>(a: Arena<V>, idOf: map<int, nat>, n: nat)
    requires Valid(a, idOf) && n in a.nodes && !RightHeavyBroken(a.nodes, n)
    ensures var r := RightFixOf(a, idOf, n);
      && Valid(r, idOf) && Contents(r.nodes, idOf) == Contents(a.nodes, idOf)
      && r.nodes.Keys == a.nodes.Keys
  {
    assert NodeLinked(a.nodes, a.root, a.sub, n);
    var c := a.nodes[n].right.id;
    var a' := a;
    if a.nodes[c].balance == 1 {
      assert NodeLinked(a.nodes, a.root, a.sub, c);
      RightRotatableLinked(a, c);
      RotateRightOfRotated(a, c);
      a' := RotateRightOf(a, c);
      RotateRightValid(a, a', idOf, c);
      assert NodeLinked(a'.nodes, a'.root, a'.sub, n);
    }
    LeftRotatableLinked(a', n);
    RotateLeftOfRotated(a', n);
    RotateLeftValid(a', RotateLeftOf(a', n), idOf, n);
  }

  /** The balance 2 fix keeps the tree valid and every key with its value. */
  lemma LeftFixValid<V>(a: Arena<V>, idOf: map<int, nat>, n: nat)
    requires Valid(a, idOf) && n in a.nodes && !LeftHeavyBroken(a.nodes, n)
    ensures var r := LeftFixOf(a, idOf, n);
      && Valid(r, idOf) && Contents(r.nodes, idOf) == Contents(a.nodes, idOf)
      && r.nodes.Keys == a.nodes.Keys
  {
    assert NodeLinked(a.nodes, a.root, a.sub, n);
    var c := a.nodes[n].left.id;
    var a' := a;
    if a.nodes[c].balance == -1 {
      assert NodeLinked(a.nodes, a.root, a.sub, c);
      LeftRotatableLinked(a, c);
      RotateLeftOfRotated(a, c);
      a' := RotateLeftOf(a, c);
      RotateLeftValid(a, a', idOf, c);
      assert NodeLinked(a'.nodes, a'.root, a'.sub, n);
    }
    RightRotatableLinked(a', n);
    RotateRightOfRotated(a', n);
    RotateRightValid(a', RotateRightOf(a', n), idOf, n);
  }

  /**
   * The insert walk keeps the tree valid, keeps every key with its value,
   * and ends balanced, after one fix, past the root or at a null pointer.
   */
  lemma {:induction false} InsertWalkValid<V>(a: Arena<V>, idOf: map<int, nat>, curr: Ptr)
    requires Valid(a, idOf) && (curr.Ref? ==> curr.id in a.nodes)
    ensures var r := InsertWalkOf(a, idOf, curr);
      && Valid(r.0, idOf) && Contents(r.0.nodes, idOf) == Contents(a.nodes, idOf)
      && r.0.nodes.Keys == a.nodes.Keys
      && r.1 in {Balanced, Rotated, ReachedRoot, NullChild}
    decreases if curr.Ref? && curr.id in a.sub then |a.nodes.Keys - a.sub[curr.id]| + 1 else 0
  {
    if curr.Ref? {
      var n := curr.id;
      InsertWalkStep(a, idOf, n);
      var b := a.nodes[n].balance + InsertDelta(a.nodes, n);
      var a' := Arena(a.nodes[n := a.nodes[n].(balance := b)], a.root, a.sub);
      BalanceSetValid(a, idOf, n, b);
      if b == -2 && !RightHeavyBroken(a'.nodes, n) {
        RightFixValid(a', idOf, n);
      } else if b == 2 && !LeftHeavyBroken(a'.nodes, n) {
        LeftFixValid(a', idOf, n);
      } else if b != 0 && b != -2 && b != 2 && a.nodes[n].parent.Ref? {
        ParentAbove(a', n);
        InsertWalkValid(a', idOf, a.nodes[n].parent);
      }
    }
  }

  /**
   * An insert walk that ends without a rotation only changes balance
   * factors: every node keeps its key and links, and the root stays.
   */
  lemma {:induction false} InsertWalkShape<V>(a: Arena<V>, idOf: map<int, nat>, curr: Ptr)
    requires Valid(a, idOf) && (curr.Ref? ==> curr.id in a.nodes)
    ensures var r := InsertWalkOf(a, idOf, curr);
      r.1 != Rotated ==> SameShape(a.nodes, r.0.nodes) && r.0.root == a.root && r.0.sub == a.sub
    decreases if curr.Ref? && curr.id in a.sub then |a.nodes.Keys - a.sub[curr.id]| + 1 else 0
  {
    if curr.Ref? {
      var n := curr.id;
      InsertWalkStep(a, idOf, n);
      var b := a.nodes[n].balance + InsertDelta(a.nodes, n);
      var a' := Arena(a.nodes[n := a.nodes[n].(balance := b)], a.root, a.sub);
      BalanceSetKeepsShape(a.nodes, n, b);
      var p := a.nodes[n].parent;
      if b != 0 && b != -2 && b != 2 && p.Ref? {
        ParentAbove(a', n);
        InsertWalkShape(a', idOf, p);
        var r := InsertWalkOf(a', idOf, p);
        if r.1 != Rotated {
          BalanceSetShape(a.nodes, a.nodes, n, b);
          SameShapeTrans(a.nodes, a'.nodes, r.0.nodes);
        }
      }
    }
  }

  /**
   * The walk `rebalanceAfterRemove(node)` performs, for at most `fuel`
   * steps: store `RemoveBalance` at each node and go on as `RemoveWalkOn`
   * says.
   */
  ghost function RemoveWalkOf<V>(a: Arena<V>, idOf: map<int, nat>, curr: Ptr, fuel: nat): (Arena<V>, Walk)
    requires Valid(a, idOf) && (curr.Ref? ==> curr.id in a.nodes)
    decreases fuel, 0
  {
    if curr.Null? then (a, ReachedRoot)
    else if fuel == 0 then (a, OutOfFuel)
    else
      var n := curr.id;
      assert NodeLinked(a.nodes, a.root, a.sub, n);
      var b := RemoveBalance(a.nodes, n);
      BalanceSetValid(a, idOf, n, b);
      RemoveWalkOn(Arena(a.nodes[n := a.nodes[n].(balance := b)], a.root, a.sub), idOf, n, fuel - 1)
  }

  /**
   * The rest of the remove walk once node n holds its new balance: fix a
   * balance of -2 or 2, stop with `NullChild` where the source would follow
   * a null pointer, and otherwise go on to the parent n has after the fix.
   */
  ghost function RemoveWalkOn<V>(a: Arena<V>, idOf: map<int, nat>, n: nat, fuel: nat): (Arena<V>, Walk)
    requires Valid(a, idOf) && n in a.nodes
    decreases fuel, 1
  {
    var b := a.nodes[n].balance;
    if b == -2 && RightHeavyBroken(a.nodes, n) then (a, NullChild)
    else if b == 2 && LeftHeavyBroken(a.nodes, n) then (a, NullChild)
    else
      var f := if b == -2 then RightFixOf(a, idOf, n) else if b == 2 then LeftFixOf(a, idOf, n) else a;
      FixParentPresent(a, idOf, n);
      RemoveWalkOf(f, idOf, f.nodes[n].parent, fuel)
  }

  /** After the fix the remove walk applies at n, n and its parent are in the tree. */
  lemma FixParentPresent<V>(a: Arena<V>, idOf: map<int, nat>, n: nat)
    requires Valid(a, idOf) && n in a.nodes
    requires a.nodes[n].balance == -2 ==> !RightHeavyBroken(a.nodes, n)
    requires a.nodes[n].balance == 2 ==> !LeftHeavyBroken(a.nodes, n)
    ensures var b := a.nodes[n].balance;
      var f := if b == -2 then RightFixOf(a, idOf, n) else if b == 2 then LeftFixOf(a, idOf, n) else a;
      && Valid(f, idOf) && n in f.nodes
      && (f.nodes[n].parent.Ref? ==> f.nodes[n].parent.id in f.nodes)
  {
    var b := a.nodes[n].balance;
    if b == -2 {
      RightFixValid(a, idOf, n);
    } else if b == 2 {
      LeftFixValid(a, idOf, n);
    }
    var f := if b == -2 then RightFixOf(a, idOf, n) else if b == 2 then LeftFixOf(a, idOf, n) else a;
    assert NodeLinked(f.nodes, f.root, f.sub, n);
  }

  /** The remove walk stops at node n where the fix would follow a null pointer. */
  lemma RemoveWalkStops<V>(a: Arena<V>, idOf: map<int, nat>, n: nat, fuel: nat)
    requires Valid(a, idOf) && n in a.nodes && fuel > 0
    requires a.nodes[n].left.Ref? ==> a.nodes[n].left.id in a.nodes
    requires a.nodes[n].right.Ref? ==> a.nodes[n].right.id in a.nodes
    ensures var b := RemoveBalance(a.nodes, n);
      var a' := Arena(a.nodes[n := a.nodes[n].(balance := b)], a.root, a.sub);
      ((b == -2 && RightHeavyBroken(a'.nodes, n)) || (b == 2 && LeftHeavyBroken(a'.nodes, n)))
        ==> RemoveWalkOf(a, idOf, Ref(n), fuel) == (a', NullChild)
  {
    assert NodeLinked(a.nodes, a.root, a.sub, n);
    var b := RemoveBalance(a.nodes, n);
    BalanceSetValid(a, idOf, n, b);
    var a' := Arena(a.nodes[n := a.nodes[n].(balance := b)], a.root, a.sub);
    assert RemoveWalkOf(a, idOf, Ref(n), fuel) == RemoveWalkOn(a', idOf, n, fuel - 1);
  }

  /**
   * Where the remove walk goes on from node n, it goes on from the state a2
   * the step leaves, at the parent n has there.
   */
  lemma RemoveWalkNext<V>(a: Arena<V>, idOf: map<int, nat>, n: nat, fuel: nat, a2: Arena<V>)
    requires Valid(a, idOf) && n in a.nodes && fuel > 0
    requires a.nodes[n].left.Ref? ==> a.nodes[n].left.id in a.nodes
    requires a.nodes[n].right.Ref? ==> a.nodes[n].right.id in a.nodes
    requires var b := RemoveBalance(a.nodes, n);
      var a' := Arena(a.nodes[n := a.nodes[n].(balance := b)], a.root, a.sub);
      && Valid(a', idOf)
      && (b == -2 ==> !RightHeavyBroken(a'.nodes, n) && a2 == RightFixOf(a', idOf, n))
      && (b == 2 ==> !LeftHeavyBroken(a'.nodes, n) && a2 == LeftFixOf(a', idOf, n))
      && (b != -2 && b != 2 ==> a2 == a')
    ensures Valid(a2, idOf) && n in a2.nodes
    ensures a2.nodes[n].parent.Ref? ==> a2.nodes[n].parent.id in a2.nodes
    ensures RemoveWalkOf(a, idOf, Ref(n), fuel) == RemoveWalkOf(a2, idOf, a2.nodes[n].parent, fuel - 1)
  {
    assert NodeLinked(a.nodes, a.root, a.sub, n);
    var b := RemoveBalance(a.nodes, n);
    var a' := Arena(a.nodes[n := a.nodes[n].(balance := b)], a.root, a.sub);
    FixParentPresent(a', idOf, n);
    assert RemoveWalkOf(a, idOf, Ref(n), fuel) == RemoveWalkOn(a', idOf, n, fuel - 1);
  }

  /**
   * The remove walk keeps the tree valid and every key with its value, and
   * ends past the root, at a null pointer, or when the fuel runs out.
   */
  lemma {:induction false} RemoveWalkValid<V>(a: Arena<V>, idOf: map<int, nat>, curr: Ptr, fuel: nat)
    requires Valid(a, idOf) && (curr.Ref? ==> curr.id in a.nodes)
    ensures var r := RemoveWalkOf(a, idOf, curr, fuel);
      && Valid(r.0, idOf) && Contents(r.0.nodes, idOf) == Contents(a.nodes, idOf)
      && r.0.nodes.Keys == a.nodes.Keys
      && r.1 in {ReachedRoot, NullChild, OutOfFuel}
    decreases fuel, 0
  {
    if curr.Ref? && fuel > 0 {
      var n := curr.id;
      assert NodeLinked(a.nodes, a.root, a.sub, n);
      var b := RemoveBalance(a.nodes, n);
      BalanceSetValid(a, idOf, n, b);
      var a' := Arena(a.nodes[n := a.nodes[n].(balance := b)], a.root, a.sub);
      RemoveWalkOnValid(a', idOf, n, fuel - 1);
      assert RemoveWalkOf(a, idOf, curr, fuel) == RemoveWalkOn(a', idOf, n, fuel - 1);
      SameEntriesContents(a.nodes, a'.nodes, idOf);
    }
  }

  /** `RemoveWalkValid` for the rest of the walk from a node holding its new balance. */
  lemma {:induction false} RemoveWalkOnValid<V>(a: Arena<V>, idOf: map<int, nat>, n: nat, fuel: nat)
    requires Valid(a, idOf) && n in a.nodes
    ensures var r := RemoveWalkOn(a, idOf, n, fuel);
      && Valid(r.0, idOf) && Contents(r.0.nodes, idOf) == Contents(a.nodes, idOf)
      && r.0.nodes.Keys == a.nodes.Keys
      && r.1 in {ReachedRoot, NullChild, OutOfFuel}
    decreases fuel, 1
  {
    var b := a.nodes[n].balance;
    if b == -2 && !RightHeavyBroken(a.nodes, n) {
      RightFixValid(a, idOf, n);
      FixParentPresent(a, idOf, n);
      var f := RightFixOf(a, idOf, n);
      RemoveWalkValid(f, idOf, f.nodes[n].parent, fuel);
    } else if b == 2 && !LeftHeavyBroken(a.nodes, n) {
      LeftFixValid(a, idOf, n);
      FixParentPresent(a, idOf, n);
      var f := LeftFixOf(a, idOf, n);
      RemoveWalkValid(f, idOf, f.nodes[n].parent, fuel);
    } else if b != -2 && b != 2 {
      FixParentPresent(a, idOf, n);
      RemoveWalkValid(a, idOf, a.nodes[n].parent, fuel);
    }
  }

  class AVLTree<V> {
    var nodes: Nodes<V>
    var root: Ptr
    /** The id the next allocated node receives. */
    var nextId: nat
    ghost var sub: Subtrees
    ghost var idOf: map<int, nat>

    ghost function State(): Arena<V>
      reads this
    {
      Arena(nodes, root, sub)
    }

    ghost predicate Valid()
      reads this
    {
      && AvlArena.Valid(State(), idOf)
      && forall n | n in nodes :: n < nextId
    }

    /** The key -> value map the tree stands for. */
    ghost function Contents(): map<int, V>
      reads this
      requires Valid()
    {
      AvlArena.Contents(nodes, idOf)
    }

    constructor()
      ensures Valid() && Contents() == map[]
      ensures State() == Arena(map[], Null, map[]) && nextId == 0
    {
      nodes, root, nextId := map[], Null, 0;
      sub, idOf := map[], map[];
    }

    /**
     * `rotateLeft(x)`: x's right child y takes x's place, y's left subtree
     * becomes x's right subtree, and both balances are set to 0.
     */
    method RotateLeft(x: nat)
      requires LeftRotatable(nodes, x)
      modifies this
      ensures RotatedLeft(old(State()), State(), x) && State() == RotateLeftOf(old(State()), x)
      ensures idOf == old(idOf) && nextId == old(nextId)
    {
      ghost var a := State();
      var ns := nodes;
      var y := ns[x].right.id;
      ns := ns[x := ns[x].(right := ns[y].left)];
      var b := ns[x].right;
      if b.Ref? {
        ns := ns[b.id := ns[b.id].(parent := Ref(x))];
      }
      ns := ns[y := ns[y].(parent := ns[x].parent)];
      var g := ns[x].parent;
      if g.Null? {
        root := Ref(y);
      } else if ns[g.id].left == Ref(x) {
        ns := ns[g.id := ns[g.id].(left := Ref(y))];
      } else {
        ns := ns[g.id := ns[g.id].(right := Ref(y))];
      }
      ns := ns[y := ns[y].(left := Ref(x))];
      ns := ns[x := ns[x].(parent := Ref(y))];
      ns := ns[x := ns[x].(balance := 0)];
      ns := ns[y := ns[y].(balance := 0)];
      nodes := ns;
      sub := a.sub[x := {x} + SubOf(a.sub, a.nodes[x].left) + SubOf(a.sub, b)][y := SubOf(a.sub, Ref(x))];
      RotatedLeftIsRotateLeftOf(a, State(), x);
    }

    /**
     * `rotateRight(y)`: y's left child x takes y's place, x's right subtree
     * becomes y's left subtree; y's balance becomes y - 1 - max(x, 0), then
     * x's becomes x - 1 + min(y', 0).
     */
    method RotateRight(y: nat)
      requires RightRotatable(nodes, y)
      modifies this
      ensures RotatedRight(old(State()), State(), y) && State() == RotateRightOf(old(State()), y)
      ensures idOf == old(idOf) && nextId == old(nextId)
    {
      ghost var a := State();
      var ns := nodes;
      var x := ns[y].left.id;
      ns := ns[y := ns[y].(left := ns[x].right)];
      var b := ns[y].left;
      if b.Ref? {
        ns := ns[b.id := ns[b.id].(parent := Ref(y))];
      }
      ns := ns[x := ns[x].(parent := ns[y].parent)];
      var g := ns[y].parent;
      if g.Null? {
        root := Ref(x);
      } else if ns[g.id].left == Ref(y) {
        ns := ns[g.id := ns[g.id].(left := Ref(x))];
      } else {
        ns := ns[g.id := ns[g.id].(right := Ref(x))];
      }
      ns := ns[x := ns[x].(right := Ref(y))];
      ns := ns[y := ns[y].(parent := Ref(x))];
      ns := ns[y := ns[y].(balance := RightLoweredBalance(ns[y].balance, ns[x].balance))];
      ns := ns[x := ns[x].(balance := RightLiftedBalance(ns[x].balance, ns[y].balance))];
      nodes := ns;
      sub := a.sub[y := {y} + SubOf(a.sub, b) + SubOf(a.sub, a.nodes[y].right)][x := SubOf(a.sub, Ref(y))];
      RotatedRightIsRotateRightOf(a, State(), y);
    }

    /** `setBalance(b)` on node n (avlbst.h:70-92): only that balance changes. */
    method SetBalance(n: nat, b: int)
      requires Valid() && n in nodes
      modifies this
      ensures Valid() && Contents() == old(Contents())
      ensures State() == Arena(old(nodes)[n := old(nodes)[n].(balance := b)], old(root), old(sub))
      ensures nodes.Keys == old(nodes).Keys && idOf == old(idOf) && nextId == old(nextId)
    {
      ghost var a := State();
      BalanceSetValid(a, idOf, n, b);
      Commit(nodes[n := nodes[n].(balance := b)], root, nextId, sub, idOf);
    }

    /**
     * The balance -2 case of both rebalancing walks: rotate the right child
     * right when its balance is 1, then rotate n left. Where the source
     * would follow a null pointer the walk stops with `NullChild` and the
     * tree is left as it is.
     */
    method FixRightHeavy(n: nat) returns (walk: Walk)
      requires Valid() && n in nodes
      modifies this
      ensures Valid() && Contents() == old(Contents()) && idOf == old(idOf) && nextId == old(nextId)
      ensures walk == NullChild <==> RightHeavyBroken(old(nodes), n)
      ensures nodes.Keys == old(nodes).Keys
      ensures walk != NullChild ==> walk == Rotated
      ensures walk == Rotated ==> State() == RightFixOf(old(State()), old(idOf), n)
      ensures walk == NullChild ==> unchanged(this)
    {
      assert NodeLinked(nodes, root, sub, n);
      var right := nodes[n].right;
      if right.Null? {
        return NullChild;
      }
      if nodes[right.id].balance == 1 {
        if nodes[right.id].left.Null? {
          return NullChild;
        }
        ghost var a := State();
        RightRotatableLinked(a, right.id);
        RotateRight(right.id);
        RotateRightValid(a, State(), idOf, right.id);
      }
      ghost var a := State();
      LeftRotatableLinked(a, n);
      RotateLeft(n);
      RotateLeftValid(a, State(), idOf, n);
      return Rotated;
    }

    /** The mirror of `FixRightHeavy` for the balance 2 case. */
    method FixLeftHeavy(n: nat) returns (walk: Walk)
      requires Valid() && n in nodes
      modifies this
      ensures Valid() && Contents() == old(Contents()) && idOf == old(idOf) && nextId == old(nextId)
      ensures walk == NullChild <==> LeftHeavyBroken(old(nodes), n)
      ensures nodes.Keys == old(nodes).Keys
      ensures walk != NullChild ==> walk == Rotated
      ensures walk == Rotated ==> State() == LeftFixOf(old(State()), old(idOf), n)
      ensures walk == NullChild ==> unchanged(this)
    {
      assert NodeLinked(nodes, root, sub, n);
      var left := nodes[n].left;
      if left.Null? {
        return NullChild;
      }
      if nodes[left.id].balance == -1 {
        if nodes[left.id].right.Null? {
          return NullChild;
        }
        ghost var a := State();
        LeftRotatableLinked(a, left.id);
        RotateLeft(left.id);
        RotateLeftValid(a, State(), idOf, left.id);
      }
      ghost var a := State();
      RightRotatableLinked(a, n);
      RotateRight(n);
      RotateRightValid(a, State(), idOf, n);
      return Rotated;
    }

    /** The BST search `internalFind(key)`: the node holding key, or null when key is absent. */
    method Find(key: int) returns (found: Ptr)
      requires Valid()
      ensures found.Ref? <==> key in Contents()
      ensures found.Ref? ==> found.id in nodes && nodes[found.id].key == key
    {
      ghost var a := State();
      var curr := root;
      while curr.Ref?
        invariant curr.Ref? ==> curr.id in nodes && curr.id in sub
        invariant key in idOf ==> curr.Ref? && idOf[key] in sub[curr.id]
        decreases if curr.Ref? then |sub[curr.id]| + 1 else 0
      {
        var n := nodes[curr.id];
        if key < n.key {
          SearchStep(a, idOf, curr.id, key);
          curr := n.left;
        } else if key > n.key {
          SearchStep(a, idOf, curr.id, key);
          curr := n.right;
        } else {
          return curr;
        }
      }
      return Null;
    }

    /** Stores a new arena, key index and next id in the fields. */
    method Commit(ns: Nodes<V>, rt: Ptr, next: nat, ghost sb: Subtrees, ghost ix: map<int, nat>)
      modifies this
      ensures State() == Arena(ns, rt, sb) && idOf == ix && nextId == next
    {
      nodes, root, nextId, sub, idOf := ns, rt, next, sb, ix;
    }

    /**
     * The descent loop of `internalInsert` in a non-empty tree: walk from the
     * root towards k, stopping at the node holding k or, when k is absent,
     * at the null slot where k belongs; `parent` is the last node visited.
     */
    method SearchSlot(k: int) returns (curr: Ptr, parent: Ptr)
      requires Valid() && root.Ref?
      ensures curr.Ref? <==> k in idOf
      ensures curr.Ref? ==> curr.id in nodes && idOf[k] == curr.id
      ensures curr.Null? ==>
        && parent.Ref? && parent.id in nodes && PathFits(State(), parent.id, k) && k != nodes[parent.id].key
        && (if k < nodes[parent.id].key then nodes[parent.id].left else nodes[parent.id].right).Null?
    {
      ghost var a := State();
      curr, parent := root, Null;
      RootFits(a, k);
      while curr.Ref?
        invariant curr.Ref? ==> curr.id in nodes && curr.id in sub && PathFits(a, curr.id, k)
        invariant k in idOf ==> curr.Ref? && idOf[k] in sub[curr.id]
        invariant curr.Null? ==> parent.Ref? && parent.id in nodes && PathFits(a, parent.id, k) && k != nodes[parent.id].key
        invariant curr.Null? && parent.Ref? && parent.id in nodes ==>
          (if k < nodes[parent.id].key then nodes[parent.id].left else nodes[parent.id].right).Null?
        decreases if curr.Ref? then |sub[curr.id]| + 1 else 0
      {
        parent := curr;
        var n := nodes[curr.id];
        if k < n.key {
          SearchStep(a, idOf, curr.id, k);
          if n.left.Ref? {
            DescendFits(a, curr.id, k);
          }
          curr := n.left;
        } else if k > n.key {
          SearchStep(a, idOf, curr.id, k);
          if n.right.Ref? {
            DescendFits(a, curr.id, k);
          }
          curr := n.right;
        } else {
          assert Indexed(nodes, idOf);
          return;
        }
      }
    }

    /**
     * `internalInsert`: overwrite the value if the key is present (result
     * null); otherwise make the new node the root of an empty tree, or
     * attach it as a leaf with balance 0 where the search for the key ends.
     */
    method InternalInsert(k: int, v: V) returns (inserted: Ptr)
      requires Valid()
      modifies this
      ensures Valid() && Contents() == old(Contents())[k := v]
      ensures inserted.Null? <==> k in old(Contents())
      ensures inserted.Null? ==>
        && k in old(idOf) && ValueOverwritten(old(nodes), nodes, old(idOf[k]), v)
        && root == old(root) && sub == old(sub) && idOf == old(idOf) && nextId == old(nextId)
      ensures inserted.Ref? && old(root).Null? ==> FirstNode(old(State()), State(), k, v, inserted.id)
      ensures inserted.Ref? && old(root).Ref? ==> LeafInserted(old(State()), State(), inserted.id, k, v)
      ensures inserted.Ref? ==> inserted.id == old(nextId) && nextId == old(nextId) + 1 && idOf == old(idOf)[k := inserted.id]
    {
      if root.Null? {
        inserted := PlaceFirst(k, v);
        return;
      }
      var curr, parent := SearchSlot(k);
      if curr.Ref? {
        Overwrite(curr.id, v);
        return Null;
      }
      var leaf := AttachLeaf(parent.id, k, v);
      return Ref(leaf);
    }

    /** `internalInsert` on an empty tree: the new node becomes the root. */
    method PlaceFirst(k: int, v: V) returns (inserted: Ptr)
      requires Valid() && root.Null?
      modifies this
      ensures Valid() && Contents() == old(Contents())[k := v] && k !in old(Contents())
      ensures FirstNode(old(State()), State(), k, v, old(nextId))
      ensures inserted == Ref(old(nextId)) && nextId == old(nextId) + 1 && idOf == old(idOf)[k := old(nextId)]
    {
      ghost var a, index := State(), idOf;
      var leaf := nextId;
      EmptyIndex(a, index);
      var ns := nodes[leaf := Node(k, v, Null, Null, Null, 0)];
      FirstNodeValid(a, Arena(ns, Ref(leaf), map[leaf := {leaf}]), index, k, v, leaf);
      Commit(ns, Ref(leaf), nextId + 1, map[leaf := {leaf}], map[k := leaf]);
      return Ref(leaf);
    }

    /** `internalInsert` finding the key at node c: only c's value changes. */
    method Overwrite(c: nat, v: V)
      requires Valid() && c in nodes
      modifies this
      ensures Valid() && Contents() == old(Contents())[old(nodes[c].key) := v]
      ensures ValueOverwritten(old(nodes), nodes, c, v)
      ensures root == old(root) && sub == old(sub) && idOf == old(idOf) && nextId == old(nextId)
    {
      ghost var a := State();
      OverwriteValid(a, idOf, c, v);
      OverwriteOnly(a.nodes, c, v);
      Commit(nodes[c := nodes[c].(value := v)], root, nextId, sub, idOf);
    }

    /** `internalInsert` at the end of the descent: a new leaf under p, on k's side. */
    method AttachLeaf(p: nat, k: int, v: V) returns (leaf: nat)
      requires Valid() && k !in idOf && p in nodes && PathFits(State(), p, k)
      requires (if k < nodes[p].key then nodes[p].left else nodes[p].right).Null?
      modifies this
      ensures Valid() && Contents() == old(Contents())[k := v]
      ensures LeafInserted(old(State()), State(), leaf, k, v)
      ensures leaf == old(nextId) && nextId == old(nextId) + 1 && idOf == old(idOf)[k := leaf]
    {
      ghost var a, index := State(), idOf;
      leaf := nextId;
      var ns := nodes[leaf := Node(k, v, Null, Null, Ref(p), 0)];
      ns := ns[p := Attach(ns[p], k, leaf)];
      AttachValid(a, index, p, leaf, k, v);
      Commit(ns, root, nextId + 1, GrowSub(sub, p, leaf), index[k := leaf]);
    }

    /**
     * `rebalanceAfterInsert(node)`: walk up from node, adding
     * `InsertDelta` to each balance; stop at a balance of 0, fix a balance
     * of -2 or 2 by rotations and stop, otherwise go on to the parent.
     */
    method RebalanceAfterInsert(node: Ptr) returns (walk: Walk)
      requires Valid() && (node.Ref? ==> node.id in nodes)
      modifies this
      ensures Valid() && idOf == old(idOf) && nextId == old(nextId)
      ensures (State(), walk) == InsertWalkOf(old(State()), old(idOf), node)
    {
      var curr := node;
      while curr.Ref?
        invariant Valid() && idOf == old(idOf) && nextId == old(nextId)
        invariant curr.Ref? ==> curr.id in nodes
        invariant InsertWalkOf(State(), idOf, curr) == InsertWalkOf(old(State()), old(idOf), node)
        decreases if curr.Ref? then |nodes.Keys - sub[curr.id]| + 1 else 0
      {
        var n := curr.id;
        assert NodeLinked(nodes, root, sub, n);
        InsertWalkStep(State(), idOf, n);
        var balance := nodes[n].balance + InsertDelta(nodes, n);
        SetBalance(n, balance);
        if balance == 0 {
          return Balanced;
        } else if balance == -2 {
          walk := FixRightHeavy(n);
          return;
        } else if balance == 2 {
          walk := FixLeftHeavy(n);
          return;
        }
        curr := nodes[n].parent;
        if curr.Ref? {
          ParentAbove(State(), n);
        }
      }
      return ReachedRoot;
    }

    /**
     * `insert`: store the pair with `internalInsert`; when a new node was
     * made, rebalance from its parent.
     */
    method Insert(k: int, v: V) returns (walk: Walk, ghost attached: Arena<V>)
      requires Valid()
      modifies this
      ensures Valid() && Contents() == old(Contents())[k := v]
      ensures walk == NoWalk <==> k in old(Contents())
      ensures k in old(Contents()) ==>
        && ValueOverwritten(old(nodes), nodes, old(idOf)[k], v) && root == old(root) && sub == old(sub)
      ensures k !in old(Contents()) ==> nodes.Keys == old(nodes).Keys + {old(nextId)}
      ensures nextId == old(nextId) + (if k in old(Contents()) then 0 else 1)
      ensures old(root).Null? ==> walk == ReachedRoot && FirstNode(old(State()), State(), k, v, old(nextId))
      ensures k !in old(Contents()) && old(root).Ref? ==>
        && LeafInserted(old(State()), attached, old(nextId), k, v) && AvlArena.Valid(attached, idOf)
        && attached.nodes[old(nextId)].parent.id in attached.nodes
        && (State(), walk) == InsertWalkOf(attached, idOf, attached.nodes[old(nextId)].parent)
    {
      var inserted := InternalInsert(k, v);
      attached := State();
      if inserted.Null? {
        return NoWalk, attached;
      }
      assert NodeLinked(nodes, root, sub, inserted.id);
      InsertWalkValid(State(), idOf, nodes[inserted.id].parent);
      walk := RebalanceAfterInsert(nodes[inserted.id].parent);
    }

    /**
     * One pass of the loop in `rebalanceAfterRemove` at node n: store
     * `RemoveBalance`, then fix a balance of -2 or 2. `NullChild` says the
     * fix would follow a null pointer, `Balanced` that no fix was needed;
     * `rest` is the fuel left for the rest of the walk.
     */
    method RemoveStep(n: nat, fuel: nat) returns (walk: Walk, rest: nat)
      requires Valid() && n in nodes && fuel > 0
      requires nodes[n].left.Ref? ==> nodes[n].left.id in nodes
      requires nodes[n].right.Ref? ==> nodes[n].right.id in nodes
      modifies this
      ensures Valid() && Contents() == old(Contents()) && idOf == old(idOf) && nextId == old(nextId)
      ensures nodes.Keys == old(nodes).Keys
      ensures walk == NullChild || walk == Balanced || walk == Rotated
      ensures n in nodes && (nodes[n].parent.Ref? ==> nodes[n].parent.id in nodes)
      ensures var b := RemoveBalance(old(nodes), n);
        && (walk == Balanced <==> b != -2 && b != 2)
        && (walk == Balanced ==> State() == Arena(old(nodes)[n := old(nodes)[n].(balance := b)], old(root), old(sub)))
      ensures var b := RemoveBalance(old(nodes), n);
        var stored := Arena(old(nodes)[n := old(nodes)[n].(balance := b)], old(root), old(sub));
        walk == Rotated ==>
          && AvlArena.Valid(stored, old(idOf))
          && (b == -2 ==> !RightHeavyBroken(stored.nodes, n) && State() == RightFixOf(stored, old(idOf), n))
          && (b != -2 ==> b == 2 && !LeftHeavyBroken(stored.nodes, n) && State() == LeftFixOf(stored, old(idOf), n))
      ensures walk == NullChild ==> RemoveWalkOf(old(State()), old(idOf), Ref(n), fuel) == (State(), NullChild)
      ensures rest == fuel - 1
      ensures walk != NullChild ==>
        RemoveWalkOf(old(State()), old(idOf), Ref(n), fuel) == RemoveWalkOf(State(), idOf, nodes[n].parent, rest)
    {
      rest := fuel - 1;
      assert NodeLinked(nodes, root, sub, n);
      ghost var a := State();
      SetBalance(n, RemoveBalance(nodes, n));
      var balance := nodes[n].balance;
      walk := Balanced;
      if balance == -2 {
        walk := FixRightHeavy(n);
        if walk == NullChild {
          RemoveWalkStops(a, idOf, n, fuel);
          return;
        }
      } else if balance == 2 {
        walk := FixLeftHeavy(n);
        if walk == NullChild {
          RemoveWalkStops(a, idOf, n, fuel);
          return;
        }
      }
      RemoveWalkNext(a, idOf, n, fuel, State());
    }

    /**
     * `rebalanceAfterRemove(node)`: walk up from node, one `RemoveStep` per
     * node, going on to the parent in every case but a null pointer. The
     * walk runs at most `fuel` steps.
     */
    method RebalanceAfterRemove(node: Ptr, fuel: nat) returns (walk: Walk)
      requires Valid() && (node.Ref? ==> node.id in nodes)
      modifies this
      ensures Valid() && Contents() == old(Contents()) && idOf == old(idOf) && nextId == old(nextId)
      ensures nodes.Keys == old(nodes).Keys
      ensures walk == ReachedRoot || walk == NullChild || walk == OutOfFuel
      ensures (State(), walk) == RemoveWalkOf(old(State()), old(idOf), node, fuel)
    {
      ghost var target := RemoveWalkOf(State(), idOf, node, fuel);
      var curr, steps := node, fuel;
      while curr.Ref?
        invariant Valid() && Contents() == old(Contents()) && idOf == old(idOf) && nextId == old(nextId)
        invariant nodes.Keys == old(nodes).Keys
        invariant curr.Ref? ==> curr.id in nodes
        invariant RemoveWalkOf(State(), idOf, curr, steps) == target
        decreases steps
      {
        if steps == 0 {
          return OutOfFuel;
        }
        var n := curr.id;
        assert NodeLinked(nodes, root, sub, n);
        walk, steps := RemoveStep(n, steps);
        if walk == NullChild {
          return;
        }
        curr := nodes[n].parent;
      }
      return ReachedRoot;
    }

    /**
     * `predecessor(node)` for a node with a left child: the rightmost node
     * of its left subtree, which holds the largest key there.
     */
    method Predecessor(d: nat) returns (p: nat)
      requires Valid() && d in nodes && nodes[d].left.Ref?
      ensures p in SubOf(sub, nodes[d].left) && p in nodes && nodes[p].right.Null?
      ensures KeysBelow(nodes, SubOf(sub, nodes[d].left) - {p}, nodes[p].key)
    {
      ghost var a := State();
      assert NodeLinked(nodes, root, sub, d);
      p := nodes[d].left.id;
      ghost var s := sub[p];
      assert NodeLinked(nodes, root, sub, p);
      while nodes[p].right.Ref?
        invariant p in nodes && p in sub && sub[p] <= s && BelowOutside(a, s, p)
        decreases |sub[p]|
      {
        PredecessorStep(a, idOf, s, p);
        p := nodes[p].right.id;
      }
      PredecessorFound(a, idOf, s, p);
      assert p in sub[p] by {
        assert NodeLinked(nodes, root, sub, p);
      }
    }

    /**
     * The base `nodeSwap(n1, n2)` of the plain BST, by its effect: the two
     * nodes exchange their positions in the tree, each keeping its own key,
     * value and balance.
     */
    method SwapPositions(i: nat, j: nat)
      requires i in nodes && j in nodes && sub.Keys == nodes.Keys
      modifies this
      ensures PositionsSwapped(old(State()), State(), i, j, false)
      ensures idOf == old(idOf) && nextId == old(nextId)
    {
      var ns := map m | m in nodes :: Relocated(nodes[m], nodes[Swap(i, j, m)], i, j, nodes[m].balance);
      ghost var sb := map m | m in sub :: SwapSet(i, j, sub[Swap(i, j, m)]);
      Commit(ns, SwapPtr(i, j, root), nextId, sb, idOf);
    }

    /**
     * The AVL `nodeSwap(n1, n2)`: the base exchange of positions, then the
     * exchange of the two balances.
     */
    method NodeSwap(n1: nat, n2: nat)
      requires n1 in nodes && n2 in nodes && sub.Keys == nodes.Keys
      modifies this
      ensures PositionsSwapped(old(State()), State(), n1, n2, true)
      ensures idOf == old(idOf) && nextId == old(nextId)
    {
      ghost var a := State();
      SwapPositions(n1, n2);
      ghost var r := State();
      BalancesExchanged(a, r, n1, n2);
      var tempB := nodes[n1].balance;
      var ns := nodes[n1 := nodes[n1].(balance := nodes[n2].balance)];
      ns := ns[n2 := ns[n2].(balance := tempB)];
      Commit(ns, root, nextId, sub, idOf);
    }

    /**
     * The splice of `remove`: node d, which has at most one child, is
     * replaced by that child under d's parent (or as the root) and deleted.
     * The tree must be ordered apart from d; d's key leaves the map.
     */
    method Splice(d: nat) returns (parent: Ptr)
      requires SpliceSetting(State(), d) && Indexed(nodes, idOf) && OrderedExcept(nodes, sub, d)
      requires forall n | n in nodes :: n < nextId
      modifies this
      ensures Valid() && Contents() == AvlArena.Contents(old(nodes), old(idOf)) - {old(nodes[d].key)}
      ensures Spliced(old(State()), State(), d) && idOf == old(idOf) - {old(nodes[d].key)}
      ensures State() == SpliceOf(old(State()), d)
      ensures parent == old(nodes[d].parent) && (parent.Ref? ==> parent.id in nodes)
    {
      ghost var a := State();
      SpliceDistinct(a, d);
      var ns := nodes;
      parent := ns[d].parent;
      var child := if ns[d].left.Ref? then ns[d].left else ns[d].right;
      if child.Ref? {
        ns := ns[child.id := ns[child.id].(parent := parent)];
      }
      var rt := root;
      if parent.Null? {
        rt := child;
      } else if ns[parent.id].left == Ref(d) {
        ns := ns[parent.id := ns[parent.id].(left := child)];
      } else {
        ns := ns[parent.id := ns[parent.id].(right := child)];
      }
      ns := ns - {d};
      SpliceOfSpliced(a, d);
      SpliceValid(a, SpliceOf(a, d), idOf, d);
      assert ns == SpliceOf(a, d).nodes && rt == SpliceOf(a, d).root;
      Commit(ns, rt, nextId, map m | m in sub && m != d :: sub[m] - {d}, idOf - {a.nodes[d].key});
    }

    /**
     * `remove(key)`: find the node holding key (nothing happens when there is
     * none); if it has two children, swap it with its predecessor first; then
     * splice it out and rebalance from its parent, for at most `fuel` steps.
     */
    method Remove(key: int, fuel: nat)
      returns (walk: Walk, ghost swapped: Arena<V>, ghost pred: nat, ghost spliced: Arena<V>, ghost from: Ptr)
      requires Valid()
      modifies this
      ensures Valid() && Contents() == old(Contents()) - {key}
      ensures walk == NoWalk <==> key !in old(Contents())
      ensures key !in old(Contents()) ==> unchanged(this)
      ensures key in old(Contents()) ==> nodes.Keys == old(nodes).Keys - {old(idOf)[key]}
      ensures key in old(Contents()) ==>
        && AvlArena.Valid(spliced, idOf) && AvlArena.Contents(spliced.nodes, idOf) == old(Contents()) - {key}
        && (from.Ref? ==> from.id in spliced.nodes)
        && (State(), walk) == RemoveWalkOf(spliced, idOf, from, fuel)
      ensures key in old(Contents()) && SpliceSetting(old(State()), old(idOf)[key]) ==>
        spliced == SpliceOf(old(State()), old(idOf)[key]) && from == old(nodes)[old(idOf)[key]].parent
      ensures key in old(Contents()) && !SpliceSetting(old(State()), old(idOf)[key]) ==>
        var d := old(idOf)[key];
        && old(nodes)[d].left.Ref? && pred in SubOf(old(sub), old(nodes)[d].left) && pred in old(nodes)
        && old(nodes)[pred].right.Null?
        && KeysBelow(old(nodes), SubOf(old(sub), old(nodes)[d].left) - {pred}, old(nodes)[pred].key)
        && PositionsSwapped(old(State()), swapped, d, pred, true) && d in swapped.nodes
        && spliced == SpliceOf(swapped, d) && from == swapped.nodes[d].parent
    {
      swapped, pred, spliced, from := State(), 0, State(), Null;
      var node := Find(key);
      if node.Null? {
        return NoWalk, swapped, pred, spliced, from;
      }
      var d := node.id;
      ghost var a := State();
      if nodes[d].left.Ref? && nodes[d].right.Ref? {
        var p := Predecessor(d);
        pred := p;
        NodeSwap(d, p);
        assert MovedTo(a, State(), d, p, true, d);
        SwapLinked(a, State(), d, p, true);
        SwapEntries(a, State(), d, p, true);
        SameEntriesContents(a.nodes, nodes, idOf);
        SwapOrderedExcept(a, State(), d, p, true);
      } else {
        OrderedIsOrderedExcept(nodes, sub, d);
      }
      swapped := State();
      assert SpliceSetting(a, d) ==> swapped == a;
      var parent := Splice(d);
      spliced, from := State(), parent;
      walk := RebalanceAfterRemove(parent, fuel);
    }
  }
}
