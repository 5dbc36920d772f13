/**
 * The two rotations of the AVL layer, stated as relations between the state
 * before and the state after. `rotateLeft(x)` lifts x's right child y into
 * x's place; `rotateRight(y)` lifts y's left child x into y's place. They
 * differ in the balance factors they leave: rotateLeft zeroes both rotated
 * nodes, rotateRight recomputes both from their old values.
 */
module AvlRotations {
  import opened AvlArena

  function Max(a: int, b: int): int { if a >= b then a else b }
  function Min(a: int, b: int): int { if a <= b then a else b }

  /** The new balance of the lowered node y in `rotateRight(y)`. */
  function RightLoweredBalance(yb: int, xb: int): int
  {
    yb - 1 - Max(xb, 0)
  }

  /** The new balance of the lifted node x in `rotateRight(y)`, from y's new balance. */
  function RightLiftedBalance(xb: int, yb': int): int
  {
    xb - 1 + Min(yb', 0)
  }

  /**
   * `r` is the state `rotateLeft(x)` leaves: x's right child y takes x's
   * place (under x's parent g, or as the root), y's old left subtree b
   * becomes x's right subtree, x becomes y's left child, both balances are 0,
   * and no other node changes.
   */
  ghost predicate RotatedLeft<V>(a: Arena<V>, r: Arena<V>, x: nat)
    requires x in a.nodes && a.nodes[x].right.Ref? && a.nodes[x].right.id in a.nodes
  {
    var xn := a.nodes[x];
    var y := xn.right.id;
    var yn := a.nodes[y];
    var b, g := yn.left, xn.parent;
    && r.nodes.Keys == a.nodes.Keys
    && r.nodes[x] == xn.(right := b, parent := Ref(y), balance := 0)
    && r.nodes[y] == yn.(left := Ref(x), parent := g, balance := 0)
    && (b.Ref? ==> b.id in a.nodes && r.nodes[b.id] == a.nodes[b.id].(parent := Ref(x)))
    && (g.Ref? ==> g.id in a.nodes && r.nodes[g.id] == Relink(a.nodes[g.id], x, Ref(y)))
    && (forall m {:trigger Kept(a.nodes, r.nodes, m)} | m in a.nodes && m != x && m != y && b != Ref(m) && g != Ref(m) :: Kept(a.nodes, r.nodes, m))
    && r.root == (if g.Null? then Ref(y) else a.root)
    && r.sub == a.sub[x := {x} + SubOf(a.sub, xn.left) + SubOf(a.sub, b)][y := SubOf(a.sub, Ref(x))]
  }

  /**
   * `r` is the state `rotateRight(y)` leaves: y's left child x takes y's
   * place, x's old right subtree b becomes y's left subtree, y becomes x's
   * right child, y's balance becomes y - 1 - max(x, 0) and then x's becomes
   * x - 1 + min(y', 0) with y' the new balance of y; no other node changes.
   */
  ghost predicate RotatedRight<V>(a: Arena<V>, r: Arena<V>, y: nat)
    requires y in a.nodes && a.nodes[y].left.Ref? && a.nodes[y].left.id in a.nodes
  {
    var yn := a.nodes[y];
    var x := yn.left.id;
    var xn := a.nodes[x];
    var b, g := xn.right, yn.parent;
    var yb := RightLoweredBalance(yn.balance, xn.balance);
    && r.nodes.Keys == a.nodes.Keys
    && r.nodes[y] == yn.(left := b, parent := Ref(x), balance := yb)
    && r.nodes[x] == xn.(right := Ref(y), parent := g, balance := RightLiftedBalance(xn.balance, yb))
    && (b.Ref? ==> b.id in a.nodes && r.nodes[b.id] == a.nodes[b.id].(parent := Ref(y)))
    && (g.Ref? ==> g.id in a.nodes && r.nodes[g.id] == Relink(a.nodes[g.id], y, Ref(x)))
    && (forall m {:trigger Kept(a.nodes, r.nodes, m)} | m in a.nodes && m != x && m != y && b != Ref(m) && g != Ref(m) :: Kept(a.nodes, r.nodes, m))
    && r.root == (if g.Null? then Ref(x) else a.root)
    && r.sub == a.sub[y := {y} + SubOf(a.sub, b) + SubOf(a.sub, yn.right)][x := SubOf(a.sub, Ref(y))]
  }

  /**
   * The pointers `rotateLeft(x)` follows are non-null where it dereferences
   * them, and name distinct nodes.
   */
  ghost predicate LeftRotatable<V>(nodes: Nodes<V>, x: nat)
  {
    && x in nodes && nodes[x].right.Ref? && nodes[x].right.id in nodes
    && var y := nodes[x].right.id; var b, g := nodes[y].left, nodes[x].parent;
    && y != x
    && (b.Ref? ==> b.id in nodes && b.id != x && b.id != y)
    && (g.Ref? ==> g.id in nodes && g.id != x && g.id != y && g != b)
  }

  /** The mirror of `LeftRotatable` for `rotateRight(y)`. */
  ghost predicate RightRotatable<V>(nodes: Nodes<V>, y: nat)
  {
    && y in nodes && nodes[y].left.Ref? && nodes[y].left.id in nodes
    && var x := nodes[y].left.id; var b, g := nodes[x].right, nodes[y].parent;
    && x != y
    && (b.Ref? ==> b.id in nodes && b.id != y && b.id != x)
    && (g.Ref? ==> g.id in nodes && g.id != y && g.id != x && g != b)
  }

  /** The state `rotateLeft(x)` builds, written out node by node. */
  ghost function RotateLeftOf<V>(a: Arena<V>, x: nat): Arena<V>
    requires LeftRotatable(a.nodes, x)
  {
    var xn := a.nodes[x];
    var y := xn.right.id;
    var yn := a.nodes[y];
    var b, g := yn.left, xn.parent;
    var ns := a.nodes[x := xn.(right := b, parent := Ref(y), balance := 0)]
                     [y := yn.(left := Ref(x), parent := g, balance := 0)];
    var ns' := if b.Ref? then ns[b.id := a.nodes[b.id].(parent := Ref(x))] else ns;
    var ns'' := if g.Ref? then ns'[g.id := Relink(a.nodes[g.id], x, Ref(y))] else ns';
    Arena(ns'', if g.Null? then Ref(y) else a.root,
          a.sub[x := {x} + SubOf(a.sub, xn.left) + SubOf(a.sub, b)][y := SubOf(a.sub, Ref(x))])
  }

  /** The state `rotateRight(y)` builds, written out node by node. */
  ghost function RotateRightOf<V>(a: Arena<V>, y: nat): Arena<V>
    requires RightRotatable(a.nodes, y)
  {
    var yn := a.nodes[y];
    var x := yn.left.id;
    var xn := a.nodes[x];
    var b, g := xn.right, yn.parent;
    var yb := RightLoweredBalance(yn.balance, xn.balance);
    var ns := a.nodes[y := yn.(left := b, parent := Ref(x), balance := yb)]
                     [x := xn.(right := Ref(y), parent := g, balance := RightLiftedBalance(xn.balance, yb))];
    var ns' := if b.Ref? then ns[b.id := a.nodes[b.id].(parent := Ref(y))] else ns;
    var ns'' := if g.Ref? then ns'[g.id := Relink(a.nodes[g.id], y, Ref(x))] else ns';
    Arena(ns'', if g.Null? then Ref(x) else a.root,
          a.sub[y := {y} + SubOf(a.sub, b) + SubOf(a.sub, yn.right)][x := SubOf(a.sub, Ref(y))])
  }

  /** The state `RotateLeftOf` builds is the one `RotatedLeft` describes. */
  lemma RotateLeftOfRotated<V>(a: Arena<V>, x: nat)
    requires LeftRotatable(a.nodes, x)
    ensures RotatedLeft(a, RotateLeftOf(a, x), x)
  {
  }

  /** The state `RotateRightOf` builds is the one `RotatedRight` describes. */
  lemma RotateRightOfRotated<V>(a: Arena<V>, y: nat)
    requires RightRotatable(a.nodes, y)
    ensures RotatedRight(a, RotateRightOf(a, y), y)
  {
  }

  /** `RotatedLeft` pins the state down: it is the one `RotateLeftOf` builds. */
  lemma RotatedLeftIsRotateLeftOf<V>(a: Arena<V>, r: Arena<V>, x: nat)
    requires LeftRotatable(a.nodes, x) && RotatedLeft(a, r, x)
    ensures r == RotateLeftOf(a, x)
  {
    var s := RotateLeftOf(a, x);
    RotateLeftOfRotated(a, x);
    forall m | m in r.nodes
      ensures r.nodes[m] == s.nodes[m]
    {
      var y := a.nodes[x].right.id;
      var b, g := a.nodes[y].left, a.nodes[x].parent;
      if m != x && m != y && b != Ref(m) && g != Ref(m) {
        assert Kept(a.nodes, r.nodes, m) && Kept(a.nodes, s.nodes, m);
      }
    }
    assert r.nodes == s.nodes;
  }

  /** `RotatedRight` pins the state down: it is the one `RotateRightOf` builds. */
  lemma RotatedRightIsRotateRightOf<V>(a: Arena<V>, r: Arena<V>, y: nat)
    requires RightRotatable(a.nodes, y) && RotatedRight(a, r, y)
    ensures r == RotateRightOf(a, y)
  {
    var s := RotateRightOf(a, y);
    RotateRightOfRotated(a, y);
    forall m | m in r.nodes
      ensures r.nodes[m] == s.nodes[m]
    {
      var x := a.nodes[y].left.id;
      var b, g := a.nodes[x].right, a.nodes[y].parent;
      if m != x && m != y && b != Ref(m) && g != Ref(m) {
        assert Kept(a.nodes, r.nodes, m) && Kept(a.nodes, s.nodes, m);
      }
    }
    assert r.nodes == s.nodes;
  }
  /** In a well-linked tree, a node with a right child can be rotated left. */
  lemma LeftRotatableLinked<V>(a: Arena<V>, x: nat)
    requires Linked(a) && x in a.nodes && a.nodes[x].right.Ref?
    ensures LeftRotatable(a.nodes, x)
  {
    LeftRotationDistinct(a, x);
  }

  /** In a well-linked tree, a node with a left child can be rotated right. */
  lemma RightRotatableLinked<V>(a: Arena<V>, y: nat)
    requires Linked(a) && y in a.nodes && a.nodes[y].left.Ref?
    ensures RightRotatable(a.nodes, y)
  {
    RightRotationDistinct(a, y);
  }

  /** The nodes a left rotation at x touches are pairwise distinct. */
  lemma LeftRotationDistinct<V>(a: Arena<V>, x: nat)
    requires Linked(a) && x in a.nodes && a.nodes[x].right.Ref?
    ensures var xn := a.nodes[x]; var y := xn.right.id;
      && y in a.nodes && y != x
      && var yn := a.nodes[y];
      && var l, b, rho, g := xn.left, yn.left, yn.right, xn.parent;
      && (b.Ref? ==> b.id in a.nodes && b.id != x && b.id != y)
      && (g.Ref? ==> g.id in a.nodes && g.id != x && g.id != y && g != b)
      && (l.Ref? ==> l.id in a.nodes && l.id != x && l.id != y && l != b && l != g)
      && (rho.Ref? ==> rho.id in a.nodes && rho.id != x && rho.id != y && rho != b && rho != g)
      && yn.parent == Ref(x)
      && (b.Ref? ==> a.nodes[b.id].parent == Ref(y))
      && (l.Ref? ==> a.nodes[l.id].parent == Ref(x))
      && (rho.Ref? ==> a.nodes[rho.id].parent == Ref(y))
      && (g.Ref? ==> a.nodes[g.id].left == Ref(x) || a.nodes[g.id].right == Ref(x))
      && (g.Null? ==> a.root == Ref(x))
      && (g.Ref? ==> (a.nodes[g.id].left == Ref(x)) != (a.nodes[g.id].right == Ref(x)))
      && (g.Ref? ==> var pg := a.nodes[g.id].parent; pg != Ref(x) && pg != Ref(y) && pg != g)
  {
    assert NodeLinked(a.nodes, a.root, a.sub, x);
    var xn := a.nodes[x];
    var y := xn.right.id;
    assert NodeLinked(a.nodes, a.root, a.sub, y);
    var yn := a.nodes[y];
    var l, b, rho, g := xn.left, yn.left, yn.right, xn.parent;
    if b.Ref? {
      assert NodeLinked(a.nodes, a.root, a.sub, b.id);
    }
    if g.Ref? {
      assert NodeLinked(a.nodes, a.root, a.sub, g.id);
    }
    if l.Ref? {
      assert NodeLinked(a.nodes, a.root, a.sub, l.id);
    }
    if rho.Ref? {
      assert NodeLinked(a.nodes, a.root, a.sub, rho.id);
    }
  }


  /** The setting of a left rotation at x: a linked tree where x has a right child. */
  ghost predicate LeftRotation<V>(a: Arena<V>, r: Arena<V>, x: nat)
  {
    && Linked(a) && x in a.nodes && a.nodes[x].right.Ref? && a.nodes[x].right.id in a.nodes
    && RotatedLeft(a, r, x)
  }

  /** After rotateLeft(x), x's pointers agree with its children's and its new parent y's. */
  lemma LeftLoweredLinks<V>(a: Arena<V>, r: Arena<V>, x: nat)
    requires LeftRotation(a, r, x)
    ensures x in r.nodes && x in r.sub
    ensures ChildLinked(r.nodes, r.nodes[x].left, x) && ChildLinked(r.nodes, r.nodes[x].right, x)
    ensures ParentLinked(r.nodes, r.root, x)
  {
    LeftRotationDistinct(a, x);
    var l := a.nodes[x].left;
    if l.Ref? {
      LeftRotationFieldsAt(a, r, x, l.id);
    }
  }

  /** After rotateLeft(x), x's subtree is x, its old left subtree and b's subtree. */
  lemma LeftLoweredSubtree<V>(a: Arena<V>, r: Arena<V>, x: nat)
    requires LeftRotation(a, r, x)
    ensures x in r.nodes && x in r.sub && SubtreeAt(r.nodes, r.sub, x)
  {
    LeftRotationDistinct(a, x);
    var sub := a.sub;
    var xn := a.nodes[x];
    var y := xn.right.id;
    var l, b := xn.left, a.nodes[y].left;
    assert NodeLinked(a.nodes, a.root, sub, x);
    assert NodeLinked(a.nodes, a.root, sub, y);
    var L, R := SubOf(sub, l), SubOf(sub, b);
    assert SubOf(r.sub, r.nodes[x].left) == L;
    assert SubOf(r.sub, r.nodes[x].right) == R;
    assert R <= sub[y];
    assert x !in L && x !in R;
    assert L !! R;
  }

  /** Keys and values stay with their nodes in a left rotation. */
  lemma LeftRotationEntries<V>(a: Arena<V>, r: Arena<V>, x: nat)
    requires LeftRotation(a, r, x)
    ensures SameEntries(a.nodes, r.nodes)
  {
    LeftRotationDistinct(a, x);
    var y := a.nodes[x].right.id;
    forall m | m in a.nodes
      ensures r.nodes[m].key == a.nodes[m].key && r.nodes[m].value == a.nodes[m].value
    {
      if m != x && m != y && a.nodes[y].left != Ref(m) && a.nodes[x].parent != Ref(m) {
        assert Kept(a.nodes, r.nodes, m);
      }
    }
  }

  /** After rotateLeft(x), x is ordered over its old left subtree and b's subtree. */
  lemma LeftLoweredOrder<V>(a: Arena<V>, r: Arena<V>, x: nat)
    requires LeftRotation(a, r, x) && Ordered(a.nodes, a.sub)
    ensures x in r.nodes && OrderedAt(r.nodes, r.sub, x)
  {
    LeftRotationDistinct(a, x);
    LeftRotationEntries(a, r, x);
    var sub := a.sub;
    var xn := a.nodes[x];
    var y := xn.right.id;
    var l, b := xn.left, a.nodes[y].left;
    assert NodeLinked(a.nodes, a.root, sub, x) && OrderedAt(a.nodes, sub, x);
    assert NodeLinked(a.nodes, a.root, sub, y);
    assert SubOf(r.sub, r.nodes[x].left) == SubOf(sub, l);
    assert SubOf(r.sub, r.nodes[x].right) == SubOf(sub, b) <= sub[y];
  }

  /** After rotateLeft(x), y's pointers agree with x's, its right child's and g's. */
  lemma LeftLiftedLinks<V>(a: Arena<V>, r: Arena<V>, x: nat)
    requires LeftRotation(a, r, x)
    ensures var y := a.nodes[x].right.id;
      && y in r.nodes && y in r.sub
      && ChildLinked(r.nodes, r.nodes[y].left, y) && ChildLinked(r.nodes, r.nodes[y].right, y)
      && ParentLinked(r.nodes, r.root, y)
  {
    LeftRotationDistinct(a, x);
    var y := a.nodes[x].right.id;
    var rho := a.nodes[y].right;
    if rho.Ref? {
      LeftRotationFieldsAt(a, r, x, rho.id);
    }
  }

  /** The subtree-set algebra of a rotation: regrouping {x} + L + ({y} + B + R). */
  lemma Regroup(x: nat, y: nat, L: set<nat>, B: set<nat>, R: set<nat>)
    requires x !in L && x !in {y} + B + R && L !! {y} + B + R
    requires y !in B && y !in R && B !! R
    ensures {x} + L + ({y} + B + R) == {y} + ({x} + L + B) + R
    ensures x !in L && x !in B && L !! B
    ensures y !in {x} + L + B && y !in R && ({x} + L + B) !! R
  {
  }

  /** After rotateLeft(x), y's subtree is x's old subtree. */
  lemma LeftLiftedSubtree<V>(a: Arena<V>, r: Arena<V>, x: nat)
    requires LeftRotation(a, r, x)
    ensures var y := a.nodes[x].right.id;
      y in r.nodes && y in r.sub && SubtreeAt(r.nodes, r.sub, y)
  {
    LeftRotationDistinct(a, x);
    var sub := a.sub;
    var xn := a.nodes[x];
    var y := xn.right.id;
    var l, b, rho := xn.left, a.nodes[y].left, a.nodes[y].right;
    assert NodeLinked(a.nodes, a.root, sub, x);
    assert NodeLinked(a.nodes, a.root, sub, y);
    var L, B, R := SubOf(sub, l), SubOf(sub, b), SubOf(sub, rho);
    Regroup(x, y, L, B, R);
    assert SubOf(r.sub, r.nodes[y].left) == {x} + L + B;
    assert SubOf(r.sub, r.nodes[y].right) == R;
  }

  /** After rotateLeft(x), y is ordered over x's new subtree and its own right subtree. */
  lemma LeftLiftedOrder<V>(a: Arena<V>, r: Arena<V>, x: nat)
    requires LeftRotation(a, r, x) && Ordered(a.nodes, a.sub)
    ensures var y := a.nodes[x].right.id;
      y in r.nodes && OrderedAt(r.nodes, r.sub, y)
  {
    LeftRotationDistinct(a, x);
    LeftRotationEntries(a, r, x);
    var sub := a.sub;
    var xn := a.nodes[x];
    var y := xn.right.id;
    var l, b, rho := xn.left, a.nodes[y].left, a.nodes[y].right;
    var kx, ky := xn.key, a.nodes[y].key;
    assert OrderedAt(a.nodes, sub, x);
    assert OrderedAt(a.nodes, sub, y);
    assert y in SubOf(sub, Ref(y)) by { assert NodeLinked(a.nodes, a.root, sub, y); }
    var L, B := SubOf(sub, l), SubOf(sub, b);
    assert kx < ky;
    assert KeysBelow(a.nodes, {x} + L + B, ky);
    assert SubOf(r.sub, r.nodes[y].left) == {x} + L + B;
    assert SubOf(r.sub, r.nodes[y].right) == SubOf(sub, rho);
  }

  /** After rotateLeft(x), b (y's old left child, now x's right child) is well linked. */
  lemma LeftMovedLinks<V>(a: Arena<V>, r: Arena<V>, x: nat)
    requires LeftRotation(a, r, x)
    ensures var b := a.nodes[a.nodes[x].right.id].left;
      b.Ref? ==> (b.id in r.nodes && b.id in r.sub && NodeLinked(r.nodes, r.root, r.sub, b.id))
  {
    LeftRotationDistinct(a, x);
    var y := a.nodes[x].right.id;
    var b := a.nodes[y].left;
    if b.Ref? {
      var m := b.id;
      assert NodeLinked(a.nodes, a.root, a.sub, m);
      var c1, c2 := a.nodes[m].left, a.nodes[m].right;
      LeftRotationFieldsAt(a, r, x, m);
      if c1.Ref? {
        LeftRotationFieldsAt(a, r, x, c1.id);
      }
      if c2.Ref? {
        LeftRotationFieldsAt(a, r, x, c2.id);
      }
      SubtreeAtFrame(a.nodes, a.sub, r.nodes, r.sub, m);
    }
  }

  /** After rotateLeft(x), b is still ordered. */
  lemma LeftMovedOrder<V>(a: Arena<V>, r: Arena<V>, x: nat)
    requires LeftRotation(a, r, x) && Ordered(a.nodes, a.sub)
    ensures var b := a.nodes[a.nodes[x].right.id].left;
      b.Ref? ==> (b.id in r.nodes && OrderedAt(r.nodes, r.sub, b.id))
  {
    LeftRotationDistinct(a, x);
    LeftRotationEntries(a, r, x);
    var y := a.nodes[x].right.id;
    var b := a.nodes[y].left;
    if b.Ref? {
      var m := b.id;
      assert NodeLinked(a.nodes, a.root, a.sub, m) && OrderedAt(a.nodes, a.sub, m);
      var c1, c2 := a.nodes[m].left, a.nodes[m].right;
      LeftRotationFieldsAt(a, r, x, m);
      if c1.Ref? {
        LeftRotationFieldsAt(a, r, x, c1.id);
      }
      if c2.Ref? {
        LeftRotationFieldsAt(a, r, x, c2.id);
      }
      OrderedAtFrame(a.nodes, a.sub, r.nodes, r.sub, m);
    }
  }

  /** After rotateLeft(x), x's old parent g, now y's parent, is well linked. */
  lemma LeftGrandparentLinks<V>(a: Arena<V>, r: Arena<V>, x: nat)
    requires LeftRotation(a, r, x)
    ensures var g := a.nodes[x].parent;
      g.Ref? ==> (g.id in r.nodes && g.id in r.sub && NodeLinked(r.nodes, r.root, r.sub, g.id))
  {
    LeftRotationDistinct(a, x);
    var y := a.nodes[x].right.id;
    var g := a.nodes[x].parent;
    if g.Ref? {
      var m := g.id;
      assert NodeLinked(a.nodes, a.root, a.sub, m);
      var c1, c2 := a.nodes[m].left, a.nodes[m].right;
      var p := a.nodes[m].parent;
      LeftRotationFieldsAt(a, r, x, m);
      if c1.Ref? {
        LeftRotationFieldsAt(a, r, x, c1.id);
      }
      if c2.Ref? {
        LeftRotationFieldsAt(a, r, x, c2.id);
      }
      if p.Ref? {
        LeftRotationFieldsAt(a, r, x, p.id);
      }
      SubtreeAtFrame(a.nodes, a.sub, r.nodes, r.sub, m);
    }
  }

  /** After rotateLeft(x), g is still ordered. */
  lemma LeftGrandparentOrder<V>(a: Arena<V>, r: Arena<V>, x: nat)
    requires LeftRotation(a, r, x) && Ordered(a.nodes, a.sub)
    ensures var g := a.nodes[x].parent;
      g.Ref? ==> (g.id in r.nodes && OrderedAt(r.nodes, r.sub, g.id))
  {
    LeftRotationDistinct(a, x);
    LeftRotationEntries(a, r, x);
    var y := a.nodes[x].right.id;
    var g := a.nodes[x].parent;
    if g.Ref? {
      var m := g.id;
      assert NodeLinked(a.nodes, a.root, a.sub, m) && OrderedAt(a.nodes, a.sub, m);
      var c1, c2 := a.nodes[m].left, a.nodes[m].right;
      LeftRotationFieldsAt(a, r, x, m);
      if c1.Ref? {
        LeftRotationFieldsAt(a, r, x, c1.id);
      }
      if c2.Ref? {
        LeftRotationFieldsAt(a, r, x, c2.id);
      }
      OrderedAtFrame(a.nodes, a.sub, r.nodes, r.sub, m);
    }
  }

  /** Which fields of node m a left rotation leaves alone. */
  lemma LeftRotationFieldsAt<V>(a: Arena<V>, r: Arena<V>, x: nat, m: nat)
    requires LeftRotation(a, r, x) && m in a.nodes
    ensures var y := a.nodes[x].right.id; var b := a.nodes[y].left; var g := a.nodes[x].parent;
      && m in r.nodes
      && (m != x && m != y && b != Ref(m) ==> r.nodes[m].parent == a.nodes[m].parent)
      && (m != x && m != y && g != Ref(m) ==> r.nodes[m].left == a.nodes[m].left && r.nodes[m].right == a.nodes[m].right)
      && (m != x && m != y ==> m in r.sub && r.sub[m] == a.sub[m])
  {
    LeftRotationDistinct(a, x);
    var y := a.nodes[x].right.id;
    if m != x && m != y && a.nodes[y].left != Ref(m) && a.nodes[x].parent != Ref(m) {
      assert Kept(a.nodes, r.nodes, m);
    }
  }

  /** After rotateLeft(x), a node the rotation does not touch is still well linked. */
  lemma LeftUntouchedLinks<V>(a: Arena<V>, r: Arena<V>, x: nat, m: nat)
    requires LeftRotation(a, r, x) && m in a.nodes && m != x && m != a.nodes[x].right.id
    requires a.nodes[a.nodes[x].right.id].left != Ref(m) && a.nodes[x].parent != Ref(m)
    ensures m in r.nodes && m in r.sub && NodeLinked(r.nodes, r.root, r.sub, m)
  {
    LeftUntouchedParent(a, r, x, m);
    LeftUntouchedChildren(a, r, x, m);
  }

  /** After rotateLeft(x), an untouched node is still a child of its parent (or the root). */
  lemma LeftUntouchedParent<V>(a: Arena<V>, r: Arena<V>, x: nat, m: nat)
    requires LeftRotation(a, r, x) && m in a.nodes && m != x && m != a.nodes[x].right.id
    requires a.nodes[a.nodes[x].right.id].left != Ref(m) && a.nodes[x].parent != Ref(m)
    ensures m in r.nodes && ParentLinked(r.nodes, r.root, m)
  {
    LeftRotationDistinct(a, x);
    assert NodeLinked(a.nodes, a.root, a.sub, m);
    LeftRotationFieldsAt(a, r, x, m);
    var p := a.nodes[m].parent;
    if p.Ref? {
      LeftRotationFieldsAt(a, r, x, p.id);
    }
  }

  /** After rotateLeft(x), an untouched node's children and subtree set are unchanged. */
  lemma LeftUntouchedChildren<V>(a: Arena<V>, r: Arena<V>, x: nat, m: nat)
    requires LeftRotation(a, r, x) && m in a.nodes && m != x && m != a.nodes[x].right.id
    requires a.nodes[a.nodes[x].right.id].left != Ref(m) && a.nodes[x].parent != Ref(m)
    ensures m in r.nodes && m in r.sub && SubtreeAt(r.nodes, r.sub, m)
    ensures ChildLinked(r.nodes, r.nodes[m].left, m) && ChildLinked(r.nodes, r.nodes[m].right, m)
  {
    LeftRotationDistinct(a, x);
    assert NodeLinked(a.nodes, a.root, a.sub, m);
    LeftRotationFieldsAt(a, r, x, m);
    var c1, c2 := a.nodes[m].left, a.nodes[m].right;
    if c1.Ref? {
      LeftRotationFieldsAt(a, r, x, c1.id);
    }
    if c2.Ref? {
      LeftRotationFieldsAt(a, r, x, c2.id);
    }
    SubtreeAtFrame(a.nodes, a.sub, r.nodes, r.sub, m);
  }

  /** After rotateLeft(x), a node the rotation does not touch is still ordered. */
  lemma LeftUntouchedOrder<V>(a: Arena<V>, r: Arena<V>, x: nat, m: nat)
    requires LeftRotation(a, r, x) && Ordered(a.nodes, a.sub) && m in a.nodes && m != x
    requires m != a.nodes[x].right.id && a.nodes[x].parent != Ref(m)
    ensures m in r.nodes && OrderedAt(r.nodes, r.sub, m)
  {
    LeftRotationDistinct(a, x);
    LeftRotationEntries(a, r, x);
    var y := a.nodes[x].right.id;
    assert NodeLinked(a.nodes, a.root, a.sub, m) && OrderedAt(a.nodes, a.sub, m);
    var c1, c2 := a.nodes[m].left, a.nodes[m].right;
    LeftRotationFieldsAt(a, r, x, m);
    if c1.Ref? {
      LeftRotationFieldsAt(a, r, x, c1.id);
    }
    if c2.Ref? {
      LeftRotationFieldsAt(a, r, x, c2.id);
    }
    OrderedAtFrame(a.nodes, a.sub, r.nodes, r.sub, m);
  }

  /** After rotateLeft(x), the root pointer and the subtree-set domain are consistent. */
  lemma LeftRotationRoot<V>(a: Arena<V>, r: Arena<V>, x: nat)
    requires LeftRotation(a, r, x)
    ensures r.sub.Keys == r.nodes.Keys
    ensures r.root.Null? ==> r.nodes == map[]
    ensures r.root.Ref? ==> r.root.id in r.nodes && r.nodes[r.root.id].parent.Null?
                            && r.root.id in r.sub && r.sub[r.root.id] == r.nodes.Keys
  {
    LeftRotationDistinct(a, x);
    var y := a.nodes[x].right.id;
    if a.nodes[x].parent.Ref? {
      var t := a.root.id;
      assert NodeLinked(a.nodes, a.root, a.sub, t);
      LeftRotationFieldsAt(a, r, x, t);
    }
  }

  /**
   * A left rotation keeps the tree well formed and ordered, and keeps every
   * key with its value: the map the tree stands for is unchanged.
   */
  lemma RotateLeftValid<V>(a: Arena<V>, r: Arena<V>, idOf: map<int, nat>, x: nat)
    requires Valid(a, idOf) && x in a.nodes && a.nodes[x].right.Ref?
    requires a.nodes[x].right.id in a.nodes && RotatedLeft(a, r, x)
    ensures Valid(r, idOf)
    ensures SameEntries(a.nodes, r.nodes) && Contents(r.nodes, idOf) == Contents(a.nodes, idOf)
  {
    var y := a.nodes[x].right.id;
    var b, g := a.nodes[y].left, a.nodes[x].parent;
    LeftRotationRoot(a, r, x);
    LeftRotationEntries(a, r, x);
    SameEntriesContents(a.nodes, r.nodes, idOf);
    LeftLoweredLinks(a, r, x);
    LeftLoweredSubtree(a, r, x);
    LeftLoweredOrder(a, r, x);
    LeftLiftedLinks(a, r, x);
    LeftLiftedSubtree(a, r, x);
    LeftLiftedOrder(a, r, x);
    LeftMovedLinks(a, r, x);
    LeftMovedOrder(a, r, x);
    LeftGrandparentLinks(a, r, x);
    LeftGrandparentOrder(a, r, x);
    forall m | m in r.nodes
      ensures m in r.sub && NodeLinked(r.nodes, r.root, r.sub, m) && OrderedAt(r.nodes, r.sub, m)
    {
      if m != x && m != y && b != Ref(m) && g != Ref(m) {
        LeftUntouchedLinks(a, r, x, m);
        LeftUntouchedOrder(a, r, x, m);
      }
    }
  }

  /** The nodes a right rotation at y touches are pairwise distinct. */
  lemma RightRotationDistinct<V>(a: Arena<V>, y: nat)
    requires Linked(a) && y in a.nodes && a.nodes[y].left.Ref?
    ensures var yn := a.nodes[y]; var x := yn.left.id;
      && x in a.nodes && x != y
      && var xn := a.nodes[x];
      && var l, b, rho, g := yn.right, xn.right, xn.left, yn.parent;
      && (b.Ref? ==> b.id in a.nodes && b.id != y && b.id != x)
      && (g.Ref? ==> g.id in a.nodes && g.id != y && g.id != x && g != b)
      && (l.Ref? ==> l.id in a.nodes && l.id != y && l.id != x && l != b && l != g)
      && (rho.Ref? ==> rho.id in a.nodes && rho.id != y && rho.id != x && rho != b && rho != g)
      && xn.parent == Ref(y)
      && (b.Ref? ==> a.nodes[b.id].parent == Ref(x))
      && (l.Ref? ==> a.nodes[l.id].parent == Ref(y))
      && (rho.Ref? ==> a.nodes[rho.id].parent == Ref(x))
      && (g.Ref? ==> a.nodes[g.id].right == Ref(y) || a.nodes[g.id].left == Ref(y))
      && (g.Null? ==> a.root == Ref(y))
      && (g.Ref? ==> (a.nodes[g.id].right == Ref(y)) != (a.nodes[g.id].left == Ref(y)))
      && (g.Ref? ==> var pg := a.nodes[g.id].parent; pg != Ref(y) && pg != Ref(x) && pg != g)
  {
    assert NodeLinked(a.nodes, a.root, a.sub, y);
    var yn := a.nodes[y];
    var x := yn.left.id;
    assert NodeLinked(a.nodes, a.root, a.sub, x);
    var xn := a.nodes[x];
    var l, b, rho, g := yn.right, xn.right, xn.left, yn.parent;
    if b.Ref? {
      assert NodeLinked(a.nodes, a.root, a.sub, b.id);
    }
    if g.Ref? {
      assert NodeLinked(a.nodes, a.root, a.sub, g.id);
    }
    if l.Ref? {
      assert NodeLinked(a.nodes, a.root, a.sub, l.id);
    }
    if rho.Ref? {
      assert NodeLinked(a.nodes, a.root, a.sub, rho.id);
    }
  }


  /** The setting of a right rotation at y: a linked tree where y has a left child. */
  ghost predicate RightRotation<V>(a: Arena<V>, r: Arena<V>, y: nat)
  {
    && Linked(a) && y in a.nodes && a.nodes[y].left.Ref? && a.nodes[y].left.id in a.nodes
    && RotatedRight(a, r, y)
  }

  /** After rotateRight(y), y's pointers agree with its children's and its new parent x's. */
  lemma RightLoweredLinks<V>(a: Arena<V>, r: Arena<V>, y: nat)
    requires RightRotation(a, r, y)
    ensures y in r.nodes && y in r.sub
    ensures ChildLinked(r.nodes, r.nodes[y].right, y) && ChildLinked(r.nodes, r.nodes[y].left, y)
    ensures ParentLinked(r.nodes, r.root, y)
  {
    RightRotationDistinct(a, y);
    var l := a.nodes[y].right;
    if l.Ref? {
      RightRotationFieldsAt(a, r, y, l.id);
    }
  }

  /** After rotateRight(y), y's subtree is y, b's subtree and its old right subtree. */
  lemma RightLoweredSubtree<V>(a: Arena<V>, r: Arena<V>, y: nat)
    requires RightRotation(a, r, y)
    ensures y in r.nodes && y in r.sub && SubtreeAt(r.nodes, r.sub, y)
  {
    RightRotationDistinct(a, y);
    var sub := a.sub;
    var yn := a.nodes[y];
    var x := yn.left.id;
    var l, b := yn.right, a.nodes[x].right;
    assert NodeLinked(a.nodes, a.root, sub, y);
    assert NodeLinked(a.nodes, a.root, sub, x);
    var L, R := SubOf(sub, l), SubOf(sub, b);
    assert SubOf(r.sub, r.nodes[y].right) == L;
    assert SubOf(r.sub, r.nodes[y].left) == R;
    assert R <= sub[x];
    assert y !in L && y !in R;
    assert L !! R;
  }

  /** Keys and values stay with their nodes in a right rotation. */
  lemma RightRotationEntries<V>(a: Arena<V>, r: Arena<V>, y: nat)
    requires RightRotation(a, r, y)
    ensures SameEntries(a.nodes, r.nodes)
  {
    RightRotationDistinct(a, y);
    var x := a.nodes[y].left.id;
    forall m | m in a.nodes
      ensures r.nodes[m].key == a.nodes[m].key && r.nodes[m].value == a.nodes[m].value
    {
      if m != y && m != x && a.nodes[x].right != Ref(m) && a.nodes[y].parent != Ref(m) {
        assert Kept(a.nodes, r.nodes, m);
      }
    }
  }

  /** After rotateRight(y), y is ordered over b's subtree and its old right subtree. */
  lemma RightLoweredOrder<V>(a: Arena<V>, r: Arena<V>, y: nat)
    requires RightRotation(a, r, y) && Ordered(a.nodes, a.sub)
    ensures y in r.nodes && OrderedAt(r.nodes, r.sub, y)
  {
    RightRotationDistinct(a, y);
    RightRotationEntries(a, r, y);
    var sub := a.sub;
    var yn := a.nodes[y];
    var x := yn.left.id;
    var l, b := yn.right, a.nodes[x].right;
    assert NodeLinked(a.nodes, a.root, sub, y) && OrderedAt(a.nodes, sub, y);
    assert NodeLinked(a.nodes, a.root, sub, x);
    assert SubOf(r.sub, r.nodes[y].right) == SubOf(sub, l);
    assert SubOf(r.sub, r.nodes[y].left) == SubOf(sub, b) <= sub[x];
  }

  /** After rotateRight(y), x's pointers agree with y's, its left child's and g's. */
  lemma RightLiftedLinks<V>(a: Arena<V>, r: Arena<V>, y: nat)
    requires RightRotation(a, r, y)
    ensures var x := a.nodes[y].left.id;
      && x in r.nodes && x in r.sub
      && ChildLinked(r.nodes, r.nodes[x].right, x) && ChildLinked(r.nodes, r.nodes[x].left, x)
      && ParentLinked(r.nodes, r.root, x)
  {
    RightRotationDistinct(a, y);
    var x := a.nodes[y].left.id;
    var rho := a.nodes[x].left;
    if rho.Ref? {
      RightRotationFieldsAt(a, r, y, rho.id);
    }
  }

  /** After rotateRight(y), x's subtree is y's old subtree. */
  lemma RightLiftedSubtree<V>(a: Arena<V>, r: Arena<V>, y: nat)
    requires RightRotation(a, r, y)
    ensures var x := a.nodes[y].left.id;
      x in r.nodes && x in r.sub && SubtreeAt(r.nodes, r.sub, x)
  {
    RightRotationDistinct(a, y);
    var sub := a.sub;
    var yn := a.nodes[y];
    var x := yn.left.id;
    var l, b, rho := yn.right, a.nodes[x].right, a.nodes[x].left;
    assert NodeLinked(a.nodes, a.root, sub, y);
    assert NodeLinked(a.nodes, a.root, sub, x);
    var L, B, R := SubOf(sub, l), SubOf(sub, b), SubOf(sub, rho);
    Regroup(y, x, L, B, R);
    assert SubOf(r.sub, r.nodes[x].right) == {y} + L + B;
    assert SubOf(r.sub, r.nodes[x].left) == R;
  }

  /** After rotateRight(y), x is ordered over its own left subtree and y's new subtree. */
  lemma RightLiftedOrder<V>(a: Arena<V>, r: Arena<V>, y: nat)
    requires RightRotation(a, r, y) && Ordered(a.nodes, a.sub)
    ensures var x := a.nodes[y].left.id;
      x in r.nodes && OrderedAt(r.nodes, r.sub, x)
  {
    RightRotationDistinct(a, y);
    RightRotationEntries(a, r, y);
    var sub := a.sub;
    var yn := a.nodes[y];
    var x := yn.left.id;
    var l, b, rho := yn.right, a.nodes[x].right, a.nodes[x].left;
    var ky, kx := yn.key, a.nodes[x].key;
    assert OrderedAt(a.nodes, sub, y);
    assert OrderedAt(a.nodes, sub, x);
    assert x in SubOf(sub, Ref(x)) by { assert NodeLinked(a.nodes, a.root, sub, x); }
    var L, B := SubOf(sub, l), SubOf(sub, b);
    assert kx < ky;
    assert KeysAbove(a.nodes, {y} + L + B, kx);
    assert SubOf(r.sub, r.nodes[x].right) == {y} + L + B;
    assert SubOf(r.sub, r.nodes[x].left) == SubOf(sub, rho);
  }

  /** After rotateRight(y), b (x's old right child, now y's left child) is well linked. */
  lemma RightMovedLinks<V>(a: Arena<V>, r: Arena<V>, y: nat)
    requires RightRotation(a, r, y)
    ensures var b := a.nodes[a.nodes[y].left.id].right;
      b.Ref? ==> (b.id in r.nodes && b.id in r.sub && NodeLinked(r.nodes, r.root, r.sub, b.id))
  {
    RightRotationDistinct(a, y);
    var x := a.nodes[y].left.id;
    var b := a.nodes[x].right;
    if b.Ref? {
      var m := b.id;
      assert NodeLinked(a.nodes, a.root, a.sub, m);
      var c1, c2 := a.nodes[m].right, a.nodes[m].left;
      RightRotationFieldsAt(a, r, y, m);
      if c1.Ref? {
        RightRotationFieldsAt(a, r, y, c1.id);
      }
      if c2.Ref? {
        RightRotationFieldsAt(a, r, y, c2.id);
      }
      SubtreeAtFrame(a.nodes, a.sub, r.nodes, r.sub, m);
    }
  }

  /** After rotateRight(y), b is still ordered. */
  lemma RightMovedOrder<V>(a: Arena<V>, r: Arena<V>, y: nat)
    requires RightRotation(a, r, y) && Ordered(a.nodes, a.sub)
    ensures var b := a.nodes[a.nodes[y].left.id].right;
      b.Ref? ==> (b.id in r.nodes && OrderedAt(r.nodes, r.sub, b.id))
  {
    RightRotationDistinct(a, y);
    RightRotationEntries(a, r, y);
    var x := a.nodes[y].left.id;
    var b := a.nodes[x].right;
    if b.Ref? {
      var m := b.id;
      assert NodeLinked(a.nodes, a.root, a.sub, m) && OrderedAt(a.nodes, a.sub, m);
      var c1, c2 := a.nodes[m].right, a.nodes[m].left;
      RightRotationFieldsAt(a, r, y, m);
      if c1.Ref? {
        RightRotationFieldsAt(a, r, y, c1.id);
      }
      if c2.Ref? {
        RightRotationFieldsAt(a, r, y, c2.id);
      }
      OrderedAtFrame(a.nodes, a.sub, r.nodes, r.sub, m);
    }
  }

  /** After rotateRight(y), y's old parent g, now x's parent, is well linked. */
  lemma RightGrandparentLinks<V>(a: Arena<V>, r: Arena<V>, y: nat)
    requires RightRotation(a, r, y)
    ensures var g := a.nodes[y].parent;
      g.Ref? ==> (g.id in r.nodes && g.id in r.sub && NodeLinked(r.nodes, r.root, r.sub, g.id))
  {
    RightRotationDistinct(a, y);
    var x := a.nodes[y].left.id;
    var g := a.nodes[y].parent;
    if g.Ref? {
      var m := g.id;
      assert NodeLinked(a.nodes, a.root, a.sub, m);
      var c1, c2 := a.nodes[m].right, a.nodes[m].left;
      var p := a.nodes[m].parent;
      RightRotationFieldsAt(a, r, y, m);
      if c1.Ref? {
        RightRotationFieldsAt(a, r, y, c1.id);
      }
      if c2.Ref? {
        RightRotationFieldsAt(a, r, y, c2.id);
      }
      if p.Ref? {
        RightRotationFieldsAt(a, r, y, p.id);
      }
      SubtreeAtFrame(a.nodes, a.sub, r.nodes, r.sub, m);
    }
  }

  /** After rotateRight(y), g is still ordered. */
  lemma RightGrandparentOrder<V>(a: Arena<V>, r: Arena<V>, y: nat)
    requires RightRotation(a, r, y) && Ordered(a.nodes, a.sub)
    ensures var g := a.nodes[y].parent;
      g.Ref? ==> (g.id in r.nodes && OrderedAt(r.nodes, r.sub, g.id))
  {
    RightRotationDistinct(a, y);
    RightRotationEntries(a, r, y);
    var x := a.nodes[y].left.id;
    var g := a.nodes[y].parent;
    if g.Ref? {
      var m := g.id;
      assert NodeLinked(a.nodes, a.root, a.sub, m) && OrderedAt(a.nodes, a.sub, m);
      var c1, c2 := a.nodes[m].right, a.nodes[m].left;
      RightRotationFieldsAt(a, r, y, m);
      if c1.Ref? {
        RightRotationFieldsAt(a, r, y, c1.id);
      }
      if c2.Ref? {
        RightRotationFieldsAt(a, r, y, c2.id);
      }
      OrderedAtFrame(a.nodes, a.sub, r.nodes, r.sub, m);
    }
  }

  /** Which fields of node m a right rotation leaves alone. */
  lemma RightRotationFieldsAt<V>(a: Arena<V>, r: Arena<V>, y: nat, m: nat)
    requires RightRotation(a, r, y) && m in a.nodes
    ensures var x := a.nodes[y].left.id; var b := a.nodes[x].right; var g := a.nodes[y].parent;
      && m in r.nodes
      && (m != y && m != x && b != Ref(m) ==> r.nodes[m].parent == a.nodes[m].parent)
      && (m != y && m != x && g != Ref(m) ==> r.nodes[m].right == a.nodes[m].right && r.nodes[m].left == a.nodes[m].left)
      && (m != y && m != x ==> m in r.sub && r.sub[m] == a.sub[m])
  {
    RightRotationDistinct(a, y);
    var x := a.nodes[y].left.id;
    if m != y && m != x && a.nodes[x].right != Ref(m) && a.nodes[y].parent != Ref(m) {
      assert Kept(a.nodes, r.nodes, m);
    }
  }

  /** After rotateRight(y), a node the rotation does not touch is still well linked. */
  lemma RightUntouchedLinks<V>(a: Arena<V>, r: Arena<V>, y: nat, m: nat)
    requires RightRotation(a, r, y) && m in a.nodes && m != y && m != a.nodes[y].left.id
    requires a.nodes[a.nodes[y].left.id].right != Ref(m) && a.nodes[y].parent != Ref(m)
    ensures m in r.nodes && m in r.sub && NodeLinked(r.nodes, r.root, r.sub, m)
  {
    RightUntouchedParent(a, r, y, m);
    RightUntouchedChildren(a, r, y, m);
  }

  /** After rotateRight(y), an untouched node is still a child of its parent (or the root). */
  lemma RightUntouchedParent<V>(a: Arena<V>, r: Arena<V>, y: nat, m: nat)
    requires RightRotation(a, r, y) && m in a.nodes && m != y && m != a.nodes[y].left.id
    requires a.nodes[a.nodes[y].left.id].right != Ref(m) && a.nodes[y].parent != Ref(m)
    ensures m in r.nodes && ParentLinked(r.nodes, r.root, m)
  {
    RightRotationDistinct(a, y);
    assert NodeLinked(a.nodes, a.root, a.sub, m);
    RightRotationFieldsAt(a, r, y, m);
    var p := a.nodes[m].parent;
    if p.Ref? {
      RightRotationFieldsAt(a, r, y, p.id);
    }
  }

  /** After rotateRight(y), an untouched node's children and subtree set are unchanged. */
  lemma RightUntouchedChildren<V>(a: Arena<V>, r: Arena<V>, y: nat, m: nat)
    requires RightRotation(a, r, y) && m in a.nodes && m != y && m != a.nodes[y].left.id
    requires a.nodes[a.nodes[y].left.id].right != Ref(m) && a.nodes[y].parent != Ref(m)
    ensures m in r.nodes && m in r.sub && SubtreeAt(r.nodes, r.sub, m)
    ensures ChildLinked(r.nodes, r.nodes[m].right, m) && ChildLinked(r.nodes, r.nodes[m].left, m)
  {
    RightRotationDistinct(a, y);
    assert NodeLinked(a.nodes, a.root, a.sub, m);
    RightRotationFieldsAt(a, r, y, m);
    var c1, c2 := a.nodes[m].right, a.nodes[m].left;
    if c1.Ref? {
      RightRotationFieldsAt(a, r, y, c1.id);
    }
    if c2.Ref? {
      RightRotationFieldsAt(a, r, y, c2.id);
    }
    SubtreeAtFrame(a.nodes, a.sub, r.nodes, r.sub, m);
  }

  /** After rotateRight(y), a node the rotation does not touch is still ordered. */
  lemma RightUntouchedOrder<V>(a: Arena<V>, r: Arena<V>, y: nat, m: nat)
    requires RightRotation(a, r, y) && Ordered(a.nodes, a.sub) && m in a.nodes && m != y
    requires m != a.nodes[y].left.id && a.nodes[y].parent != Ref(m)
    ensures m in r.nodes && OrderedAt(r.nodes, r.sub, m)
  {
    RightRotationDistinct(a, y);
    RightRotationEntries(a, r, y);
    var x := a.nodes[y].left.id;
    assert NodeLinked(a.nodes, a.root, a.sub, m) && OrderedAt(a.nodes, a.sub, m);
    var c1, c2 := a.nodes[m].right, a.nodes[m].left;
    RightRotationFieldsAt(a, r, y, m);
    if c1.Ref? {
      RightRotationFieldsAt(a, r, y, c1.id);
    }
    if c2.Ref? {
      RightRotationFieldsAt(a, r, y, c2.id);
    }
    OrderedAtFrame(a.nodes, a.sub, r.nodes, r.sub, m);
  }

  /** After rotateRight(y), the root pointer and the subtree-set domain are consistent. */
  lemma RightRotationRoot<V>(a: Arena<V>, r: Arena<V>, y: nat)
    requires RightRotation(a, r, y)
    ensures r.sub.Keys == r.nodes.Keys
    ensures r.root.Null? ==> r.nodes == map[]
    ensures r.root.Ref? ==> r.root.id in r.nodes && r.nodes[r.root.id].parent.Null?
                            && r.root.id in r.sub && r.sub[r.root.id] == r.nodes.Keys
  {
    RightRotationDistinct(a, y);
    var x := a.nodes[y].left.id;
    if a.nodes[y].parent.Ref? {
      var t := a.root.id;
      assert NodeLinked(a.nodes, a.root, a.sub, t);
      RightRotationFieldsAt(a, r, y, t);
    }
  }

  /**
   * A right rotation keeps the tree well formed and ordered, and keeps every
   * key with its value: the map the tree stands for is unchanged.
   */
  lemma RotateRightValid<V>(a: Arena<V>, r: Arena<V>, idOf: map<int, nat>, y: nat)
    requires Valid(a, idOf) && y in a.nodes && a.nodes[y].left.Ref?
    requires a.nodes[y].left.id in a.nodes && RotatedRight(a, r, y)
    ensures Valid(r, idOf)
    ensures SameEntries(a.nodes, r.nodes) && Contents(r.nodes, idOf) == Contents(a.nodes, idOf)
  {
    var x := a.nodes[y].left.id;
    var b, g := a.nodes[x].right, a.nodes[y].parent;
    RightRotationRoot(a, r, y);
    RightRotationEntries(a, r, y);
    SameEntriesContents(a.nodes, r.nodes, idOf);
    RightLoweredLinks(a, r, y);
    RightLoweredSubtree(a, r, y);
    RightLoweredOrder(a, r, y);
    RightLiftedLinks(a, r, y);
    RightLiftedSubtree(a, r, y);
    RightLiftedOrder(a, r, y);
    RightMovedLinks(a, r, y);
    RightMovedOrder(a, r, y);
    RightGrandparentLinks(a, r, y);
    RightGrandparentOrder(a, r, y);
    forall m | m in r.nodes
      ensures m in r.sub && NodeLinked(r.nodes, r.root, r.sub, m) && OrderedAt(r.nodes, r.sub, m)
    {
      if m != y && m != x && b != Ref(m) && g != Ref(m) {
        RightUntouchedLinks(a, r, y, m);
        RightUntouchedOrder(a, r, y, m);
      }
    }
  }
}
