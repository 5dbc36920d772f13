/**
 * The arena-level effect of `remove`: the positional `nodeSwap` of a node
 * with two children and its in-order predecessor, then the splice that
 * unlinks a node with at most one child and deletes it.
 */
module AvlRemoval {
  import opened AvlArena

  /** The transposition of the ids i and j. */
  function Swap(i: nat, j: nat, z: nat): nat
  {
    if z == i then j else if z == j then i else z
  }

  function SwapPtr(i: nat, j: nat, q: Ptr): Ptr
  {
    if q.Ref? then Ref(Swap(i, j, q.id)) else Null
  }

  /** The image of an id set under the transposition. */
  ghost function SwapSet(i: nat, j: nat, s: set<nat>): set<nat>
  {
    set z | z in s :: Swap(i, j, z)
  }

  lemma SwapSetMember(i: nat, j: nat, s: set<nat>, z: nat)
    ensures z in SwapSet(i, j, s) <==> Swap(i, j, z) in s
  {
    if Swap(i, j, z) in s {
      assert Swap(i, j, Swap(i, j, z)) == z;
    }
  }

  /** The transposition distributes over a subtree decomposition and keeps its disjointness. */
  lemma SwapSetSubtree(i: nat, j: nat, n: nat, l: set<nat>, r: set<nat>, keys: set<nat>)
    requires i in keys && j in keys
    ensures SwapSet(i, j, {n} + l + r) == {Swap(i, j, n)} + SwapSet(i, j, l) + SwapSet(i, j, r)
    ensures n !in l ==> Swap(i, j, n) !in SwapSet(i, j, l)
    ensures l !! r ==> SwapSet(i, j, l) !! SwapSet(i, j, r)
    ensures {n} + l + r <= keys ==> SwapSet(i, j, {n} + l + r) <= keys
  {
    SwapSetUnion(i, j, n, l, r);
    SwapSetMember(i, j, l, Swap(i, j, n));
    SwapSetDisjoint(i, j, l, r);
    SwapSetWithin(i, j, {n} + l + r, keys);
  }

  lemma SwapSetUnion(i: nat, j: nat, n: nat, l: set<nat>, r: set<nat>)
    ensures SwapSet(i, j, {n} + l + r) == {Swap(i, j, n)} + SwapSet(i, j, l) + SwapSet(i, j, r)
  {
    forall z
      ensures z in SwapSet(i, j, {n} + l + r) <==> z in {Swap(i, j, n)} + SwapSet(i, j, l) + SwapSet(i, j, r)
    {
      SwapSetMember(i, j, {n} + l + r, z);
      SwapSetMember(i, j, l, z);
      SwapSetMember(i, j, r, z);
    }
  }

  lemma SwapSetDisjoint(i: nat, j: nat, l: set<nat>, r: set<nat>)
    ensures l !! r ==> SwapSet(i, j, l) !! SwapSet(i, j, r)
  {
    forall z | z in SwapSet(i, j, l)
      ensures z !in SwapSet(i, j, r) || !(l !! r)
    {
      SwapSetMember(i, j, l, z);
      SwapSetMember(i, j, r, z);
    }
  }

  lemma SwapSetWithin(i: nat, j: nat, s: set<nat>, keys: set<nat>)
    requires i in keys && j in keys
    ensures s <= keys ==> SwapSet(i, j, s) <= keys
  {
    forall z | z in SwapSet(i, j, s)
      ensures z in keys || !(s <= keys)
    {
      SwapSetMember(i, j, s, z);
    }
  }

  /**
   * The record node m holds once nodes i and j have exchanged positions:
   * its own key and value, and the links of the node `pos` whose position it
   * takes, with i and j exchanged in them.
   */
  function Relocated<V>(own: Node<V>, pos: Node<V>, i: nat, j: nat, balance: int): Node<V>
  {
    Node(own.key, own.value, SwapPtr(i, j, pos.left), SwapPtr(i, j, pos.right), SwapPtr(i, j, pos.parent), balance)
  }

  /**
   * After the exchange, node m has taken the position of Swap(i, j, m) and
   * its subtree set is the image of that position's old one. The balance
   * stays with the node (`withPosition` false) or goes with the position
   * (`withPosition` true).
   */
  ghost predicate MovedTo<V>(a: Arena<V>, r: Arena<V>, i: nat, j: nat, withPosition: bool, m: nat)
    requires m in a.nodes
  {
    var n := Swap(i, j, m);
    && n in a.nodes && n in a.sub && m in r.nodes && m in r.sub
    && r.nodes[m] == Relocated(a.nodes[m], a.nodes[n], i, j,
                               if withPosition then a.nodes[n].balance else a.nodes[m].balance)
    && r.sub[m] == SwapSet(i, j, a.sub[n])
  }

  /** `r` is the state once nodes i and j have exchanged their positions in the tree. */
  ghost predicate PositionsSwapped<V>(a: Arena<V>, r: Arena<V>, i: nat, j: nat, withPosition: bool)
  {
    && i in a.nodes && j in a.nodes
    && r.nodes.Keys == a.nodes.Keys && r.sub.Keys == a.sub.Keys
    && r.root == SwapPtr(i, j, a.root)
    && forall m {:trigger MovedTo(a, r, i, j, withPosition, m)} | m in a.nodes :: MovedTo(a, r, i, j, withPosition, m)
  }

  /** Node m's child pointers after the exchange agree with its children's parent pointers. */
  lemma SwapChildLinks<V>(a: Arena<V>, r: Arena<V>, i: nat, j: nat, w: bool, m: nat)
    requires Linked(a) && PositionsSwapped(a, r, i, j, w) && m in a.nodes
    ensures m in r.nodes
    ensures ChildLinked(r.nodes, r.nodes[m].left, m) && ChildLinked(r.nodes, r.nodes[m].right, m)
  {
    var n := Swap(i, j, m);
    assert MovedTo(a, r, i, j, w, m);
    assert NodeLinked(a.nodes, a.root, a.sub, n);
    var l, rt := a.nodes[n].left, a.nodes[n].right;
    if l.Ref? {
      assert MovedTo(a, r, i, j, w, Swap(i, j, l.id));
    }
    if rt.Ref? {
      assert MovedTo(a, r, i, j, w, Swap(i, j, rt.id));
    }
  }

  /** Node m after the exchange is the root or a child of its parent, as Swap(i, j, m) was. */
  lemma SwapParentLink<V>(a: Arena<V>, r: Arena<V>, i: nat, j: nat, w: bool, m: nat)
    requires Linked(a) && PositionsSwapped(a, r, i, j, w) && m in a.nodes
    ensures m in r.nodes && ParentLinked(r.nodes, r.root, m)
  {
    var n := Swap(i, j, m);
    assert MovedTo(a, r, i, j, w, m);
    assert NodeLinked(a.nodes, a.root, a.sub, n);
    var p := a.nodes[n].parent;
    if p.Ref? {
      assert MovedTo(a, r, i, j, w, Swap(i, j, p.id));
    }
  }

  /** Node m's children after the exchange hold the images of Swap(i, j, m)'s children's subtree sets. */
  lemma SwapChildSets<V>(a: Arena<V>, r: Arena<V>, i: nat, j: nat, w: bool, m: nat)
    requires Linked(a) && PositionsSwapped(a, r, i, j, w) && m in a.nodes
    ensures m in r.nodes && Swap(i, j, m) in a.nodes
    ensures SubOf(r.sub, r.nodes[m].left) == SwapSet(i, j, SubOf(a.sub, a.nodes[Swap(i, j, m)].left))
    ensures SubOf(r.sub, r.nodes[m].right) == SwapSet(i, j, SubOf(a.sub, a.nodes[Swap(i, j, m)].right))
  {
    var n := Swap(i, j, m);
    assert MovedTo(a, r, i, j, w, m);
    assert NodeLinked(a.nodes, a.root, a.sub, n);
    var l, rt := a.nodes[n].left, a.nodes[n].right;
    if l.Ref? {
      assert MovedTo(a, r, i, j, w, Swap(i, j, l.id));
    }
    if rt.Ref? {
      assert MovedTo(a, r, i, j, w, Swap(i, j, rt.id));
    }
  }

  /** Node m's subtree set after the exchange is the image of Swap(i, j, m)'s. */
  lemma SwapSubtreeAt<V>(a: Arena<V>, r: Arena<V>, i: nat, j: nat, w: bool, m: nat)
    requires Linked(a) && PositionsSwapped(a, r, i, j, w) && m in a.nodes
    ensures m in r.nodes && m in r.sub && SubtreeAt(r.nodes, r.sub, m)
  {
    var n := Swap(i, j, m);
    assert MovedTo(a, r, i, j, w, m);
    assert NodeLinked(a.nodes, a.root, a.sub, n);
    SwapChildSets(a, r, i, j, w, m);
    SwapSetSubtree(i, j, n, SubOf(a.sub, a.nodes[n].left), SubOf(a.sub, a.nodes[n].right), a.nodes.Keys);
  }

  /** The transposition of two ids of a set maps the set onto itself. */
  lemma SwapSetKeys(i: nat, j: nat, keys: set<nat>)
    requires i in keys && j in keys
    ensures SwapSet(i, j, keys) == keys
  {
    forall z
      ensures z in SwapSet(i, j, keys) <==> z in keys
    {
      SwapSetMember(i, j, keys, z);
    }
  }

  /** After the exchange, the root pointer and the subtree-set domain are consistent. */
  lemma SwapRoot<V>(a: Arena<V>, r: Arena<V>, i: nat, j: nat, w: bool)
    requires Linked(a) && PositionsSwapped(a, r, i, j, w)
    ensures r.sub.Keys == r.nodes.Keys && r.root.Ref?
    ensures r.root.id in r.nodes && r.nodes[r.root.id].parent.Null?
    ensures r.root.id in r.sub && r.sub[r.root.id] == r.nodes.Keys
  {
    var t := a.root.id;
    var t' := Swap(i, j, t);
    assert Swap(i, j, t') == t;
    assert MovedTo(a, r, i, j, w, t');
    SwapSetKeys(i, j, a.nodes.Keys);
  }

  /** Exchanging the positions of two nodes keeps the tree well linked. */
  lemma SwapLinked<V>(a: Arena<V>, r: Arena<V>, i: nat, j: nat, w: bool)
    requires Linked(a) && PositionsSwapped(a, r, i, j, w)
    ensures Linked(r)
  {
    SwapRoot(a, r, i, j, w);
    forall m | m in r.nodes
      ensures m in r.sub && NodeLinked(r.nodes, r.root, r.sub, m)
    {
      SwapChildLinks(a, r, i, j, w, m);
      SwapParentLink(a, r, i, j, w, m);
      SwapSubtreeAt(a, r, i, j, w, m);
    }
  }

  /** Keys and values stay with their nodes through the exchange. */
  lemma SwapEntries<V>(a: Arena<V>, r: Arena<V>, i: nat, j: nat, w: bool)
    requires PositionsSwapped(a, r, i, j, w)
    ensures SameEntries(a.nodes, r.nodes)
  {
    forall m | m in a.nodes
      ensures r.nodes[m].key == a.nodes[m].key && r.nodes[m].value == a.nodes[m].value
    {
      assert MovedTo(a, r, i, j, w, m);
    }
  }

  /** The balance exchange of the AVL `nodeSwap`: i takes j's balance, then j takes i's old one. */
  function ExchangeBalances<V>(r: Arena<V>, i: nat, j: nat): Arena<V>
    requires i in r.nodes && j in r.nodes
  {
    var ns := r.nodes[i := r.nodes[i].(balance := r.nodes[j].balance)];
    Arena(ns[j := ns[j].(balance := r.nodes[i].balance)], r.root, r.sub)
  }

  /**
   * The AVL `nodeSwap`: after the base exchange of positions, exchanging
   * the two balances makes each balance go with the position it describes.
   */
  lemma BalancesExchanged<V>(a: Arena<V>, r: Arena<V>, i: nat, j: nat)
    requires PositionsSwapped(a, r, i, j, false)
    ensures PositionsSwapped(a, ExchangeBalances(r, i, j), i, j, true)
  {
    UpdatedKeys(r.nodes, i, j);
    var r' := ExchangeBalances(r, i, j);
    forall m | m in a.nodes
      ensures MovedTo(a, r', i, j, true, m)
    {
      BalanceExchangedAt(a, r, i, j, m);
    }
  }

  lemma UpdatedKeys<V>(nodes: Nodes<V>, i: nat, j: nat)
    requires i in nodes && j in nodes
    ensures var ns := nodes[i := nodes[i].(balance := nodes[j].balance)];
      ns[j := ns[j].(balance := nodes[i].balance)].Keys == nodes.Keys
  {
  }

  lemma BalanceExchangedAt<V>(a: Arena<V>, r: Arena<V>, i: nat, j: nat, m: nat)
    requires PositionsSwapped(a, r, i, j, false) && m in a.nodes
    ensures i in r.nodes && j in r.nodes && MovedTo(a, ExchangeBalances(r, i, j), i, j, true, m)
  {
    assert MovedTo(a, r, i, j, false, m);
    assert MovedTo(a, r, i, j, false, i) && MovedTo(a, r, i, j, false, j);
  }

  /** BST order at `n`, not counting node `d` in either subtree. */
  ghost predicate OrderedAtExcept<V>(nodes: Nodes<V>, sub: Subtrees, n: nat, d: nat)
    requires n in nodes
  {
    && KeysBelow(nodes, SubOf(sub, nodes[n].left) - {d}, nodes[n].key)
    && KeysAbove(nodes, SubOf(sub, nodes[n].right) - {d}, nodes[n].key)
  }

  /** BST order everywhere once node `d`, about to be unlinked, is disregarded. */
  ghost predicate OrderedExcept<V>(nodes: Nodes<V>, sub: Subtrees, d: nat)
  {
    forall n {:trigger OrderedAtExcept(nodes, sub, n, d)} | n in nodes && n != d :: OrderedAtExcept(nodes, sub, n, d)
  }

  lemma OrderedIsOrderedExcept<V>(nodes: Nodes<V>, sub: Subtrees, d: nat)
    requires Ordered(nodes, sub)
    ensures OrderedExcept(nodes, sub, d)
  {
    forall n | n in nodes && n != d
      ensures OrderedAtExcept(nodes, sub, n, d)
    {
      assert OrderedAt(nodes, sub, n);
    }
  }

  /** Every node of `s` outside the subtree of `c` has a key below `c`'s. */
  ghost predicate BelowOutside<V>(a: Arena<V>, s: set<nat>, c: nat)
    requires c in a.nodes && c in a.sub
  {
    KeysBelow(a.nodes, s - a.sub[c], a.nodes[c].key)
  }

  /** One step of the walk to the in-order predecessor: go to the right child. */
  lemma PredecessorStep<V>(a: Arena<V>, idOf: map<int, nat>, s: set<nat>, c: nat)
    requires Valid(a, idOf) && c in a.nodes && c in a.sub && BelowOutside(a, s, c)
    requires a.sub[c] <= s && a.nodes[c].right.Ref?
    ensures a.nodes[c].right.id in a.nodes && a.nodes[c].right.id in a.sub
    ensures a.sub[a.nodes[c].right.id] <= s && |a.sub[a.nodes[c].right.id]| < |a.sub[c]|
    ensures BelowOutside(a, s, a.nodes[c].right.id)
  {
    assert NodeLinked(a.nodes, a.root, a.sub, c);
    assert OrderedAt(a.nodes, a.sub, c);
    var n := a.nodes[c];
    var x := n.right.id;
    assert NodeLinked(a.nodes, a.root, a.sub, x);
    assert x in SubOf(a.sub, n.right);
    assert a.nodes[c].key < a.nodes[x].key;
    forall y | y in s - a.sub[x]
      ensures y in a.nodes && a.nodes[y].key < a.nodes[x].key
    {
      if y in a.sub[c] {
        assert y == c || y in SubOf(a.sub, n.left);
      } else {
        assert y in s - a.sub[c];
      }
    }
  }

  /** Where the walk stops (no right child), it has found the largest key of `s`. */
  lemma PredecessorFound<V>(a: Arena<V>, idOf: map<int, nat>, s: set<nat>, c: nat)
    requires Valid(a, idOf) && c in a.nodes && c in a.sub && BelowOutside(a, s, c)
    requires a.nodes[c].right.Null?
    ensures KeysBelow(a.nodes, s - {c}, a.nodes[c].key)
  {
    assert NodeLinked(a.nodes, a.root, a.sub, c);
    assert OrderedAt(a.nodes, a.sub, c);
  }

  /**
   * The exchange with the predecessor `p` (the largest key in the left
   * subtree of `d`) leaves the tree ordered once `d`, now in `p`'s old
   * position, is disregarded: at node m.
   */
  lemma SwapOrderAt<V>(a: Arena<V>, r: Arena<V>, d: nat, p: nat, w: bool, m: nat)
    requires Linked(a) && Ordered(a.nodes, a.sub) && PositionsSwapped(a, r, d, p, w)
    requires p in SubOf(a.sub, a.nodes[d].left)
    requires KeysBelow(a.nodes, SubOf(a.sub, a.nodes[d].left) - {p}, a.nodes[p].key)
    requires m in a.nodes && m != d
    ensures m in r.nodes && OrderedAtExcept(r.nodes, r.sub, m, d)
  {
    SwapChildSets(a, r, d, p, w, m);
    var n := Swap(d, p, m);
    assert NodeLinked(a.nodes, a.root, a.sub, d);
    assert OrderedAt(a.nodes, a.sub, d);
    assert OrderedAt(a.nodes, a.sub, n);
    var L, R := SubOf(a.sub, a.nodes[n].left), SubOf(a.sub, a.nodes[n].right);
    var k := a.nodes[m].key;
    assert MovedTo(a, r, d, p, w, m);
    forall z | z in SwapSet(d, p, L) - {d}
      ensures z in r.nodes && r.nodes[z].key < k
    {
      SwapSetMember(d, p, L, z);
      assert MovedTo(a, r, d, p, w, z);
      if m != p && z == p {
        assert d in L;
        SubClosed(a, d, a.nodes[m].left.id);
        assert p in a.sub[d];
      }
    }
    forall z | z in SwapSet(d, p, R) - {d}
      ensures z in r.nodes && r.nodes[z].key > k
    {
      SwapSetMember(d, p, R, z);
      assert MovedTo(a, r, d, p, w, z);
      if m != p && z == p {
        assert d in R;
        SubClosed(a, d, a.nodes[m].right.id);
        assert p in a.sub[d];
      }
    }
  }

  lemma SwapOrderedExcept<V>(a: Arena<V>, r: Arena<V>, d: nat, p: nat, w: bool)
    requires Linked(a) && Ordered(a.nodes, a.sub) && PositionsSwapped(a, r, d, p, w)
    requires p in SubOf(a.sub, a.nodes[d].left)
    requires KeysBelow(a.nodes, SubOf(a.sub, a.nodes[d].left) - {p}, a.nodes[p].key)
    ensures OrderedExcept(r.nodes, r.sub, d)
  {
    forall m | m in r.nodes && m != d
      ensures OrderedAtExcept(r.nodes, r.sub, m, d)
    {
      SwapOrderAt(a, r, d, p, w, m);
    }
  }

  /** The child that replaces a node with at most one child: its left one if present, else its right one. */
  function OnlyChild<V>(n: Node<V>): Ptr
  {
    if n.left.Ref? then n.left else n.right
  }

  /** Node m's subtree set has lost `d` and nothing else. */
  ghost predicate Shrunk(sub: Subtrees, sub': Subtrees, d: nat, m: nat)
  {
    m in sub && m in sub' && sub'[m] == sub[m] - {d}
  }

  /** Node `d` is in the tree and has at most one child. */
  ghost predicate SpliceSetting<V>(a: Arena<V>, d: nat)
  {
    Linked(a) && d in a.nodes && (a.nodes[d].left.Null? || a.nodes[d].right.Null?)
  }

  /**
   * `r` is the state once `d` has been unlinked: its child (if any) takes its
   * place under its parent (or as the root), and `d` is deleted.
   */
  ghost predicate Spliced<V>(a: Arena<V>, r: Arena<V>, d: nat)
    requires d in a.nodes
  {
    var c := OnlyChild(a.nodes[d]);
    var p := a.nodes[d].parent;
    && r.nodes.Keys == a.nodes.Keys - {d}
    && (c.Ref? ==> c.id in a.nodes && c.id in r.nodes && r.nodes[c.id] == a.nodes[c.id].(parent := p))
    && (p.Ref? ==> p.id in a.nodes && p.id in r.nodes && r.nodes[p.id] == Relink(a.nodes[p.id], d, c))
    && r.root == (if p.Null? then c else a.root)
    && (forall m {:trigger Kept(a.nodes, r.nodes, m)} | m in a.nodes && m != d && c != Ref(m) && p != Ref(m) ::
          Kept(a.nodes, r.nodes, m))
    && r.sub.Keys == a.sub.Keys - {d}
    && forall m {:trigger Shrunk(a.sub, r.sub, d, m)} | m in r.sub :: Shrunk(a.sub, r.sub, d, m)
  }

  /**
   * The state `remove` leaves once it has unlinked d: the child's parent
   * pointer names d's parent, the parent's pointer to d names the child (or
   * the child becomes the root), and d is deleted.
   */
  ghost function SpliceOf<V>(a: Arena<V>, d: nat): Arena<V>
    requires d in a.nodes
  {
    var c, p := OnlyChild(a.nodes[d]), a.nodes[d].parent;
    var ns := if c.Ref? && c.id in a.nodes then a.nodes[c.id := a.nodes[c.id].(parent := p)] else a.nodes;
    var ns' := if p.Ref? && p.id in ns then ns[p.id := Relink(ns[p.id], d, c)] else ns;
    Arena(ns' - {d}, if p.Null? then c else a.root, map m | m in a.sub && m != d :: a.sub[m] - {d})
  }

  lemma SpliceOfSpliced<V>(a: Arena<V>, d: nat)
    requires SpliceSetting(a, d)
    ensures Spliced(a, SpliceOf(a, d), d)
  {
    SpliceDistinct(a, d);
  }

  /** `Spliced` pins the state down: it is the one `SpliceOf` builds. */
  lemma SplicedIsSpliceOf<V>(a: Arena<V>, r: Arena<V>, d: nat)
    requires SpliceSetting(a, d) && Spliced(a, r, d)
    ensures r == SpliceOf(a, d)
  {
    var s := SpliceOf(a, d);
    SpliceOfSpliced(a, d);
    var c, p := OnlyChild(a.nodes[d]), a.nodes[d].parent;
    forall m | m in r.nodes
      ensures r.nodes[m] == s.nodes[m]
    {
      if c != Ref(m) && p != Ref(m) {
        assert Kept(a.nodes, r.nodes, m) && Kept(a.nodes, s.nodes, m);
      }
    }
    assert r.nodes == s.nodes;
    forall m | m in r.sub
      ensures r.sub[m] == s.sub[m]
    {
      assert Shrunk(a.sub, r.sub, d, m) && Shrunk(a.sub, s.sub, d, m);
    }
    assert r.sub == s.sub;
  }

  /** The nodes around the one being unlinked are distinct and linked to it. */
  lemma SpliceDistinct<V>(a: Arena<V>, d: nat)
    requires SpliceSetting(a, d)
    ensures var c := OnlyChild(a.nodes[d]); var p := a.nodes[d].parent;
      && d in a.sub && a.sub[d] == {d} + SubOf(a.sub, c)
      && (c.Ref? ==> c.id in a.nodes && c.id != d && a.nodes[c.id].parent == Ref(d) && d !in SubOf(a.sub, c))
      && (p.Null? ==> a.root == Ref(d))
      && (p.Ref? ==> p.id in a.nodes && p.id != d && Ref(p.id) != c)
      && (p.Ref? ==> (a.nodes[p.id].left == Ref(d)) != (a.nodes[p.id].right == Ref(d)))
  {
    assert NodeLinked(a.nodes, a.root, a.sub, d);
    var c := OnlyChild(a.nodes[d]);
    var p := a.nodes[d].parent;
    if p.Ref? {
      assert NodeLinked(a.nodes, a.root, a.sub, p.id);
    }
  }

  /** The record of every remaining node after the splice. */
  lemma SpliceFieldsAt<V>(a: Arena<V>, r: Arena<V>, d: nat, m: nat)
    requires SpliceSetting(a, d) && Spliced(a, r, d) && m in r.nodes
    ensures m in a.nodes && m != d
    ensures var c := OnlyChild(a.nodes[d]); var p := a.nodes[d].parent;
      r.nodes[m] == if c == Ref(m) then a.nodes[m].(parent := p)
                    else if p == Ref(m) then Relink(a.nodes[m], d, c)
                    else a.nodes[m]
  {
    SpliceDistinct(a, d);
    var c := OnlyChild(a.nodes[d]);
    var p := a.nodes[d].parent;
    if c != Ref(m) && p != Ref(m) {
      assert Kept(a.nodes, r.nodes, m);
    }
  }

  /** Every remaining node keeps its key and value. */
  lemma SpliceKeys<V>(a: Arena<V>, r: Arena<V>, d: nat)
    requires SpliceSetting(a, d) && Spliced(a, r, d)
    ensures KeysAgree(r.nodes, a.nodes)
    ensures forall m | m in r.nodes :: r.nodes[m].value == a.nodes[m].value
  {
    forall m | m in r.nodes
      ensures m in a.nodes && r.nodes[m].key == a.nodes[m].key && r.nodes[m].value == a.nodes[m].value
    {
      SpliceFieldsAt(a, r, d, m);
    }
  }

  /** After the splice, the subtree set under each child pointer is the old one without `d`. */
  lemma SpliceChildSets<V>(a: Arena<V>, r: Arena<V>, d: nat, m: nat)
    requires SpliceSetting(a, d) && Spliced(a, r, d) && m in r.nodes
    ensures m in a.nodes
    ensures SubOf(r.sub, r.nodes[m].left) == SubOf(a.sub, a.nodes[m].left) - {d}
    ensures SubOf(r.sub, r.nodes[m].right) == SubOf(a.sub, a.nodes[m].right) - {d}
  {
    SpliceDistinct(a, d);
    SpliceFieldsAt(a, r, d, m);
    var c := OnlyChild(a.nodes[d]);
    var p := a.nodes[d].parent;
    assert NodeLinked(a.nodes, a.root, a.sub, m);
    var n := a.nodes[m];
    if c.Ref? {
      assert Shrunk(a.sub, r.sub, d, c.id);
    }
    assert SubOf(r.sub, c) == SubOf(a.sub, c) == SubOf(a.sub, Ref(d)) - {d};
    if n.left.Ref? && n.left.id != d {
      assert Shrunk(a.sub, r.sub, d, n.left.id);
    }
    if n.right.Ref? && n.right.id != d {
      assert Shrunk(a.sub, r.sub, d, n.right.id);
    }
  }

  /** Node m's child pointers after the splice agree with its children's parent pointers. */
  lemma SpliceChildLinks<V>(a: Arena<V>, r: Arena<V>, d: nat, m: nat)
    requires SpliceSetting(a, d) && Spliced(a, r, d) && m in r.nodes
    ensures ChildLinked(r.nodes, r.nodes[m].left, m) && ChildLinked(r.nodes, r.nodes[m].right, m)
  {
    SpliceDistinct(a, d);
    SpliceFieldsAt(a, r, d, m);
    var c := OnlyChild(a.nodes[d]);
    var p := a.nodes[d].parent;
    assert NodeLinked(a.nodes, a.root, a.sub, m);
    var n := a.nodes[m];
    if c.Ref? {
      SpliceFieldsAt(a, r, d, c.id);
    }
    if n.left.Ref? && n.left.id != d {
      SpliceFieldsAt(a, r, d, n.left.id);
    }
    if n.right.Ref? && n.right.id != d {
      SpliceFieldsAt(a, r, d, n.right.id);
    }
  }

  /** Node m after the splice is the root or one of its parent's two children. */
  lemma SpliceParentLink<V>(a: Arena<V>, r: Arena<V>, d: nat, m: nat)
    requires SpliceSetting(a, d) && Spliced(a, r, d) && m in r.nodes
    ensures ParentLinked(r.nodes, r.root, m)
  {
    SpliceDistinct(a, d);
    SpliceFieldsAt(a, r, d, m);
    var c := OnlyChild(a.nodes[d]);
    var p := a.nodes[d].parent;
    assert NodeLinked(a.nodes, a.root, a.sub, m);
    var q := a.nodes[m].parent;
    if c == Ref(m) {
      if p.Ref? {
        SpliceFieldsAt(a, r, d, p.id);
      }
    } else if q.Ref? {
      assert q.id != d;
      SpliceFieldsAt(a, r, d, q.id);
    }
  }

  lemma SpliceSubtreeAt<V>(a: Arena<V>, r: Arena<V>, d: nat, m: nat)
    requires SpliceSetting(a, d) && Spliced(a, r, d) && m in r.nodes
    ensures m in r.sub && SubtreeAt(r.nodes, r.sub, m)
  {
    SpliceChildSets(a, r, d, m);
    assert NodeLinked(a.nodes, a.root, a.sub, m);
    assert Shrunk(a.sub, r.sub, d, m);
  }

  /** The tree is ordered after the splice when it was, apart from `d`, before it. */
  lemma SpliceOrderAt<V>(a: Arena<V>, r: Arena<V>, d: nat, m: nat)
    requires SpliceSetting(a, d) && Spliced(a, r, d) && OrderedExcept(a.nodes, a.sub, d) && m in r.nodes
    ensures OrderedAt(r.nodes, r.sub, m)
  {
    SpliceChildSets(a, r, d, m);
    SpliceKeys(a, r, d);
    assert OrderedAtExcept(a.nodes, a.sub, m, d);
  }

  /** After the splice, the root pointer and the subtree-set domain are consistent. */
  lemma SpliceRoot<V>(a: Arena<V>, r: Arena<V>, d: nat)
    requires SpliceSetting(a, d) && Spliced(a, r, d)
    ensures r.sub.Keys == r.nodes.Keys
    ensures r.root.Null? ==> r.nodes == map[]
    ensures r.root.Ref? ==> r.root.id in r.nodes && r.nodes[r.root.id].parent.Null?
                            && r.root.id in r.sub && r.sub[r.root.id] == r.nodes.Keys
  {
    SpliceDistinct(a, d);
    var c := OnlyChild(a.nodes[d]);
    var p := a.nodes[d].parent;
    if p.Null? {
      if c.Ref? {
        SpliceFieldsAt(a, r, d, c.id);
        assert Shrunk(a.sub, r.sub, d, c.id);
      }
    } else {
      var t := a.root.id;
      assert t != d;
      SpliceFieldsAt(a, r, d, t);
      assert Shrunk(a.sub, r.sub, d, t);
    }
  }

  lemma SpliceLinked<V>(a: Arena<V>, r: Arena<V>, d: nat)
    requires SpliceSetting(a, d) && Spliced(a, r, d)
    ensures Linked(r)
  {
    SpliceRoot(a, r, d);
    forall m | m in r.nodes
      ensures NodeLinked(r.nodes, r.root, r.sub, m)
    {
      SpliceChildLinks(a, r, d, m);
      SpliceParentLink(a, r, d, m);
      SpliceSubtreeAt(a, r, d, m);
    }
  }

  /** The key index without the removed key indexes the remaining nodes. */
  lemma SpliceIndexed<V>(a: Arena<V>, r: Arena<V>, idOf: map<int, nat>, d: nat)
    requires SpliceSetting(a, d) && Spliced(a, r, d) && Indexed(a.nodes, idOf)
    ensures Indexed(r.nodes, idOf - {a.nodes[d].key})
    ensures Contents(r.nodes, idOf - {a.nodes[d].key}) == Contents(a.nodes, idOf) - {a.nodes[d].key}
  {
    SpliceKeys(a, r, d);
    var kd := a.nodes[d].key;
    var idOf' := idOf - {kd};
    assert Indexed(r.nodes, idOf');
    var c, c' := Contents(a.nodes, idOf), Contents(r.nodes, idOf');
    assert forall k | k in c' :: c'[k] == r.nodes[idOf[k]].value == a.nodes[idOf[k]].value == c[k];
  }

  /**
   * Unlinking a node with at most one child from a tree that is ordered apart
   * from it leaves a well-formed tree holding every other entry.
   */
  lemma SpliceValid<V>(a: Arena<V>, r: Arena<V>, idOf: map<int, nat>, d: nat)
    requires SpliceSetting(a, d) && Spliced(a, r, d)
    requires Indexed(a.nodes, idOf) && OrderedExcept(a.nodes, a.sub, d)
    ensures Valid(r, idOf - {a.nodes[d].key})
    ensures Contents(r.nodes, idOf - {a.nodes[d].key}) == Contents(a.nodes, idOf) - {a.nodes[d].key}
  {
    SpliceLinked(a, r, d);
    SpliceIndexed(a, r, idOf, d);
    forall m | m in r.nodes
      ensures OrderedAt(r.nodes, r.sub, m)
    {
      SpliceOrderAt(a, r, d, m);
    }
  }
}
