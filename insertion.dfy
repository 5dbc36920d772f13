/**
 * The arena-level effect of `internalInsert`: overwriting the value of a key
 * already present, making a first node the root, or attaching a new leaf
 * with balance 0 under the last node of the search path.
 */
module AvlInsertion {
  import opened AvlArena

  /** The search for key k, stopping at node m, would go left (resp. right) when c is left (resp. right) of m. */
  ghost predicate FitsAt<V>(a: Arena<V>, c: nat, k: int, m: nat)
    requires m in a.nodes
  {
    && (c in SubOf(a.sub, a.nodes[m].left) ==> k < a.nodes[m].key)
    && (c in SubOf(a.sub, a.nodes[m].right) ==> k > a.nodes[m].key)
  }

  /** Key k belongs below node c: every ancestor that has c on its left (right) has a larger (smaller) key. */
  ghost predicate PathFits<V>(a: Arena<V>, c: nat, k: int)
  {
    forall m {:trigger FitsAt(a, c, k, m)} | m in a.nodes :: FitsAt(a, c, k, m)
  }

  /** Every key of the tree fits the path to its own node. */
  lemma KeyFitsOwnPath<V>(a: Arena<V>, idOf: map<int, nat>, c: nat)
    requires Valid(a, idOf) && c in a.nodes
    ensures PathFits(a, c, a.nodes[c].key)
  {
    forall m | m in a.nodes
      ensures FitsAt(a, c, a.nodes[c].key, m)
    {
      assert OrderedAt(a.nodes, a.sub, m);
    }
  }

  /** Descending from c to its child on the side k selects keeps k fitting the path. */
  lemma DescendFits<V>(a: Arena<V>, c: nat, k: int)
    requires Linked(a) && c in a.nodes && PathFits(a, c, k) && k != a.nodes[c].key
    requires (if k < a.nodes[c].key then a.nodes[c].left else a.nodes[c].right).Ref?
    ensures var d := (if k < a.nodes[c].key then a.nodes[c].left else a.nodes[c].right).id;
      d in a.nodes && PathFits(a, d, k)
  {
    var d := (if k < a.nodes[c].key then a.nodes[c].left else a.nodes[c].right).id;
    assert NodeLinked(a.nodes, a.root, a.sub, c);
    assert NodeLinked(a.nodes, a.root, a.sub, d);
    forall m | m in a.nodes
      ensures FitsAt(a, d, k, m)
    {
      assert NodeLinked(a.nodes, a.root, a.sub, m);
      var l, r := a.nodes[m].left, a.nodes[m].right;
      if m != c {
        assert FitsAt(a, c, k, m);
        if d in SubOf(a.sub, l) && d != l.id {
          ParentInside(a, d, l.id);
          assert c in SubOf(a.sub, l);
        }
        if d in SubOf(a.sub, r) && d != r.id {
          ParentInside(a, d, r.id);
          assert c in SubOf(a.sub, r);
        }
      }
    }
  }

  /** The first node of an empty tree: the root, with null parent and balance 0. */
  ghost predicate FirstNode<V>(a: Arena<V>, r: Arena<V>, k: int, v: V, n: nat)
  {
    && r.nodes.Keys == {n} && r.nodes[n] == Node(k, v, Null, Null, Null, 0)
    && r.root == Ref(n)
    && r.sub.Keys == {n} && r.sub[n] == {n}
  }

  /** Inserting into an empty tree yields the one-entry map. */
  lemma FirstNodeValid<V>(a: Arena<V>, r: Arena<V>, idOf: map<int, nat>, k: int, v: V, n: nat)
    requires Valid(a, idOf) && a.root.Null? && FirstNode(a, r, k, v, n)
    ensures Valid(r, map[k := n]) && Contents(r.nodes, map[k := n]) == map[k := v]
  {
    assert NodeLinked(r.nodes, r.root, r.sub, n);
    assert OrderedAt(r.nodes, r.sub, n);
  }

  /** The slot of P that a new leaf with key k goes into: left if k is smaller, right otherwise. */
  function Attach<V>(p: Node<V>, k: int, leaf: nat): Node<V>
  {
    if k < p.key then p.(left := Ref(leaf)) else p.(right := Ref(leaf))
  }

  /** The subtree set of m after attaching a leaf below P: it gains the leaf iff P is in it. */
  ghost predicate Grown(sub: Subtrees, sub': Subtrees, p: nat, leaf: nat, m: nat)
    requires m in sub
  {
    m in sub' && sub'[m] == (if p in sub[m] then sub[m] + {leaf} else sub[m])
  }

  /** The subtree sets after attaching a new leaf below P: P and its ancestors gain it. */
  ghost function GrowSub(sub: Subtrees, p: nat, leaf: nat): (r: Subtrees)
    ensures r.Keys == sub.Keys + {leaf} && r[leaf] == {leaf}
  {
    (map m | m in sub :: if p in sub[m] then sub[m] + {leaf} else sub[m])[leaf := {leaf}]
  }

  /**
   * `r` is the state `internalInsert` leaves after attaching a new leaf L
   * with key k and value v under P: L has null children, parent P and
   * balance 0, P's child pointer on k's side now names L, no other node
   * changes, and L joins the subtree sets of P and its ancestors.
   */
  ghost predicate LeafAttached<V>(a: Arena<V>, r: Arena<V>, p: nat, leaf: nat, k: int, v: V)
    requires p in a.nodes
  {
    && r.nodes.Keys == a.nodes.Keys + {leaf}
    && r.nodes[leaf] == Node(k, v, Null, Null, Ref(p), 0)
    && r.nodes[p] == Attach(a.nodes[p], k, leaf)
    && (forall m {:trigger Kept(a.nodes, r.nodes, m)} | m in a.nodes && m != p :: Kept(a.nodes, r.nodes, m))
    && r.root == a.root
    && r.sub.Keys == a.sub.Keys + {leaf} && r.sub[leaf] == {leaf}
    && (forall m {:trigger Grown(a.sub, r.sub, p, leaf, m)} | m in a.sub :: Grown(a.sub, r.sub, p, leaf, m))
  }

  /**
   * `r` is `a` with a new leaf L holding k and v attached under a parent P
   * on whose search path k fits: L's parent pointer names P.
   */
  ghost predicate LeafInserted<V>(a: Arena<V>, r: Arena<V>, leaf: nat, k: int, v: V)
  {
    && leaf in r.nodes && r.nodes[leaf].parent.Ref? && r.nodes[leaf].parent.id in a.nodes
    && PathFits(a, r.nodes[leaf].parent.id, k)
    && LeafAttached(a, r, r.nodes[leaf].parent.id, leaf, k, v)
  }

  /** The setting of a leaf attachment: a linked tree, a fresh id, and a free slot of P on k's side. */
  ghost predicate AttachSetting<V>(a: Arena<V>, r: Arena<V>, p: nat, leaf: nat, k: int, v: V)
  {
    && Linked(a) && p in a.nodes && leaf !in a.nodes
    && (if k < a.nodes[p].key then a.nodes[p].left else a.nodes[p].right).Null?
    && LeafAttached(a, r, p, leaf, k, v)
  }

  /** Storing the new leaf and linking it under P, with grown subtree sets, is a leaf attachment. */
  lemma AttachSettingHolds<V>(a: Arena<V>, p: nat, leaf: nat, k: int, v: V)
    requires Linked(a) && p in a.nodes && leaf !in a.nodes
    requires (if k < a.nodes[p].key then a.nodes[p].left else a.nodes[p].right).Null?
    ensures var ns := a.nodes[leaf := Node(k, v, Null, Null, Ref(p), 0)];
      AttachSetting(a, Arena(ns[p := Attach(ns[p], k, leaf)], a.root, GrowSub(a.sub, p, leaf)), p, leaf, k, v)
  {
    var ns := a.nodes[leaf := Node(k, v, Null, Null, Ref(p), 0)];
    var r := Arena(ns[p := Attach(ns[p], k, leaf)], a.root, GrowSub(a.sub, p, leaf));
    forall m | m in a.sub
      ensures Grown(a.sub, r.sub, p, leaf, m)
    {
    }
  }

  /** What a leaf attachment does to one old node m. */
  lemma AttachFieldsAt<V>(a: Arena<V>, r: Arena<V>, p: nat, leaf: nat, k: int, v: V, m: nat)
    requires AttachSetting(a, r, p, leaf, k, v) && m in a.nodes
    ensures m in r.nodes && m != leaf && r.nodes[m].key == a.nodes[m].key
    ensures m != p ==> r.nodes[m] == a.nodes[m]
    ensures m in r.sub && r.sub[m] == (if p in a.sub[m] then a.sub[m] + {leaf} else a.sub[m])
  {
    assert Grown(a.sub, r.sub, p, leaf, m);
    if m != p {
      assert Kept(a.nodes, r.nodes, m);
    }
  }

  /** Old nodes keep their keys. */
  lemma AttachKeys<V>(a: Arena<V>, r: Arena<V>, p: nat, leaf: nat, k: int, v: V)
    requires AttachSetting(a, r, p, leaf, k, v)
    ensures KeysAgree(a.nodes, r.nodes)
  {
    forall m | m in a.nodes
      ensures m in r.nodes && r.nodes[m].key == a.nodes[m].key
    {
      AttachFieldsAt(a, r, p, leaf, k, v, m);
    }
  }

  /** The new leaf is well linked and (trivially) ordered. */
  lemma LeafNode<V>(a: Arena<V>, r: Arena<V>, p: nat, leaf: nat, k: int, v: V)
    requires AttachSetting(a, r, p, leaf, k, v)
    ensures leaf in r.nodes && leaf in r.sub
    ensures NodeLinked(r.nodes, r.root, r.sub, leaf) && OrderedAt(r.nodes, r.sub, leaf)
  {
  }

  /** P, now the leaf's parent, is well linked. */
  lemma LeafParentLinks<V>(a: Arena<V>, r: Arena<V>, p: nat, leaf: nat, k: int, v: V)
    requires AttachSetting(a, r, p, leaf, k, v)
    ensures p in r.nodes && p in r.sub && NodeLinked(r.nodes, r.root, r.sub, p)
  {
    assert NodeLinked(a.nodes, a.root, a.sub, p);
    AttachFieldsAt(a, r, p, leaf, k, v, p);
    var l, rt, g := a.nodes[p].left, a.nodes[p].right, a.nodes[p].parent;
    if l.Ref? {
      AttachFieldsAt(a, r, p, leaf, k, v, l.id);
    }
    if rt.Ref? {
      AttachFieldsAt(a, r, p, leaf, k, v, rt.id);
    }
    if g.Ref? {
      AttachFieldsAt(a, r, p, leaf, k, v, g.id);
    }
  }

  /** P is ordered: the leaf goes on the side its key selects. */
  lemma LeafParentOrder<V>(a: Arena<V>, r: Arena<V>, p: nat, leaf: nat, k: int, v: V)
    requires AttachSetting(a, r, p, leaf, k, v) && Ordered(a.nodes, a.sub) && k != a.nodes[p].key
    ensures p in r.nodes && OrderedAt(r.nodes, r.sub, p)
  {
    assert NodeLinked(a.nodes, a.root, a.sub, p) && OrderedAt(a.nodes, a.sub, p);
    AttachKeys(a, r, p, leaf, k, v);
    AttachFieldsAt(a, r, p, leaf, k, v, p);
    var l, rt := a.nodes[p].left, a.nodes[p].right;
    if l.Ref? {
      AttachFieldsAt(a, r, p, leaf, k, v, l.id);
      KeysBelowFrame(a.nodes, r.nodes, a.sub[l.id], a.nodes[p].key);
    }
    if rt.Ref? {
      AttachFieldsAt(a, r, p, leaf, k, v, rt.id);
      KeysAboveFrame(a.nodes, r.nodes, a.sub[rt.id], a.nodes[p].key);
    }
  }

  /** An ancestor of P is well linked: the child on P's side gains the leaf. */
  lemma LeafAncestorLinks<V>(a: Arena<V>, r: Arena<V>, p: nat, leaf: nat, k: int, v: V, m: nat)
    requires AttachSetting(a, r, p, leaf, k, v)
    requires m in a.nodes && m != p && p in a.sub[m]
    ensures m in r.nodes && m in r.sub && NodeLinked(r.nodes, r.root, r.sub, m)
  {
    assert NodeLinked(a.nodes, a.root, a.sub, m);
    AttachFieldsAt(a, r, p, leaf, k, v, m);
    var l, rt, g := a.nodes[m].left, a.nodes[m].right, a.nodes[m].parent;
    if l.Ref? {
      AttachFieldsAt(a, r, p, leaf, k, v, l.id);
    }
    if rt.Ref? {
      AttachFieldsAt(a, r, p, leaf, k, v, rt.id);
    }
    if g.Ref? {
      AttachFieldsAt(a, r, p, leaf, k, v, g.id);
    }
  }

  /** An ancestor of P stays ordered, because k fits the path to P. */
  lemma LeafAncestorOrder<V>(a: Arena<V>, r: Arena<V>, p: nat, leaf: nat, k: int, v: V, m: nat)
    requires AttachSetting(a, r, p, leaf, k, v) && Ordered(a.nodes, a.sub) && PathFits(a, p, k)
    requires m in a.nodes && m != p && p in a.sub[m]
    ensures m in r.nodes && OrderedAt(r.nodes, r.sub, m)
  {
    assert NodeLinked(a.nodes, a.root, a.sub, m) && OrderedAt(a.nodes, a.sub, m);
    assert FitsAt(a, p, k, m);
    AttachKeys(a, r, p, leaf, k, v);
    AttachFieldsAt(a, r, p, leaf, k, v, m);
    var l, rt := a.nodes[m].left, a.nodes[m].right;
    if l.Ref? {
      AttachFieldsAt(a, r, p, leaf, k, v, l.id);
      KeysBelowFrame(a.nodes, r.nodes, a.sub[l.id], a.nodes[m].key);
    }
    if rt.Ref? {
      AttachFieldsAt(a, r, p, leaf, k, v, rt.id);
      KeysAboveFrame(a.nodes, r.nodes, a.sub[rt.id], a.nodes[m].key);
    }
  }

  /** A node off the path to P keeps its links and subtree set. */
  lemma LeafBystanderLinks<V>(a: Arena<V>, r: Arena<V>, p: nat, leaf: nat, k: int, v: V, m: nat)
    requires AttachSetting(a, r, p, leaf, k, v)
    requires m in a.nodes && p !in a.sub[m]
    ensures m in r.nodes && m in r.sub && NodeLinked(r.nodes, r.root, r.sub, m)
  {
    assert NodeLinked(a.nodes, a.root, a.sub, m);
    AttachFieldsAt(a, r, p, leaf, k, v, m);
    var l, rt, g := a.nodes[m].left, a.nodes[m].right, a.nodes[m].parent;
    if l.Ref? {
      AttachFieldsAt(a, r, p, leaf, k, v, l.id);
    }
    if rt.Ref? {
      AttachFieldsAt(a, r, p, leaf, k, v, rt.id);
    }
    if g.Ref? {
      AttachFieldsAt(a, r, p, leaf, k, v, g.id);
    }
    SubtreeAtFrame(a.nodes, a.sub, r.nodes, r.sub, m);
  }

  /** A node off the path to P stays ordered. */
  lemma LeafBystanderOrder<V>(a: Arena<V>, r: Arena<V>, p: nat, leaf: nat, k: int, v: V, m: nat)
    requires AttachSetting(a, r, p, leaf, k, v) && Ordered(a.nodes, a.sub)
    requires m in a.nodes && p !in a.sub[m]
    ensures m in r.nodes && OrderedAt(r.nodes, r.sub, m)
  {
    assert NodeLinked(a.nodes, a.root, a.sub, m) && OrderedAt(a.nodes, a.sub, m);
    AttachKeys(a, r, p, leaf, k, v);
    AttachFieldsAt(a, r, p, leaf, k, v, m);
    var l, rt := a.nodes[m].left, a.nodes[m].right;
    if l.Ref? {
      AttachFieldsAt(a, r, p, leaf, k, v, l.id);
    }
    if rt.Ref? {
      AttachFieldsAt(a, r, p, leaf, k, v, rt.id);
    }
    OrderedAtFrame(a.nodes, a.sub, r.nodes, r.sub, m);
  }

  /** After the attachment, the root and the subtree-set domain are consistent. */
  lemma AttachRoot<V>(a: Arena<V>, r: Arena<V>, p: nat, leaf: nat, k: int, v: V)
    requires AttachSetting(a, r, p, leaf, k, v)
    ensures r.sub.Keys == r.nodes.Keys && r.root.Ref?
    ensures r.root.id in r.nodes && r.nodes[r.root.id].parent.Null?
    ensures r.root.id in r.sub && r.sub[r.root.id] == r.nodes.Keys
  {
    var t := a.root.id;
    assert NodeLinked(a.nodes, a.root, a.sub, t);
    AttachFieldsAt(a, r, p, leaf, k, v, t);
  }

  /**
   * Attaching a new leaf keeps the tree well formed and ordered, and adds
   * exactly the entry k -> v to the map the tree stands for.
   */
  lemma AttachValid<V>(a: Arena<V>, idOf: map<int, nat>, p: nat, leaf: nat, k: int, v: V)
    requires Valid(a, idOf) && k !in idOf && p in a.nodes && PathFits(a, p, k) && leaf !in a.nodes
    requires (if k < a.nodes[p].key then a.nodes[p].left else a.nodes[p].right).Null?
    ensures var ns := a.nodes[leaf := Node(k, v, Null, Null, Ref(p), 0)];
      var r := Arena(ns[p := Attach(ns[p], k, leaf)], a.root, GrowSub(a.sub, p, leaf));
      && Valid(r, idOf[k := leaf])
      && Contents(r.nodes, idOf[k := leaf]) == Contents(a.nodes, idOf)[k := v]
      && LeafInserted(a, r, leaf, k, v)
  {
    var ns := a.nodes[leaf := Node(k, v, Null, Null, Ref(p), 0)];
    var r := Arena(ns[p := Attach(ns[p], k, leaf)], a.root, GrowSub(a.sub, p, leaf));
    AttachSettingHolds(a, p, leaf, k, v);
    AttachRoot(a, r, p, leaf, k, v);
    LeafNode(a, r, p, leaf, k, v);
    LeafParentLinks(a, r, p, leaf, k, v);
    LeafParentOrder(a, r, p, leaf, k, v);
    forall m | m in r.nodes
      ensures m in r.sub && NodeLinked(r.nodes, r.root, r.sub, m) && OrderedAt(r.nodes, r.sub, m)
    {
      if m != leaf && m != p {
        if p in a.sub[m] {
          LeafAncestorLinks(a, r, p, leaf, k, v, m);
          LeafAncestorOrder(a, r, p, leaf, k, v, m);
        } else {
          LeafBystanderLinks(a, r, p, leaf, k, v, m);
          LeafBystanderOrder(a, r, p, leaf, k, v, m);
        }
      }
    }
    AttachIndexed(a, idOf, r, p, leaf, k, v);
  }

  /** The key index and the map contents gain exactly k. */
  lemma AttachIndexed<V>(a: Arena<V>, idOf: map<int, nat>, r: Arena<V>, p: nat, leaf: nat, k: int, v: V)
    requires Valid(a, idOf) && k !in idOf && AttachSetting(a, r, p, leaf, k, v)
    ensures Indexed(r.nodes, idOf[k := leaf])
    ensures Contents(r.nodes, idOf[k := leaf]) == Contents(a.nodes, idOf)[k := v]
  {
    forall m | m in a.nodes
      ensures m in r.nodes && r.nodes[m].key == a.nodes[m].key && r.nodes[m].value == a.nodes[m].value
    {
      AttachFieldsAt(a, r, p, leaf, k, v, m);
    }
    assert Indexed(r.nodes, idOf[k := leaf]);
    var c, c' := Contents(a.nodes, idOf), Contents(r.nodes, idOf[k := leaf]);
    assert forall j | j in c' :: c'[j] == c[k := v][j];
  }

  /** `nodes'` is `nodes` with the value of node c replaced by v and nothing else changed. */
  ghost predicate ValueOverwritten<V>(nodes: Nodes<V>, nodes': Nodes<V>, c: nat, v: V)
  {
    && c in nodes && nodes'.Keys == nodes.Keys && nodes'[c] == nodes[c].(value := v)
    && forall m {:trigger Kept(nodes, nodes', m)} | m in nodes && m != c :: Kept(nodes, nodes', m)
  }

  lemma OverwriteOnly<V>(nodes: Nodes<V>, c: nat, v: V)
    requires c in nodes
    ensures ValueOverwritten(nodes, nodes[c := nodes[c].(value := v)], c, v)
  {
    var nodes' := nodes[c := nodes[c].(value := v)];
    forall m | m in nodes && m != c
      ensures Kept(nodes, nodes', m)
    {
    }
  }

  /** Overwriting the value of the node that carries k: only that entry of the map changes. */
  lemma OverwriteValid<V>(a: Arena<V>, idOf: map<int, nat>, c: nat, v: V)
    requires Valid(a, idOf) && c in a.nodes
    ensures Valid(a.(nodes := a.nodes[c := a.nodes[c].(value := v)]), idOf)
    ensures Contents(a.nodes[c := a.nodes[c].(value := v)], idOf) == Contents(a.nodes, idOf)[a.nodes[c].key := v]
  {
    var nodes' := a.nodes[c := a.nodes[c].(value := v)];
    SameShapeValid(a, nodes', idOf);
    var m, m' := Contents(a.nodes, idOf), Contents(nodes', idOf);
    assert forall j | j in m' :: m'[j] == m[a.nodes[c].key := v][j];
  }
}
