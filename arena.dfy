/**
 * The node store of the AVL map, modelled as an arena: every node lives in a
 * map from node id to a record, and the source's node pointers become ids
 * (`Ptr`). This module defines the records, the well-formedness of the linked
 * structure (parent/child consistency, acyclicity, reachability from the
 * root), BST order, the key index, and the key -> value map the tree stands for.
 */
module AvlArena {

  /** A node pointer: `nullptr` or the id of a node of the arena. */
  datatype Ptr = Null | Ref(id: nat)

  /** An AVL node: key, value, its three links and its signed balance factor. */
  datatype Node<V> = Node(key: int, value: V, left: Ptr, right: Ptr, parent: Ptr, balance: int)

  type Nodes<V> = map<nat, Node<V>>

  /** For each node id, the ids of the subtree rooted there (ghost bookkeeping). */
  type Subtrees = map<nat, set<nat>>

  /** The whole tree state: the arena, `root_`, and the subtree sets. */
  datatype Arena<V> = Arena(nodes: Nodes<V>, root: Ptr, sub: Subtrees)

  /** Ids of the subtree a pointer designates; empty for a null pointer. */
  function SubOf(sub: Subtrees, p: Ptr): set<nat>
  {
    if p.Ref? && p.id in sub then sub[p.id] else {}
  }

  /** The child pointer `c` of node `n` is null or names a node whose parent is `n`. */
  predicate ChildLinked<V>(nodes: Nodes<V>, c: Ptr, n: nat)
  {
    c.Ref? ==> c.id in nodes && nodes[c.id].parent == Ref(n)
  }

  /** Node `n` is the root, or one of the two children of its parent. */
  predicate ParentLinked<V>(nodes: Nodes<V>, root: Ptr, n: nat)
    requires n in nodes
  {
    var p := nodes[n].parent;
    if p.Null? then root == Ref(n)
    else p.id in nodes && (nodes[p.id].left == Ref(n) || nodes[p.id].right == Ref(n))
  }

  /** The subtree set of `n` is `n` plus the disjoint subtree sets of its children. */
  ghost predicate SubtreeAt<V>(nodes: Nodes<V>, sub: Subtrees, n: nat)
    requires n in nodes && n in sub
  {
    var l := SubOf(sub, nodes[n].left);
    var r := SubOf(sub, nodes[n].right);
    && sub[n] == {n} + l + r
    && n !in l && n !in r && l !! r
    && sub[n] <= nodes.Keys
  }

  ghost predicate NodeLinked<V>(nodes: Nodes<V>, root: Ptr, sub: Subtrees, n: nat)
    requires n in nodes && n in sub
  {
    && ChildLinked(nodes, nodes[n].left, n)
    && ChildLinked(nodes, nodes[n].right, n)
    && ParentLinked(nodes, root, n)
    && SubtreeAt(nodes, sub, n)
  }

  /**
   * Link consistency: parent and child pointers agree, the structure is a
   * finite tree (every subtree set strictly contains its children's), and
   * every node is reachable from the root, whose parent is null.
   */
  ghost predicate Linked<V>(a: Arena<V>)
  {
    && a.sub.Keys == a.nodes.Keys
    && (a.root.Null? ==> a.nodes == map[])
    && (a.root.Ref? ==> a.root.id in a.nodes && a.nodes[a.root.id].parent.Null?
                        && a.sub[a.root.id] == a.nodes.Keys)
    && forall n {:trigger NodeLinked(a.nodes, a.root, a.sub, n)} | n in a.nodes :: NodeLinked(a.nodes, a.root, a.sub, n)
  }

  /** `idOf` maps every key in the tree to the unique node carrying it. */
  ghost predicate Indexed<V>(nodes: Nodes<V>, idOf: map<int, nat>)
  {
    && (forall k | k in idOf :: idOf[k] in nodes && nodes[idOf[k]].key == k)
    && (forall n | n in nodes :: nodes[n].key in idOf && idOf[nodes[n].key] == n)
  }

  /** Every node of `s` carries a key smaller than `k`. */
  ghost predicate KeysBelow<V>(nodes: Nodes<V>, s: set<nat>, k: int)
  {
    forall m | m in s :: m in nodes && nodes[m].key < k
  }

  /** Every node of `s` carries a key larger than `k`. */
  ghost predicate KeysAbove<V>(nodes: Nodes<V>, s: set<nat>, k: int)
  {
    forall m | m in s :: m in nodes && nodes[m].key > k
  }

  /** BST order at `n`: left-subtree keys are smaller, right-subtree keys larger. */
  ghost predicate OrderedAt<V>(nodes: Nodes<V>, sub: Subtrees, n: nat)
    requires n in nodes
  {
    && KeysBelow(nodes, SubOf(sub, nodes[n].left), nodes[n].key)
    && KeysAbove(nodes, SubOf(sub, nodes[n].right), nodes[n].key)
  }

  ghost predicate Ordered<V>(nodes: Nodes<V>, sub: Subtrees)
  {
    forall n {:trigger OrderedAt(nodes, sub, n)} | n in nodes :: OrderedAt(nodes, sub, n)
  }

  /** A well-formed AVL map state (the balance-factor values are not constrained). */
  ghost predicate Valid<V>(a: Arena<V>, idOf: map<int, nat>)
  {
    Linked(a) && Indexed(a.nodes, idOf) && Ordered(a.nodes, a.sub)
  }

  /** The key -> value map the tree stands for. */
  ghost function Contents<V>(nodes: Nodes<V>, idOf: map<int, nat>): (m: map<int, V>)
    requires Indexed(nodes, idOf)
    ensures m.Keys == idOf.Keys
    ensures forall n | n in nodes :: nodes[n].key in m && m[nodes[n].key] == nodes[n].value
  {
    map k | k in idOf :: nodes[idOf[k]].value
  }

  /** Two arenas holding the same key -> value entries at the same ids. */
  ghost predicate SameEntries<V>(nodes: Nodes<V>, nodes': Nodes<V>)
  {
    && nodes'.Keys == nodes.Keys
    && forall n | n in nodes :: nodes'[n].key == nodes[n].key && nodes'[n].value == nodes[n].value
  }

  /** Relinking and rebalancing nodes changes neither the key index nor the map contents. */
  lemma SameEntriesContents<V>(nodes: Nodes<V>, nodes': Nodes<V>, idOf: map<int, nat>)
    requires Indexed(nodes, idOf) && SameEntries(nodes, nodes')
    ensures Indexed(nodes', idOf) && Contents(nodes', idOf) == Contents(nodes, idOf)
  {
    assert Indexed(nodes', idOf);
    var c, c' := Contents(nodes, idOf), Contents(nodes', idOf);
    assert forall k | k in c :: c'[k] == nodes'[idOf[k]].value == nodes[idOf[k]].value == c[k];
  }

  /** The parent's child pointer that named `was` now names `now` (the other one is kept). */
  function Relink<V>(g: Node<V>, was: nat, now: Ptr): Node<V>
  {
    if g.left == Ref(was) then g.(left := now) else g.(right := now)
  }

  /** Node m is present and unchanged from `nodes` to `nodes'`. */
  ghost predicate Kept<V>(nodes: Nodes<V>, nodes': Nodes<V>, m: nat)
  {
    m in nodes && m in nodes' && nodes'[m] == nodes[m]
  }

  /** Two arenas with the same ids, keys and links: only values and balances may differ. */
  ghost predicate SameShape<V>(nodes: Nodes<V>, nodes': Nodes<V>)
  {
    && nodes'.Keys == nodes.Keys
    && forall n | n in nodes ::
         && nodes'[n].key == nodes[n].key
         && nodes'[n].left == nodes[n].left
         && nodes'[n].right == nodes[n].right
         && nodes'[n].parent == nodes[n].parent
  }

  lemma SameShapeTrans<V>(nodes: Nodes<V>, nodes': Nodes<V>, nodes'': Nodes<V>)
    requires SameShape(nodes, nodes') && SameShape(nodes', nodes'')
    ensures SameShape(nodes, nodes'')
  {
  }

  /** Changing only values and balances keeps the tree well formed. */
  lemma SameShapeValid<V>(a: Arena<V>, nodes': Nodes<V>, idOf: map<int, nat>)
    requires Valid(a, idOf) && SameShape(a.nodes, nodes')
    ensures Valid(a.(nodes := nodes'), idOf)
  {
    var a' := a.(nodes := nodes');
    forall n | n in nodes'
      ensures NodeLinked(nodes', a.root, a.sub, n) && OrderedAt(nodes', a.sub, n)
    {
      assert NodeLinked(a.nodes, a.root, a.sub, n) && OrderedAt(a.nodes, a.sub, n);
      var p := nodes'[n].parent;
      if p.Ref? {
        assert p.id in a.nodes;
      }
    }
  }

  /** A descendant's subtree lies inside its ancestor's subtree. */
  lemma {:induction false} SubClosed<V>(a: Arena<V>, x: nat, y: nat)
    requires Linked(a) && y in a.nodes && x in a.sub[y]
    ensures x in a.nodes && a.sub[x] <= a.sub[y]
    decreases a.sub[y]
  {
    assert NodeLinked(a.nodes, a.root, a.sub, y);
    if x != y {
      var l := a.nodes[y].left;
      var r := a.nodes[y].right;
      if x in SubOf(a.sub, l) {
        SubClosed(a, x, l.id);
      } else {
        SubClosed(a, x, r.id);
      }
    }
  }

  /** A proper descendant's parent is inside the ancestor's subtree too. */
  lemma {:induction false} ParentInside<V>(a: Arena<V>, c: nat, z: nat)
    requires Linked(a) && z in a.nodes && c in a.sub[z] && c != z
    ensures c in a.nodes && a.nodes[c].parent.Ref? && a.nodes[c].parent.id in a.sub[z]
    decreases a.sub[z]
  {
    assert NodeLinked(a.nodes, a.root, a.sub, z);
    var l := a.nodes[z].left;
    var r := a.nodes[z].right;
    var s := if c in SubOf(a.sub, l) then l else r;
    assert s.Ref? && c in a.sub[s.id];
    assert NodeLinked(a.nodes, a.root, a.sub, s.id);
    if c != s.id {
      ParentInside(a, c, s.id);
    }
  }

  /** The root lies in no child subtree. */
  lemma RootIsTop<V>(a: Arena<V>, n: nat)
    requires Linked(a) && a.root.Ref? && n in a.nodes
    ensures a.root.id !in SubOf(a.sub, a.nodes[n].left)
    ensures a.root.id !in SubOf(a.sub, a.nodes[n].right)
  {
    assert NodeLinked(a.nodes, a.root, a.sub, n);
    var l := a.nodes[n].left;
    var r := a.nodes[n].right;
    if a.root.id in SubOf(a.sub, l) {
      SubClosed(a, a.root.id, l.id);
      assert false;
    }
    if a.root.id in SubOf(a.sub, r) {
      SubClosed(a, a.root.id, r.id);
      assert false;
    }
  }

  /** A node whose subtree set and children's subtree sets are unchanged keeps its subtree shape. */
  lemma SubtreeAtFrame<V>(nodes: Nodes<V>, sub: Subtrees, nodes': Nodes<V>, sub': Subtrees, m: nat)
    requires m in nodes && m in sub && SubtreeAt(nodes, sub, m)
    requires m in nodes' && m in sub' && nodes.Keys <= nodes'.Keys && sub'[m] == sub[m]
    requires SubOf(sub', nodes'[m].left) == SubOf(sub, nodes[m].left)
    requires SubOf(sub', nodes'[m].right) == SubOf(sub, nodes[m].right)
    ensures SubtreeAt(nodes', sub', m)
  {
  }

  /** Every node of `nodes` is in `nodes'` with the same key. */
  ghost predicate KeysAgree<V>(nodes: Nodes<V>, nodes': Nodes<V>)
  {
    forall n | n in nodes :: n in nodes' && nodes'[n].key == nodes[n].key
  }

  lemma KeysBelowFrame<V>(nodes: Nodes<V>, nodes': Nodes<V>, s: set<nat>, k: int)
    requires KeysBelow(nodes, s, k) && KeysAgree(nodes, nodes')
    ensures KeysBelow(nodes', s, k)
  {
  }

  lemma KeysAboveFrame<V>(nodes: Nodes<V>, nodes': Nodes<V>, s: set<nat>, k: int)
    requires KeysAbove(nodes, s, k) && KeysAgree(nodes, nodes')
    ensures KeysAbove(nodes', s, k)
  {
  }

  /** A node whose children's subtree sets are unchanged stays ordered when no key moves. */
  lemma OrderedAtFrame<V>(nodes: Nodes<V>, sub: Subtrees, nodes': Nodes<V>, sub': Subtrees, m: nat)
    requires m in nodes && OrderedAt(nodes, sub, m) && KeysAgree(nodes, nodes')
    requires SubOf(sub', nodes'[m].left) == SubOf(sub, nodes[m].left)
    requires SubOf(sub', nodes'[m].right) == SubOf(sub, nodes[m].right)
    ensures OrderedAt(nodes', sub', m)
  {
    KeysBelowFrame(nodes, nodes', SubOf(sub, nodes[m].left), nodes[m].key);
    KeysAboveFrame(nodes, nodes', SubOf(sub, nodes[m].right), nodes[m].key);
  }
}
