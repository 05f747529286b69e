/**
 `radix_tree.c` on the heap: nodes rewritten in place through the slot that points to
 them.  A slot (`struct rxtree_node **node`) is modelled by passing the pointer in and
 returning the pointer to store back.  Allocation is taken to succeed.
 */
module Radix {
  import opened Bits
  import opened RadixSpec

  const EINVAL: int := 22

  class RxNode {
    var prefix: nat
    var isLeaf: bool
    var value: nat
    var children: seq<RxNode?>
    ghost var Repr: set<object>
    ghost var tree: Tree

    ghost predicate Valid()
      reads this, Repr
      ensures Valid() ==> this in Repr && |children| == MAP_SIZE && !tree.Nil? && (isLeaf <==> tree.Leaf?)
      decreases Repr + {this}, 1
    {
      && this in Repr && |children| == MAP_SIZE
      && (if isLeaf then tree == Leaf(prefix, value) else OthersValid(MAP_SIZE))
    }

    /** An inner node whose children, except the one at `index`, are valid and apart. */
    ghost predicate OthersValid(index: nat)
      reads this, Repr
      decreases Repr + {this}, 0
    {
      && this in Repr && |children| == MAP_SIZE && !isLeaf
      && tree.Node? && |tree.kids| == MAP_SIZE
      && (forall i | 0 <= i < MAP_SIZE && i != index && children[i] != null ::
            && children[i] in Repr && children[i].Repr <= Repr && this !in children[i].Repr
            && children[i].Valid() && tree.kids[i] == children[i].tree)
      && (forall i | 0 <= i < MAP_SIZE && i != index && children[i] == null :: tree.kids[i] == Nil)
      && (forall i, j | 0 <= i < j < MAP_SIZE && i != index && j != index && children[i] != null
          && children[j] != null ::
            children[i].Repr !! children[j].Repr)
    }

    /** `rxtree_node_alloc`. */
    constructor (prefix: nat, isLeaf: bool, value: nat)
      ensures Valid() && fresh(Repr) && Repr == {this}
      ensures this.prefix == prefix && this.isLeaf == isLeaf && this.value == value
      ensures children == [null, null, null, null]
      ensures tree == if isLeaf then Leaf(prefix, value) else Node(EMPTY)
    {
      this.prefix, this.isLeaf, this.value := prefix, isLeaf, value;
      children := [null, null, null, null];
      Repr := {this};
      tree := if isLeaf then Leaf(prefix, value) else Node(EMPTY);
    }
  }

  ghost function TreeOf(n: RxNode?): Tree
    reads n
  {
    if n == null then Nil else n.tree
  }

  ghost function ReprOf(n: RxNode?): set<object>
    reads n
  {
    if n == null then {} else n.Repr
  }

  ghost predicate ValidOrNull(n: RxNode?)
    reads n, ReprOf(n)
  {
    n != null ==> n.Valid()
  }

  /** `rxtree_insert_node`: the slot's new pointer; the subtree becomes what `Insert` says. */
  method InsertNode(node: RxNode?, key: nat, value: nat, depth: nat) returns (node': RxNode)
    requires ValidOrNull(node) && depth <= DIGITS && Room(TreeOf(node), key, depth)
    modifies ReprOf(node)
    ensures node'.Valid() && fresh(node'.Repr - old(ReprOf(node)))
    ensures node'.tree == Insert(old(TreeOf(node)), key, value, depth)
    decreases DIGITS - depth, 1
  {
    if node == null {
      node' := new RxNode(key, true, value);
      return;
    }
    var current := node;
    if current.isLeaf {
      if current.prefix == key {
        current.value := value;
        current.tree := Leaf(key, value);
        return current;
      }
      node' := SplitLeaf(current, key, value, depth);
      return;
    }
    node' := InsertKid(current, key, value, depth);
  }

  /** A leaf that has to make room for a second key. */
  method SplitLeaf(current: RxNode, key: nat, value: nat, depth: nat) returns (node': RxNode)
    requires current.Valid() && current.isLeaf && current.prefix != key
    requires depth <= DIGITS && Room(current.tree, key, depth)
    modifies current.Repr
    ensures node'.Valid() && fresh(node'.Repr - old(current.Repr))
    ensures node'.tree == Insert(old(current.tree), key, value, depth)
    decreases DIGITS - depth, 0
  {
    hide Insert, Room;
    LeafSplit(current.prefix, current.value, key, value, depth);
    hide Digit;
    var parent := new RxNode(0, false, 0);
    var idx1, idx2 := Digit(key, depth), Digit(current.prefix, depth);
    if idx1 == idx2 {
      var kid := InsertNode(null, key, value, depth + 1);
      kid := InsertNode(kid, current.prefix, current.value, depth + 1);
      parent.children := parent.children[idx1 := kid];
      TakeOver(current, parent.children, idx1, kid);
      node' := current;
    } else {
      node' := PairOf(parent, idx1, key, value, idx2, current.prefix, current.value);
    }
  }

  /** The leaf turned into an inner node with the single child `kid`. */
  method TakeOver(current: RxNode, children: seq<RxNode?>, idx: nat, kid: RxNode)
    requires idx < MAP_SIZE && kid.Valid() && current !in kid.Repr
    requires children == [null, null, null, null][idx := kid]
    modifies current
    ensures current.Valid() && current.Repr == {current} + kid.Repr && current.tree == Node(EMPTY[idx := kid.tree])
  {
    current.children := children;
    current.isLeaf := false;
    current.value := 0;
    current.Repr, current.tree := {current} + kid.Repr, Node(EMPTY[idx := kid.tree]);
  }

  /** The new inner node over two leaves in different slots. */
  method PairOf(parent: RxNode, idx1: nat, key: nat, value: nat, idx2: nat, prefix: nat,
                old_: nat) returns (node': RxNode)
    requires idx1 < MAP_SIZE && idx2 < MAP_SIZE && idx1 != idx2
    requires !parent.isLeaf && parent.children == [null, null, null, null]
    modifies parent
    ensures node' == parent && node'.Valid() && fresh(node'.Repr - {parent})
    ensures node'.tree == Node(EMPTY[idx1 := Leaf(key, value)][idx2 := Leaf(prefix, old_)])
  {
    var leaf1 := new RxNode(key, true, value);
    parent.children := parent.children[idx1 := leaf1];
    var leaf2 := new RxNode(prefix, true, old_);
    parent.children := parent.children[idx2 := leaf2];
    parent.tree := Node(EMPTY[idx1 := leaf1.tree][idx2 := leaf2.tree]);
    parent.Repr := {parent, leaf1, leaf2};
    node' := parent;
  }

  /** How `Insert` splits a leaf. */
  lemma LeafSplit(k: nat, u: nat, key: nat, value: nat, depth: nat)
    requires depth <= DIGITS && k != key && Room(Leaf(k, u), key, depth)
    ensures depth < DIGITS
    ensures var i, j := Digit(key, depth), Digit(k, depth);
            && i < MAP_SIZE && j < MAP_SIZE
            && Room(Nil, key, depth + 1) && Insert(Nil, key, value, depth + 1) == Leaf(key, value)
            && (i == j ==> Room(Leaf(key, value), k, depth + 1)
                           && Insert(Leaf(k, u), key, value, depth)
                                == Node(EMPTY[i := Insert(Leaf(key, value), k, u, depth + 1)]))
            && (i != j ==> Insert(Leaf(k, u), key, value, depth)
                             == Node(EMPTY[i := Leaf(key, value)][j := Leaf(k, u)]))
  {
    SplitDepth(k, key, depth);
  }

  /** Descending into the child that the next digit selects. */
  method InsertKid(current: RxNode, key: nat, value: nat, depth: nat) returns (node': RxNode)
    requires current.Valid() && !current.isLeaf && depth <= DIGITS && Room(current.tree, key, depth)
    modifies current.Repr
    ensures node'.Valid() && fresh(node'.Repr - old(current.Repr))
    ensures node'.tree == Insert(old(current.tree), key, value, depth)
    decreases DIGITS - depth, 0
  {
    DigitIsMod(key, depth);
    var index := Digit(key, depth);
    var kid := InsertNode(current.children[index], key, value, depth + 1);
    SetChild(current, index, kid);
    node' := current;
  }

  /** Storing a subtree's new pointer back into its slot. */
  method SetChild(current: RxNode, index: nat, kid: RxNode?)
    requires index < MAP_SIZE && ValidOrNull(kid) && current !in ReprOf(kid)
    requires current.OthersValid(index)
    requires forall i | 0 <= i < MAP_SIZE && i != index && current.children[i] != null ::
               current.children[i].Repr !! ReprOf(kid)
    modifies current
    ensures current.Valid() && current.Repr == old(current.Repr) + ReprOf(kid) && !current.isLeaf
    ensures current.children == old(current.children)[index := kid]
    ensures current.tree == Node(old(current.tree.kids)[index := TreeOf(kid)])
  {
    current.children := current.children[index := kid];
    current.tree := Node(current.tree.kids[index := TreeOf(kid)]);
    current.Repr := current.Repr + ReprOf(kid);
  }

  /** `rxtree_delete_node`; 0 when the key was there, -EINVAL otherwise. */
  method DeleteNode(node: RxNode?, key: nat, depth: nat) returns (node': RxNode?, ret: int)
    requires ValidOrNull(node) && depth <= DIGITS && Room(TreeOf(node), key, depth)
    modifies ReprOf(node)
    ensures ValidOrNull(node') && ReprOf(node') <= old(ReprOf(node))
    ensures ret == 0 || ret == -EINVAL
    ensures (TreeOf(node'), ret == 0) == Delete(old(TreeOf(node)), key, depth)
    decreases DIGITS - depth, 1
  {
    if node == null {
      return null, -EINVAL;
    }
    var current := node;
    if current.isLeaf {
      if current.prefix == key {
        return null, 0;
      }
      return current, -EINVAL;
    }
    node', ret := DeleteKid(current, key, depth);
  }

  method DeleteKid(current: RxNode, key: nat, depth: nat) returns (node': RxNode?, ret: int)
    requires current.Valid() && !current.isLeaf && depth <= DIGITS && Room(current.tree, key, depth)
    modifies current.Repr
    ensures ValidOrNull(node') && ReprOf(node') <= old(current.Repr)
    ensures ret == 0 || ret == -EINVAL
    ensures (TreeOf(node'), ret == 0) == Delete(old(current.tree), key, depth)
    decreases DIGITS - depth, 0
  {
    hide Collapse;
    DigitIsMod(key, depth);
    var index := Digit(key, depth);
    var kid;
    kid, ret := DeleteNode(current.children[index], key, depth + 1);
    SetChild(current, index, kid);
    node' := current;
    if ret == 0 {
      node' := CollapseNode(current);
    }
  }

  lemma CountStep(kids: seq<Tree>, i: nat)
    requires i < |kids|
    ensures Count(kids[..i + 1]) == Count(kids[..i]) + (if kids[i].Nil? then 0 else 1)
    ensures LastChild(kids[..i + 1]) == if kids[i].Nil? then LastChild(kids[..i]) else kids[i]
  {
    assert kids[..i + 1][..i] == kids[..i];
  }

  /** What is left of a node after a deletion below it. */
  method CollapseNode(current: RxNode) returns (node': RxNode?)
    requires current.Valid() && !current.isLeaf && current.tree.Node?
    ensures ValidOrNull(node') && ReprOf(node') <= current.Repr
    ensures TreeOf(node') == Collapse(current.tree.kids)
  {
    assert current.OthersValid(MAP_SIZE);
    var count := 0;
    var child: RxNode? := null;
    ghost var kids := current.tree.kids;
    for i := 0 to MAP_SIZE
      invariant count == Count(kids[..i]) && TreeOf(child) == LastChild(kids[..i])
      invariant child != null ==> child in current.children
    {
      CountStep(kids, i);
      if current.children[i] != null {
        count := count + 1;
        child := current.children[i];
      }
    }
    assert kids[..MAP_SIZE] == kids;
    if count == 1 && child != null && child.isLeaf {
      node' := child;
    } else if count == 0 {
      node' := null;
    } else {
      node' := current;
    }
  }

  /** The tree that stands for a map on 64-bit keys. */
  ghost predicate Stands(t: Tree, m: map<nat, nat>) {
    Map64(m) && Canon(t, m, 0)
  }

  lemma InsertFacts(t: Tree, m: map<nat, nat>, key: nat, value: nat)
    requires Stands(t, m) && key < Pow2(KEY_BITS)
    ensures Room(t, key, 0) && Stands(RadixSpec.Insert(t, key, value, 0), m[key := value])
  {
    hide Canon;
    Map64Prefixed(m, key);
    InsertCanon(t, m, key, value, 0);
  }

  lemma DeleteFacts(t: Tree, m: map<nat, nat>, key: nat)
    requires Stands(t, m) && key < Pow2(KEY_BITS)
    ensures Room(t, key, 0)
    ensures var (t', ok) := RadixSpec.Delete(t, key, 0); ok == (key in m) && Stands(t', m - {key})
  {
    hide Canon;
    Map64Prefixed(m, key);
    DeleteCanon(t, m, key, 0);
  }

  lemma LookupFacts(t: Tree, m: map<nat, nat>, key: nat)
    requires Stands(t, m) && key < Pow2(KEY_BITS)
    ensures Room(t, key, 0)
    ensures RadixSpec.Lookup(t, key, 0) == if key in m then m[key] else 0
  {
    hide Canon;
    Map64Prefixed(m, key);
    LookupCanon(t, m, key, 0);
  }

  /** The walk of `rxtree_lookup`. */
  method LookupFrom(root: RxNode?, key: nat) returns (value: nat)
    requires ValidOrNull(root) && Room(TreeOf(root), key, 0)
    ensures value == RadixSpec.Lookup(TreeOf(root), key, 0)
  {
    var node, depth := root, 0;
    while node != null && !node.isLeaf
      invariant depth <= DIGITS && ValidOrNull(node) && Room(TreeOf(node), key, depth)
      invariant RadixSpec.Lookup(TreeOf(node), key, depth) == RadixSpec.Lookup(TreeOf(root), key, 0)
      decreases DIGITS - depth
    {
      assert node.OthersValid(MAP_SIZE);
      DigitIsMod(key, depth);
      node := node.children[Digit(key, depth)];
      depth := depth + 1;
    }
    if node != null && node.isLeaf && node.prefix == key {
      return node.value;
    }
    return 0;
  }

  method InsertRoot(node: RxNode?, key: nat, value: nat, ghost m: map<nat, nat>) returns (node': RxNode)
    requires ValidOrNull(node) && Stands(TreeOf(node), m) && key < Pow2(KEY_BITS)
    modifies ReprOf(node)
    ensures node'.Valid() && fresh(node'.Repr - old(ReprOf(node))) && Stands(node'.tree, m[key := value])
  {
    InsertFacts(TreeOf(node), m, key, value);
    hide Stands, Room, RadixSpec.Insert, Pow2, RxNode.Valid;
    node' := InsertNode(node, key, value, 0);
  }

  method DeleteRoot(node: RxNode?, key: nat, ghost m: map<nat, nat>) returns (node': RxNode?, ret: int)
    requires ValidOrNull(node) && Stands(TreeOf(node), m) && key < Pow2(KEY_BITS)
    modifies ReprOf(node)
    ensures ValidOrNull(node') && ReprOf(node') <= old(ReprOf(node)) && Stands(TreeOf(node'), m - {key})
    ensures ret == if key in m then 0 else -EINVAL
  {
    DeleteFacts(TreeOf(node), m, key);
    hide Stands, Room, RadixSpec.Delete, Pow2, RxNode.Valid;
    node', ret := DeleteNode(node, key, 0);
  }

  /** `struct rxtree`, with the map it stands for. */
  class RxTree {
    var rnode: RxNode?
    ghost var Contents: map<nat, nat>

    ghost predicate Valid()
      reads this, rnode, ReprOf(rnode)
    {
      && ValidOrNull(rnode) && this !in ReprOf(rnode)
      && Stands(TreeOf(rnode), Contents)
    }

    constructor ()
      ensures Valid() && Contents == map[] && rnode == null
    {
      rnode := null;
      Contents := map[];
    }

    method Insert(key: nat, value: nat)
      requires Valid() && key < Pow2(KEY_BITS)
      modifies this, ReprOf(rnode)
      ensures Valid() && fresh(ReprOf(rnode) - old(ReprOf(rnode)))
      ensures Contents == old(Contents)[key := value]
    {
      hide Stands, Pow2, RxNode.Valid;
      var r := InsertRoot(rnode, key, value, Contents);
      rnode, Contents := r, Contents[key := value];
    }

    /** `rxtree_lookup`; null for an absent key. */
    method Lookup(key: nat) returns (value: nat)
      requires Valid() && key < Pow2(KEY_BITS)
      ensures value == if key in Contents then Contents[key] else 0
    {
      LookupFacts(TreeOf(rnode), Contents, key);
      hide Stands, Pow2;
      value := LookupFrom(rnode, key);
    }

    /** `rxtree_delete`: succeeds exactly on the keys that are there. */
    method Delete(key: nat) returns (ret: int)
      requires Valid() && key < Pow2(KEY_BITS)
      modifies this, ReprOf(rnode)
      ensures Valid() && ReprOf(rnode) <= old(ReprOf(rnode))
      ensures ret == if key in old(Contents) then 0 else -EINVAL
      ensures Contents == old(Contents) - {key}
    {
      hide Stands, Pow2, RxNode.Valid;
      var r;
      r, ret := DeleteRoot(rnode, key, Contents);
      rnode, Contents := r, Contents - {key};
    }
  }
}
