/**
 The radix tree as a value: a 4-ary trie over the 32 two-bit digits of a 64-bit key that
 stores a leaf as soon as a key is alone.  What `radix_tree.c` does to it, the canonical
 tree of a map, and the proof that the operations always produce exactly that tree.
 */
module RadixSpec {
  import opened Bits

  const KEY_BITS: nat := 64
  const MAP_SHIFT: nat := 2
  const MAP_SIZE: nat := 4
  const DIGITS: nat := 32

  datatype Tree = Nil | Leaf(key: nat, value: nat) | Node(kids: seq<Tree>)

  // ----- digits

  function Shift(depth: nat): nat
    requires depth < DIGITS
  {
    KEY_BITS - (depth + 1) * MAP_SHIFT
  }

  /** `(key & mask) >> shift` with `mask = 3 << shift`. */
  function Digit(key: nat, depth: nat): nat
    requires depth < DIGITS
  {
    Shr(And(key, 3 * Pow2(Shift(depth))), Shift(depth))
  }

  lemma {:induction false} ShiftedMask(key: nat, s: nat)
    ensures Shr(And(key, 3 * Pow2(s)), s) == Shr(key, s) % 4
    decreases s
  {
    if s == 0 {
      AndThree(key);
    } else {
      ShiftedMask(key / 2, s - 1);
      var m := 3 * Pow2(s - 1);
      assert 3 * Pow2(s) == 2 * m;
      hide Pow2;
      AndEven(key, m);
      assert (And(key, 2 * m)) / 2 == And(key / 2, m);
    }
  }

  lemma AndEven(x: nat, m: nat)
    ensures And(x, 2 * m) == 2 * And(x / 2, m)
  {
    assert (2 * m) / 2 == m && (2 * m) % 2 == 0;
  }

  lemma AndThree(key: nat)
    ensures And(key, 3) == key % 4
  {
    assert And(key, 3) == (if key == 0 then 0 else key % 2 + 2 * And(key / 2, 1));
    assert And(key / 2, 1) == (if key / 2 == 0 then 0 else (key / 2) % 2 + 2 * And(key / 4, 0));
    AndZero(key / 4);
  }

  lemma DigitIsMod(key: nat, depth: nat)
    requires depth < DIGITS
    ensures Digit(key, depth) == Shr(key, Shift(depth)) % 4 < MAP_SIZE
  {
    ShiftedMask(key, Shift(depth));
  }

  /** The first `depth` digits of two keys are the same. */
  predicate Agree(j: nat, k: nat, depth: nat)
    requires depth <= DIGITS
  {
    Shr(j, KEY_BITS - depth * MAP_SHIFT) == Shr(k, KEY_BITS - depth * MAP_SHIFT)
  }

  lemma AgreeNext(j: nat, k: nat, depth: nat)
    requires depth < DIGITS
    ensures Agree(j, k, depth + 1) <==> Agree(j, k, depth) && Digit(j, depth) == Digit(k, depth)
  {
    var s := Shift(depth);
    DigitIsMod(j, depth);
    DigitIsMod(k, depth);
    ShrShr(j, s, 2);
    ShrShr(k, s, 2);
    ShrTwo(Shr(j, s));
    ShrTwo(Shr(k, s));
  }

  lemma ShrTwo(x: nat)
    ensures Shr(x, 2) == x / 4
  {
    assert Shr(x, 2) == Shr(x / 2, 1) == Shr(x / 2 / 2, 0);
  }

  /** All 64-bit keys agree on no digits, and keys that agree on all digits are equal. */
  lemma AgreeEnds(j: nat, k: nat)
    ensures j < Pow2(KEY_BITS) && k < Pow2(KEY_BITS) ==> Agree(j, k, 0)
    ensures Agree(j, k, DIGITS) ==> j == k
  {
    ShrSmall(j, KEY_BITS);
    ShrSmall(k, KEY_BITS);
  }

  lemma {:induction false} ShrSmall(x: nat, s: nat)
    ensures x < Pow2(s) ==> Shr(x, s) == 0
  {
    if s > 0 {
      ShrSmall(x / 2, s - 1);
    }
  }

  // ----- the operations, as the code rewrites the tree

  /** The path of `key` through `t` never runs past the last digit. */
  predicate Room(t: Tree, key: nat, depth: nat)
    requires depth <= DIGITS
    decreases DIGITS - depth
  {
    match t
    case Nil => true
    case Leaf(k, _) => Agree(k, key, depth)
    case Node(kids) =>
      && depth < DIGITS && |kids| == MAP_SIZE
      && (DigitIsMod(key, depth); Room(kids[Digit(key, depth)], key, depth + 1))
  }

  lemma SplitDepth(j: nat, k: nat, depth: nat)
    requires depth <= DIGITS && Agree(j, k, depth) && j != k
    ensures depth < DIGITS && Digit(j, depth) < MAP_SIZE && Digit(k, depth) < MAP_SIZE
    ensures Digit(j, depth) == Digit(k, depth) ==> Agree(j, k, depth + 1)
  {
    AgreeEnds(j, k);
    AgreeNext(j, k, depth);
    DigitIsMod(j, depth);
    DigitIsMod(k, depth);
  }

  const EMPTY: seq<Tree> := [Nil, Nil, Nil, Nil]

  /** `rxtree_insert_node`. */
  function Insert(t: Tree, key: nat, value: nat, depth: nat): Tree
    requires depth <= DIGITS && Room(t, key, depth)
    decreases DIGITS - depth
  {
    match t
    case Nil => Leaf(key, value)
    case Leaf(k, u) =>
      if k == key then Leaf(key, value)
      else
        SplitDepth(k, key, depth);
        var i, j := Digit(key, depth), Digit(k, depth);
        if i == j
        then Node(EMPTY[i := Insert(Leaf(key, value), k, u, depth + 1)])
        else Node(EMPTY[i := Leaf(key, value)][j := Leaf(k, u)])
    case Node(kids) =>
      DigitIsMod(key, depth);
      var i := Digit(key, depth);
      Node(kids[i := Insert(kids[i], key, value, depth + 1)])
  }

  /** `rxtree_lookup`; 0 is the null pointer. */
  function Lookup(t: Tree, key: nat, depth: nat): nat
    requires depth <= DIGITS && Room(t, key, depth)
    decreases DIGITS - depth
  {
    match t
    case Nil => 0
    case Leaf(k, u) => if k == key then u else 0
    case Node(kids) =>
      DigitIsMod(key, depth);
      Lookup(kids[Digit(key, depth)], key, depth + 1)
  }

  /** Number of non-null children. */
  function Count(kids: seq<Tree>): nat {
    if kids == [] then 0 else Count(kids[..|kids| - 1]) + (if kids[|kids| - 1].Nil? then 0 else 1)
  }

  /** The last non-null child. */
  function LastChild(kids: seq<Tree>): Tree {
    if kids == [] then Nil
    else if kids[|kids| - 1].Nil? then LastChild(kids[..|kids| - 1])
    else kids[|kids| - 1]
  }

  function Collapse(kids: seq<Tree>): Tree {
    if Count(kids) == 1 && LastChild(kids).Leaf? then LastChild(kids)
    else if Count(kids) == 0 then Nil
    else Node(kids)
  }

  /** `rxtree_delete_node`; the flag is false for -EINVAL. */
  function Delete(t: Tree, key: nat, depth: nat): (Tree, bool)
    requires depth <= DIGITS && Room(t, key, depth)
    decreases DIGITS - depth
  {
    match t
    case Nil => (Nil, false)
    case Leaf(k, _) => if k == key then (Nil, true) else (t, false)
    case Node(kids) =>
      DigitIsMod(key, depth);
      var i := Digit(key, depth);
      var (kid, ok) := Delete(kids[i], key, depth + 1);
      if ok then (Collapse(kids[i := kid]), true) else (Node(kids[i := kid]), false)
  }

  // ----- canonical trees

  /** The keys of `m` whose digit at `depth` is `i`. */
  function Class(m: map<nat, nat>, depth: nat, i: nat): map<nat, nat>
    requires depth < DIGITS
  {
    map k | k in m && Digit(k, depth) == i :: m[k]
  }

  ghost predicate Many(m: map<nat, nat>) {
    exists j, k :: j in m && k in m && j != k
  }

  ghost predicate Prefixed(m: map<nat, nat>, key: nat, depth: nat)
    requires depth <= DIGITS
  {
    forall k | k in m :: Agree(k, key, depth)
  }

  /**
   `t` is the tree of the map `m` at this depth: nothing for no key, a leaf for a single
   key, and otherwise an inner node over the digit classes.
   */
  ghost predicate Canon(t: Tree, m: map<nat, nat>, depth: nat)
    requires depth <= DIGITS
    decreases t
  {
    match t
    case Nil => m == map[]
    case Leaf(k, u) => m == map[k := u]
    case Node(kids) =>
      && depth < DIGITS && |kids| == MAP_SIZE && Many(m)
      && forall i | 0 <= i < MAP_SIZE :: Canon(kids[i], Class(m, depth, i), depth + 1)
  }

  lemma NoSingleton(t: Tree, m: map<nat, nat>)
    requires m == map[]
    ensures t.Leaf? ==> m != map[t.key := t.value]
  {
    assert t.Leaf? ==> t.key in map[t.key := t.value];
  }

  /** The shape is a function of the map. */
  lemma {:induction false} CanonUnique(s: Tree, t: Tree, m: map<nat, nat>, depth: nat)
    requires depth <= DIGITS && Canon(s, m, depth) && Canon(t, m, depth)
    ensures s == t
    decreases s
  {
    match s
    case Nil =>
      NoSingleton(t, m);
    case Leaf(k, u) =>
      assert k in m;
      if t.Leaf? {
        assert t.key in m;
      }
    case Node(kids) =>
      assert Many(m) && t.Node?;
      forall i | 0 <= i < MAP_SIZE
        ensures kids[i] == t.kids[i]
      {
        CanonUnique(kids[i], t.kids[i], Class(m, depth, i), depth + 1);
      }
  }

  lemma {:induction false} CanonRoom(t: Tree, m: map<nat, nat>, key: nat, depth: nat)
    requires depth <= DIGITS && Canon(t, m, depth) && Prefixed(m, key, depth)
    ensures Room(t, key, depth)
    decreases DIGITS - depth
  {
    match t
    case Nil =>
    case Leaf(k, _) =>
      assert k in m;
    case Node(kids) =>
      var i := Digit(key, depth);
      DigitIsMod(key, depth);
      ClassPrefixed(m, key, depth);
      CanonRoom(kids[i], Class(m, depth, i), key, depth + 1);
  }

  lemma ClassPrefixed(m: map<nat, nat>, key: nat, depth: nat)
    requires depth < DIGITS && Prefixed(m, key, depth)
    ensures Prefixed(Class(m, depth, Digit(key, depth)), key, depth + 1)
  {
    forall k | k in Class(m, depth, Digit(key, depth))
      ensures Agree(k, key, depth + 1)
    {
      AgreeNext(k, key, depth);
    }
  }

  /** Keys of another class are not affected by what happens to `key`. */
  lemma ClassUpdates(m: map<nat, nat>, key: nat, value: nat, depth: nat, i: nat)
    requires depth < DIGITS
    ensures Class(m[key := value], depth, i)
              == if Digit(key, depth) == i then Class(m, depth, i)[key := value] else Class(m, depth, i)
    ensures Class(m - {key}, depth, i)
              == if Digit(key, depth) == i then Class(m, depth, i) - {key} else Class(m, depth, i)
  {
  }

  lemma CanonPair(j: nat, u: nat, k: nat, v: nat, depth: nat)
    requires depth < DIGITS && j != k && Digit(j, depth) != Digit(k, depth)
    requires Digit(j, depth) < MAP_SIZE && Digit(k, depth) < MAP_SIZE
    ensures Canon(Node(EMPTY[Digit(j, depth) := Leaf(j, u)][Digit(k, depth) := Leaf(k, v)]), map[j := u, k := v], depth)
  {
    var m := map[j := u, k := v];
    assert j in m && k in m;
  }

  lemma CanonShared(j: nat, k: nat, m: map<nat, nat>, kid: Tree, depth: nat)
    requires depth < DIGITS && j != k && Digit(j, depth) == Digit(k, depth) < MAP_SIZE
    requires m.Keys == {j, k} && Canon(kid, m, depth + 1)
    ensures Canon(Node(EMPTY[Digit(j, depth) := kid]), m, depth)
  {
    assert j in m && k in m;
    forall i | 0 <= i < MAP_SIZE
      ensures Canon(EMPTY[Digit(j, depth) := kid][i], Class(m, depth, i), depth + 1)
    {
      if i == Digit(j, depth) {
        assert Class(m, depth, i) == m;
      } else {
        assert Class(m, depth, i) == map[];
      }
    }
  }

  /** Inserting into the tree of a map gives the tree of the updated map. */
  lemma {:induction false} InsertCanon(t: Tree, m: map<nat, nat>, key: nat, value: nat, depth: nat)
    requires depth <= DIGITS && Canon(t, m, depth) && Prefixed(m, key, depth)
    ensures Room(t, key, depth) && Canon(Insert(t, key, value, depth), m[key := value], depth)
    decreases DIGITS - depth
  {
    CanonRoom(t, m, key, depth);
    match t
    case Nil =>
    case Leaf(k, u) =>
      if k != key {
        SplitDepth(k, key, depth);
        if Digit(k, depth) == Digit(key, depth) {
          InsertCanon(Leaf(key, value), map[key := value], k, u, depth + 1);
          assert m[key := value] == map[key := value][k := u];
          CanonShared(key, k, m[key := value], Insert(Leaf(key, value), k, u, depth + 1), depth);
        } else {
          assert m[key := value] == map[key := value, k := u];
          CanonPair(key, value, k, u, depth);
        }
      }
    case Node(kids) =>
      InsertNodeCanon(kids, m, key, value, depth);
  }

  lemma {:induction false} InsertNodeCanon(kids: seq<Tree>, m: map<nat, nat>, key: nat, value: nat, depth: nat)
    requires depth <= DIGITS && Canon(Node(kids), m, depth) && Prefixed(m, key, depth)
    ensures Room(Node(kids), key, depth) && Canon(Insert(Node(kids), key, value, depth), m[key := value], depth)
    decreases DIGITS - depth, 0
  {
    CanonRoom(Node(kids), m, key, depth);
    var d := Digit(key, depth);
    DigitIsMod(key, depth);
    ClassPrefixed(m, key, depth);
    InsertCanon(kids[d], Class(m, depth, d), key, value, depth + 1);
    var kids', m' := kids[d := Insert(kids[d], key, value, depth + 1)], m[key := value];
    var j, k :| j in m && k in m && j != k;
    assert j in m' && k in m';
    forall i | 0 <= i < MAP_SIZE
      ensures Canon(kids'[i], Class(m', depth, i), depth + 1)
    {
      ClassUpdates(m, key, value, depth, i);
    }
  }

  /** Looking up a key in the tree of a map finds what the map has, or nothing. */
  lemma {:induction false} LookupCanon(t: Tree, m: map<nat, nat>, key: nat, depth: nat)
    requires depth <= DIGITS && Canon(t, m, depth) && Prefixed(m, key, depth)
    ensures Room(t, key, depth) && Lookup(t, key, depth) == if key in m then m[key] else 0
    decreases DIGITS - depth
  {
    CanonRoom(t, m, key, depth);
    if t.Node? {
      var d := Digit(key, depth);
      DigitIsMod(key, depth);
      ClassPrefixed(m, key, depth);
      LookupCanon(t.kids[d], Class(m, depth, d), key, depth + 1);
    }
  }

  // ----- deletion

  lemma {:induction false} CountFacts(kids: seq<Tree>)
    ensures Count(kids) == 0 ==> forall i | 0 <= i < |kids| :: kids[i].Nil?
    ensures Count(kids) == 1 ==> forall i | 0 <= i < |kids| :: kids[i].Nil? || kids[i] == LastChild(kids)
    ensures Count(kids) > 0 ==> exists i :: 0 <= i < |kids| && kids[i] == LastChild(kids) && !kids[i].Nil?
    ensures Count(kids) > 1 ==> exists i, j :: 0 <= i < j < |kids| && !kids[i].Nil? && !kids[j].Nil?
  {
    if kids != [] {
      var n := |kids| - 1;
      CountFacts(kids[..n]);
      if Count(kids[..n]) > 0 {
        var i :| 0 <= i < n && kids[..n][i] == LastChild(kids[..n]) && !kids[..n][i].Nil?;
        assert kids[i] == kids[..n][i];
      }
      if Count(kids[..n]) > 1 {
        var i, j :| 0 <= i < j < n && !kids[..n][i].Nil? && !kids[..n][j].Nil?;
        assert kids[i] == kids[..n][i] && kids[j] == kids[..n][j];
      }
    }
  }

  /** With a key of `m` in class `i`, that child is not null; with a non-null child, `m` has a key of that class. */
  lemma ClassNonempty(kids: seq<Tree>, m: map<nat, nat>, depth: nat, i: nat)
    requires depth < DIGITS && i < |kids| && Canon(kids[i], Class(m, depth, i), depth + 1)
    ensures kids[i].Nil? <==> forall k | k in m :: Digit(k, depth) != i
  {
    if forall k | k in m :: Digit(k, depth) != i {
      assert Class(m, depth, i) == map[];
      if kids[i].Node? {
        assert !Many(map[]);
      }
      NoSingleton(kids[i], map[]);
    } else {
      var k :| k in m && Digit(k, depth) == i;
      assert k in Class(m, depth, i);
    }
  }

  ghost predicate AllKids(kids: seq<Tree>, m: map<nat, nat>, depth: nat)
    requires depth < DIGITS
  {
    |kids| == MAP_SIZE && forall i | 0 <= i < MAP_SIZE :: Canon(kids[i], Class(m, depth, i), depth + 1)
  }

  /** A node whose only child is `kids[i]` has all its keys there. */
  lemma OnlyChild(kids: seq<Tree>, m: map<nat, nat>, depth: nat, i: nat)
    requires depth < DIGITS && AllKids(kids, m, depth) && i < MAP_SIZE
    requires forall j | 0 <= j < MAP_SIZE && j != i :: kids[j].Nil?
    ensures Class(m, depth, i) == m
  {
    forall k | k in m
      ensures Digit(k, depth) == i
    {
      DigitIsMod(k, depth);
      ClassNonempty(kids, m, depth, Digit(k, depth));
    }
  }

  /** After a deletion that leaves keys: a lone leaf replaces the node, and the node is never left without children. */
  lemma CollapseCanon(kids: seq<Tree>, m: map<nat, nat>, depth: nat)
    requires depth < DIGITS && AllKids(kids, m, depth) && m != map[]
    ensures Count(kids) > 0 && Canon(Collapse(kids), m, depth)
  {
    CountFacts(kids);
    var k :| k in m;
    DigitIsMod(k, depth);
    ClassNonempty(kids, m, depth, Digit(k, depth));
    if Count(kids) == 1 {
      var i :| 0 <= i < |kids| && kids[i] == LastChild(kids) && !kids[i].Nil?;
      LoneChild(kids, i);
      OnlyChild(kids, m, depth, i);
    } else {
      var i, j :| 0 <= i < j < |kids| && !kids[i].Nil? && !kids[j].Nil?;
      ClassNonempty(kids, m, depth, i);
      ClassNonempty(kids, m, depth, j);
      var a :| a in m && Digit(a, depth) == i;
      var b :| b in m && Digit(b, depth) == j;
      assert a != b;
    }
  }

  lemma {:induction false} LoneChild(kids: seq<Tree>, i: nat)
    requires Count(kids) == 1 && i < |kids| && !kids[i].Nil?
    ensures forall j | 0 <= j < |kids| && j != i :: kids[j].Nil?
  {
    var n := |kids| - 1;
    CountFacts(kids[..n]);
    if i < n {
      assert kids[..n][i] == kids[i];
      LoneChild(kids[..n], i);
      forall j | 0 <= j < n && j != i
        ensures kids[j].Nil?
      {
        assert kids[..n][j] == kids[j];
      }
    } else {
      forall j | 0 <= j < n
        ensures kids[j].Nil?
      {
        assert kids[..n][j] == kids[j];
      }
    }
  }

  /** Deleting from the tree of a map gives the tree of the smaller map, and reports whether the key was there. */
  lemma {:induction false} DeleteCanon(t: Tree, m: map<nat, nat>, key: nat, depth: nat)
    requires depth <= DIGITS && Canon(t, m, depth) && Prefixed(m, key, depth)
    ensures Room(t, key, depth)
    ensures var (t', ok) := Delete(t, key, depth);
            && (ok <==> key in m)
            && Canon(t', m - {key}, depth)
            && (!ok ==> t' == t)
    decreases DIGITS - depth
  {
    CanonRoom(t, m, key, depth);
    match t
    case Nil =>
    case Leaf(k, _) =>
      assert k in m;
    case Node(kids) =>
      DeleteNodeCanon(kids, m, key, depth);
  }

  lemma {:induction false} DeleteNodeCanon(kids: seq<Tree>, m: map<nat, nat>, key: nat, depth: nat)
    requires depth <= DIGITS && Canon(Node(kids), m, depth) && Prefixed(m, key, depth)
    ensures Room(Node(kids), key, depth)
    ensures var (t', ok) := Delete(Node(kids), key, depth);
            (ok <==> key in m) && Canon(t', m - {key}, depth) && (!ok ==> t' == Node(kids))
    decreases DIGITS - depth, 0
  {
    hide Collapse;
    CanonRoom(Node(kids), m, key, depth);
    var d := Digit(key, depth);
    DigitIsMod(key, depth);
    ClassPrefixed(m, key, depth);
    DeleteCanon(kids[d], Class(m, depth, d), key, depth + 1);
    var (kid, ok) := Delete(kids[d], key, depth + 1);
    if ok {
      DeleteKids(kids, m, key, depth, kid);
    } else {
      assert kids[d := kid] == kids;
      assert m - {key} == m;
    }
  }

  lemma DeleteKids(kids: seq<Tree>, m: map<nat, nat>, key: nat, depth: nat, kid: Tree)
    requires depth < DIGITS && AllKids(kids, m, depth) && Many(m) && Digit(key, depth) < MAP_SIZE
    requires Canon(kid, Class(m, depth, Digit(key, depth)) - {key}, depth + 1)
    ensures var kids' := kids[Digit(key, depth) := kid];
            AllKids(kids', m - {key}, depth) && Count(kids') > 0 && Canon(Collapse(kids'), m - {key}, depth)
  {
    var kids', m' := kids[Digit(key, depth) := kid], m - {key};
    forall i | 0 <= i < MAP_SIZE
      ensures Canon(kids'[i], Class(m', depth, i), depth + 1)
    {
      ClassUpdates(m, key, 0, depth, i);
    }
    var j, k :| j in m && k in m && j != k;
    assert j in m' || k in m';
    CollapseCanon(kids', m', depth);
  }

  // ----- whole histories

  datatype Op = Put(key: nat, value: nat) | Remove(key: nat)

  ghost predicate Keys64(ops: seq<Op>) {
    forall op | op in ops :: op.key < Pow2(KEY_BITS)
  }

  function Replay(ops: seq<Op>): map<nat, nat> {
    if ops == [] then map[]
    else
      var m := Replay(ops[..|ops| - 1]);
      match ops[|ops| - 1]
      case Put(k, v) => m[k := v]
      case Remove(k) => m - {k}
  }

  /** One operation of the code. */
  ghost predicate Applied(s: Tree, op: Op, t: Tree) {
    Room(s, op.key, 0) && t == if op.Put? then Insert(s, op.key, op.value, 0) else Delete(s, op.key, 0).0
  }

  /** The trees along a history of operations on an initially empty tree. */
  ghost predicate IsHistory(trees: seq<Tree>, ops: seq<Op>) {
    && |trees| == |ops| + 1 && trees[0] == Nil
    && forall i | 0 <= i < |ops| :: Applied(trees[i], ops[i], trees[i + 1])
  }

  ghost predicate Map64(m: map<nat, nat>) {
    forall k | k in m :: k < Pow2(KEY_BITS)
  }

  lemma Map64Prefixed(m: map<nat, nat>, key: nat)
    requires Map64(m) && key < Pow2(KEY_BITS)
    ensures Prefixed(m, key, 0)
  {
    forall k | k in m
      ensures Agree(k, key, 0)
    {
      AgreeEnds(k, key);
    }
  }

  /** After any history the tree is the canonical tree of the surviving entries. */
  lemma {:induction false} HistoryCanon(trees: seq<Tree>, ops: seq<Op>)
    requires Keys64(ops) && IsHistory(trees, ops)
    ensures Canon(trees[|ops|], Replay(ops), 0) && Map64(Replay(ops))
    decreases |ops|
  {
    if ops != [] {
      var n := |ops| - 1;
      var op, m := ops[n], Replay(ops[..n]);
      hide Canon, Map64, Applied;
      HistoryCanon(trees[..n + 1], ops[..n]);
      assert Applied(trees[n], op, trees[n + 1]);
      AppliedCanon(trees[n], m, op, trees[n + 1]);
    }
  }

  /** One operation on the tree and on the map. */
  lemma AppliedCanon(s: Tree, m: map<nat, nat>, op: Op, t: Tree)
    requires Map64(m) && Canon(s, m, 0) && op.key < Pow2(KEY_BITS) && Applied(s, op, t)
    ensures var m' := if op.Put? then m[op.key := op.value] else m - {op.key};
            Canon(t, m', 0) && Map64(m')
  {
    hide Canon, Insert, Delete;
    Map64Prefixed(m, op.key);
    match op
    case Put(k, v) => InsertCanon(s, m, k, v, 0);
    case Remove(k) => DeleteCanon(s, m, k, 0);
  }

  /** The order of operations leaves no trace: histories with the same outcome end in the same tree. */
  lemma HistoryIndependent(ts: seq<Tree>, ops: seq<Op>, ts': seq<Tree>, ops': seq<Op>)
    requires Keys64(ops) && Keys64(ops') && IsHistory(ts, ops) && IsHistory(ts', ops')
    requires Replay(ops) == Replay(ops')
    ensures ts[|ops|] == ts'[|ops'|]
  {
    HistoryCanon(ts, ops);
    HistoryCanon(ts', ops');
    CanonUnique(ts[|ops|], ts'[|ops'|], Replay(ops), 0);
  }
}
