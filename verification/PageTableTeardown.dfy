/** The table pages of a page-table tree, in the order in which teardown frees them. */
module PageTableTeardown {
  import opened LinkedLists
  import opened PageTableSpec

  /** The tables at and below `p`, children before parents. */
  function Tables(mem: Mem, p: nat, level: nat): seq<nat>
    decreases level, ENTRIES + 1
  {
    if level == 0 then [p] else KidTables(mem, p, level, ENTRIES) + [p]
  }

  /** The tables below the first `n` entries of `p`. */
  function KidTables(mem: Mem, p: nat, level: nat, n: nat): seq<nat>
    requires level > 0 && n <= ENTRIES
    decreases level, n
  {
    if n == 0 then []
    else KidTables(mem, p, level, n - 1) + KidOf(mem, p, level, n - 1)
  }

  function KidOf(mem: Mem, p: nat, level: nat, i: nat): seq<nat>
    requires level > 0 && i < ENTRIES
    decreases level, 0
  {
    if p in mem && |mem[p]| == ENTRIES && IsValid(mem[p][i]) then Tables(mem, Child(mem[p][i]), level - 1) else []
  }

  /** The level of the table at a path. */
  function LevelOf(path: Path): nat {
    if path.Root? then 2 else if path.Mid? then 1 else 0
  }

  /** `q` is the path `p` or lies below it. */
  predicate Under(p: Path, q: Path) {
    match p
    case Root => true
    case Mid(i) => q == p || (q.Low? && q.i == i)
    case Low(_, _) => q == p
  }

  /** `s` lists exactly the tables under `path`, each once. */
  ghost predicate Lists(s: seq<nat>, owner: map<nat, Path>, path: Path) {
    NoDup(s) && forall q :: q in s <==> q in owner && Under(path, owner[q])
  }

  /** The tables strictly below the first `n` entries of the table at `path`. */
  ghost predicate ListsKids(s: seq<nat>, owner: map<nat, Path>, path: Path, n: nat)
    requires !path.Low?
  {
    NoDup(s) && forall q :: q in s <==> q in owner && BelowFirst(path, n, owner[q])
  }

  predicate BelowFirst(path: Path, n: nat, q: Path)
    requires !path.Low?
  {
    if path.Root? then (q.Mid? || q.Low?) && q.i < n else q.Low? && q.i == path.i && q.j < n
  }

  lemma ConcatNoDup(a: seq<nat>, b: seq<nat>)
    requires NoDup(a) && NoDup(b) && forall x | x in a :: x !in b
    ensures NoDup(a + b)
  {
    forall i, j | 0 <= i < j < |a + b|
      ensures (a + b)[i] != (a + b)[j]
    {
      if i < |a| <= j {
        assert a[i] in a && b[j - |a|] in b;
      }
    }
  }

  lemma {:induction false} TablesListed(mem: Mem, root: nat, owner: map<nat, Path>, p: nat)
    requires Shaped(mem, root, owner) && p in owner
    ensures Lists(Tables(mem, p, LevelOf(owner[p])), owner, owner[p])
    decreases LevelOf(owner[p]), ENTRIES + 1
  {
    var path := owner[p];
    if path.Low? {
      OnlyOwner(mem, root, owner, p);
    } else {
      KidsListed(mem, root, owner, p, ENTRIES);
      var kids := KidTables(mem, p, LevelOf(path), ENTRIES);
      assert p !in kids;
      ConcatNoDup(kids, [p]);
      forall q
        ensures q in kids + [p] <==> q in owner && Under(path, owner[q])
      {
        if q in owner {
          IndicesInRange(mem, root, owner, q);
          if owner[q] == path {
            SamePath(mem, root, owner, p, q);
          }
        }
      }
    }
  }

  /** Two tables with the same path are the same table. */
  lemma SamePath(mem: Mem, root: nat, owner: map<nat, Path>, p: nat, q: nat)
    requires Shaped(mem, root, owner) && p in owner && q in owner && owner[p] == owner[q]
    ensures p == q
  {
    assert Leads(mem, root, owner[p], p) && Leads(mem, root, owner[q], q);
  }

  lemma OnlyOwner(mem: Mem, root: nat, owner: map<nat, Path>, p: nat)
    requires Shaped(mem, root, owner) && p in owner && owner[p].Low?
    ensures Lists([p], owner, owner[p])
  {
    forall q | q in owner && owner[q] == owner[p]
      ensures q == p
    {
      SamePath(mem, root, owner, p, q);
    }
  }

  lemma IndicesInRange(mem: Mem, root: nat, owner: map<nat, Path>, q: nat)
    requires Shaped(mem, root, owner) && q in owner
    ensures !owner[q].Root? ==> owner[q].i < ENTRIES
    ensures owner[q].Low? ==> owner[q].j < ENTRIES
  {
    assert Leads(mem, root, owner[q], q);
    if owner[q].Low? {
      var m := Child(mem[root][owner[q].i]);
      assert m in owner;
    }
  }

  lemma {:induction false} KidsListed(mem: Mem, root: nat, owner: map<nat, Path>, p: nat, n: nat)
    requires Shaped(mem, root, owner) && p in owner && !owner[p].Low? && n <= ENTRIES
    ensures ListsKids(KidTables(mem, p, LevelOf(owner[p]), n), owner, owner[p], n)
    decreases LevelOf(owner[p]), n
  {
    if n > 0 {
      KidsListed(mem, root, owner, p, n - 1);
      KidListed(mem, root, owner, p, n - 1);
      NextKid(mem, owner, p, n - 1);
    }
  }

  lemma NextKid(mem: Mem, owner: map<nat, Path>, p: nat, n: nat)
    requires p in owner && !owner[p].Low? && n < ENTRIES
    requires ListsKids(KidTables(mem, p, LevelOf(owner[p]), n), owner, owner[p], n)
    requires Lists(KidOf(mem, p, LevelOf(owner[p]), n), owner, Below(owner[p], n))
    ensures ListsKids(KidTables(mem, p, LevelOf(owner[p]), n + 1), owner, owner[p], n + 1)
  {
    hide ListsKids, Lists, KidOf;
    AppendKid(owner, owner[p], n, KidTables(mem, p, LevelOf(owner[p]), n), KidOf(mem, p, LevelOf(owner[p]), n));
  }

  lemma AppendKid(owner: map<nat, Path>, path: Path, n: nat, a: seq<nat>, b: seq<nat>)
    requires !path.Low? && ListsKids(a, owner, path, n)
    requires Lists(b, owner, Below(path, n))
    ensures ListsKids(a + b, owner, path, n + 1)
  {
    forall q | q in owner
      ensures BelowFirst(path, n + 1, owner[q]) <==> BelowFirst(path, n, owner[q]) || Under(Below(path, n), owner[q])
      ensures !(BelowFirst(path, n, owner[q]) && Under(Below(path, n), owner[q]))
    {
    }
    ConcatNoDup(a, b);
  }

  lemma {:induction false} KidListed(mem: Mem, root: nat, owner: map<nat, Path>, p: nat, i: nat)
    requires Shaped(mem, root, owner) && p in owner && !owner[p].Low? && i < ENTRIES
    ensures var s := KidOf(mem, p, LevelOf(owner[p]), i);
            Lists(s, owner, Below(owner[p], i))
    decreases LevelOf(owner[p]), 0
  {
    if IsValid(mem[p][i]) {
      TablesListed(mem, root, owner, Child(mem[p][i]));
    } else {
      forall q | q in owner
        ensures !Under(Below(owner[p], i), owner[q])
      {
        assert Leads(mem, root, owner[q], q) && Leads(mem, root, owner[p], p);
      }
    }
  }
}
