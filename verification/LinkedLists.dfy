/** Linked lists as sequences of the nodes on them. */
module LinkedLists {

  predicate NoDup<T(==)>(s: seq<T>) {
    forall i, j | 0 <= i < j < |s| :: s[i] != s[j]
  }

  /** Unlinking a node from its list. */
  function Remove(s: seq<nat>, x: nat): seq<nat> {
    if s == [] then [] else if s[0] == x then s[1..] else [s[0]] + Remove(s[1..], x)
  }

  lemma {:induction false} RemoveFacts(s: seq<nat>, x: nat)
    requires NoDup(s)
    ensures NoDup(Remove(s, x))
    ensures forall y: nat :: y in Remove(s, x) <==> y in s && y != x
    ensures |Remove(s, x)| == if x in s then |s| - 1 else |s|
  {
    if s != [] {
      RemoveFacts(s[1..], x);
      assert s == [s[0]] + s[1..];
      assert s[0] !in s[1..];
    }
  }

  lemma PushFacts(s: seq<nat>, x: nat)
    requires NoDup(s) && x !in s
    ensures NoDup([x] + s) && NoDup(s + [x])
  {
  }

  lemma PopFacts(s: seq<nat>)
    requires NoDup(s) && s != []
    ensures NoDup(s[1..])
    ensures forall p: nat :: p in s[1..] <==> p in s && p != s[0]
  {
  }

  /** Unlinking takes out one place and keeps the order of the others. */
  lemma {:induction false} RemoveAt(s: seq<nat>, x: nat) returns (i: nat)
    requires x in s
    ensures i < |s| && s[i] == x && Remove(s, x) == s[..i] + s[i + 1..]
  {
    if s[0] == x {
      i := 0;
    } else {
      var k := RemoveAt(s[1..], x);
      i := k + 1;
      assert s[..i] == [s[0]] + s[1..][..k] && s[i + 1..] == s[1..][k + 1..];
    }
  }

  /** `x` is taken out of the list and put to the front. */
  ghost predicate MovedToFront(lru: seq<nat>, x: nat, lru': seq<nat>) {
    exists i :: 0 <= i < |lru| && lru[i] == x && lru' == [x] + lru[..i] + lru[i + 1..]
  }

  /** `x` is taken out of the list and put to the tail. */
  ghost predicate MovedToTail(lru: seq<nat>, x: nat, lru': seq<nat>) {
    exists i :: 0 <= i < |lru| && lru[i] == x && lru' == lru[..i] + lru[i + 1..] + [x]
  }

  lemma FrontMoved(lru: seq<nat>, x: nat)
    requires x in lru
    ensures MovedToFront(lru, x, [x] + Remove(lru, x))
  {
    var i := RemoveAt(lru, x);
    assert [x] + Remove(lru, x) == [x] + lru[..i] + lru[i + 1..];
  }

  lemma TailMoved(lru: seq<nat>, x: nat)
    requires x in lru
    ensures MovedToTail(lru, x, Remove(lru, x) + [x])
  {
    var i := RemoveAt(lru, x);
  }
}
