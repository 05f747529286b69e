/**
 The split virtqueue as a protocol between driver and device (VirtIO 1.1, section 2.6),
 on values: who owns which descriptors, in what order requests move, and what any
 interleaving of driver and device steps keeps.
 */
module VirtqProtocol {
  import opened LinkedLists

  /** What one descriptor of a chain shows the device. */
  datatype Seg = Seg(addr: nat, len: nat, write: bool)

  /** A request: the descriptors it occupies, what they describe, and the caller's token.  `id` counts requests. */
  datatype Req = Req(id: nat, chain: seq<nat>, segs: seq<Seg>, token: nat)

  /** A request the device has finished, with the byte count it reported. */
  datatype Used = Used(req: Req, len: nat)

  /**
   `free` is the driver's free list in link order; `posted` is in the available ring and
   not yet seen by the device, `held` is being worked on by the device, `done` is in the
   used ring and not yet reaped.  `log` and `returned` are the requests ever added and
   ever handed back.
   */
  datatype Queue = Queue(free: seq<nat>, posted: seq<Req>, held: seq<Req>, done: seq<Used>,
                         log: seq<Req>, returned: seq<Req>)
  {
    function Added(): nat { |log| }
    function Taken(): int { |log| - |posted| }
    function Completed(): nat { |returned| + |done| }
    function Reaped(): nat { |returned| }
    function Outstanding(): seq<Req> { posted + held + Reqs(done) }
  }

  function Reqs(us: seq<Used>): (rs: seq<Req>)
    ensures |rs| == |us| && forall i | 0 <= i < |us| :: rs[i] == us[i].req
  {
    seq(|us|, i requires 0 <= i < |us| => us[i].req)
  }

  datatype Event =
    | Add(segs: seq<Seg>, token: nat)
    | Refuse(segs: seq<Seg>)
    | Take
    | Complete(index: nat, len: nat)
    | Get

  function NewReq(q: Queue, segs: seq<Seg>, token: nat): Req
    requires |segs| <= |q.free|
  {
    Req(|q.log|, q.free[..|segs|], segs, token)
  }

  function Reverse<T>(s: seq<T>): (r: seq<T>)
    ensures |r| == |s|
  {
    if s == [] then [] else Reverse(s[1..]) + [s[0]]
  }

  /** One step of the driver or of the device. */
  ghost predicate Step(q: Queue, e: Event, q': Queue) {
    match e
    case Add(segs, token) =>
      && 1 <= |segs| <= |q.free|
      && var r := NewReq(q, segs, token);
         q' == q.(free := q.free[|segs|..], posted := q.posted + [r], log := q.log + [r])
    case Refuse(segs) =>
      |segs| > |q.free| && q' == q
    case Take =>
      && q.posted != []
      && q' == q.(posted := q.posted[1..], held := q.held + [q.posted[0]])
    case Complete(i, len) =>
      && i < |q.held|
      && q' == q.(held := q.held[..i] + q.held[i + 1..], done := q.done + [Used(q.held[i], len)])
    case Get =>
      && q.done != []
      && q' == q.(free := Reverse(q.done[0].req.chain) + q.free, done := q.done[1..],
                  returned := q.returned + [q.done[0].req])
  }

  function InitialQueue(num: nat): Queue {
    Queue(seq(num, i => i), [], [], [], [], [])
  }

  // ----- the protocol invariant

  /** The descriptors of a list of requests, with multiplicity. */
  function Bag(rs: seq<Req>): multiset<nat> {
    if rs == [] then multiset{} else multiset(rs[0].chain) + Bag(rs[1..])
  }

  /** Each of the descriptors 0 .. num-1 once. */
  function Full(num: nat): (b: multiset<nat>)
    ensures forall d: nat :: b[d] == if d < num then 1 else 0
    ensures |b| == num
  {
    if num == 0 then multiset{} else Full(num - 1) + multiset{num - 1}
  }

  /** All descriptors, counted once for each place that owns them. */
  function Descriptors(q: Queue): multiset<nat> {
    multiset(q.free) + Bag(q.posted) + Bag(q.held) + Bag(Reqs(q.done))
  }

  /** All requests, counted once for each stage they are in. */
  function Requests(q: Queue): multiset<Req> {
    multiset(q.returned) + multiset(q.posted) + multiset(q.held) + multiset(Reqs(q.done))
  }

  ghost predicate WellFormed(r: Req) {
    |r.chain| == |r.segs| && r.chain != []
  }

  /**
   Free descriptors and the chains of outstanding requests partition all descriptors;
   every request ever added is either outstanding or returned, exactly once; the unseen
   requests are the newest ones, in order.
   */
  ghost predicate Inv(num: nat, q: Queue) {
    && Descriptors(q) == Full(num)
    && Requests(q) == multiset(q.log)
    && (forall i | 0 <= i < |q.log| :: q.log[i].id == i && WellFormed(q.log[i]))
    && |q.posted| <= |q.log| && q.posted == q.log[|q.log| - |q.posted|..]
  }

  lemma {:induction false} BagConcat(a: seq<Req>, b: seq<Req>)
    ensures Bag(a + b) == Bag(a) + Bag(b)
  {
    if a == [] {
      assert a + b == b;
    } else {
      BagConcat(a[1..], b);
      BagStep(a[0], a[1..], b);
      assert a == [a[0]] + a[1..];
    }
  }

  lemma BagStep(r: Req, t: seq<Req>, b: seq<Req>)
    requires Bag(t + b) == Bag(t) + Bag(b)
    ensures Bag([r] + t + b) == Bag([r] + t) + Bag(b)
  {
    hide Bag;
    assert [r] + t + b == [r] + (t + b);
    BagPrepend(r, t);
    BagPrepend(r, t + b);
  }

  lemma BagPrepend(r: Req, s: seq<Req>)
    ensures Bag([r] + s) == multiset(r.chain) + Bag(s)
  {
    assert ([r] + s)[1..] == s;
  }

  lemma BagCons(a: seq<Req>)
    requires a != []
    ensures Bag(a) == multiset(a[0].chain) + Bag(a[1..])
  {
  }

  lemma {:induction false} BagAt(rs: seq<Req>, i: nat)
    requires i < |rs|
    ensures Bag(rs) == multiset(rs[i].chain) + Bag(rs[..i] + rs[i + 1..])
  {
    assert rs == rs[..i] + ([rs[i]] + rs[i + 1..]);
    BagConcat(rs[..i], [rs[i]] + rs[i + 1..]);
    BagConcat([rs[i]], rs[i + 1..]);
    BagConcat(rs[..i], rs[i + 1..]);
    assert [rs[i]][1..] == [];
  }

  lemma SeqSplit<T>(s: seq<T>, i: nat)
    requires i <= |s|
    ensures multiset(s) == multiset(s[..i]) + multiset(s[i..])
  {
    assert s == s[..i] + s[i..];
  }

  lemma {:induction false} ReverseBag<T>(s: seq<T>)
    ensures multiset(Reverse(s)) == multiset(s)
  {
    if s != [] {
      ReverseBag(s[1..]);
      assert s == [s[0]] + s[1..];
    }
  }

  lemma BagOne(r: Req)
    ensures Bag([r]) == multiset(r.chain)
  {
    assert [r][1..] == [];
  }

  lemma AddOwners(q: Queue, segs: seq<Seg>, token: nat, q': Queue)
    requires Step(q, Add(segs, token), q')
    ensures Descriptors(q') == Descriptors(q) && Requests(q') == Requests(q) + multiset{NewReq(q, segs, token)}
  {
    var r := NewReq(q, segs, token);
    SeqSplit(q.free, |segs|);
    BagConcat(q.posted, [r]);
    BagOne(r);
  }

  lemma TakeOwners(q: Queue, q': Queue)
    requires Step(q, Take, q')
    ensures Descriptors(q') == Descriptors(q) && Requests(q') == Requests(q)
  {
    var r := q.posted[0];
    hide Bag, Reqs;
    BagCons(q.posted);
    BagConcat(q.held, [r]);
    BagOne(r);
    TakenRequests(q, q');
  }

  lemma TakenRequests(q: Queue, q': Queue)
    requires Step(q, Take, q')
    ensures Requests(q') == Requests(q)
  {
    hide Reqs;
    assert q.posted == [q.posted[0]] + q.posted[1..];
  }

  lemma CompleteOwners(q: Queue, i: nat, len: nat, q': Queue)
    requires Step(q, Complete(i, len), q')
    ensures Descriptors(q') == Descriptors(q) && Requests(q') == Requests(q)
  {
    var r := q.held[i];
    assert Reqs(q'.done) == Reqs(q.done) + [r];
    hide Bag, Reqs;
    BagAt(q.held, i);
    BagConcat(Reqs(q.done), [r]);
    BagOne(r);
    CompletedRequests(q, i, q');
  }

  lemma CompletedRequests(q: Queue, i: nat, q': Queue)
    requires i < |q.held| && q'.held == q.held[..i] + q.held[i + 1..]
    requires Reqs(q'.done) == Reqs(q.done) + [q.held[i]] && q'.posted == q.posted && q'.returned == q.returned
    ensures Requests(q') == Requests(q)
  {
    hide Reqs;
    MovedOut(q.held, i);
    MovedIn(Reqs(q.done), q.held[i]);
  }

  lemma MovedOut<T>(s: seq<T>, i: nat)
    requires i < |s|
    ensures multiset(s) == multiset(s[..i] + s[i + 1..]) + multiset{s[i]}
  {
    assert s == s[..i] + [s[i]] + s[i + 1..];
  }

  lemma MovedIn<T>(s: seq<T>, x: T)
    ensures multiset(s + [x]) == multiset(s) + multiset{x}
  {
  }

  lemma GetOwners(q: Queue, q': Queue)
    requires Step(q, Get, q')
    ensures Descriptors(q') == Descriptors(q) && Requests(q') == Requests(q)
  {
    var r := q.done[0].req;
    assert Reqs(q.done) == [r] + Reqs(q'.done);
    BagConcat([r], Reqs(q'.done));
    BagOne(r);
    ReverseBag(r.chain);
  }

  lemma SuffixPush<T>(s: seq<T>, n: nat, x: T)
    requires n <= |s|
    ensures (s + [x])[|s + [x]| - (n + 1)..] == s[|s| - n..] + [x]
  {
  }

  lemma SuffixPop<T>(s: seq<T>, n: nat)
    requires 0 < n <= |s|
    ensures s[|s| - n..][1..] == s[|s| - (n - 1)..]
  {
  }

  lemma AddKeeps(num: nat, q: Queue, segs: seq<Seg>, token: nat, q': Queue)
    requires Inv(num, q) && Step(q, Add(segs, token), q')
    ensures Inv(num, q')
  {
    hide Descriptors, Requests, Full;
    var r := NewReq(q, segs, token);
    AddOwners(q, segs, token, q');
    SuffixPush(q.log, |q.posted|, r);
    MovedIn(q.log, r);
  }

  /** Every step of driver or device keeps the invariant. */
  lemma StepKeeps(num: nat, q: Queue, e: Event, q': Queue)
    requires Inv(num, q) && Step(q, e, q')
    ensures Inv(num, q')
  {
    hide Descriptors, Requests, Full;
    match e
    case Add(segs, token) => AddKeeps(num, q, segs, token, q');
    case Refuse(_) =>
    case Take =>
      TakeOwners(q, q');
      SuffixPop(q.log, |q.posted|);
    case Complete(i, len) => CompleteOwners(q, i, len, q');
    case Get => GetOwners(q, q');
  }

  lemma {:induction false} IdentityBag(num: nat)
    ensures multiset(seq(num, i => i)) == Full(num)
  {
    if num > 0 {
      IdentityBag(num - 1);
      assert seq(num, i => i) == seq(num - 1, i => i) + [num - 1];
    }
  }

  lemma InitialInv(num: nat)
    ensures Inv(num, InitialQueue(num))
  {
    IdentityBag(num);
  }

  // ----- what the invariant means

  lemma NoDupFromBag<T>(s: seq<T>)
    requires forall d | d in s :: multiset(s)[d] <= 1
    ensures NoDup(s)
  {
    forall i, j | 0 <= i < j < |s|
      ensures s[i] != s[j]
    {
      SeqSplit(s, j);
      assert s[i] in s[..j] && s[j] in s[j..];
      assert s[i] in s && s[j] in s;
    }
  }

  /** Outstanding requests counted at one place. */
  lemma Parts(q: Queue)
    ensures Bag(q.Outstanding()) == Bag(q.posted) + Bag(q.held) + Bag(Reqs(q.done))
    ensures multiset(q.Outstanding()) == multiset(q.posted) + multiset(q.held) + multiset(Reqs(q.done))
  {
    BagConcat(q.posted + q.held, Reqs(q.done));
    BagConcat(q.posted, q.held);
  }

  lemma ChainInBag(rs: seq<Req>, i: nat)
    requires i < |rs|
    ensures multiset(rs[i].chain) <= Bag(rs)
  {
    BagAt(rs, i);
  }

  lemma TwoChainsInBag(rs: seq<Req>, i: nat, j: nat)
    requires i < j < |rs|
    ensures multiset(rs[i].chain) + multiset(rs[j].chain) <= Bag(rs)
  {
    BagAt(rs, j);
    ChainInBag(rs[..j] + rs[j + 1..], i);
  }

  ghost predicate Disjoint(a: seq<nat>, b: seq<nat>) {
    forall d | d in a :: d !in b
  }

  lemma BagDisjoint(a: seq<nat>, b: seq<nat>)
    requires forall d: nat :: (multiset(a) + multiset(b))[d] <= 1
    ensures Disjoint(a, b)
  {
    forall d | d in a
      ensures d !in b
    {
      assert (multiset(a) + multiset(b))[d] <= 1;
    }
  }

  lemma AllOwned(num: nat, q: Queue)
    requires Inv(num, q)
    ensures multiset(q.free) + Bag(q.Outstanding()) == Full(num)
  {
    Parts(q);
  }

  lemma FreeListSound(num: nat, q: Queue)
    requires Inv(num, q)
    ensures NoDup(q.free) && forall d | d in q.free :: d < num
  {
    AllOwned(num, q);
    FullSound(num, q.free, Bag(q.Outstanding()));
  }

  lemma FullSound(num: nat, s: seq<nat>, rest: multiset<nat>)
    requires multiset(s) + rest == Full(num)
    ensures NoDup(s) && forall d | d in s :: d < num
  {
    assert multiset(s) <= Full(num);
    NoDupFromBag(s);
    forall d | d in s
      ensures d < num
    {
      assert multiset(s)[d] <= Full(num)[d];
    }
  }

  /** No outstanding chain runs through a descriptor twice or through a free descriptor. */
  lemma ChainSound(num: nat, q: Queue, i: nat)
    requires Inv(num, q) && i < |q.Outstanding()|
    ensures var c := q.Outstanding()[i].chain;
            NoDup(c) && Disjoint(c, q.free) && forall d | d in c :: d < num
  {
    AllOwned(num, q);
    ChainInBag(q.Outstanding(), i);
    var c := q.Outstanding()[i].chain;
    assert multiset(c) + multiset(q.free) <= Full(num) && multiset(c) <= Full(num);
    NoDupFromBag(c);
    forall d | d in c
      ensures d < num
    {
      assert multiset(c)[d] <= Full(num)[d];
    }
    BagDisjoint(c, q.free);
  }

  /** No descriptor is in two outstanding chains. */
  lemma ChainsDisjoint(num: nat, q: Queue, i: nat, j: nat)
    requires Inv(num, q) && i < j < |q.Outstanding()|
    ensures Disjoint(q.Outstanding()[i].chain, q.Outstanding()[j].chain)
  {
    AllOwned(num, q);
    TwoChainsInBag(q.Outstanding(), i, j);
    var b := multiset(q.Outstanding()[i].chain) + multiset(q.Outstanding()[j].chain);
    assert b <= Full(num);
    forall d: nat
      ensures b[d] <= 1
    {
      assert b[d] <= Full(num)[d];
    }
    BagDisjoint(q.Outstanding()[i].chain, q.Outstanding()[j].chain);
  }

  function TotalLength(rs: seq<Req>): nat {
    if rs == [] then 0 else |rs[0].chain| + TotalLength(rs[1..])
  }

  lemma {:induction false} BagSize(rs: seq<Req>)
    ensures |Bag(rs)| == TotalLength(rs)
  {
    if rs != [] {
      BagSize(rs[1..]);
    }
  }

  lemma {:induction false} TotalAtLeastCount(rs: seq<Req>)
    requires forall r | r in rs :: r.chain != []
    ensures |rs| <= TotalLength(rs)
  {
    if rs != [] {
      TotalAtLeastCount(rs[1..]);
    }
  }

  lemma OutstandingWellFormed(num: nat, q: Queue, r: Req)
    requires Inv(num, q) && r in q.Outstanding()
    ensures WellFormed(r) && r.id < |q.log| && q.log[r.id] == r
  {
    Parts(q);
    assert r in multiset(q.Outstanding());
    assert r in multiset(q.log);
  }

  /**
   Descriptors in use are exactly those of the outstanding requests, so neither ring can hold more
   than `num` entries.
   */
  lemma DescriptorCount(num: nat, q: Queue)
    requires Inv(num, q)
    ensures num - |q.free| == TotalLength(q.Outstanding())
    ensures |q.posted| + |q.held| + |q.done| <= num - |q.free|
  {
    Parts(q);
    BagSize(q.Outstanding());
    assert multiset(q.free) + Bag(q.Outstanding()) == Full(num);
    forall r | r in q.Outstanding()
      ensures r.chain != []
    {
      OutstandingWellFormed(num, q, r);
    }
    TotalAtLeastCount(q.Outstanding());
  }

  // ----- whole runs

  ghost predicate IsRun(num: nat, states: seq<Queue>, events: seq<Event>) {
    && |states| == |events| + 1 && states[0] == InitialQueue(num)
    && forall i | 0 <= i < |events| :: Step(states[i], events[i], states[i + 1])
  }

  lemma {:induction false} RunInv(num: nat, states: seq<Queue>, events: seq<Event>)
    requires IsRun(num, states, events)
    ensures Inv(num, states[|events|])
    decreases |events|
  {
    if |events| == 0 {
      InitialInv(num);
    } else {
      var k := |events| - 1;
      RunInv(num, states[..|events|], events[..k]);
      StepKeeps(num, states[k], events[k], states[k + 1]);
    }
  }

  /** The `log` multiset has each request once, because requests carry their position. */
  lemma {:induction false} LogOnce(log: seq<Req>, r: Req)
    requires forall i | 0 <= i < |log| :: log[i].id == i
    ensures multiset(log)[r] == if r in log then 1 else 0
  {
    if log != [] {
      var k := |log| - 1;
      LogOnce(log[..k], r);
      assert log == log[..k] + [log[k]];
      if r in log[..k] {
        var i :| 0 <= i < k && log[i] == r;
      }
    }
  }

  /**
   Exactly-once delivery over every run: no request is handed back twice, none that is
   still outstanding was handed back, and every request added is in one of the two places.
   */
  lemma ExactlyOnce(num: nat, states: seq<Queue>, events: seq<Event>)
    requires IsRun(num, states, events)
    ensures var q := states[|events|];
            && NoDup(q.returned) && NoDup(q.Outstanding())
            && (forall r | r in q.returned :: r !in q.Outstanding())
            && (forall r :: r in q.log <==> r in q.returned || r in q.Outstanding())
  {
    RunInv(num, states, events);
    InvOnce(num, states[|events|]);
  }

  lemma InvOnce(num: nat, q: Queue)
    requires Inv(num, q)
    ensures NoDup(q.returned) && NoDup(q.Outstanding())
    ensures forall r | r in q.returned :: r !in q.Outstanding()
    ensures forall r :: r in q.log <==> r in q.returned || r in q.Outstanding()
  {
    Parts(q);
    forall r: Req
      ensures multiset(q.log)[r] <= 1
    {
      LogOnce(q.log, r);
    }
    SplitOnce(q.returned, q.Outstanding(), q.log);
  }

  /** Two lists that make up a list without repetition. */
  lemma SplitOnce<T>(a: seq<T>, b: seq<T>, all: seq<T>)
    requires multiset(a) + multiset(b) == multiset(all) && forall x :: multiset(all)[x] <= 1
    ensures NoDup(a) && NoDup(b)
    ensures forall x | x in a :: x !in b
    ensures forall x :: x in all <==> x in a || x in b
  {
    var m := multiset(all);
    assert multiset(a) <= m && multiset(b) <= m;
    NoDupFromBag(a);
    NoDupFromBag(b);
    forall x | x in a
      ensures x !in b
    {
      assert (multiset(a) + multiset(b))[x] <= 1;
    }
    forall x
      ensures x in all <==> x in a || x in b
    {
      assert x in m <==> x in multiset(a) || x in multiset(b);
    }
  }
}
