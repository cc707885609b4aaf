/** What the slot queue promises its waiters (packages/runtime-manager/src/RuntimeAllocator.ts):
    who stands before whom, who is served first, and what a request is answered. */
module QueueOrder {
  import opened Allocator
  import opened Shared

  // ---------------------------------------------------------------- who stands before whom

  /** In the order critical, high, normal, low. */
  predicate NotLower(p: Priority, q: Priority) {
    match p
    case CRITICAL => true
    case HIGH => q != CRITICAL
    case NORMAL => q == NORMAL || q == LOW
    case LOW => q == LOW
  }

  /** `x` may stand before `y`: it has no lower priority, and at equal priority came no later. */
  predicate Precedes(x: Request, y: Request) {
    NotLower(x.priority, y.priority) && (x.priority == y.priority ==> x.requestedAt <= y.requestedAt)
  }

  ghost predicate InOrder(q: seq<Request>) {
    forall i, j :: 0 <= i < j < |q| ==> Precedes(q[i], q[j])
  }

  lemma {:induction false} OrderedIsInOrder(q: seq<Request>)
    ensures Ordered(q) <==> InOrder(q)
  {
    forall i, j | 0 <= i < j < |q|
      ensures !Before(q[j], q[i]) <==> Precedes(q[i], q[j])
    {
    }
  }

  /** In every run nobody waits before a request of higher priority, or before one of equal
      priority that was made earlier. */
  lemma {:induction false} QueueIsInOrder(caps: Caps, ops: seq<Op>, n: nat, i: nat, j: nat)
    requires n <= |ops| && i < j < |Run(caps, ops, n).queue|
    ensures Precedes(Run(caps, ops, n).queue[i], Run(caps, ops, n).queue[j])
  {
    RunIsSound(caps, ops, n);
    OrderedIsInOrder(Run(caps, ops, n).queue);
  }

  /** The requests of one priority and time, in queue order. */
  function Ties(q: seq<Request>, p: Priority, t: int): seq<Request> {
    if q == [] then []
    else (if q[0].priority == p && q[0].requestedAt == t then [q[0]] else []) + Ties(q[1..], p, t)
  }

  lemma {:induction false} TiesAreClass(q: seq<Request>, p: Priority, t: int)
    ensures Ties(q, p, t) == Class(q, Weight(p), t)
  {
    if q != [] {
      TiesAreClass(q[1..], p, t);
    }
  }

  lemma {:induction false} TiesOfSort(q: seq<Request>, p: Priority, t: int)
    ensures Ties(StableSort(q), p, t) == Ties(q, p, t)
  {
    SortSpec(q, Weight(p), t);
    TiesAreClass(StableSort(q), p, t);
    TiesAreClass(q, p, t);
  }

  lemma {:induction false} TiesAppend(q: seq<Request>, r: Request, p: Priority, t: int)
    ensures Ties(q + [r], p, t) == Ties(q, p, t) + if r.priority == p && r.requestedAt == t then [r] else []
  {
    if q == [] {
      assert q + [r] == [r] && [r][1..] == [];
    } else {
      TiesAppend(q[1..], r, p, t);
      assert (q + [r])[1..] == q[1..] + [r];
    }
  }

  /** A request that has to wait goes behind those of its priority and time, and moves none of the
      others past each other. */
  lemma {:induction false} TiesKeepArrival(caps: Caps, a: Alloc, r: Request, p: Priority, t: int)
    requires RequestSlot(caps, a, r).0 == Queued
    ensures var b := RequestSlot(caps, a, r).1;
            && multiset(b.queue) == multiset(a.queue) + multiset{r}
            && Ties(b.queue, p, t)
                 == Ties(a.queue, p, t) + if r.priority == p && r.requestedAt == t then [r] else []
  {
    var q := a.queue + [r];
    SortKeepsAll(q);
    assert RequestSlot(caps, a, r).1.queue == StableSort(q);
    TiesOfSort(q, p, t);
    TiesAppend(a.queue, r, p, t);
  }

  lemma {:induction false} SortKeepsAll(q: seq<Request>)
    ensures multiset(StableSort(q)) == multiset(q)
  {
    SortSpec(q, 0, 0);
  }

  // ---------------------------------------------------------------- who is served

  /** Both meet the same caps. */
  predicate Alike(x: Request, y: Request) {
    x.tenant == y.tenant && x.agent == y.agent
  }

  function NewlyServed(a: Alloc, b: Alloc): seq<Request>
    requires |a.granted| <= |b.granted|
  {
    Served(b.granted[|a.granted|..])
  }

  /** The scan from position `i` serves waiters from there on and leaves those before in place. */
  lemma {:induction false} ScanServesBehind(caps: Caps, a: Alloc, i: nat)
    requires i <= |a.queue|
    ensures var b := Scan(caps, a, i);
            && |a.granted| <= |b.granted| && i <= |b.queue| && b.queue[..i] == a.queue[..i]
            && (forall r :: r in b.queue[i..] ==> r in a.queue[i..])
            && (forall r :: r in NewlyServed(a, b) ==> r in a.queue[i..])
    decreases |a.queue| - i
  {
    if i == |a.queue| {
      assert Served(a.granted[|a.granted|..]) == [];
    } else if CanAllocate(caps, a, a.queue[i]) {
      var a1 := GrantAt(a, i);
      ScanServesBehind(caps, a1, i);
      ScanFrame(caps, a1, i);
      ServedCons(a, a1, Scan(caps, a1, i), a.queue[i]);
      assert a1.queue[..i] == a.queue[..i] && a1.queue[i..] == a.queue[i + 1..];
      assert forall r :: r in a.queue[i..] <==> r == a.queue[i] || r in a.queue[i + 1..];
    } else {
      ScanServesBehind(caps, a, i + 1);
      SkipsOne(a.queue, Scan(caps, a, i + 1).queue, i, i + 1);
    }
  }

  lemma {:induction false} SkipsOne(q: seq<Request>, r: seq<Request>, i: nat, j: nat)
    requires j == i + 1 <= |q| && j <= |r| && r[..j] == q[..j] && forall x :: x in r[j..] ==> x in q[j..]
    ensures r[..i] == q[..i] && (forall x :: x in r[i..] ==> x in q[i..]) && q[i..] == [q[i]] + q[j..]
  {
    assert r[..i] == r[..j][..i] && q[..i] == q[..j][..i] && r[i] == r[..j][i] == q[i];
    assert r[i..] == [r[i]] + r[j..] && q[i..] == [q[i]] + q[j..];
  }

  lemma {:induction false} ServedCons(a: Alloc, a1: Alloc, b: Alloc, r: Request)
    requires |a.granted| + 1 == |a1.granted| <= |b.granted| && a1.granted[|a.granted|].0 == r
    requires a1.granted <= b.granted
    ensures NewlyServed(a, b) == [r] + NewlyServed(a1, b)
  {
    assert b.granted[|a.granted|..] == [a1.granted[|a.granted|]] + b.granted[|a1.granted|..];
  }

  ghost predicate ServedInOrder(a: Alloc, b: Alloc)
    requires |a.granted| <= |b.granted|
  {
    && InOrder(NewlyServed(a, b))
    && (forall g, w :: g in NewlyServed(a, b) && w in b.queue && Alike(g, w) ==> Precedes(g, w))
  }

  lemma {:induction false} ScanServesInOrder(caps: Caps, a: Alloc, i: nat)
    requires Exact(a) && InOrder(a.queue) && i <= |a.queue|
    requires forall j :: 0 <= j < i ==> !CanAllocate(caps, a, a.queue[j])
    ensures |a.granted| <= |Scan(caps, a, i).granted| && ServedInOrder(a, Scan(caps, a, i))
    decreases |a.queue| - i
  {
    if i < |a.queue| {
      if CanAllocate(caps, a, a.queue[i]) {
        var a1, b := GrantAt(a, i), Scan(caps, a, i);
        GrantAtKeeps(caps, a, i);
        OrderedIsInOrder(a.queue);
        RemoveKeepsOrder(a.queue, i);
        OrderedIsInOrder(a1.queue);
        ScanServesInOrder(caps, a1, i);
        ScanServesBehind(caps, a1, i);
        ScanFrame(caps, a1, i);
        ServedCons(a, a1, b, a.queue[i]);
        FirstPrecedes(caps, a, a1, b, i);
      } else {
        ScanServesInOrder(caps, a, i + 1);
      }
    } else {
      assert Served(a.granted[|a.granted|..]) == [];
    }
  }

  /** The waiter at `i`, served first, stands before all that are served later and before all of
      its kind that remain. */
  lemma {:induction false} FirstPrecedes(caps: Caps, a: Alloc, a1: Alloc, b: Alloc, i: nat)
    requires InOrder(a.queue) && i < |a.queue| && CanAllocate(caps, a, a.queue[i]) && a1 == GrantAt(a, i)
    requires forall j :: 0 <= j < i ==> !CanAllocate(caps, a, a.queue[j])
    requires |a1.granted| <= |b.granted| && i <= |b.queue| && b.queue[..i] == a1.queue[..i]
    requires forall r :: r in b.queue[i..] ==> r in a1.queue[i..]
    requires forall r :: r in NewlyServed(a1, b) ==> r in a1.queue[i..]
    requires NewlyServed(a, b) == [a.queue[i]] + NewlyServed(a1, b) && ServedInOrder(a1, b)
    ensures ServedInOrder(a, b)
  {
    var first, rest := a.queue[i], NewlyServed(a1, b);
    assert a1.queue[..i] == a.queue[..i] && a1.queue[i..] == a.queue[i + 1..];
    forall r | r in a1.queue[i..]
      ensures Precedes(first, r)
    {
      var k :| 0 <= k < |a.queue[i + 1..]| && a.queue[i + 1..][k] == r;
      assert a.queue[i + 1 + k] == r;
    }
    forall w | w in a.queue[..i]
      ensures !Alike(first, w)
    {
      var k :| 0 <= k < i && a.queue[..i][k] == w;
      assert !CanAllocate(caps, a, a.queue[k]);
    }
    assert b.queue == b.queue[..i] + b.queue[i..];
    assert forall w :: w in b.queue && Alike(first, w) ==> w in b.queue[i..];
    FirstThenRest(first, rest);
  }

  lemma {:induction false} FirstThenRest(first: Request, rest: seq<Request>)
    requires InOrder(rest) && forall x :: x in rest ==> Precedes(first, x)
    ensures InOrder([first] + rest)
  {
    var all := [first] + rest;
    forall i, j | 0 <= i < j < |all|
      ensures Precedes(all[i], all[j])
    {
      assert all[j] == rest[j - 1] && rest[j - 1] in rest;
    }
  }

  /** In every run a release serves in the order of priority and request time, and of two waiters
      of one tenant and agent never the later one alone: whoever it serves may stand before
      everyone of that tenant and agent who still waits. */
  lemma {:induction false} ReleaseServesInOrder(caps: Caps, ops: seq<Op>, n: nat, slot: nat)
    requires n <= |ops|
    ensures var a := Run(caps, ops, n);
            var b := Step(caps, a, DoRelease(slot));
            |a.granted| <= |b.granted| && ServedInOrder(a, b)
  {
    var a := Run(caps, ops, n);
    RunIsSound(caps, ops, n);
    OrderedIsInOrder(a.queue);
    if slot in a.active && !a.draining {
      FreeKeeps(caps, a, slot);
      ScanServesInOrder(caps, Free(a, slot), 0);
    } else {
      assert Served(a.granted[|a.granted|..]) == [];
    }
  }

  // ---------------------------------------------------------------- what a request is answered

  /** Some cap is used up by the active slots. */
  predicate CapReached(caps: Caps, a: Alloc, r: Request) {
    || |a.active| >= caps.global
    || |set id | id in a.active && a.active[id].tenant == r.tenant| >= caps.perTenant
    || |set id | id in a.active && a.active[id].agent == r.agent| >= caps.perAgent
  }

  lemma {:induction false} BlockedExactly(caps: Caps, a: Alloc, r: Request)
    requires Exact(a)
    ensures CanAllocate(caps, a, r) <==> !CapReached(caps, a, r)
  {
    assert HeldBy(Tenants(a.active), r.tenant) == set id | id in a.active && a.active[id].tenant == r.tenant;
    assert HeldBy(Agents(a.active), r.agent) == set id | id in a.active && a.active[id].agent == r.agent;
  }

  /** In every run a request is refused exactly during a drain, has to wait exactly when a cap is
      reached, and otherwise gets a new slot in its tenant's, agent's and session's name. */
  lemma {:induction false} RequestIsAnswered(caps: Caps, ops: seq<Op>, n: nat, r: Request)
    requires n <= |ops|
    ensures var a := Run(caps, ops, n);
            var (reply, b) := RequestSlot(caps, a, r);
            && (reply == Rejected <==> a.draining)
            && (reply == Queued <==> !a.draining && CapReached(caps, a, r))
            && (reply.Allocated? ==>
                  && reply.slot !in a.active && b.queue == a.queue
                  && b.active == a.active[reply.slot := Slot(r.tenant, r.agent, r.session)])
  {
    RunIsSound(caps, ops, n);
    BlockedExactly(caps, Run(caps, ops, n), r);
  }

  /** And so long as no release stranded a waiter, everyone who waits waits for a cap. */
  lemma {:induction false} WaitersMeetCaps(caps: Caps, ops: seq<Op>, n: nat, i: nat)
    requires n <= |ops| && NeverStrands(caps, ops, n) && i < |Run(caps, ops, n).queue|
    ensures CapReached(caps, Run(caps, ops, n), Run(caps, ops, n).queue[i])
  {
    RunIsSound(caps, ops, n);
    RunIsWorkConserving(caps, ops, n);
    BlockedExactly(caps, Run(caps, ops, n), Run(caps, ops, n).queue[i]);
  }
}
