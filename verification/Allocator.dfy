/** Slot allocation (packages/runtime-manager/src/RuntimeAllocator.ts) as a value: three
    simultaneous caps, counters that summarise the active slots, and a priority queue. */
module Allocator {
  import opened Shared

  datatype Priority = CRITICAL | HIGH | NORMAL | LOW

  datatype Request = Request(
    requestId: Key, tenant: Key, agent: Key, session: Key, priority: Priority, requestedAt: int)

  datatype Slot = Slot(tenant: Key, agent: Key, session: Key)

  datatype Caps = Caps(global: nat, perTenant: nat, perAgent: nat)

  /** Slots are named by the counter that makes their ids unique. `granted` lists the promises
      resolved with a slot, in order. */
  datatype Alloc = Alloc(
    active: map<nat, Slot>,
    tenantCounts: map<Key, nat>,
    agentCounts: map<Key, nat>,
    queue: seq<Request>,
    draining: bool,
    counter: nat,
    granted: seq<(Request, nat)>)

  const EMPTY := Alloc(map[], map[], map[], [], false, 0, [])

  // ---------------------------------------------------------------- operations

  function Get(counts: map<Key, nat>, k: Key): nat {
    if k in counts then counts[k] else 0
  }

  function Increment(counts: map<Key, nat>, k: Key): map<Key, nat> {
    counts[k := Get(counts, k) + 1]
  }

  function Decrement(counts: map<Key, nat>, k: Key): map<Key, nat> {
    if Get(counts, k) <= 1 then counts - {k} else counts[k := Get(counts, k) - 1]
  }

  predicate CanAllocate(caps: Caps, a: Alloc, r: Request) {
    && |a.active| < caps.global
    && Get(a.tenantCounts, r.tenant) < caps.perTenant
    && Get(a.agentCounts, r.agent) < caps.perAgent
  }

  function Grant(a: Alloc, r: Request): Alloc {
    a.(counter := a.counter + 1,
       active := a.active[a.counter + 1 := Slot(r.tenant, r.agent, r.session)],
       tenantCounts := Increment(a.tenantCounts, r.tenant),
       agentCounts := Increment(a.agentCounts, r.agent),
       granted := a.granted + [(r, a.counter + 1)])
  }

  function RemoveAt<T>(q: seq<T>, i: nat): seq<T>
    requires i < |q|
  {
    q[..i] + q[i + 1..]
  }

  function GrantAt(a: Alloc, i: nat): Alloc
    requires i < |a.queue|
  {
    Grant(a.(queue := RemoveAt(a.queue, i)), a.queue[i])
  }

  /** The scan of `processQueue` from position `i` on. */
  function Scan(caps: Caps, a: Alloc, i: nat): Alloc
    requires i <= |a.queue|
    decreases |a.queue| - i
  {
    if i == |a.queue| then a
    else if CanAllocate(caps, a, a.queue[i]) then Scan(caps, GrantAt(a, i), i)
    else Scan(caps, a, i + 1)
  }

  function Process(caps: Caps, a: Alloc): Alloc {
    if a.draining then a else Scan(caps, a, 0)
  }

  function Weight(p: Priority): int {
    match p
    case CRITICAL => 4
    case HIGH => 3
    case NORMAL => 2
    case LOW => 1
  }

  /** The comparator of `sortQueue` is negative. */
  predicate Before(x: Request, y: Request) {
    Weight(x.priority) > Weight(y.priority)
    || (Weight(x.priority) == Weight(y.priority) && x.requestedAt < y.requestedAt)
  }

  function InsertSorted(q: seq<Request>, x: Request): seq<Request> {
    if q == [] || Before(x, q[0]) then [x] + q else [q[0]] + InsertSorted(q[1..], x)
  }

  /** The library's stable sort, by insertion. */
  function StableSort(q: seq<Request>): seq<Request> {
    if q == [] then [] else InsertSorted(StableSort(q[..|q| - 1]), q[|q| - 1])
  }

  datatype Reply = Rejected | Allocated(slot: nat) | Queued

  function RequestSlot(caps: Caps, a: Alloc, r: Request): (Reply, Alloc) {
    if a.draining then (Rejected, a)
    else if CanAllocate(caps, a, r) then (Allocated(a.counter + 1), Grant(a, r))
    else (Queued, a.(queue := StableSort(a.queue + [r])))
  }

  function Free(a: Alloc, id: nat): Alloc
    requires id in a.active
  {
    a.(active := a.active - {id},
       tenantCounts := Decrement(a.tenantCounts, a.active[id].tenant),
       agentCounts := Decrement(a.agentCounts, a.active[id].agent))
  }

  function ReleaseSlot(caps: Caps, a: Alloc, id: nat): Alloc {
    if id in a.active then Process(caps, Free(a, id)) else a
  }

  function Without(q: seq<Request>, requestId: Key): seq<Request> {
    if q == [] then []
    else if q[0].requestId == requestId then q[1..]
    else [q[0]] + Without(q[1..], requestId)
  }

  /** A queue timeout rejects the waiting promise. */
  function Expire(a: Alloc, requestId: Key): Alloc {
    a.(queue := Without(a.queue, requestId))
  }

  // ---------------------------------------------------------------- the sort

  ghost predicate Ordered(q: seq<Request>) {
    forall i, j :: 0 <= i < j < |q| ==> !Before(q[j], q[i])
  }

  /** The requests of one sort key, in queue order. */
  function Class(q: seq<Request>, w: int, t: int): seq<Request> {
    if q == [] then []
    else
      (if Weight(q[0].priority) == w && q[0].requestedAt == t then [q[0]] else []) + Class(q[1..], w, t)
  }

  lemma {:induction false} InsertMembers(q: seq<Request>, x: Request)
    ensures multiset(InsertSorted(q, x)) == multiset(q) + multiset{x}
  {
    if q != [] && !Before(x, q[0]) {
      InsertMembers(q[1..], x);
      assert q == [q[0]] + q[1..];
    }
  }

  lemma {:induction false} InsertKeepsOrder(q: seq<Request>, x: Request)
    requires Ordered(q)
    ensures Ordered(InsertSorted(q, x))
  {
    if q != [] && !Before(x, q[0]) {
      var r := InsertSorted(q[1..], x);
      InsertKeepsOrder(q[1..], x);
      InsertMembers(q[1..], x);
      forall y | y in r
        ensures !Before(y, q[0])
      {
        assert y in multiset(r);
        assert y == x || y in q[1..];
      }
    }
  }

  lemma {:induction false} ClassCons(x: Request, q: seq<Request>, w: int, t: int)
    ensures Class([x] + q, w, t)
         == if Weight(x.priority) == w && x.requestedAt == t then [x] + Class(q, w, t) else Class(q, w, t)
  {
    assert ([x] + q)[1..] == q;
  }

  lemma {:induction false} InsertKeepsClass(q: seq<Request>, x: Request, w: int, t: int)
    requires Ordered(q)
    ensures Class(InsertSorted(q, x), w, t) == Class(q, w, t) + Class([x], w, t)
  {
    if q == [] {
      assert Class([x], w, t) == [] + Class([x], w, t);
    } else if Before(x, q[0]) {
      ClassBeyond(q, x, w, t);
    } else {
      InsertKeepsClass(q[1..], x, w, t);
      ClassCons(q[0], InsertSorted(q[1..], x), w, t);
      ClassCons(q[0], q[1..], w, t);
      assert q == [q[0]] + q[1..];
    }
  }

  lemma {:induction false} ClassBeyond(q: seq<Request>, x: Request, w: int, t: int)
    requires Ordered(q) && (q != [] ==> Before(x, q[0]))
    ensures Class([x] + q, w, t) == Class(q, w, t) + Class([x], w, t)
  {
    assert ([x] + q)[1..] == q;
    assert Class([x], w, t) == (if Weight(x.priority) == w && x.requestedAt == t then [x] else []) + Class([], w, t);
    if Weight(x.priority) == w && x.requestedAt == t {
      NoneInClass(q, x, w, t);
    }
  }

  lemma {:induction false} NoneInClass(q: seq<Request>, x: Request, w: int, t: int)
    requires forall i :: 0 <= i < |q| ==> Before(x, q[i])
    requires Weight(x.priority) == w && x.requestedAt == t
    ensures Class(q, w, t) == []
  {
    if q != [] {
      NoneInClass(q[1..], x, w, t);
    }
  }

  lemma {:induction false} ClassAppend(q: seq<Request>, x: Request, w: int, t: int)
    ensures Class(q + [x], w, t) == Class(q, w, t) + Class([x], w, t)
  {
    if q == [] {
      assert [] + [x] == [x];
    } else {
      ClassAppend(q[1..], x, w, t);
      assert (q + [x])[1..] == q[1..] + [x];
    }
  }

  /** The sort orders by priority and then request time, keeps every request, and keeps the
      arrival order of requests that tie on both. */
  lemma {:induction false} SortSpec(q: seq<Request>, w: int, t: int)
    ensures Ordered(StableSort(q))
    ensures multiset(StableSort(q)) == multiset(q)
    ensures Class(StableSort(q), w, t) == Class(q, w, t)
    decreases |q|
  {
    if q != [] {
      var n := |q| - 1;
      SortSpec(q[..n], w, t);
      InsertMembers(StableSort(q[..n]), q[n]);
      InsertKeepsOrder(StableSort(q[..n]), q[n]);
      InsertKeepsClass(StableSort(q[..n]), q[n], w, t);
      ClassAppend(q[..n], q[n], w, t);
      assert q == q[..n] + [q[n]];
    }
  }

  // ---------------------------------------------------------------- accounting

  function Tenants(active: map<nat, Slot>): map<nat, Key> {
    map id | id in active :: active[id].tenant
  }

  function Agents(active: map<nat, Slot>): map<nat, Key> {
    map id | id in active :: active[id].agent
  }

  function HeldBy(owners: map<nat, Key>, k: Key): set<nat> {
    set id | id in owners && owners[id] == k
  }

  /** The counter map counts the slots of every key and holds no zero entry. */
  ghost predicate Counts(counts: map<Key, nat>, owners: map<nat, Key>) {
    && (forall k :: Get(counts, k) == |HeldBy(owners, k)|)
    && (forall k :: k in counts ==> counts[k] > 0)
  }

  ghost predicate Exact(a: Alloc) {
    && Counts(a.tenantCounts, Tenants(a.active))
    && Counts(a.agentCounts, Agents(a.active))
    && (forall id :: id in a.active ==> 1 <= id <= a.counter)
  }

  /** No cap is exceeded. */
  ghost predicate Fits(caps: Caps, a: Alloc) {
    && |a.active| <= caps.global
    && (forall k :: |HeldBy(Tenants(a.active), k)| <= caps.perTenant)
    && (forall k :: |HeldBy(Agents(a.active), k)| <= caps.perAgent)
  }

  /** Every waiting request is blocked by some cap. */
  ghost predicate Saturated(caps: Caps, a: Alloc) {
    forall i :: 0 <= i < |a.queue| ==> !CanAllocate(caps, a, a.queue[i])
  }

  lemma {:induction false} IncrementCounts(counts: map<Key, nat>, owners: map<nat, Key>, id: nat, key: Key)
    requires Counts(counts, owners) && id !in owners
    ensures Counts(Increment(counts, key), owners[id := key])
    ensures forall k :: |HeldBy(owners[id := key], k)| == |HeldBy(owners, k)| + if k == key then 1 else 0
  {
    forall k
      ensures |HeldBy(owners[id := key], k)| == |HeldBy(owners, k)| + if k == key then 1 else 0
      ensures Get(Increment(counts, key), k) == Get(counts, k) + if k == key then 1 else 0
    {
      assert HeldBy(owners[id := key], k) == HeldBy(owners, k) + if k == key then {id} else {};
      assert id !in HeldBy(owners, k);
    }
  }

  lemma {:induction false} DecrementCounts(counts: map<Key, nat>, owners: map<nat, Key>, id: nat)
    requires Counts(counts, owners) && id in owners
    ensures Counts(Decrement(counts, owners[id]), owners - {id})
    ensures forall k :: |HeldBy(owners - {id}, k)| == |HeldBy(owners, k)| - if k == owners[id] then 1 else 0
  {
    forall k
      ensures |HeldBy(owners - {id}, k)| == |HeldBy(owners, k)| - if k == owners[id] then 1 else 0
    {
      assert HeldBy(owners - {id}, k) == HeldBy(owners, k) - {id};
      assert id in HeldBy(owners, k) <==> k == owners[id];
    }
    assert Get(counts, owners[id]) > 0 by { assert id in HeldBy(owners, owners[id]); }
  }

  lemma {:induction false} GrantKeeps(caps: Caps, a: Alloc, r: Request)
    requires Exact(a)
    ensures Exact(Grant(a, r))
    ensures Fits(caps, a) && CanAllocate(caps, a, r) ==> Fits(caps, Grant(a, r))
  {
    GrantCounts(a, r);
    if Fits(caps, a) && CanAllocate(caps, a, r) {
      forall k
        ensures |HeldBy(Tenants(Grant(a, r).active), k)| <= caps.perTenant
        ensures |HeldBy(Agents(Grant(a, r).active), k)| <= caps.perAgent
      {
        assert |HeldBy(Tenants(a.active), k)| == Get(a.tenantCounts, k);
        assert |HeldBy(Agents(a.active), k)| == Get(a.agentCounts, k);
      }
    }
  }

  lemma {:induction false} GrantCounts(a: Alloc, r: Request)
    requires Exact(a)
    ensures var b := Grant(a, r);
            && Exact(b) && |b.active| == |a.active| + 1
            && (forall k :: |HeldBy(Tenants(b.active), k)|
                  == |HeldBy(Tenants(a.active), k)| + if k == r.tenant then 1 else 0)
            && (forall k :: |HeldBy(Agents(b.active), k)|
                  == |HeldBy(Agents(a.active), k)| + if k == r.agent then 1 else 0)
  {
    var id := a.counter + 1;
    var active' := Grant(a, r).active;
    OwnersOfGrant(a.active, id, Slot(r.tenant, r.agent, r.session));
    MoreSlots(a.active, id, Slot(r.tenant, r.agent, r.session));
    IncrementCounts(a.tenantCounts, Tenants(a.active), id, r.tenant);
    IncrementCounts(a.agentCounts, Agents(a.active), id, r.agent);
  }

  /** A grant never unblocks anybody. */
  lemma {:induction false} GrantBlocks(caps: Caps, a: Alloc, r: Request, q: Request)
    requires a.counter + 1 !in a.active && !CanAllocate(caps, a, q)
    ensures !CanAllocate(caps, Grant(a, r), q)
  {
    MoreSlots(a.active, a.counter + 1, Slot(r.tenant, r.agent, r.session));
    IncrementGrows(a.tenantCounts, r.tenant, q.tenant);
    IncrementGrows(a.agentCounts, r.agent, q.agent);
  }

  lemma {:induction false} OwnersOfGrant(active: map<nat, Slot>, id: nat, slot: Slot)
    ensures Tenants(active[id := slot]) == Tenants(active)[id := slot.tenant]
    ensures Agents(active[id := slot]) == Agents(active)[id := slot.agent]
  {
  }

  lemma {:induction false} MoreSlots(active: map<nat, Slot>, id: nat, slot: Slot)
    requires id !in active
    ensures |active[id := slot]| == |active| + 1
  {
    assert active[id := slot].Keys == active.Keys + {id};
  }

  lemma {:induction false} IncrementGrows(counts: map<Key, nat>, key: Key, k: Key)
    ensures Get(Increment(counts, key), k) >= Get(counts, k)
  {
  }

  lemma {:induction false} FreeKeeps(caps: Caps, a: Alloc, id: nat)
    requires Exact(a) && id in a.active
    ensures Exact(Free(a, id))
    ensures Fits(caps, a) ==> Fits(caps, Free(a, id))
  {
    var active' := Free(a, id).active;
    assert Tenants(active') == Tenants(a.active) - {id};
    assert Agents(active') == Agents(a.active) - {id};
    DecrementCounts(a.tenantCounts, Tenants(a.active), id);
    DecrementCounts(a.agentCounts, Agents(a.active), id);
    assert |active'| == |a.active| - 1 by { assert active'.Keys == a.active.Keys - {id}; }
  }

  // ---------------------------------------------------------------- the queue

  /** The first waiting request that no cap blocks, or the queue's length. */
  function FirstReady(caps: Caps, a: Alloc, i: nat): (k: nat)
    requires i <= |a.queue|
    ensures i <= k <= |a.queue|
    ensures forall j :: i <= j < k ==> !CanAllocate(caps, a, a.queue[j])
    ensures k < |a.queue| ==> CanAllocate(caps, a, a.queue[k])
    decreases |a.queue| - i
  {
    if i == |a.queue| || CanAllocate(caps, a, a.queue[i]) then i else FirstReady(caps, a, i + 1)
  }

  /** What the queue is for: as long as some waiter can be served, serve the first one. */
  function ServeFirst(caps: Caps, a: Alloc): Alloc
    decreases |a.queue|
  {
    var k := FirstReady(caps, a, 0);
    if k == |a.queue| then a else ServeFirst(caps, GrantAt(a, k))
  }

  lemma {:induction false} FirstReadySkips(caps: Caps, a: Alloc, i: nat)
    requires i <= |a.queue|
    requires forall j :: 0 <= j < i ==> !CanAllocate(caps, a, a.queue[j])
    ensures FirstReady(caps, a, 0) == FirstReady(caps, a, i)
  {
    var k, m := FirstReady(caps, a, 0), FirstReady(caps, a, i);
    assert k < |a.queue| ==> k >= i;
  }

  /** One pass over the queue, edited while it is scanned, serves exactly as starting over
      from the front after every grant: each grant goes to the first waiter that any cap
      still allows, and at the end every waiter is blocked. */
  lemma {:induction false} ScanServesFirst(caps: Caps, a: Alloc, i: nat)
    requires Exact(a) && i <= |a.queue|
    requires forall j :: 0 <= j < i ==> !CanAllocate(caps, a, a.queue[j])
    ensures Scan(caps, a, i) == ServeFirst(caps, a)
    ensures Saturated(caps, Scan(caps, a, i))
    decreases |a.queue| - i
  {
    FirstReadySkips(caps, a, i);
    if i == |a.queue| {
    } else if CanAllocate(caps, a, a.queue[i]) {
      GrantAtKeeps(caps, a, i);
      ScanServesFirst(caps, GrantAt(a, i), i);
    } else {
      ScanServesFirst(caps, a, i + 1);
    }
  }

  lemma {:induction false} GrantAtKeeps(caps: Caps, a: Alloc, i: nat)
    requires Exact(a) && i < |a.queue|
    requires forall j :: 0 <= j < i ==> !CanAllocate(caps, a, a.queue[j])
    ensures var b := GrantAt(a, i);
            Exact(b) && forall j :: 0 <= j < i ==> !CanAllocate(caps, b, b.queue[j])
  {
    var rest := a.(queue := RemoveAt(a.queue, i));
    GrantCounts(rest, a.queue[i]);
    forall j | 0 <= j < i
      ensures !CanAllocate(caps, GrantAt(a, i), GrantAt(a, i).queue[j])
    {
      assert GrantAt(a, i).queue[j] == a.queue[j];
      GrantBlocks(caps, rest, a.queue[i], a.queue[j]);
    }
  }

  lemma {:induction false} GrantAtKeepsSound(caps: Caps, a: Alloc, i: nat)
    requires Exact(a) && i < |a.queue| && CanAllocate(caps, a, a.queue[i])
    ensures var b := GrantAt(a, i);
            && Exact(b)
            && (Fits(caps, a) ==> Fits(caps, b))
            && (Ordered(a.queue) ==> Ordered(b.queue))
  {
    GrantKeeps(caps, a.(queue := RemoveAt(a.queue, i)), a.queue[i]);
    if Ordered(a.queue) {
      RemoveKeepsOrder(a.queue, i);
    }
  }

  lemma {:induction false} ScanKeeps(caps: Caps, a: Alloc, i: nat)
    requires Exact(a) && i <= |a.queue|
    ensures var b := Scan(caps, a, i);
            && Exact(b)
            && (Fits(caps, a) ==> Fits(caps, b))
            && (Ordered(a.queue) ==> Ordered(b.queue))
    decreases |a.queue| - i
  {
    if i == |a.queue| {
    } else if CanAllocate(caps, a, a.queue[i]) {
      GrantAtKeepsSound(caps, a, i);
      ScanKeeps(caps, GrantAt(a, i), i);
    } else {
      ScanKeeps(caps, a, i + 1);
    }
  }

  lemma {:induction false} RemoveKeepsOrder(q: seq<Request>, i: nat)
    requires Ordered(q) && i < |q|
    ensures Ordered(RemoveAt(q, i))
  {
  }

  lemma {:induction false} WithoutIsSublist(q: seq<Request>, requestId: Key)
    requires Ordered(q)
    ensures Ordered(Without(q, requestId))
    ensures forall r :: r in Without(q, requestId) ==> r in q
    decreases |q|
  {
    if q != [] {
      WithoutIsSublist(q[1..], requestId);
      var rest := Without(q[1..], requestId);
      forall y | y in rest
        ensures !Before(y, q[0])
      {
        assert y in q[1..];
      }
    }
  }

  // ---------------------------------------------------------------- whole runs

  datatype Op =
    | DoRequest(request: Request)
    | DoRelease(slot: nat)
    | DoExpire(requestId: Key)
    | DoDrain(draining: bool)

  function Step(caps: Caps, a: Alloc, op: Op): Alloc {
    match op
    case DoRequest(r) => RequestSlot(caps, a, r).1
    case DoRelease(id) => ReleaseSlot(caps, a, id)
    case DoExpire(requestId) => Expire(a, requestId)
    case DoDrain(d) => a.(draining := d)
  }

  function Run(caps: Caps, ops: seq<Op>, n: nat): Alloc
    requires n <= |ops|
  {
    if n == 0 then EMPTY else Step(caps, Run(caps, ops, n - 1), ops[n - 1])
  }

  ghost predicate Sound(caps: Caps, a: Alloc) {
    Exact(a) && Fits(caps, a) && Ordered(a.queue)
  }

  lemma {:induction false} StepKeepsSound(caps: Caps, a: Alloc, op: Op)
    requires Sound(caps, a)
    ensures Sound(caps, Step(caps, a, op))
  {
    match op
    case DoRequest(r) =>
      GrantKeeps(caps, a, r);
      SortSpec(a.queue + [r], 0, 0);
    case DoRelease(id) =>
      if id in a.active {
        FreeKeeps(caps, a, id);
        ScanKeeps(caps, Free(a, id), 0);
      }
    case DoExpire(requestId) =>
      WithoutIsSublist(a.queue, requestId);
    case DoDrain(_) =>
  }

  /** A release during a drain frees a slot that some waiter could use, and serves nobody. */
  ghost predicate Strands(caps: Caps, a: Alloc, op: Op) {
    && op.DoRelease? && a.draining && op.slot in a.active
    && exists i :: 0 <= i < |a.queue| && CanAllocate(caps, Free(a, op.slot), a.queue[i])
  }

  /** Every operation leaves each waiter blocked, unless it is such a release: an immediate
      grant takes nothing that a waiter could use, and a release serves whom it can. */
  lemma {:induction false} StepSaturates(caps: Caps, a: Alloc, op: Op)
    requires Sound(caps, a) && Saturated(caps, a)
    ensures Saturated(caps, Step(caps, a, op)) <==> !Strands(caps, a, op)
  {
    match op
    case DoRequest(r) =>
      if a.draining {
      } else if CanAllocate(caps, a, r) {
        GrantSaturates(caps, a, r);
      } else {
        QueueingSaturates(caps, a, r);
      }
    case DoRelease(id) =>
      if id in a.active && !a.draining {
        ReleaseSaturates(caps, a, id);
      }
    case DoExpire(requestId) =>
      ExpirySaturates(caps, a, requestId);
    case DoDrain(d) =>
      assert forall r :: CanAllocate(caps, a.(draining := d), r) == CanAllocate(caps, a, r);
  }

  lemma {:induction false} GrantSaturates(caps: Caps, a: Alloc, r: Request)
    requires Exact(a) && Saturated(caps, a)
    ensures Saturated(caps, Grant(a, r))
  {
    forall i | 0 <= i < |a.queue|
      ensures !CanAllocate(caps, Grant(a, r), a.queue[i])
    {
      GrantBlocks(caps, a, r, a.queue[i]);
    }
  }

  lemma {:induction false} QueueingSaturates(caps: Caps, a: Alloc, r: Request)
    requires Saturated(caps, a) && !CanAllocate(caps, a, r)
    ensures Saturated(caps, a.(queue := StableSort(a.queue + [r])))
  {
    var q := StableSort(a.queue + [r]);
    SortSpec(a.queue + [r], 0, 0);
    forall i | 0 <= i < |q|
      ensures !CanAllocate(caps, a, q[i])
    {
      assert q[i] in multiset(a.queue + [r]);
    }
  }

  lemma {:induction false} ReleaseSaturates(caps: Caps, a: Alloc, id: nat)
    requires Exact(a) && !a.draining && id in a.active
    ensures Saturated(caps, ReleaseSlot(caps, a, id))
  {
    FreeKeeps(caps, a, id);
    ScanServesFirst(caps, Free(a, id), 0);
  }

  lemma {:induction false} ExpirySaturates(caps: Caps, a: Alloc, requestId: Key)
    requires Saturated(caps, a) && Ordered(a.queue)
    ensures Saturated(caps, Expire(a, requestId))
  {
    WithoutIsSublist(a.queue, requestId);
    var q := Without(a.queue, requestId);
    forall i | 0 <= i < |q|
      ensures !CanAllocate(caps, a, q[i])
    {
      assert q[i] in a.queue;
    }
  }

  lemma {:induction false} EmptyIsSound(caps: Caps)
    ensures Sound(caps, EMPTY)
  {
    assert forall k :: HeldBy(Tenants(EMPTY.active), k) == {} && HeldBy(Agents(EMPTY.active), k) == {};
  }

  /** In every run the counters are exact, no cap is exceeded, and the queue is in order. */
  lemma {:induction false} RunIsSound(caps: Caps, ops: seq<Op>, n: nat)
    requires n <= |ops|
    ensures Sound(caps, Run(caps, ops, n))
  {
    if n == 0 {
      EmptyIsSound(caps);
    } else {
      RunIsSound(caps, ops, n - 1);
      StepKeepsSound(caps, Run(caps, ops, n - 1), ops[n - 1]);
    }
  }

  ghost predicate AlwaysSaturated(caps: Caps, ops: seq<Op>, n: nat)
    requires n <= |ops|
  {
    Saturated(caps, Run(caps, ops, n)) && (n > 0 ==> AlwaysSaturated(caps, ops, n - 1))
  }

  ghost predicate NeverStrands(caps: Caps, ops: seq<Op>, n: nat)
    requires n <= |ops|
  {
    n > 0 ==> NeverStrands(caps, ops, n - 1) && !Strands(caps, Run(caps, ops, n - 1), ops[n - 1])
  }

  /** At every moment of a run, drains included, each waiting request is blocked by some cap, if
      and only if no slot that a waiter could use was ever released during a drain. */
  lemma {:induction false} RunIsWorkConserving(caps: Caps, ops: seq<Op>, n: nat)
    requires n <= |ops|
    ensures AlwaysSaturated(caps, ops, n) <==> NeverStrands(caps, ops, n)
  {
    if n != 0 {
      RunIsWorkConserving(caps, ops, n - 1);
      RunIsSound(caps, ops, n - 1);
      if AlwaysSaturated(caps, ops, n - 1) {
        StepSaturates(caps, Run(caps, ops, n - 1), ops[n - 1]);
      }
    }
  }

  /** Serving the queue only adds slots, with fresh ids, and only takes from the queue. */
  lemma {:induction false} ScanFrame(caps: Caps, a: Alloc, i: nat)
    requires i <= |a.queue|
    ensures var b := Scan(caps, a, i);
            && b.draining == a.draining && b.counter >= a.counter
            && a.granted <= b.granted
            && (forall id :: id <= a.counter ==> (id in b.active <==> id in a.active))
            && (forall id :: id <= a.counter && id in a.active ==> b.active[id] == a.active[id])
    decreases |a.queue| - i
  {
    if i == |a.queue| {
    } else if CanAllocate(caps, a, a.queue[i]) {
      ScanFrame(caps, GrantAt(a, i), i);
    } else {
      ScanFrame(caps, a, i + 1);
    }
  }

  /** In particular a run without a drain is work-conserving throughout. */
  lemma {:induction false} WithoutDrains(caps: Caps, ops: seq<Op>, n: nat)
    requires n <= |ops| && forall i :: 0 <= i < n ==> !ops[i].DoDrain?
    ensures !Run(caps, ops, n).draining && NeverStrands(caps, ops, n) && AlwaysSaturated(caps, ops, n)
  {
    RunIsWorkConserving(caps, ops, n);
    if n != 0 {
      WithoutDrains(caps, ops, n - 1);
      var a, op := Run(caps, ops, n - 1), ops[n - 1];
      if op.DoRelease? && op.slot in a.active {
        ScanFrame(caps, Free(a, op.slot), 0);
      }
    }
  }

  // ---------------------------------------------------------------- conservation

  function Served(granted: seq<(Request, nat)>): seq<Request> {
    seq(|granted|, i requires 0 <= i < |granted| => granted[i].0)
  }

  /** The requests that have been served or wait. */
  function Known(a: Alloc): multiset<Request> {
    multiset(Served(a.granted)) + multiset(a.queue)
  }

  lemma {:induction false} GrantServes(a: Alloc, r: Request)
    ensures Known(Grant(a, r)) == Known(a) + multiset{r}
  {
    assert Served(a.granted + [(r, a.counter + 1)]) == Served(a.granted) + [r];
  }

  lemma {:induction false} GrantAtConserves(a: Alloc, i: nat)
    requires i < |a.queue|
    ensures Known(GrantAt(a, i)) == Known(a)
  {
    GrantServes(a.(queue := RemoveAt(a.queue, i)), a.queue[i]);
    assert a.queue == a.queue[..i] + [a.queue[i]] + a.queue[i + 1..];
  }

  lemma {:induction false} ScanConserves(caps: Caps, a: Alloc, i: nat)
    requires i <= |a.queue|
    ensures Known(Scan(caps, a, i)) == Known(a)
    decreases |a.queue| - i
  {
    if i == |a.queue| {
    } else if CanAllocate(caps, a, a.queue[i]) {
      GrantAtConserves(a, i);
      ScanConserves(caps, GrantAt(a, i), i);
    } else {
      ScanConserves(caps, a, i + 1);
    }
  }

  lemma {:induction false} RemoveShift(q: seq<Request>, k: nat)
    requires 0 < k < |q|
    ensures RemoveAt(q, k) == [q[0]] + RemoveAt(q[1..], k - 1)
  {
  }

  /** A queue timeout takes out the first waiter with the id, if any, and nothing else. */
  lemma {:induction false} WithoutIsExact(q: seq<Request>, requestId: Key, k: nat)
    requires k <= |q| && forall i :: 0 <= i < k ==> q[i].requestId != requestId
    requires k < |q| ==> q[k].requestId == requestId
    ensures Without(q, requestId) == if k < |q| then RemoveAt(q, k) else q
    decreases |q|
  {
    if k > 0 {
      WithoutIsExact(q[1..], requestId, k - 1);
      if k < |q| {
        RemoveShift(q, k);
      } else {
        assert q == [q[0]] + q[1..];
      }
    }
  }

  /** What a step accepts, and what a queue timeout takes out. */
  function Accepts(a: Alloc, op: Op): multiset<Request> {
    if op.DoRequest? && !a.draining then multiset{op.request} else multiset{}
  }

  function Expires(a: Alloc, op: Op): multiset<Request> {
    if op.DoExpire? then multiset(a.queue) - multiset(Without(a.queue, op.requestId)) else multiset{}
  }

  function Accepted(caps: Caps, ops: seq<Op>, n: nat): multiset<Request>
    requires n <= |ops|
  {
    if n == 0 then multiset{} else Accepted(caps, ops, n - 1) + Accepts(Run(caps, ops, n - 1), ops[n - 1])
  }

  function TimedOut(caps: Caps, ops: seq<Op>, n: nat): multiset<Request>
    requires n <= |ops|
  {
    if n == 0 then multiset{} else TimedOut(caps, ops, n - 1) + Expires(Run(caps, ops, n - 1), ops[n - 1])
  }

  lemma {:induction false} WithoutShrinks(q: seq<Request>, requestId: Key)
    ensures multiset(Without(q, requestId)) <= multiset(q)
    decreases |q|
  {
    if q != [] {
      assert q == [q[0]] + q[1..];
      WithoutShrinks(q[1..], requestId);
    }
  }

  lemma {:induction false} StepConserved(caps: Caps, a: Alloc, op: Op)
    ensures Known(Step(caps, a, op)) + Expires(a, op) == Known(a) + Accepts(a, op)
  {
    match op
    case DoRequest(r) => RequestConserved(caps, a, r);
    case DoRelease(id) =>
      if id in a.active && !a.draining { ScanConserves(caps, Free(a, id), 0); }
    case DoExpire(requestId) =>
      WithoutShrinks(a.queue, requestId);
    case DoDrain(_) =>
  }

  lemma {:induction false} RequestConserved(caps: Caps, a: Alloc, r: Request)
    ensures Known(Step(caps, a, DoRequest(r))) == Known(a) + Accepts(a, DoRequest(r))
  {
    GrantServes(a, r);
    SortSpec(a.queue + [r], 0, 0);
  }

  lemma {:induction false} Balance<T>(
    k: multiset<T>, t: multiset<T>, a: multiset<T>, k': multiset<T>, dt: multiset<T>, da: multiset<T>)
    requires k + t == a && k' + dt == k + da
    ensures k' + (t + dt) == a + da
  {
    assert k' + (t + dt) == (k' + dt) + t;
    assert (k + da) + t == (k + t) + da;
  }

  lemma {:induction false} NothingKnown()
    ensures Known(EMPTY) == multiset{}
  {
    assert Served([]) == [];
  }

  /** In every run, drains included, each accepted request has been served exactly once, has
      timed out, or still waits. */
  lemma {:induction false} RunConserves(caps: Caps, ops: seq<Op>, n: nat)
    requires n <= |ops|
    ensures Known(Run(caps, ops, n)) + TimedOut(caps, ops, n) == Accepted(caps, ops, n)
  {
    StartConserves(caps, ops);
    for k := 0 to n
      invariant Known(Run(caps, ops, k)) + TimedOut(caps, ops, k) == Accepted(caps, ops, k)
    {
      NextConserves(caps, ops, k + 1, Run(caps, ops, k), ops[k]);
    }
  }

  lemma {:induction false} StartConserves(caps: Caps, ops: seq<Op>)
    ensures Known(Run(caps, ops, 0)) + TimedOut(caps, ops, 0) == Accepted(caps, ops, 0)
  {
    NothingKnown();
  }

  lemma {:induction false} NextConserves(caps: Caps, ops: seq<Op>, n: nat, a: Alloc, op: Op)
    requires 0 < n <= |ops| && a == Run(caps, ops, n - 1) && op == ops[n - 1]
    requires Known(a) + TimedOut(caps, ops, n - 1) == Accepted(caps, ops, n - 1)
    ensures Known(Run(caps, ops, n)) + TimedOut(caps, ops, n) == Accepted(caps, ops, n)
  {
    var b := Step(caps, a, op);
    StepConserved(caps, a, op);
    Balance(Known(a), TimedOut(caps, ops, n - 1), Accepted(caps, ops, n - 1), Known(b), Expires(a, op), Accepts(a, op));
    assert Run(caps, ops, n) == b;
  }

  /** After a drain work conservation can fail: undraining does not serve the queue. */
  lemma {:induction false} UndrainingStrandsWaiter()
    ensures var caps := Caps(1, 1, 1);
            var r := Request(Key("1"), Key("t"), Key("a"), Key("s"), NORMAL, 0);
            var ops := [DoRequest(r), DoRequest(r), DoDrain(true), DoRelease(1), DoDrain(false)];
            var a := Run(caps, ops, 5);
            !a.draining && a.queue == [r] && CanAllocate(caps, a, r)
  {
    var caps := Caps(1, 1, 1);
    var r := Request(Key("1"), Key("t"), Key("a"), Key("s"), NORMAL, 0);
    var ops := [DoRequest(r), DoRequest(r), DoDrain(true), DoRelease(1), DoDrain(false)];
    var a0, a1, a2, a3, a4 :=
      Run(caps, ops, 0), Run(caps, ops, 1), Run(caps, ops, 2), Run(caps, ops, 3), Run(caps, ops, 4);
    var one := Grant(EMPTY, r);
    assert a1 == Step(caps, a0, ops[0]) == one;
    assert a1.queue + [r] == [r] && StableSort([r]) == [r] by { assert [r][..0] == []; }
    assert a2 == Step(caps, a1, ops[1]) == one.(queue := [r]);
    assert a3 == Step(caps, a2, ops[2]) == one.(queue := [r], draining := true);
    assert a4 == Step(caps, a3, ops[3]) == Free(a3, 1);
    assert a4.active == map[] && a4.tenantCounts == map[] && a4.agentCounts == map[];
    assert Run(caps, ops, 5) == Step(caps, a4, ops[4]);
  }
}
