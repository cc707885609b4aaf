/** The runtime manager (packages/runtime-manager/src/RuntimeManager.ts) as a value on top of
    the allocator: which live runtime holds which slot, over every run. */
module RuntimeModel {
  import opened Allocator
  import opened Shared

  datatype Runtime = Runtime(session: Key, tenant: Key, agent: Key)

  /** A runtime is named by its session. A granted slot is in flight until the `createRuntime`
      call that waits for it claims it. */
  datatype Mgr = Mgr(
    alloc: Alloc,
    runtimes: map<Key, Runtime>,
    ids: seq<Key>,                 // insertion order of `runtimes`
    slotToInstance: map<nat, Key>,
    instanceToSlot: map<Key, nat>,
    shuttingDown: bool,
    claimed: set<nat>,
    stopping: nat)                 // shutdowns that have yet to clear the maps

  const START := Mgr(EMPTY, map[], [], map[], map[], false, {}, 0)

  function InFlight(m: Mgr): set<nat> {
    (set id | id in m.alloc.active.Keys && id !in m.claimed)
  }

  // ---------------------------------------------------------------- operations

  /** `createRuntime` up to its await. */
  function Create(caps: Caps, m: Mgr, r: Request): Mgr {
    if m.shuttingDown then m else m.(alloc := RequestSlot(caps, m.alloc, r).1)
  }

  function Remove(ids: seq<Key>, id: Key): seq<Key> {
    if ids == [] then [] else if ids[0] == id then ids[1..] else [ids[0]] + Remove(ids[1..], id)
  }

  /** `createRuntime` after its await: the slot granted to it becomes a live runtime. */
  function Claim(m: Mgr, slot: nat): Mgr {
    if slot !in InFlight(m) then m
    else
      var s := m.alloc.active[slot];
      m.(claimed := m.claimed + {slot},
         runtimes := m.runtimes[s.session := Runtime(s.session, s.tenant, s.agent)],
         ids := if s.session in m.runtimes then m.ids else m.ids + [s.session],
         slotToInstance := m.slotToInstance[slot := s.session],
         instanceToSlot := m.instanceToSlot[s.session := slot])
  }

  /** The handler of an instance's `terminated` event, guarded against a second call. */
  function Terminated(caps: Caps, m: Mgr, id: Key): Mgr {
    if id !in m.runtimes then m
    else
      var m1 :=
        if id in m.instanceToSlot then
          var slot := m.instanceToSlot[id];
          m.(alloc := ReleaseSlot(caps, m.alloc, slot),
             slotToInstance := m.slotToInstance - {slot},
             instanceToSlot := m.instanceToSlot - {id})
        else m;
      m1.(runtimes := m.runtimes - {id}, ids := Remove(m.ids, id))
  }

  predicate Chosen(r: Runtime, tenant: Option<Key>) {
    tenant.None? || tenant.value.text == "" || r.tenant == tenant.value
  }

  /** `emergencyKillAll` over a list of ids; without a tenant, or with an empty one, it means all. */
  function KillList(caps: Caps, m: Mgr, ids: seq<Key>, tenant: Option<Key>): Mgr
    decreases |ids|
  {
    if ids == [] then m
    else if ids[0] in m.runtimes && Chosen(m.runtimes[ids[0]], tenant) then
      KillList(caps, Terminated(caps, m, ids[0]), ids[1..], tenant)
    else KillList(caps, m, ids[1..], tenant)
  }

  /** One round of the loop in `emergencyKillAll`. */
  function KillStep(caps: Caps, m: Mgr, id: Key, tenant: Option<Key>): Mgr {
    if id in m.runtimes && Chosen(m.runtimes[id], tenant) then Terminated(caps, m, id) else m
  }

  lemma {:induction false} KillListAt(caps: Caps, m: Mgr, ids: seq<Key>, j: nat, tenant: Option<Key>)
    requires j < |ids|
    ensures KillList(caps, m, ids[j..], tenant)
         == KillList(caps, KillStep(caps, m, ids[j], tenant), ids[j + 1..], tenant)
  {
    assert ids[j..][1..] == ids[j + 1..];
  }

  function KillAll(caps: Caps, m: Mgr, tenant: Option<Key>): Mgr {
    KillList(caps, m, m.ids, tenant)
  }

  /** `shutdown` up to its await, and after it. */
  function Halted(m: Mgr): Mgr {
    m.(shuttingDown := true, alloc := m.alloc.(draining := true), stopping := m.stopping + 1)
  }

  function Shutdown(caps: Caps, m: Mgr): Mgr {
    KillAll(caps, Halted(m), None)
  }

  function Clear(m: Mgr): Mgr {
    if m.stopping == 0 then m
    else m.(runtimes := map[], ids := [], slotToInstance := map[], instanceToSlot := map[], stopping := m.stopping - 1)
  }

  // ---------------------------------------------------------------- invariant

  /** The k-th promise was resolved with slot k + 1, and active slots carry its request. */
  ghost predicate Issued(a: Alloc) {
    && |a.granted| == a.counter
    && (forall k :: 0 <= k < |a.granted| ==> a.granted[k].1 == k + 1)
    && (forall id :: id in a.active ==> 1 <= id <= a.counter)
    && (forall id :: id in a.active ==>
          var r := a.granted[id - 1].0; a.active[id] == Slot(r.tenant, r.agent, r.session))
  }

  /** Each live runtime holds exactly one active slot, its own; every other active slot is in
      flight to the call it was granted to. The two slot maps are inverse. */
  ghost predicate Linked(m: Mgr) {
    && m.runtimes.Keys == m.instanceToSlot.Keys
    && (forall id :: id in m.instanceToSlot ==>
          m.instanceToSlot[id] in m.slotToInstance && m.slotToInstance[m.instanceToSlot[id]] == id)
    && (forall s :: s in m.slotToInstance ==>
          m.slotToInstance[s] in m.instanceToSlot && m.instanceToSlot[m.slotToInstance[s]] == s)
    && (forall s :: s in m.slotToInstance ==>
          && s in m.claimed && s in m.alloc.active
          && var id := m.slotToInstance[s];
             var a := m.alloc.active[s];
             a.session == id && m.runtimes[id] == Runtime(id, a.tenant, a.agent))
    && (forall s :: s in m.alloc.active && s in m.claimed ==> s in m.slotToInstance)
    && (forall s :: s in m.claimed ==> s <= m.alloc.counter)
  }

  ghost predicate Listed(m: Mgr) {
    && (forall i, j :: 0 <= i < j < |m.ids| ==> m.ids[i] != m.ids[j])
    && (forall id :: id in m.ids <==> id in m.runtimes)
  }

  ghost predicate Inv(caps: Caps, m: Mgr) {
    Sound(caps, m.alloc) && Issued(m.alloc) && Linked(m) && Listed(m)
  }

  // ---------------------------------------------------------------- the allocator underneath

  lemma {:induction false} ScanIssues(caps: Caps, a: Alloc, i: nat)
    requires Issued(a) && i <= |a.queue|
    ensures Issued(Scan(caps, a, i))
    decreases |a.queue| - i
  {
    if i == |a.queue| {
    } else if CanAllocate(caps, a, a.queue[i]) {
      GrantIssues(a.(queue := RemoveAt(a.queue, i)), a.queue[i]);
      ScanIssues(caps, GrantAt(a, i), i);
    } else {
      ScanIssues(caps, a, i + 1);
    }
  }

  lemma {:induction false} GrantIssues(a: Alloc, r: Request)
    requires Issued(a)
    ensures Issued(Grant(a, r))
  {
    assert Grant(a, r).granted[|a.granted|] == (r, a.counter + 1);
  }

  /** A manager whose allocator served more requests, without touching the slots it had. */
  ghost predicate Serves(a: Alloc, b: Alloc) {
    && b.counter >= a.counter
    && (forall s :: s <= a.counter ==> (s in b.active <==> s in a.active))
    && (forall s :: s <= a.counter && s in a.active ==> b.active[s] == a.active[s])
  }

  lemma {:induction false} ServingKeepsLinked(m: Mgr, b: Alloc)
    requires Linked(m) && Serves(m.alloc, b)
    requires forall s :: s in m.alloc.active ==> s <= m.alloc.counter
    ensures Linked(m.(alloc := b))
  {
  }

  lemma {:induction false} RequestServes(caps: Caps, a: Alloc, r: Request)
    requires Issued(a)
    ensures var b := RequestSlot(caps, a, r).1;
            Issued(b) && Serves(a, b)
  {
    GrantIssues(a, r);
  }

  lemma {:induction false} RequestKeeps(caps: Caps, m: Mgr, r: Request)
    requires Inv(caps, m)
    ensures Inv(caps, Create(caps, m, r))
  {
    var b := RequestSlot(caps, m.alloc, r).1;
    StepKeepsSound(caps, m.alloc, DoRequest(r));
    RequestServes(caps, m.alloc, r);
    ServingKeepsLinked(m, b);
  }

  // ---------------------------------------------------------------- termination

  lemma {:induction false} RemoveSpec(ids: seq<Key>, id: Key)
    requires forall i, j :: 0 <= i < j < |ids| ==> ids[i] != ids[j]
    ensures var r := Remove(ids, id);
            && (forall i, j :: 0 <= i < j < |r| ==> r[i] != r[j])
            && (forall x :: x in r <==> x in ids && x != id)
    decreases |ids|
  {
    if ids != [] {
      var rest := ids[1..];
      assert forall j :: 0 <= j < |rest| ==> rest[j] == ids[j + 1];
      assert ids[0] !in rest;
      RemoveSpec(rest, id);
      forall x
        ensures x in Remove(ids, id) <==> x in ids && x != id
      {
        assert x in ids <==> x == ids[0] || x in rest;
      }
      if ids[0] != id {
        assert Remove(ids, id) == [ids[0]] + Remove(rest, id);
        assert ids[0] !in Remove(rest, id);
      }
    }
  }

  /** Removing the id at a position moves the following ones up. */
  lemma {:induction false} RemoveHere(ids: seq<Key>, j: nat)
    requires j < |ids| && forall i, k :: 0 <= i < k < |ids| ==> ids[i] != ids[k]
    ensures Remove(ids, ids[j]) == ids[..j] + ids[j + 1..]
    decreases |ids|
  {
    if j > 0 {
      var rest := ids[1..];
      assert forall k :: 0 <= k < |rest| ==> rest[k] == ids[k + 1];
      RemoveHere(rest, j - 1);
      assert [ids[0]] + (rest[..j - 1] + rest[j..]) == ids[..j] + ids[j + 1..];
    }
  }

  /** What terminating a live runtime does to the slots that existed before: its own slot is
      released, every other one stays with its holder. */
  ghost predicate ReleasesOnly(a: Alloc, b: Alloc, slots: set<nat>) {
    && b.counter >= a.counter
    && (forall s :: s <= a.counter ==> (s in b.active <==> s in a.active && s !in slots))
    && (forall s :: s <= a.counter && s in b.active ==> b.active[s] == a.active[s])
  }

  lemma {:induction false} ReleaseKeeps(caps: Caps, a: Alloc, slot: nat)
    requires Sound(caps, a) && Issued(a) && slot in a.active
    ensures var b := ReleaseSlot(caps, a, slot);
            Sound(caps, b) && Issued(b) && ReleasesOnly(a, b, {slot})
  {
    StepKeepsSound(caps, a, DoRelease(slot));
    ReleaseIssues(caps, a, slot);
  }

  lemma {:induction false} ReleaseIssues(caps: Caps, a: Alloc, slot: nat)
    requires Issued(a) && slot in a.active
    ensures var b := ReleaseSlot(caps, a, slot);
            Issued(b) && ReleasesOnly(a, b, {slot})
  {
    if !a.draining {
      ScanIssues(caps, Free(a, slot), 0);
      ScanFrame(caps, Free(a, slot), 0);
    }
  }

  lemma {:induction false} TerminatedKeeps(caps: Caps, m: Mgr, id: Key)
    requires Inv(caps, m)
    ensures Inv(caps, Terminated(caps, m, id))
    ensures id in m.runtimes ==>
              ReleasesOnly(m.alloc, Terminated(caps, m, id).alloc, {m.instanceToSlot[id]})
  {
    if id in m.runtimes {
      var slot := m.instanceToSlot[id];
      ReleaseKeeps(caps, m.alloc, slot);
      TerminatedLinks(m, ReleaseSlot(caps, m.alloc, slot), id);
      TerminatedLists(m, Terminated(caps, m, id), id);
    }
  }

  lemma {:induction false} TerminatedLists(m: Mgr, m': Mgr, id: Key)
    requires Listed(m) && m'.ids == Remove(m.ids, id) && m'.runtimes == m.runtimes - {id}
    ensures Listed(m')
  {
    RemoveSpec(m.ids, id);
  }

  lemma {:induction false} TerminatedLinks(m: Mgr, b: Alloc, id: Key)
    requires Linked(m) && id in m.runtimes
    requires forall s :: s in m.alloc.active ==> s <= m.alloc.counter
    requires ReleasesOnly(m.alloc, b, {m.instanceToSlot[id]})
    ensures var slot := m.instanceToSlot[id];
            Linked(m.(alloc := b, runtimes := m.runtimes - {id}, ids := Remove(m.ids, id),
                      slotToInstance := m.slotToInstance - {slot}, instanceToSlot := m.instanceToSlot - {id}))
  {
    var slot := m.instanceToSlot[id];
    assert forall s :: s in m.slotToInstance && s != slot ==> m.slotToInstance[s] != id;
    assert forall k :: k in m.instanceToSlot && k != id ==> m.instanceToSlot[k] != slot;
  }

  /** Handling the same termination again changes nothing. */
  lemma {:induction false} TerminatedTwice(caps: Caps, m: Mgr, id: Key)
    ensures Terminated(caps, Terminated(caps, m, id), id) == Terminated(caps, m, id)
  {
  }

  /** The slots held by the chosen runtimes among `ids`. */
  function SlotsOf(m: Mgr, ids: seq<Key>, tenant: Option<Key>): set<nat> {
    set id | id in ids && id in m.runtimes && id in m.instanceToSlot && Chosen(m.runtimes[id], tenant)
      :: m.instanceToSlot[id]
  }

  lemma {:induction false} ReleasesCompose(a: Alloc, b: Alloc, c: Alloc, s: set<nat>, t: set<nat>)
    requires ReleasesOnly(a, b, s) && ReleasesOnly(b, c, t)
    ensures ReleasesOnly(a, c, s + t)
  {
  }

  lemma {:induction false} SlotsOfTail(caps: Caps, m: Mgr, ids: seq<Key>, tenant: Option<Key>)
    requires Linked(m) && ids != []
    requires ids[0] in m.runtimes && Chosen(m.runtimes[ids[0]], tenant)
    ensures SlotsOf(m, ids, tenant)
         == {m.instanceToSlot[ids[0]]} + SlotsOf(Terminated(caps, m, ids[0]), ids[1..], tenant)
  {
    var m1 := Terminated(caps, m, ids[0]);
    assert m1.runtimes == m.runtimes - {ids[0]} && m1.instanceToSlot == m.instanceToSlot - {ids[0]};
    SlotsWithout(m, m1, ids, tenant);
  }

  lemma {:induction false} SlotsWithout(m: Mgr, m1: Mgr, ids: seq<Key>, tenant: Option<Key>)
    requires ids != [] && m.runtimes.Keys == m.instanceToSlot.Keys
    requires ids[0] in m.runtimes && Chosen(m.runtimes[ids[0]], tenant)
    requires m1.runtimes == m.runtimes - {ids[0]} && m1.instanceToSlot == m.instanceToSlot - {ids[0]}
    ensures SlotsOf(m, ids, tenant) == {m.instanceToSlot[ids[0]]} + SlotsOf(m1, ids[1..], tenant)
  {
    assert forall x :: x in ids <==> x == ids[0] || x in ids[1..];
  }

  /** What killing a list leaves: the runtimes that are not chosen from it, as they were. */
  ghost predicate Spares(m: Mgr, k: Mgr, ids: seq<Key>, tenant: Option<Key>) {
    && (forall id :: id in k.runtimes <==> id in m.runtimes && !(id in ids && Chosen(m.runtimes[id], tenant)))
    && (forall id :: id in k.runtimes ==> k.runtimes[id] == m.runtimes[id])
    && (forall id :: id in k.runtimes ==> id in k.instanceToSlot && id in m.instanceToSlot)
    && (forall id :: id in k.runtimes ==> k.instanceToSlot[id] == m.instanceToSlot[id])
  }

  /** Killing a list releases exactly the slots of its chosen runtimes, each once, and leaves
      the other runtimes as they were. */
  lemma {:induction false} KillListExact(caps: Caps, m: Mgr, ids: seq<Key>, tenant: Option<Key>)
    requires Inv(caps, m)
    ensures var k := KillList(caps, m, ids, tenant);
            && Inv(caps, k)
            && ReleasesOnly(m.alloc, k.alloc, SlotsOf(m, ids, tenant))
            && Spares(m, k, ids, tenant)
    decreases |ids|
  {
    if ids == [] {
    } else if ids[0] in m.runtimes && Chosen(m.runtimes[ids[0]], tenant) {
      KillOneMore(caps, m, ids, tenant);
    } else {
      KillListExact(caps, m, ids[1..], tenant);
      SkipOne(m, KillList(caps, m, ids[1..], tenant), ids, tenant);
    }
  }

  lemma {:induction false} KillListKeeps(caps: Caps, m: Mgr, ids: seq<Key>, tenant: Option<Key>)
    requires Inv(caps, m)
    ensures Inv(caps, KillList(caps, m, ids, tenant))
    decreases |ids|
  {
    if ids != [] {
      if ids[0] in m.runtimes && Chosen(m.runtimes[ids[0]], tenant) {
        TerminatedKeeps(caps, m, ids[0]);
        KillListKeeps(caps, Terminated(caps, m, ids[0]), ids[1..], tenant);
      } else {
        KillListKeeps(caps, m, ids[1..], tenant);
      }
    }
  }

  lemma {:induction false} SkipOne(m: Mgr, k: Mgr, ids: seq<Key>, tenant: Option<Key>)
    requires ids != [] && !(ids[0] in m.runtimes && Chosen(m.runtimes[ids[0]], tenant))
    requires Spares(m, k, ids[1..], tenant)
    ensures Spares(m, k, ids, tenant)
    ensures SlotsOf(m, ids, tenant) == SlotsOf(m, ids[1..], tenant)
  {
    assert forall x :: x in ids <==> x == ids[0] || x in ids[1..];
  }

  lemma {:induction false} KillOneMore(caps: Caps, m: Mgr, ids: seq<Key>, tenant: Option<Key>)
    requires Inv(caps, m) && ids != []
    requires ids[0] in m.runtimes && Chosen(m.runtimes[ids[0]], tenant)
    ensures var k := KillList(caps, m, ids, tenant);
            && Inv(caps, k)
            && ReleasesOnly(m.alloc, k.alloc, SlotsOf(m, ids, tenant))
            && Spares(m, k, ids, tenant)
    decreases |ids|, 0
  {
    var m1 := Terminated(caps, m, ids[0]);
    TerminatedKeeps(caps, m, ids[0]);
    KillListExact(caps, m1, ids[1..], tenant);
    SlotsOfTail(caps, m, ids, tenant);
    var k := KillList(caps, m1, ids[1..], tenant);
    ReleasesCompose(m.alloc, m1.alloc, k.alloc, {m.instanceToSlot[ids[0]]}, SlotsOf(m1, ids[1..], tenant));
    SparesMore(m, m1, k, ids, tenant);
  }

  lemma {:induction false} SparesMore(m: Mgr, m1: Mgr, k: Mgr, ids: seq<Key>, tenant: Option<Key>)
    requires ids != [] && ids[0] in m.runtimes && Chosen(m.runtimes[ids[0]], tenant)
    requires m1.runtimes == m.runtimes - {ids[0]} && m1.instanceToSlot == m.instanceToSlot - {ids[0]}
    requires Spares(m1, k, ids[1..], tenant)
    ensures Spares(m, k, ids, tenant)
  {
    assert forall x :: x in ids <==> x == ids[0] || x in ids[1..];
  }

  /** No tenant was named, or an empty one. */
  predicate Everyone(tenant: Option<Key>) {
    tenant == None || tenant == Some(Key(""))
  }

  /** An emergency kill of a tenant leaves exactly the runtimes of the others, with their slots, and
      releases exactly the slots that runtimes of that tenant held; without a tenant it leaves
      nobody and releases every slot that was held. */
  lemma {:induction false} KillAllExact(caps: Caps, m: Mgr, tenant: Option<Key>)
    requires Inv(caps, m)
    ensures var k := KillAll(caps, m, tenant);
            && Inv(caps, k)
            && (forall id :: id in k.runtimes <==>
                  id in m.runtimes && !Everyone(tenant) && m.runtimes[id].tenant != tenant.value)
            && (forall id :: id in k.runtimes ==>
                  k.runtimes[id] == m.runtimes[id] && k.instanceToSlot[id] == m.instanceToSlot[id])
            && (forall s :: s <= m.alloc.counter ==>
                  (s in k.alloc.active <==>
                     && s in m.alloc.active
                     && (s in m.slotToInstance ==> !Everyone(tenant) && m.alloc.active[s].tenant != tenant.value)))
  {
    KillListExact(caps, m, m.ids, tenant);
    ChosenExactly(m, tenant);
    var slots := SlotsOf(m, m.ids, tenant);
    forall s | s in m.alloc.active
      ensures s in slots <==>
                s in m.slotToInstance && (Everyone(tenant) || m.alloc.active[s].tenant == tenant.value)
    {
      if s in m.slotToInstance {
        assert m.slotToInstance[s] in m.ids;
      }
    }
  }

  lemma {:induction false} ChosenExactly(m: Mgr, tenant: Option<Key>)
    ensures forall id :: id in m.runtimes ==>
              (Chosen(m.runtimes[id], tenant) <==> Everyone(tenant) || m.runtimes[id].tenant == tenant.value)
  {
  }

  /** Up to its await a shutdown releases the slot of every live runtime and leaves none. */
  lemma {:induction false} ShutdownReleasesAll(caps: Caps, m: Mgr)
    requires Inv(caps, m)
    ensures var k := Shutdown(caps, m);
            && Inv(caps, k) && k.runtimes == map[]
            && (forall s :: s <= m.alloc.counter ==>
                  (s in k.alloc.active <==> s in m.alloc.active && s !in m.slotToInstance))
  {
    DrainingKeeps(caps, m);
    KillAllExact(caps, Halted(m), None);
    assert forall id :: id !in Shutdown(caps, m).runtimes;
  }

  lemma {:induction false} DrainingKeeps(caps: Caps, m: Mgr)
    requires Inv(caps, m)
    ensures Inv(caps, Halted(m))
  {
    StepKeepsSound(caps, m.alloc, DoDrain(true));
    HaltingLinks(m);
    assert Issued(Halted(m).alloc);
  }

  lemma {:induction false} HaltingLinks(m: Mgr)
    requires Linked(m)
    ensures Linked(Halted(m))
  {
  }

  lemma {:induction false} FirstListed(ids: seq<Key>, keys: set<Key>)
    requires forall id :: id in ids <==> id in keys
    ensures |ids| > 0 ==> ids[0] in keys
  {
  }

  lemma {:induction false} NoRuntimesNoMaps(caps: Caps, k: Mgr)
    requires Inv(caps, k) && forall id :: id !in k.runtimes
    ensures k.runtimes == map[] && k.instanceToSlot == map[] && k.slotToInstance == map[] && k.ids == []
  {
    FirstListed(k.ids, k.runtimes.Keys);
  }

  // ---------------------------------------------------------------- whole runs

  datatype MgrOp =
    | OpCreate(request: Request)
    | OpClaim(slot: nat)
    | OpTerminate(id: Key)
    | OpKillAll(tenant: Option<Key>)
    | OpExpire(requestId: Key)
    | OpShutdown
    | OpClear

  function MgrStep(caps: Caps, m: Mgr, op: MgrOp): Mgr {
    match op
    case OpCreate(r) => Create(caps, m, r)
    case OpClaim(slot) => Claim(m, slot)
    case OpTerminate(id) => Terminated(caps, m, id)
    case OpKillAll(tenant) => KillAll(caps, m, tenant)
    case OpExpire(requestId) => m.(alloc := Expire(m.alloc, requestId))
    case OpShutdown => Shutdown(caps, m)
    case OpClear => Clear(m)
  }

  function MgrRun(caps: Caps, ops: seq<MgrOp>, n: nat): Mgr
    requires n <= |ops|
  {
    if n == 0 then START else MgrStep(caps, MgrRun(caps, ops, n - 1), ops[n - 1])
  }

  /** The operation starts no second runtime under the id of a live one, and clears no map
      in which a runtime is registered. */
  predicate Clean(m: Mgr, op: MgrOp) {
    match op
    case OpClaim(slot) => slot in InFlight(m) ==> m.alloc.active[slot].session !in m.runtimes
    case OpClear => m.stopping > 0 ==> m.runtimes == map[]
    case _ => true
  }

  /** A slot that no runtime holds and no call waits for, although it is active. */
  ghost predicate Lost(m: Mgr, s: nat) {
    && s in m.alloc.active && s in m.claimed && s <= m.alloc.counter
    && forall id :: id in m.instanceToSlot ==> m.instanceToSlot[id] != s
  }

  lemma {:induction false} InvLosesNothing(caps: Caps, m: Mgr, s: nat)
    requires Inv(caps, m)
    ensures !Lost(m, s)
  {
  }

  /** Claiming keeps the accounting exactly when the session is not live already; otherwise
      the older slot is lost. */
  lemma {:induction false} ClaimExact(caps: Caps, m: Mgr, slot: nat)
    requires Inv(caps, m)
    ensures Inv(caps, Claim(m, slot)) <==> Clean(m, OpClaim(slot))
    ensures !Clean(m, OpClaim(slot)) ==> Lost(Claim(m, slot), m.instanceToSlot[m.alloc.active[slot].session])
  {
    if slot in InFlight(m) {
      if m.alloc.active[slot].session in m.runtimes {
        ClaimLeaks(m, slot);
      } else {
        ClaimLinks(m, slot);
      }
    }
  }

  /** Clearing the maps keeps the accounting exactly when no runtime is registered; otherwise
      the slots of all registered runtimes are lost. */
  lemma {:induction false} ClearExact(caps: Caps, m: Mgr)
    requires Inv(caps, m)
    ensures Inv(caps, Clear(m)) <==> Clean(m, OpClear)
    ensures !Clean(m, OpClear) ==> forall id :: id in m.runtimes ==> Lost(Clear(m), m.instanceToSlot[id])
  {
    if m.stopping > 0 {
      if m.runtimes == map[] {
        HarmlessClear(caps, m);
      } else {
        DirtyClear(caps, m);
      }
    }
  }

  lemma {:induction false} DirtyClear(caps: Caps, m: Mgr)
    requires Inv(caps, m) && m.stopping > 0 && m.runtimes != map[]
    ensures !Inv(caps, Clear(m)) && forall id :: id in m.runtimes ==> Lost(Clear(m), m.instanceToSlot[id])
  {
    forall id | id in m.runtimes
      ensures Lost(Clear(m), m.instanceToSlot[id]) && !Inv(caps, Clear(m))
    {
      ClearLoses(caps, m, id);
    }
    var id :| id in m.runtimes;
  }

  lemma {:induction false} ClearLoses(caps: Caps, m: Mgr, id: Key)
    requires Inv(caps, m) && m.stopping > 0 && id in m.runtimes
    ensures Lost(Clear(m), m.instanceToSlot[id]) && !Inv(caps, Clear(m))
  {
    assert Lost(Clear(m), m.instanceToSlot[id]);
    if Inv(caps, Clear(m)) {
      InvLosesNothing(caps, Clear(m), m.instanceToSlot[id]);
    }
  }

  lemma {:induction false} HarmlessClear(caps: Caps, m: Mgr)
    requires Inv(caps, m) && m.stopping > 0 && m.runtimes == map[]
    ensures Inv(caps, Clear(m))
  {
    NoRuntimesNoMaps(caps, m);
    assert Clear(m) == m.(stopping := m.stopping - 1);
  }

  lemma {:induction false} ClaimLinks(m: Mgr, slot: nat)
    requires Linked(m) && Listed(m) && slot in InFlight(m) && slot <= m.alloc.counter
    requires m.alloc.active[slot].session !in m.runtimes
    ensures Linked(Claim(m, slot)) && Listed(Claim(m, slot))
  {
    var m' := Claim(m, slot);
    ClaimedLinks(m, m', slot, m.alloc.active[slot]);
  }

  lemma {:induction false} ClaimedLinks(m: Mgr, m': Mgr, slot: nat, a: Slot)
    requires Linked(m) && Listed(m) && slot in m.alloc.active && a == m.alloc.active[slot] && slot !in m.claimed
    requires a.session !in m.runtimes && slot <= m.alloc.counter && m'.alloc == m.alloc
    requires m'.runtimes == m.runtimes[a.session := Runtime(a.session, a.tenant, a.agent)]
    requires m'.ids == m.ids + [a.session] && m'.claimed == m.claimed + {slot}
    requires m'.slotToInstance == m.slotToInstance[slot := a.session]
    requires m'.instanceToSlot == m.instanceToSlot[a.session := slot]
    ensures Linked(m') && Listed(m')
  {
    assert slot !in m.slotToInstance;
    assert m'.runtimes.Keys == m'.instanceToSlot.Keys;
  }

  lemma {:induction false} ClaimLeaks(m: Mgr, slot: nat)
    requires Linked(m) && slot in InFlight(m) && m.alloc.active[slot].session in m.runtimes
    requires forall s :: s in m.alloc.active ==> s <= m.alloc.counter
    ensures !Linked(Claim(m, slot)) && Lost(Claim(m, slot), m.instanceToSlot[m.alloc.active[slot].session])
  {
    var session := m.alloc.active[slot].session;
    var older := m.instanceToSlot[session];
    var m' := Claim(m, slot);
    assert older in m'.slotToInstance && m'.slotToInstance[older] == session;
    assert m'.instanceToSlot[session] == slot != older;
  }

  lemma {:induction false} ExpireKeeps(caps: Caps, m: Mgr, requestId: Key)
    requires Inv(caps, m)
    ensures Inv(caps, m.(alloc := Expire(m.alloc, requestId)))
  {
    StepKeepsSound(caps, m.alloc, DoExpire(requestId));
    ServingKeepsLinked(m, Expire(m.alloc, requestId));
  }

  /** Exactly the clean operations keep the accounting, and exactly the others lose a slot. */
  lemma {:induction false} StepExact(caps: Caps, m: Mgr, op: MgrOp)
    requires Inv(caps, m)
    ensures Inv(caps, MgrStep(caps, m, op)) <==> Clean(m, op)
    ensures (exists s :: Lost(MgrStep(caps, m, op), s)) <==> !Clean(m, op)
  {
    var m' := MgrStep(caps, m, op);
    match op
    case OpClaim(slot) => ClaimExact(caps, m, slot);
    case OpClear =>
      ClearExact(caps, m);
      if !Clean(m, op) {
        var id :| id in m.runtimes;
        assert Lost(m', m.instanceToSlot[id]);
      }
    case _ => OthersKeepInv(caps, m, op);
    if Inv(caps, m') {
      forall s ensures !Lost(m', s) { InvLosesNothing(caps, m', s); }
    }
  }

  lemma {:induction false} OthersKeepInv(caps: Caps, m: Mgr, op: MgrOp)
    requires Inv(caps, m) && !op.OpClaim? && !op.OpClear?
    ensures Inv(caps, MgrStep(caps, m, op))
  {
    match op
    case OpCreate(_) => CreateStepKeeps(caps, m, op);
    case OpTerminate(_) => TerminateStepKeeps(caps, m, op);
    case OpKillAll(_) => KillStepKeeps(caps, m, op);
    case OpExpire(_) => ExpireStepKeeps(caps, m, op);
    case OpShutdown => ShutdownStepKeeps(caps, m, op);
  }

  lemma {:induction false} CreateStepKeeps(caps: Caps, m: Mgr, op: MgrOp)
    requires Inv(caps, m) && op.OpCreate?
    ensures Inv(caps, MgrStep(caps, m, op))
  {
    RequestKeeps(caps, m, op.request);
  }

  lemma {:induction false} TerminateStepKeeps(caps: Caps, m: Mgr, op: MgrOp)
    requires Inv(caps, m) && op.OpTerminate?
    ensures Inv(caps, MgrStep(caps, m, op))
  {
    TerminatedKeeps(caps, m, op.id);
  }

  lemma {:induction false} KillStepKeeps(caps: Caps, m: Mgr, op: MgrOp)
    requires Inv(caps, m) && op.OpKillAll?
    ensures Inv(caps, MgrStep(caps, m, op))
  {
    KillListKeeps(caps, m, m.ids, op.tenant);
  }

  lemma {:induction false} ExpireStepKeeps(caps: Caps, m: Mgr, op: MgrOp)
    requires Inv(caps, m) && op.OpExpire?
    ensures Inv(caps, MgrStep(caps, m, op))
  {
    ExpireKeeps(caps, m, op.requestId);
  }

  lemma {:induction false} ShutdownStepKeeps(caps: Caps, m: Mgr, op: MgrOp)
    requires Inv(caps, m) && op.OpShutdown?
    ensures Inv(caps, MgrStep(caps, m, op))
  {
    DrainingKeeps(caps, m);
    KillListKeeps(caps, Halted(m), m.ids, None);
  }

  ghost predicate AlwaysInv(caps: Caps, ops: seq<MgrOp>, n: nat)
    requires n <= |ops|
  {
    Inv(caps, MgrRun(caps, ops, n)) && (n > 0 ==> AlwaysInv(caps, ops, n - 1))
  }

  ghost predicate CleanRun(caps: Caps, ops: seq<MgrOp>, n: nat)
    requires n <= |ops|
  {
    n > 0 ==> CleanRun(caps, ops, n - 1) && Clean(MgrRun(caps, ops, n - 1), ops[n - 1])
  }

  lemma {:induction false} StartKeeps(caps: Caps)
    ensures Inv(caps, START)
  {
    EmptyIsSound(caps);
  }

  /** At every moment of a run each live runtime holds exactly one slot, the slot maps are
      inverse, and every other active slot is in flight, if and only if no operation of the run
      claimed a live session or cleared a registered runtime. */
  lemma {:induction false} RunKeepsInv(caps: Caps, ops: seq<MgrOp>, n: nat)
    requires n <= |ops|
    ensures AlwaysInv(caps, ops, n) <==> CleanRun(caps, ops, n)
  {
    InvAtStart(caps, ops);
    for k := 0 to n
      invariant AlwaysInv(caps, ops, k) <==> CleanRun(caps, ops, k)
    {
      InvThen(caps, ops, k);
    }
  }

  lemma {:induction false} InvAtStart(caps: Caps, ops: seq<MgrOp>)
    ensures AlwaysInv(caps, ops, 0) && CleanRun(caps, ops, 0)
  {
    StartKeeps(caps);
  }

  lemma {:induction false} InvThen(caps: Caps, ops: seq<MgrOp>, n: nat)
    requires n < |ops| && (AlwaysInv(caps, ops, n) <==> CleanRun(caps, ops, n))
    ensures AlwaysInv(caps, ops, n + 1) <==> CleanRun(caps, ops, n + 1)
  {
    if AlwaysInv(caps, ops, n) {
      StepExact(caps, MgrRun(caps, ops, n), ops[n]);
    }
  }

  // ---------------------------------------------------------------- slots for ever

  /** Operations other than a claim, on the slots that exist before them. */
  ghost predicate KeepsLost(m: Mgr, m': Mgr, s: nat) {
    Lost(m, s) ==> Lost(m', s)
  }

  ghost predicate RevivesNot(a: Alloc, b: Alloc, s: nat) {
    && a.counter <= b.counter
    && (s <= a.counter && s !in a.active ==> s !in b.active)
  }

  lemma {:induction false} ReleaseOnly(caps: Caps, a: Alloc, slot: nat, s: nat)
    requires s <= a.counter
    ensures var b := ReleaseSlot(caps, a, slot);
            b.counter >= a.counter && (s in b.active <==> s in a.active && s != slot)
  {
    if slot in a.active && !a.draining {
      ScanFrame(caps, Free(a, slot), 0);
    }
  }

  lemma {:induction false} TerminatedSlots(caps: Caps, m: Mgr, id: Key, s: nat)
    requires s <= m.alloc.counter
    ensures var m' := Terminated(caps, m, id);
            && KeepsLost(m, m', s) && RevivesNot(m.alloc, m'.alloc, s)
  {
    if id in m.runtimes && id in m.instanceToSlot {
      ReleaseOnly(caps, m.alloc, m.instanceToSlot[id], s);
    }
  }

  lemma {:induction false} KillListSlots(caps: Caps, m: Mgr, ids: seq<Key>, tenant: Option<Key>, s: nat)
    requires s <= m.alloc.counter
    ensures var m' := KillList(caps, m, ids, tenant);
            && KeepsLost(m, m', s) && RevivesNot(m.alloc, m'.alloc, s)
    decreases |ids|
  {
    if ids != [] {
      TerminatedSlots(caps, m, ids[0], s);
      KillListSlots(caps, KillStep(caps, m, ids[0], tenant), ids[1..], tenant, s);
    }
  }

  /** In every run a lost slot stays lost and a released one never becomes active again. */
  lemma {:induction false} StepSlots(caps: Caps, m: Mgr, op: MgrOp, s: nat)
    requires s <= m.alloc.counter
    ensures var m' := MgrStep(caps, m, op);
            && KeepsLost(m, m', s) && RevivesNot(m.alloc, m'.alloc, s)
  {
    match op
    case OpTerminate(id) => TerminatedSlots(caps, m, id, s);
    case OpKillAll(tenant) => KillListSlots(caps, m, m.ids, tenant, s);
    case OpShutdown =>
      KillListSlots(caps, Halted(m), m.ids, None, s);
    case _ =>
  }

  /** A lost slot is active in every continuation of the run. */
  lemma {:induction false} LostForGood(caps: Caps, ops: seq<MgrOp>, i: nat, n: nat, s: nat)
    requires i <= n <= |ops| && Lost(MgrRun(caps, ops, i), s)
    ensures Lost(MgrRun(caps, ops, n), s)
    decreases n
  {
    if i < n {
      LostForGood(caps, ops, i, n - 1, s);
      StepSlots(caps, MgrRun(caps, ops, n - 1), ops[n - 1], s);
    }
  }

  ghost predicate Released(m: Mgr, s: nat) {
    s <= m.alloc.counter && s !in m.alloc.active
  }

  /** A released slot never becomes active again, so no run releases a slot twice. */
  lemma {:induction false} ReleasedForGood(caps: Caps, ops: seq<MgrOp>, i: nat, n: nat, s: nat)
    requires i <= n <= |ops| && Released(MgrRun(caps, ops, i), s)
    ensures Released(MgrRun(caps, ops, n), s)
    decreases n
  {
    if i < n {
      ReleasedForGood(caps, ops, i, n - 1, s);
      StepReleased(caps, MgrRun(caps, ops, n - 1), ops[n - 1], s);
    }
  }

  lemma {:induction false} StepReleased(caps: Caps, m: Mgr, op: MgrOp, s: nat)
    requires Released(m, s)
    ensures Released(MgrStep(caps, m, op), s)
  {
    StepSlots(caps, m, op, s);
  }

  lemma {:induction false} KillNobody(caps: Caps, m: Mgr, ids: seq<Key>, tenant: Option<Key>)
    requires m.runtimes == map[]
    ensures KillList(caps, m, ids, tenant) == m
    decreases |ids|
  {
    if ids != [] {
      KillNobody(caps, m, ids[1..], tenant);
    }
  }

  /** What a clear can lose are the runtimes claimed since the shutdown killed all others. */
  lemma {:induction false} OnlyClaimsRefill(caps: Caps, ops: seq<MgrOp>, i: nat, n: nat)
    requires i < n <= |ops| && ops[i].OpShutdown? && CleanRun(caps, ops, i)
    requires forall k :: i < k < n ==> !ops[k].OpClaim?
    ensures MgrRun(caps, ops, n).runtimes == map[]
    decreases n
  {
    var m := MgrRun(caps, ops, n - 1);
    if n == i + 1 {
      RunKeepsInv(caps, ops, i);
      ShutdownReleasesAll(caps, m);
    } else {
      OnlyClaimsRefill(caps, ops, i, n - 1);
      match ops[n - 1]
      case OpKillAll(tenant) => KillNobody(caps, m, m.ids, tenant);
      case OpShutdown =>
        KillNobody(caps, Halted(m), m.ids, None);
      case _ =>
    }
  }

  // ---------------------------------------------------------------- the order of the list

  ghost predicate Precedes(ids: seq<Key>, a: Key, b: Key) {
    exists i, j :: 0 <= i < j < |ids| && ids[i] == a && ids[j] == b
  }

  ghost predicate NoRepeats(ids: seq<Key>) {
    forall i, j :: 0 <= i < j < |ids| ==> ids[i] != ids[j]
  }

  lemma {:induction false} RemoveKeepsOrder(ids: seq<Key>, x: Key, a: Key, b: Key)
    requires NoRepeats(ids)
    ensures NoRepeats(Remove(ids, x)) && forall y :: y in Remove(ids, x) <==> y in ids && y != x
    ensures Precedes(ids, a, b) && a != x && b != x ==> Precedes(Remove(ids, x), a, b)
  {
    RemoveSpec(ids, x);
    if Precedes(ids, a, b) && a != x && b != x {
      var i, j :| 0 <= i < j < |ids| && ids[i] == a && ids[j] == b;
      RemoveKeepsPair(ids, x, i, j);
    }
  }

  lemma {:induction false} RemoveKeepsPair(ids: seq<Key>, x: Key, i: nat, j: nat)
    requires NoRepeats(ids) && i < j < |ids| && ids[i] != x && ids[j] != x
    ensures Precedes(Remove(ids, x), ids[i], ids[j])
  {
    if k: nat :| k < |ids| && ids[k] == x {
      RemoveHere(ids, k);
      PairStays(ids, k, i, j, ids[..k] + ids[k + 1..]);
    } else {
      RemoveNothing(ids, x);
    }
  }

  lemma {:induction false} PairStays(ids: seq<Key>, k: nat, i: nat, j: nat, left: seq<Key>)
    requires i < j < |ids| && k < |ids| && i != k && j != k && left == ids[..k] + ids[k + 1..]
    ensures Precedes(left, ids[i], ids[j])
  {
    var i', j' := if i < k then i else i - 1, if j < k then j else j - 1;
    assert left[i'] == ids[i] && left[j'] == ids[j];
  }

  lemma {:induction false} RemoveNothing(ids: seq<Key>, x: Key)
    requires x !in ids
    ensures Remove(ids, x) == ids
  {
    if ids != [] {
      RemoveNothing(ids[1..], x);
    }
  }

  /** Two runtimes that live through a step keep their order in the list, and a runtime that
      joins it comes last; so kills and shutdowns go through the runtimes in the order in which
      they registered. */
  lemma {:induction false} ListKeepsOrder(caps: Caps, m: Mgr, op: MgrOp, a: Key, b: Key)
    requires NoRepeats(m.ids) && (forall id :: id in m.ids <==> id in m.runtimes) && a in m.ids
    ensures var ids := MgrStep(caps, m, op).ids;
            a in ids && b in ids && (Precedes(m.ids, a, b) || b !in m.ids) ==> Precedes(ids, a, b)
  {
    match op
    case OpTerminate(id) => RemoveKeepsOrder(m.ids, id, a, b);
    case OpKillAll(tenant) => KillsKeepOrder(caps, m, m.ids, tenant, a, b);
    case OpShutdown => KillsKeepOrder(caps, Halted(m), m.ids, None, a, b);
    case OpClaim(slot) => ClaimJoinsLast(m, slot, a, b);
    case _ =>
  }

  lemma {:induction false} ClaimJoinsLast(m: Mgr, slot: nat, a: Key, b: Key)
    requires (forall id :: id in m.ids <==> id in m.runtimes) && a in m.ids
    ensures var ids := Claim(m, slot).ids; b in ids && (Precedes(m.ids, a, b) || b !in m.ids) ==> Precedes(ids, a, b)
  {
    var ids := Claim(m, slot).ids;
    if Precedes(m.ids, a, b) {
      var i, j :| 0 <= i < j < |m.ids| && m.ids[i] == a && m.ids[j] == b;
      assert ids[i] == a && ids[j] == b;
    } else if b in ids && b !in m.ids {
      var i :| 0 <= i < |m.ids| && m.ids[i] == a;
      assert ids[i] == a && ids[|m.ids|] == b;
    }
  }

  lemma {:induction false} KillsKeepOrder(caps: Caps, m: Mgr, ids: seq<Key>, tenant: Option<Key>, a: Key, b: Key)
    requires NoRepeats(m.ids)
    ensures var m' := KillList(caps, m, ids, tenant);
            && NoRepeats(m'.ids) && (forall y :: y in m'.ids ==> y in m.ids)
            && (Precedes(m.ids, a, b) && a in m'.ids && b in m'.ids ==> Precedes(m'.ids, a, b))
    decreases |ids|
  {
    if ids != [] {
      RemoveKeepsOrder(m.ids, ids[0], a, b);
      KillsKeepOrder(caps, KillStep(caps, m, ids[0], tenant), ids[1..], tenant, a, b);
    }
  }

  // ---------------------------------------------------------------- after a shutdown

  predicate Stopped(m: Mgr) {
    m.shuttingDown && m.alloc.draining
  }

  /** Slots may be freed, but nothing is served and nobody joins the queue. */
  ghost predicate ServesNothing(m: Mgr, m': Mgr) {
    && Stopped(m') && m'.alloc.granted == m.alloc.granted
    && |m'.alloc.queue| <= |m.alloc.queue|
    && forall s :: s in m'.alloc.active ==> s in m.alloc.active
  }

  lemma {:induction false} StoppedTerminates(caps: Caps, m: Mgr, id: Key)
    requires Stopped(m)
    ensures ServesNothing(m, Terminated(caps, m, id))
  {
  }

  lemma {:induction false} StoppedKills(caps: Caps, m: Mgr, ids: seq<Key>, tenant: Option<Key>)
    requires Stopped(m)
    ensures ServesNothing(m, KillList(caps, m, ids, tenant))
    decreases |ids|
  {
    if ids != [] {
      StoppedTerminates(caps, m, ids[0]);
      StoppedKills(caps, KillStep(caps, m, ids[0], tenant), ids[1..], tenant);
    }
  }

  lemma {:induction false} StoppedStep(caps: Caps, m: Mgr, op: MgrOp)
    requires Stopped(m)
    ensures ServesNothing(m, MgrStep(caps, m, op))
  {
    match op
    case OpTerminate(id) => StoppedTerminates(caps, m, id);
    case OpKillAll(tenant) => StoppedKills(caps, m, m.ids, tenant);
    case OpShutdown => StoppedKills(caps, Halted(m), m.ids, None);
    case OpExpire(requestId) => WithoutShrinks(m.alloc.queue, requestId);
    case _ =>
  }

  /** Whatever happens after a shutdown has begun, no request is served any more: no slot is
      granted, not even one that the shutdown itself frees, and nobody joins the queue. */
  lemma {:induction false} NothingAfterShutdown(caps: Caps, ops: seq<MgrOp>, i: nat, n: nat)
    requires i < n <= |ops| && ops[i].OpShutdown?
    ensures ServesNothing(MgrRun(caps, ops, i), MgrRun(caps, ops, n))
    decreases n
  {
    var m := MgrRun(caps, ops, n - 1);
    if n == i + 1 {
      StoppedKills(caps, Halted(m), m.ids, None);
    } else {
      NothingAfterShutdown(caps, ops, i, n - 1);
      StoppedStep(caps, m, ops[n - 1]);
    }
  }

  /** A queue timeout takes the first waiter with the id off the queue and changes nothing else. */
  lemma {:induction false} ExpiredExactly(caps: Caps, m: Mgr, requestId: Key, k: nat)
    requires k <= |m.alloc.queue| && forall i :: 0 <= i < k ==> m.alloc.queue[i].requestId != requestId
    requires k < |m.alloc.queue| ==> m.alloc.queue[k].requestId == requestId
    ensures var q := m.alloc.queue;
            MgrStep(caps, m, OpExpire(requestId))
            == m.(alloc := m.alloc.(queue := if k < |q| then q[..k] + q[k + 1..] else q))
  {
    WithoutIsExact(m.alloc.queue, requestId, k);
  }

  lemma {:induction false} WithoutShrinks(q: seq<Request>, requestId: Key)
    ensures |Without(q, requestId)| <= |q|
  {
    if q != [] && q[0].requestId != requestId {
      WithoutShrinks(q[1..], requestId);
    }
  }

  // ---------------------------------------------------------------- runs written out

  const PAIR := Caps(2, 2, 2)
  const FIRST := Request(Key("1"), Key("t"), Key("a"), Key("s"), NORMAL, 0)

  const HELD := Slot(Key("t"), Key("a"), Key("s"))

  lemma {:induction false} FirstInFlight()
    ensures var m := Create(PAIR, START, FIRST);
            m.alloc == Grant(EMPTY, FIRST) && InFlight(m) == {1} && m.alloc.active == map[1 := HELD]
  {
  }

  lemma {:induction false} FirstClaimed(m: Mgr)
    requires InFlight(m) == {1} && m.alloc.active == map[1 := HELD] && m.claimed == {} && m.alloc.counter == 1
    requires m.runtimes == map[] && m.instanceToSlot == map[]
    ensures var k := Claim(m, 1);
            && k.claimed == {1} && k.instanceToSlot == map[Key("s") := 1] && k.alloc == m.alloc
            && k.stopping == m.stopping && k.shuttingDown == m.shuttingDown
  {
  }

  /** Starting a second runtime under the session of a live one: from then on, whatever
      happens, the first one's slot stays active. */
  lemma {:induction false} DuplicateLosesSlot(ops: seq<MgrOp>, n: nat)
    requires 4 <= n <= |ops| && ops[..4] == [OpCreate(FIRST), OpClaim(1), OpCreate(FIRST), OpClaim(2)]
    ensures 1 in MgrRun(PAIR, ops, n).alloc.active
  {
    assert forall i :: 0 <= i < 4 ==> ops[i] == ops[..4][i];
    FirstInFlight();
    var m1, m2, m3 := MgrRun(PAIR, ops, 1), MgrRun(PAIR, ops, 2), MgrRun(PAIR, ops, 3);
    assert MgrRun(PAIR, ops, 0) == START;
    assert m1 == Create(PAIR, START, FIRST);
    FirstClaimed(m1);
    assert m2 == Claim(m1, 1);
    assert m3 == Create(PAIR, m2, FIRST) && m3.alloc == Grant(m2.alloc, FIRST) && 2 in InFlight(m3);
    assert MgrRun(PAIR, ops, 4) == Claim(m3, 2) && Lost(Claim(m3, 2), 1);
    LostForGood(PAIR, ops, 4, n, 1);
  }

  /** A shutdown that begins while a granted slot is in flight finds nothing to kill; the
      runtime registers during its await and the clear drops it: its slot stays active. */
  lemma {:induction false} ShutdownLosesSlot(ops: seq<MgrOp>, n: nat)
    requires 4 <= n <= |ops| && ops[..4] == [OpCreate(FIRST), OpShutdown, OpClaim(1), OpClear]
    ensures 1 in MgrRun(PAIR, ops, n).alloc.active
    ensures MgrRun(PAIR, ops, 4).runtimes == map[]
  {
    assert forall i :: 0 <= i < 4 ==> ops[i] == ops[..4][i];
    FirstInFlight();
    var m1, m2, m3 := MgrRun(PAIR, ops, 1), MgrRun(PAIR, ops, 2), MgrRun(PAIR, ops, 3);
    assert MgrRun(PAIR, ops, 0) == START;
    assert m1 == Create(PAIR, START, FIRST);
    KillNobody(PAIR, Halted(m1), m1.ids, None);
    assert m2 == Halted(m1) && InFlight(m2) == {1};
    FirstClaimed(m2);
    assert m3 == Claim(m2, 1);
    assert MgrRun(PAIR, ops, 4) == Clear(m3) && Lost(Clear(m3), 1);
    LostForGood(PAIR, ops, 4, n, 1);
  }
}
