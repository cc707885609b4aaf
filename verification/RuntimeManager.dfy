/** The runtime manager as an object over the allocator object. Instances change status in
    place, and terminating one runs the manager's handler in the middle of the change. */
module RuntimeManager {
  import opened Allocator
  import opened RuntimeModel
  import opened Shared
  import RuntimeAllocator

  datatype RuntimeStatus = READY | BUSY | PAUSED | TERMINATING | TERMINATED

  class RuntimeInstance {
    const info: Runtime
    var status: RuntimeStatus

    constructor (info: Runtime)
      ensures this.info == info && status == READY
    {
      this.info := info;
      status := READY;
    }
  }

  function Infos(runtimes: map<Key, RuntimeInstance>): map<Key, Runtime> {
    map id | id in runtimes :: runtimes[id].info
  }

  lemma {:induction false} InfosEnter(runtimes: map<Key, RuntimeInstance>, id: Key, instance: RuntimeInstance)
    ensures Infos(runtimes[id := instance]) == Infos(runtimes)[id := instance.info]
  {
  }

  class RuntimeManager {
    const allocator: RuntimeAllocator.RuntimeAllocator
    var runtimes: map<Key, RuntimeInstance>
    var ids: seq<Key>
    var slotToInstance: map<nat, Key>
    var instanceToSlot: map<Key, nat>
    var shuttingDown: bool
    var claimed: set<nat>  // slots whose waiting call has resumed
    var stopping: nat      // shutdowns waiting at their await

    ghost function View(): Mgr
      reads this, allocator
    {
      Mgr(allocator.View(), Infos(runtimes), ids, slotToInstance, instanceToSlot,
          shuttingDown, claimed, stopping)
    }

    /** Runtimes in the map have not terminated and are named by session; `ids` lists the
        keys of the map in order. */
    ghost predicate Live()
      reads this`runtimes, this`ids, runtimes.Values
    {
      && (forall id :: id in runtimes ==> runtimes[id].status != TERMINATED && runtimes[id].info.session == id)
      && (forall i, j :: 0 <= i < j < |ids| ==> ids[i] != ids[j])
      && (forall id :: id in ids <==> id in runtimes)
    }

    constructor (caps: Caps)
      ensures View() == START && Live() && allocator.caps == caps && fresh(allocator)
    {
      allocator := new RuntimeAllocator.RuntimeAllocator(caps);
      runtimes, ids, slotToInstance, instanceToSlot, shuttingDown := map[], [], map[], map[], false;
      claimed, stopping := {}, 0;
    }

    method CreateRuntime(r: Request) returns (reply: Reply)
      modifies this, allocator
      ensures View() == Create(allocator.caps, old(View()), r)
      ensures unchanged(this)
    {
      reply := Rejected;
      if !shuttingDown {
        reply := allocator.RequestSlot(r);
      }
    }

    method ClaimSlot(slot: nat)
      requires Live()
      modifies this
      ensures View() == Claim(old(View()), slot)
      ensures Live()
    {
      if slot in allocator.active && slot !in claimed {
        var s := allocator.active[slot];
        var instance := new RuntimeInstance(Runtime(s.session, s.tenant, s.agent));
        Register(slot, instance);
      }
    }

    method Register(slot: nat, instance: RuntimeInstance)
      requires Live() && slot in InFlight(View()) && instance.status != TERMINATED
      requires var s := allocator.active[slot]; instance.info == Runtime(s.session, s.tenant, s.agent)
      modifies this
      ensures View() == Claim(old(View()), slot)
      ensures Live()
    {
      var session := instance.info.session;
      slotToInstance, instanceToSlot := slotToInstance[slot := session], instanceToSlot[session := slot];
      claimed := claimed + {slot};
      Enter(instance);
    }

    /** `Map.set`: a new key goes to the end of the listing, a known one keeps its place. */
    method Enter(instance: RuntimeInstance)
      requires Live() && instance.status != TERMINATED
      modifies this`runtimes, this`ids
      ensures runtimes == old(runtimes)[instance.info.session := instance]
      ensures ids == if instance.info.session in old(runtimes) then old(ids) else old(ids) + [instance.info.session]
      ensures View() == old(View()).(ids := ids,
                                     runtimes := old(View()).runtimes[instance.info.session := instance.info])
      ensures Live()
    {
      if instance.info.session !in runtimes {
        ids := ids + [instance.info.session];
      }
      InfosEnter(runtimes, instance.info.session, instance);
      runtimes := runtimes[instance.info.session := instance];
    }

    method HandleInstanceTerminated(id: Key)
      modifies this, allocator
      ensures View() == Terminated(allocator.caps, old(View()), id)
      ensures runtimes == old(runtimes) - {id}
      ensures ids == if id in old(runtimes) then Remove(old(ids), id) else old(ids)
    {
      if id !in runtimes {
        return;
      }
      if id in instanceToSlot {
        var slot := instanceToSlot[id];
        var released := allocator.ReleaseSlot(slot);
        slotToInstance := slotToInstance - {slot};
        instanceToSlot := instanceToSlot - {id};
      }
      runtimes, ids := runtimes - {id}, Remove(ids, id);
      assert View().runtimes == old(View()).runtimes - {id};
    }

    /** `RuntimeInstance.terminate`: the event fires only if the status is not yet final. */
    method TerminateInstance(instance: RuntimeInstance)
      requires Live()
      modifies this, allocator, instance
      ensures Live()
      ensures instance.status == TERMINATED
      ensures View() == if old(instance.status) == TERMINATED then old(View())
                        else Terminated(allocator.caps, old(View()), instance.info.session)
      ensures runtimes == if old(instance.status) == TERMINATED then old(runtimes)
                          else old(runtimes) - {instance.info.session}
      ensures runtimes.Values <= old(runtimes).Values
    {
      if instance.status == TERMINATED {
        return;
      }
      RemoveSpec(ids, instance.info.session);
      instance.status := TERMINATING;
      HandleInstanceTerminated(instance.info.session);
      instance.status := TERMINATED;
    }

    method TerminateRuntime(id: Key) returns (found: bool)
      requires Live()
      modifies this, allocator, runtimes.Values
      ensures Live() && runtimes.Values <= old(runtimes).Values
      ensures found == (id in old(runtimes))
      ensures View() == Terminated(allocator.caps, old(View()), id)
    {
      found := id in runtimes;
      if found {
        TerminatedTwice(allocator.caps, View(), id);
        TerminateInstance(runtimes[id]);
        HandleInstanceTerminated(id);
      }
    }

    /** The loop runs over the map it shrinks: the iterator stands at position `j` of the
        insertion order, and deleting the entry there moves the next one up. */
    method EmergencyKillAll(tenant: Option<Key>) returns (killed: nat)
      requires Live()
      modifies this, allocator, runtimes.Values
      ensures Live() && runtimes.Values <= old(runtimes).Values
      ensures View() == KillAll(allocator.caps, old(View()), tenant)
      ensures killed == |old(runtimes)| - |runtimes|
    {
      killed := 0;
      var j := 0;
      while j < |ids|
        invariant 0 <= j <= |ids|
        invariant Live() && runtimes.Values <= old(runtimes).Values
        invariant KilledFrom(ids, j, tenant) == KillAll(allocator.caps, old(View()), tenant)
        invariant killed == |old(runtimes)| - |runtimes|
        decreases |ids| - j
      {
        var one;
        one, j := VisitHere(j, tenant);
        if one {
          killed := killed + 1;
        }
      }
    }

    /** What killing the rest of a list, from a position on, will leave. */
    ghost function KilledFrom(all: seq<Key>, j: nat, tenant: Option<Key>): Mgr
      reads this, allocator
      requires j <= |all|
    {
      KillList(allocator.caps, View(), all[j..], tenant)
    }

    /** One turn of the loop. */
    method VisitHere(j: nat, tenant: Option<Key>) returns (killed: bool, next: nat)
      requires Live() && j < |ids|
      modifies this, allocator, runtimes.Values
      ensures Live() && runtimes.Values <= old(runtimes).Values
      ensures |runtimes| == |old(runtimes)| - if killed then 1 else 0
      ensures next <= |ids| && |ids| - next < |old(ids)| - j
      ensures KilledFrom(ids, next, tenant) == old(KilledFrom(ids, j, tenant))
    {
      KillListAt(allocator.caps, View(), ids, j, tenant);
      killed, next := Chosen(runtimes[ids[j]].info, tenant), j;
      if killed {
        KillHere(j);
      } else {
        next := j + 1;
      }
    }

    /** Terminates the instance under the iterator. */
    method KillHere(j: nat)
      requires Live() && j < |ids|
      modifies this, allocator, runtimes.Values
      ensures Live() && runtimes.Values <= old(runtimes).Values
      ensures View() == Terminated(allocator.caps, old(View()), old(ids)[j])
      ensures |runtimes| == |old(runtimes)| - 1
      ensures |ids| == |old(ids)| - 1 && ids[j..] == old(ids)[j + 1..]
    {
      var id := ids[j];
      RemoveHere(ids, j);
      TerminateInstance(runtimes[id]);
      assert old(runtimes).Keys == runtimes.Keys + {id};
    }

    /** A shutdown up to its await: it terminates the runtimes that are in the map when it starts. */
    method Stop()
      requires Live()
      modifies this, allocator, runtimes.Values
      ensures Live()
      ensures View() == Shutdown(allocator.caps, old(View()))
    {
      shuttingDown, stopping := true, stopping + 1;
      allocator.SetDraining(true);
      assert View() == Halted(old(View()));
      TerminateAll(ids);
    }

    method TerminateAll(all: seq<Key>)
      requires Live()
      modifies this, allocator, runtimes.Values
      ensures Live()
      ensures View() == KillList(allocator.caps, old(View()), all, None)
    {
      var j := 0;
      while j < |all|
        invariant 0 <= j <= |all|
        invariant Live() && runtimes.Values <= old(runtimes).Values
        invariant KilledFrom(all, j, None) == KillList(allocator.caps, old(View()), all, None)
      {
        TerminateAt(all, j);
        j := j + 1;
      }
    }

    /** One turn of that loop. */
    method TerminateAt(all: seq<Key>, j: nat)
      requires Live() && j < |all|
      modifies this, allocator, runtimes.Values
      ensures Live() && runtimes.Values <= old(runtimes).Values
      ensures KilledFrom(all, j + 1, None) == old(KilledFrom(all, j, None))
    {
      KillListAt(allocator.caps, View(), all, j, None);
      var found := TerminateRuntime(all[j]);
    }

    /** And after it. */
    method FinishStop()
      requires Live() && stopping > 0
      modifies this
      ensures Live()
      ensures View() == Clear(old(View()))
    {
      runtimes, ids, slotToInstance, instanceToSlot := map[], [], map[], map[];
      stopping := stopping - 1;
    }
  }
}
