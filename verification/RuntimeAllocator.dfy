/** The allocator as an object: a slot map, two counter maps and a queue changed in place.
    Each operation is proved against the function of module Allocator that specifies it. */
module RuntimeAllocator {
  import opened Allocator
  import opened Shared

  class RuntimeAllocator {
    const caps: Caps
    var active: map<nat, Slot>
    var tenantCounts: map<Key, nat>
    var agentCounts: map<Key, nat>
    var queue: seq<Request>
    var draining: bool
    var counter: nat
    ghost var granted: seq<(Request, nat)>  // the promises resolved with a slot

    ghost function View(): Alloc
      reads this
    {
      Alloc(active, tenantCounts, agentCounts, queue, draining, counter, granted)
    }

    constructor (caps: Caps)
      ensures View() == EMPTY && this.caps == caps
    {
      this.caps := caps;
      active, tenantCounts, agentCounts, queue := map[], map[], map[], [];
      draining, counter, granted := false, 0, [];
    }

    method CanAllocateImmediately(r: Request) returns (can: bool)
      ensures can == CanAllocate(caps, View(), r)
    {
      if |active| >= caps.global {
        return false;
      }
      if Get(tenantCounts, r.tenant) >= caps.perTenant {
        return false;
      }
      can := Get(agentCounts, r.agent) < caps.perAgent;
    }

    method GrantSlot(r: Request) returns (id: nat)
      modifies this
      ensures View() == Grant(old(View()), r) && id == counter
    {
      counter := counter + 1;
      id := counter;
      active := active[id := Slot(r.tenant, r.agent, r.session)];
      tenantCounts := Increment(tenantCounts, r.tenant);
      agentCounts := Increment(agentCounts, r.agent);
      granted := granted + [(r, id)];
    }

    method RequestSlot(r: Request) returns (reply: Reply)
      modifies this
      ensures (reply, View()) == Allocator.RequestSlot(caps, old(View()), r)
    {
      if draining {
        return Rejected;
      }
      var can := CanAllocateImmediately(r);
      if can {
        var id := GrantSlot(r);
        return Allocated(id);
      }
      queue := StableSort(queue + [r]);
      reply := Queued;
    }

    method ReleaseSlot(id: nat) returns (released: bool)
      modifies this
      ensures released == (id in old(active))
      ensures View() == Allocator.ReleaseSlot(caps, old(View()), id)
    {
      if id !in active {
        return false;
      }
      var slot := active[id];
      active := active - {id};
      tenantCounts := Decrement(tenantCounts, slot.tenant);
      agentCounts := Decrement(agentCounts, slot.agent);
      ProcessQueue();
      released := true;
    }

    /** The loop removes the item it grants and stays at the same position. */
    method ProcessQueue()
      modifies this
      ensures View() == Process(caps, old(View()))
    {
      if queue == [] || draining {
        return;
      }
      var i := 0;
      while i < |queue|
        invariant 0 <= i <= |queue|
        invariant Scan(caps, View(), i) == Scan(caps, old(View()), 0)
        decreases |queue| - i
      {
        var item := queue[i];
        var can := CanAllocateImmediately(item);
        if can {
          queue := RemoveAt(queue, i);
          var id := GrantSlot(item);
        } else {
          i := i + 1;
        }
      }
    }

    method SetDraining(d: bool)
      modifies `draining
      ensures View() == old(View()).(draining := d)
    {
      draining := d;
    }

    method RemoveFromQueue(requestId: Key)
      modifies `queue
      ensures View() == Expire(old(View()), requestId)
    {
      var i := 0;
      while i < |queue| && queue[i].requestId != requestId
        invariant 0 <= i <= |queue|
        invariant Without(queue, requestId) == queue[..i] + Without(queue[i..], requestId)
      {
        assert queue[i..][0] == queue[i] && queue[i..][1..] == queue[i + 1..];
        assert queue[..i] + ([queue[i]] + Without(queue[i + 1..], requestId))
            == queue[..i + 1] + Without(queue[i + 1..], requestId);
        i := i + 1;
      }
      if i < |queue| {
        assert queue[i..][0] == queue[i] && queue[i..][1..] == queue[i + 1..];
        queue := RemoveAt(queue, i);
      } else {
        assert queue[..i] + [] == queue;
      }
    }
  }
}
