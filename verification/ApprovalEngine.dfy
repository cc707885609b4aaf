/** The approval engine as an object whose calls are cut at their awaits: `RequestApproval`,
    `ProcessDecision` and `CheckExpiredRequests` run to the first await, `ResumeCall` runs a
    waiting call to its next one. Each stretch is proved against a step of module Approval. */
module ApprovalEngine {
  import opened Approval
  import opened Shared

  class ApprovalEngine {
    const policy: Policy
    var store: map<Id, Request>
    var order: seq<Id>
    var logs: seq<Log>
    var calls: map<nat, Activity>
    var nextCall: nat
    var deferreds: map<Id, nat>
    var settled: seq<nat>
    var results: map<nat, Result>

    ghost function View(): State
      reads this
    {
      State(store, order, logs, calls, nextCall, deferreds, settled, results)
    }

    constructor (policy: Policy)
      ensures View() == INITIAL && this.policy == policy
    {
      this.policy := policy;
      store, order, logs, calls, nextCall := map[], [], [], map[], 0;
      deferreds, settled, results := map[], [], map[];
    }

    method Save(r: Request)
      modifies `store, `order
      ensures View() == Put(old(View()), r)
    {
      if r.id !in store {
        order := order + [r.id];
      }
      store := store[r.id := r];
    }

    method Wait(a: Activity) returns (call: nat)
      modifies `calls, `nextCall
      ensures View() == Begin(old(View()), a) && call == old(nextCall)
    {
      call := nextCall;
      calls, nextCall := calls[call := a], nextCall + 1;
    }

    method RequestApproval(id: Id, tenant: Id, risk: Risk, requester: Option<Id>, expiresAt: int) returns (call: nat)
      modifies this
      ensures View() == Step(old(View()), policy, Submit(id, tenant, risk, requester, expiresAt))
    {
      var requirement := GetRequirement(policy, risk);
      var required, status := requirement.requiredApproverCount, Pending;
      if requirement.autoApprove {
        required, status := 0, AutoApproved;
      }
      var r := Request(id, tenant, risk, requester, expiresAt, status, |logs|, required, required);
      logs := logs + [Log(id, tenant, risk, requester, expiresAt, required, [])];
      Save(r);
      call := Wait(Requesting(r));
    }

    method ProcessDecision(id: Id, tenant: Id, d: Decision) returns (call: nat)
      modifies this
      ensures View() == Step(old(View()), policy, Decide(id, tenant, d))
    {
      var fetched := if id in store then Some(store[id]) else None;
      call := Wait(Deciding(fetched, tenant, d));
    }

    method ListPending() returns (pending: seq<Request>)
      ensures pending == PendingIn(store, order)
    {
      pending := [];
      var j := 0;
      while j < |order|
        invariant 0 <= j <= |order|
        invariant pending + PendingIn(store, order[j..]) == PendingIn(store, order)
      {
        assert order[j..][0] == order[j] && order[j..][1..] == order[j + 1..];
        if order[j] in store && store[order[j]].status == Pending {
          assert pending + ([store[order[j]]] + PendingIn(store, order[j + 1..]))
              == pending + [store[order[j]]] + PendingIn(store, order[j + 1..]);
          pending := pending + [store[order[j]]];
        }
        j := j + 1;
      }
    }

    method CheckExpiredRequests() returns (call: nat)
      modifies this
      ensures View() == Step(old(View()), policy, Sweep)
    {
      var pending := ListPending();
      call := Wait(Sweeping(pending, None));
    }

    method ResolveDeferred(id: Id, result: Result)
      modifies `deferreds, `settled, `results
      ensures View() == Settle(old(View()), id, result)
    {
      if id in deferreds {
        var call := deferreds[id];
        deferreds := deferreds - {id};
        settled, results := settled + [call], results[call := result];
      }
    }

    method End(call: nat, result: Result)
      modifies `calls, `results
      ensures View() == Finish(old(View()), call, result)
    {
      calls, results := calls - {call}, results[call := result];
    }

    method ResumeDecision(call: nat)
      requires call in calls && calls[call].Deciding?
      modifies this
      ensures View() == DecideStep(old(View()), policy, call)
    {
      var Deciding(fetched, tenant, d) := calls[call];
      if fetched == None || fetched.value.log >= |logs| {
        End(call, Failed(NotFound));
        return;
      }
      var r := fetched.value;
      var log := logs[r.log];
      var objection := Objection(policy, r, tenant, d, log.decisions);
      if objection.Some? {
        End(call, Failed(objection.value));
        return;
      }
      logs := logs[r.log := log.(decisions := log.decisions + [d])];
      if !d.approves {
        r := r.(status := Rejected);
      } else {
        r := r.(remaining := Max0(r.required - Approvals(logs[r.log].decisions)));
        if r.remaining == 0 {
          r := r.(status := Approved);
        }
      }
      Save(r);
      calls := calls[call := Concluding(r)];
    }

    method ResumeSweep(call: nat, clock: int)
      requires call in calls && calls[call].Sweeping?
      modifies this
      ensures View() == SweepStep(old(View()), call, clock)
    {
      var Sweeping(pending, started) := calls[call];
      var now := if started.Some? then started.value else clock;
      var j := 0;
      while j < |pending| && now < pending[j].expiresAt
        invariant 0 <= j <= |pending|
        invariant FromExpired(pending, now) == FromExpired(pending[j..], now)
      {
        assert pending[j..][0] == pending[j] && pending[j..][1..] == pending[j + 1..];
        j := j + 1;
      }
      if j == |pending| {
        calls := calls - {call};
        return;
      }
      assert pending[j..][0] == pending[j] && pending[j..][1..] == pending[j + 1..];
      var r := pending[j].(status := TimedOut);
      Save(r);
      calls := calls[call := Expiring(r, pending[j + 1..], now)];
    }

    method ResumeCall(call: nat, clock: int)
      modifies this
      ensures View() == Step(old(View()), policy, Resume(call, clock))
    {
      if call !in calls {
        return;
      }
      match calls[call]
      case Requesting(r) =>
        calls := calls - {call};
        if r.status == AutoApproved {
          settled, results := settled + [call], results[call := Resolved(r.id, r.log, AutoApproved)];
        } else {
          deferreds := deferreds[r.id := call];
        }
      case Deciding(_, _, _) =>
        ResumeDecision(call);
      case Concluding(r) =>
        var result := Resolved(r.id, r.log, r.status);
        if r.status != Pending {
          ResolveDeferred(r.id, result);
        }
        End(call, result);
      case Sweeping(_, _) =>
        ResumeSweep(call, clock);
      case Expiring(r, rest, now) =>
        calls := calls[call := Sweeping(rest, Some(now))];
        ResolveDeferred(r.id, Resolved(r.id, r.log, TimedOut));
    }
  }
}
