/** The approval protocol when calls overlap: exactly when a resolved record is overwritten,
    exactly when a promise is settled, and which promises nobody settles any more. */
module ApprovalOverlap {
  import opened Approval
  import opened ApprovalSerial
  import opened Shared

  // ---------------------------------------------------------------- overwriting a record

  /** What an accepted decision makes of a pending copy, after `n` approvals before it. */
  function Verdict(r: Request, approves: bool, n: nat): Status {
    if !approves then Rejected else if n + 1 >= r.required then Approved else Pending
  }

  /** The stored record is that of the copy's request, with the given status and count. */
  predicate Shows(stored: Request, copy: Request, status: Status, remaining: int) {
    stored.log == copy.log && stored.status == status && stored.remaining == remaining
  }

  /** The event overwrites the record of `id`: a new submission under the id; an accepted decision
      on a copy that is still pending, unless its verdict is what the store shows; or a sweep that
      has reached its copy, unless the store shows it timed out. */
  predicate Overwrites(policy: Policy, s: State, e: Event, id: Id)
    requires id in s.store
  {
    || (e.Submit? && e.id == id)
    || (e.Resume? && e.call in s.calls &&
          match s.calls[e.call]
          case Deciding(fetched, tenant, d) =>
            && fetched.Some? && fetched.value.id == id && fetched.value.status == Pending
            && fetched.value.log < |s.logs|
            && var ds := s.logs[fetched.value.log].decisions;
               && Objection(policy, fetched.value, tenant, d, ds) == None
               && !Shows(s.store[id], fetched.value, Verdict(fetched.value, d.approves, Approvals(ds)),
                         if d.approves then Max0(fetched.value.required - Approvals(ds) - 1)
                         else fetched.value.remaining)
          case Sweeping(pending, started) =>
            var rest := FromExpired(pending, if started.Some? then started.value else e.clock);
            && rest != [] && rest[0].id == id && rest[0].status == Pending
            && !Shows(s.store[id], rest[0], TimedOut, rest[0].remaining)
          case _ => false)
  }

  /** Whatever overlaps, a record changes exactly by such an event. */
  lemma {:induction false} OverwrittenExactly(policy: Policy, es: seq<Event>, n: nat, e: Event, id: Id)
    requires n <= |es| && id in Run(policy, es, n).store
    ensures var s := Run(policy, es, n);
            && id in Step(s, policy, e).store
            && (Step(s, policy, e).store[id] != s.store[id] <==> Overwrites(policy, s, e, id))
  {
    RunKeepsCopies(policy, es, n);
    StepOverwrites(policy, Run(policy, es, n), e, id);
  }

  lemma {:induction false} StepOverwrites(policy: Policy, s: State, e: Event, id: Id)
    requires CopiesSafe(policy, s) && id in s.store
    ensures id in Step(s, policy, e).store
    ensures Step(s, policy, e).store[id] != s.store[id] <==> Overwrites(policy, s, e, id)
  {
    assert CopySafe(policy, s.logs, s.store[id]);
    if e.Resume? && e.call in s.calls {
      assert ActivitySafe(policy, s.logs, s.calls[e.call]);
      if s.calls[e.call].Deciding? {
        DecideOverwrites(policy, s, e.call, e.clock, id);
      } else if s.calls[e.call].Sweeping? {
        SweepOverwrites(policy, s, e.call, e.clock, id);
      } else {
        OthersKeepStore(policy, s, e.call, e.clock);
      }
    }
  }

  lemma {:induction false} OthersKeepStore(policy: Policy, s: State, call: nat, clock: int)
    requires call in s.calls && !s.calls[call].Deciding? && !s.calls[call].Sweeping?
    ensures Step(s, policy, Resume(call, clock)).store == s.store
  {
  }

  lemma {:induction false} DecideOverwrites(policy: Policy, s: State, call: nat, clock: int, id: Id)
    requires call in s.calls && s.calls[call].Deciding? && id in s.store
    requires ActivitySafe(policy, s.logs, s.calls[call]) && CopySafe(policy, s.logs, s.store[id])
    ensures var s' := DecideStep(s, policy, call);
            id in s'.store && (s'.store[id] != s.store[id] <==> Overwrites(policy, s, Resume(call, clock), id))
  {
    var Deciding(fetched, tenant, d) := s.calls[call];
    var refused, error, logs, r := DecideCases(policy, s, call);
    if !refused {
      ConcludedShows(s.store[id], fetched.value, d, s.logs[fetched.value.log]);
    }
  }

  lemma {:induction false} ConcludedShows(stored: Request, r: Request, d: Decision, log: Log)
    requires r.status == Pending && MadeFor(log, r) && (stored.log == r.log ==> MadeFor(log, stored))
    ensures var n := Approvals(log.decisions);
            Concluded(r, d.approves, log.decisions + [d]) == stored <==>
              Shows(stored, r, Verdict(r, d.approves, n), if d.approves then Max0(r.required - n - 1) else r.remaining)
  {
    ApprovalsOfAppend(log.decisions, d);
  }

  lemma {:induction false} SweepOverwrites(policy: Policy, s: State, call: nat, clock: int, id: Id)
    requires call in s.calls && s.calls[call].Sweeping? && id in s.store
    requires ActivitySafe(policy, s.logs, s.calls[call]) && CopySafe(policy, s.logs, s.store[id])
    ensures var s' := SweepStep(s, call, clock);
            id in s'.store && (s'.store[id] != s.store[id] <==> Overwrites(policy, s, Resume(call, clock), id))
  {
    var Sweeping(pending, started) := s.calls[call];
    var now := if started.Some? then started.value else clock;
    FromExpiredIsSuffix(pending, now);
    var rest := FromExpired(pending, now);
    if rest != [] {
      assert rest[0] == pending[|pending| - |rest|];
    }
  }

  ghost predicate Unwritten(policy: Policy, es: seq<Event>, i: nat, n: nat, id: Id)
    requires i <= n <= |es|
  {
    forall k :: i <= k < n ==> Spares(policy, es, k, id)
  }

  ghost predicate Spares(policy: Policy, es: seq<Event>, n: nat, id: Id)
    requires n < |es|
  {
    id in Run(policy, es, n).store && !Overwrites(policy, Run(policy, es, n), es[n], id)
  }

  ghost predicate Stays(policy: Policy, es: seq<Event>, i: nat, n: nat, id: Id)
    requires i <= n <= |es| && id in Run(policy, es, i).store
  {
    forall k :: i <= k <= n ==> SameRecord(policy, es, i, k, id)
  }

  predicate SameRecord(policy: Policy, es: seq<Event>, i: nat, n: nat, id: Id)
    requires i <= n <= |es| && id in Run(policy, es, i).store
  {
    id in Run(policy, es, n).store && Run(policy, es, n).store[id] == Run(policy, es, i).store[id]
  }

  /** In every interleaving a record, a final verdict among them, stays as it is over a stretch
      of the run if and only if no event of the stretch overwrites it. */
  lemma {:induction false} RecordStaysExactly(policy: Policy, es: seq<Event>, i: nat, n: nat, id: Id)
    requires i <= n <= |es| && id in Run(policy, es, i).store
    ensures Stays(policy, es, i, n, id) <==> Unwritten(policy, es, i, n, id)
  {
    if Unwritten(policy, es, i, n, id) {
      UnwrittenStays(policy, es, i, n, id);
    }
    if Stays(policy, es, i, n, id) {
      forall k | i <= k < n
        ensures Spares(policy, es, k, id)
      {
        StaysSpares(policy, es, i, k, n, id);
      }
    }
  }

  lemma {:induction false} UnwrittenStays(policy: Policy, es: seq<Event>, i: nat, n: nat, id: Id)
    requires i <= n <= |es| && id in Run(policy, es, i).store && Unwritten(policy, es, i, n, id)
    ensures Stays(policy, es, i, n, id)
  {
    if i < n {
      UnwrittenStays(policy, es, i, n - 1, id);
      UnwrittenNext(policy, es, i, n - 1, id);
    }
  }

  lemma {:induction false} UnwrittenNext(policy: Policy, es: seq<Event>, i: nat, n: nat, id: Id)
    requires i <= n < |es| && id in Run(policy, es, i).store && Stays(policy, es, i, n, id)
    requires Spares(policy, es, n, id)
    ensures Stays(policy, es, i, n + 1, id)
  {
    assert SameRecord(policy, es, i, n, id);
    SameRecordNext(policy, es, i, n, id);
  }

  lemma {:induction false} StaysSpares(policy: Policy, es: seq<Event>, i: nat, k: nat, n: nat, id: Id)
    requires i <= k < n <= |es| && id in Run(policy, es, i).store && Stays(policy, es, i, n, id)
    ensures Spares(policy, es, k, id)
  {
    assert SameRecord(policy, es, i, k, id) && SameRecord(policy, es, i, k + 1, id);
    SameRecordNext(policy, es, i, k, id);
  }

  lemma {:induction false} SameRecordNext(policy: Policy, es: seq<Event>, i: nat, n: nat, id: Id)
    requires i <= n < |es| && id in Run(policy, es, i).store && SameRecord(policy, es, i, n, id)
    ensures SameRecord(policy, es, i, n + 1, id) <==> Spares(policy, es, n, id)
  {
    OverwrittenExactly(policy, es, n, es[n], id);
  }

  // ---------------------------------------------------------------- settling a promise

  /** Every submission of the run is made under a new id. */
  ghost predicate FreshIds(policy: Policy, es: seq<Event>, n: nat)
    requires n <= |es|
  {
    forall k :: 0 <= k < n ==> FreshAt(policy, es, k)
  }

  predicate FreshAt(policy: Policy, es: seq<Event>, k: nat)
    requires k < |es|
  {
    es[k].Submit? ==> es[k].id !in Run(policy, es, k).store
  }

  /** The call that submitted each request. */
  function Callers(policy: Policy, es: seq<Event>, n: nat): map<Id, nat>
    requires n <= |es|
  {
    if n == 0 then map[]
    else
      var before, e := Callers(policy, es, n - 1), es[n - 1];
      if e.Submit? then before[e.id := Run(policy, es, n - 1).nextCall] else before
  }

  /** The call still has to register its promise for `id`. */
  predicate Unregistered(s: State, id: Id, c: nat) {
    c in s.calls && s.calls[c].Requesting? && s.calls[c].request.id == id
  }

  /** A requester's promise is first with its call, then among the deferreds, then settled. */
  ghost predicate Phases(s: State, callers: map<Id, nat>) {
    && callers.Keys == s.store.Keys
    && (forall id, k :: id in callers && k in callers && id != k ==> callers[id] != callers[k])
    && (forall id :: id in callers ==>
          && callers[id] < s.nextCall
          && (Unregistered(s, id, callers[id]) || (id in s.deferreds && s.deferreds[id] == callers[id])
              || callers[id] in s.settled))
    && (forall id :: id in s.deferreds ==> id in callers && s.deferreds[id] == callers[id])
    && (forall c :: c in s.calls && s.calls[c].Requesting? ==>
          s.calls[c].request.id in callers && callers[s.calls[c].request.id] == c)
  }

  /** Every copy in flight is a copy of a stored request. */
  predicate Knows(store: map<Id, Request>, a: Activity) {
    match a
    case Requesting(r) => r.id in store
    case Deciding(fetched, _, _) => fetched.Some? ==> fetched.value.id in store
    case Concluding(r) => r.id in store
    case Sweeping(pending, _) => forall k :: 0 <= k < |pending| ==> pending[k].id in store
    case Expiring(r, rest, _) => r.id in store && forall k :: 0 <= k < |rest| ==> rest[k].id in store
  }

  ghost predicate Stored(s: State) {
    && (forall id :: id in s.store ==> s.store[id].id == id)
    && (forall i, j :: 0 <= i < j < |s.order| ==> s.order[i] != s.order[j])
    && (forall id :: id in s.order <==> id in s.store)
    && (forall c :: c in s.calls ==> Knows(s.store, s.calls[c]))
  }

  lemma {:induction false} PendingInIsStored(s: State, order: seq<Id>)
    requires forall id :: id in s.store ==> s.store[id].id == id
    ensures forall k :: 0 <= k < |PendingIn(s.store, order)| ==>
              var r := PendingIn(s.store, order)[k]; r.id in s.store && s.store[r.id] == r && r.status == Pending
    decreases |order|
  {
    if order != [] {
      PendingInIsStored(s, order[1..]);
    }
  }

  lemma {:induction false} PutIsStored(s: State, call: nat, a: Activity, r: Request)
    requires Stored(s) && Knows(s.store[r.id := r], a)
    ensures Stored(Put(s.(calls := s.calls[call := a]), r))
  {
    var s' := Put(s.(calls := s.calls[call := a]), r);
    forall c | c in s'.calls
      ensures Knows(s'.store, s'.calls[c])
    {
      if c != call { assert Knows(s.store, s.calls[c]); }
    }
  }

  lemma {:induction false} QuietIsStored(s: State, s': State)
    requires Stored(s) && s'.store == s.store && s'.order == s.order
    requires forall c :: c in s'.calls ==> Knows(s.store, s'.calls[c])
    ensures Stored(s')
  {
  }

  lemma {:induction false} DecideIsStored(policy: Policy, s: State, call: nat)
    requires Stored(s) && call in s.calls && s.calls[call].Deciding?
    ensures Stored(DecideStep(s, policy, call))
  {
    var refused, error, logs, r := DecideCases(policy, s, call);
    if refused {
      QuietIsStored(s, Finish(s, call, Failed(error)));
    } else {
      PutIsStored(s.(logs := logs), call, Concluding(r), r);
    }
  }

  lemma {:induction false} SweepIsStored(s: State, call: nat, clock: int)
    requires Stored(s) && call in s.calls && s.calls[call].Sweeping?
    ensures Stored(SweepStep(s, call, clock))
  {
    var Sweeping(pending, started) := s.calls[call];
    var now := if started.Some? then started.value else clock;
    assert Knows(s.store, s.calls[call]);
    FromExpiredIsSuffix(pending, now);
    var rest := FromExpired(pending, now);
    if rest == [] {
      QuietIsStored(s, SweepStep(s, call, clock));
    } else {
      assert rest[0] == pending[|pending| - |rest|];
      var r := rest[0].(status := TimedOut);
      PutIsStored(s, call, Expiring(r, rest[1..], now), r);
    }
  }

  lemma {:induction false} PromiseIsStored(policy: Policy, s: State, call: nat, clock: int)
    requires Stored(s) && call in s.calls
    requires s.calls[call].Requesting? || s.calls[call].Concluding? || s.calls[call].Expiring?
    ensures Stored(Step(s, policy, Resume(call, clock)))
  {
    if s.calls[call].Requesting? {
      QuietIsStored(s, RegisterStep(s, call));
    } else if s.calls[call].Concluding? {
      QuietIsStored(s, ConcludeStep(s, call));
    } else {
      ExpireIsStored(s, call);
    }
  }

  lemma {:induction false} ExpireIsStored(s: State, call: nat)
    requires Stored(s) && call in s.calls && s.calls[call].Expiring?
    ensures Stored(ExpireStep(s, call))
  {
    assert Knows(s.store, s.calls[call]);
    QuietIsStored(s, ExpireStep(s, call));
  }

  lemma {:induction false} StepIsStored(policy: Policy, s: State, e: Event)
    requires Stored(s)
    ensures Stored(Step(s, policy, e))
  {
    match e
    case Submit(_, _, _, _, _) =>
      var s' := Step(s, policy, e);
      var r := s'.store[e.id];
      PutIsStored(s.(logs := s'.logs, nextCall := s'.nextCall), s.nextCall, Requesting(r), r);
    case Decide(_, _, _) => QuietIsStored(s, Step(s, policy, e));
    case Sweep =>
      PendingInIsStored(s, s.order);
      QuietIsStored(s, Step(s, policy, e));
    case Resume(call, clock) =>
      if call in s.calls {
        if s.calls[call].Deciding? {
          DecideIsStored(policy, s, call);
        } else if s.calls[call].Sweeping? {
          SweepIsStored(s, call, clock);
        } else {
          PromiseIsStored(policy, s, call, clock);
        }
      }
  }

  lemma {:induction false} RunIsStored(policy: Policy, es: seq<Event>, n: nat)
    requires n <= |es|
    ensures Stored(Run(policy, es, n))
  {
    StoredStart(policy, es);
    for k := 0 to n
      invariant Stored(Run(policy, es, k))
    {
      StoredNext(policy, es, k);
    }
  }

  lemma {:induction false} StoredStart(policy: Policy, es: seq<Event>)
    ensures Stored(Run(policy, es, 0))
  {
  }

  lemma {:induction false} StoredNext(policy: Policy, es: seq<Event>, n: nat)
    requires n < |es| && Stored(Run(policy, es, n))
    ensures Stored(Run(policy, es, n + 1))
  {
    StepIsStored(policy, Run(policy, es, n), es[n]);
  }

  lemma {:induction false} CallsNeitherSubmitNorSettle(s: State, s': State, callers: map<Id, nat>)
    requires Phases(s, callers) && s'.store.Keys == s.store.Keys && s.nextCall <= s'.nextCall
    requires s'.deferreds == s.deferreds && s'.settled == s.settled
    requires forall c :: c in s.calls && s.calls[c].Requesting? ==> c in s'.calls && s'.calls[c] == s.calls[c]
    requires forall c :: c in s'.calls && s'.calls[c].Requesting? ==> c in s.calls && s.calls[c] == s'.calls[c]
    ensures Phases(s', callers)
  {
    forall id | id in callers
      ensures Unregistered(s', id, callers[id]) || (id in s'.deferreds && s'.deferreds[id] == callers[id])
              || callers[id] in s'.settled
    {
      assert Unregistered(s, id, callers[id]) ==> Unregistered(s', id, callers[id]);
    }
  }

  lemma {:induction false} SettlingPhases(s: State, id: Id, result: Result, callers: map<Id, nat>)
    requires Phases(s, callers)
    ensures Phases(Settle(s, id, result), callers)
  {
    if id in s.deferreds {
      var s' := Settle(s, id, result);
      forall k | k in callers
        ensures Unregistered(s', k, callers[k]) || (k in s'.deferreds && s'.deferreds[k] == callers[k])
                || callers[k] in s'.settled
      {
        assert Unregistered(s, k, callers[k]) ==> Unregistered(s', k, callers[k]);
        assert k == id ==> s'.settled[|s.settled|] == callers[k];
      }
    }
  }

  lemma {:induction false} RegisterPhases(s: State, call: nat, callers: map<Id, nat>)
    requires Phases(s, callers) && call in s.calls && s.calls[call].Requesting?
    ensures Phases(RegisterStep(s, call), callers)
  {
    var s', r := RegisterStep(s, call), s.calls[call].request;
    assert callers[r.id] == call;
    forall k | k in callers
      ensures Unregistered(s', k, callers[k]) || (k in s'.deferreds && s'.deferreds[k] == callers[k])
              || callers[k] in s'.settled
    {
      if k == r.id {
        assert r.status == AutoApproved ==> s'.settled[|s.settled|] == call;
      } else {
        assert Unregistered(s, k, callers[k]) ==> Unregistered(s', k, callers[k]);
      }
    }
  }

  lemma {:induction false} NewCaller(callers: map<Id, nat>, id: Id, c: nat)
    requires forall i, k :: i in callers && k in callers && i != k ==> callers[i] != callers[k]
    requires id !in callers && forall k :: k in callers ==> callers[k] < c
    ensures var more := callers[id := c];
            && more.Keys == callers.Keys + {id}
            && forall i, k :: i in more && k in more && i != k ==> more[i] != more[k]
  {
  }

  lemma {:induction false} SubmitPhases(policy: Policy, s: State, e: Event, callers: map<Id, nat>)
    requires Phases(s, callers) && PromisesOnce(s) && e.Submit? && e.id !in s.store
    ensures Phases(SubmitStep(s, policy, e), callers[e.id := s.nextCall])
  {
    var s' := SubmitStep(s, policy, e);
    JoinPhases(s, s', s'.calls[s.nextCall].request, callers);
  }

  lemma {:induction false} JoinPhases(s: State, s': State, r: Request, callers: map<Id, nat>)
    requires Phases(s, callers) && PromisesOnce(s) && r.id !in s.store
    requires s'.store == s.store[r.id := r] && s'.calls == s.calls[s.nextCall := Requesting(r)]
    requires s'.nextCall == s.nextCall + 1 && s'.deferreds == s.deferreds && s'.settled == s.settled
    ensures Phases(s', callers[r.id := s.nextCall])
  {
    var callers' := callers[r.id := s.nextCall];
    NewCaller(callers, r.id, s.nextCall);
    forall k | k in callers'
      ensures Unregistered(s', k, callers'[k]) || (k in s'.deferreds && s'.deferreds[k] == callers'[k])
              || callers'[k] in s'.settled
    {
      if k != r.id {
        assert Unregistered(s, k, callers[k]) ==> Unregistered(s', k, callers'[k]);
      }
    }
  }

  lemma {:induction false} ConcludePhases(s: State, call: nat, callers: map<Id, nat>)
    requires Phases(s, callers) && call in s.calls && s.calls[call].Concluding?
    ensures Phases(ConcludeStep(s, call), callers)
  {
    var r := s.calls[call].concluded;
    var result := Resolved(r.id, r.log, r.status);
    SettlingPhases(s, r.id, result, callers);
    var s1 := if r.status == Pending then s else Settle(s, r.id, result);
    CallsNeitherSubmitNorSettle(s1, ConcludeStep(s, call), callers);
  }

  lemma {:induction false} ExpirePhases(s: State, call: nat, callers: map<Id, nat>)
    requires Phases(s, callers) && call in s.calls && s.calls[call].Expiring?
    ensures Phases(ExpireStep(s, call), callers)
  {
    var Expiring(r, rest, now) := s.calls[call];
    var s1 := s.(calls := s.calls[call := Sweeping(rest, Some(now))]);
    CallsNeitherSubmitNorSettle(s, s1, callers);
    SettlingPhases(s1, r.id, Resolved(r.id, r.log, TimedOut), callers);
  }

  lemma {:induction false} ResumePhases(policy: Policy, s: State, call: nat, clock: int, callers: map<Id, nat>)
    requires Phases(s, callers) && Stored(s) && call in s.calls
    ensures Phases(Step(s, policy, Resume(call, clock)), callers)
  {
    match s.calls[call]
    case Requesting(_) => RegisterPhases(s, call, callers);
    case Concluding(_) => ConcludePhases(s, call, callers);
    case Expiring(_, _, _) => ExpirePhases(s, call, callers);
    case Deciding(_, _, _) => WritePhases(policy, s, call, clock, callers);
    case Sweeping(_, _) => WritePhases(policy, s, call, clock, callers);
  }

  lemma {:induction false} WritePhases(policy: Policy, s: State, call: nat, clock: int, callers: map<Id, nat>)
    requires Phases(s, callers) && Stored(s) && call in s.calls && (s.calls[call].Deciding? || s.calls[call].Sweeping?)
    ensures Phases(Step(s, policy, Resume(call, clock)), callers)
  {
    StepFrame(policy, s, call, clock);
    if s.calls[call].Deciding? {
      DecisionKeepsKeys(policy, s, call);
    } else {
      SweepKeepsKeys(s, call, clock);
    }
    KeptKeysPhases(s, Step(s, policy, Resume(call, clock)), call, callers);
  }

  lemma {:induction false} KeptKeysPhases(s: State, s': State, call: nat, callers: map<Id, nat>)
    requires Phases(s, callers) && call in s.calls && !s.calls[call].Requesting? && KeepsKeys(s, s', call)
    requires s'.nextCall == s.nextCall && s'.deferreds == s.deferreds && s'.settled == s.settled
    ensures Phases(s', callers)
  {
    CallsNeitherSubmitNorSettle(s, s', callers);
  }

  /** The step writes only records that exist, and starts and ends no request. */
  ghost predicate KeepsKeys(s: State, s': State, call: nat) {
    && s'.store.Keys == s.store.Keys
    && (forall c :: c != call ==> (c in s'.calls <==> c in s.calls))
    && (forall c :: c != call && c in s.calls && c in s'.calls ==> s'.calls[c] == s.calls[c])
    && (call in s'.calls ==> !s'.calls[call].Requesting?)
  }

  lemma {:induction false} DecisionKeepsKeys(policy: Policy, s: State, call: nat)
    requires Stored(s) && call in s.calls && s.calls[call].Deciding?
    ensures KeepsKeys(s, DecideStep(s, policy, call), call)
  {
    assert Knows(s.store, s.calls[call]);
    var refused, error, logs, r := DecideCases(policy, s, call);
    if !refused {
      PutKeepsKeys(s, logs, call, r);
    }
  }

  lemma {:induction false} PutKeepsKeys(s: State, logs: seq<Log>, call: nat, r: Request)
    requires call in s.calls && r.id in s.store
    ensures KeepsKeys(s, Put(s.(logs := logs, calls := s.calls[call := Concluding(r)]), r), call)
  {
  }

  lemma {:induction false} FirstExpiredIsKnown(store: map<Id, Request>, pending: seq<Request>, now: int)
    requires forall k :: 0 <= k < |pending| ==> pending[k].id in store
    ensures FromExpired(pending, now) != [] ==> FromExpired(pending, now)[0].id in store
  {
    FromExpiredIsSuffix(pending, now);
    var rest := FromExpired(pending, now);
    if rest != [] { assert rest[0] == pending[|pending| - |rest|]; }
  }

  lemma {:induction false} SweepKeepsKeys(s: State, call: nat, clock: int)
    requires Stored(s) && call in s.calls && s.calls[call].Sweeping?
    ensures KeepsKeys(s, SweepStep(s, call, clock), call)
  {
    var Sweeping(pending, started) := s.calls[call];
    var now := if started.Some? then started.value else clock;
    assert Knows(s.store, s.calls[call]);
    FirstExpiredIsKnown(s.store, pending, now);
    SweepWrites(s, call, now, pending, started, clock);
  }

  lemma {:induction false} SweepWrites(
    s: State, call: nat, now: int, pending: seq<Request>, started: Option<int>, clock: int)
    requires call in s.calls && s.calls[call] == Sweeping(pending, started)
    requires now == if started.Some? then started.value else clock
    requires FromExpired(pending, now) != [] ==> FromExpired(pending, now)[0].id in s.store
    ensures KeepsKeys(s, SweepStep(s, call, clock), call)
  {
    var rest := FromExpired(pending, now);
    if rest != [] {
      var r := rest[0].(status := TimedOut);
      WriteKeepsKeys(s, call, Expiring(r, rest[1..], now), r);
    }
  }

  lemma {:induction false} WriteKeepsKeys(s: State, call: nat, a: Activity, r: Request)
    requires r.id in s.store && !a.Requesting?
    ensures KeepsKeys(s, Put(s.(calls := s.calls[call := a]), r), call)
  {
  }

  lemma {:induction false} StepPhases(policy: Policy, s: State, e: Event, callers: map<Id, nat>)
    requires Phases(s, callers) && Stored(s) && PromisesOnce(s) && (e.Submit? ==> e.id !in s.store)
    ensures Phases(Step(s, policy, e), if e.Submit? then callers[e.id := s.nextCall] else callers)
  {
    match e
    case Submit(_, _, _, _, _) => SubmitPhases(policy, s, e, callers);
    case Decide(_, _, _) => StartPhases(policy, s, e, callers);
    case Sweep => StartPhases(policy, s, e, callers);
    case Resume(call, clock) =>
      if call in s.calls { ResumePhases(policy, s, call, clock, callers); }
  }

  lemma {:induction false} StartPhases(policy: Policy, s: State, e: Event, callers: map<Id, nat>)
    requires Phases(s, callers) && PromisesOnce(s) && (e.Decide? || e.Sweep?)
    ensures Phases(Step(s, policy, e), callers)
  {
    CallsNeitherSubmitNorSettle(s, Step(s, policy, e), callers);
  }

  lemma {:induction false} RunPhases(policy: Policy, es: seq<Event>, n: nat)
    requires n <= |es| && FreshIds(policy, es, n)
    ensures Phases(Run(policy, es, n), Callers(policy, es, n))
  {
    PhasesStart(policy, es);
    for k := 0 to n
      invariant Phases(Run(policy, es, k), Callers(policy, es, k))
    {
      PhasesNext(policy, es, k);
    }
  }

  lemma {:induction false} PhasesStart(policy: Policy, es: seq<Event>)
    ensures Phases(Run(policy, es, 0), Callers(policy, es, 0))
  {
  }

  lemma {:induction false} PhasesNext(policy: Policy, es: seq<Event>, n: nat)
    requires n < |es| && FreshAt(policy, es, n) && Phases(Run(policy, es, n), Callers(policy, es, n))
    ensures Phases(Run(policy, es, n + 1), Callers(policy, es, n + 1))
  {
    RunIsStored(policy, es, n);
    SettledAtMostOnce(policy, es, n);
    StepPhases(policy, Run(policy, es, n), es[n], Callers(policy, es, n));
  }

  /** The request whose promise a call is about to settle. */
  function Settling(a: Activity): Option<Id> {
    match a
    case Concluding(r) => if r.status == Pending then None else Some(r.id)
    case Expiring(r, _, _) => Some(r.id)
    case _ => None
  }

  /** In every interleaving with new ids, a final verdict or a timeout settles the requester's
      promise if and only if the requester's call has registered it and nothing settled it before. */
  lemma {:induction false} SettlesExactly(policy: Policy, es: seq<Event>, n: nat, call: nat, clock: int, id: Id)
    requires n <= |es| && FreshIds(policy, es, n)
    requires call in Run(policy, es, n).calls && Settling(Run(policy, es, n).calls[call]) == Some(id)
    ensures var s := Run(policy, es, n);
            var s' := Step(s, policy, Resume(call, clock));
            && id in Callers(policy, es, n)
            && var c := Callers(policy, es, n)[id];
               c in s'.settled && c !in s.settled <==> c !in s.calls && c !in s.settled
  {
    RunPhases(policy, es, n);
    RunIsStored(policy, es, n);
    SettledAtMostOnce(policy, es, n);
    var s := Run(policy, es, n);
    SettlingStep(policy, s, call, clock, id, Callers(policy, es, n));
  }

  lemma {:induction false} SettlingStep(policy: Policy, s: State, call: nat, clock: int, id: Id, callers: map<Id, nat>)
    requires Phases(s, callers) && Stored(s) && PromisesOnce(s)
    requires call in s.calls && Settling(s.calls[call]) == Some(id)
    ensures id in callers
    ensures var c := callers[id];
            c in Step(s, policy, Resume(call, clock)).settled && c !in s.settled <==> c !in s.calls && c !in s.settled
  {
    assert Knows(s.store, s.calls[call]);
    var c := callers[id];
    var s' := Step(s, policy, Resume(call, clock));
    if id in s.deferreds {
      assert s'.settled == s.settled + [c];
    } else {
      assert s'.settled == s.settled;
    }
  }

  // ---------------------------------------------------------------- promises nobody settles

  /** A call in flight could still settle the promise of `id`. */
  predicate MaySettle(a: Activity, id: Id) {
    match a
    case Requesting(r) => r.id == id
    case Deciding(fetched, _, _) => fetched.Some? && fetched.value.id == id && fetched.value.status == Pending
    case Concluding(r) => r.id == id && r.status != Pending
    case Sweeping(pending, _) => exists k :: 0 <= k < |pending| && pending[k].id == id
    case Expiring(r, rest, _) => r.id == id || exists k :: 0 <= k < |rest| && rest[k].id == id
  }

  /** The promise of `id` waits although the request is resolved, and no call can settle it. */
  ghost predicate Stranded(s: State, id: Id) {
    && id in s.deferreds && id in s.store && s.store[id].status != Pending
    && forall c :: c in s.calls ==> !MaySettle(s.calls[c], id)
  }

  /** `s'` differs from `s` in nothing that matters to the promise of `id`. */
  ghost predicate StillWaits(s: State, s': State, id: Id) {
    Stranded(s', id) && id in s.deferreds && s'.deferreds[id] == s.deferreds[id]
  }

  lemma {:induction false} StrandedOn(s: State, s': State, id: Id)
    requires Stranded(s, id) && id in s'.deferreds && s'.deferreds[id] == s.deferreds[id]
    requires id in s'.store && s'.store[id] == s.store[id]
    requires forall c :: c in s'.calls ==>
               (c in s.calls && s'.calls[c] == s.calls[c]) || !MaySettle(s'.calls[c], id)
    ensures StillWaits(s, s', id)
  {
  }

  lemma {:induction false} DecideStrands(policy: Policy, s: State, call: nat, id: Id)
    requires Stranded(s, id) && call in s.calls && s.calls[call].Deciding?
    ensures StillWaits(s, DecideStep(s, policy, call), id)
  {
    assert !MaySettle(s.calls[call], id);
    StrandedOn(s, DecideStep(s, policy, call), id);
  }

  lemma {:induction false} SweepStrands(s: State, call: nat, clock: int, id: Id)
    requires Stranded(s, id) && call in s.calls && s.calls[call].Sweeping?
    ensures StillWaits(s, SweepStep(s, call, clock), id)
  {
    assert !MaySettle(s.calls[call], id);
    var Sweeping(pending, started) := s.calls[call];
    var now := if started.Some? then started.value else clock;
    FromExpiredIsSuffix(pending, now);
    var rest := FromExpired(pending, now);
    var n := |pending| - |rest|;
    assert forall k :: 0 <= k < |rest| ==> rest[k] == pending[n + k];
    if rest != [] {
      assert forall k :: 0 <= k < |rest[1..]| ==> rest[1..][k] == pending[n + k + 1];
      assert rest[0].id != id;
    }
    StrandedOn(s, SweepStep(s, call, clock), id);
  }

  lemma {:induction false} PromiseStrands(policy: Policy, s: State, call: nat, clock: int, id: Id)
    requires Stranded(s, id) && call in s.calls && !s.calls[call].Deciding? && !s.calls[call].Sweeping?
    ensures StillWaits(s, Step(s, policy, Resume(call, clock)), id)
  {
    assert !MaySettle(s.calls[call], id);
    StrandedOn(s, Step(s, policy, Resume(call, clock)), id);
  }

  /** Such a promise is settled by no event but a new submission under its id. */
  lemma {:induction false} StepStrands(policy: Policy, s: State, e: Event, id: Id)
    requires Stranded(s, id) && (forall k :: k in s.store ==> s.store[k].id == k) && !(e.Submit? && e.id == id)
    ensures StillWaits(s, Step(s, policy, e), id)
  {
    match e
    case Submit(_, _, _, _, _) => StrandedOn(s, Step(s, policy, e), id);
    case Decide(_, _, _) => StrandedOn(s, Step(s, policy, e), id);
    case Sweep =>
      PendingInIsStored(s, s.order);
      StrandedOn(s, Step(s, policy, e), id);
    case Resume(call, clock) =>
      if call in s.calls {
        if s.calls[call].Deciding? {
          DecideStrands(policy, s, call, id);
        } else if s.calls[call].Sweeping? {
          SweepStrands(s, call, clock, id);
        } else {
          PromiseStrands(policy, s, call, clock, id);
        }
      }
  }

  /** In every run with new ids a stranded promise is never settled. */
  lemma {:induction false} StrandedForGood(policy: Policy, es: seq<Event>, i: nat, n: nat, id: Id)
    requires i <= n <= |es| && FreshIds(policy, es, n) && Stranded(Run(policy, es, i), id)
    ensures StillWaits(Run(policy, es, i), Run(policy, es, n), id)
    ensures Run(policy, es, i).deferreds[id] !in Run(policy, es, n).settled
  {
    WaitsOn(policy, es, i, n, id, Run(policy, es, i).deferreds[id]);
    SettledAtMostOnce(policy, es, n);
    WaitsUnsettled(Run(policy, es, i), Run(policy, es, n), id);
  }

  ghost predicate WaitsAs(s: State, id: Id, promise: nat) {
    Stranded(s, id) && s.deferreds[id] == promise
  }

  lemma {:induction false} WaitsOn(policy: Policy, es: seq<Event>, i: nat, n: nat, id: Id, promise: nat)
    requires i <= n <= |es| && FreshIds(policy, es, n) && WaitsAs(Run(policy, es, i), id, promise)
    ensures WaitsAs(Run(policy, es, n), id, promise)
    decreases n - i
  {
    if i < n {
      StrandedNext(policy, es, i, n, id, promise);
      WaitsOn(policy, es, i + 1, n, id, promise);
    }
  }

  lemma {:induction false} StrandedNext(policy: Policy, es: seq<Event>, k: nat, n: nat, id: Id, promise: nat)
    requires k < n <= |es| && FreshIds(policy, es, n) && WaitsAs(Run(policy, es, k), id, promise)
    ensures WaitsAs(Run(policy, es, k + 1), id, promise)
  {
    assert FreshAt(policy, es, k);
    RunIsStored(policy, es, k);
    StepStrands(policy, Run(policy, es, k), es[k], id);
  }

  lemma {:induction false} WaitsUnsettled(s: State, s': State, id: Id)
    requires PromisesOnce(s') && StillWaits(s, s', id)
    ensures s.deferreds[id] !in s'.settled
  {
  }

  // ---------------------------------------------------------------- from a state of rest

  /** Between calls every reachable state is as after a run without overlap. */
  lemma {:induction false} AtRest(policy: Policy, es: seq<Event>, n: nat)
    requires n <= |es| && Run(policy, es, n).calls == map[]
    ensures SerialInv(Run(policy, es, n))
  {
    RunIsStored(policy, es, n);
  }

  /** In every run, overlaps included: a sweep that starts when no call is in flight, and that
      nothing interrupts, times out exactly the overdue pending requests, settles exactly their
      promises, and touches nothing else. */
  lemma {:induction false} SweepIsExact(policy: Policy, es: seq<Event>, n: nat, clock: int)
    requires n <= |es| && Run(policy, es, n).calls == map[]
    ensures var s := Run(policy, es, n);
            SweptAll(s, SweepOut(Step(s, policy, Sweep), policy, s.nextCall, clock), clock)
  {
    AtRest(policy, es, n);
    SweepFromRest(policy, Run(policy, es, n), clock);
  }

  /** The state after further events. */
  function Extend(policy: Policy, s: State, es: seq<Event>): State
    decreases |es|
  {
    if es == [] then s else Extend(policy, Step(s, policy, es[0]), es[1..])
  }

  ghost predicate FreshOn(policy: Policy, s: State, es: seq<Event>)
    decreases |es|
  {
    es != [] ==> (es[0].Submit? ==> es[0].id !in s.store) && FreshOn(policy, Step(s, policy, es[0]), es[1..])
  }

  lemma {:induction false} StrandedExtends(policy: Policy, s: State, es: seq<Event>, id: Id)
    requires Stored(s) && PromisesOnce(s) && Stranded(s, id) && FreshOn(policy, s, es)
    ensures StillWaits(s, Extend(policy, s, es), id) && s.deferreds[id] !in Extend(policy, s, es).settled
    decreases |es|
  {
    if es != [] {
      StepIsStored(policy, s, es[0]);
      StepKeepsPromises(policy, s, es[0]);
      StepStrands(policy, s, es[0], id);
      StrandedExtends(policy, Step(s, policy, es[0]), es[1..], id);
    }
  }

  // ---------------------------------------------------------------- records nobody overwrites

  /** A call in flight holds a copy of the request of `id` that is still pending. */
  predicate HoldsPending(a: Activity, id: Id) {
    match a
    case Requesting(_) => false
    case Deciding(fetched, _, _) => fetched.Some? && fetched.value.id == id && fetched.value.status == Pending
    case Concluding(_) => false
    case Sweeping(pending, _) => exists k :: 0 <= k < |pending| && pending[k].id == id
    case Expiring(_, rest, _) => exists k :: 0 <= k < |rest| && rest[k].id == id
  }

  /** The request is resolved, and no call in flight takes it for pending. */
  ghost predicate Final(s: State, id: Id) {
    && id in s.store && s.store[id].status != Pending
    && forall c :: c in s.calls ==> !HoldsPending(s.calls[c], id)
  }

  /** The record of `id` is the one before, and final. */
  ghost predicate StillFinal(s: State, s': State, id: Id) {
    Final(s', id) && id in s.store && s'.store[id] == s.store[id]
  }

  lemma {:induction false} FinalOn(s: State, s': State, id: Id)
    requires Final(s, id) && id in s'.store && s'.store[id] == s.store[id]
    requires forall c :: c in s'.calls ==>
               (c in s.calls && s'.calls[c] == s.calls[c]) || !HoldsPending(s'.calls[c], id)
    ensures StillFinal(s, s', id)
  {
  }

  lemma {:induction false} SweepKeepsFinal(s: State, call: nat, clock: int, id: Id)
    requires Final(s, id) && call in s.calls && s.calls[call].Sweeping?
    ensures StillFinal(s, SweepStep(s, call, clock), id)
  {
    assert !HoldsPending(s.calls[call], id);
    var Sweeping(pending, started) := s.calls[call];
    var now := if started.Some? then started.value else clock;
    FromExpiredIsSuffix(pending, now);
    var rest := FromExpired(pending, now);
    var n := |pending| - |rest|;
    assert forall k :: 0 <= k < |rest| ==> rest[k] == pending[n + k];
    if rest != [] {
      assert forall k :: 0 <= k < |rest[1..]| ==> rest[1..][k] == pending[n + k + 1];
      assert rest[0].id != id;
    }
    FinalOn(s, SweepStep(s, call, clock), id);
  }

  lemma {:induction false} ResumeKeepsFinal(policy: Policy, s: State, call: nat, clock: int, id: Id)
    requires Final(s, id) && call in s.calls && !s.calls[call].Sweeping?
    ensures StillFinal(s, Step(s, policy, Resume(call, clock)), id)
  {
    assert !HoldsPending(s.calls[call], id);
    if s.calls[call].Deciding? {
      DecideKeepsFinal(policy, s, call, id);
    } else {
      FinalOn(s, Step(s, policy, Resume(call, clock)), id);
    }
  }

  lemma {:induction false} DecideKeepsFinal(policy: Policy, s: State, call: nat, id: Id)
    requires Final(s, id) && call in s.calls && s.calls[call].Deciding?
    ensures StillFinal(s, DecideStep(s, policy, call), id)
  {
    assert !HoldsPending(s.calls[call], id);
    var refused, error, logs, r := DecideCases(policy, s, call);
    if refused {
      FinalOn(s, Finish(s, call, Failed(error)), id);
    } else {
      FinalOn(s, Put(s.(logs := logs, calls := s.calls[call := Concluding(r)]), r), id);
    }
  }

  /** Such a record is overwritten by no event but a new submission under its id. */
  lemma {:induction false} StepKeepsFinal(policy: Policy, s: State, e: Event, id: Id)
    requires Final(s, id) && (forall k :: k in s.store ==> s.store[k].id == k) && !(e.Submit? && e.id == id)
    ensures StillFinal(s, Step(s, policy, e), id)
  {
    if e.Resume? && e.call in s.calls {
      if s.calls[e.call].Sweeping? {
        SweepKeepsFinal(s, e.call, e.clock, id);
      } else {
        ResumeKeepsFinal(policy, s, e.call, e.clock, id);
      }
    } else {
      PendingInIsStored(s, s.order);
      FinalOn(s, Step(s, policy, e), id);
    }
  }

  lemma {:induction false} FinalExtends(policy: Policy, s: State, es: seq<Event>, id: Id)
    requires Stored(s) && Final(s, id) && FreshOn(policy, s, es)
    ensures StillFinal(s, Extend(policy, s, es), id)
    decreases |es|
  {
    if es != [] {
      StepIsStored(policy, s, es[0]);
      StepKeepsFinal(policy, s, es[0], id);
      FinalExtends(policy, Step(s, policy, es[0]), es[1..], id);
    }
  }

  /** In every interleaving: once a request is resolved and no call in flight holds a pending copy
      of it, its record never changes again, whatever follows under new ids. */
  lemma {:induction false} ResolvedForGood(policy: Policy, es: seq<Event>, n: nat, more: seq<Event>, id: Id)
    requires n <= |es| && Final(Run(policy, es, n), id) && FreshOn(policy, Run(policy, es, n), more)
    ensures id in Extend(policy, Run(policy, es, n), more).store
    ensures Extend(policy, Run(policy, es, n), more).store[id] == Run(policy, es, n).store[id]
  {
    RunIsStored(policy, es, n);
    FinalExtends(policy, Run(policy, es, n), more, id);
  }

  lemma {:induction false} PhasesExtend(policy: Policy, s: State, es: seq<Event>, callers: map<Id, nat>)
    requires Phases(s, callers) && Stored(s) && PromisesOnce(s)
    requires forall e :: e in es ==> !e.Submit?
    ensures Phases(Extend(policy, s, es), callers)
    decreases |es|
  {
    if es != [] {
      assert es[0] in es && forall e :: e in es[1..] ==> e in es;
      StepIsStored(policy, s, es[0]);
      StepKeepsPromises(policy, s, es[0]);
      StepPhases(policy, s, es[0], callers);
      PhasesExtend(policy, Step(s, policy, es[0]), es[1..], callers);
    }
  }

  /** A sweep that runs to its end is a continuation of the run. */
  lemma {:induction false} SweepOutExtends(policy: Policy, s: State, call: nat, clock: int) returns (more: seq<Event>)
    requires call in s.calls ==> s.calls[call].Sweeping? || s.calls[call].Expiring?
    ensures SweepOut(s, policy, call, clock) == Extend(policy, s, more)
    ensures forall e :: e in more ==> e == Resume(call, clock)
    decreases if call !in s.calls then 0
              else if s.calls[call].Sweeping? then 2 * |s.calls[call].pending| + 1
              else 2 * |s.calls[call].rest| + 2
  {
    more := [];
    if call in s.calls {
      if s.calls[call].Sweeping? {
        var started := s.calls[call].started;
        FromExpiredIsSuffix(s.calls[call].pending, if started.Some? then started.value else clock);
      }
      var rest := SweepOutExtends(policy, Step(s, policy, Resume(call, clock)), call, clock);
      more := [Resume(call, clock)] + rest;
      assert more[1..] == rest;
    }
  }

  lemma {:induction false} WholeSweepExtends(policy: Policy, s: State, clock: int) returns (more: seq<Event>)
    ensures SweepOut(Step(s, policy, Sweep), policy, s.nextCall, clock) == Extend(policy, s, more)
    ensures forall e :: e in more ==> !e.Submit?
  {
    var rest := SweepOutExtends(policy, Step(s, policy, Sweep), s.nextCall, clock);
    more := [Sweep] + rest;
    assert more[0] == Sweep && more[1..] == rest;
  }

  lemma {:induction false} ResumesAreFresh(policy: Policy, s: State, es: seq<Event>)
    requires forall e :: e in es ==> !e.Submit?
    ensures FreshOn(policy, s, es)
    decreases |es|
  {
    if es != [] {
      assert es[0] in es && forall e :: e in es[1..] ==> e in es;
      ResumesAreFresh(policy, Step(s, policy, es[0]), es[1..]);
    }
  }

  lemma {:induction false} GoneIsSettled(s: State, s': State, callers: map<Id, nat>, id: Id)
    requires Phases(s, callers) && Phases(s', callers) && s'.calls == map[]
    requires id in s.deferreds && id !in s'.deferreds
    ensures s.deferreds[id] in s'.settled
  {
    assert id in callers && s.deferreds[id] == callers[id];
  }

  /** A pending request can always be timed out, which settles its promise. */
  lemma {:induction false} PendingCanSettle(policy: Policy, s: State, callers: map<Id, nat>, id: Id)
    returns (more: seq<Event>)
    requires SerialInv(s) && s.calls == map[] && Phases(s, callers) && Stored(s) && PromisesOnce(s)
    requires id in s.deferreds && id in s.store && s.store[id].status == Pending
    ensures FreshOn(policy, s, more) && s.deferreds[id] in Extend(policy, s, more).settled
  {
    var clock := s.store[id].expiresAt;
    more := WholeSweepExtends(policy, s, clock);
    SweepFromRest(policy, s, clock);
    ResumesAreFresh(policy, s, more);
    PhasesExtend(policy, s, more, callers);
    GoneIsSettled(s, Extend(policy, s, more), callers, id);
  }

  /** In every run with new ids, whenever no call is in flight: a promise that still waits can
      be settled by some continuation if and only if its request is pending. A promise whose
      request is resolved is lost for ever. */
  lemma {:induction false} WaitsInVainExactly(policy: Policy, es: seq<Event>, n: nat, id: Id)
    requires n <= |es| && FreshIds(policy, es, n) && Run(policy, es, n).calls == map[]
    requires id in Run(policy, es, n).deferreds
    ensures var s := Run(policy, es, n);
            && id in s.store
            && ((exists more :: FreshOn(policy, s, more) && s.deferreds[id] in Extend(policy, s, more).settled)
                  <==> s.store[id].status == Pending)
  {
    var s := Run(policy, es, n);
    RunPhases(policy, es, n);
    RunIsStored(policy, es, n);
    SettledAtMostOnce(policy, es, n);
    AtRest(policy, es, n);
    if s.store[id].status == Pending {
      var more := PendingCanSettle(policy, s, Callers(policy, es, n), id);
    } else {
      assert Stranded(s, id);
      forall more | FreshOn(policy, s, more)
        ensures s.deferreds[id] !in Extend(policy, s, more).settled
      {
        StrandedExtends(policy, s, more, id);
      }
    }
  }

  // ---------------------------------------------------------------- runs written out

  const ALICE := Id("alice")
  const BOB := Id("bob")
  const TENANT := Id("t")
  const REQUEST := Id("r")

  function SubmitMedium(): Event {
    Submit(REQUEST, TENANT, MEDIUM, None, 0)
  }

  function DecideAs(user: Id, approves: bool): Event {
    Decide(REQUEST, TENANT, Decision(user, "owner", approves))
  }

  function MediumRecord(): Request {
    Request(REQUEST, TENANT, MEDIUM, None, 0, Pending, 0, 1, 1)
  }

  function MediumLog(ds: seq<Decision>): Log {
    Log(REQUEST, TENANT, MEDIUM, None, 0, 1, ds)
  }

  lemma {:induction false} MediumSubmitted()
    ensures Step(INITIAL, map[], SubmitMedium())
         == State(map[REQUEST := MediumRecord()], [REQUEST], [MediumLog([])], map[0 := Requesting(MediumRecord())],
                  1, map[], [], map[])
  {
  }

  lemma {:induction false} OwnerMayDecide(d: Decision, ds: seq<Decision>)
    requires d.role == "owner" && forall x :: x in ds ==> x.user != d.user
    ensures Objection(map[], MediumRecord(), TENANT, d, ds) == None
  {
    assert Lower("owner") == "owner" == DefaultRequirement(MEDIUM).allowedRoles[3];
  }

  /** An accepted decision on the medium-risk request, taken from a copy that is still pending. */
  lemma {:induction false} OwnerDecides(s: State, call: nat, d: Decision, ds: seq<Decision>)
    requires call in s.calls && s.calls[call] == Deciding(Some(MediumRecord()), TENANT, d)
    requires s.logs == [MediumLog(ds)] && d.role == "owner" && forall x :: x in ds ==> x.user != d.user
    ensures var s', r := DecideStep(s, map[], call), Concluded(MediumRecord(), d.approves, ds + [d]);
            && s'.logs == [MediumLog(ds + [d])] && s'.store == s.store[REQUEST := r]
            && s'.calls == s.calls[call := Concluding(r)]
            && s'.deferreds == s.deferreds && s'.settled == s.settled
    ensures d.approves ==> Concluded(MediumRecord(), true, ds + [d]).status == Approved
  {
    OwnerMayDecide(d, ds);
    ApprovalsOfAppend(ds, d);
  }

  function OverlapEvents(): seq<Event> {
    [SubmitMedium(), Resume(0, 0), DecideAs(ALICE, false), DecideAs(BOB, true), Resume(1, 0), Resume(2, 0)]
  }

  lemma {:induction false} BothFetchPending()
    ensures var s := Run(map[], OverlapEvents(), 4);
            && s.logs == [MediumLog([])]
            && s.calls == map[1 := Deciding(Some(MediumRecord()), TENANT, Decision(ALICE, "owner", false)),
                              2 := Deciding(Some(MediumRecord()), TENANT, Decision(BOB, "owner", true))]
  {
    var es := OverlapEvents();
    MediumSubmitted();
    var s1 := Run(map[], es, 1);
    assert s1 == Step(Run(map[], es, 0), map[], es[0]);
    var s2 := Run(map[], es, 2);
    assert s2 == RegisterStep(s1, 0) && s2.calls == map[];
    var s3 := Run(map[], es, 3);
    assert s3 == Step(s2, map[], es[2]);
    assert Run(map[], es, 4) == Step(s3, map[], es[3]);
  }

  /** With overlap the terminal statuses are not absorbing: both reviewers fetch the pending
      request, the first rejects it, and the second turns the rejection into an approval. */
  lemma {:induction false} OverlapRevivesRejection()
    ensures var es := OverlapEvents();
            && REQUEST in Run(map[], es, 5).store && Run(map[], es, 5).store[REQUEST].status == Rejected
            && REQUEST in Run(map[], es, 6).store && Run(map[], es, 6).store[REQUEST].status == Approved
  {
    var es := OverlapEvents();
    var no, yes := Decision(ALICE, "owner", false), Decision(BOB, "owner", true);
    var s4, s5 := Run(map[], es, 4), Run(map[], es, 5);
    BothFetchPending();
    OwnerDecides(s4, 1, no, []);
    assert s5 == DecideStep(s4, map[], 1);
    assert [] + [no] == [no];
    OwnerDecides(s5, 2, yes, [no]);
    assert Run(map[], es, 6) == DecideStep(s5, map[], 2);
  }

  function OvertakingEvents(): seq<Event> {
    [SubmitMedium(), DecideAs(BOB, true), Resume(1, 0), Resume(1, 0), Resume(0, 0)]
  }

  lemma {:induction false} DecisionOvertakes()
    ensures var s := Run(map[], OvertakingEvents(), 3);
            && s.calls.Keys == {0, 1} && s.calls[0] == Requesting(MediumRecord())
            && s.calls[1].Concluding? && s.calls[1].concluded.id == REQUEST && s.calls[1].concluded.status == Approved
            && REQUEST in s.store && s.store[REQUEST].status == Approved
            && s.deferreds == map[] && s.settled == []
  {
    var es := OvertakingEvents();
    var yes := Decision(BOB, "owner", true);
    MediumSubmitted();
    var s1, s2 := Run(map[], es, 1), Run(map[], es, 2);
    assert s1 == Step(Run(map[], es, 0), map[], es[0]);
    assert s2 == Step(s1, map[], es[1]);
    OwnerDecides(s2, 1, yes, []);
    assert Run(map[], es, 3) == DecideStep(s2, map[], 1);
  }

  /** With overlap a promise can be lost: a decision that overtakes the requester's own call
      finds no deferred, the one registered afterwards waits for a resolved request, and no
      continuation with new ids settles it. */
  lemma {:induction false} EarlyDecisionLosesPromise()
    ensures var s := Run(map[], OvertakingEvents(), 5);
            && s.calls == map[] && s.settled == []
            && REQUEST in s.store && s.store[REQUEST].status == Approved && REQUEST in s.deferreds
            && forall more :: FreshOn(map[], s, more) ==> s.deferreds[REQUEST] !in Extend(map[], s, more).settled
  {
    PromiseLeftBehind();
    var s := Run(map[], OvertakingEvents(), 5);
    RunIsStored(map[], OvertakingEvents(), 5);
    SettledAtMostOnce(map[], OvertakingEvents(), 5);
    assert Stranded(s, REQUEST);
    forall more | FreshOn(map[], s, more)
      ensures s.deferreds[REQUEST] !in Extend(map[], s, more).settled
    {
      StrandedExtends(map[], s, more, REQUEST);
    }
  }

  lemma {:induction false} PromiseLeftBehind()
    ensures var s := Run(map[], OvertakingEvents(), 5);
            && s.calls == map[] && s.settled == []
            && REQUEST in s.store && s.store[REQUEST].status == Approved && REQUEST in s.deferreds
  {
    var es := OvertakingEvents();
    DecisionOvertakes();
    var s3, s4 := Run(map[], es, 3), Run(map[], es, 4);
    assert s4 == ConcludeStep(s3, 1);
    assert Run(map[], es, 5) == RegisterStep(s4, 0);
    assert RegisterStep(s4, 0).calls == map[];
  }
}
