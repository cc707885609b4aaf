/** The approval protocol when calls do not overlap: resolved records never change, promises
    wait and tell what they should, and a sweep times out exactly the overdue requests. */
module ApprovalSerial {
  import opened Approval
  import opened Shared

  // ---------------------------------------------------------------- calls that do not overlap

  /** A call starts only while no other is in flight, and request ids are not reused. */
  predicate Serial(s: State, e: Event) {
    !e.Resume? ==> s.calls == map[] && (e.Submit? ==> e.id !in s.store)
  }

  ghost predicate SerialRun(policy: Policy, es: seq<Event>, n: nat)
    requires n <= |es|
  {
    forall k :: 0 <= k < n ==> SerialAt(policy, es, k)
  }

  predicate SerialAt(policy: Policy, es: seq<Event>, k: nat)
    requires k < |es|
  {
    Serial(Run(policy, es, k), es[k])
  }

  ghost predicate Current(s: State, r: Request) {
    r.id in s.store && s.store[r.id] == r
  }

  ghost predicate CurrentList(s: State, rs: seq<Request>) {
    && (forall k :: 0 <= k < |rs| ==> rs[k].status == Pending && Current(s, rs[k]))
    && (forall i, j :: 0 <= i < j < |rs| ==> rs[i].id != rs[j].id)
  }

  /** The one call in flight holds copies that still equal the stored records. */
  ghost predicate Fresh(s: State, a: Activity) {
    match a
    case Requesting(r) => Current(s, r) && r.status in {Pending, AutoApproved}
    case Deciding(fetched, _, _) => fetched.Some? ==> Current(s, fetched.value)
    case Concluding(r) => Current(s, r)
    case Sweeping(pending, _) => CurrentList(s, pending)
    case Expiring(r, rest, _) =>
      && Current(s, r) && r.status == TimedOut && CurrentList(s, rest)
      && forall k :: 0 <= k < |rest| ==> rest[k].id != r.id
  }

  ghost predicate SerialInv(s: State) {
    && (forall id :: id in s.store ==> s.store[id].id == id)
    && (forall i, j :: 0 <= i < j < |s.order| ==> s.order[i] != s.order[j])
    && (forall id :: id in s.order <==> id in s.store)
    && (forall c, c' :: c in s.calls && c' in s.calls ==> c == c')
    && (forall c :: c in s.calls ==> Fresh(s, s.calls[c]))
  }

  lemma {:induction false} PendingInIsCurrent(s: State, order: seq<Id>)
    requires forall id :: id in s.store ==> s.store[id].id == id
    requires forall i, j :: 0 <= i < j < |order| ==> order[i] != order[j]
    ensures CurrentList(s, PendingIn(s.store, order))
    ensures forall k :: 0 <= k < |PendingIn(s.store, order)| ==> PendingIn(s.store, order)[k].id in order
    decreases |order|
  {
    if order != [] {
      PendingInIsCurrent(s, order[1..]);
    }
  }

  /** The store after a write of one record, and what that leaves current. */
  ghost predicate Wrote(s: State, s': State, r: Request) {
    r.id in s.store && s'.store == s.store[r.id := r] && s'.order == s.order
  }

  /** `s'` continues a run without overlap from `s`, and every resolved record is untouched. */
  ghost predicate SerialNext(s: State, s': State) {
    && SerialInv(s')
    && forall id :: id in s.store && s.store[id].status != Pending ==> id in s'.store && s'.store[id] == s.store[id]
  }

  lemma {:induction false} SerialWrite(s: State, s': State, call: nat, a: Activity, r: Request)
    requires SerialInv(s) && call in s.calls && s'.calls == s.calls[call := a]
    requires Wrote(s, s', r) && s.store[r.id].status == Pending
    requires Fresh(s', a)
    ensures SerialNext(s, s')
  {
  }

  lemma {:induction false} SerialQuiet(s: State, s': State, call: nat)
    requires SerialInv(s) && call in s.calls && s'.calls == s.calls - {call}
    requires s'.store == s.store && s'.order == s.order
    ensures SerialNext(s, s')
  {
    assert s'.calls == map[];
  }

  lemma {:induction false} SerialDecide(policy: Policy, s: State, call: nat)
    requires SerialInv(s) && call in s.calls && s.calls[call].Deciding?
    ensures SerialNext(s, DecideStep(s, policy, call))
  {
    var Deciding(fetched, tenant, d) := s.calls[call];
    assert Fresh(s, s.calls[call]);
    var refused, error, logs, r := DecideCases(policy, s, call);
    if refused {
      SerialQuiet(s, Finish(s, call, Failed(error)), call);
    } else {
      SerialWrite(s, DecideStep(s, policy, call), call, Concluding(r), r);
    }
  }

  lemma {:induction false} SerialSweep(s: State, call: nat, clock: int)
    requires SerialInv(s) && call in s.calls && s.calls[call].Sweeping?
    ensures SerialNext(s, SweepStep(s, call, clock))
  {
    var Sweeping(pending, started) := s.calls[call];
    var s' := SweepStep(s, call, clock);
    assert CurrentList(s, pending) by { assert Fresh(s, s.calls[call]); }
    var now := if started.Some? then started.value else clock;
    var rest := FromExpired(pending, now);
    FromExpiredIsSuffix(pending, now);
    if rest == [] {
      SerialQuiet(s, s', call);
    } else {
      SuffixIsCurrent(s, pending, |pending| - |rest|);
      SerialTimeOut(s, s', call, rest, now);
    }
  }

  lemma {:induction false} SuffixIsCurrent(s: State, rs: seq<Request>, k: nat)
    requires CurrentList(s, rs) && k <= |rs|
    ensures CurrentList(s, rs[k..])
  {
  }

  lemma {:induction false} SerialTimeOut(s: State, s': State, call: nat, rest: seq<Request>, now: int)
    requires SerialInv(s) && call in s.calls && CurrentList(s, rest) && rest != []
    requires var r := rest[0].(status := TimedOut);
             s' == Put(s.(calls := s.calls[call := Expiring(r, rest[1..], now)]), r)
    ensures SerialNext(s, s')
  {
    var r := rest[0].(status := TimedOut);
    assert Current(s, rest[0]);
    OthersStayCurrent(s, s', r, rest);
    SerialWrite(s, s', call, Expiring(r, rest[1..], now), r);
  }

  lemma {:induction false} OthersStayCurrent(s: State, s': State, r: Request, rs: seq<Request>)
    requires CurrentList(s, rs) && rs != [] && rs[0].id == r.id
    requires s'.store == s.store[r.id := r]
    ensures CurrentList(s', rs[1..])
    ensures forall k :: 0 <= k < |rs[1..]| ==> rs[1..][k].id != r.id
  {
    forall k | 0 <= k < |rs[1..]|
      ensures rs[1..][k].status == Pending && Current(s', rs[1..][k]) && rs[1..][k].id != r.id
    {
      assert rs[k + 1].status == Pending && Current(s, rs[k + 1]);
    }
  }

  lemma {:induction false} SerialExpire(s: State, call: nat)
    requires SerialInv(s) && call in s.calls && s.calls[call].Expiring?
    ensures SerialNext(s, ExpireStep(s, call))
  {
    var Expiring(r, rest, now) := s.calls[call];
    var s' := ExpireStep(s, call);
    assert Fresh(s, s.calls[call]);
    assert s'.store == s.store && s'.calls == s.calls[call := Sweeping(rest, Some(now))];
    assert forall q :: Current(s, q) ==> Current(s', q);
  }

  lemma {:induction false} SerialBegin(policy: Policy, s: State, e: Event)
    requires SerialInv(s) && Serial(s, e) && !e.Resume?
    ensures SerialNext(s, Step(s, policy, e))
  {
    match e
    case Submit(_, _, _, _, _) =>
      SerialSubmit(policy, s, e);
    case Decide(id, tenant, d) =>
      SerialStart(s, Deciding(if id in s.store then Some(s.store[id]) else None, tenant, d));
    case Sweep =>
      PendingInIsCurrent(s, s.order);
      SerialStart(s, Sweeping(PendingIn(s.store, s.order), None));
  }

  lemma {:induction false} SerialStart(s: State, a: Activity)
    requires SerialInv(s) && s.calls == map[] && Fresh(s, a)
    ensures SerialNext(s, Begin(s, a))
  {
    assert Fresh(Begin(s, a), a);
  }

  lemma {:induction false} SerialSubmit(policy: Policy, s: State, e: Event)
    requires SerialInv(s) && Serial(s, e) && e.Submit?
    ensures SerialNext(s, SubmitStep(s, policy, e))
  {
    assert e.id !in s.order;
    assert SubmitStep(s, policy, e).calls.Keys == {s.nextCall};
  }

  /** Without overlap a resolved record is never written again. */
  lemma {:induction false} SerialStep(policy: Policy, s: State, e: Event)
    requires SerialInv(s) && Serial(s, e)
    ensures SerialNext(s, Step(s, policy, e))
  {
    if !e.Resume? {
      SerialBegin(policy, s, e);
    } else if e.call in s.calls {
      match s.calls[e.call]
      case Requesting(_) =>
        SerialQuiet(s, RegisterStep(s, e.call), e.call);
      case Deciding(_, _, _) =>
        SerialDecide(policy, s, e.call);
      case Concluding(_) =>
        SerialQuiet(s, ConcludeStep(s, e.call), e.call);
      case Sweeping(_, _) =>
        SerialSweep(s, e.call, e.clock);
      case Expiring(_, _, _) =>
        SerialExpire(s, e.call);
    }
  }

  lemma {:induction false} SerialRunInv(policy: Policy, es: seq<Event>, n: nat)
    requires n <= |es| && SerialRun(policy, es, n)
    ensures SerialInv(Run(policy, es, n))
  {
    SerialRunStart(policy, es);
    for k := 0 to n
      invariant SerialInv(Run(policy, es, k))
    {
      SerialRunNext(policy, es, k);
    }
  }

  lemma {:induction false} SerialRunStart(policy: Policy, es: seq<Event>)
    ensures SerialInv(Run(policy, es, 0))
  {
  }

  lemma {:induction false} SerialRunNext(policy: Policy, es: seq<Event>, n: nat)
    requires n < |es| && SerialAt(policy, es, n) && SerialInv(Run(policy, es, n))
    ensures SerialInv(Run(policy, es, n + 1))
  {
    SerialStep(policy, Run(policy, es, n), es[n]);
  }

  /** Over every run without overlapping calls, a request that has left `pending` keeps its
      record for ever. */
  lemma {:induction false} TerminalIsAbsorbing(policy: Policy, es: seq<Event>, i: nat, n: nat, id: Id)
    requires i <= n <= |es| && SerialRun(policy, es, n)
    requires id in Run(policy, es, i).store && Run(policy, es, i).store[id].status != Pending
    ensures id in Run(policy, es, n).store
    ensures Run(policy, es, n).store[id] == Run(policy, es, i).store[id]
  {
    HeldOn(policy, es, i, n, id, Run(policy, es, i).store[id]);
  }

  lemma {:induction false} HeldOn(policy: Policy, es: seq<Event>, i: nat, n: nat, id: Id, record: Request)
    requires i <= n <= |es| && SerialRun(policy, es, n)
    requires Holds(Run(policy, es, i), id, record) && record.status != Pending
    ensures Holds(Run(policy, es, n), id, record)
  {
    for k := i to n
      invariant Holds(Run(policy, es, k), id, record)
    {
      AbsorbNext(policy, es, k, id, record);
    }
  }

  predicate Holds(s: State, id: Id, record: Request) {
    id in s.store && s.store[id] == record
  }

  lemma {:induction false} AbsorbNext(policy: Policy, es: seq<Event>, n: nat, id: Id, record: Request)
    requires n < |es| && SerialRun(policy, es, n) && SerialAt(policy, es, n)
    requires Holds(Run(policy, es, n), id, record) && record.status != Pending
    ensures Holds(Run(policy, es, n + 1), id, record)
  {
    SerialRunInv(policy, es, n);
    SerialStep(policy, Run(policy, es, n), es[n]);
  }

  /** A call in flight is about to register or settle the promise of request `id`. */
  predicate Handling(a: Activity, id: Id) {
    match a
    case Requesting(r) => r.id == id
    case Concluding(r) => r.id == id && r.status != Pending
    case Expiring(r, _, _) => r.id == id
    case _ => false
  }

  /** Apart from that, a promise waits exactly while its request is pending. */
  ghost predicate Tied(s: State) {
    forall id :: id in s.store && s.store[id].status != AutoApproved
                 && (forall c :: c in s.calls ==> !Handling(s.calls[c], id))
                 ==> (s.store[id].status == Pending <==> id in s.deferreds)
  }

  lemma {:induction false} SerialTied(policy: Policy, s: State, e: Event)
    requires SerialInv(s) && Tied(s) && Serial(s, e)
    ensures Tied(Step(s, policy, e))
  {
    if !e.Resume? {
      assert Step(s, policy, e).calls.Keys == {s.nextCall};
    } else if e.call in s.calls {
      var a := s.calls[e.call];
      if a.Deciding? {
        TiedDecide(policy, s, e.call);
      } else if a.Sweeping? {
        TiedSweep(s, e.call, e.clock);
      } else if a.Requesting? {
        TiedRegister(s, e.call);
      } else if a.Concluding? {
        TiedConclude(s, e.call);
      } else {
        TiedExpire(s, e.call);
      }
    }
  }

  lemma {:induction false} TiedRegister(s: State, call: nat)
    requires SerialInv(s) && Tied(s) && call in s.calls && s.calls[call].Requesting?
    ensures Tied(RegisterStep(s, call))
  {
    assert Fresh(s, s.calls[call]);
    assert forall c :: c in s.calls ==> c == call;
  }

  lemma {:induction false} TiedConclude(s: State, call: nat)
    requires SerialInv(s) && Tied(s) && call in s.calls && s.calls[call].Concluding?
    ensures Tied(ConcludeStep(s, call))
  {
    assert Fresh(s, s.calls[call]);
    assert forall c :: c in s.calls ==> c == call;
  }

  lemma {:induction false} TiedExpire(s: State, call: nat)
    requires SerialInv(s) && Tied(s) && call in s.calls && s.calls[call].Expiring?
    ensures Tied(ExpireStep(s, call))
  {
    assert Fresh(s, s.calls[call]);
    assert forall c :: c in s.calls ==> c == call;
  }

  lemma {:induction false} TiedDecide(policy: Policy, s: State, call: nat)
    requires SerialInv(s) && Tied(s) && call in s.calls && s.calls[call].Deciding?
    ensures Tied(DecideStep(s, policy, call))
  {
    var s' := DecideStep(s, policy, call);
    assert Fresh(s, s.calls[call]);
    assert forall c :: c in s.calls ==> c == call;
    var refused, error, logs, r := DecideCases(policy, s, call);
    if !refused {
      assert s'.calls[call] == Concluding(r) && s'.store == s.store[r.id := r];
    }
  }

  lemma {:induction false} TiedSweep(s: State, call: nat, clock: int)
    requires SerialInv(s) && Tied(s) && call in s.calls && s.calls[call].Sweeping?
    ensures Tied(SweepStep(s, call, clock))
  {
    var s' := SweepStep(s, call, clock);
    assert forall c :: c in s.calls ==> c == call;
    if call in s'.calls {
      assert s'.calls[call].Expiring?;
      assert s'.store == s.store[s'.calls[call].expired.id := s'.calls[call].expired];
    }
  }

  /** Without overlap no requester is forgotten: between calls, a promise waits exactly for
      the requests that are still pending. */
  lemma {:induction false} NoPromiseIsLost(policy: Policy, es: seq<Event>, n: nat)
    requires n <= |es| && SerialRun(policy, es, n)
    ensures var s := Run(policy, es, n);
            && Tied(s)
            && (s.calls == map[] ==>
                  forall id :: id in s.store && s.store[id].status != AutoApproved ==>
                    (s.store[id].status == Pending <==> id in s.deferreds))
  {
    AlwaysTied(policy, es, n);
    if Run(policy, es, n).calls == map[] {
      TiedAtRest(Run(policy, es, n));
    }
  }

  lemma {:induction false} AlwaysTied(policy: Policy, es: seq<Event>, n: nat)
    requires n <= |es| && SerialRun(policy, es, n)
    ensures Tied(Run(policy, es, n))
  {
    TiedStart(policy, es);
    for k := 0 to n
      invariant Tied(Run(policy, es, k))
    {
      TiedNext(policy, es, k, n);
    }
  }

  lemma {:induction false} TiedAtRest(s: State)
    requires Tied(s) && s.calls == map[]
    ensures forall id :: id in s.store && s.store[id].status != AutoApproved ==>
              (s.store[id].status == Pending <==> id in s.deferreds)
  {
  }

  lemma {:induction false} TiedStart(policy: Policy, es: seq<Event>)
    ensures Tied(Run(policy, es, 0))
  {
  }

  lemma {:induction false} TiedNext(policy: Policy, es: seq<Event>, k: nat, n: nat)
    requires k < n <= |es| && SerialRun(policy, es, n) && Tied(Run(policy, es, k))
    ensures Tied(Run(policy, es, k + 1))
  {
    assert SerialAt(policy, es, k);
    SerialRunInv(policy, es, k);
    SerialTied(policy, Run(policy, es, k), es[k]);
  }

  /** What a settled promise said is the final status of the request it was about. */
  ghost predicate Told(store: map<Id, Request>, results: map<nat, Result>, c: nat) {
    && c in results && results[c].Resolved? && results[c].request in store
    && results[c].status != Pending && store[results[c].request].status == results[c].status
  }

  ghost predicate AllTold(s: State) {
    forall c :: c in s.settled ==> Told(s.store, s.results, c)
  }

  /** A step that keeps resolved records and the results of settled promises, and settles
      only promises whose result it tells. */
  lemma {:induction false} ToldKept(s: State, s': State)
    requires AllTold(s)
    requires forall id :: id in s.store && s.store[id].status != Pending ==>
               id in s'.store && s'.store[id] == s.store[id]
    requires forall c :: c in s.settled ==> c in s'.results && (c in s.results ==> s'.results[c] == s.results[c])
    requires forall c :: c in s'.settled && c !in s.settled ==> Told(s'.store, s'.results, c)
    ensures AllTold(s')
  {
    forall c | c in s'.settled
      ensures Told(s'.store, s'.results, c)
    {
      if c in s.settled {
        assert Told(s.store, s.results, c);
      }
    }
  }

  lemma {:induction false} TellStep(policy: Policy, s: State, e: Event)
    requires SerialInv(s) && AllTold(s) && PromisesOnce(s) && Serial(s, e)
    ensures AllTold(Step(s, policy, e))
  {
    var s' := Step(s, policy, e);
    SerialStep(policy, s, e);
    forall c | c in s.settled
      ensures c in s'.results && s'.results[c] == s.results[c]
    {
      assert Told(s.store, s.results, c);
      SettledResultStays(policy, s, e, c);
    }
    forall c | c in s'.settled && c !in s.settled
      ensures Told(s'.store, s'.results, c)
    {
      NewlyTold(policy, s, e, c);
    }
    ToldKept(s, s');
  }

  lemma {:induction false} SettledResultStays(policy: Policy, s: State, e: Event, c: nat)
    requires PromisesOnce(s) && c in s.settled && c in s.results
    ensures c in Step(s, policy, e).results && Step(s, policy, e).results[c] == s.results[c]
  {
    if e.Resume? && e.call in s.calls {
      match s.calls[e.call]
      case Requesting(_) => assert RegisterStep(s, e.call).results[c] == s.results[c];
      case Deciding(_, _, _) => var refused, error, logs, r := DecideCases(policy, s, e.call);
      case Concluding(r) => OthersKeepResult(s, e.call, r.id, Resolved(r.id, r.log, r.status), c);
      case Sweeping(_, _) => assert SweepStep(s, e.call, e.clock).results == s.results;
      case Expiring(r, rest, now) =>
        OthersKeepResult(s.(calls := s.calls[e.call := Sweeping(rest, Some(now))]), e.call, r.id,
                         Resolved(r.id, r.log, TimedOut), c);
    }
  }

  lemma {:induction false} OthersKeepResult(s: State, call: nat, id: Id, result: Result, c: nat)
    requires PromisesOnce(s) && c in s.settled && c in s.results && call in s.calls
    ensures var s' := Settle(s, id, result);
            c != call && c in s'.results && s'.results[c] == s.results[c]
  {
  }

  lemma {:induction false} NewlyTold(policy: Policy, s: State, e: Event, c: nat)
    requires SerialInv(s) && PromisesOnce(s) && c in Step(s, policy, e).settled && c !in s.settled
    ensures Told(Step(s, policy, e).store, Step(s, policy, e).results, c)
  {
    OnlyCall(s, e.call);
    var a := s.calls[e.call];
    if a.Requesting? {
      RegisterTells(s, e.call, c);
    } else if a.Concluding? {
      ConcludeTells(s, e.call, c);
    } else {
      ExpireTells(s, e.call, c);
    }
  }

  lemma {:induction false} ConcludeTells(s: State, call: nat, c: nat)
    requires PromisesOnce(s) && call in s.calls && s.calls[call].Concluding? && Fresh(s, s.calls[call])
    requires c in ConcludeStep(s, call).settled && c !in s.settled
    ensures Told(ConcludeStep(s, call).store, ConcludeStep(s, call).results, c)
  {
    var r := s.calls[call].concluded;
    SettleTells(s, r.id, Resolved(r.id, r.log, r.status), c);
  }

  lemma {:induction false} ExpireTells(s: State, call: nat, c: nat)
    requires PromisesOnce(s) && call in s.calls && s.calls[call].Expiring? && Fresh(s, s.calls[call])
    requires c in ExpireStep(s, call).settled && c !in s.settled
    ensures Told(ExpireStep(s, call).store, ExpireStep(s, call).results, c)
  {
    var r := s.calls[call].expired;
    assert r.id in s.deferreds && c == s.deferreds[r.id];
  }

  lemma {:induction false} RegisterTells(s: State, call: nat, c: nat)
    requires call in s.calls && s.calls[call].Requesting? && Fresh(s, s.calls[call])
    requires c in RegisterStep(s, call).settled && c !in s.settled
    ensures Told(RegisterStep(s, call).store, RegisterStep(s, call).results, c)
  {
    assert c == call;
  }

  lemma {:induction false} SettleTells(s: State, id: Id, result: Result, c: nat)
    requires PromisesOnce(s) && c in Settle(s, id, result).settled && c !in s.settled
    ensures id in s.deferreds && c == s.deferreds[id] && c !in s.calls && Settle(s, id, result).results[c] == result
  {
  }

  /** Without overlap every settled promise told the final verdict: the status it was given
      is the one the store holds for ever. */
  lemma {:induction false} PromisesTellVerdict(policy: Policy, es: seq<Event>, n: nat)
    requires n <= |es| && SerialRun(policy, es, n)
    ensures AllTold(Run(policy, es, n))
  {
    TellStart(policy, es);
    for k := 0 to n
      invariant AllTold(Run(policy, es, k))
    {
      TellNext(policy, es, k);
    }
  }

  lemma {:induction false} TellStart(policy: Policy, es: seq<Event>)
    ensures AllTold(Run(policy, es, 0))
  {
  }

  lemma {:induction false} TellNext(policy: Policy, es: seq<Event>, n: nat)
    requires n < |es| && SerialRun(policy, es, n) && SerialAt(policy, es, n) && AllTold(Run(policy, es, n))
    ensures AllTold(Run(policy, es, n + 1))
  {
    SerialRunInv(policy, es, n);
    SettledAtMostOnce(policy, es, n);
    TellStep(policy, Run(policy, es, n), es[n]);
  }

  // ---------------------------------------------------------------- a whole sweep

  /** Resumes a sweep until it is over. */
  function SweepOut(s: State, policy: Policy, call: nat, clock: int): State
    requires call in s.calls ==> s.calls[call].Sweeping? || s.calls[call].Expiring?
    decreases if call !in s.calls then 0
              else if s.calls[call].Sweeping? then 2 * |s.calls[call].pending| + 1
              else 2 * |s.calls[call].rest| + 2
  {
    if call !in s.calls then s
    else
      if s.calls[call].Sweeping? then
        (FromExpiredIsSuffix(s.calls[call].pending,
                             if s.calls[call].started.Some? then s.calls[call].started.value else clock);
         SweepOut(Step(s, policy, Resume(call, clock)), policy, call, clock))
      else SweepOut(Step(s, policy, Resume(call, clock)), policy, call, clock)
  }

  ghost predicate TimesOut(rs: seq<Request>, id: Id, now: int) {
    exists k :: 0 <= k < |rs| && rs[k].id == id && now >= rs[k].expiresAt
  }

  lemma {:induction false} TimesOutNext(pending: seq<Request>, id: Id, now: int)
    ensures var rest := FromExpired(pending, now);
            TimesOut(pending, id, now) <==> rest != [] && (rest[0].id == id || TimesOut(rest[1..], id, now))
  {
    var rest := FromExpired(pending, now);
    FromExpiredIsSuffix(pending, now);
    var n := |pending| - |rest|;
    assert forall k :: 0 <= k < |rest| ==> rest[k] == pending[n + k];
    if TimesOut(pending, id, now) {
      var k :| 0 <= k < |pending| && pending[k].id == id && now >= pending[k].expiresAt;
      assert k >= n && pending[k] == rest[k - n];
      assert k > n ==> rest[k - n] == rest[1..][k - n - 1];
    }
    if rest != [] && TimesOut(rest[1..], id, now) {
      var k :| 0 <= k < |rest[1..]| && rest[1..][k].id == id && now >= rest[1..][k].expiresAt;
      assert pending[n + k + 1] == rest[1..][k];
    }
  }

  /** What a sweep over `pending` leaves: its expired requests timed out and their promises
      settled, everything else as it was. */
  ghost predicate Swept(s: State, s': State, pending: seq<Request>, now: int) {
    && s'.calls == map[] && s'.store.Keys == s.store.Keys
    && (forall id :: id in s.store ==>
          s'.store[id] == if TimesOut(pending, id, now) then s.store[id].(status := TimedOut) else s.store[id])
    && (forall id :: id in s'.deferreds <==> id in s.deferreds && !TimesOut(pending, id, now))
  }

  lemma {:induction false} SweepsRest(s: State, policy: Policy, call: nat, clock: int)
    requires SerialInv(s) && call in s.calls && s.calls[call].Sweeping?
    requires s.calls[call].started in {None, Some(clock)}
    ensures Swept(s, SweepOut(s, policy, call, clock), s.calls[call].pending, clock)
    decreases |s.calls[call].pending|
  {
    var pending := s.calls[call].pending;
    var rest := FromExpired(pending, clock);
    FromExpiredIsSuffix(pending, clock);
    OnlyCall(s, call);
    OneRound(s, policy, call, clock);
    RoundKeepsInv(s, call, clock);
    if rest != [] {
      var s2 := ExpireStep(SweepStep(s, call, clock), call);
      SweepsRest(s2, policy, call, clock);
      SweptMore(s, s2, SweepOut(s2, policy, call, clock), pending, clock);
    } else {
      SweptNone(s, SweepStep(s, call, clock), pending, clock);
    }
  }

  /** One round of the sweep's loop, both stretches of it. */
  lemma {:induction false} OneRound(s: State, policy: Policy, call: nat, clock: int)
    requires s.calls.Keys == {call} && s.calls[call].Sweeping? && CurrentList(s, s.calls[call].pending)
    requires s.calls[call].started in {None, Some(clock)}
    ensures var s1 := SweepStep(s, call, clock);
            var rest := FromExpired(s.calls[call].pending, clock);
            if rest == [] then
              s1 == s.(calls := map[]) && SweepOut(s, policy, call, clock) == s1
            else
              && s1.calls == map[call := Expiring(rest[0].(status := TimedOut), rest[1..], clock)]
              && var s2 := ExpireStep(s1, call);
                 && s2.calls == map[call := Sweeping(rest[1..], Some(clock))]
                 && Current(s, rest[0]) && s2.store == s.store[rest[0].id := rest[0].(status := TimedOut)]
                 && s2.deferreds == s.deferreds - {rest[0].id}
                 && SweepOut(s, policy, call, clock) == SweepOut(s2, policy, call, clock)
  {
    var s1 := SweepStep(s, call, clock);
    SweepOutRound(s, policy, call, clock);
    SweepEffect(s, call, clock);
    if call in s1.calls {
      assert s1.calls[call].Expiring?;
      ExpireEffect(s1, call);
    }
  }

  lemma {:induction false} RoundKeepsInv(s: State, call: nat, clock: int)
    requires SerialInv(s) && call in s.calls && s.calls[call].Sweeping?
    ensures var s1 := SweepStep(s, call, clock); call in s1.calls ==> SerialInv(ExpireStep(s1, call))
  {
    SerialSweep(s, call, clock);
    if call in SweepStep(s, call, clock).calls {
      SerialExpire(SweepStep(s, call, clock), call);
    }
  }

  lemma {:induction false} ExpireEffect(s: State, call: nat)
    requires call in s.calls && s.calls[call].Expiring?
    ensures var Expiring(r, rest, now), s' := s.calls[call], ExpireStep(s, call);
            && s'.calls == s.calls[call := Sweeping(rest, Some(now))] && s'.store == s.store
            && s'.deferreds == s.deferreds - {r.id}
  {
  }

  lemma {:induction false} SweepOutRound(s: State, policy: Policy, call: nat, clock: int)
    requires call in s.calls && s.calls[call].Sweeping?
    ensures var s1 := SweepStep(s, call, clock);
            SweepOut(s, policy, call, clock)
              == if call in s1.calls then SweepOut(ExpireStep(s1, call), policy, call, clock) else s1
  {
    var s1 := SweepStep(s, call, clock);
    assert s1 == Step(s, policy, Resume(call, clock));
    if call in s1.calls {
      assert ExpireStep(s1, call) == Step(s1, policy, Resume(call, clock));
    }
  }

  lemma {:induction false} SweepEffect(s: State, call: nat, clock: int)
    requires s.calls.Keys == {call} && s.calls[call].Sweeping? && CurrentList(s, s.calls[call].pending)
    requires s.calls[call].started in {None, Some(clock)}
    ensures var s1 := SweepStep(s, call, clock);
            var rest := FromExpired(s.calls[call].pending, clock);
            if rest == [] then s1 == s.(calls := map[])
            else
              && s1.calls == map[call := Expiring(rest[0].(status := TimedOut), rest[1..], clock)]
              && Current(s, rest[0]) && s1.store == s.store[rest[0].id := rest[0].(status := TimedOut)]
              && s1.deferreds == s.deferreds
  {
    var pending := s.calls[call].pending;
    FromExpiredIsSuffix(pending, clock);
    var rest := FromExpired(pending, clock);
    if rest != [] {
      assert rest[0] == pending[|pending| - |rest|];
    } else {
      assert SweepStep(s, call, clock).calls == map[];
    }
  }

  lemma {:induction false} OnlyCall(s: State, call: nat)
    requires SerialInv(s) && call in s.calls
    ensures s.calls == map[call := s.calls[call]] && Fresh(s, s.calls[call])
    ensures forall id :: id in s.store ==> s.store[id].id == id
  {
  }

  lemma {:induction false} SweptNone(s: State, s': State, pending: seq<Request>, now: int)
    requires FromExpired(pending, now) == [] && s' == s.(calls := map[])
    ensures Swept(s, s', pending, now)
  {
    forall id
      ensures !TimesOut(pending, id, now)
    {
      TimesOutNext(pending, id, now);
    }
  }

  lemma {:induction false} SweptMore(s: State, s2: State, s': State, pending: seq<Request>, now: int)
    requires var rest := FromExpired(pending, now);
             && rest != [] && Current(s, rest[0]) && Swept(s2, s', rest[1..], now)
             && s2.store == s.store[rest[0].id := rest[0].(status := TimedOut)]
             && s2.deferreds == s.deferreds - {rest[0].id}
    ensures Swept(s, s', pending, now)
  {
    var rest := FromExpired(pending, now);
    forall id
      ensures TimesOut(pending, id, now) <==> rest[0].id == id || TimesOut(rest[1..], id, now)
    {
      TimesOutNext(pending, id, now);
    }
  }

  lemma {:induction false} PendingInIsComplete(store: map<Id, Request>, order: seq<Id>, id: Id)
    requires id in order && id in store && store[id].status == Pending
    ensures store[id] in PendingIn(store, order)
    decreases |order|
  {
    if order[0] != id {
      PendingInIsComplete(store, order[1..], id);
    }
  }

  /** What a whole sweep leaves when the clock shows `now`. */
  ghost predicate SweptAll(s: State, s': State, now: int) {
    && s'.calls == map[] && s'.store.Keys == s.store.Keys
    && (forall id :: id in s.store ==>
          s'.store[id] == if s.store[id].status == Pending && now >= s.store[id].expiresAt
                          then s.store[id].(status := TimedOut) else s.store[id])
    && (forall id :: id in s.store ==>
          (id in s'.deferreds <==>
             id in s.deferreds && !(s.store[id].status == Pending && now >= s.store[id].expiresAt)))
  }

  /** A sweep without interference times out exactly the pending requests whose deadline has
      passed, settles exactly their promises, and touches nothing else. */
  lemma {:induction false} SweepFromRest(policy: Policy, s: State, clock: int)
    requires SerialInv(s) && s.calls == map[]
    ensures SweptAll(s, SweepOut(Step(s, policy, Sweep), policy, s.nextCall, clock), clock)
  {
    SerialStep(policy, s, Sweep);
    SweepsRest(Step(s, policy, Sweep), policy, s.nextCall, clock);
    var pending := PendingIn(s.store, s.order);
    PendingInIsCurrent(s, s.order);
    forall id | id in s.store
      ensures TimesOut(pending, id, clock) <==> s.store[id].status == Pending && clock >= s.store[id].expiresAt
    {
      ListedExactly(s, pending, id, clock);
    }
  }

  lemma {:induction false} ListedExactly(s: State, pending: seq<Request>, id: Id, clock: int)
    requires SerialInv(s) && id in s.store && pending == PendingIn(s.store, s.order) && CurrentList(s, pending)
    ensures TimesOut(pending, id, clock) <==> s.store[id].status == Pending && clock >= s.store[id].expiresAt
  {
    if s.store[id].status == Pending {
      PendingInIsComplete(s.store, s.order, id);
    }
    forall k | 0 <= k < |pending| && pending[k].id == id
      ensures pending[k] == s.store[id] && s.store[id].status == Pending
    {
      assert Current(s, pending[k]);
    }
  }
}
