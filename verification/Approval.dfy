/** The approval protocol (packages/approval-engine/src) as a transition system. Each call is
    cut at its awaits; between two cuts any other call may run. The store hands out shallow
    copies, so the scalar fields of a copy go stale while its `decisions` array is shared:
    arrays live in `logs` and a request names one by its position. */
module Approval {
  import opened Shared

  datatype Id = Id(text: string)

  datatype Risk = LOW | MEDIUM | HIGH | CRITICAL

  datatype Requirement = Requirement(
    requiredApproverCount: int, allowedRoles: seq<string>, allowSelfApproval: bool, autoApprove: bool)

  /** Requirements after the constructor merged custom entries over the defaults. */
  type Policy = map<Risk, Requirement>

  function DefaultRequirement(risk: Risk): Requirement {
    match risk
    case LOW => Requirement(0, ["developer", "operator", "admin", "owner"], true, true)
    case MEDIUM => Requirement(1, ["developer", "operator", "admin", "owner"], true, false)
    case HIGH => Requirement(1, ["operator", "admin", "owner"], false, false)
    case CRITICAL => Requirement(2, ["admin", "owner"], false, false)
  }

  /** Entries a caller may give in place of the defaults. */
  datatype Custom = Custom(count: Option<int>, roles: Option<seq<string>>, self: Option<bool>, auto: Option<bool>)

  function Or<T>(o: Option<T>, default: T): T {
    if o.Some? then o.value else default
  }

  function Merge(r: Requirement, c: Custom): Requirement {
    Requirement(Or(c.count, r.requiredApproverCount), Or(c.roles, r.allowedRoles), Or(c.self, r.allowSelfApproval),
                Or(c.auto, r.autoApprove))
  }

  /** The constructor: every level has an entry, the custom ones over the defaults. */
  function NewPolicy(custom: map<Risk, Custom>): Policy {
    map risk | risk in {LOW, MEDIUM, HIGH, CRITICAL} ::
      if risk in custom then Merge(DefaultRequirement(risk), custom[risk]) else DefaultRequirement(risk)
  }

  function GetRequirement(policy: Policy, risk: Risk): Requirement {
    if risk in policy then policy[risk] else DefaultRequirement(MEDIUM)
  }

  datatype Status = Pending | Approved | Rejected | TimedOut | AutoApproved

  datatype Decision = Decision(user: Id, role: string, approves: bool)

  /** A shared decisions array, with the fields of the request it was created for. */
  datatype Log = Log(
    id: Id, tenant: Id, risk: Risk, requester: Option<Id>, expiresAt: int, required: int, decisions: seq<Decision>)

  datatype Request = Request(
    id: Id, tenant: Id, risk: Risk, requester: Option<Id>, expiresAt: int,
    status: Status, log: nat, required: int, remaining: int)

  datatype Error = NotFound | AlreadyResolved | TenantMismatch | RoleNotAllowed | SelfApproval | AlreadyDecided

  datatype Result = Resolved(request: Id, log: nat, status: Status) | Failed(error: Error)

  /** A call waiting at an await, with its local variables. */
  datatype Activity =
    | Requesting(request: Request)
    | Deciding(fetched: Option<Request>, tenant: Id, decision: Decision)
    | Concluding(concluded: Request)
    | Sweeping(pending: seq<Request>, started: Option<int>)
    | Expiring(expired: Request, rest: seq<Request>, now: int)

  datatype State = State(
    store: map<Id, Request>,
    order: seq<Id>,            // insertion order of the store's keys
    logs: seq<Log>,
    calls: map<nat, Activity>,
    nextCall: nat,
    deferreds: map<Id, nat>,   // request id -> the call whose promise it settles
    settled: seq<nat>,             // calls whose promise has been settled, in order
    results: map<nat, Result>)     // how a settled or finished call ended

  datatype Event =
    | Submit(id: Id, tenant: Id, risk: Risk, requester: Option<Id>, expiresAt: int)
    | Decide(id: Id, tenant: Id, decision: Decision)
    | Sweep
    | Resume(call: nat, clock: int)

  const INITIAL := State(map[], [], [], map[], 0, map[], [], map[])

  // ---------------------------------------------------------------- steps

  function Approvals(ds: seq<Decision>): nat {
    if ds == [] then 0 else Approvals(ds[..|ds| - 1]) + if ds[|ds| - 1].approves then 1 else 0
  }

  function Begin(s: State, a: Activity): State {
    s.(calls := s.calls[s.nextCall := a], nextCall := s.nextCall + 1)
  }

  function Put(s: State, r: Request): State {
    s.(store := s.store[r.id := r], order := if r.id in s.store then s.order else s.order + [r.id])
  }

  function PendingIn(store: map<Id, Request>, order: seq<Id>): seq<Request> {
    if order == [] then []
    else
      var rest := PendingIn(store, order[1..]);
      if order[0] in store && store[order[0]].status == Pending then [store[order[0]]] + rest else rest
  }

  /** `requestApproval` up to its first await: an auto-approved risk is stored as such, any
      other as pending with a new empty decisions array. */
  function SubmitStep(s: State, policy: Policy, e: Event): State
    requires e.Submit?
  {
    var requirement := GetRequirement(policy, e.risk);
    var required := if requirement.autoApprove then 0 else requirement.requiredApproverCount;
    var status := if requirement.autoApprove then AutoApproved else Pending;
    var r := Request(e.id, e.tenant, e.risk, e.requester, e.expiresAt, status, |s.logs|, required, required);
    var log := Log(e.id, e.tenant, e.risk, e.requester, e.expiresAt, required, []);
    Begin(Put(s.(logs := s.logs + [log]), r), Requesting(r))
  }

  /** After its awaits: the auto-approved call returns, any other registers its promise. */
  function RegisterStep(s: State, call: nat): State
    requires call in s.calls && s.calls[call].Requesting?
  {
    var r := s.calls[call].request;
    var s1 := s.(calls := s.calls - {call});
    if r.status == AutoApproved
    then s1.(settled := s.settled + [call], results := s.results[call := Resolved(r.id, r.log, AutoApproved)])
    else s1.(deferreds := s.deferreds[r.id := call])
  }

  /** The checks of `processDecision`: all on the fetched copy except the last, which reads
      the shared array. */
  function Objection(policy: Policy, r: Request, tenant: Id, d: Decision, ds: seq<Decision>): Option<Error> {
    var requirement := GetRequirement(policy, r.risk);
    if r.status != Pending then Some(AlreadyResolved)
    else if r.tenant != tenant then Some(TenantMismatch)
    else if Lower(d.role) !in requirement.allowedRoles then Some(RoleNotAllowed)
    else if !requirement.allowSelfApproval && r.requester == Some(d.user) then Some(SelfApproval)
    else if exists x | x in ds :: x.user == d.user then Some(AlreadyDecided)
    else None
  }

  function Max0(n: int): nat {
    if n < 0 then 0 else n
  }

  /** The copy after an accepted decision, given the shared array with that decision in it. */
  function Concluded(r: Request, approves: bool, ds: seq<Decision>): Request {
    if !approves then r.(status := Rejected)
    else
      var remaining := Max0(r.required - Approvals(ds));
      r.(remaining := remaining, status := if remaining == 0 then Approved else r.status)
  }

  function Finish(s: State, call: nat, result: Result): State {
    s.(calls := s.calls - {call}, results := s.results[call := result])
  }

  /** `processDecision` from the fetch to the store update, one uninterrupted stretch. A copy
      always names an existing array (`CopySafe`), so only a missing request is not found. */
  function DecideStep(s: State, policy: Policy, call: nat): State
    requires call in s.calls && s.calls[call].Deciding?
  {
    var Deciding(fetched, tenant, d) := s.calls[call];
    if fetched == None || fetched.value.log >= |s.logs| then Finish(s, call, Failed(NotFound))
    else
      var r := fetched.value;
      var log := s.logs[r.log];
      var objection := Objection(policy, r, tenant, d, log.decisions);
      if objection.Some? then Finish(s, call, Failed(objection.value))
      else
        var ds := log.decisions + [d];
        var r' := Concluded(r, d.approves, ds);
        Put(s.(logs := s.logs[r.log := log.(decisions := ds)], calls := s.calls[call := Concluding(r')]), r')
  }

  function Settle(s: State, id: Id, result: Result): State {
    if id !in s.deferreds then s
    else s.(deferreds := s.deferreds - {id}, settled := s.settled + [s.deferreds[id]],
            results := s.results[s.deferreds[id] := result])
  }

  /** `processDecision` after its awaits: a final verdict settles the requester's promise. */
  function ConcludeStep(s: State, call: nat): State
    requires call in s.calls && s.calls[call].Concluding?
  {
    var r := s.calls[call].concluded;
    var result := Resolved(r.id, r.log, r.status);
    Finish(if r.status == Pending then s else Settle(s, r.id, result), call, result)
  }

  /** The rest of a sweep's list from its first expired entry on. */
  function FromExpired(pending: seq<Request>, now: int): seq<Request> {
    if pending == [] || now >= pending[0].expiresAt then pending else FromExpired(pending[1..], now)
  }

  lemma {:induction false} FromExpiredIsSuffix(pending: seq<Request>, now: int)
    ensures var rest := FromExpired(pending, now);
            && |rest| <= |pending| && rest == pending[|pending| - |rest|..]
            && (rest != [] ==> now >= rest[0].expiresAt)
            && (forall k :: 0 <= k < |pending| - |rest| ==> now < pending[k].expiresAt)
    decreases |pending|
  {
    if pending != [] && now < pending[0].expiresAt {
      FromExpiredIsSuffix(pending[1..], now);
      assert forall k :: 0 < k < |pending| ==> pending[k] == pending[1..][k - 1];
    }
  }

  /** A sweep up to its next store update; the clock is read once, when the list arrives. */
  function SweepStep(s: State, call: nat, clock: int): State
    requires call in s.calls && s.calls[call].Sweeping?
  {
    var Sweeping(pending, started) := s.calls[call];
    var now := if started.Some? then started.value else clock;
    var rest := FromExpired(pending, now);
    if rest == [] then s.(calls := s.calls - {call})
    else
      var r := rest[0].(status := TimedOut);
      Put(s.(calls := s.calls[call := Expiring(r, rest[1..], now)]), r)
  }

  /** The timeout callback settles the promise, then the sweep goes on. */
  function ExpireStep(s: State, call: nat): State
    requires call in s.calls && s.calls[call].Expiring?
  {
    var Expiring(r, rest, now) := s.calls[call];
    Settle(s.(calls := s.calls[call := Sweeping(rest, Some(now))]), r.id, Resolved(r.id, r.log, TimedOut))
  }

  function Step(s: State, policy: Policy, e: Event): State {
    match e
    case Submit(_, _, _, _, _) => SubmitStep(s, policy, e)
    case Decide(id, tenant, d) =>
      Begin(s, Deciding(if id in s.store then Some(s.store[id]) else None, tenant, d))
    case Sweep => Begin(s, Sweeping(PendingIn(s.store, s.order), None))
    case Resume(call, clock) =>
      if call !in s.calls then s
      else match s.calls[call]
        case Requesting(_) => RegisterStep(s, call)
        case Deciding(_, _, _) => DecideStep(s, policy, call)
        case Concluding(_) => ConcludeStep(s, call)
        case Sweeping(_, _) => SweepStep(s, call, clock)
        case Expiring(_, _, _) => ExpireStep(s, call)
  }

  // ---------------------------------------------------------------- safety in every interleaving

  /** What the policy demands of the decisions recorded in one array. */
  ghost predicate LogSafe(policy: Policy, log: Log) {
    && (forall i, j :: 0 <= i < j < |log.decisions| ==> log.decisions[i].user != log.decisions[j].user)
    && (forall d :: d in log.decisions ==>
          && Lower(d.role) in GetRequirement(policy, log.risk).allowedRoles
          && (GetRequirement(policy, log.risk).allowSelfApproval || log.requester != Some(d.user)))
  }

  /** The array was created for the request. */
  predicate MadeFor(log: Log, r: Request) {
    && log.id == r.id && log.tenant == r.tenant && log.risk == r.risk && log.requester == r.requester
    && log.expiresAt == r.expiresAt && log.required == r.required
  }

  /** A copy of a request, fresh or stale, agrees with its array, and claims approval only
      when the array holds enough approvals. */
  ghost predicate CopySafe(policy: Policy, logs: seq<Log>, r: Request) {
    && r.log < |logs|
    && MadeFor(logs[r.log], r)
    && (r.status != AutoApproved ==> r.required == GetRequirement(policy, r.risk).requiredApproverCount)
    && (r.status == Approved ==> Approvals(logs[r.log].decisions) >= r.required)
    && (r.status == AutoApproved ==> GetRequirement(policy, r.risk).autoApprove)
  }

  ghost predicate PendingSafe(policy: Policy, logs: seq<Log>, rs: seq<Request>) {
    forall k :: 0 <= k < |rs| ==> rs[k].status == Pending && CopySafe(policy, logs, rs[k])
  }

  ghost predicate ActivitySafe(policy: Policy, logs: seq<Log>, a: Activity) {
    match a
    case Requesting(r) => CopySafe(policy, logs, r)
    case Deciding(fetched, _, _) => fetched.Some? ==> CopySafe(policy, logs, fetched.value)
    case Concluding(r) => CopySafe(policy, logs, r)
    case Sweeping(pending, _) => PendingSafe(policy, logs, pending)
    case Expiring(r, rest, _) => CopySafe(policy, logs, r) && PendingSafe(policy, logs, rest)
  }

  ghost predicate ResultSafe(policy: Policy, logs: seq<Log>, result: Result) {
    result.Resolved? ==>
      && result.log < |logs|
      && (result.status == Approved ==>
            Approvals(logs[result.log].decisions)
              >= GetRequirement(policy, logs[result.log].risk).requiredApproverCount)
      && (result.status == AutoApproved ==> GetRequirement(policy, logs[result.log].risk).autoApprove)
  }

  ghost predicate LogsSafe(policy: Policy, logs: seq<Log>) {
    forall k :: 0 <= k < |logs| ==> LogSafe(policy, logs[k])
  }

  ghost predicate CopiesSafe(policy: Policy, s: State) {
    && (forall id :: id in s.store ==> CopySafe(policy, s.logs, s.store[id]))
    && (forall c :: c in s.calls ==> ActivitySafe(policy, s.logs, s.calls[c]))
    && (forall c :: c in s.results ==> ResultSafe(policy, s.logs, s.results[c]))
  }

  /** Arrays only grow. */
  ghost predicate Grows(logs: seq<Log>, logs': seq<Log>) {
    && |logs| <= |logs'|
    && forall k :: 0 <= k < |logs| ==>
         && logs'[k] == logs[k].(decisions := logs'[k].decisions)
         && Approvals(logs[k].decisions) <= Approvals(logs'[k].decisions)
  }

  lemma {:induction false} ApprovalsOfAppend(ds: seq<Decision>, d: Decision)
    ensures Approvals(ds + [d]) == Approvals(ds) + if d.approves then 1 else 0
  {
    assert (ds + [d])[..|ds|] == ds;
  }

  /** The arrays after a step: one more for a submission, one longer for an accepted decision. */
  lemma {:induction false} StepLogs(policy: Policy, s: State, e: Event)
    ensures var logs' := Step(s, policy, e).logs;
            if e.Submit? then
              |logs'| == |s.logs| + 1 && logs'[..|s.logs|] == s.logs && logs'[|s.logs|].decisions == []
            else if e.Resume? && e.call in s.calls && s.calls[e.call].Deciding? then
              logs' == DecideStep(s, policy, e.call).logs
            else logs' == s.logs
  {
    if e.Resume? && e.call in s.calls && !s.calls[e.call].Deciding? {
      OthersKeepLogs(policy, s, e.call, e.clock);
    } else if e.Submit? {
      var logs' := SubmitStep(s, policy, e).logs;
      assert logs'[..|s.logs|] == s.logs;
    }
  }

  lemma {:induction false} OthersKeepLogs(policy: Policy, s: State, call: nat, clock: int)
    requires call in s.calls && !s.calls[call].Deciding?
    ensures Step(s, policy, Resume(call, clock)).logs == s.logs
  {
    match s.calls[call]
    case Requesting(_) => assert RegisterStep(s, call).logs == s.logs;
    case Concluding(_) => assert ConcludeStep(s, call).logs == s.logs;
    case Sweeping(_, _) => assert SweepStep(s, call, clock).logs == s.logs;
    case Expiring(_, _, _) => assert ExpireStep(s, call).logs == s.logs;
  }

  /** A decision is refused, or a copy of the fetched request is stored with its verdict. */
  lemma {:induction false} DecideCases(policy: Policy, s: State, call: nat)
    returns (refused: bool, error: Error, logs: seq<Log>, r: Request)
    requires call in s.calls && s.calls[call].Deciding?
    ensures refused ==> DecideStep(s, policy, call) == Finish(s, call, Failed(error))
    ensures !refused ==>
              && DecideStep(s, policy, call) == Put(s.(logs := logs, calls := s.calls[call := Concluding(r)]), r)
              && var fetched := s.calls[call].fetched;
                 fetched.Some? && fetched.value.status == Pending && r.id == fetched.value.id
                 && r.log == fetched.value.log && r.status != AutoApproved && r.status != TimedOut
                 && r.log < |s.logs| == |logs|
                 && logs[r.log].decisions == s.logs[r.log].decisions + [s.calls[call].decision]
                 && r == Concluded(fetched.value, s.calls[call].decision.approves, logs[r.log].decisions)
                 && Objection(policy, fetched.value, s.calls[call].tenant, s.calls[call].decision,
                              s.logs[r.log].decisions) == None
    ensures refused ==>
              var fetched := s.calls[call].fetched;
              fetched.Some? && fetched.value.log < |s.logs| ==>
                Objection(policy, fetched.value, s.calls[call].tenant, s.calls[call].decision,
                          s.logs[fetched.value.log].decisions) != None
  {
    var Deciding(fetched, tenant, d) := s.calls[call];
    refused, error, logs := true, NotFound, s.logs;
    r := Request(Id(""), Id(""), LOW, None, 0, Pending, 0, 0, 0);
    if fetched.Some? && fetched.value.log < |s.logs| {
      var log := s.logs[fetched.value.log];
      var objection := Objection(policy, fetched.value, tenant, d, log.decisions);
      if objection.Some? {
        error := objection.value;
      } else {
        refused := false;
        r := Concluded(fetched.value, d.approves, log.decisions + [d]);
        logs := s.logs[r.log := log.(decisions := log.decisions + [d])];
      }
    }
  }

  lemma {:induction false} AcceptedDecisionIsSafe(policy: Policy, logs: seq<Log>, r: Request, tenant: Id, d: Decision)
    requires CopySafe(policy, logs, r) && LogSafe(policy, logs[r.log])
    requires Objection(policy, r, tenant, d, logs[r.log].decisions) == None
    ensures LogSafe(policy, logs[r.log].(decisions := logs[r.log].decisions + [d]))
  {
  }

  lemma {:induction false} DecideKeepsLogs(policy: Policy, s: State, call: nat)
    requires call in s.calls && s.calls[call].Deciding?
    requires ActivitySafe(policy, s.logs, s.calls[call]) && LogsSafe(policy, s.logs)
    ensures LogsSafe(policy, DecideStep(s, policy, call).logs)
  {
    var Deciding(fetched, tenant, d) := s.calls[call];
    if fetched.Some? && Objection(policy, fetched.value, tenant, d, s.logs[fetched.value.log].decisions) == None {
      AcceptedDecisionIsSafe(policy, s.logs, fetched.value, tenant, d);
    }
  }

  /** An accepted decision comes from a new user with an allowed role who may decide: the
      role and self-approval checks use the copy, the distinctness check the live array. */
  lemma {:induction false} StepKeepsLogs(policy: Policy, s: State, e: Event)
    requires CopiesSafe(policy, s) && LogsSafe(policy, s.logs)
    ensures LogsSafe(policy, Step(s, policy, e).logs)
  {
    StepLogs(policy, s, e);
    if e.Resume? && e.call in s.calls && s.calls[e.call].Deciding? {
      DecideKeepsLogs(policy, s, e.call);
    } else if e.Submit? {
      assert forall k :: 0 <= k < |s.logs| ==> Step(s, policy, e).logs[k] == Step(s, policy, e).logs[..|s.logs|][k];
    }
  }

  lemma {:induction false} PendingInIsSafe(policy: Policy, logs: seq<Log>, store: map<Id, Request>, order: seq<Id>)
    requires forall id :: id in store ==> CopySafe(policy, logs, store[id])
    ensures PendingSafe(policy, logs, PendingIn(store, order))
    decreases |order|
  {
    if order != [] {
      PendingInIsSafe(policy, logs, store, order[1..]);
    }
  }

  lemma {:induction false} GrowthKeepsActivity(policy: Policy, logs: seq<Log>, logs': seq<Log>, a: Activity)
    requires ActivitySafe(policy, logs, a) && Grows(logs, logs')
    ensures ActivitySafe(policy, logs', a)
  {
  }

  /** Growth of the arrays breaks no promise already made. */
  lemma {:induction false} GrowthKeepsCopies(policy: Policy, s: State, logs': seq<Log>)
    requires CopiesSafe(policy, s) && Grows(s.logs, logs')
    ensures CopiesSafe(policy, s.(logs := logs'))
  {
    forall c | c in s.calls
      ensures ActivitySafe(policy, logs', s.calls[c])
    {
      GrowthKeepsActivity(policy, s.logs, logs', s.calls[c]);
    }
    forall id | id in s.store
      ensures CopySafe(policy, logs', s.store[id])
    {
      GrowthKeepsActivity(policy, s.logs, logs', Requesting(s.store[id]));
    }
    forall c | c in s.results
      ensures ResultSafe(policy, logs', s.results[c])
    {
    }
  }

  lemma {:induction false} SettleKeepsCopies(policy: Policy, s: State, id: Id, result: Result)
    requires CopiesSafe(policy, s) && ResultSafe(policy, s.logs, result)
    ensures CopiesSafe(policy, Settle(s, id, result))
  {
  }

  lemma {:induction false} FinishKeepsCopies(policy: Policy, s: State, call: nat, result: Result)
    requires CopiesSafe(policy, s) && ResultSafe(policy, s.logs, result)
    ensures CopiesSafe(policy, Finish(s, call, result))
  {
  }

  lemma {:induction false} PutKeepsCopies(policy: Policy, s: State, call: nat, a: Activity, r: Request)
    requires CopiesSafe(policy, s) && ActivitySafe(policy, s.logs, a) && CopySafe(policy, s.logs, r)
    ensures CopiesSafe(policy, Put(s.(calls := s.calls[call := a]), r))
  {
  }

  /** A concluded copy claims approval only with enough approvals in the live array. */
  lemma {:induction false} AcceptKeepsCopies(policy: Policy, s: State, call: nat, r: Request, d: Decision)
    requires CopiesSafe(policy, s) && CopySafe(policy, s.logs, r) && r.status == Pending
    ensures var ds := s.logs[r.log].decisions + [d];
            var r' := Concluded(r, d.approves, ds);
            var logs' := s.logs[r.log := s.logs[r.log].(decisions := ds)];
            CopiesSafe(policy, Put(s.(logs := logs', calls := s.calls[call := Concluding(r')]), r'))
  {
    var ds := s.logs[r.log].decisions + [d];
    var logs' := s.logs[r.log := s.logs[r.log].(decisions := ds)];
    DecisionGrows(policy, s.logs, logs', r, d);
    GrowthKeepsCopies(policy, s, logs');
    var r' := Concluded(r, d.approves, ds);
    PutKeepsCopies(policy, s.(logs := logs'), call, Concluding(r'), r');
  }

  lemma {:induction false} DecisionGrows(policy: Policy, logs: seq<Log>, logs': seq<Log>, r: Request, d: Decision)
    requires CopySafe(policy, logs, r) && r.status == Pending
    requires logs' == logs[r.log := logs[r.log].(decisions := logs[r.log].decisions + [d])]
    ensures Grows(logs, logs') && CopySafe(policy, logs', Concluded(r, d.approves, logs'[r.log].decisions))
  {
    ApprovalsOfAppend(logs[r.log].decisions, d);
  }

  lemma {:induction false} DecideKeepsCopies(policy: Policy, s: State, call: nat)
    requires CopiesSafe(policy, s) && call in s.calls && s.calls[call].Deciding?
    ensures CopiesSafe(policy, DecideStep(s, policy, call))
  {
    var Deciding(fetched, tenant, d) := s.calls[call];
    if fetched == None {
      FinishKeepsCopies(policy, s, call, Failed(NotFound));
    } else {
      assert ActivitySafe(policy, s.logs, s.calls[call]);
      var objection := Objection(policy, fetched.value, tenant, d, s.logs[fetched.value.log].decisions);
      if objection == None {
        AcceptKeepsCopies(policy, s, call, fetched.value, d);
      } else {
        FinishKeepsCopies(policy, s, call, Failed(objection.value));
      }
    }
  }

  lemma {:induction false} SweepKeepsCopies(policy: Policy, s: State, call: nat, clock: int)
    requires CopiesSafe(policy, s) && call in s.calls && s.calls[call].Sweeping?
    ensures CopiesSafe(policy, SweepStep(s, call, clock))
  {
    var Sweeping(pending, started) := s.calls[call];
    assert ActivitySafe(policy, s.logs, s.calls[call]);
    var now := if started.Some? then started.value else clock;
    var rest := FromExpired(pending, now);
    FromExpiredIsSuffix(pending, now);
    if rest != [] {
      var r := rest[0].(status := TimedOut);
      PutKeepsCopies(policy, s, call, Expiring(r, rest[1..], now), r);
    }
  }

  lemma {:induction false} SubmitKeepsCopies(policy: Policy, s: State, e: Event)
    requires CopiesSafe(policy, s) && e.Submit?
    ensures CopiesSafe(policy, SubmitStep(s, policy, e))
  {
    var s' := SubmitStep(s, policy, e);
    GrowthKeepsCopies(policy, s, s'.logs);
    var r := s'.store[e.id];
    PutKeepsCopies(policy, s.(logs := s'.logs), s.nextCall, Requesting(r), r);
  }

  lemma {:induction false} RegisterKeepsCopies(policy: Policy, s: State, call: nat)
    requires CopiesSafe(policy, s) && call in s.calls && s.calls[call].Requesting?
    ensures CopiesSafe(policy, RegisterStep(s, call))
  {
    assert ActivitySafe(policy, s.logs, s.calls[call]);
  }

  lemma {:induction false} ConcludeKeepsCopies(policy: Policy, s: State, call: nat)
    requires CopiesSafe(policy, s) && call in s.calls && s.calls[call].Concluding?
    ensures CopiesSafe(policy, ConcludeStep(s, call))
  {
    assert ActivitySafe(policy, s.logs, s.calls[call]);
    var r := s.calls[call].concluded;
    SettleKeepsCopies(policy, s, r.id, Resolved(r.id, r.log, r.status));
  }

  lemma {:induction false} ExpireKeepsCopies(policy: Policy, s: State, call: nat)
    requires CopiesSafe(policy, s) && call in s.calls && s.calls[call].Expiring?
    ensures CopiesSafe(policy, ExpireStep(s, call))
  {
    assert ActivitySafe(policy, s.logs, s.calls[call]);
    var Expiring(r, rest, now) := s.calls[call];
    SettleKeepsCopies(policy, s.(calls := s.calls[call := Sweeping(rest, Some(now))]), r.id,
                      Resolved(r.id, r.log, TimedOut));
  }

  lemma {:induction false} StepKeepsCopies(policy: Policy, s: State, e: Event)
    requires CopiesSafe(policy, s)
    ensures CopiesSafe(policy, Step(s, policy, e))
  {
    match e
    case Submit(_, _, _, _, _) =>
      SubmitKeepsCopies(policy, s, e);
    case Decide(id, tenant, d) =>
    case Sweep =>
      PendingInIsSafe(policy, s.logs, s.store, s.order);
    case Resume(call, clock) =>
      if call in s.calls {
        match s.calls[call]
        case Requesting(_) =>
          RegisterKeepsCopies(policy, s, call);
        case Deciding(_, _, _) =>
          DecideKeepsCopies(policy, s, call);
        case Concluding(_) =>
          ConcludeKeepsCopies(policy, s, call);
        case Sweeping(_, _) =>
          SweepKeepsCopies(policy, s, call, clock);
        case Expiring(_, _, _) =>
          ExpireKeepsCopies(policy, s, call);
      }
  }

  // ---------------------------------------------------------------- whole runs

  /** The state after the first `n` events of any interleaving of starts and resumptions. */
  function Run(policy: Policy, es: seq<Event>, n: nat): State
    requires n <= |es|
  {
    if n == 0 then INITIAL else Step(Run(policy, es, n - 1), policy, es[n - 1])
  }

  lemma {:induction false} RunKeepsCopies(policy: Policy, es: seq<Event>, n: nat)
    requires n <= |es|
    ensures CopiesSafe(policy, Run(policy, es, n))
  {
    CopiesStart(policy, es);
    for k := 0 to n
      invariant CopiesSafe(policy, Run(policy, es, k))
    {
      CopiesNext(policy, es, k);
    }
  }

  lemma {:induction false} CopiesStart(policy: Policy, es: seq<Event>)
    ensures CopiesSafe(policy, Run(policy, es, 0))
  {
  }

  lemma {:induction false} CopiesNext(policy: Policy, es: seq<Event>, n: nat)
    requires n < |es| && CopiesSafe(policy, Run(policy, es, n))
    ensures CopiesSafe(policy, Run(policy, es, n + 1))
  {
    StepKeepsCopies(policy, Run(policy, es, n), es[n]);
  }

  function Approvers(ds: seq<Decision>): set<Id> {
    set d | d in ds && d.approves :: d.user
  }

  lemma {:induction false} ApproversAreCounted(ds: seq<Decision>)
    requires forall i, j :: 0 <= i < j < |ds| ==> ds[i].user != ds[j].user
    ensures |Approvers(ds)| == Approvals(ds)
  {
    if ds != [] {
      var n := |ds| - 1;
      ApproversAreCounted(ds[..n]);
      assert ds == ds[..n] + [ds[n]];
      assert Approvers(ds) == Approvers(ds[..n]) + if ds[n].approves then {ds[n].user} else {};
      assert ds[n].user !in Approvers(ds[..n]);
    }
  }

  lemma {:induction false} RunKeepsLogs(policy: Policy, es: seq<Event>, n: nat)
    requires n <= |es|
    ensures LogsSafe(policy, Run(policy, es, n).logs)
  {
    for k := 0 to n
      invariant LogsSafe(policy, Run(policy, es, k).logs)
    {
      LogsNext(policy, es, k);
    }
  }

  lemma {:induction false} LogsNext(policy: Policy, es: seq<Event>, n: nat)
    requires n < |es| && LogsSafe(policy, Run(policy, es, n).logs)
    ensures LogsSafe(policy, Run(policy, es, n + 1).logs)
  {
    RunKeepsCopies(policy, es, n);
    StepKeepsLogs(policy, Run(policy, es, n), es[n]);
  }

  /** In every interleaving, `approved` is stored or returned only for an array in which at
      least the required number of different users approved, `auto_approved` only where the
      policy says so, and every recorded decision comes from a different user with an allowed
      role and is no forbidden self-approval. */
  lemma {:induction false} QuorumInEveryInterleaving(policy: Policy, es: seq<Event>, n: nat)
    requires n <= |es|
    ensures var s := Run(policy, es, n);
            && LogsSafe(policy, s.logs)
            && (forall id :: id in s.store && s.store[id].status == Approved ==>
                  && s.store[id].log < |s.logs|
                  && |Approvers(s.logs[s.store[id].log].decisions)|
                       >= GetRequirement(policy, s.store[id].risk).requiredApproverCount)
            && (forall c :: c in s.results && s.results[c].Resolved? && s.results[c].status == Approved ==>
                  && s.results[c].log < |s.logs|
                  && |Approvers(s.logs[s.results[c].log].decisions)|
                       >= GetRequirement(policy, s.logs[s.results[c].log].risk).requiredApproverCount)
            && (forall id :: id in s.store && s.store[id].status == AutoApproved ==>
                  GetRequirement(policy, s.store[id].risk).autoApprove)
            && (forall c :: c in s.results && s.results[c].Resolved? && s.results[c].status == AutoApproved ==>
                  s.results[c].log < |s.logs| && GetRequirement(policy, s.logs[s.results[c].log].risk).autoApprove)
  {
    var s := Run(policy, es, n);
    RunKeepsLogs(policy, es, n);
    RunKeepsCopies(policy, es, n);
    forall k | 0 <= k < |s.logs|
      ensures |Approvers(s.logs[k].decisions)| == Approvals(s.logs[k].decisions)
    {
      assert LogSafe(policy, s.logs[k]);
      ApproversAreCounted(s.logs[k].decisions);
    }
    assert forall id :: id in s.store ==> CopySafe(policy, s.logs, s.store[id]);
    assert forall c :: c in s.results ==> ResultSafe(policy, s.logs, s.results[c]);
  }

  /** In every interleaving an accepted decision stores its verdict: rejected at once, or
      approved exactly when that many different users have now approved. */
  lemma {:induction false} VerdictIsExact(policy: Policy, es: seq<Event>, n: nat, call: nat, clock: int)
    requires n <= |es| && call in Run(policy, es, n).calls && Run(policy, es, n).calls[call].Deciding?
    requires call in Step(Run(policy, es, n), policy, Resume(call, clock)).calls
    ensures var s, d := Run(policy, es, n), Run(policy, es, n).calls[call].decision;
            var s' := Step(s, policy, Resume(call, clock));
            && s'.calls[call].Concluding?
            && var r := s'.calls[call].concluded;
               && s'.store == s.store[r.id := r] && r.log < |s'.logs|
               && r.status == if !d.approves then Rejected
                              else if |Approvers(s'.logs[r.log].decisions)|
                                        >= GetRequirement(policy, r.risk).requiredApproverCount then Approved
                              else Pending
  {
    var s := Run(policy, es, n);
    RunKeepsCopies(policy, es, n);
    RunKeepsLogs(policy, es, n);
    assert ActivitySafe(policy, s.logs, s.calls[call]);
    DecideKeepsLogs(policy, s, call);
    VerdictCounts(policy, s, call);
  }

  lemma {:induction false} VerdictCounts(policy: Policy, s: State, call: nat)
    requires call in s.calls && s.calls[call].Deciding? && ActivitySafe(policy, s.logs, s.calls[call])
    requires var s' := DecideStep(s, policy, call); call in s'.calls && LogsSafe(policy, s'.logs)
    ensures var s' := DecideStep(s, policy, call);
            && s'.calls[call].Concluding?
            && var r := s'.calls[call].concluded;
               && s'.store == s.store[r.id := r] && r.log < |s'.logs|
               && r.status == if !s.calls[call].decision.approves then Rejected
                              else if |Approvers(s'.logs[r.log].decisions)|
                                        >= GetRequirement(policy, r.risk).requiredApproverCount then Approved
                              else Pending
  {
    var refused, error, logs, r := DecideCases(policy, s, call);
    assert LogSafe(policy, logs[r.log]);
    ApproversAreCounted(logs[r.log].decisions);
  }

  /** A promise is held by its waiting call, then by the table of deferreds, then settled. */
  ghost predicate Once(calls: set<nat>, next: nat, deferreds: map<Id, nat>, settled: seq<nat>) {
    && (forall c :: c in calls ==> c < next)
    && (forall id :: id in deferreds ==>
          deferreds[id] < next && deferreds[id] !in calls && deferreds[id] !in settled)
    && (forall id, id' :: id in deferreds && id' in deferreds && id != id' ==> deferreds[id] != deferreds[id'])
    && (forall c :: c in settled ==> c < next && c !in calls)
    && (forall i, j :: 0 <= i < j < |settled| ==> settled[i] != settled[j])
  }

  ghost predicate PromisesOnce(s: State) {
    Once(s.calls.Keys, s.nextCall, s.deferreds, s.settled)
  }

  lemma {:induction false} FewerCalls(s: State, s': State)
    requires PromisesOnce(s) && s'.calls.Keys <= s.calls.Keys
    requires s'.nextCall == s.nextCall && s'.deferreds == s.deferreds && s'.settled == s.settled
    ensures PromisesOnce(s')
  {
  }

  lemma {:induction false} SettleKeepsPromises(s: State, id: Id, result: Result)
    requires PromisesOnce(s)
    ensures PromisesOnce(Settle(s, id, result))
  {
  }

  /** Steps other than a start, a registration or a settlement touch no promise. */
  lemma {:induction false} StepFrame(policy: Policy, s: State, call: nat, clock: int)
    requires call in s.calls && (s.calls[call].Deciding? || s.calls[call].Sweeping?)
    ensures var s' := Step(s, policy, Resume(call, clock));
            && s'.calls.Keys <= s.calls.Keys
            && s'.nextCall == s.nextCall && s'.deferreds == s.deferreds && s'.settled == s.settled
  {
    if s.calls[call].Deciding? {
      var refused, error, logs, r := DecideCases(policy, s, call);
    }
  }

  lemma {:induction false} SettlingKeepsPromises(policy: Policy, s: State, call: nat, clock: int)
    requires PromisesOnce(s)
    requires call in s.calls && (s.calls[call].Concluding? || s.calls[call].Expiring?)
    ensures PromisesOnce(Step(s, policy, Resume(call, clock)))
  {
    match s.calls[call]
    case Concluding(r) =>
      var result := Resolved(r.id, r.log, r.status);
      SettleKeepsPromises(s, r.id, result);
      FewerCalls(s, Finish(s, call, result));
      FewerCalls(Settle(s, r.id, result), Finish(Settle(s, r.id, result), call, result));
    case Expiring(r, rest, now) =>
      var s1 := s.(calls := s.calls[call := Sweeping(rest, Some(now))]);
      FewerCalls(s, s1);
      SettleKeepsPromises(s1, r.id, Resolved(r.id, r.log, TimedOut));
  }

  lemma {:induction false} StepKeepsPromises(policy: Policy, s: State, e: Event)
    requires PromisesOnce(s)
    ensures PromisesOnce(Step(s, policy, e))
  {
    if !e.Resume? {
      BeginKeepsPromises(policy, s, e);
    } else if e.call in s.calls {
      var a := s.calls[e.call];
      if a.Requesting? {
        RegisterKeepsPromises(s, e.call);
      } else if a.Deciding? || a.Sweeping? {
        StepFrame(policy, s, e.call, e.clock);
        FewerCalls(s, Step(s, policy, e));
      } else {
        SettlingKeepsPromises(policy, s, e.call, e.clock);
      }
    }
  }

  lemma {:induction false} BeginKeepsPromises(policy: Policy, s: State, e: Event)
    requires PromisesOnce(s) && !e.Resume?
    ensures PromisesOnce(Step(s, policy, e))
  {
    var s' := Step(s, policy, e);
    assert s'.calls.Keys == s.calls.Keys + {s.nextCall} && s'.deferreds == s.deferreds && s'.settled == s.settled;
  }

  lemma {:induction false} RegisterKeepsPromises(s: State, call: nat)
    requires PromisesOnce(s) && call in s.calls && s.calls[call].Requesting?
    ensures PromisesOnce(RegisterStep(s, call))
  {
  }

  /** In every interleaving each requester's promise is settled at most once. */
  lemma {:induction false} SettledAtMostOnce(policy: Policy, es: seq<Event>, n: nat)
    requires n <= |es|
    ensures PromisesOnce(Run(policy, es, n))
  {
    PromisesStart(policy, es);
    for k := 0 to n
      invariant PromisesOnce(Run(policy, es, k))
    {
      PromisesNext(policy, es, k);
    }
  }

  lemma {:induction false} PromisesStart(policy: Policy, es: seq<Event>)
    ensures PromisesOnce(Run(policy, es, 0))
  {
  }

  lemma {:induction false} PromisesNext(policy: Policy, es: seq<Event>, n: nat)
    requires n < |es| && PromisesOnce(Run(policy, es, n))
    ensures PromisesOnce(Run(policy, es, n + 1))
  {
    StepKeepsPromises(policy, Run(policy, es, n), es[n]);
  }
}
