/** Who may decide, and what the default policy amounts to: the rules of
    packages/approval-engine/src written out, over every interleaving. */
module ApprovalRules {
  import opened Approval
  import opened ApprovalOverlap
  import opened Shared

  // ---------------------------------------------------------------- the text of a role

  predicate LowerOf(c: char, d: char) {
    if 'A' <= c <= 'Z' then d as int == c as int + 32 else d == c
  }

  /** `t` is `s` with its capital letters made small. */
  predicate Lowered(s: string, t: string) {
    |s| == |t| && forall i :: 0 <= i < |s| ==> LowerOf(s[i], t[i])
  }

  lemma {:induction false} LowerIsLowered(s: string, t: string)
    ensures Lower(s) == t <==> Lowered(s, t)
  {
    if Lowered(s, t) {
      assert forall i :: 0 <= i < |s| ==> LowerOf(s[i], t[i]) && LowerChar(s[i]) == t[i];
    }
  }

  // ---------------------------------------------------------------- a decision

  /** The role is one of those that the policy allows for the risk, whatever its case. */
  ghost predicate RoleAllowed(policy: Policy, risk: Risk, role: string) {
    exists t :: t in GetRequirement(policy, risk).allowedRoles && Lowered(role, t)
  }

  predicate OwnRequest(policy: Policy, r: Request, user: Id) {
    r.requester == Some(user) && !GetRequirement(policy, r.risk).allowSelfApproval
  }

  predicate HasDecided(ds: seq<Decision>, user: Id) {
    exists k :: 0 <= k < |ds| && ds[k].user == user
  }

  /** What stands against a decision on the request, given the decisions already made: the first
      of the five rules that it breaks. */
  ghost predicate Refuses(
    policy: Policy, r: Request, tenant: Id, d: Decision, ds: seq<Decision>, error: Error)
  {
    match error
    case AlreadyResolved => r.status != Pending
    case TenantMismatch => r.status == Pending && r.tenant != tenant
    case RoleNotAllowed => r.status == Pending && r.tenant == tenant && !RoleAllowed(policy, r.risk, d.role)
    case SelfApproval =>
      && r.status == Pending && r.tenant == tenant && RoleAllowed(policy, r.risk, d.role)
      && OwnRequest(policy, r, d.user)
    case AlreadyDecided =>
      && r.status == Pending && r.tenant == tenant && RoleAllowed(policy, r.risk, d.role)
      && !OwnRequest(policy, r, d.user) && HasDecided(ds, d.user)
    case NotFound => false
  }

  /** The decision breaks none of them. */
  ghost predicate Permits(policy: Policy, r: Request, tenant: Id, d: Decision, ds: seq<Decision>) {
    && r.status == Pending && r.tenant == tenant && RoleAllowed(policy, r.risk, d.role)
    && !OwnRequest(policy, r, d.user) && !HasDecided(ds, d.user)
  }

  /** The call goes on with the decision added to the array of the request. */
  predicate Accepts(s: State, s': State, call: nat, log: nat, d: Decision)
    requires log < |s.logs|
  {
    && call in s'.calls && s'.calls[call].Concluding?
    && s'.logs == s.logs[log := s.logs[log].(decisions := s.logs[log].decisions + [d])]
  }

  /** The call ends with the error, and nothing else happens. */
  predicate Throws(s: State, s': State, call: nat, error: Error) {
    s' == s.(calls := s.calls - {call}, results := s.results[call := Failed(error)])
  }

  lemma {:induction false} RolesAgree(policy: Policy, risk: Risk, role: string)
    ensures Lower(role) in GetRequirement(policy, risk).allowedRoles <==> RoleAllowed(policy, risk, role)
  {
    forall t | t in GetRequirement(policy, risk).allowedRoles
      ensures Lower(role) == t <==> Lowered(role, t)
    {
      LowerIsLowered(role, t);
    }
  }

  lemma {:induction false} ObjectionExactly(policy: Policy, r: Request, tenant: Id, d: Decision, ds: seq<Decision>)
    ensures Objection(policy, r, tenant, d, ds) == None <==> Permits(policy, r, tenant, d, ds)
    ensures forall error :: Objection(policy, r, tenant, d, ds) == Some(error) <==>
                              Refuses(policy, r, tenant, d, ds, error)
  {
    RolesAgree(policy, r.risk, d.role);
    assert HasDecided(ds, d.user) <==> exists x | x in ds :: x.user == d.user;
  }

  /** The fetched request decides, with the tenant and decision that the call was made with and
      the shared array as it is now. */
  lemma {:induction false} ResumedDecision(policy: Policy, s: State, call: nat, r: Request, tenant: Id, d: Decision)
    requires call in s.calls && s.calls[call] == Deciding(Some(r), tenant, d) && r.log < |s.logs|
    ensures var s', ds := DecideStep(s, policy, call), s.logs[r.log].decisions;
            && (Accepts(s, s', call, r.log, d) <==> Permits(policy, r, tenant, d, ds))
            && (forall error :: Throws(s, s', call, error) <==> Refuses(policy, r, tenant, d, ds, error))
  {
    var s', ds := DecideStep(s, policy, call), s.logs[r.log].decisions;
    ObjectionExactly(policy, r, tenant, d, ds);
    var refused, error, logs, r' := DecideCases(policy, s, call);
    if !refused {
      assert call in s'.calls;
    } else {
      assert s'.results[call] == Failed(error);
    }
  }

  /** A call that waits to decide has waited since its start. */
  lemma {:induction false} DecidingIsOld(policy: Policy, s: State, e: Event, c: nat)
    requires c < s.nextCall && c in Step(s, policy, e).calls && Step(s, policy, e).calls[c].Deciding?
    ensures c in s.calls && s.calls[c] == Step(s, policy, e).calls[c]
  {
    if e.Resume? && e.call in s.calls {
      ResumedIsOld(policy, s, e.call, e.clock, c);
    }
  }

  lemma {:induction false} ResumedIsOld(policy: Policy, s: State, call: nat, clock: int, c: nat)
    requires call in s.calls
    requires var s' := Step(s, policy, Resume(call, clock)); c in s'.calls && s'.calls[c].Deciding?
    ensures c in s.calls && s.calls[c] == Step(s, policy, Resume(call, clock)).calls[c]
  {
    match s.calls[call]
    case Requesting(_) => assert RegisterStep(s, call).calls == s.calls - {call};
    case Deciding(_, _, _) => var refused, error, logs, r := DecideCases(policy, s, call);
    case Concluding(_) => assert ConcludeStep(s, call).calls == s.calls - {call};
    case Sweeping(_, _) => SweepingMoves(s, call, clock);
    case Expiring(_, rest, now) => assert ExpireStep(s, call).calls == s.calls[call := Sweeping(rest, Some(now))];
  }

  lemma {:induction false} SweepingMoves(s: State, call: nat, clock: int)
    requires call in s.calls && s.calls[call].Sweeping?
    ensures var s' := SweepStep(s, call, clock);
            || s'.calls == s.calls - {call}
            || (call in s'.calls && s'.calls[call].Expiring? && s'.calls == s.calls[call := s'.calls[call]])
  {
  }

  lemma {:induction false} CallsAscend(policy: Policy, s: State, e: Event)
    ensures s.nextCall <= Step(s, policy, e).nextCall
  {
    if e.Resume? && e.call in s.calls && s.calls[e.call].Deciding? {
      var refused, error, logs, r := DecideCases(policy, s, e.call);
    }
  }

  lemma {:induction false} RunAscends(policy: Policy, es: seq<Event>, i: nat, n: nat)
    requires i <= n <= |es|
    ensures Run(policy, es, i).nextCall <= Run(policy, es, n).nextCall
    decreases n - i
  {
    if i < n {
      CallsAscend(policy, Run(policy, es, i), es[i]);
      RunAscends(policy, es, i + 1, n);
    }
  }

  lemma {:induction false} WaitsSince(policy: Policy, es: seq<Event>, i: nat, n: nat, c: nat)
    requires i <= n <= |es| && c < Run(policy, es, i).nextCall
    requires c in Run(policy, es, n).calls && Run(policy, es, n).calls[c].Deciding?
    ensures c in Run(policy, es, i).calls && Run(policy, es, i).calls[c] == Run(policy, es, n).calls[c]
    decreases n - i
  {
    if i < n {
      RunAscends(policy, es, i, n - 1);
      DecidingIsOld(policy, Run(policy, es, n - 1), es[n - 1], c);
      WaitsSince(policy, es, i, n - 1, c);
    }
  }

  /** In every interleaving, for the call of a decision made at event `i` and resumed after event
      `n`: if no request had the id, it throws so. Otherwise, for the request as it was stored at
      the call and the array as it is at the resumption, the decision is accepted if and only if
      the request was pending and of the caller's tenant, the role is allowed, it is no forbidden
      self-approval and nobody has decided twice; and a refusal names the first of these that
      fails and leaves everything else as it was. */
  lemma {:induction false} DecisionExactly(policy: Policy, es: seq<Event>, i: nat, n: nat, clock: int)
    requires i < n <= |es| && es[i].Decide?
    requires var call := Run(policy, es, i).nextCall;
             call in Run(policy, es, n).calls && Run(policy, es, n).calls[call].Deciding?
    ensures var call, stored := Run(policy, es, i).nextCall, Run(policy, es, i).store;
            var s := Run(policy, es, n);
            var s' := Step(s, policy, Resume(call, clock));
            var Decide(id, tenant, d) := es[i];
            if id !in stored then Throws(s, s', call, NotFound)
            else DecidedBy(policy, s, s', call, stored[id], tenant, d)
  {
    StartsDeciding(policy, es, i);
    WaitsSince(policy, es, i + 1, n, Run(policy, es, i).nextCall);
    RunKeepsCopies(policy, es, n);
    ResumesDeciding(policy, Run(policy, es, n), Run(policy, es, i), es[i], clock);
  }

  ghost predicate DecidedBy(
    policy: Policy, s: State, s': State, call: nat, r: Request, tenant: Id, d: Decision)
  {
    && r.log < |s.logs|
    && (Accepts(s, s', call, r.log, d) <==> Permits(policy, r, tenant, d, s.logs[r.log].decisions))
    && (forall error :: Throws(s, s', call, error) <==>
                          Refuses(policy, r, tenant, d, s.logs[r.log].decisions, error))
  }

  function Fetch(s: State, e: Event): Activity
    requires e.Decide?
  {
    Deciding(if e.id in s.store then Some(s.store[e.id]) else None, e.tenant, e.decision)
  }

  lemma {:induction false} StartsDeciding(policy: Policy, es: seq<Event>, i: nat)
    requires i < |es| && es[i].Decide?
    ensures var s0, s1 := Run(policy, es, i), Run(policy, es, i + 1);
            s0.nextCall < s1.nextCall && s0.nextCall in s1.calls && s1.calls[s0.nextCall] == Fetch(s0, es[i])
  {
  }

  lemma {:induction false} ResumesDeciding(policy: Policy, s: State, s0: State, e: Event, clock: int)
    requires CopiesSafe(policy, s) && e.Decide? && s0.nextCall in s.calls && s.calls[s0.nextCall] == Fetch(s0, e)
    ensures var call, s' := s0.nextCall, Step(s, policy, Resume(s0.nextCall, clock));
            if e.id !in s0.store then Throws(s, s', call, NotFound)
            else DecidedBy(policy, s, s', call, s0.store[e.id], e.tenant, e.decision)
  {
    assert ActivitySafe(policy, s.logs, s.calls[s0.nextCall]);
    if e.id in s0.store {
      ResumedDecision(policy, s, s0.nextCall, s0.store[e.id], e.tenant, e.decision);
    }
  }

  // ---------------------------------------------------------------- what was submitted

  /** The terms of the submission, with the number of approvers that the policy asks for it. */
  ghost predicate TermsOf(policy: Policy, log: Log, e: Event) {
    && e.Submit? && log.id == e.id && log.tenant == e.tenant && log.risk == e.risk
    && log.requester == e.requester && log.expiresAt == e.expiresAt
    && var requirement := GetRequirement(policy, e.risk);
       log.required == if requirement.autoApprove then 0 else requirement.requiredApproverCount
  }

  ghost predicate SubmittedBefore(policy: Policy, es: seq<Event>, n: nat, log: Log)
    requires n <= |es|
  {
    exists j :: 0 <= j < n && TermsOf(policy, log, es[j])
  }

  ghost predicate LogsSubmitted(policy: Policy, es: seq<Event>, n: nat, logs: seq<Log>)
    requires n <= |es|
  {
    forall k :: 0 <= k < |logs| ==> SubmittedBefore(policy, es, n, logs[k])
  }

  /** A step adds the array of a submission, or changes decisions only. */
  lemma {:induction false} StepTerms(policy: Policy, s: State, e: Event, k: nat)
    requires k < |Step(s, policy, e).logs|
    ensures var log := Step(s, policy, e).logs[k];
            if k < |s.logs| then log == s.logs[k].(decisions := log.decisions) else TermsOf(policy, log, e)
  {
    StepLogs(policy, s, e);
    if e.Resume? && e.call in s.calls && s.calls[e.call].Deciding? {
      var refused, error, logs, r := DecideCases(policy, s, e.call);
    } else if e.Submit? && k < |s.logs| {
      assert Step(s, policy, e).logs[..|s.logs|][k] == s.logs[k];
    }
  }

  lemma {:induction false} SubmittedNext(policy: Policy, es: seq<Event>, n: nat)
    requires n < |es| && LogsSubmitted(policy, es, n, Run(policy, es, n).logs)
    ensures LogsSubmitted(policy, es, n + 1, Run(policy, es, n + 1).logs)
  {
    var s, s' := Run(policy, es, n), Run(policy, es, n + 1);
    assert s' == Step(s, policy, es[n]);
    forall k | 0 <= k < |s'.logs|
      ensures SubmittedBefore(policy, es, n + 1, s'.logs[k])
    {
      StepTerms(policy, s, es[n], k);
      if k < |s.logs| {
        assert SubmittedBefore(policy, es, n, s.logs[k]);
        var j :| 0 <= j < n && TermsOf(policy, s.logs[k], es[j]);
        assert TermsOf(policy, s'.logs[k], es[j]);
      }
    }
  }

  lemma {:induction false} RunSubmitted(policy: Policy, es: seq<Event>, n: nat)
    requires n <= |es|
    ensures LogsSubmitted(policy, es, n, Run(policy, es, n).logs)
  {
    assert Run(policy, es, 0).logs == [];
    for k := 0 to n
      invariant LogsSubmitted(policy, es, k, Run(policy, es, k).logs)
    {
      SubmittedNext(policy, es, k);
    }
  }

  /** In every interleaving a stored request has the terms of a submission under its id: tenant,
      risk, requester and deadline as submitted, and as many approvers to find as the policy asks
      for its risk. A submission stores it as approved if the policy says so, and as pending
      otherwise. */
  lemma {:induction false} RequestsAreSubmitted(policy: Policy, es: seq<Event>, n: nat, id: Id)
    requires n <= |es| && id in Run(policy, es, n).store
    ensures var s := Run(policy, es, n);
            var r := s.store[id];
            && r.log < |s.logs|
            && exists j :: 0 <= j < n && TermsOf(policy, s.logs[r.log], es[j])
                 && r.id == es[j].id && r.tenant == es[j].tenant && r.risk == es[j].risk
                 && r.requester == es[j].requester && r.expiresAt == es[j].expiresAt
    ensures n > 0 && es[n - 1].Submit? && es[n - 1].id == id ==>
              Run(policy, es, n).store[id].status
                == if GetRequirement(policy, es[n - 1].risk).autoApprove then AutoApproved else Pending
  {
    var s := Run(policy, es, n);
    RunKeepsCopies(policy, es, n);
    RunSubmitted(policy, es, n);
    assert CopySafe(policy, s.logs, s.store[id]);
    assert SubmittedBefore(policy, es, n, s.logs[s.store[id].log]);
  }

  // ---------------------------------------------------------------- the default policy

  const DEFAULTS: Policy := NewPolicy(map[])

  predicate OneOf(role: string, names: seq<string>) {
    exists k :: 0 <= k < |names| && Lowered(role, names[k])
  }

  /** Who may decide under the default policy: for a critical risk an admin or an owner, for a high
      one also an operator, and otherwise also a developer; the requester only for the latter. */
  lemma {:induction false} DefaultRules(r: Request, user: Id, role: string)
    ensures RoleAllowed(DEFAULTS, r.risk, role) <==>
              || OneOf(role, ["admin", "owner"])
              || (r.risk != CRITICAL && OneOf(role, ["operator"]))
              || (r.risk != CRITICAL && r.risk != HIGH && OneOf(role, ["developer"]))
    ensures OwnRequest(DEFAULTS, r, user) <==> r.requester == Some(user) && (r.risk == HIGH || r.risk == CRITICAL)
  {
    var roles := GetRequirement(DEFAULTS, r.risk).allowedRoles;
    var heads := ["admin", "owner"];
    assert OneOf(role, heads) <==> Lowered(role, heads[0]) || Lowered(role, heads[1]);
    assert OneOf(role, ["operator"]) <==> Lowered(role, ["operator"][0]);
    assert OneOf(role, ["developer"]) <==> Lowered(role, ["developer"][0]);
    assert RoleAllowed(DEFAULTS, r.risk, role) <==> exists k :: 0 <= k < |roles| && Lowered(role, roles[k]);
  }

  lemma {:induction false} TwoMembers(users: set<Id>) returns (a: Id, b: Id)
    requires |users| >= 2
    ensures a in users && b in users && a != b
  {
    a :| a in users;
    assert |users - {a}| == |users| - 1;
    b :| b in users - {a};
  }

  /** An approval in the array by a user other than the requester. */
  ghost predicate ApprovedBy(log: Log, user: Id) {
    exists d :: d in log.decisions && d.approves && d.user == user
                && (log.risk == HIGH || log.risk == CRITICAL ==> log.requester != Some(user))
                && (log.risk == HIGH ==> OneOf(d.role, ["admin", "owner"]) || OneOf(d.role, ["operator"]))
                && (log.risk == CRITICAL ==> OneOf(d.role, ["admin", "owner"]))
  }

  /** Under the default policy, in every interleaving: an approved request of critical risk was
      approved by two different admins or owners other than the requester, one of high risk by an
      operator, admin or owner other than the requester, one of medium risk by at least one user,
      and only low risk is approved by itself. */
  lemma {:induction false} DefaultQuorum(es: seq<Event>, n: nat, id: Id)
    requires n <= |es| && id in Run(DEFAULTS, es, n).store
    ensures var s := Run(DEFAULTS, es, n);
            var r := s.store[id];
            && r.log < |s.logs| && s.logs[r.log].risk == r.risk && s.logs[r.log].requester == r.requester
            && (r.status == AutoApproved ==> r.risk == LOW)
            && (r.status == Approved && r.risk != LOW ==> exists a :: ApprovedBy(s.logs[r.log], a))
            && (r.status == Approved && r.risk == CRITICAL ==>
                  exists a, b :: a != b && ApprovedBy(s.logs[r.log], a) && ApprovedBy(s.logs[r.log], b))
  {
    var s := Run(DEFAULTS, es, n);
    var r := s.store[id];
    QuorumInEveryInterleaving(DEFAULTS, es, n);
    RunKeepsCopies(DEFAULTS, es, n);
    assert CopySafe(DEFAULTS, s.logs, r);
    var log := s.logs[r.log];
    if r.status == Approved && r.risk != LOW {
      forall a | a in Approvers(log.decisions)
        ensures ApprovedBy(log, a)
      {
        ApproverIsRight(log, r, a);
      }
      var a :| a in Approvers(log.decisions);
      if r.risk == CRITICAL {
        var b, c := TwoMembers(Approvers(log.decisions));
      }
    }
  }

  lemma {:induction false} ApproverIsRight(log: Log, r: Request, user: Id)
    requires LogSafe(DEFAULTS, log) && MadeFor(log, r) && user in Approvers(log.decisions)
    ensures ApprovedBy(log, user)
  {
    var d :| d in log.decisions && d.approves && d.user == user;
    RolesAgree(DEFAULTS, log.risk, d.role);
    DefaultRules(r, user, d.role);
  }

  /** And the number that suffices is exactly that. */
  lemma {:induction false} DefaultVerdict(es: seq<Event>, n: nat, call: nat, clock: int)
    requires n <= |es| && call in Run(DEFAULTS, es, n).calls && Run(DEFAULTS, es, n).calls[call].Deciding?
    requires call in Step(Run(DEFAULTS, es, n), DEFAULTS, Resume(call, clock)).calls
    requires Run(DEFAULTS, es, n).calls[call].decision.approves
    ensures var s' := Step(Run(DEFAULTS, es, n), DEFAULTS, Resume(call, clock));
            && s'.calls[call].Concluding?
            && var r := s'.calls[call].concluded;
               && r.log < |s'.logs|
               && (r.risk == MEDIUM || r.risk == HIGH ==> r.status == Approved)
               && (r.risk == CRITICAL ==> (r.status == Approved <==> |Approvers(s'.logs[r.log].decisions)| >= 2))
  {
    VerdictIsExact(DEFAULTS, es, n, call, clock);
    DecidedLast(DEFAULTS, Run(DEFAULTS, es, n), call, clock);
  }

  lemma {:induction false} DecidedLast(policy: Policy, s: State, call: nat, clock: int)
    requires call in s.calls && s.calls[call].Deciding? && s.calls[call].decision.approves
    requires call in Step(s, policy, Resume(call, clock)).calls
    ensures var s' := Step(s, policy, Resume(call, clock));
            && s'.calls[call].Concluding? && s'.calls[call].concluded.log < |s'.logs|
            && |Approvers(s'.logs[s'.calls[call].concluded.log].decisions)| >= 1
  {
    var refused, error, logs, r := DecideCases(policy, s, call);
    LastApproves(logs[r.log].decisions, s.calls[call].decision);
  }

  lemma {:induction false} LastApproves(ds: seq<Decision>, d: Decision)
    requires ds != [] && ds[|ds| - 1] == d && d.approves
    ensures |Approvers(ds)| >= 1
  {
    assert d.user in Approvers(ds);
  }

  // ---------------------------------------------------------------- the pending list

  /** The list holds the pending records in the order in which their ids were first saved. */
  lemma {:induction false} ListedInOrder(store: map<Id, Request>, order: seq<Id>, id: Id)
    ensures PendingIn(store, order + [id])
         == PendingIn(store, order) + if id in store && store[id].status == Pending then [store[id]] else []
    decreases |order|
  {
    if order == [] {
      assert [] + [id] == [id];
    } else {
      assert (order + [id])[1..] == order[1..] + [id];
      ListedInOrder(store, order[1..], id);
    }
  }

  /** The ids in the order in which they were first submitted. */
  function FirstSubmitted(es: seq<Event>, n: nat): seq<Id>
    requires n <= |es|
  {
    if n == 0 then []
    else
      var before := FirstSubmitted(es, n - 1);
      if es[n - 1].Submit? && es[n - 1].id !in before then before + [es[n - 1].id] else before
  }

  lemma {:induction false} OnlySubmitsAdd(policy: Policy, s: State, e: Event)
    requires Stored(s)
    ensures Step(s, policy, e).order == if e.Submit? && e.id !in s.order then s.order + [e.id] else s.order
  {
    if e.Resume? && e.call in s.calls {
      assert Knows(s.store, s.calls[e.call]);
      match s.calls[e.call]
      case Deciding(_, _, _) =>
        var refused, error, logs, r := DecideCases(policy, s, e.call);
      case Sweeping(pending, started) =>
        FromExpiredIsSuffix(pending, if started.Some? then started.value else e.clock);
      case _ =>
    }
  }

  /** In every interleaving the store's keys stand in that order, so a resubmitted, decided or
      timed-out request keeps its place in every list. */
  lemma {:induction false} KeysInOrder(policy: Policy, es: seq<Event>, n: nat)
    requires n <= |es|
    ensures Run(policy, es, n).order == FirstSubmitted(es, n)
  {
    if n > 0 {
      KeysInOrder(policy, es, n - 1);
      RunIsStored(policy, es, n - 1);
      OnlySubmitsAdd(policy, Run(policy, es, n - 1), es[n - 1]);
    }
  }
}
