/** The task map of the task controller as a value: what each public operation does to it,
    and what every run of those operations keeps. The class in TaskController.dfy is proved
    against these functions. */
module TaskModel {
  import opened Digraph

  datatype Status =
    | DRAFT | UNDERSTANDING | PLANNING | AWAITING_CLARIFICATION | AWAITING_APPROVAL
    | BACKLOG | PLANNED | QUEUED | RUNNING | EXECUTING | PAUSED | VERIFYING
    | COMPLETED | FAILED | RETRY | CANCELLED | BLOCKED

  /** The fields of a task record that the dependency and retry logic reads or writes. */
  datatype Task = Task(status: Status, dependencies: seq<Id>, dependents: seq<Id>, retries: nat, maxRetries: int)

  type Tasks = map<Id, Task>

  datatype Outcome =
    | Ok
    | NotFound
    | AlreadyExists
    | MissingPrerequisite
    | IllegalTransition
    | Unfulfilled
    | CycleRejected
    | Exhausted

  function Successors(s: Status): set<Status> {
    match s
    case DRAFT => {UNDERSTANDING, PLANNING, BACKLOG, CANCELLED}
    case UNDERSTANDING => {PLANNING, AWAITING_CLARIFICATION, FAILED, CANCELLED}
    case AWAITING_CLARIFICATION => {UNDERSTANDING, PLANNING, CANCELLED}
    case PLANNING => {AWAITING_APPROVAL, PLANNED, QUEUED, BLOCKED, FAILED, CANCELLED}
    case AWAITING_APPROVAL => {QUEUED, PLANNED, BLOCKED, FAILED, CANCELLED}
    case BACKLOG => {PLANNING, PLANNED, CANCELLED}
    case PLANNED => {QUEUED, CANCELLED, BACKLOG, BLOCKED}
    case QUEUED => {RUNNING, EXECUTING, CANCELLED, PLANNED, BLOCKED}
    case RUNNING => {EXECUTING, PAUSED, VERIFYING, FAILED, RETRY, CANCELLED, COMPLETED, BLOCKED}
    case EXECUTING => {PAUSED, VERIFYING, FAILED, RETRY, CANCELLED, COMPLETED, BLOCKED}
    case PAUSED => {RUNNING, EXECUTING, CANCELLED, FAILED}
    case VERIFYING => {COMPLETED, FAILED, RETRY, RUNNING, EXECUTING}
    case BLOCKED => {PLANNING, QUEUED, RETRY, CANCELLED, FAILED}
    case RETRY => {QUEUED, RUNNING, EXECUTING, FAILED, CANCELLED}
    case COMPLETED => {}
    case FAILED => {RETRY, PLANNING, PLANNED}
    case CANCELLED => {PLANNING, PLANNED}
  }

  function DependencyGraph(ts: Tasks): (g: Graph)
    ensures g.Keys == ts.Keys
  {
    map id | id in ts :: ts[id].dependencies
  }

  predicate Completed(ts: Tasks, id: Id) {
    id in ts && ts[id].status == COMPLETED
  }

  /** All current prerequisites are completed (a missing prerequisite is not). */
  predicate Fulfilled(ts: Tasks, id: Id) {
    id in ts ==> forall d | d in ts[id].dependencies :: Completed(ts, d)
  }

  // ---------------------------------------------------------------- operations

  function WithStatus(ts: Tasks, id: Id, s: Status): Tasks
    requires id in ts
  {
    ts[id := ts[id].(status := s)]
  }

  /** A status change without the completion cascade. */
  function Advance(ts: Tasks, id: Id, s: Status): (Outcome, Tasks) {
    if id !in ts then (NotFound, ts)
    else if s !in Successors(ts[id].status) then (IllegalTransition, ts)
    else if (s == QUEUED || s == RUNNING) && !Fulfilled(ts, id) then (Unfulfilled, ts)
    else (Ok, WithStatus(ts, id, s))
  }

  predicate Waiting(ts: Tasks, id: Id) {
    id in ts && (ts[id].status == PLANNED || ts[id].status == BACKLOG) && Fulfilled(ts, id)
  }

  /** The completion cascade over a list of dependents; it stops at the first failure. */
  function Cascade(ts: Tasks, ds: seq<Id>): (Outcome, Tasks) {
    if ds == [] then (Ok, ts)
    else if !Waiting(ts, ds[0]) then Cascade(ts, ds[1..])
    else
      var (o, ts1) := Advance(ts, ds[0], QUEUED);
      if o != Ok then (o, ts1) else Cascade(ts1, ds[1..])
  }

  function SetStatus(ts: Tasks, id: Id, s: Status): (Outcome, Tasks) {
    var (o, ts1) := Advance(ts, id, s);
    if o == Ok && s == COMPLETED then Cascade(ts1, ts1[id].dependents) else (o, ts1)
  }

  /** The members of a list in order of first occurrence, as a JavaScript set lists them. */
  function Once(s: seq<Id>): (r: seq<Id>)
    ensures Distinct(r) && forall x :: x in r <==> x in s
  {
    if s == [] then []
    else
      var rest, last := Once(s[..|s| - 1]), s[|s| - 1];
      assert s == s[..|s| - 1] + [last];
      if last in rest then rest else rest + [last]
  }

  /** Adds `id` to the dependents of every task in `deps`, once. */
  function LinkDependents(ts: Tasks, id: Id, deps: seq<Id>): (r: Tasks)
    requires forall d :: d in deps ==> d in ts
    ensures r.Keys == ts.Keys
  {
    if deps == [] then ts
    else
      var t := ts[deps[0]];
      var t' := t.(dependents := Once(t.dependents + [id]));
      LinkDependents(ts[deps[0] := t'], id, deps[1..])
  }

  function Create(ts: Tasks, id: Id, deps: seq<Id>, maxRetries: int): (Outcome, Tasks) {
    if id in ts then (AlreadyExists, ts)
    else if exists d | d in deps :: d !in ts then (MissingPrerequisite, ts)
    else
      var created := Task(if deps == [] then QUEUED else PLANNED, deps, [], 0, maxRetries);
      (Ok, LinkDependents(ts[id := Task(BACKLOG, deps, [], 0, maxRetries)], id, deps)[id := created])
  }

  /** Both writes of an added dependency. The second starts from the record of `p` read
      before the first write, so it erases the first one when `t == p`. */
  function Link(ts: Tasks, t: Id, p: Id): Tasks
    requires t in ts && p in ts
  {
    ts[t := ts[t].(dependencies := ts[t].dependencies + [p])]
      [p := ts[p].(dependents := ts[p].dependents + [t])]
  }

  ghost function AddDependency(ts: Tasks, t: Id, p: Id): (Outcome, Tasks) {
    if t !in ts || p !in ts then (NotFound, ts)
    else if p in ts[t].dependencies then (Ok, ts)
    else if Cyclic(DependencyGraph(Link(ts, t, p))) then (CycleRejected, ts)
    else (Ok, Link(ts, t, p))
  }

  /** A retry event forces the status, whatever it was, and counts. */
  function Retry(ts: Tasks, id: Id, force: bool): (Outcome, Tasks) {
    if id !in ts then (NotFound, ts)
    else if ts[id].status != FAILED && !force then (IllegalTransition, ts)
    else if ts[id].retries >= ts[id].maxRetries && !force then (Exhausted, ts)
    else (Ok, ts[id := ts[id].(status := RETRY, retries := ts[id].retries + 1)])
  }

  /** The timer of a retry: it queues a task that still waits for it and swallows failures. */
  function Requeue(ts: Tasks, id: Id): (Outcome, Tasks) {
    if id in ts && ts[id].status == RETRY then SetStatus(ts, id, QUEUED) else (Ok, ts)
  }

  // ---------------------------------------------------------------- invariant

  ghost predicate References(ts: Tasks) {
    forall a, b {:trigger b in ts[a].dependencies} {:trigger b in ts[a].dependents} ::
      a in ts && (b in ts[a].dependencies || b in ts[a].dependents) ==> b in ts
  }

  /** `dependents` inverts `dependencies` between distinct tasks. */
  ghost predicate Mirrored(ts: Tasks) {
    forall a, b {:trigger a in ts[b].dependents} {:trigger b in ts[a].dependencies} ::
      a in ts && b in ts && a != b ==> (a in ts[b].dependents <==> b in ts[a].dependencies)
  }

  ghost predicate WellFormed(ts: Tasks) {
    References(ts) && Mirrored(ts) && !Cyclic(DependencyGraph(ts))
  }

  /** The inverse relation holds without exception. */
  ghost predicate ExactMirror(ts: Tasks) {
    forall a, b {:trigger a in ts[b].dependents} {:trigger b in ts[a].dependencies} ::
      a in ts && b in ts ==> (a in ts[b].dependents <==> b in ts[a].dependencies)
  }

  /** Same tasks and same edges in both directions. */
  ghost predicate SameEdges(ts: Tasks, us: Tasks) {
    && ts.Keys == us.Keys
    && forall id :: id in ts ==>
         ts[id].dependencies == us[id].dependencies && ts[id].dependents == us[id].dependents
  }

  lemma {:induction false} SameEdgesKeepShape(ts: Tasks, us: Tasks)
    requires SameEdges(ts, us)
    ensures DependencyGraph(us) == DependencyGraph(ts)
    ensures WellFormed(ts) ==> WellFormed(us)
    ensures ExactMirror(ts) <==> ExactMirror(us)
  {
  }

  lemma {:induction false} CascadeKeepsEdges(ts: Tasks, ds: seq<Id>)
    ensures SameEdges(ts, Cascade(ts, ds).1)
    decreases |ds|
  {
    if ds != [] {
      if Waiting(ts, ds[0]) {
        CascadeKeepsEdges(Advance(ts, ds[0], QUEUED).1, ds[1..]);
      } else {
        CascadeKeepsEdges(ts, ds[1..]);
      }
    }
  }

  /** A self-edge is a cycle. */
  lemma {:induction false} SelfEdgeIsCycle(g: Graph, u: Id)
    requires Edge(g, u, u)
    ensures Cyclic(g)
  {
    assert CyclePath(g, [u, u]);
  }

  /** A node that nobody depends on lies on no cycle, so adding one keeps a graph acyclic. */
  lemma {:induction false} FreshNodeKeepsAcyclic(g: Graph, h: Graph, n: Id)
    requires !Cyclic(g)
    requires forall u, v :: Edge(h, u, v) && u != n ==> Edge(g, u, v)
    requires forall u :: !Edge(h, u, n)
    ensures !Cyclic(h)
  {
    if Cyclic(h) {
      var p :| CyclePath(h, p);
      forall i | 0 <= i < |p|
        ensures p[i] != n
      {
        var k := if i == 0 then |p| - 1 else i;
        assert Edge(h, p[k - 1], p[k]);
      }
      assert CyclePath(g, p);
    }
  }

  lemma {:induction false} LinkDependentsEffect(ts: Tasks, id: Id, deps: seq<Id>)
    requires forall d :: d in deps ==> d in ts
    ensures var r := LinkDependents(ts, id, deps);
            forall x :: x in ts ==>
              && r[x].status == ts[x].status && r[x].dependencies == ts[x].dependencies
              && r[x].retries == ts[x].retries && r[x].maxRetries == ts[x].maxRetries
              && forall y :: y in r[x].dependents <==> y in ts[x].dependents || (y == id && x in deps)
    decreases |deps|
  {
    if deps != [] {
      var t := ts[deps[0]];
      var t' := t.(dependents := Once(t.dependents + [id]));
      LinkDependentsEffect(ts[deps[0] := t'], id, deps[1..]);
    }
  }

  lemma {:induction false} CreateEffect(ts: Tasks, id: Id, deps: seq<Id>, maxRetries: int)
    requires Create(ts, id, deps, maxRetries).0 == Ok
    ensures var us := Create(ts, id, deps, maxRetries).1;
            && us.Keys == ts.Keys + {id}
            && us[id] == Task(if deps == [] then QUEUED else PLANNED, deps, [], 0, maxRetries)
            && forall x :: x in ts ==>
                 && us[x].status == ts[x].status && us[x].dependencies == ts[x].dependencies
                 && us[x].retries == ts[x].retries && us[x].maxRetries == ts[x].maxRetries
                 && forall y :: y in us[x].dependents <==> y in ts[x].dependents || (y == id && x in deps)
  {
    LinkDependentsEffect(ts[id := Task(BACKLOG, deps, [], 0, maxRetries)], id, deps);
  }

  /** Creating a task can never close a cycle: the check in `createTask` always passes. */
  lemma {:induction false} CreateKeepsWellFormed(ts: Tasks, id: Id, deps: seq<Id>, maxRetries: int)
    requires WellFormed(ts)
    ensures WellFormed(Create(ts, id, deps, maxRetries).1)
    ensures ExactMirror(ts) <==> ExactMirror(Create(ts, id, deps, maxRetries).1)
  {
    var (o, us) := Create(ts, id, deps, maxRetries);
    if o == Ok {
      CreateEffect(ts, id, deps, maxRetries);
      FreshNodeKeepsAcyclic(DependencyGraph(ts), DependencyGraph(us), id);
      CreateMirror(ts, us, id);
    }
  }

  lemma {:induction false} CreateMirror(ts: Tasks, us: Tasks, id: Id)
    requires References(ts) && Mirrored(ts)
    requires id !in ts && us.Keys == ts.Keys + {id} && us[id].dependents == []
    requires forall d :: d in us[id].dependencies ==> d in ts
    requires forall x, y :: x in ts ==>
               && (y in us[x].dependencies <==> y in ts[x].dependencies)
               && (y in us[x].dependents <==> y in ts[x].dependents || (y == id && x in us[id].dependencies))
    ensures References(us) && Mirrored(us)
    ensures ExactMirror(ts) <==> ExactMirror(us)
  {
    if ExactMirror(us) {
      forall a, b | a in ts && b in ts
        ensures a in ts[b].dependents <==> b in ts[a].dependencies
      {
        assert a in us[b].dependents <==> b in us[a].dependencies;
      }
    }
  }

  /** A link is refused as a cycle if and only if the new prerequisite already depends, directly
      or not, on the task. */
  lemma {:induction false} LinkRejectedExactly(ts: Tasks, t: Id, p: Id)
    requires WellFormed(ts)
    ensures AddDependency(ts, t, p).0 == CycleRejected <==>
              t in ts && p in ts && t != p && Reaches(DependencyGraph(ts), p, t)
  {
    if t in ts && p in ts {
      var g, h := DependencyGraph(ts), DependencyGraph(Link(ts, t, p));
      if t == p {
        assert h == g;
      } else if p in ts[t].dependencies {
        assert AddsEdge(g, g, t, p);
        NewEdgeExactly(g, g, t, p);
      } else {
        LinkAddsEdge(ts, t, p);
        NewEdgeExactly(g, h, t, p);
      }
    }
  }

  lemma {:induction false} LinkAddsEdge(ts: Tasks, t: Id, p: Id)
    requires t in ts && p in ts && t != p
    ensures AddsEdge(DependencyGraph(ts), DependencyGraph(Link(ts, t, p)), t, p)
  {
    var g, h := DependencyGraph(ts), DependencyGraph(Link(ts, t, p));
    assert h == g[t := g[t] + [p]];
  }

  /** Exactly the effect of an accepted or rejected dependency on the graph's shape. A call
      with two distinct ids keeps `dependents` the exact inverse of `dependencies`; a call
      with one existing id twice records no dependency, is not rejected, and always leaves
      that task among its own dependents. */
  lemma {:induction false} AddDependencyShape(ts: Tasks, t: Id, p: Id)
    requires WellFormed(ts)
    ensures var us := AddDependency(ts, t, p).1;
            && WellFormed(us)
            && (ExactMirror(us) <==> ExactMirror(ts) && !(t == p && t in ts))
            && (t == p ==> DependencyGraph(us) == DependencyGraph(ts))
  {
    var (o, us) := AddDependency(ts, t, p);
    if t in ts && t == p {
      if t in ts[t].dependencies {
        SelfEdgeIsCycle(DependencyGraph(ts), t);
        assert false;
      }
      assert DependencyGraph(Link(ts, t, p)) == DependencyGraph(ts);
      assert t in us[t].dependents;
    } else if o == Ok && us != ts {
      assert forall x :: x in ts && x != t && x != p ==> us[x] == ts[x];
      LinkShape(ts, t, p);
    }
  }

  lemma {:induction false} LinkShape(ts: Tasks, t: Id, p: Id)
    requires References(ts) && Mirrored(ts) && t in ts && p in ts && t != p
    requires p !in ts[t].dependencies
    ensures References(Link(ts, t, p)) && Mirrored(Link(ts, t, p))
    ensures ExactMirror(ts) <==> ExactMirror(Link(ts, t, p))
  {
    var us := Link(ts, t, p);
    forall a, b | a in us
      ensures b in us[a].dependencies <==> b in ts[a].dependencies || (a == t && b == p)
      ensures b in us[a].dependents <==> b in ts[a].dependents || (a == p && b == t)
    {
    }
    if ExactMirror(us) {
      assert t !in ts[p].dependents;
      forall a, b | a in ts && b in ts
        ensures a in ts[b].dependents <==> b in ts[a].dependencies
      {
        assert a in us[b].dependents <==> b in us[a].dependencies;
      }
    }
  }

  // ---------------------------------------------------------------- completion cascade

  /** A dependent that the cascade tries to queue although BACKLOG has no QUEUED successor. */
  predicate Stuck(ts: Tasks, id: Id) {
    Waiting(ts, id) && ts[id].status == BACKLOG
  }

  predicate Startable(ts: Tasks, id: Id) {
    Waiting(ts, id) && ts[id].status == PLANNED
  }

  /** The dependents the cascade gets through before it fails. */
  function Reached(ts: Tasks, ds: seq<Id>): seq<Id> {
    if ds == [] || Stuck(ts, ds[0]) then [] else [ds[0]] + Reached(ts, ds[1..])
  }

  lemma {:induction false} ReachedStable(ts: Tasks, us: Tasks, ds: seq<Id>)
    requires forall d :: Stuck(ts, d) <==> Stuck(us, d)
    ensures Reached(ts, ds) == Reached(us, ds)
    decreases |ds|
  {
    if ds != [] {
      ReachedStable(ts, us, ds[1..]);
    }
  }

  /** Queueing a startable task changes what else is startable or stuck in no other way. */
  lemma {:induction false} QueueOne(ts: Tasks, d: Id)
    requires Startable(ts, d)
    ensures var ts1 := WithStatus(ts, d, QUEUED);
            && Advance(ts, d, QUEUED) == (Ok, ts1)
            && (forall x :: Stuck(ts1, x) <==> Stuck(ts, x))
            && (forall x :: Startable(ts1, x) <==> Startable(ts, x) && x != d)
  {
    var ts1 := WithStatus(ts, d, QUEUED);
    assert forall x :: Completed(ts1, x) <==> Completed(ts, x);
    assert forall x :: Fulfilled(ts1, x) <==> Fulfilled(ts, x);
  }

  /** The cascade queues exactly the startable dependents ahead of the first stuck one,
      changes nothing else, and succeeds exactly when no dependent is stuck. */
  lemma {:induction false} CascadeExact(ts: Tasks, ds: seq<Id>)
    ensures var (o, us) := Cascade(ts, ds);
            && us.Keys == ts.Keys
            && o == (if exists d :: d in ds && Stuck(ts, d) then IllegalTransition else Ok)
            && forall id :: id in ts ==>
                 us[id] == if id in Reached(ts, ds) && Startable(ts, id)
                           then ts[id].(status := QUEUED) else ts[id]
    decreases |ds|
  {
    if ds != [] {
      var d := ds[0];
      assert forall x :: x in ds <==> x == d || x in ds[1..];
      if Startable(ts, d) {
        var ts1 := WithStatus(ts, d, QUEUED);
        QueueOne(ts, d);
        CascadeExact(ts1, ds[1..]);
        ReachedStable(ts, ts1, ds[1..]);
      } else if !Stuck(ts, d) {
        CascadeExact(ts, ds[1..]);
      }
    }
  }

  lemma {:induction false} CascadeKeepsCompleted(ts: Tasks, ds: seq<Id>)
    ensures forall d :: Completed(Cascade(ts, ds).1, d) <==> Completed(ts, d)
    ensures forall d :: Fulfilled(Cascade(ts, ds).1, d) <==> Fulfilled(ts, d)
  {
    CascadeExact(ts, ds);
    CascadeKeepsEdges(ts, ds);
  }

  /** After a task becomes COMPLETED, the dependents left PLANNED with every prerequisite
      completed are exactly the startable ones behind the first stuck dependent; the call
      reports an error exactly when some dependent is stuck. */
  lemma {:induction false} CompletionWakesDependents(ts: Tasks, t: Id)
    requires WellFormed(ts)
    requires Advance(ts, t, COMPLETED).0 == Ok
    ensures var ts1 := WithStatus(ts, t, COMPLETED);
            var (o, us) := SetStatus(ts, t, COMPLETED);
            && Completed(us, t)
            && (o == Ok <==> forall d :: d in ts && t in ts[d].dependencies ==> !Stuck(ts1, d))
            && forall d :: d in us && t in us[d].dependencies ==>
                 (Startable(us, d) <==> Startable(ts1, d) && d !in Reached(ts1, ts1[t].dependents))
  {
    var ts1 := WithStatus(ts, t, COMPLETED);
    var ds := ts1[t].dependents;
    var us := Cascade(ts1, ds).1;
    CascadeExact(ts1, ds);
    CascadeKeepsCompleted(ts1, ds);
    CascadeKeepsEdges(ts1, ds);
    DependentsAreListed(ts, t);
    assert forall d :: Startable(us, d) <==> Startable(ts1, d) && !(d in Reached(ts1, ds));
  }

  lemma {:induction false} DependentsAreListed(ts: Tasks, t: Id)
    requires WellFormed(ts) && t in ts
    ensures forall d :: d in ts && t in ts[d].dependencies ==> d in ts[t].dependents
    ensures forall d :: d in ts[t].dependents && d != t ==> d in ts && t in ts[d].dependencies
  {
    if t in ts[t].dependencies {
      SelfEdgeIsCycle(DependencyGraph(ts), t);
      assert false;
    }
  }

  // ---------------------------------------------------------------- whole runs

  datatype Op =
    | DoCreate(id: Id, deps: seq<Id>, maxRetries: int)
    | DoLink(task: Id, prerequisite: Id)
    | DoStatus(id: Id, status: Status)
    | DoRetry(id: Id, force: bool)
    | DoRequeue(id: Id)

  ghost function Step(ts: Tasks, op: Op): (Outcome, Tasks) {
    match op
    case DoCreate(id, deps, maxRetries) => Create(ts, id, deps, maxRetries)
    case DoLink(t, p) => AddDependency(ts, t, p)
    case DoStatus(id, s) => SetStatus(ts, id, s)
    case DoRetry(id, force) => Retry(ts, id, force)
    case DoRequeue(id) => Requeue(ts, id)
  }

  /** The task map after a run of operations from the empty controller. */
  ghost function Run(ops: seq<Op>): Tasks {
    if ops == [] then map[] else Step(Run(ops[..|ops| - 1]), ops[|ops| - 1]).1
  }

  /** Operation `i` links an existing task to itself. */
  ghost predicate SelfLink(ops: seq<Op>, i: nat)
    requires i < |ops|
  {
    ops[i].DoLink? && ops[i].task == ops[i].prerequisite && ops[i].task in Run(ops[..i])
  }

  lemma {:induction false} StepShape(ts: Tasks, op: Op)
    requires WellFormed(ts)
    ensures var us := Step(ts, op).1;
            && WellFormed(us)
            && (ExactMirror(us) <==>
                  ExactMirror(ts) && !(op.DoLink? && op.task == op.prerequisite && op.task in ts))
  {
    match op
    case DoCreate(id, deps, maxRetries) =>
      CreateKeepsWellFormed(ts, id, deps, maxRetries);
    case DoLink(t, p) =>
      AddDependencyShape(ts, t, p);
    case DoStatus(id, s) =>
      SetStatusKeepsEdges(ts, id, s);
      SameEdgesKeepShape(ts, SetStatus(ts, id, s).1);
    case DoRetry(id, force) =>
      SameEdgesKeepShape(ts, Retry(ts, id, force).1);
    case DoRequeue(id) =>
      SetStatusKeepsEdges(ts, id, QUEUED);
      SameEdgesKeepShape(ts, Requeue(ts, id).1);
  }

  lemma {:induction false} SetStatusKeepsEdges(ts: Tasks, id: Id, s: Status)
    ensures SameEdges(ts, SetStatus(ts, id, s).1)
  {
    var (o, ts1) := Advance(ts, id, s);
    if o == Ok {
      CascadeKeepsEdges(ts1, ts1[id].dependents);
    }
  }

  /** In every run the graph stays acyclic and closed, and `dependents` is the exact inverse
      of `dependencies` precisely when no operation linked an existing task to itself. */
  lemma {:induction false} RunShape(ops: seq<Op>)
    ensures WellFormed(Run(ops))
    ensures ExactMirror(Run(ops)) <==> forall i: nat :: i < |ops| ==> !SelfLink(ops, i)
  {
    if ops == [] {
      SettledIsAcyclic(DependencyGraph(map[]), []);
    } else {
      var n := |ops| - 1;
      var before := ops[..n];
      RunShape(before);
      StepShape(Run(before), ops[n]);
      forall i: nat | i < n
        ensures SelfLink(ops, i) <==> SelfLink(before, i)
      {
        assert before[..i] == ops[..i];
      }
      assert SelfLink(ops, n) <==>
             ops[n].DoLink? && ops[n].task == ops[n].prerequisite && ops[n].task in Run(before);
    }
  }

  predicate Gated(s: Status) {
    s == QUEUED || s == RUNNING
  }

  /** Whatever the operation, a task that enters QUEUED or RUNNING has every current
      prerequisite completed at the end of it. */
  lemma {:induction false} EntryIsGated(ts: Tasks, op: Op, id: Id)
    requires WellFormed(ts)
    requires var us := Step(ts, op).1;
             id in us && Gated(us[id].status) && (id in ts ==> ts[id].status != us[id].status)
    ensures Fulfilled(Step(ts, op).1, id)
  {
    match op
    case DoCreate(n, deps, maxRetries) =>
      if Create(ts, n, deps, maxRetries).0 == Ok { CreateEffect(ts, n, deps, maxRetries); }
    case DoLink(t, p) =>
    case DoRetry(_, _) =>
    case DoRequeue(t) =>
      StatusEntryIsGated(ts, t, QUEUED, id);
    case DoStatus(t, s) =>
      StatusEntryIsGated(ts, t, s, id);
  }

  lemma {:induction false} StatusEntryIsGated(ts: Tasks, t: Id, s: Status, id: Id)
    requires var us := SetStatus(ts, t, s).1;
             id in us && Gated(us[id].status) && (id in ts ==> ts[id].status != us[id].status)
    ensures Fulfilled(SetStatus(ts, t, s).1, id)
  {
    var (o, ts1) := Advance(ts, t, s);
    if o == Ok && s == COMPLETED {
      var ds := ts1[t].dependents;
      CascadeExact(ts1, ds);
      CascadeKeepsCompleted(ts1, ds);
    } else if o == Ok {
      assert !Completed(ts, t);
      assert forall d :: Completed(ts, d) ==> Completed(ts1, d);
    }
  }

  lemma {:induction false} NoBacklogStep(ts: Tasks, op: Op)
    requires forall id :: id in ts ==> ts[id].status != BACKLOG
    requires !(op.DoStatus? && op.status == BACKLOG)
    ensures var us := Step(ts, op).1; forall id :: id in us ==> us[id].status != BACKLOG
  {
    match op
    case DoCreate(n, deps, maxRetries) =>
      if Create(ts, n, deps, maxRetries).0 == Ok { CreateEffect(ts, n, deps, maxRetries); }
    case DoLink(t, p) => LinkKeepsStatus(ts, t, p);
    case DoRetry(_, _) =>
    case DoRequeue(t) => NoBacklogStatus(ts, t, QUEUED);
    case DoStatus(t, s) => NoBacklogStatus(ts, t, s);
  }

  lemma {:induction false} LinkKeepsStatus(ts: Tasks, t: Id, p: Id)
    ensures var us := AddDependency(ts, t, p).1;
            us.Keys == ts.Keys && forall d :: d in ts ==> us[d].status == ts[d].status
  {
  }

  lemma {:induction false} NoBacklogStatus(ts: Tasks, t: Id, s: Status)
    requires (forall id :: id in ts ==> ts[id].status != BACKLOG) && s != BACKLOG
    ensures var us := SetStatus(ts, t, s).1; forall id :: id in us ==> us[id].status != BACKLOG
  {
    var ts1 := Advance(ts, t, s).1;
    if t in ts1 { CascadeExact(ts1, ts1[t].dependents); }
  }

  lemma {:induction false} NoBacklogRun(ops: seq<Op>)
    requires forall op :: op in ops ==> !(op.DoStatus? && op.status == BACKLOG)
    ensures forall id :: id in Run(ops) ==> Run(ops)[id].status != BACKLOG
  {
    if ops != [] {
      NoBacklogRun(ops[..|ops| - 1]);
      NoBacklogStep(Run(ops[..|ops| - 1]), ops[|ops| - 1]);
    }
  }

  /** In every run that never moves a task back to BACKLOG, completing a task succeeds and
      leaves no dependent PLANNED with all its prerequisites completed. */
  lemma {:induction false} RunWakesDependents(ops: seq<Op>, t: Id)
    requires forall op :: op in ops ==> !(op.DoStatus? && op.status == BACKLOG)
    requires Advance(Run(ops), t, COMPLETED).0 == Ok
    ensures var (o, us) := SetStatus(Run(ops), t, COMPLETED);
            o == Ok && forall d :: d in us && t in us[d].dependencies ==> !Startable(us, d)
  {
    var ts := Run(ops);
    RunShape(ops);
    NoBacklogRun(ops);
    CompletionWakesDependents(ts, t);
    var ts1 := WithStatus(ts, t, COMPLETED);
    var ds := ts1[t].dependents;
    ReachedAll(ts1, ds);
    var us := SetStatus(ts, t, COMPLETED).1;
    CascadeKeepsEdges(ts1, ds);
    forall d | d in us && t in us[d].dependencies
      ensures !Startable(us, d)
    {
      if d == t {
        SelfEdgeIsCycle(DependencyGraph(ts), t);
        assert false;
      }
      assert d in ts[t].dependents;
    }
  }

  lemma {:induction false} ReachedAll(ts: Tasks, ds: seq<Id>)
    requires forall d :: d in ds ==> !Stuck(ts, d)
    ensures Reached(ts, ds) == ds
    decreases |ds|
  {
    if ds != [] {
      ReachedAll(ts, ds[1..]);
    }
  }
}
