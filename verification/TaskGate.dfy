/** Which runs start no task before its prerequisites, how often a task is retried, and runs
    of the task controller written out (packages/control-plane/src/TaskController.ts). */
module TaskGate {
  import opened Digraph
  import opened TaskModel

  // ---------------------------------------------------------------- work under way

  predicate Busy(s: Status) {
    s == RUNNING || s == EXECUTING || s == VERIFYING
  }

  /** Every task that is being worked on has its current prerequisites completed. */
  ghost predicate Ready(ts: Tasks) {
    forall id :: id in ts && Busy(ts[id].status) ==> Fulfilled(ts, id)
  }

  /** The call adds `p` to the prerequisites of another task `t`: `p` is none of them yet, and
      does not itself depend on `t`. */
  ghost predicate Adds(ts: Tasks, t: Id, p: Id) {
    t != p && t in ts && p in ts && p !in ts[t].dependencies && !Reaches(DependencyGraph(ts), p, t)
  }

  /** The operation starts no unready task by way of EXECUTING, gives no busy task a new
      uncompleted prerequisite, and forces no retry of a completed one that a busy task needs. */
  ghost predicate Orderly(ts: Tasks, op: Op) {
    match op
    case DoCreate(_, _, _) => true
    case DoLink(t, p) => !(Adds(ts, t, p) && Busy(ts[t].status) && !Completed(ts, p))
    case DoStatus(id, s) =>
      !(s == EXECUTING && id in ts && EXECUTING in Successors(ts[id].status) && !Fulfilled(ts, id))
    case DoRetry(id, force) =>
      !(force && Completed(ts, id) && exists d :: d in ts && Busy(ts[d].status) && id in ts[d].dependencies)
    case DoRequeue(_) => true
  }

  /** When a move to EXECUTING, which nothing gates, starts a task too early. */
  lemma {:induction false} ExecutingExactly(ts: Tasks, id: Id)
    ensures var (o, us) := SetStatus(ts, id, EXECUTING);
            o == Ok && us[id].status == EXECUTING && !Fulfilled(us, id) <==>
              id in ts && ts[id].status in {QUEUED, RUNNING, PAUSED, VERIFYING, RETRY} && !Fulfilled(ts, id)
  {
    if id in ts && EXECUTING in Successors(ts[id].status) {
      assert forall d :: Completed(WithStatus(ts, id, EXECUTING), d) <==> Completed(ts, d);
    }
  }

  lemma {:induction false} CreateReady(ts: Tasks, id: Id, deps: seq<Id>, maxRetries: int)
    requires References(ts) && Ready(ts)
    ensures Ready(Create(ts, id, deps, maxRetries).1)
  {
    var (o, us) := Create(ts, id, deps, maxRetries);
    if o == Ok {
      CreateEffect(ts, id, deps, maxRetries);
      assert forall d :: d in ts ==> (Completed(us, d) <==> Completed(ts, d));
    }
  }

  /** What a link does to the prerequisites: nothing, or it adds one. */
  lemma {:induction false} LinkEffect(ts: Tasks, t: Id, p: Id)
    requires WellFormed(ts)
    ensures var us := AddDependency(ts, t, p).1;
            && us.Keys == ts.Keys
            && (forall d :: d in ts ==> us[d].status == ts[d].status)
            && (forall d :: d in ts && d != t ==> us[d].dependencies == ts[d].dependencies)
            && (t in ts ==>
                  us[t].dependencies == if Adds(ts, t, p) then ts[t].dependencies + [p] else ts[t].dependencies)
  {
    LinkRejectedExactly(ts, t, p);
  }

  lemma {:induction false} LinkReady(ts: Tasks, t: Id, p: Id)
    requires WellFormed(ts) && Ready(ts)
    ensures Ready(AddDependency(ts, t, p).1) <==> Orderly(ts, DoLink(t, p))
  {
    var us := AddDependency(ts, t, p).1;
    LinkEffect(ts, t, p);
    assert forall d :: Completed(us, d) <==> Completed(ts, d);
    assert forall d :: d in ts && d != t ==> (Fulfilled(us, d) <==> Fulfilled(ts, d));
    if t in ts {
      assert Fulfilled(us, t) <==> Fulfilled(ts, t) && (Adds(ts, t, p) ==> Completed(ts, p));
    }
  }

  /** A plain status change; completions only help. */
  lemma {:induction false} AdvanceReady(ts: Tasks, id: Id, s: Status)
    requires Ready(ts)
    ensures Ready(Advance(ts, id, s).1) <==> Orderly(ts, DoStatus(id, s))
  {
    var (o, us) := Advance(ts, id, s);
    if o == Ok {
      AdvanceEffect(ts, us, id, s);
      OnlyOneMoves(ts, us, id, s);
      assert Busy(s) && !Busy(ts[id].status) ==> s == RUNNING || s == EXECUTING;
    }
  }

  lemma {:induction false} OnlyOneMoves(ts: Tasks, us: Tasks, id: Id, s: Status)
    requires Ready(ts) && id in ts && us == WithStatus(ts, id, s)
    requires forall d :: d in ts && Fulfilled(ts, d) ==> Fulfilled(us, d)
    ensures Ready(us) <==> (Busy(s) ==> Fulfilled(us, id))
  {
  }

  lemma {:induction false} AdvanceEffect(ts: Tasks, us: Tasks, id: Id, s: Status)
    requires id in ts && !Completed(ts, id) && us == WithStatus(ts, id, s)
    ensures forall d :: d in ts && Fulfilled(ts, d) ==> Fulfilled(us, d)
    ensures s != COMPLETED ==> (Fulfilled(us, id) <==> Fulfilled(ts, id))
  {
    assert forall d :: Completed(us, d) <==> Completed(ts, d) || (d == id && s == COMPLETED);
  }

  lemma {:induction false} StatusReady(ts: Tasks, id: Id, s: Status)
    requires Ready(ts)
    ensures Ready(SetStatus(ts, id, s).1) <==> Orderly(ts, DoStatus(id, s))
  {
    var (o, ts1) := Advance(ts, id, s);
    AdvanceReady(ts, id, s);
    if o == Ok && s == COMPLETED {
      var ds := ts1[id].dependents;
      CascadeExact(ts1, ds);
      CascadeKeepsCompleted(ts1, ds);
      var us := Cascade(ts1, ds).1;
      assert forall d :: d in us && Busy(us[d].status) ==> us[d] == ts1[d];
    }
  }

  lemma {:induction false} RetryReady(ts: Tasks, id: Id, force: bool)
    requires Ready(ts)
    ensures Ready(Retry(ts, id, force).1) <==> Orderly(ts, DoRetry(id, force))
  {
    var (o, us) := Retry(ts, id, force);
    if o == Ok {
      assert forall d :: Completed(us, d) <==> Completed(ts, d) && d != id;
      if Completed(ts, id) && exists d :: d in ts && Busy(ts[d].status) && id in ts[d].dependencies {
        var d :| d in ts && Busy(ts[d].status) && id in ts[d].dependencies;
        assert us[d] == ts[d] && !Fulfilled(us, d);
      } else {
        forall d | d in us && Busy(us[d].status)
          ensures Fulfilled(us, d)
        {
          assert us[d] == ts[d] && Fulfilled(ts, d);
        }
      }
    }
  }

  /** Exactly the orderly operations keep the work under way ready. */
  lemma {:induction false} ReadyExactly(ts: Tasks, op: Op)
    requires WellFormed(ts) && Ready(ts)
    ensures Ready(Step(ts, op).1) <==> Orderly(ts, op)
  {
    match op
    case DoCreate(id, deps, maxRetries) => CreateReady(ts, id, deps, maxRetries);
    case DoLink(t, p) => LinkReady(ts, t, p);
    case DoStatus(id, s) => StatusReady(ts, id, s);
    case DoRetry(id, force) => RetryReady(ts, id, force);
    case DoRequeue(id) => StatusReady(ts, id, QUEUED);
  }

  ghost predicate AlwaysReady(ops: seq<Op>) {
    Ready(Run(ops)) && (ops != [] ==> AlwaysReady(ops[..|ops| - 1]))
  }

  ghost predicate OrderlyRun(ops: seq<Op>) {
    ops != [] ==> OrderlyRun(ops[..|ops| - 1]) && Orderly(Run(ops[..|ops| - 1]), ops[|ops| - 1])
  }

  /** At every moment of a run each task in RUNNING, EXECUTING or VERIFYING has its current
      prerequisites completed, if and only if every operation of the run was orderly. */
  lemma {:induction false} ReadyRuns(ops: seq<Op>)
    ensures AlwaysReady(ops) <==> OrderlyRun(ops)
  {
    if ops != [] {
      var before := ops[..|ops| - 1];
      ReadyRuns(before);
      RunShape(before);
      if AlwaysReady(before) {
        ReadyExactly(Run(before), ops[|ops| - 1]);
      }
    }
  }

  // ---------------------------------------------------------------- retries

  /** How many retries of the task the run has accepted, forced ones included. */
  ghost function AcceptedRetries(ops: seq<Op>, id: Id): nat {
    if ops == [] then 0
    else
      var before, op := ops[..|ops| - 1], ops[|ops| - 1];
      AcceptedRetries(before, id)
      + if op.DoRetry? && op.id == id && Step(Run(before), op).0 == Ok then 1 else 0
  }

  /** The limit that the task was created with. */
  ghost function LimitOf(ops: seq<Op>, id: Id): int {
    if ops == [] then 0
    else
      var before, op := ops[..|ops| - 1], ops[|ops| - 1];
      if op.DoCreate? && op.id == id && Step(Run(before), op).0 == Ok then op.maxRetries else LimitOf(before, id)
  }

  /** The task's record of its retries tells how many were accepted, and the limit. */
  ghost predicate Records(ts: Tasks, id: Id, accepted: nat, limit: int) {
    if id in ts then ts[id].retries == accepted && ts[id].maxRetries == limit else accepted == 0
  }

  /** Operations other than retries and creations keep every task's two retry counts. */
  lemma {:induction false} OthersKeepCounts(ts: Tasks, op: Op)
    requires !op.DoRetry? && !op.DoCreate?
    ensures var us := Step(ts, op).1;
            && us.Keys == ts.Keys
            && forall id :: id in ts ==> us[id].retries == ts[id].retries && us[id].maxRetries == ts[id].maxRetries
  {
    match op
    case DoLink(t, p) =>
    case DoStatus(id, s) => StatusKeepsCounts(ts, id, s);
    case DoRequeue(id) => StatusKeepsCounts(ts, id, QUEUED);
  }

  lemma {:induction false} StatusKeepsCounts(ts: Tasks, id: Id, s: Status)
    ensures var us := SetStatus(ts, id, s).1;
            && us.Keys == ts.Keys
            && forall x :: x in ts ==> us[x].retries == ts[x].retries && us[x].maxRetries == ts[x].maxRetries
  {
    var (o, ts1) := Advance(ts, id, s);
    if o == Ok && s == COMPLETED { CascadeExact(ts1, ts1[id].dependents); }
  }

  lemma {:induction false} CreateCounts(ts: Tasks, x: Id, deps: seq<Id>, maxRetries: int, id: Id)
    requires Create(ts, x, deps, maxRetries).0 == Ok
    ensures var us := Create(ts, x, deps, maxRetries).1;
            && x !in ts && us.Keys == ts.Keys + {x} && us[x].retries == 0 && us[x].maxRetries == maxRetries
            && (id in ts ==> us[id].retries == ts[id].retries && us[id].maxRetries == ts[id].maxRetries)
  {
    CreateEffect(ts, x, deps, maxRetries);
  }

  lemma {:induction false} StepRecords(ts: Tasks, op: Op, id: Id, accepted: nat, limit: int)
    requires Records(ts, id, accepted, limit)
    ensures var (o, us) := Step(ts, op);
            Records(us, id, accepted + if op.DoRetry? && op.id == id && o == Ok then 1 else 0,
                    if op.DoCreate? && op.id == id && o == Ok then op.maxRetries else limit)
  {
    if op.DoCreate? {
      if Create(ts, op.id, op.deps, op.maxRetries).0 == Ok {
        CreateCounts(ts, op.id, op.deps, op.maxRetries, id);
      }
    } else if !op.DoRetry? {
      OthersKeepCounts(ts, op);
    }
  }

  lemma {:induction false} RunRecords(ops: seq<Op>, id: Id)
    ensures Records(Run(ops), id, AcceptedRetries(ops, id), LimitOf(ops, id))
  {
    if ops != [] {
      var before, op := ops[..|ops| - 1], ops[|ops| - 1];
      RunRecords(before, id);
      StepRecords(Run(before), op, id, AcceptedRetries(before, id), LimitOf(before, id));
    }
  }

  /** After any run an unforced retry is accepted if and only if the task has failed and fewer
      retries of it were accepted so far than the limit it was created with; a forced one whenever
      the task exists. It then waits for its retry, and nothing else has changed. */
  lemma {:induction false} RetryExactly(ops: seq<Op>, id: Id, force: bool)
    ensures var ts := Run(ops);
            var (o, us) := Step(ts, DoRetry(id, force));
            && (o == NotFound <==> id !in ts)
            && (o == IllegalTransition <==> id in ts && !force && ts[id].status != FAILED)
            && (o == Exhausted <==>
                  id in ts && !force && ts[id].status == FAILED && AcceptedRetries(ops, id) >= LimitOf(ops, id))
            && (o == Ok <==>
                  id in ts && (force || (ts[id].status == FAILED && AcceptedRetries(ops, id) < LimitOf(ops, id))))
            && (o != Ok ==> us == ts)
            && (o == Ok ==>
                  && us.Keys == ts.Keys && us[id].status == RETRY
                  && us[id].dependencies == ts[id].dependencies && us[id].dependents == ts[id].dependents
                  && forall x :: x in ts && x != id ==> us[x] == ts[x])
  {
    RunRecords(ops, id);
  }

  /** Unless a retry is forced, no more retries of a task are ever accepted than its limit. */
  lemma {:induction false} RetriesAreBounded(ops: seq<Op>, id: Id)
    requires forall op :: op in ops ==> !(op.DoRetry? && op.force)
    ensures id in Run(ops) ==> AcceptedRetries(ops, id) == 0 || AcceptedRetries(ops, id) <= LimitOf(ops, id)
    ensures id !in Run(ops) ==> AcceptedRetries(ops, id) == 0
  {
    RunRecords(ops, id);
    if ops != [] {
      var before, op := ops[..|ops| - 1], ops[|ops| - 1];
      RunRecords(before, id);
      RetriesAreBounded(before, id);
      if op.DoRetry? {
        RetryExactly(before, op.id, op.force);
      }
    }
  }

  // ---------------------------------------------------------------- runs written out

  const A := Id("a")
  const B := Id("b")
  const C := Id("c")

  lemma {:induction false} RunStep(ops: seq<Op>, op: Op)
    ensures Run(ops + [op]) == Step(Run(ops), op).1
  {
    assert (ops + [op])[..|ops|] == ops;
  }

  function New(status: Status, deps: seq<Id>, dependents: seq<Id>): Task {
    Task(status, deps, dependents, 0, 3)
  }

  lemma {:induction false} FirstCreated()
    ensures Run([DoCreate(A, [], 3)]) == map[A := New(QUEUED, [], [])]
  {
    RunStep([], DoCreate(A, [], 3));
    assert [] + [DoCreate(A, [], 3)] == [DoCreate(A, [], 3)];
  }

  lemma {:induction false} DependentCreated(ops: seq<Op>, ts: Tasks, id: Id)
    requires Run(ops) == ts && A in ts && id !in ts && Distinct(ts[A].dependents + [id])
    ensures Run(ops + [DoCreate(id, [A], 3)])
         == ts[A := ts[A].(dependents := ts[A].dependents + [id])][id := New(PLANNED, [A], [])]
  {
    RunStep(ops, DoCreate(id, [A], 3));
    OnceOfDistinct(ts[A].dependents + [id]);
    var t := ts[id := New(BACKLOG, [A], [])];
    var t' := t[A := t[A].(dependents := t[A].dependents + [id])];
    assert [A][1..] == [] && LinkDependents(t', id, []) == t';
    assert LinkDependents(t, id, [A]) == t';
  }

  lemma {:induction false} StatusSet(ops: seq<Op>, ts: Tasks, id: Id, s: Status)
    requires Run(ops) == ts && id in ts && s in Successors(ts[id].status) && s != COMPLETED && s != QUEUED
    requires s == RUNNING ==> Fulfilled(ts, id)
    ensures Run(ops + [DoStatus(id, s)]) == WithStatus(ts, id, s)
  {
    RunStep(ops, DoStatus(id, s));
  }

  lemma {:induction false} OnceOfDistinct(s: seq<Id>)
    requires Distinct(s)
    ensures Once(s) == s
  {
    if s != [] {
      var n := |s| - 1;
      OnceOfDistinct(s[..n]);
      assert s == s[..n] + [s[n]];
    }
  }

  /** Three status changes in a row, none of them gated or completing. */
  lemma {:induction false} Moves(ops: seq<Op>, ts: Tasks, x: Id, s: Status, y: Id, t: Status, z: Id, u: Status)
    requires Run(ops) == ts && {x, y, z} <= ts.Keys
    requires Moved(ts, x, s) && Moved(WithStatus(ts, x, s), y, t)
    requires Moved(WithStatus(WithStatus(ts, x, s), y, t), z, u)
    ensures Run(ops + [DoStatus(x, s)] + [DoStatus(y, t)]) == WithStatus(WithStatus(ts, x, s), y, t)
    ensures Run(ops + [DoStatus(x, s)] + [DoStatus(y, t)] + [DoStatus(z, u)])
         == WithStatus(WithStatus(WithStatus(ts, x, s), y, t), z, u)
  {
    var ts1 := WithStatus(ts, x, s);
    StatusSet(ops, ts, x, s);
    StatusSet(ops + [DoStatus(x, s)], ts1, y, t);
    StatusSet(ops + [DoStatus(x, s)] + [DoStatus(y, t)], WithStatus(ts1, y, t), z, u);
  }

  predicate Moved(ts: Tasks, id: Id, s: Status) {
    && id in ts && s in Successors(ts[id].status) && s != COMPLETED && s != QUEUED
    && (s == RUNNING ==> Fulfilled(ts, id))
  }

  function Single(): seq<Op> {
    [DoCreate(A, [], 3)]
  }

  function Pair(): seq<Op> {
    Single() + [DoCreate(B, [A], 3)]
  }

  function Triple(): seq<Op> {
    Pair() + [DoCreate(C, [A], 3)]
  }

  function PairTasks(): Tasks {
    map[A := New(QUEUED, [], [B]), B := New(PLANNED, [A], [])]
  }

  function TripleTasks(): Tasks {
    map[A := New(QUEUED, [], [B, C]), B := New(PLANNED, [A], []), C := New(PLANNED, [A], [])]
  }

  lemma {:induction false} PairCreated()
    ensures Run(Pair()) == PairTasks()
  {
    FirstCreated();
    PairFrom(Single());
  }

  lemma {:induction false} PairFrom(ops: seq<Op>)
    requires Run(ops) == map[A := New(QUEUED, [], [])]
    ensures Run(ops + [DoCreate(B, [A], 3)]) == PairTasks()
  {
    assert [] + [B] == [B];
    AddsDependent(ops, Run(ops), [], B);
  }

  lemma {:induction false} TripleCreated()
    ensures Run(Triple()) == TripleTasks()
  {
    PairCreated();
    TripleFrom(Pair());
  }

  lemma {:induction false} TripleFrom(ops: seq<Op>)
    requires Run(ops) == PairTasks()
    ensures Run(ops + [DoCreate(C, [A], 3)]) == TripleTasks()
  {
    assert [B] + [C] == [B, C];
    AddsDependent(ops, PairTasks(), [B], C);
  }

  lemma {:induction false} AddsDependent(ops: seq<Op>, ts: Tasks, dependents: seq<Id>, id: Id)
    requires Run(ops) == ts && A in ts && id !in ts && ts[A] == New(QUEUED, [], dependents)
    requires Distinct(dependents + [id])
    ensures Run(ops + [DoCreate(id, [A], 3)])
         == ts[A := New(QUEUED, [], dependents + [id])][id := New(PLANNED, [A], [])]
  {
    DependentCreated(ops, ts, id);
  }

  /** A task linked to itself is not refused and gets no prerequisite, but is listed among its
      own dependents. */
  lemma {:induction false} SelfLinkIsKept()
    ensures AddDependency(Run(Single()), A, A).0 == Ok
    ensures Run(Single() + [DoLink(A, A)]) == map[A := New(QUEUED, [], [A])]
  {
    FirstCreated();
    var ts := Run(Single());
    assert WellFormed(ts) by { RunShape(Single()); }
    LinkRejectedExactly(ts, A, A);
    RunStep(Single(), DoLink(A, A));
    assert [] + [A] == [A];
  }

  function UngatedRun(): seq<Op> {
    Pair() + [DoStatus(B, BLOCKED)] + [DoStatus(B, RETRY)] + [DoStatus(B, EXECUTING)]
  }

  /** EXECUTING is not gated: in this run `b` executes while its prerequisite is queued. */
  lemma {:induction false} ExecutesTooEarly()
    ensures var ts := Run(UngatedRun());
            && A in ts && ts[A].status == QUEUED
            && B in ts && ts[B].status == EXECUTING && ts[B].dependencies == [A] && !Fulfilled(ts, B)
  {
    PairCreated();
    Moves(Pair(), PairTasks(), B, BLOCKED, B, RETRY, B, EXECUTING);
    assert A in Run(UngatedRun())[B].dependencies;
  }

  function StrandingRun(): seq<Op> {
    Triple() + [DoStatus(B, BACKLOG)] + [DoStatus(A, RUNNING)]
  }

  lemma {:induction false} StrandingState()
    ensures Run(StrandingRun())
         == map[A := New(RUNNING, [], [B, C]), B := New(BACKLOG, [A], []), C := New(PLANNED, [A], [])]
  {
    TripleCreated();
    StrandingFrom(Triple());
  }

  lemma {:induction false} StrandingFrom(ops: seq<Op>)
    requires Run(ops) == TripleTasks()
    ensures Run(ops + [DoStatus(B, BACKLOG)] + [DoStatus(A, RUNNING)])
         == map[A := New(RUNNING, [], [B, C]), B := New(BACKLOG, [A], []), C := New(PLANNED, [A], [])]
  {
    Moves(ops, TripleTasks(), B, BACKLOG, A, RUNNING, A, EXECUTING);
  }

  /** Completing `a` in this run throws at its BACKLOG dependent `b` and strands the startable
      dependent `c` behind it. */
  lemma {:induction false} BacklogStrandsDependents()
    ensures var (o, us) := SetStatus(Run(StrandingRun()), A, COMPLETED);
            o == IllegalTransition && Completed(us, A) && Startable(us, C)
  {
    StrandingState();
    CompletionStrands(Run(StrandingRun()));
  }

  lemma {:induction false} CompletionStrands(ts: Tasks)
    requires ts == map[A := New(RUNNING, [], [B, C]), B := New(BACKLOG, [A], []), C := New(PLANNED, [A], [])]
    ensures var (o, us) := SetStatus(ts, A, COMPLETED);
            o == IllegalTransition && Completed(us, A) && Startable(us, C)
  {
    var ts1 := WithStatus(ts, A, COMPLETED);
    assert Stuck(ts1, B);
    assert Cascade(ts1, [B, C]) == (IllegalTransition, ts1);
  }
}
