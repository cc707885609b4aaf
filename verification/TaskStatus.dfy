/** What creating a task, changing its status and its retry timer do, written out by outcome
    (packages/control-plane/src). */
module TaskStatus {
  import opened Digraph
  import opened TaskModel

  /** From where a status can be reached. */
  function Sources(s: Status): set<Status> {
    match s
    case DRAFT => {}
    case UNDERSTANDING => {DRAFT, AWAITING_CLARIFICATION}
    case PLANNING => {DRAFT, UNDERSTANDING, AWAITING_CLARIFICATION, BACKLOG, FAILED, CANCELLED, BLOCKED}
    case AWAITING_CLARIFICATION => {UNDERSTANDING}
    case AWAITING_APPROVAL => {PLANNING}
    case BACKLOG => {DRAFT, PLANNED}
    case PLANNED => {PLANNING, AWAITING_APPROVAL, BACKLOG, QUEUED, FAILED, CANCELLED}
    case QUEUED => {PLANNING, AWAITING_APPROVAL, PLANNED, RETRY, BLOCKED}
    case RUNNING => {QUEUED, PAUSED, VERIFYING, RETRY}
    case EXECUTING => {QUEUED, RUNNING, PAUSED, VERIFYING, RETRY}
    case PAUSED => {RUNNING, EXECUTING}
    case VERIFYING => {RUNNING, EXECUTING}
    case COMPLETED => {RUNNING, EXECUTING, VERIFYING}
    case FAILED => {UNDERSTANDING, PLANNING, AWAITING_APPROVAL, RUNNING, EXECUTING, PAUSED, VERIFYING, RETRY, BLOCKED}
    case RETRY => {RUNNING, EXECUTING, VERIFYING, FAILED, BLOCKED}
    case CANCELLED =>
      {DRAFT, UNDERSTANDING, PLANNING, AWAITING_CLARIFICATION, AWAITING_APPROVAL, BACKLOG, PLANNED, QUEUED, RUNNING,
       EXECUTING, PAUSED, RETRY, BLOCKED}
    case BLOCKED => {PLANNING, AWAITING_APPROVAL, PLANNED, QUEUED, RUNNING, EXECUTING}
  }

  predicate Early(s: Status) {
    s.DRAFT? || s.UNDERSTANDING? || s.PLANNING? || s.AWAITING_CLARIFICATION? || s.AWAITING_APPROVAL? || s.BACKLOG?
    || s.PLANNED? || s.QUEUED?
  }

  lemma {:induction false} EarlyTransitions(s: Status, t: Status)
    requires Early(t)
    ensures t in Successors(s) <==> s in Sources(t)
  {
  }

  lemma {:induction false} LateTransitions(s: Status, t: Status)
    requires !Early(t)
    ensures t in Successors(s) <==> s in Sources(t)
  {
  }

  lemma {:induction false} TransitionsBothWays(s: Status, t: Status)
    ensures t in Successors(s) <==> s in Sources(t)
  {
    if Early(t) { EarlyTransitions(s, t); } else { LateTransitions(s, t); }
  }

  /** Some prerequisite is missing or not completed. */
  ghost predicate Hindered(ts: Tasks, id: Id)
    requires id in ts
  {
    exists k :: 0 <= k < |ts[id].dependencies| && Unfinished(ts, ts[id].dependencies[k])
  }

  predicate Unfinished(ts: Tasks, d: Id) {
    d !in ts || ts[d].status != COMPLETED
  }

  lemma {:induction false} HinderedExactly(ts: Tasks, id: Id)
    requires id in ts
    ensures Hindered(ts, id) <==> !Fulfilled(ts, id)
  {
    if !Fulfilled(ts, id) {
      var d :| d in ts[id].dependencies && !Completed(ts, d);
      var k :| 0 <= k < |ts[id].dependencies| && ts[id].dependencies[k] == d;
      assert Unfinished(ts, ts[id].dependencies[k]);
    } else {
      assert forall k :: 0 <= k < |ts[id].dependencies| ==> ts[id].dependencies[k] in ts[id].dependencies;
    }
  }

  /** A status change fails for an unknown task, for a status that cannot be reached from the
      task's, and for a move to QUEUED or RUNNING with an unfinished prerequisite, in this order,
      and then changes nothing. Otherwise the task gets the status, keeps all else, and no other
      task changes unless it was completed. */
  lemma {:induction false} StatusExactly(ts: Tasks, id: Id, s: Status)
    ensures var (o, us) := SetStatus(ts, id, s);
            if id !in ts then o == NotFound && us == ts
            else if ts[id].status !in Sources(s) then o == IllegalTransition && us == ts
            else if (s == QUEUED || s == RUNNING) && Hindered(ts, id) then o == Unfulfilled && us == ts
            else
              && us.Keys == ts.Keys && us[id] == ts[id].(status := s)
              && (s != COMPLETED ==> o == Ok && us == ts[id := ts[id].(status := s)])
  {
    if id in ts {
      TransitionsBothWays(ts[id].status, s);
      HinderedExactly(ts, id);
      if ts[id].status in Sources(s) && s == COMPLETED {
        CompletedStays(ts, id);
      }
    }
  }

  lemma {:induction false} CompletedStays(ts: Tasks, id: Id)
    requires id in ts && COMPLETED in Successors(ts[id].status)
    ensures var us := SetStatus(ts, id, COMPLETED).1; us.Keys == ts.Keys && us[id] == ts[id].(status := COMPLETED)
  {
    var ts1 := WithStatus(ts, id, COMPLETED);
    CascadeExact(ts1, ts1[id].dependents);
  }

  /** The timer of a retry queues the task exactly when it still waits for its retry and nothing
      hinders it, and otherwise changes nothing. */
  lemma {:induction false} RequeueExactly(ts: Tasks, id: Id)
    ensures var us := Requeue(ts, id).1;
            us == if id in ts && ts[id].status == RETRY && !Hindered(ts, id) then ts[id := ts[id].(status := QUEUED)]
                  else ts
  {
    StatusExactly(ts, id, QUEUED);
  }

  /** Creating a task fails for a known id and for a missing prerequisite, in this order, and then
      changes nothing. Otherwise the new task has its prerequisites, no dependents and no retries,
      is queued if it needs nothing and planned if it does; and exactly its prerequisites list it
      among their dependents, all else unchanged. */
  lemma {:induction false} CreateExactly(ts: Tasks, id: Id, deps: seq<Id>, maxRetries: int)
    ensures var (o, us) := Create(ts, id, deps, maxRetries);
            if id in ts then o == AlreadyExists && us == ts
            else if exists k :: 0 <= k < |deps| && deps[k] !in ts then o == MissingPrerequisite && us == ts
            else
              && o == Ok && us.Keys == ts.Keys + {id}
              && us[id].status == (if |deps| == 0 then QUEUED else PLANNED)
              && us[id].dependencies == deps && us[id].dependents == []
              && us[id].retries == 0 && us[id].maxRetries == maxRetries
              && forall x :: x in ts ==>
                   && us[x] == ts[x].(dependents := us[x].dependents)
                   && forall y :: y in us[x].dependents <==> y in ts[x].dependents || (y == id && x in deps)
  {
    if id !in ts && !(exists d | d in deps :: d !in ts) {
      CreateEffect(ts, id, deps, maxRetries);
      assert forall k :: 0 <= k < |deps| ==> deps[k] in deps;
    }
  }
}
