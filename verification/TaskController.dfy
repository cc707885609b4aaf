/** The task controller itself (packages/control-plane/src/TaskController.ts): a map of
    records rewritten in place, searched depth-first after every change. */
module TaskController {
  import opened Digraph
  import opened TaskModel

  lemma {:induction false} LinkKeepsGraph(ts: Tasks, id: Id, deps: seq<Id>)
    requires forall d :: d in deps ==> d in ts
    ensures DependencyGraph(LinkDependents(ts, id, deps)) == DependencyGraph(ts)
  {
    LinkDependentsEffect(ts, id, deps);
  }

  lemma {:induction false} EnumeratesMore(keys: seq<Id>, ids: set<Id>, id: Id)
    requires Enumerates(keys, ids) && id !in ids
    ensures Enumerates(keys + [id], ids + {id})
  {
    assert id !in keys;
  }

  /** The intermediate map that `createTask` checks has the graph of its final result. */
  lemma {:induction false} IntermediateGraph(ts: Tasks, id: Id, deps: seq<Id>, maxRetries: int)
    requires WellFormed(ts) && Create(ts, id, deps, maxRetries).0 == Ok
    ensures !Cyclic(DependencyGraph(LinkDependents(ts[id := Task(BACKLOG, deps, [], 0, maxRetries)], id, deps)))
  {
    CreateKeepsWellFormed(ts, id, deps, maxRetries);
    var initial := ts[id := Task(BACKLOG, deps, [], 0, maxRetries)];
    var linked := LinkDependents(initial, id, deps);
    LinkKeepsGraph(initial, id, deps);
    assert linked[id].dependencies == DependencyGraph(linked)[id];
    assert DependencyGraph(linked) == DependencyGraph(Create(ts, id, deps, maxRetries).1);
  }

  class TaskController {
    var tasks: Tasks
    var keys: seq<Id>  // the insertion order in which the map is iterated

    ghost predicate Valid()
      reads this
    {
      Enumerates(keys, tasks.Keys) && WellFormed(tasks)
    }

    constructor ()
      ensures Valid() && tasks == map[] && keys == []
    {
      tasks, keys := map[], [];
      SettledIsAcyclic(DependencyGraph(map[]), []);
    }

    method CheckNoCycles() returns (verdict: Verdict)
      requires Enumerates(keys, tasks.Keys)
      ensures verdict.CycleFound? <==> Cyclic(DependencyGraph(tasks))
      ensures verdict.CycleFound? ==> CyclePath(DependencyGraph(tasks), verdict.path)
    {
      verdict := ValidateNoCycles(DependencyGraph(tasks), keys);
    }

    method CreateTask(id: Id, deps: seq<Id>, maxRetries: int) returns (outcome: Outcome)
      requires Valid()
      modifies this
      ensures Valid()
      ensures (outcome, tasks) == Create(old(tasks), id, deps, maxRetries)
      ensures keys == if outcome == Ok then old(keys) + [id] else old(keys)
    {
      if id in tasks {
        return AlreadyExists;
      }
      if exists d | d in deps :: d !in tasks {
        return MissingPrerequisite;
      }
      InsertTask(id, deps, maxRetries);
      CreateKeepsWellFormed(old(tasks), id, deps, maxRetries);
      outcome := Ok;
    }

    method InsertTask(id: Id, deps: seq<Id>, maxRetries: int)
      requires Valid() && Create(tasks, id, deps, maxRetries).0 == Ok
      modifies this
      ensures tasks == Create(old(tasks), id, deps, maxRetries).1 && keys == old(keys) + [id]
      ensures Enumerates(keys, tasks.Keys)
    {
      var task := Task(BACKLOG, deps, [], 0, maxRetries);
      EnumeratesMore(keys, tasks.Keys, id);
      tasks, keys := tasks[id := task], keys + [id];
      RegisterDependent(id, deps);
      IntermediateGraph(old(tasks), id, deps, maxRetries);
      var verdict := CheckNoCycles();
      assert verdict.Acyclic?;
      if deps == [] {
        tasks := tasks[id := task.(status := QUEUED)];
      } else {
        tasks := tasks[id := task.(status := PLANNED)];
      }
    }

    method RegisterDependent(id: Id, deps: seq<Id>)
      requires forall d :: d in deps ==> d in tasks
      modifies `tasks
      ensures tasks == LinkDependents(old(tasks), id, deps)
    {
      var j := 0;
      while j < |deps|
        invariant 0 <= j <= |deps|
        invariant tasks.Keys == old(tasks).Keys
        invariant LinkDependents(tasks, id, deps[j..]) == LinkDependents(old(tasks), id, deps)
      {
        var dep := tasks[deps[j]];
        var dependents := Once(dep.dependents + [id]);
        assert deps[j..][0] == deps[j] && deps[j..][1..] == deps[j + 1..];
        tasks := tasks[deps[j] := dep.(dependents := dependents)];
        j := j + 1;
      }
    }

    /** A rejected link leaves the task map exactly as it was and names a genuine cycle of
        the graph that the link would have produced. */
    method AddDependency(t: Id, p: Id) returns (outcome: Outcome, cycle: seq<Id>)
      requires Valid()
      modifies this
      ensures Valid() && keys == old(keys)
      ensures (outcome, tasks) == TaskModel.AddDependency(old(tasks), t, p)
      ensures outcome == CycleRejected ==>
                tasks == old(tasks) && CyclePath(DependencyGraph(Link(old(tasks), t, p)), cycle)
    {
      AddDependencyShape(tasks, t, p);
      if t !in tasks || p !in tasks {
        return NotFound, [];
      }
      if p in tasks[t].dependencies {
        return Ok, [];
      }
      cycle := LinkOrRollBack(t, p);
      outcome := if cycle == [] then Ok else CycleRejected;
    }

    method LinkOrRollBack(t: Id, p: Id) returns (cycle: seq<Id>)
      requires Enumerates(keys, tasks.Keys) && t in tasks && p in tasks
      modifies `tasks
      ensures var linked := Link(old(tasks), t, p);
              if Cyclic(DependencyGraph(linked))
              then tasks == old(tasks) && CyclePath(DependencyGraph(linked), cycle)
              else tasks == linked && cycle == []
    {
      var task, depTask := tasks[t], tasks[p];
      tasks := tasks[t := task.(dependencies := task.dependencies + [p])];
      tasks := tasks[p := depTask.(dependents := depTask.dependents + [t])];
      assert tasks == Link(old(tasks), t, p);
      var verdict := CheckNoCycles();
      cycle := [];
      if verdict.CycleFound? {
        cycle := verdict.path;
        tasks := tasks[t := task];
        tasks := tasks[p := depTask];
        assert tasks == old(tasks);
      }
    }

    method UnfulfilledDependencies(id: Id) returns (missing: seq<Id>)
      ensures missing == [] <==> Fulfilled(tasks, id)
      ensures forall d :: d in missing <==>
                id in tasks && d in tasks[id].dependencies && !Completed(tasks, d)
    {
      missing := [];
      if id !in tasks {
        return;
      }
      var deps := tasks[id].dependencies;
      var j := 0;
      while j < |deps|
        invariant 0 <= j <= |deps|
        invariant forall d :: d in missing <==> d in deps[..j] && !Completed(tasks, d)
      {
        assert deps[..j + 1] == deps[..j] + [deps[j]];
        if !Completed(tasks, deps[j]) {
          missing := missing + [deps[j]];
        }
        j := j + 1;
      }
      assert deps[..j] == deps;
      if missing != [] {
        assert missing[0] in missing;
      }
    }

    method SetTaskStatus(id: Id, s: Status) returns (outcome: Outcome)
      requires Valid()
      modifies this
      ensures Valid() && keys == old(keys)
      ensures (outcome, tasks) == SetStatus(old(tasks), id, s)
      decreases if s == COMPLETED then 2 else 0
    {
      StepShape(tasks, DoStatus(id, s));
      if id !in tasks {
        return NotFound;
      }
      var task := tasks[id];
      if s !in Successors(task.status) {
        return IllegalTransition;
      }
      if s == QUEUED || s == RUNNING {
        var missing := UnfulfilledDependencies(id);
        if missing != [] {
          return Unfulfilled;
        }
      }
      tasks := tasks[id := task.(status := s)];
      outcome := Ok;
      if s == COMPLETED {
        SameEdgesKeepShape(old(tasks), tasks);
        outcome := CheckAndQueueDependents(id);
      }
    }

    method CheckAndQueueDependents(completed: Id) returns (outcome: Outcome)
      requires Valid() && completed in tasks
      modifies this
      ensures Valid() && keys == old(keys)
      ensures (outcome, tasks) == Cascade(old(tasks), old(tasks)[completed].dependents)
      decreases 1
    {
      var ds := tasks[completed].dependents;
      var j := 0;
      while j < |ds|
        invariant 0 <= j <= |ds|
        invariant Valid() && keys == old(keys)
        invariant Cascade(old(tasks), ds) == Cascade(tasks, ds[j..])
      {
        var d := ds[j];
        assert ds[j..][0] == d && ds[j..][1..] == ds[j + 1..];
        if d in tasks && (tasks[d].status == PLANNED || tasks[d].status == BACKLOG) {
          var missing := UnfulfilledDependencies(d);
          if missing == [] {
            outcome := SetTaskStatus(d, QUEUED);
            if outcome != Ok {
              return;
            }
          }
        }
        j := j + 1;
      }
      outcome := Ok;
    }

    method RetryTask(id: Id, force: bool) returns (outcome: Outcome)
      requires Valid()
      modifies this
      ensures Valid() && keys == old(keys)
      ensures (outcome, tasks) == Retry(old(tasks), id, force)
    {
      StepShape(tasks, DoRetry(id, force));
      if id !in tasks {
        return NotFound;
      }
      var task := tasks[id];
      if task.status != FAILED && !force {
        return IllegalTransition;
      }
      if task.retries >= task.maxRetries && !force {
        return Exhausted;
      }
      tasks := tasks[id := task.(status := RETRY, retries := task.retries + 1)];
      outcome := Ok;
    }

    /** The callback of the timer that a retry starts. */
    method OnRetryTimer(id: Id) returns (outcome: Outcome)
      requires Valid()
      modifies this
      ensures Valid() && keys == old(keys)
      ensures (outcome, tasks) == Requeue(old(tasks), id)
    {
      outcome := Ok;
      if id in tasks && tasks[id].status == RETRY {
        outcome := SetTaskStatus(id, QUEUED);
      }
    }

    /** Every task once, every prerequisite before the tasks that depend on it. */
    method GetTopologicalOrder() returns (order: seq<Id>)
      requires Valid()
      ensures Distinct(order) && forall id :: id in order <==> id in tasks
      ensures forall i, d :: 0 <= i < |order| && d in tasks[order[i]].dependencies ==> d in order[..i]
    {
      var g := DependencyGraph(tasks);
      order := TopologicalOrder(g, keys);
      forall i, d | 0 <= i < |order| && d in tasks[order[i]].dependencies
        ensures d in order[..i]
      {
        assert order[i] in tasks && d in tasks && Edge(g, order[i], d);
      }
    }
  }
}
