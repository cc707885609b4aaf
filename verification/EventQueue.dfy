/** The queue of the simulation clock (packages/simulation-engine/src/SimulationClock.ts): a
    stable priority queue that is drained while the callbacks it runs change it. `W` is the
    world the callbacks read and write. */
module EventQueue {

  /** `serial` counts calls of `schedule`, so it records insertion order. */
  datatype Task = Task(serial: nat, time: real, priority: real, payload: nat)

  datatype Action = Schedule(time: real, priority: real, payload: nat) | Cancel(serial: nat)

  datatype Core<W> = Core(queue: seq<Task>, next: nat, world: W)

  /** What running a task does: the new world and the calls it makes on the clock. */
  type Callback<!W> = (W, Task) -> (W, seq<Action>)

  // ---------------------------------------------------------------- operations

  /** Where `schedule` inserts: before the first later task, or one of lower priority at the
      same time; else at the end. */
  function Position(queue: seq<Task>, time: real, priority: real): (k: nat)
    ensures k <= |queue|
  {
    if queue == [] || queue[0].time > time || (queue[0].time == time && queue[0].priority < priority) then 0
    else 1 + Position(queue[1..], time, priority)
  }

  function Enqueue<W>(c: Core<W>, time: real, priority: real, payload: nat): Core<W> {
    var k := Position(c.queue, time, priority);
    c.(queue := c.queue[..k] + [Task(c.next, time, priority, payload)] + c.queue[k..], next := c.next + 1)
  }

  function Without(queue: seq<Task>, serial: nat): seq<Task> {
    if queue == [] then []
    else if queue[0].serial == serial then queue[1..]
    else [queue[0]] + Without(queue[1..], serial)
  }

  function Act<W>(c: Core<W>, a: Action): Core<W> {
    match a
    case Schedule(time, priority, payload) => Enqueue(c, time, priority, payload)
    case Cancel(serial) => c.(queue := Without(c.queue, serial))
  }

  function ActAll<W>(c: Core<W>, actions: seq<Action>): Core<W>
    decreases |actions|
  {
    if actions == [] then c else ActAll(Act(c, actions[0]), actions[1..])
  }

  /** Takes the first task off the queue and runs it. */
  function Fire<W>(run: Callback<W>, c: Core<W>): Core<W>
    requires c.queue != []
  {
    var (world, actions) := run(c.world, c.queue[0]);
    ActAll(Core(c.queue[1..], c.next, world), actions)
  }

  predicate Due<W>(c: Core<W>, target: real) {
    c.queue != [] && c.queue[0].time <= target
  }

  /** At most `n` firings of due tasks. */
  function Drain<W>(run: Callback<W>, c: Core<W>, target: real, n: nat): Core<W>
    decreases n
  {
    if n == 0 || !Due(c, target) then c else Drain(run, Fire(run, c), target, n - 1)
  }

  /** The tasks those firings run, in order. */
  function Trace<W>(run: Callback<W>, c: Core<W>, target: real, n: nat): seq<Task>
    decreases n
  {
    if n == 0 || !Due(c, target) then [] else [c.queue[0]] + Trace(run, Fire(run, c), target, n - 1)
  }

  /** Draining to `target` ends within `n` firings. */
  predicate Ends<W>(run: Callback<W>, c: Core<W>, target: real, n: nat) {
    !Due(Drain(run, c, target, n), target)
  }

  // ---------------------------------------------------------------- order

  /** Earlier time, then higher priority, then earlier insertion. */
  predicate Before(x: Task, y: Task) {
    x.time < y.time
    || (x.time == y.time && (x.priority > y.priority || (x.priority == y.priority && x.serial < y.serial)))
  }

  ghost predicate Sorted(queue: seq<Task>) {
    forall i, j :: 0 <= i < j < |queue| ==> Before(queue[i], queue[j])
  }

  ghost predicate Ordered<W>(c: Core<W>) {
    Sorted(c.queue) && forall i :: 0 <= i < |c.queue| ==> c.queue[i].serial < c.next
  }

  lemma {:induction false} PositionSplits(queue: seq<Task>, time: real, priority: real)
    requires Sorted(queue)
    ensures var k := Position(queue, time, priority);
            && (forall i :: 0 <= i < k ==>
                  queue[i].time < time || (queue[i].time == time && queue[i].priority >= priority))
            && (forall i :: k <= i < |queue| ==>
                  queue[i].time > time || (queue[i].time == time && queue[i].priority < priority))
  {
    if queue != [] && Position(queue, time, priority) != 0 {
      PositionSplits(queue[1..], time, priority);
    }
  }

  lemma {:induction false} EnqueueKeepsOrder<W>(c: Core<W>, time: real, priority: real, payload: nat)
    requires Ordered(c)
    ensures Ordered(Enqueue(c, time, priority, payload))
  {
    PositionSplits(c.queue, time, priority);
    var k, t := Position(c.queue, time, priority), Task(c.next, time, priority, payload);
    InsertedInOrder(c.queue, k, t);
    var q := Enqueue(c, time, priority, payload).queue;
    assert q == c.queue[..k] + [t] + c.queue[k..];
    forall i | 0 <= i < |q|
      ensures q[i].serial <= c.next
    {
      if i != k { assert q[i] == c.queue[if i < k then i else i - 1]; }
    }
  }

  lemma {:induction false} InsertedInOrder(queue: seq<Task>, k: nat, t: Task)
    requires k <= |queue| && Sorted(queue)
    requires forall i :: 0 <= i < k ==> Before(queue[i], t)
    requires forall i :: k <= i < |queue| ==> Before(t, queue[i])
    ensures Sorted(queue[..k] + [t] + queue[k..])
  {
    var q := queue[..k] + [t] + queue[k..];
    forall i, j | 0 <= i < j < |q|
      ensures Before(q[i], q[j])
    {
      assert i < k ==> q[i] == queue[i];
      assert i > k ==> q[i] == queue[i - 1];
      assert j < k ==> q[j] == queue[j];
      assert j > k ==> q[j] == queue[j - 1];
    }
  }

  lemma {:induction false} EnqueueMembers<W>(c: Core<W>, time: real, priority: real, payload: nat)
    ensures forall q :: q in Enqueue(c, time, priority, payload).queue <==>
                          q in c.queue || q == Task(c.next, time, priority, payload)
  {
    var k := Position(c.queue, time, priority);
    assert c.queue == c.queue[..k] + c.queue[k..];
  }

  lemma {:induction false} WithoutMembers(queue: seq<Task>, serial: nat)
    ensures forall q :: q in Without(queue, serial) ==> q in queue
  {
    if queue != [] && queue[0].serial != serial {
      WithoutMembers(queue[1..], serial);
    }
  }

  lemma {:induction false} BeforeAll(t: Task, queue: seq<Task>)
    requires forall q :: q in queue ==> Before(t, q)
    requires Sorted(queue)
    ensures Sorted([t] + queue)
  {
    var all := [t] + queue;
    forall i, j | 0 <= i < j < |all|
      ensures Before(all[i], all[j])
    {
      assert all[j] == queue[j - 1] && queue[j - 1] in queue;
      if i > 0 { assert all[i] == queue[i - 1]; }
    }
  }

  lemma {:induction false} WithoutKeeps(queue: seq<Task>, serial: nat)
    requires Sorted(queue)
    ensures var r := Without(queue, serial);
            Sorted(r) && forall q :: q in r ==> q in queue
  {
    WithoutMembers(queue, serial);
    if queue != [] {
      SortedTail(queue);
      WithoutKeeps(queue[1..], serial);
      if queue[0].serial != serial {
        WithoutMembers(queue[1..], serial);
        BeforeAll(queue[0], Without(queue[1..], serial));
      }
    }
  }

  lemma {:induction false} SortedTail(queue: seq<Task>)
    requires Sorted(queue) && queue != []
    ensures Sorted(queue[1..]) && forall q :: q in queue[1..] ==> Before(queue[0], q)
  {
    var rest := queue[1..];
    assert forall j :: 0 <= j < |rest| ==> rest[j] == queue[j + 1];
  }

  /** What a list of actions leaves: an ordered queue whose old members were there before. */
  lemma {:induction false} ActAllKeeps<W>(c: Core<W>, actions: seq<Action>)
    requires Ordered(c)
    ensures var d := ActAll(c, actions);
            && Ordered(d) && c.next <= d.next
            && forall q :: q in d.queue && q.serial < c.next ==> q in c.queue
    decreases |actions|
  {
    if actions != [] {
      ActKeeps(c, actions[0]);
      ActAllKeeps(Act(c, actions[0]), actions[1..]);
    }
  }

  lemma {:induction false} ActKeeps<W>(c: Core<W>, a: Action)
    requires Ordered(c)
    ensures var d := Act(c, a);
            && Ordered(d) && c.next <= d.next
            && forall q :: q in d.queue && q.serial < c.next ==> q in c.queue
  {
    match a
    case Schedule(time, priority, payload) =>
      EnqueueKeepsOrder(c, time, priority, payload);
      EnqueueMembers(c, time, priority, payload);
    case Cancel(serial) =>
      WithoutKeeps(c.queue, serial);
      assert forall i :: 0 <= i < |Act(c, a).queue| ==> Act(c, a).queue[i] in c.queue;
  }

  lemma {:induction false} FireKeeps<W>(run: Callback<W>, c: Core<W>)
    requires Ordered(c) && c.queue != []
    ensures var d := Fire(run, c);
            && Ordered(d) && c.next <= d.next
            && forall q :: q in d.queue && q.serial < c.next ==> q in c.queue[1..]
  {
    var (world, actions) := run(c.world, c.queue[0]);
    ActAllKeeps(Core(c.queue[1..], c.next, world), actions);
  }

  lemma {:induction false} DrainKeepsOrder<W>(run: Callback<W>, c: Core<W>, target: real, n: nat)
    requires Ordered(c)
    ensures Ordered(Drain(run, c, target, n))
    decreases n
  {
    if n != 0 && Due(c, target) {
      FireKeeps(run, c);
      DrainKeepsOrder(run, Fire(run, c), target, n - 1);
    }
  }

  /** The `i`-th task that runs is the one in front after `i` firings. */
  lemma {:induction false} TraceAt<W>(run: Callback<W>, c: Core<W>, target: real, n: nat, i: nat)
    requires i < |Trace(run, c, target, n)|
    ensures var d := Drain(run, c, target, i);
            Due(d, target) && Trace(run, c, target, n)[i] == d.queue[0]
    decreases n
  {
    if i > 0 {
      TraceAt(run, Fire(run, c), target, n - 1, i - 1);
    }
  }

  /** A task that runs at all was in the queue, or was scheduled during the run. */
  lemma {:induction false} TraceFromQueue<W>(run: Callback<W>, c: Core<W>, target: real, n: nat, j: nat)
    requires Ordered(c) && j < |Trace(run, c, target, n)|
    ensures var t := Trace(run, c, target, n)[j];
            (t.serial < c.next ==> t in c.queue) && t.time <= target
    decreases n
  {
    if j > 0 {
      FireKeeps(run, c);
      TraceFromQueue(run, Fire(run, c), target, n - 1, j - 1);
      var t := Trace(run, c, target, n)[j];
      assert t == Trace(run, Fire(run, c), target, n - 1)[j - 1];
      if t.serial < c.next {
        assert t in c.queue[1..];
      }
    }
  }

  /** Two tasks of a run stand in the order of time, priority and insertion whenever the later
      one was already scheduled when the earlier one ran. */
  lemma {:induction false} TraceIsOrdered<W>(run: Callback<W>, c: Core<W>, target: real, n: nat, i: nat, j: nat)
    requires Ordered(c) && i < j < |Trace(run, c, target, n)|
    requires Trace(run, c, target, n)[j].serial < Drain(run, c, target, i).next
    ensures Before(Trace(run, c, target, n)[i], Trace(run, c, target, n)[j])
    decreases n
  {
    FireKeeps(run, c);
    var rest := Trace(run, Fire(run, c), target, n - 1);
    assert Trace(run, c, target, n) == [c.queue[0]] + rest;
    if i == 0 {
      TraceFromQueue(run, Fire(run, c), target, n - 1, j - 1);
      FrontIsBefore(c, rest[j - 1]);
    } else {
      TraceIsOrdered(run, Fire(run, c), target, n - 1, i - 1, j - 1);
    }
  }

  lemma {:induction false} FrontIsBefore<W>(c: Core<W>, t: Task)
    requires Ordered(c) && c.queue != [] && t in c.queue[1..]
    ensures Before(c.queue[0], t)
  {
    SortedTail(c.queue);
  }

  // ---------------------------------------------------------------- every task once

  function Cancels(actions: seq<Action>): set<nat> {
    set a | a in actions && a.Cancel? :: a.serial
  }

  /** The serial numbers that callbacks cancel during a run. */
  function CancelledIn<W>(run: Callback<W>, c: Core<W>, target: real, n: nat): set<nat>
    decreases n
  {
    if n == 0 || !Due(c, target) then {}
    else Cancels(run(c.world, c.queue[0]).1) + CancelledIn(run, Fire(run, c), target, n - 1)
  }

  lemma {:induction false} WithoutRetains(queue: seq<Task>, serial: nat, t: Task)
    requires t in queue && t.serial != serial
    ensures t in Without(queue, serial)
  {
    if t != queue[0] && queue[0].serial != serial {
      WithoutRetains(queue[1..], serial, t);
    }
  }

  lemma {:induction false} ActAllRetains<W>(c: Core<W>, actions: seq<Action>, t: Task)
    requires t in c.queue && t.serial !in Cancels(actions)
    ensures t in ActAll(c, actions).queue
    decreases |actions|
  {
    if actions != [] {
      var a := actions[0];
      assert a in actions && forall b :: b in actions[1..] ==> b in actions;
      if a.Cancel? {
        WithoutRetains(c.queue, a.serial, t);
      } else {
        EnqueueMembers(c, a.time, a.priority, a.payload);
      }
      ActAllRetains(Act(c, a), actions[1..], t);
    }
  }

  /** Nothing due is skipped: an advance that ends runs every task that was due at its start
      and is not cancelled on the way. */
  lemma {:induction false} NothingDueIsSkipped<W>(run: Callback<W>, c: Core<W>, target: real, n: nat, t: Task)
    requires Ordered(c) && Ends(run, c, target, n)
    requires t in c.queue && t.time <= target && t.serial !in CancelledIn(run, c, target, n)
    ensures t in Trace(run, c, target, n)
    decreases n
  {
    var i :| 0 <= i < |c.queue| && c.queue[i] == t;
    if i > 0 {
      assert Before(c.queue[0], t) && Due(c, target);
      var (world, actions) := run(c.world, c.queue[0]);
      assert t == c.queue[1..][i - 1];
      ActAllRetains(Core(c.queue[1..], c.next, world), actions, t);
      FireKeeps(run, c);
      NothingDueIsSkipped(run, Fire(run, c), target, n - 1, t);
    }
  }

  /** Serial numbers in the queue are different. */
  ghost predicate Unique(queue: seq<Task>) {
    forall i, j :: 0 <= i < j < |queue| ==> queue[i].serial != queue[j].serial
  }

  lemma {:induction false} WithoutUnique(queue: seq<Task>, serial: nat)
    requires Unique(queue)
    ensures Unique(Without(queue, serial)) && forall q :: q in Without(queue, serial) ==> q in queue
  {
    if queue != [] {
      var rest := queue[1..];
      assert forall j :: 0 <= j < |rest| ==> rest[j] == queue[j + 1];
      WithoutUnique(rest, serial);
      forall q | q in Without(rest, serial)
        ensures q.serial != queue[0].serial && q in queue
      {
        assert q in rest;
      }
    }
  }

  lemma {:induction false} ActAllUnique<W>(c: Core<W>, actions: seq<Action>)
    requires Ordered(c) && Unique(c.queue)
    ensures Unique(ActAll(c, actions).queue)
    decreases |actions|
  {
    if actions != [] {
      ActKeeps(c, actions[0]);
      if actions[0].Cancel? {
        WithoutUnique(c.queue, actions[0].serial);
      }
      ActAllUnique(Act(c, actions[0]), actions[1..]);
    }
  }

  lemma {:induction false} FireUnique<W>(run: Callback<W>, c: Core<W>)
    requires Ordered(c) && Unique(c.queue) && c.queue != []
    ensures Unique(Fire(run, c).queue)
  {
    var (world, actions) := run(c.world, c.queue[0]);
    ActAllUnique(Core(c.queue[1..], c.next, world), actions);
  }

  lemma {:induction false} FrontIsGone<W>(run: Callback<W>, c: Core<W>, target: real, n: nat, j: nat)
    requires Ordered(c) && Unique(c.queue) && c.queue != [] && j < |Trace(run, Fire(run, c), target, n)|
    ensures Trace(run, Fire(run, c), target, n)[j].serial != c.queue[0].serial
  {
    FireKeeps(run, c);
    TraceFromQueue(run, Fire(run, c), target, n, j);
    var t := Trace(run, Fire(run, c), target, n)[j];
    if t.serial < c.next {
      var k :| 0 <= k < |c.queue[1..]| && c.queue[1..][k] == t;
      assert c.queue[k + 1] == t;
    }
  }

  /** No task runs twice in an advance. */
  lemma {:induction false} RunsOnce<W>(run: Callback<W>, c: Core<W>, target: real, n: nat, i: nat, j: nat)
    requires Ordered(c) && Unique(c.queue) && i < j < |Trace(run, c, target, n)|
    ensures Trace(run, c, target, n)[i].serial != Trace(run, c, target, n)[j].serial
    decreases n
  {
    assert Trace(run, c, target, n) == [c.queue[0]] + Trace(run, Fire(run, c), target, n - 1);
    if i == 0 {
      FrontIsGone(run, c, target, n - 1, j - 1);
    } else {
      FireKeeps(run, c);
      FireUnique(run, c);
      RunsOnce(run, Fire(run, c), target, n - 1, i - 1, j - 1);
    }
  }

  // ---------------------------------------------------------------- time

  /** No queued task lies before `now`. */
  ghost predicate Timely<W>(c: Core<W>, now: real) {
    forall i :: 0 <= i < |c.queue| ==> c.queue[i].time >= now
  }

  /** What the clock shows when the `i`-th task is about to run. */
  function ClockAt(trace: seq<Task>, now: real, i: nat): real
    requires i <= |trace|
  {
    if i == 0 then now else trace[i - 1].time
  }

  /** A firing turns the clock back exactly when, at that moment, some task is queued in the past. */
  lemma {:induction false} TurnsBackExactly<W>(run: Callback<W>, c: Core<W>, now: real, target: real, n: nat, i: nat)
    requires Ordered(c) && i < |Trace(run, c, target, n)|
    ensures var tr := Trace(run, c, target, n);
            tr[i].time < ClockAt(tr, now, i) <==> !Timely(Drain(run, c, target, i), ClockAt(tr, now, i))
  {
    TraceAt(run, c, target, n, i);
    DrainKeepsOrder(run, c, target, i);
  }

  /** Callbacks schedule nothing before the time at which they run. */
  ghost predicate NothingInThePast<W(!new)>(run: Callback<W>) {
    forall w: W, t: Task, i: int ::
      0 <= i < |run(w, t).1| && run(w, t).1[i].Schedule? ==> run(w, t).1[i].time >= t.time
  }

  lemma {:induction false} ActAllTimely<W>(c: Core<W>, actions: seq<Action>, now: real)
    requires Ordered(c) && Timely(c, now)
    requires forall i :: 0 <= i < |actions| && actions[i].Schedule? ==> actions[i].time >= now
    ensures Timely(ActAll(c, actions), now)
    decreases |actions|
  {
    if actions != [] {
      ActKeeps(c, actions[0]);
      if actions[0].Cancel? {
        WithoutKeeps(c.queue, actions[0].serial);
        var d := Act(c, actions[0]);
        assert forall i :: 0 <= i < |d.queue| ==> d.queue[i] in c.queue;
      }
      ActAllTimely(Act(c, actions[0]), actions[1..], now);
    }
  }

  lemma {:induction false} FireTimely<W(!new)>(run: Callback<W>, c: Core<W>)
    requires Ordered(c) && c.queue != [] && NothingInThePast(run)
    ensures Timely(Fire(run, c), c.queue[0].time)
  {
    var (world, actions) := run(c.world, c.queue[0]);
    ActAllTimely(Core(c.queue[1..], c.next, world), actions, c.queue[0].time);
  }

  /** If nothing is ever scheduled in the past, time never decreases along a run. */
  lemma {:induction false} TimeNeverDecreases<W(!new)>(
    run: Callback<W>, c: Core<W>, now: real, target: real, n: nat, i: nat)
    requires Ordered(c) && Timely(c, now) && NothingInThePast(run)
    requires i < |Trace(run, c, target, n)|
    ensures var tr := Trace(run, c, target, n);
            && now <= tr[i].time <= target
            && (i > 0 ==> tr[i - 1].time <= tr[i].time)
    decreases n
  {
    if i > 0 {
      FireKeeps(run, c);
      FireTimely(run, c);
      var rest := Trace(run, Fire(run, c), target, n - 1);
      assert Trace(run, c, target, n) == [c.queue[0]] + rest;
      TimeNeverDecreases(run, Fire(run, c), c.queue[0].time, target, n - 1, i - 1);
    }
  }

  /** Otherwise it can: a task scheduled for time 5 runs at 5 although the clock shows 10. */
  lemma {:induction false} PastTaskTurnsClockBack()
    ensures var run: Callback<int> := (w: int, t: Task) => (w, []);
            var c := Enqueue(Core([], 0, 0), 5.0, 0.0, 0);
            Ordered(c) && Ends(run, c, 10.0, 1)
            && |Trace(run, c, 10.0, 1)| == 1 && Trace(run, c, 10.0, 1)[0].time < 10.0
  {
    var run: Callback<int> := (w: int, t: Task) => (w, []);
    var c := Enqueue(Core([], 0, 0), 5.0, 0.0, 0);
    assert c.queue == [Task(0, 5.0, 0.0, 0)];
    assert Fire(run, c).queue == [];
  }

  // ---------------------------------------------------------------- composition

  lemma {:induction false} DrainStays<W>(run: Callback<W>, c: Core<W>, target: real, n: nat, m: nat)
    requires Ends(run, c, target, n) && n <= m
    ensures Drain(run, c, target, m) == Drain(run, c, target, n)
    ensures Trace(run, c, target, m) == Trace(run, c, target, n)
    decreases n
  {
    if n != 0 && Due(c, target) {
      DrainStays(run, Fire(run, c), target, n - 1, m - 1);
    }
  }

  /** Draining to `a` and then to `b` runs the same tasks in the same order, and leaves the
      same queue and world, as draining straight to `b`. */
  lemma {:induction false} DrainComposes<W>(run: Callback<W>, c: Core<W>, a: real, b: real, n: nat, m: nat)
    requires a <= b && Ends(run, c, a, n) && Ends(run, Drain(run, c, a, n), b, m)
    ensures Ends(run, c, b, n + m)
    ensures Drain(run, c, b, n + m) == Drain(run, Drain(run, c, a, n), b, m)
    ensures Trace(run, c, b, n + m) == Trace(run, c, a, n) + Trace(run, Drain(run, c, a, n), b, m)
    decreases n
  {
    if n == 0 || !Due(c, a) {
      DrainStays(run, c, b, m, n + m);
    } else {
      DrainComposes(run, Fire(run, c), a, b, n - 1, m);
    }
  }

  /** Once the bounds suffice they do not matter. */
  lemma {:induction false} DrainUnique<W>(run: Callback<W>, c: Core<W>, target: real, n: nat, m: nat)
    requires Ends(run, c, target, n) && Ends(run, c, target, m)
    ensures Drain(run, c, target, m) == Drain(run, c, target, n)
    ensures Trace(run, c, target, m) == Trace(run, c, target, n)
  {
    if n <= m {
      DrainStays(run, c, target, n, m);
    } else {
      DrainStays(run, c, target, m, n);
    }
  }
}
