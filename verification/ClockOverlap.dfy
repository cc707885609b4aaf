/** Advances of the simulation clock that overlap (packages/simulation-engine/src): each is cut
    at the await of the task it runs, and between two cuts other advances may run and anybody
    may schedule or cancel. */
module ClockOverlap {
  import opened EventQueue

  /** `ran` and `cancelled` record what has left the queue; `advances` maps a call in flight to
      its target. */
  datatype Clock<W> = Clock(
    core: Core<W>, time: real, advances: map<nat, real>, calls: nat, ran: seq<Task>, cancelled: seq<Task>)

  /** `Begin` is `advanceTo` up to its first await, `Turn` what follows one, `Next` is
      `advanceToNextTask`. */
  datatype Event = Begin(target: real) | Turn(call: nat) | Next | Outside(action: Action)

  function Fresh<W>(world: W, time: real): Clock<W> {
    Clock(Core([], 0, world), time, map[], 0, [], [])
  }

  /** The task that a cancellation takes out, if any. */
  function Taken(queue: seq<Task>, serial: nat): seq<Task> {
    if queue == [] then [] else if queue[0].serial == serial then [queue[0]] else Taken(queue[1..], serial)
  }

  function ActOn<W>(s: Clock<W>, a: Action): Clock<W> {
    s.(core := Act(s.core, a),
       cancelled := s.cancelled + if a.Cancel? then Taken(s.core.queue, a.serial) else [])
  }

  function ActAllOn<W>(s: Clock<W>, actions: seq<Action>): Clock<W>
    decreases |actions|
  {
    if actions == [] then s else ActAllOn(ActOn(s, actions[0]), actions[1..])
  }

  /** The state in which a task has been taken off the queue and its callback is about to act. */
  function Shifted<W>(run: Callback<W>, s: Clock<W>): Clock<W>
    requires s.core.queue != []
  {
    var task := s.core.queue[0];
    s.(core := Core(s.core.queue[1..], s.core.next, run(s.core.world, task).0), time := task.time,
       ran := s.ran + [task])
  }

  /** Takes the first task off the queue, moves the clock to it and runs it. */
  function RunFirst<W>(run: Callback<W>, s: Clock<W>): Clock<W>
    requires s.core.queue != []
  {
    ActAllOn(Shifted(run, s), run(s.core.world, s.core.queue[0]).1)
  }

  /** One turn of a call's loop: it runs a due task, or it ends and the clock shows its target. */
  function TurnOn<W>(run: Callback<W>, s: Clock<W>, call: nat): Clock<W> {
    if call !in s.advances then s
    else if Due(s.core, s.advances[call]) then RunFirst(run, s)
    else s.(time := s.advances[call], advances := s.advances - {call})
  }

  function Admit<W>(s: Clock<W>, target: real): Clock<W> {
    s.(advances := s.advances[s.calls := target], calls := s.calls + 1)
  }

  /** A call is refused when its target lies in the past, and otherwise takes its first turn. */
  function Step<W>(run: Callback<W>, s: Clock<W>, e: Event): Clock<W> {
    match e
    case Begin(target) => if target < s.time then s else TurnOn(run, Admit(s, target), s.calls)
    case Turn(call) => TurnOn(run, s, call)
    case Next => if s.core.queue == [] then s else RunFirst(run, s)
    case Outside(action) => ActOn(s, action)
  }

  function Run<W>(run: Callback<W>, s: Clock<W>, es: seq<Event>, n: nat): Clock<W>
    requires n <= |es|
  {
    if n == 0 then s else Step(run, Run(run, s, es, n - 1), es[n - 1])
  }

  // ---------------------------------------------------------------- every task once

  function Serials(tasks: seq<Task>): multiset<nat> {
    if tasks == [] then multiset{} else multiset{tasks[0].serial} + Serials(tasks[1..])
  }

  /** Each number below `n` once. */
  function UpTo(n: nat): multiset<nat> {
    if n == 0 then multiset{} else UpTo(n - 1) + multiset{n - 1}
  }

  lemma {:induction false} SerialsConcat(a: seq<Task>, b: seq<Task>)
    ensures Serials(a + b) == Serials(a) + Serials(b)
  {
    if a == [] {
      assert a + b == b;
    } else {
      assert (a + b)[1..] == a[1..] + b;
      SerialsConcat(a[1..], b);
    }
  }

  lemma {:induction false} TakenOut(queue: seq<Task>, serial: nat)
    ensures Serials(queue) == Serials(Without(queue, serial)) + Serials(Taken(queue, serial))
  {
    if queue != [] && queue[0].serial != serial {
      TakenOut(queue[1..], serial);
      assert ([queue[0]] + Without(queue[1..], serial))[1..] == Without(queue[1..], serial);
    }
  }

  /** Every serial number that was given out belongs to one task that was run, cancelled, or is
      still queued. */
  ghost predicate Accounted<W>(s: Clock<W>) {
    Serials(s.ran) + Serials(s.cancelled) + Serials(s.core.queue) == UpTo(s.core.next)
  }

  lemma {:induction false} EnqueueSerials<W>(c: Core<W>, time: real, priority: real, payload: nat)
    ensures Serials(Enqueue(c, time, priority, payload).queue) == Serials(c.queue) + multiset{c.next}
  {
    var k, q := Position(c.queue, time, priority), c.queue;
    var t := Task(c.next, time, priority, payload);
    assert q == q[..k] + q[k..];
    SerialsConcat(q[..k], q[k..]);
    SerialsConcat(q[..k] + [t], q[k..]);
    SerialsConcat(q[..k], [t]);
  }

  lemma {:induction false} ScheduleAccounts<W>(s: Clock<W>, time: real, priority: real, payload: nat)
    requires Accounted(s)
    ensures Accounted(ActOn(s, Schedule(time, priority, payload)))
  {
    assert s.cancelled + [] == s.cancelled;
    EnqueueSerials(s.core, time, priority, payload);
    Moved(Serials(s.ran) + Serials(s.cancelled), Serials(s.core.queue), multiset{s.core.next});
  }

  lemma {:induction false} CancelAccounts<W>(s: Clock<W>, serial: nat)
    requires Accounted(s)
    ensures Accounted(ActOn(s, Cancel(serial)))
  {
    var left, taken := Without(s.core.queue, serial), Taken(s.core.queue, serial);
    TakenOut(s.core.queue, serial);
    SerialsConcat(s.cancelled, taken);
    MovedOver(Serials(s.ran), Serials(s.cancelled), Serials(taken), Serials(left));
  }

  lemma {:induction false} Moved(a: multiset<nat>, b: multiset<nat>, c: multiset<nat>)
    ensures a + (b + c) == a + b + c == a + c + b
  {
  }

  lemma {:induction false} MovedOver(a: multiset<nat>, b: multiset<nat>, c: multiset<nat>, d: multiset<nat>)
    ensures a + (b + c) + d == a + b + (d + c)
  {
  }

  lemma {:induction false} ActAccounts<W>(s: Clock<W>, a: Action)
    requires Accounted(s)
    ensures Accounted(ActOn(s, a))
  {
    match a
    case Schedule(time, priority, payload) => ScheduleAccounts(s, time, priority, payload);
    case Cancel(serial) => CancelAccounts(s, serial);
  }

  lemma {:induction false} ActAllAccounts<W>(s: Clock<W>, actions: seq<Action>)
    requires Accounted(s)
    ensures Accounted(ActAllOn(s, actions))
    decreases |actions|
  {
    if actions != [] {
      ActAccounts(s, actions[0]);
      ActAllAccounts(ActOn(s, actions[0]), actions[1..]);
    }
  }

  lemma {:induction false} ShiftAccounts<W>(run: Callback<W>, s: Clock<W>)
    requires Accounted(s) && s.core.queue != []
    ensures Accounted(Shifted(run, s))
  {
    var task := s.core.queue[0];
    SerialsConcat(s.ran, [task]);
    assert [task][1..] == [] && Serials([task]) == multiset{task.serial} + Serials([]);
    Moved(Serials(s.ran), Serials(s.cancelled), multiset{task.serial});
    Moved(Serials(s.ran) + Serials(s.cancelled), multiset{task.serial}, Serials(s.core.queue[1..]));
  }

  lemma {:induction false} RunFirstAccounts<W>(run: Callback<W>, s: Clock<W>)
    requires Accounted(s) && s.core.queue != []
    ensures Accounted(RunFirst(run, s))
  {
    ShiftAccounts(run, s);
    ActAllAccounts(Shifted(run, s), run(s.core.world, s.core.queue[0]).1);
  }

  lemma {:induction false} TurnAccounts<W>(run: Callback<W>, s: Clock<W>, call: nat)
    requires Accounted(s)
    ensures Accounted(TurnOn(run, s, call))
  {
    if call in s.advances && Due(s.core, s.advances[call]) {
      RunFirstAccounts(run, s);
    }
  }

  lemma {:induction false} StepAccounts<W>(run: Callback<W>, s: Clock<W>, e: Event)
    requires Accounted(s)
    ensures Accounted(Step(run, s, e))
  {
    match e
    case Begin(_) => BeginAccounts(run, s, e);
    case Turn(call) => TurnAccounts(run, s, call);
    case Next => NextAccounts(run, s, e);
    case Outside(action) => ActAccounts(s, action);
  }

  lemma {:induction false} BeginAccounts<W>(run: Callback<W>, s: Clock<W>, e: Event)
    requires Accounted(s) && e.Begin?
    ensures Accounted(Step(run, s, e))
  {
    TurnAccounts(run, Admit(s, e.target), s.calls);
  }

  lemma {:induction false} NextAccounts<W>(run: Callback<W>, s: Clock<W>, e: Event)
    requires Accounted(s) && e.Next?
    ensures Accounted(Step(run, s, e))
  {
    if s.core.queue != [] { RunFirstAccounts(run, s); }
  }

  lemma {:induction false} UpToOnce(n: nat, serial: nat)
    ensures UpTo(n)[serial] == if serial < n then 1 else 0
  {
    if n > 0 { UpToOnce(n - 1, serial); }
  }

  /** In every interleaving of advances, schedulings and cancellations each task is exactly one
      of run once, cancelled, or still queued: overlapping advances neither lose a task nor run
      one twice. */
  lemma {:induction false} EveryTaskOnce<W>(run: Callback<W>, world: W, time: real, es: seq<Event>, n: nat, serial: nat)
    requires n <= |es|
    ensures var s := Run(run, Fresh(world, time), es, n);
            && Accounted(s)
            && Serials(s.ran)[serial] + Serials(s.cancelled)[serial] + Serials(s.core.queue)[serial]
                 == if serial < s.core.next then 1 else 0
  {
    for k := 0 to n
      invariant Accounted(Run(run, Fresh(world, time), es, k))
    {
      StepAccounts(run, Run(run, Fresh(world, time), es, k), es[k]);
    }
    UpToOnce(Run(run, Fresh(world, time), es, n).core.next, serial);
  }

  // ---------------------------------------------------------------- order and time

  lemma {:induction false} ActAllIsCore<W>(s: Clock<W>, actions: seq<Action>)
    ensures ActAllOn(s, actions).core == ActAll(s.core, actions) && ActAllOn(s, actions).time == s.time
    ensures ActAllOn(s, actions).advances == s.advances && ActAllOn(s, actions).ran == s.ran
    decreases |actions|
  {
    if actions != [] { ActAllIsCore(ActOn(s, actions[0]), actions[1..]); }
  }

  /** What running the first task does to queue, clock and advances. */
  lemma {:induction false} RunFirstIs<W>(run: Callback<W>, s: Clock<W>)
    requires s.core.queue != []
    ensures var s' := RunFirst(run, s);
            s'.core == Fire(run, s.core) && s'.time == s.core.queue[0].time && s'.advances == s.advances
  {
    ActAllIsCore(Shifted(run, s), run(s.core.world, s.core.queue[0]).1);
  }

  lemma {:induction false} StepKeepsOrder<W>(run: Callback<W>, s: Clock<W>, e: Event)
    requires Ordered(s.core)
    ensures Ordered(Step(run, s, e).core)
  {
    if e.Outside? {
      ActKeeps(s.core, e.action);
    } else if s.core.queue != [] {
      RunFirstIs(run, s);
      FireKeeps(run, s.core);
      if e.Begin? { RunFirstIs(run, Admit(s, e.target)); }
    }
  }

  lemma {:induction false} RunKeepsOrder<W>(run: Callback<W>, world: W, time: real, es: seq<Event>, n: nat)
    requires n <= |es|
    ensures Ordered(Run(run, Fresh(world, time), es, n).core)
  {
    for k := 0 to n
      invariant Ordered(Run(run, Fresh(world, time), es, k).core)
    {
      StepKeepsOrder(run, Run(run, Fresh(world, time), es, k), es[k]);
    }
  }

  /** The event sets the clock back: some task is queued in the past when a task or a target is
      taken up, or the call's target has been passed. */
  ghost predicate SetsBack<W>(s: Clock<W>, e: Event) {
    match e
    case Begin(target) => target >= s.time && !Timely(s.core, s.time)
    case Turn(call) => call in s.advances && (s.advances[call] < s.time || !Timely(s.core, s.time))
    case Next => !Timely(s.core, s.time)
    case Outside(_) => false
  }

  lemma {:induction false} StepSetsBack<W>(run: Callback<W>, s: Clock<W>, e: Event)
    requires Ordered(s.core)
    ensures Step(run, s, e).time < s.time <==> SetsBack(s, e)
  {
    if s.core.queue != [] {
      RunFirstIs(run, s);
      if e.Begin? { RunFirstIs(run, Admit(s, e.target)); }
      assert Timely(s.core, s.time) <==> s.core.queue[0].time >= s.time;
    }
  }

  /** In every interleaving an event sets the clock back if and only if it is one of these. */
  lemma {:induction false} TurnsBackExactly<W>(run: Callback<W>, world: W, time: real, es: seq<Event>, n: nat, e: Event)
    requires n <= |es|
    ensures var s := Run(run, Fresh(world, time), es, n);
            Step(run, s, e).time < s.time <==> SetsBack(s, e)
  {
    RunKeepsOrder(run, world, time, es, n);
    StepSetsBack(run, Run(run, Fresh(world, time), es, n), e);
  }

  // ---------------------------------------------------------------- runs without a step back

  /** Nothing is queued in the past and no advance in flight has been overtaken. */
  ghost predicate Forward<W>(s: Clock<W>) {
    Timely(s.core, s.time) && NoneBefore(s.advances, s.time)
  }

  predicate NoneBefore(advances: map<nat, real>, time: real) {
    forall c | c in advances :: advances[c] >= time
  }

  /** Exactly in such a state no event whatever can set the clock back. */
  lemma {:induction false} ForwardExactly<W(!new)>(run: Callback<W>, s: Clock<W>)
    requires Ordered(s.core)
    ensures Forward(s) <==> forall e :: Step(run, s, e).time >= s.time
  {
    forall e
      ensures Step(run, s, e).time < s.time <==> SetsBack(s, e)
    {
      StepSetsBack(run, s, e);
    }
    if !Timely(s.core, s.time) {
      assert SetsBack(s, Next);
    } else if !NoneBefore(s.advances, s.time) {
      var c :| c in s.advances && s.advances[c] < s.time;
      assert SetsBack(s, Turn(c));
    }
  }

  /** Where an advance to `target` moves the clock next. */
  function Reach<W>(s: Clock<W>, target: real): real {
    if Due(s.core, target) then s.core.queue[0].time else target
  }

  /** The event schedules nothing in the past and overtakes no other advance in flight. */
  predicate Orderly<W>(s: Clock<W>, e: Event) {
    match e
    case Begin(target) => target >= s.time ==> NoneBefore(s.advances, Reach(s, target))
    case Turn(call) => call in s.advances ==> NoneBefore(s.advances, Reach(s, s.advances[call]))
    case Next => s.core.queue != [] ==> NoneBefore(s.advances, s.core.queue[0].time)
    case Outside(action) => action.Schedule? ==> action.time >= s.time
  }

  lemma {:induction false} OutsideForward<W>(s: Clock<W>, a: Action)
    requires Ordered(s.core) && Forward(s)
    ensures Forward(ActOn(s, a)) <==> a.Schedule? ==> a.time >= s.time
  {
    var core := Act(s.core, a);
    match a
    case Schedule(time, priority, payload) =>
      var t := Task(s.core.next, time, priority, payload);
      EnqueueMembers(s.core, time, priority, payload);
      assert t in core.queue;
      assert forall i :: 0 <= i < |core.queue| ==> core.queue[i] in core.queue;
    case Cancel(serial) =>
      WithoutKeeps(s.core.queue, serial);
      assert forall i :: 0 <= i < |core.queue| ==> core.queue[i] in s.core.queue;
  }

  lemma {:induction false} RunFirstForward<W(!new)>(run: Callback<W>, s: Clock<W>)
    requires Ordered(s.core) && s.core.queue != [] && NothingInThePast(run)
    ensures Forward(RunFirst(run, s)) <==> NoneBefore(s.advances, s.core.queue[0].time)
  {
    RunFirstIs(run, s);
    FireTimely(run, s.core);
  }

  lemma {:induction false} TurnForward<W(!new)>(run: Callback<W>, s: Clock<W>, call: nat)
    requires Ordered(s.core) && Forward(s) && NothingInThePast(run) && call in s.advances
    ensures Forward(TurnOn(run, s, call)) <==> NoneBefore(s.advances, Reach(s, s.advances[call]))
  {
    if Due(s.core, s.advances[call]) {
      RunFirstForward(run, s);
    } else {
      var rest := s.advances - {call};
      assert forall c :: c in s.advances <==> c in rest || c == call;
    }
  }

  lemma {:induction false} BeginForward<W(!new)>(run: Callback<W>, s: Clock<W>, target: real)
    requires Ordered(s.core) && Forward(s) && NothingInThePast(run) && target >= s.time && s.calls !in s.advances
    ensures Forward(Step(run, s, Begin(target))) <==> NoneBefore(s.advances, Reach(s, target))
  {
    var s1 := Admit(s, target);
    TurnForward(run, s1, s.calls);
    assert forall c :: c in s1.advances <==> c in s.advances || c == s.calls;
  }

  /** Calls are numbered in order. */
  ghost predicate Numbered<W>(s: Clock<W>) {
    Ordered(s.core) && forall c :: c in s.advances ==> c < s.calls
  }

  lemma {:induction false} StepForward<W(!new)>(run: Callback<W>, s: Clock<W>, e: Event)
    requires Numbered(s) && Forward(s) && NothingInThePast(run)
    ensures Forward(Step(run, s, e)) <==> Orderly(s, e)
  {
    match e
    case Begin(target) => if target >= s.time { BeginForward(run, s, target); }
    case Turn(call) => if call in s.advances { TurnForward(run, s, call); }
    case Next => if s.core.queue != [] { RunFirstForward(run, s); }
    case Outside(action) => OutsideForward(s, action);
  }

  lemma {:induction false} StepNumbered<W>(run: Callback<W>, s: Clock<W>, e: Event)
    requires Numbered(s)
    ensures Numbered(Step(run, s, e))
  {
    StepKeepsOrder(run, s, e);
    StepCalls(run, s, e);
  }

  lemma {:induction false} StepCalls<W>(run: Callback<W>, s: Clock<W>, e: Event)
    ensures var s' := Step(run, s, e);
            s'.calls >= s.calls && forall c :: c in s'.advances ==> c in s.advances || c < s'.calls
  {
    CallsStay(run, s);
    if e.Begin? { CallsStay(run, Admit(s, e.target)); }
  }

  lemma {:induction false} CallsStay<W>(run: Callback<W>, s: Clock<W>)
    ensures s.core.queue != [] ==> RunFirst(run, s).calls == s.calls && RunFirst(run, s).advances == s.advances
  {
    if s.core.queue != [] {
      ActAllCalls(Shifted(run, s), run(s.core.world, s.core.queue[0]).1);
    }
  }

  lemma {:induction false} ActAllCalls<W>(s: Clock<W>, actions: seq<Action>)
    ensures ActAllOn(s, actions).calls == s.calls && ActAllOn(s, actions).advances == s.advances
    decreases |actions|
  {
    if actions != [] { ActAllCalls(ActOn(s, actions[0]), actions[1..]); }
  }

  ghost predicate AlwaysForward<W>(run: Callback<W>, s: Clock<W>, es: seq<Event>, n: nat)
    requires n <= |es|
  {
    Forward(Run(run, s, es, n)) && (n == 0 || AlwaysForward(run, s, es, n - 1))
  }

  predicate OrderlyRun<W>(run: Callback<W>, s: Clock<W>, es: seq<Event>, n: nat)
    requires n <= |es|
  {
    n == 0 || (OrderlyRun(run, s, es, n - 1) && Orderly(Run(run, s, es, n - 1), es[n - 1]))
  }

  lemma {:induction false} ForwardThen<W(!new)>(run: Callback<W>, s: Clock<W>, es: seq<Event>, n: nat)
    requires n < |es| && NothingInThePast(run) && Numbered(Run(run, s, es, n))
    requires AlwaysForward(run, s, es, n) <==> OrderlyRun(run, s, es, n)
    ensures Numbered(Run(run, s, es, n + 1))
    ensures AlwaysForward(run, s, es, n + 1) <==> OrderlyRun(run, s, es, n + 1)
    ensures AlwaysForward(run, s, es, n + 1) ==> Run(run, s, es, n).time <= Run(run, s, es, n + 1).time
  {
    var r := Run(run, s, es, n);
    StepNumbered(run, r, es[n]);
    StepSetsBack(run, r, es[n]);
    if Forward(r) {
      StepForward(run, r, es[n]);
    }
  }

  /** When callbacks schedule nothing before the time at which they run: in every interleaving
      nothing can set the clock back at any moment if and only if every event was orderly, that
      is, nobody scheduled in the past and no event carried the clock past the target of an
      advance in flight. And then time never decreases. */
  lemma {:induction false} OrderlyRunsExactly<W(!new)>(run: Callback<W>, world: W, time: real, es: seq<Event>, n: nat)
    requires n <= |es| && NothingInThePast(run)
    ensures var s := Fresh(world, time);
            && (AlwaysForward(run, s, es, n) <==> OrderlyRun(run, s, es, n))
            && (OrderlyRun(run, s, es, n) ==> Climbs(run, s, es, n))
  {
    var s := Fresh(world, time);
    for k := 0 to n
      invariant Numbered(Run(run, s, es, k))
      invariant AlwaysForward(run, s, es, k) <==> OrderlyRun(run, s, es, k)
      invariant AlwaysForward(run, s, es, k) ==> Climbs(run, s, es, k)
    {
      ForwardThen(run, s, es, k);
      if AlwaysForward(run, s, es, k + 1) {
        ClimbsThen(run, s, es, k);
      }
    }
  }

  /** Time never decreases along the run. */
  ghost predicate Climbs<W>(run: Callback<W>, s: Clock<W>, es: seq<Event>, n: nat)
    requires n <= |es|
  {
    forall i, j :: 0 <= i <= j <= n ==> TimeAt(run, s, es, i) <= TimeAt(run, s, es, j)
  }

  function TimeAt<W>(run: Callback<W>, s: Clock<W>, es: seq<Event>, n: nat): real
    requires n <= |es|
  {
    Run(run, s, es, n).time
  }

  lemma {:induction false} ClimbsThen<W>(run: Callback<W>, s: Clock<W>, es: seq<Event>, n: nat)
    requires n < |es| && Climbs(run, s, es, n) && Run(run, s, es, n).time <= Run(run, s, es, n + 1).time
    ensures Climbs(run, s, es, n + 1)
  {
    forall i, j | 0 <= i <= j <= n + 1
      ensures TimeAt(run, s, es, i) <= TimeAt(run, s, es, j)
    {
      assert i <= n ==> TimeAt(run, s, es, i) <= TimeAt(run, s, es, n) <= TimeAt(run, s, es, n + 1);
    }
  }

  const QUIET: Callback<int> := (w: int, t: Task) => (w, [])

  function Overlapping(): seq<Event> {
    [Outside(Schedule(1.0, 0.0, 0)), Outside(Schedule(2.0, 0.0, 0)), Begin(10.0), Begin(5.0), Turn(0), Turn(1)]
  }

  lemma {:induction false} BothScheduled()
    ensures var s := Run(QUIET, Fresh(0, 0.0), Overlapping(), 2);
            && s.core.queue == [Task(0, 1.0, 0.0, 0), Task(1, 2.0, 0.0, 0)]
            && s.time == 0.0 && s.advances == map[] && s.calls == 0
  {
    var es, s0 := Overlapping(), Fresh(0, 0.0);
    var s1, t1 := Run(QUIET, s0, es, 1), Task(0, 1.0, 0.0, 0);
    assert s1 == Step(QUIET, Run(QUIET, s0, es, 0), es[0]) && s1.core.queue == [t1];
    assert Run(QUIET, s0, es, 2) == Step(QUIET, s1, es[1]);
    assert Position([t1], 2.0, 0.0) == 1 + Position([t1][1..], 2.0, 0.0);
  }

  /** Two advances overlap, each running one task; the one that ends last has the nearer target
      and sets the clock back. */
  lemma {:induction false} OverlapTurnsClockBack()
    ensures Run(QUIET, Fresh(0, 0.0), Overlapping(), 5).time == 10.0
    ensures Run(QUIET, Fresh(0, 0.0), Overlapping(), 6).time == 5.0
  {
    var es, s0 := Overlapping(), Fresh(0, 0.0);
    BothScheduled();
    var s2, s4, s5 := Run(QUIET, s0, es, 2), Run(QUIET, s0, es, 4), Run(QUIET, s0, es, 5);
    BothBegin(s2);
    assert Run(QUIET, s0, es, 3) == Step(QUIET, s2, es[2]);
    assert s4 == Step(QUIET, Run(QUIET, s0, es, 3), es[3]);
    assert s5 == Step(QUIET, s4, es[4]) && s5.core.queue == [] && s5.advances == map[1 := 5.0];
    assert Run(QUIET, s0, es, 6) == Step(QUIET, s5, es[5]);
  }

  lemma {:induction false} BothBegin(s: Clock<int>)
    requires s.core.queue == [Task(0, 1.0, 0.0, 0), Task(1, 2.0, 0.0, 0)]
    requires s.time == 0.0 && s.advances == map[] && s.calls == 0
    ensures var s' := Step(QUIET, Step(QUIET, s, Begin(10.0)), Begin(5.0));
            s'.core.queue == [] && s'.advances == map[0 := 10.0, 1 := 5.0]
  {
    var s1 := Step(QUIET, s, Begin(10.0));
    assert s1.core.queue == [Task(1, 2.0, 0.0, 0)] && s1.time == 1.0 && s1.advances == map[0 := 10.0];
  }
}
