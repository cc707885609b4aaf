/** The simulation clock as an object. A call of `AdvanceTo` is required to end, within a
    number of firings that only the proof uses. */
module SimulationClock {
  import opened EventQueue

  class SimulationClock<W> {
    const run: Callback<W>
    var currentTime: real
    var tickCount: nat
    var queue: seq<Task>
    var next: nat
    var world: W

    ghost function View(): Core<W>
      reads this
    {
      Core(queue, next, world)
    }

    constructor (start: real, world: W, run: Callback<W>)
      ensures View() == Core([], 0, world) && currentTime == start && tickCount == 0 && this.run == run
    {
      this.run, this.world, currentTime := run, world, start;
      tickCount, queue, next := 0, [], 0;
    }

    method Schedule(time: real, priority: real, payload: nat) returns (serial: nat)
      modifies `queue, `next
      ensures View() == Enqueue(old(View()), time, priority, payload) && serial == old(next)
    {
      var k := 0;
      while k < |queue| && !(queue[k].time > time || (queue[k].time == time && queue[k].priority < priority))
        invariant 0 <= k <= |queue|
        invariant Position(queue, time, priority) == k + Position(queue[k..], time, priority)
      {
        assert queue[k..][0] == queue[k] && queue[k..][1..] == queue[k + 1..];
        k := k + 1;
      }
      assert k < |queue| ==> queue[k..][0] == queue[k];
      serial := next;
      queue := queue[..k] + [Task(next, time, priority, payload)] + queue[k..];
      next := next + 1;
    }

    method CancelTask(serial: nat) returns (found: bool)
      modifies `queue
      ensures View() == Act(old(View()), Cancel(serial))
      ensures found == exists t :: t in old(queue) && t.serial == serial
    {
      var k := 0;
      while k < |queue| && queue[k].serial != serial
        invariant 0 <= k <= |queue|
        invariant forall i :: 0 <= i < k ==> queue[i].serial != serial
        invariant Without(queue, serial) == queue[..k] + Without(queue[k..], serial)
      {
        assert queue[k..][0] == queue[k] && queue[k..][1..] == queue[k + 1..];
        assert queue[..k] + ([queue[k]] + Without(queue[k + 1..], serial))
            == queue[..k + 1] + Without(queue[k + 1..], serial);
        k := k + 1;
      }
      found := k < |queue|;
      if found {
        assert queue[k..][0] == queue[k] && queue[k..][1..] == queue[k + 1..];
        assert queue[k] in queue;
        queue := queue[..k] + queue[k + 1..];
      } else {
        assert queue[..k] + [] == queue;
      }
    }

    /** Runs the first task: its callback calls back into the clock. */
    method FireFirst()
      requires queue != []
      modifies this
      ensures View() == Fire(run, old(View()))
      ensures currentTime == old(queue)[0].time && tickCount == old(tickCount)
    {
      var task := queue[0];
      queue := queue[1..];
      currentTime := task.time;
      var (world', actions) := run(world, task);
      world := world';
      ghost var start := View();
      var k := 0;
      while k < |actions|
        invariant 0 <= k <= |actions|
        invariant ActAll(View(), actions[k..]) == ActAll(start, actions)
        invariant currentTime == task.time && tickCount == old(tickCount)
      {
        assert actions[k..][0] == actions[k] && actions[k..][1..] == actions[k + 1..];
        match actions[k] {
          case Schedule(time, priority, payload) => var serial := Schedule(time, priority, payload);
          case Cancel(serial) => var found := CancelTask(serial);
        }
        k := k + 1;
      }
    }

    /** Refuses a target in the past; otherwise everything due is run and the clock shows the
        target. What is run does not depend on the bound. */
    method AdvanceTo(target: real, ghost bound: nat) returns (moved: bool, executed: nat)
      requires Ends(run, View(), target, bound)
      modifies this
      ensures moved == (old(currentTime) <= target)
      ensures !moved ==> View() == old(View()) && currentTime == old(currentTime) && tickCount == old(tickCount)
      ensures moved ==>
                && View() == Drain(run, old(View()), target, bound) && !Due(View(), target)
                && executed == |Trace(run, old(View()), target, bound)|
                && currentTime == target && tickCount == old(tickCount) + 1
      ensures moved ==> forall n :: Ends(run, old(View()), target, n) ==> View() == Drain(run, old(View()), target, n)
    {
      forall n | Ends(run, View(), target, n)
        ensures Drain(run, View(), target, n) == Drain(run, View(), target, bound)
      {
        DrainUnique(run, View(), target, n, bound);
      }
      executed := 0;
      moved := currentTime <= target;
      if !moved {
        return;
      }
      ghost var left := bound;
      while queue != [] && queue[0].time <= target
        invariant 0 <= left <= bound
        invariant Drain(run, View(), target, left) == Drain(run, old(View()), target, bound)
        invariant executed + |Trace(run, View(), target, left)| == |Trace(run, old(View()), target, bound)|
        invariant tickCount == old(tickCount)
        decreases left
      {
        FireFirst();
        executed := executed + 1;
        left := left - 1;
      }
      currentTime := target;
      tickCount := tickCount + 1;
    }

    method AdvanceToNextTask() returns (ran: bool)
      modifies this
      ensures ran == (old(queue) != [])
      ensures !ran ==> View() == old(View()) && currentTime == old(currentTime) && tickCount == old(tickCount)
      ensures ran ==>
                && View() == Fire(run, old(View()))
                && currentTime == old(queue)[0].time && tickCount == old(tickCount) + 1
    {
      ran := queue != [];
      if ran {
        FireFirst();
        tickCount := tickCount + 1;
      }
    }
  }
}
