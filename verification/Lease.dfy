/** The lease lock (packages/scheduler/src/ScheduleLock.ts) and the steps of a scheduled run
    (packages/scheduler/src/ScheduleRunner.ts), interleaved with other runs and with time. */
module Lease {
  import opened Shared

  datatype Lock = Lock(token: nat, owner: nat, expiresAt: int)

  type Locks = map<Key, Lock>

  const TTL := 60000

  // ---------------------------------------------------------------- the lock

  predicate Held(locks: Locks, key: Key, now: int) {
    key in locks && locks[key].expiresAt > now
  }

  function Acquire(locks: Locks, key: Key, ttl: int, owner: nat, token: nat, now: int): (bool, Locks) {
    if Held(locks, key, now) then (false, locks) else (true, locks[key := Lock(token, owner, now + ttl)])
  }

  function Renew(locks: Locks, key: Key, token: nat, ttl: int, now: int): (bool, Locks) {
    if key !in locks || locks[key].token != token || locks[key].expiresAt <= now then (false, locks)
    else (true, locks[key := locks[key].(expiresAt := now + ttl)])
  }

  function Release(locks: Locks, key: Key, token: nat): (bool, Locks) {
    if key in locks && locks[key].token == token then (true, locks - {key}) else (false, locks)
  }

  // ---------------------------------------------------------------- the steps of a run

  /** Where a run that holds a lease is in its body; `Finally` precedes the release. */
  datatype Point = Evaluating | Advancing | Handling | Recording | Finally

  datatype Result = Success | SkippedLock | SkippedPolicy | Threw

  datatype Status =
    | Active(key: Key, token: nat, expiresAt: int, point: Point, result: Result)
    | Done(result: Result)

  /** `nextToken` makes tokens fresh; runs are numbered by the caller. */
  datatype State = State(locks: Locks, now: int, nextToken: nat, runs: map<nat, Status>)

  const INITIAL := State(map[], 0, 0, map[])

  datatype Outcome = Continues | Denied | Throws

  datatype Event =
    | Start(run: nat, key: Key)
    | Advance(run: nat, outcome: Outcome)
    | RenewLease(run: nat, ttl: int)
    | Tick(elapsed: nat)

  function StartStep(s: State, run: nat, key: Key): State {
    if run in s.runs then s
    else
      var (acquired, locks) := Acquire(s.locks, key, TTL, run, s.nextToken, s.now);
      if acquired then
        s.(locks := locks, nextToken := s.nextToken + 1,
           runs := s.runs[run := Active(key, s.nextToken, s.now + TTL, Evaluating, Success)])
      else s.(runs := s.runs[run := Done(SkippedLock)])
  }

  function NextPoint(p: Point): Point {
    match p
    case Evaluating => Advancing
    case Advancing => Handling
    case Handling => Recording
    case Recording => Finally
    case Finally => Finally
  }

  /** Every way out of the body goes through `Finally`. */
  function AdvanceStep(s: State, run: nat, outcome: Outcome): State {
    if run !in s.runs || s.runs[run].Done? then s
    else
      var a := s.runs[run];
      if a.point == Finally then
        s.(locks := Release(s.locks, a.key, a.token).1, runs := s.runs[run := Done(a.result)])
      else
        var a' :=
          if outcome == Throws then a.(point := Finally, result := Threw)
          else if a.point == Evaluating && outcome == Denied then a.(point := Finally, result := SkippedPolicy)
          else a.(point := NextPoint(a.point));
        s.(runs := s.runs[run := a'])
  }

  function RenewStep(s: State, run: nat, ttl: int): State {
    if run !in s.runs || s.runs[run].Done? then s
    else
      var a := s.runs[run];
      var (renewed, locks) := Renew(s.locks, a.key, a.token, ttl, s.now);
      if renewed then s.(locks := locks, runs := s.runs[run := a.(expiresAt := s.now + ttl)]) else s
  }

  function Step(s: State, e: Event): State {
    match e
    case Start(run, key) => StartStep(s, run, key)
    case Advance(run, outcome) => AdvanceStep(s, run, outcome)
    case RenewLease(run, ttl) => RenewStep(s, run, ttl)
    case Tick(elapsed) => s.(now := s.now + elapsed)
  }

  function Run(es: seq<Event>, n: nat): State
    requires n <= |es|
  {
    if n == 0 then INITIAL else Step(Run(es, n - 1), es[n - 1])
  }

  // ---------------------------------------------------------------- mutual exclusion

  predicate ActiveOn(s: State, run: nat, key: Key) {
    run in s.runs && s.runs[run].Active? && s.runs[run].key == key
  }

  predicate Expired(s: State, run: nat)
    requires run in s.runs && s.runs[run].Active?
  {
    s.runs[run].expiresAt <= s.now
  }

  /** Tokens are fresh, the lock entry of a key belongs to an active run, and an active run
      whose lease has not expired owns the entry of its key. */
  ghost predicate Inv(s: State) {
    && (forall r :: r in s.runs && s.runs[r].Active? ==> s.runs[r].token < s.nextToken)
    && (forall r, q :: r in s.runs && q in s.runs && s.runs[r].Active? && s.runs[q].Active? && r != q ==>
          s.runs[r].token != s.runs[q].token)
    && (forall k :: k in s.locks ==>
          var o := s.locks[k].owner;
          ActiveOn(s, o, k) && s.runs[o].token == s.locks[k].token && s.runs[o].expiresAt == s.locks[k].expiresAt)
    && (forall r :: r in s.runs && s.runs[r].Active? && !Expired(s, r) ==>
          s.runs[r].key in s.locks && s.locks[s.runs[r].key].token == s.runs[r].token)
  }

  lemma {:induction false} StepKeepsInv(s: State, e: Event)
    requires Inv(s)
    ensures Inv(Step(s, e))
  {
    match e
    case Start(run, key) => StartKeepsInv(s, run, key);
    case Advance(run, outcome) => AdvanceKeepsInv(s, run, outcome);
    case RenewLease(run, ttl) => RenewKeepsInv(s, run, ttl);
    case Tick(_) =>
  }

  lemma {:induction false} StartKeepsInv(s: State, run: nat, key: Key)
    requires Inv(s)
    ensures Inv(StartStep(s, run, key))
  {
    if run !in s.runs && !Held(s.locks, key, s.now) {
      GrantKeepsInv(s, run, key, s.now + TTL);
    } else if run !in s.runs {
      SkipKeepsInv(s, run);
    }
  }

  lemma {:induction false} GrantKeepsInv(s: State, run: nat, key: Key, expiresAt: int)
    requires Inv(s) && run !in s.runs && !Held(s.locks, key, s.now)
    ensures Inv(s.(locks := s.locks[key := Lock(s.nextToken, run, expiresAt)], nextToken := s.nextToken + 1,
                   runs := s.runs[run := Active(key, s.nextToken, expiresAt, Evaluating, Success)]))
  {
    forall r | r in s.runs && s.runs[r].Active? && !Expired(s, r)
      ensures s.runs[r].key != key
    {
      assert s.runs[r].key in s.locks && s.locks[s.runs[r].key].token == s.runs[r].token;
    }
  }

  lemma {:induction false} SkipKeepsInv(s: State, run: nat)
    requires Inv(s) && run !in s.runs
    ensures Inv(s.(runs := s.runs[run := Done(SkippedLock)]))
  {
  }

  lemma {:induction false} AdvanceKeepsInv(s: State, run: nat, outcome: Outcome)
    requires Inv(s)
    ensures Inv(AdvanceStep(s, run, outcome))
  {
    if run in s.runs && s.runs[run].Active? {
      if s.runs[run].point == Finally {
        FinishKeepsInv(s, run);
      } else {
        var a := AdvanceStep(s, run, outcome).runs[run];
        MoveKeepsInv(s, run, a);
      }
    }
  }

  lemma {:induction false} FinishKeepsInv(s: State, run: nat)
    requires Inv(s) && run in s.runs && s.runs[run].Active?
    ensures var a := s.runs[run];
            Inv(s.(locks := Release(s.locks, a.key, a.token).1, runs := s.runs[run := Done(a.result)]))
  {
  }

  lemma {:induction false} MoveKeepsInv(s: State, run: nat, a: Status)
    requires Inv(s) && run in s.runs && s.runs[run].Active? && a.Active?
    requires a.key == s.runs[run].key && a.token == s.runs[run].token && a.expiresAt == s.runs[run].expiresAt
    ensures Inv(s.(runs := s.runs[run := a]))
  {
  }

  lemma {:induction false} RenewKeepsInv(s: State, run: nat, ttl: int)
    requires Inv(s)
    ensures Inv(RenewStep(s, run, ttl))
  {
    if run in s.runs && s.runs[run].Active? {
      var a := s.runs[run];
      if Renew(s.locks, a.key, a.token, ttl, s.now).0 {
        RenewedKeepsInv(s, run, s.now + ttl);
      }
    }
  }

  lemma {:induction false} RenewedKeepsInv(s: State, run: nat, expiresAt: int)
    requires Inv(s) && run in s.runs && s.runs[run].Active?
    requires var a := s.runs[run]; a.key in s.locks && s.locks[a.key].token == a.token
    ensures var a := s.runs[run];
            Inv(s.(locks := s.locks[a.key := s.locks[a.key].(expiresAt := expiresAt)],
                   runs := s.runs[run := a.(expiresAt := expiresAt)]))
  {
    assert s.locks[s.runs[run].key].owner == run;
  }

  lemma {:induction false} RunKeepsInv(es: seq<Event>, n: nat)
    requires n <= |es|
    ensures Inv(Run(es, n))
  {
    if n != 0 {
      RunKeepsInv(es, n - 1);
      StepKeepsInv(Run(es, n - 1), es[n - 1]);
    }
  }

  /** A run gets the lease exactly when every active run of its schedule has outlived its own. */
  lemma {:induction false} StartsExactly(es: seq<Event>, n: nat, run: nat, key: Key)
    requires n <= |es| && run !in Run(es, n).runs
    ensures var s := Run(es, n);
            ActiveOn(StartStep(s, run, key), run, key) <==>
              forall r :: r in s.runs && ActiveOn(s, r, key) ==> Expired(s, r)
  {
    RunKeepsInv(es, n);
    var s := Run(es, n);
    if Held(s.locks, key, s.now) {
      assert ActiveOn(s, s.locks[key].owner, key);
    }
  }

  /** A lease that is granted lasts sixty seconds and is recorded under the key. */
  lemma {:induction false} GrantExactly(s: State, run: nat, key: Key)
    requires run !in s.runs
    ensures var s' := StartStep(s, run, key);
            if ActiveOn(s', run, key) then
              && s'.runs[run] == Active(key, s.nextToken, s.now + 60000, Evaluating, Success)
              && s'.locks == s.locks[key := Lock(s.nextToken, run, s.now + 60000)]
            else s'.runs[run] == Done(SkippedLock) && s'.locks == s.locks
  {
  }

  /** A renewal makes the lease end `ttl` from now exactly when it has not run out yet, and
      otherwise changes nothing. */
  lemma {:induction false} RenewsExactly(es: seq<Event>, n: nat, run: nat, ttl: int)
    requires n <= |es| && run in Run(es, n).runs && Run(es, n).runs[run].Active?
    ensures var s := Run(es, n);
            var s', a := RenewStep(s, run, ttl), s.runs[run];
            if Expired(s, run) then s' == s
            else
              && s'.runs == s.runs[run := a.(expiresAt := s.now + ttl)]
              && s'.locks == s.locks[a.key := Lock(a.token, run, s.now + ttl)]
  {
    RunKeepsInv(es, n);
    var s := Run(es, n);
    var a := s.runs[run];
    if !Expired(s, run) {
      var o := s.locks[a.key].owner;
      assert s.runs[o].token == a.token;
    }
  }

  /** Two runs of a schedule that are both within their leases are one run. */
  lemma {:induction false} NoOverlap(es: seq<Event>, n: nat, r: nat, q: nat, key: Key)
    requires n <= |es|
    requires ActiveOn(Run(es, n), r, key) && ActiveOn(Run(es, n), q, key)
    requires !Expired(Run(es, n), r) && !Expired(Run(es, n), q)
    ensures r == q
  {
    RunKeepsInv(es, n);
  }

  /** A release, however late, removes no entry but that of the releasing run. */
  lemma {:induction false} LateReleaseIsHarmless(es: seq<Event>, n: nat, run: nat, outcome: Outcome, k: Key)
    requires n <= |es| && run in Run(es, n).runs
    requires var s := Run(es, n); k in s.locks && s.locks[k].owner != run
    ensures var s := Run(es, n);
            k in AdvanceStep(s, run, outcome).locks && AdvanceStep(s, run, outcome).locks[k] == s.locks[k]
  {
    RunKeepsInv(es, n);
  }

  /** In every interleaving a run that is over, however its body ended, owns no lease entry:
      every entry belongs to a run that is still active on its key. */
  lemma {:induction false} FinishedOwnsNothing(es: seq<Event>, n: nat, run: nat, k: Key)
    requires n <= |es| && run in Run(es, n).runs && Run(es, n).runs[run].Done? && k in Run(es, n).locks
    ensures Run(es, n).locks[k].owner != run
    ensures ActiveOn(Run(es, n), Run(es, n).locks[k].owner, k)
  {
    RunKeepsInv(es, n);
  }

  /** How many resumptions a run needs at most until it is over. */
  function Remaining(a: Status): nat {
    match a
    case Done(_) => 0
    case Active(_, _, _, point, _) =>
      (match point case Evaluating => 5 case Advancing => 4 case Handling => 3 case Recording => 2 case Finally => 1)
  }

  function Resumed(s: State, run: nat, outcomes: seq<Outcome>): State
    decreases |outcomes|
  {
    if outcomes == [] then s else Resumed(AdvanceStep(s, run, outcomes[0]), run, outcomes[1..])
  }

  /** Whatever its awaited calls do, a run is over after at most five resumptions, and the
      entry of its key is then no longer its own. */
  lemma {:induction false} EveryExitReleases(s: State, run: nat, outcomes: seq<Outcome>)
    requires Inv(s) && run in s.runs && Remaining(s.runs[run]) <= |outcomes|
    ensures var s' := Resumed(s, run, outcomes);
            && run in s'.runs && s'.runs[run].Done?
            && forall k :: k in s'.locks ==> s'.locks[k].owner != run
    decreases |outcomes|
  {
    if outcomes != [] {
      AdvanceKeepsInv(s, run, outcomes[0]);
      EveryExitReleases(AdvanceStep(s, run, outcomes[0]), run, outcomes[1..]);
    }
  }

  lemma {:induction false} DoneStays(s: State, run: nat, outcomes: seq<Outcome>)
    requires run in s.runs && s.runs[run].Done?
    ensures Resumed(s, run, outcomes) == s
    decreases |outcomes|
  {
    if outcomes != [] {
      DoneStays(s, run, outcomes[1..]);
    }
  }

  lemma {:induction false} FinallyEnds(s: State, run: nat, outcomes: seq<Outcome>)
    requires run in s.runs && s.runs[run].Active? && s.runs[run].point == Finally && outcomes != []
    ensures var s' := Resumed(s, run, outcomes); run in s'.runs && s'.runs[run] == Done(s.runs[run].result)
  {
    DoneStays(AdvanceStep(s, run, outcomes[0]), run, outcomes[1..]);
  }

  ghost predicate OneThrows(outcomes: seq<Outcome>) {
    exists i :: 0 <= i < |outcomes| && outcomes[i] == Throws
  }

  /** How a run ends, from the outcomes of the calls it awaits before `finally`: by policy when
      the first of them denies it, else by an exception when one of them throws, else well. */
  lemma {:induction false} ResultExactly(s: State, run: nat, outcomes: seq<Outcome>)
    requires run in s.runs && s.runs[run].Active? && s.runs[run].result == Success
    requires |outcomes| == Remaining(s.runs[run])
    ensures var s' := Resumed(s, run, outcomes);
            run in s'.runs && s'.runs[run] == Done(
              if s.runs[run].point == Evaluating && outcomes[0] == Denied then SkippedPolicy
              else if OneThrows(outcomes[..|outcomes| - 1]) then Threw
              else Success)
    decreases |outcomes|
  {
    var next, rest, awaited := AdvanceStep(s, run, outcomes[0]), outcomes[1..], outcomes[..|outcomes| - 1];
    if s.runs[run].point == Finally {
      FinallyEnds(s, run, outcomes);
    } else if next.runs[run].point == Finally {
      assert awaited[0] == outcomes[0];
      FinallyEnds(next, run, rest);
    } else {
      ResultExactly(next, run, rest);
      var later := rest[..|rest| - 1];
      assert awaited == [outcomes[0]] + later;
      assert forall i :: 0 <= i < |later| ==> later[i] == awaited[i + 1];
    }
  }

  /** A run that outlives its lease does overlap with the next one. */
  lemma {:induction false} OverrunOverlaps(key: Key)
    ensures var es := [Start(0, key), Tick(60000), Start(1, key)];
            ActiveOn(Run(es, 3), 0, key) && ActiveOn(Run(es, 3), 1, key)
  {
    var es := [Start(0, key), Tick(60000), Start(1, key)];
    var s0, s1, s2 := Run(es, 0), Run(es, 1), Run(es, 2);
    assert s1 == Step(s0, es[0]) && s2 == Step(s1, es[1]) && Run(es, 3) == Step(s2, es[2]);
  }
}
