/** The lock object, and the runner's method with its `finally`. */
module ScheduleRunner {
  import opened Lease
  import opened Shared

  class ScheduleLock {
    var locks: Locks
    var nextToken: nat

    constructor ()
      ensures locks == map[] && nextToken == 0
    {
      locks, nextToken := map[], 0;
    }

    method AcquireLease(key: Key, ttl: int, owner: nat, now: int) returns (acquired: bool, token: nat)
      modifies this
      ensures (acquired, locks) == Acquire(old(locks), key, ttl, owner, old(nextToken), now)
      ensures token == old(nextToken) && nextToken == old(nextToken) + if acquired then 1 else 0
    {
      token := nextToken;
      if key in locks && locks[key].expiresAt > now {
        return false, token;
      }
      nextToken := nextToken + 1;
      locks := locks[key := Lock(token, owner, now + ttl)];
      acquired := true;
    }

    method RenewLease(key: Key, token: nat, ttl: int, now: int) returns (renewed: bool)
      modifies `locks
      ensures (renewed, locks) == Renew(old(locks), key, token, ttl, now)
    {
      if key !in locks || locks[key].token != token || locks[key].expiresAt <= now {
        return false;
      }
      locks := locks[key := locks[key].(expiresAt := now + ttl)];
      renewed := true;
    }

    method ReleaseLease(key: Key, token: nat) returns (released: bool)
      modifies `locks
      ensures (released, locks) == Release(old(locks), key, token)
    {
      released := key in locks && locks[key].token == token;
      if released {
        locks := locks - {key};
      }
    }
  }

  class ScheduleRunner {
    const lock: ScheduleLock

    constructor (lock: ScheduleLock)
      ensures this.lock == lock
    {
      this.lock := lock;
    }

    /** One run without interference; the outcomes of its four awaited calls are given. On
        every exit the key is free again. */
    method RunSchedule(
      key: Key, owner: nat, now: int, policy: Outcome, advance: Outcome, handler: Outcome, record: Outcome)
      returns (result: Result)
      modifies lock
      ensures Held(old(lock.locks), key, now) ==> result == SkippedLock && lock.locks == old(lock.locks)
      ensures !Held(old(lock.locks), key, now) ==>
                && lock.locks == old(lock.locks) - {key}
                && result == (if policy == Throws then Threw else if policy == Denied then SkippedPolicy
                              else if Throws in [advance, handler, record] then Threw else Success)
    {
      var acquired, token := lock.AcquireLease(key, TTL, owner, now);
      if !acquired {
        return SkippedLock;
      }
      result := Body(policy, advance, handler, record);
      var released := lock.ReleaseLease(key, token);
    }

    method Body(policy: Outcome, advance: Outcome, handler: Outcome, record: Outcome) returns (result: Result)
      ensures result == (if policy == Throws then Threw else if policy == Denied then SkippedPolicy
                         else if Throws in [advance, handler, record] then Threw else Success)
    {
      if policy == Throws {
        return Threw;
      }
      if policy == Denied {
        return SkippedPolicy;
      }
      if advance == Throws || handler == Throws || record == Throws {
        return Threw;
      }
      result := Success;
    }
  }
}
