/** The sliding-window rate limiter (packages/tenancy/src/TenantLimits.ts). */
module RateLimit {
  import opened Shared

  datatype Verdict = Verdict(allowed: bool, remaining: int, retryAfterSeconds: int)

  /** The first `n` timestamps without those at or before the cutoff. */
  function KeptOf(ts: seq<int>, n: nat, cutoff: int): (kept: seq<int>)
    requires n <= |ts|
    ensures |kept| <= n
  {
    if n == 0 then []
    else KeptOf(ts, n - 1, cutoff) + if ts[n - 1] > cutoff then [ts[n - 1]] else []
  }

  function Kept(ts: seq<int>, cutoff: int): seq<int> {
    KeptOf(ts, |ts|, cutoff)
  }

  function Max1(n: int): int {
    if n < 1 then 1 else n
  }

  /** One check at time `now` on the timestamps remembered for a tenant. */
  function Check(ts: seq<int>, quota: int, window: int, now: int): (Verdict, seq<int>) {
    var kept := Kept(ts, now - window);
    if |kept| >= quota then
      var oldest := if kept == [] then now else kept[0];
      (Verdict(false, 0, Max1((oldest + window - now + 999) / 1000)), kept)
    else (Verdict(true, quota - |kept| - 1, 0), kept + [now])
  }

  class TenantLimits {
    const defaultQuota: int
    var customQuotas: map<Key, int>
    var windows: map<Key, seq<int>>

    function QuotaOf(tenant: Key): int
      reads this
    {
      if tenant in customQuotas then customQuotas[tenant] else defaultQuota
    }

    function Remembered(tenant: Key): seq<int>
      reads this
    {
      if tenant in windows then windows[tenant] else []
    }

    constructor (defaultQuota: int)
      ensures this.defaultQuota == defaultQuota && customQuotas == map[] && windows == map[]
    {
      this.defaultQuota := defaultQuota;
      customQuotas, windows := map[], map[];
    }

    method SetTenantQuota(tenant: Key, quota: int)
      modifies `customQuotas
      ensures QuotaOf(tenant) == quota
      ensures forall t :: t != tenant ==> QuotaOf(t) == old(QuotaOf(t))
    {
      customQuotas := customQuotas[tenant := quota];
    }

    method CheckRateLimit(tenant: Key, window: int, now: int) returns (verdict: Verdict)
      modifies `windows
      ensures (verdict, Remembered(tenant)) == Check(old(Remembered(tenant)), QuotaOf(tenant), window, now)
      ensures forall t :: t != tenant ==> Remembered(t) == old(Remembered(t))
    {
      var maxRequests := QuotaOf(tenant);
      var ts := if tenant in windows then windows[tenant] else [];
      var kept := FilterAfter(ts, now - window);
      if |kept| >= maxRequests {
        windows := windows[tenant := kept];
        var oldest := if kept == [] then now else kept[0];
        var retry := (oldest + window - now + 999) / 1000;
        return Verdict(false, 0, if retry < 1 then 1 else retry);
      }
      kept := kept + [now];
      windows := windows[tenant := kept];
      verdict := Verdict(true, maxRequests - |kept|, 0);
    }
  }

  method FilterAfter(ts: seq<int>, cutoff: int) returns (kept: seq<int>)
    ensures kept == Kept(ts, cutoff)
  {
    kept := [];
    for i := 0 to |ts|
      invariant kept == KeptOf(ts, i, cutoff)
    {
      if ts[i] > cutoff {
        kept := kept + [ts[i]];
      }
    }
  }

  // ---------------------------------------------------------------- one tenant's history

  /** `allowed` lists the times of all allowed requests; `ts` is what the limiter remembers. */
  datatype History = History(allowed: seq<int>, ts: seq<int>, last: int)

  predicate Climbing(times: seq<int>) {
    forall i, j :: 0 <= i < j < |times| ==> times[i] <= times[j]
  }

  function Request(h: History, quota: int, window: int, now: int): History {
    var (verdict, ts) := Check(h.ts, quota, window, now);
    History(if verdict.allowed then h.allowed + [now] else h.allowed, ts, now)
  }

  /** The history after the first `n` requests, made at the given times. */
  function After(times: seq<int>, n: nat, quota: int, window: int): History
    requires n <= |times| && times != []
  {
    if n == 0 then History([], [], times[0])
    else Request(After(times, n - 1, quota, window), quota, window, times[n - 1])
  }

  /** `ts` are the newest of the allowed times, and all that are left out lie at or before
      the cutoff. */
  ghost predicate Remembers(allowed: seq<int>, ts: seq<int>, cutoff: int) {
    && |ts| <= |allowed|
    && (forall i :: 0 <= i < |ts| ==> ts[i] == allowed[|allowed| - |ts| + i])
    && forall i :: 0 <= i < |allowed| - |ts| ==> allowed[i] <= cutoff
  }

  /** Any `quota + 1` consecutive times span a window. */
  ghost predicate Spaced(times: seq<int>, quota: nat, window: int) {
    forall i, j :: 0 <= i && j == i + quota && j < |times| ==> times[j] - times[i] >= window
  }

  ghost predicate Inv(h: History, quota: nat, window: int) {
    && Climbing(h.allowed) && (forall i :: 0 <= i < |h.allowed| ==> h.allowed[i] <= h.last)
    && |h.ts| <= quota && Remembers(h.allowed, h.ts, h.last - window)
    && Spaced(h.allowed, quota, window)
  }

  /** On climbing timestamps the kept ones are the newest. */
  lemma {:induction false} KeptIsSuffix(ts: seq<int>, n: nat, cutoff: int)
    requires n <= |ts| && Climbing(ts)
    ensures var k := KeptOf(ts, n, cutoff);
            && (forall i :: 0 <= i < |k| ==> k[i] == ts[n - |k| + i] && k[i] > cutoff)
            && (forall i :: 0 <= i < n - |k| ==> ts[i] <= cutoff)
  {
    if n > 0 {
      KeptIsSuffix(ts, n - 1, cutoff);
    }
  }

  lemma {:induction false} KeptRemembers(allowed: seq<int>, ts: seq<int>, before: int, cutoff: int)
    requires Climbing(allowed) && Remembers(allowed, ts, before) && before <= cutoff
    ensures Remembers(allowed, Kept(ts, cutoff), cutoff) && |Kept(ts, cutoff)| <= |ts|
  {
    var kept := Kept(ts, cutoff);
    var n, m := |allowed|, |ts|;
    KeptIsSuffix(ts, m, cutoff);
    forall i | 0 <= i < n - |kept|
      ensures allowed[i] <= cutoff
    {
      if i >= n - m {
        assert allowed[i] == ts[i - (n - m)];
      }
    }
    forall i | 0 <= i < |kept|
      ensures kept[i] == allowed[n - |kept| + i]
    {
      assert kept[i] == ts[m - |kept| + i];
    }
  }

  lemma {:induction false} AllowKeeps(allowed: seq<int>, kept: seq<int>, quota: int, window: int, now: int)
    requires quota > 0 && Climbing(allowed) && Spaced(allowed, quota, window)
    requires forall i :: 0 <= i < |allowed| ==> allowed[i] <= now
    requires Remembers(allowed, kept, now - window) && |kept| < quota
    ensures Climbing(allowed + [now]) && Spaced(allowed + [now], quota, window)
    ensures Remembers(allowed + [now], kept + [now], now - window)
  {
    var times := allowed + [now];
    forall i, j | 0 <= i && j == i + quota && j < |times|
      ensures times[j] - times[i] >= window
    {
      if j < |allowed| {
        assert allowed[j] - allowed[i] >= window;
      } else {
        assert allowed[i] <= now - window;
      }
    }
  }

  lemma {:induction false} InvWhen(allowed: seq<int>, ts: seq<int>, quota: nat, window: int, now: int)
    requires Climbing(allowed) && Spaced(allowed, quota, window) && Remembers(allowed, ts, now - window)
    requires |ts| <= quota && forall i :: 0 <= i < |allowed| ==> allowed[i] <= now
    ensures Inv(History(allowed, ts, now), quota, window)
  {
  }

  lemma {:induction false} RequestKeeps(h: History, quota: nat, window: int, now: int)
    requires quota > 0 && window > 0 && Inv(h, quota, window) && h.last <= now
    ensures Inv(Request(h, quota, window, now), quota, window)
  {
    var kept := Kept(h.ts, now - window);
    KeptRemembers(h.allowed, h.ts, h.last - window, now - window);
    if |kept| < quota {
      AllowKeeps(h.allowed, kept, quota, window, now);
      InvWhen(h.allowed + [now], kept + [now], quota, window, now);
    } else {
      InvWhen(h.allowed, kept, quota, window, now);
    }
  }

  lemma {:induction false} AfterKeeps(times: seq<int>, n: nat, quota: int, window: int)
    requires quota > 0 && window > 0 && Climbing(times) && n <= |times| && times != []
    ensures Inv(After(times, n, quota, window), quota, window)
    ensures After(times, n, quota, window).last == times[if n == 0 then 0 else n - 1]
  {
    if n > 0 {
      AfterKeeps(times, n - 1, quota, window);
      RequestKeeps(After(times, n - 1, quota, window), quota, window, times[n - 1]);
    }
  }

  /** How many of the first `n` times lie in [from, to). */
  function CountWithin(times: seq<int>, n: nat, from: int, to: int): (count: nat)
    requires n <= |times|
    ensures count <= n
  {
    if n == 0 then 0 else CountWithin(times, n - 1, from, to) + if from <= times[n - 1] < to then 1 else 0
  }

  /** Times that lie before a bound count for nothing. */
  lemma {:induction false} CountLate(times: seq<int>, k: nat, n: nat, from: int, to: int)
    requires k <= n <= |times| && forall i :: 0 <= i < k ==> times[i] < from
    ensures CountWithin(times, n, from, to) <= n - k
  {
    if n > k {
      CountLate(times, k, n - 1, from, to);
    } else if n > 0 {
      CountLate(times, k - 1, n - 1, from, to);
    }
  }

  /** If any `quota + 1` of them span a window, no window holds more than `quota`. */
  lemma {:induction false} SpacedWindows(times: seq<int>, n: nat, quota: nat, window: int, from: int)
    requires n <= |times| && Climbing(times) && Spaced(times, quota, window)
    ensures CountWithin(times, n, from, from + window) <= quota
  {
    if n > quota && times[n - 1] < from + window {
      assert times[n - 1] - times[n - 1 - quota] >= window;
      CountLate(times, n - quota, n, from, from + window);
    } else if n > 0 {
      SpacedWindows(times, n - 1, quota, window, from);
    }
  }

  /** For a fixed quota and window and a clock that does not run backwards, every half-open
      window of that length contains at most the quota of allowed requests, in every run. */
  lemma {:induction false} NoWindowExceedsQuota(times: seq<int>, n: nat, quota: int, window: int, from: int)
    requires quota > 0 && window > 0 && Climbing(times) && n <= |times| && times != []
    ensures var allowed := After(times, n, quota, window).allowed;
            CountWithin(allowed, |allowed|, from, from + window) <= quota
  {
    AfterKeeps(times, n, quota, window);
    var allowed := After(times, n, quota, window).allowed;
    SpacedWindows(allowed, |allowed|, quota, window, from);
  }

  lemma {:induction false} CountSuffix(times: seq<int>, n: nat, k: nat, from: int, to: int)
    requires k <= n <= |times|
    requires forall i :: 0 <= i < n - k ==> times[i] < from
    requires forall i :: n - k <= i < n ==> from <= times[i] < to
    ensures CountWithin(times, n, from, to) == k
  {
    if n > 0 {
      CountSuffix(times, n - 1, if k > 0 then k - 1 else 0, from, to);
    }
  }

  lemma {:induction false} KeptCounts(allowed: seq<int>, kept: seq<int>, cutoff: int, now: int)
    requires Remembers(allowed, kept, cutoff) && forall i :: 0 <= i < |kept| ==> cutoff < kept[i] <= now
    ensures CountWithin(allowed, |allowed|, cutoff + 1, now + 1) == |kept|
  {
    forall i | |allowed| - |kept| <= i < |allowed|
      ensures cutoff + 1 <= allowed[i] < now + 1
    {
      assert allowed[i] == kept[i - (|allowed| - |kept|)];
    }
    CountSuffix(allowed, |allowed|, |kept|, cutoff + 1, now + 1);
  }

  lemma {:induction false} CheckCounts(allowed: seq<int>, ts: seq<int>, before: int, cutoff: int, now: int)
    requires Climbing(allowed) && Remembers(allowed, ts, before) && before <= cutoff
    requires forall i :: 0 <= i < |allowed| ==> allowed[i] <= now
    ensures CountWithin(allowed, |allowed|, cutoff + 1, now + 1) == |Kept(ts, cutoff)|
  {
    var kept := Kept(ts, cutoff);
    KeptRemembers(allowed, ts, before, cutoff);
    KeptIsSuffix(ts, |ts|, cutoff);
    forall i | 0 <= i < |kept|
      ensures cutoff < kept[i] <= now
    {
      assert kept[i] == allowed[|allowed| - |kept| + i];
    }
    KeptCounts(allowed, kept, cutoff, now);
  }

  /** A request is allowed exactly when fewer than the quota were allowed within the window
      that ends with it: nothing is refused without cause. */
  lemma {:induction false} AllowedExactly(times: seq<int>, n: nat, quota: int, window: int)
    requires window > 0 && Climbing(times) && 0 < n <= |times|
    ensures var h, now := After(times, n - 1, quota, window), times[n - 1];
            Check(h.ts, quota, window, now).0.allowed <==>
              CountWithin(h.allowed, |h.allowed|, now - window + 1, now + 1) < quota
  {
    var h := After(times, n - 1, quota, window);
    if quota > 0 {
      AfterKeeps(times, n - 1, quota, window);
      HistoryCounts(h, quota, window, times[n - 1]);
    } else {
      NothingAllowed(h.ts, quota, window, times[n - 1]);
    }
  }

  lemma {:induction false} NothingAllowed(ts: seq<int>, quota: int, window: int, now: int)
    requires quota <= 0
    ensures var verdict := Check(ts, quota, window, now).0;
            !verdict.allowed && verdict.remaining == 0 && verdict.retryAfterSeconds >= 1
  {
  }

  lemma {:induction false} HistoryCounts(h: History, quota: nat, window: int, now: int)
    requires window > 0 && Inv(h, quota, window) && h.last <= now
    ensures Check(h.ts, quota, window, now).0.allowed <==>
              CountWithin(h.allowed, |h.allowed|, now - window + 1, now + 1) < quota
  {
    CheckCounts(h.allowed, h.ts, h.last - window, now - window, now);
  }

  lemma {:induction false} RefusalEnds(h: History, quota: nat, window: int, now: int, next: int)
    requires quota > 0 && window > 0 && Inv(h, quota, window) && h.last <= now
    requires var (verdict, _) := Check(h.ts, quota, window, now);
             !verdict.allowed && next >= now + 1000 * verdict.retryAfterSeconds
    ensures Check(Request(h, quota, window, now).ts, quota, window, next).0.allowed
  {
    var kept := Kept(h.ts, now - window);
    KeptRemembers(h.allowed, h.ts, h.last - window, now - window);
    RetryDelay(kept[0], window, now);
    OldestDropped(kept, next - window);
  }

  /** A refused tenant that stays silent for the reported time is allowed next. */
  lemma {:induction false} RetryIsHonoured(times: seq<int>, n: nat, quota: int, window: int, next: int)
    requires quota > 0 && window > 0 && Climbing(times) && 0 < n <= |times|
    requires var (verdict, _) := Check(After(times, n - 1, quota, window).ts, quota, window, times[n - 1]);
             !verdict.allowed && next >= times[n - 1] + 1000 * verdict.retryAfterSeconds
    ensures Check(After(times, n, quota, window).ts, quota, window, next).0.allowed
  {
    AfterKeeps(times, n - 1, quota, window);
    RefusalEnds(After(times, n - 1, quota, window), quota, window, times[n - 1], next);
  }

  lemma {:induction false} RetryDelay(oldest: int, window: int, now: int)
    ensures now + 1000 * Max1((oldest + window - now + 999) / 1000) >= oldest + window
  {
  }

  lemma {:induction false} OldestDropped(ts: seq<int>, cutoff: int)
    requires ts != [] && Climbing(ts) && ts[0] <= cutoff
    ensures |Kept(ts, cutoff)| < |ts|
  {
    var kept := Kept(ts, cutoff);
    KeptIsSuffix(ts, |ts|, cutoff);
    if kept != [] {
      assert kept[0] == ts[|ts| - |kept|];
    }
  }

  // ---------------------------------------------------------------- the verdict

  lemma {:induction false} KeptIsCounted(h: History, quota: nat, window: int, now: int)
    requires window > 0 && Inv(h, quota, window) && h.last <= now
    ensures CountWithin(h.allowed, |h.allowed|, now - window + 1, now + 1) == |Kept(h.ts, now - window)|
  {
    CheckCounts(h.allowed, h.ts, h.last - window, now - window, now);
  }

  /** The whole verdict: an allowed request is told how many more the window has room for, and to
      wait for nothing; a refused one that there is no room, and to wait for at least a second. */
  lemma {:induction false} VerdictExactly(times: seq<int>, n: nat, quota: int, window: int)
    requires window > 0 && Climbing(times) && 0 < n <= |times|
    ensures var h, now := After(times, n - 1, quota, window), times[n - 1];
            var verdict := Check(h.ts, quota, window, now).0;
            var count := CountWithin(h.allowed, |h.allowed|, now - window + 1, now + 1);
            if count < quota then verdict == Verdict(true, quota - count - 1, 0)
            else !verdict.allowed && verdict.remaining == 0 && verdict.retryAfterSeconds >= 1
  {
    var h := After(times, n - 1, quota, window);
    if quota > 0 {
      AfterKeeps(times, n - 1, quota, window);
      HistoryVerdict(h, quota, window, times[n - 1]);
    } else {
      NothingAllowed(h.ts, quota, window, times[n - 1]);
    }
  }

  lemma {:induction false} HistoryVerdict(h: History, quota: nat, window: int, now: int)
    requires window > 0 && Inv(h, quota, window) && h.last <= now
    ensures var verdict := Check(h.ts, quota, window, now).0;
            var count := CountWithin(h.allowed, |h.allowed|, now - window + 1, now + 1);
            if count < quota then verdict == Verdict(true, quota - count - 1, 0)
            else !verdict.allowed && verdict.remaining == 0 && verdict.retryAfterSeconds >= 1
  {
    KeptIsCounted(h, quota, window, now);
  }

  /** The reported time is the least number of whole seconds: until the last of them begins, a
      tenant that stays silent is still refused. */
  lemma {:induction false} RetryIsLeast(times: seq<int>, n: nat, quota: int, window: int, next: int)
    requires quota > 0 && window > 0 && Climbing(times) && 0 < n <= |times|
    requires var (verdict, _) := Check(After(times, n - 1, quota, window).ts, quota, window, times[n - 1]);
             !verdict.allowed && 1 < verdict.retryAfterSeconds
             && next <= times[n - 1] + 1000 * (verdict.retryAfterSeconds - 1)
    ensures !Check(After(times, n, quota, window).ts, quota, window, next).0.allowed
  {
    AfterKeeps(times, n - 1, quota, window);
    RefusalLasts(After(times, n - 1, quota, window), quota, window, times[n - 1], next);
  }

  lemma {:induction false} RefusalLasts(h: History, quota: nat, window: int, now: int, next: int)
    requires quota > 0 && window > 0 && Inv(h, quota, window) && h.last <= now
    requires var (verdict, _) := Check(h.ts, quota, window, now);
             !verdict.allowed && 1 < verdict.retryAfterSeconds
             && next <= now + 1000 * (verdict.retryAfterSeconds - 1)
    ensures !Check(Request(h, quota, window, now).ts, quota, window, next).0.allowed
  {
    var kept := Kept(h.ts, now - window);
    DelayIsLeast(kept[0], window, now);
    KeptClimbs(h, quota, window, now);
    NothingDropped(kept, |kept|, next - window);
  }

  lemma {:induction false} KeptClimbs(h: History, quota: nat, window: int, now: int)
    requires Inv(h, quota, window) && h.last <= now
    ensures var kept := Kept(h.ts, now - window); forall i :: 0 <= i < |kept| ==> kept[0] <= kept[i]
  {
    KeptRemembers(h.allowed, h.ts, h.last - window, now - window);
  }

  lemma {:induction false} DelayIsLeast(oldest: int, window: int, now: int)
    ensures var r := Max1((oldest + window - now + 999) / 1000); r > 1 ==> now + 1000 * (r - 1) < oldest + window
  {
  }

  lemma {:induction false} NothingDropped(ts: seq<int>, n: nat, cutoff: int)
    requires n <= |ts| && forall i :: 0 <= i < n ==> ts[i] > cutoff
    ensures |KeptOf(ts, n, cutoff)| == n
  {
    if n > 0 { NothingDropped(ts, n - 1, cutoff); }
  }
}
