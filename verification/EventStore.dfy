/** The ring-buffer event store and the paged replay over it
    (packages/event-bus/src/EventStore.ts, EventReplay.ts). */
module EventStore {
  import opened Arithmetic
  import opened Shared

  datatype Envelope = Envelope(
    tenant: string, agent: string, task: string, session: string, eventType: string, sequence: int, timestamp: int)

  /** An empty text or list filters nothing, as in the source. */
  datatype Query = Query(
    tenant: string, agent: string, task: string, session: string, eventTypes: seq<string>,
    fromSequence: Option<int>, toSequence: Option<int>, fromTimestamp: Option<int>, toTimestamp: Option<int>,
    limit: Option<int>, offset: Option<int>)

  predicate Selects(q: Query, e: Envelope) {
    && (q.tenant == "" || e.tenant == q.tenant)
    && (q.agent == "" || e.agent == q.agent)
    && (q.task == "" || e.task == q.task)
    && (q.session == "" || e.session == q.session)
    && (q.eventTypes == [] || e.eventType in q.eventTypes)
    && (q.fromSequence.Some? ==> e.sequence >= q.fromSequence.value)
    && (q.toSequence.Some? ==> e.sequence <= q.toSequence.value)
    && (q.fromTimestamp.Some? ==> e.timestamp >= q.fromTimestamp.value)
    && (q.toTimestamp.Some? ==> e.timestamp <= q.toTimestamp.value)
  }

  function Selected(q: Query, es: seq<Envelope>): seq<Envelope> {
    if es == [] then []
    else (if Selects(q, es[0]) then [es[0]] else []) + Selected(q, es[1..])
  }

  /** A `slice` argument as an index: negative ones count from the end. */
  function SliceIndex(i: int, n: nat): (k: nat)
    ensures k <= n
  {
    if i < 0 then if n + i < 0 then 0 else n + i else if i > n then n else i
  }

  function Slice<T>(s: seq<T>, start: int, end: int): seq<T> {
    var a, b := SliceIndex(start, |s|), SliceIndex(end, |s|);
    if a < b then s[a..b] else []
  }

  function GetOr(o: Option<int>, default: int): int {
    if o.Some? then o.value else default
  }

  function Answer(q: Query, es: seq<Envelope>): seq<Envelope> {
    var offset := GetOr(q.offset, 0);
    Slice(Selected(q, es), offset, offset + GetOr(q.limit, 100))
  }

  /** The greatest sequence number that a tenant's events carry, at least zero. */
  function Latest(es: seq<Envelope>, tenant: string): int {
    if es == [] then 0
    else
      var before, e := Latest(es[..|es| - 1], tenant), es[|es| - 1];
      if e.tenant == tenant && e.sequence > before then e.sequence else before
  }

  /** The last `n` elements. */
  function LastOf<T>(s: seq<T>, n: nat): seq<T> {
    s[|s| - Min(n, |s|)..]
  }

  /** Reading from the write position on a full buffer starts at the oldest event. */
  lemma {:induction false} ModShift(n: nat, cap: nat, i: nat)
    requires cap > 0 && n >= cap
    ensures (n % cap + i) % cap == (n - cap + i) % cap
  {
    assert n % cap + i == (n - cap + i) + (1 - n / cap) * cap;
    ModPlus(n - cap + i, cap, 1 - n / cap);
  }

  /** The cells show the last `n` events of the log, each at its position modulo the size. */
  ghost predicate Shows(cells: seq<Option<Envelope>>, log: seq<Envelope>, n: nat) {
    |cells| > 0 && forall i :: |log| - n <= i < |log| && i >= 0 ==> cells[i % |cells|] == Some(log[i])
  }

  lemma {:induction false} ShowsNext(cells: seq<Option<Envelope>>, log: seq<Envelope>, e: Envelope)
    requires Shows(cells, log, Min(|cells|, |log|))
    ensures Shows(cells[|log| % |cells| := Some(e)], log + [e], Min(|cells|, |log| + 1))
  {
    var cap, n := |cells|, |log|;
    var cells' := cells[n % cap := Some(e)];
    forall i | n + 1 - Min(cap, n + 1) <= i < n + 1
      ensures cells'[i % cap] == Some((log + [e])[i])
    {
      if i < n {
        SameCell(i, n, cap);
      }
    }
  }

  predicate Tracks(counters: map<string, int>, es: seq<Envelope>, tenant: string) {
    (if tenant in counters then counters[tenant] else 0) == Latest(es, tenant)
  }

  lemma {:induction false} LatestNext(es: seq<Envelope>, e: Envelope, tenant: string)
    ensures Latest(es + [e], tenant)
         == if e.tenant == tenant && e.sequence > Latest(es, tenant) then e.sequence else Latest(es, tenant)
  {
    assert (es + [e])[..|es|] == es;
  }

  /** The latest sequence is the greatest one of the tenant, and zero without any. */
  lemma {:induction false} LatestIsGreatest(es: seq<Envelope>, tenant: string)
    ensures forall e :: e in es && e.tenant == tenant ==> e.sequence <= Latest(es, tenant)
    ensures Latest(es, tenant) == 0 || exists e :: e in es && e.tenant == tenant && e.sequence == Latest(es, tenant)
  {
    if es != [] {
      var n := |es| - 1;
      LatestIsGreatest(es[..n], tenant);
      assert es == es[..n] + [es[n]];
      if Latest(es, tenant) == Latest(es[..n], tenant) != 0 {
        var e :| e in es[..n] && e.tenant == tenant && e.sequence == Latest(es[..n], tenant);
        assert e in es;
      }
    }
  }

  /** A query answers with exactly the events it selects, each as often as it is stored. */
  lemma {:induction false} SelectedIsExact(q: Query, es: seq<Envelope>, e: Envelope)
    ensures multiset(Selected(q, es))[e] == if Selects(q, e) then multiset(es)[e] else 0
  {
    if es != [] {
      SelectedIsExact(q, es[1..], e);
      assert es == [es[0]] + es[1..];
    }
  }

  /** A criterion that is given rules the event out. */
  predicate RuledOut(q: Query, e: Envelope) {
    || (q.tenant != "" && q.tenant != e.tenant)
    || (q.agent != "" && q.agent != e.agent)
    || (q.task != "" && q.task != e.task)
    || (q.session != "" && q.session != e.session)
    || (|q.eventTypes| > 0 && e.eventType !in q.eventTypes)
    || (q.fromSequence.Some? && e.sequence < q.fromSequence.value)
    || (q.toSequence.Some? && e.sequence > q.toSequence.value)
    || (q.fromTimestamp.Some? && e.timestamp < q.fromTimestamp.value)
    || (q.toTimestamp.Some? && e.timestamp > q.toTimestamp.value)
  }

  /** Whether position `k` of `n` lies in a slice: negative bounds count from the end. */
  predicate InSlice(k: int, n: nat, start: int, end: int) {
    (if start < 0 then k - n >= start else k >= start) && (if end < 0 then k - n < end else k < end)
  }

  lemma {:induction false} SliceExactly<T>(s: seq<T>, start: int, end: int) returns (a: nat)
    ensures var t := Slice(s, start, end);
            && a + |t| <= |s| && t == s[a..a + |t|]
            && forall k :: 0 <= k < |s| ==> (a <= k < a + |t| <==> InSlice(k, |s|, start, end))
  {
    var b := SliceIndex(end, |s|);
    a := SliceIndex(start, |s|);
    if a >= b { a := 0; }
  }

  /** The events that no criterion rules out, in their order and as often as they are stored, from
      the given offset on and at most a hundred of them unless a limit is given. */
  lemma {:induction false} AnswerExactly(q: Query, es: seq<Envelope>) returns (matching: seq<Envelope>, a: nat)
    ensures matching == Selected(q, es)
    ensures forall e :: multiset(matching)[e] == if RuledOut(q, e) then 0 else multiset(es)[e]
    ensures var t := Answer(q, es);
            var offset := if q.offset == None then 0 else q.offset.value;
            var end := offset + if q.limit == None then 100 else q.limit.value;
            && a + |t| <= |matching| && t == matching[a..a + |t|]
            && forall k :: 0 <= k < |matching| ==> (a <= k < a + |t| <==> InSlice(k, |matching|, offset, end))
  {
    matching := Selected(q, es);
    MatchingExactly(q, es);
    var offset := GetOr(q.offset, 0);
    a := SliceExactly(matching, offset, offset + GetOr(q.limit, 100));
  }

  lemma {:induction false} MatchingExactly(q: Query, es: seq<Envelope>)
    ensures forall e :: multiset(Selected(q, es))[e] == if RuledOut(q, e) then 0 else multiset(es)[e]
  {
    forall e
      ensures multiset(Selected(q, es))[e] == if RuledOut(q, e) then 0 else multiset(es)[e]
    {
      SelectedIsExact(q, es, e);
    }
  }

  lemma {:induction false} Associate(a: seq<Envelope>, b: seq<Envelope>, c: seq<Envelope>)
    ensures a + (b + c) == a + b + c
  {
  }

  /** And in their order: what is selected from two stretches is selected from one after the other. */
  lemma {:induction false} SelectedInOrder(q: Query, es: seq<Envelope>, fs: seq<Envelope>)
    ensures Selected(q, es + fs) == Selected(q, es) + Selected(q, fs)
  {
    if es == [] {
      assert es + fs == fs;
    } else {
      SelectedInOrder(q, es[1..], fs);
      assert (es + fs)[0] == es[0] && (es + fs)[1..] == es[1..] + fs;
      var first := if Selects(q, es[0]) then [es[0]] else [];
      Associate(first, Selected(q, es[1..]), Selected(q, fs));
    }
  }

  class RingBuffer {
    const capacity: nat
    const buffer: array<Option<Envelope>>
    var head: nat
    var count: nat
    var counters: map<string, int>
    ghost var log: seq<Envelope>  // everything appended since the last clear

    ghost predicate Valid()
      reads this, buffer
    {
      && capacity > 0 && buffer.Length == capacity
      && count == Min(capacity, |log|) && head == |log| % capacity
      && Shows(buffer[..], log, count)
      && (forall t :: Tracks(counters, log, t))
    }

    constructor (capacity: nat)
      requires capacity > 0
      ensures Valid() && log == [] && this.capacity == capacity && fresh(buffer)
    {
      this.capacity := capacity;
      buffer := new Option<Envelope>[capacity](_ => None);
      head, count, counters, log := 0, 0, map[], [];
    }

    method Append(e: Envelope)
      requires Valid()
      modifies this, buffer
      ensures Valid() && log == old(log) + [e]
    {
      Count(e);
      ShowsNext(buffer[..], log, e);
      NextCell(|log|, capacity);
      buffer[head] := Some(e);
      head := (head + 1) % capacity;
      if count < capacity {
        count := count + 1;
      }
      log := log + [e];
    }

    method Count(e: Envelope)
      requires forall t :: Tracks(counters, log, t)
      modifies `counters
      ensures forall t :: Tracks(counters, log + [e], t)
    {
      assert Tracks(counters, log, e.tenant);
      var current := if e.tenant in counters then counters[e.tenant] else 0;
      if e.sequence > current {
        counters := counters[e.tenant := e.sequence];
      }
      forall t
        ensures Tracks(counters, log + [e], t)
      {
        LatestNext(log, e, t);
        assert Tracks(old(counters), log, t);
      }
    }

    /** The buffer denotes the last `capacity` events appended since the last clear. */
    method GetAllBufferedEvents() returns (events: seq<Envelope>)
      requires Valid()
      ensures events == LastOf(log, capacity)
    {
      events := [];
      if count == 0 {
        return;
      }
      var start := if count < capacity then 0 else head;
      var i := 0;
      while i < count
        invariant 0 <= i <= count
        invariant events == log[|log| - count..|log| - count + i]
      {
        var idx := (start + i) % capacity;
        if count == capacity {
          ModShift(|log|, capacity, i);
        }
        assert idx == (|log| - count + i) % capacity;
        var item := buffer[..][idx];
        if item.Some? {
          events := events + [item.value];
        }
        i := i + 1;
      }
      assert log[|log| - count..|log|] == LastOf(log, capacity);
    }

    method RunQuery(q: Query) returns (events: seq<Envelope>)
      requires Valid()
      ensures events == Answer(q, LastOf(log, capacity))
    {
      var all := GetAllBufferedEvents();
      var filtered := FilterEvents(q, all);
      var offset := GetOr(q.offset, 0);
      events := Slice(filtered, offset, offset + GetOr(q.limit, 100));
    }

    /** Counts evicted events too. */
    method GetLatestSequence(tenant: string) returns (sequence: int)
      requires Valid()
      ensures sequence == Latest(log, tenant)
    {
      assert Tracks(counters, log, tenant);
      sequence := if tenant in counters then counters[tenant] else 0;
    }

    method Clear()
      requires Valid()
      modifies this, buffer
      ensures Valid() && log == []
    {
      forall i | 0 <= i < buffer.Length {
        buffer[i] := None;
      }
      head, count, counters, log := 0, 0, map[], [];
    }
  }

  lemma {:induction false} NextCell(n: nat, capacity: nat)
    requires capacity > 0
    ensures (n % capacity + 1) % capacity == (n + 1) % capacity
  {
    assert n + 1 == (n % capacity + 1) + n / capacity * capacity;
    ModPlus(n % capacity + 1, capacity, n / capacity);
  }

  method FilterEvents(q: Query, es: seq<Envelope>) returns (r: seq<Envelope>)
    ensures r == Selected(q, es)
  {
    r := [];
    var i := 0;
    while i < |es|
      invariant 0 <= i <= |es|
      invariant r + Selected(q, es[i..]) == Selected(q, es)
    {
      SelectedFrom(q, es, i, r);
      if Selects(q, es[i]) {
        r := r + [es[i]];
      }
      i := i + 1;
    }
    assert r + [] == r;
  }

  lemma {:induction false} SelectedFrom(q: Query, es: seq<Envelope>, i: nat, r: seq<Envelope>)
    requires i < |es|
    ensures r + Selected(q, es[i..])
         == (if Selects(q, es[i]) then r + [es[i]] else r) + Selected(q, es[i + 1..])
  {
    assert es[i..][0] == es[i] && es[i..][1..] == es[i + 1..];
    assert r + ([es[i]] + Selected(q, es[i + 1..])) == r + [es[i]] + Selected(q, es[i + 1..]);
  }

  // ---------------------------------------------------------------- replay

  /** The events handled before the first one on which the handler throws. */
  function Handled<T>(handler: T -> bool, es: seq<T>): seq<T> {
    if es == [] || !handler(es[0]) then [] else [es[0]] + Handled(handler, es[1..])
  }

  /** The first `k` events are handled and the next one, if any, is not. */
  ghost predicate StopsAt<T>(handler: T -> bool, es: seq<T>, k: nat) {
    && k <= |es|
    && (forall i :: 0 <= i < k ==> handler(es[i]))
    && (k < |es| ==> !handler(es[k]))
  }

  lemma {:induction false} HandledIsPrefix<T>(handler: T -> bool, es: seq<T>, k: nat)
    requires StopsAt(handler, es, k)
    ensures Handled(handler, es) == es[..k]
    decreases k
  {
    if k > 0 {
      var rest := es[1..];
      assert forall i :: 0 <= i < |rest| ==> rest[i] == es[i + 1];
      HandledIsPrefix(handler, rest, k - 1);
      assert es[..k] == [es[0]] + rest[..k - 1];
    }
  }

  /** Delivers one page; `false` from the handler stands for an exception. */
  method Deliver<T>(handler: T -> bool, page: seq<T>) returns (count: nat)
    ensures StopsAt(handler, page, count)
  {
    count := 0;
    while count < |page| && handler(page[count])
      invariant count <= |page| && forall i :: 0 <= i < count ==> handler(page[i])
    {
      count := count + 1;
    }
  }

  method NextPage(store: RingBuffer, query: Query, batchSize: int, offset: int) returns (page: seq<Envelope>)
    requires store.Valid()
    ensures page == Slice(Selected(query, LastOf(store.log, store.capacity)), offset, offset + batchSize)
  {
    var q := query.(limit := Some(batchSize), offset := Some(offset));
    SelectedSame(query, q, LastOf(store.log, store.capacity));
    page := store.RunQuery(q);
  }

  lemma {:induction false} SelectedSame(q: Query, p: Query, es: seq<Envelope>)
    requires p == q.(limit := p.limit, offset := p.offset)
    ensures Selected(p, es) == Selected(q, es)
  {
    if es != [] {
      SelectedSame(q, p, es[1..]);
    }
  }

  /** The matching events from position `from` on. */
  function From<T>(matching: seq<T>, from: int): seq<T>
    requires from >= 0
  {
    matching[Min(from, |matching|)..]
  }

  /** Everything between `start` and `offset` was handled and delivered. */
  ghost predicate Progress<T>(handler: T -> bool, matching: seq<T>, start: int, offset: int, delivered: seq<T>) {
    if start <= offset <= |matching| && start >= 0 then
      delivered == matching[start..offset] && forall i :: start <= i < offset ==> handler(matching[i])
    else delivered == [] && start == offset
  }

  /** The replay stopped after `count` more events, for want of events or by an exception. */
  lemma {:induction false} ReplayStops<T>(
    handler: T -> bool, matching: seq<T>, start: nat, offset: int, delivered: seq<T>, count: nat)
    requires Progress(handler, matching, start, offset, delivered) && start <= offset
    requires StopsAt(handler, From(matching, offset), count)
    ensures delivered + From(matching, offset)[..count] == Handled(handler, From(matching, start))
    ensures count == |From(matching, offset)| <==>
              delivered + From(matching, offset)[..count] == From(matching, start)
  {
    var expected, rest := From(matching, start), From(matching, offset);
    assert expected == delivered + rest;
    StopsAfter(handler, delivered, rest, count);
    HandledIsPrefix(handler, expected, |delivered| + count);
    assert expected[..|delivered| + count] == delivered + rest[..count];
  }

  lemma {:induction false} StopsAfter<T>(handler: T -> bool, delivered: seq<T>, rest: seq<T>, count: nat)
    requires (forall x :: x in delivered ==> handler(x)) && StopsAt(handler, rest, count)
    ensures StopsAt(handler, delivered + rest, |delivered| + count)
  {
    var all := delivered + rest;
    assert forall i :: |delivered| <= i < |all| ==> all[i] == rest[i - |delivered|];
  }

  /** A page is the next stretch of the matching events, and a short one is the last. */
  lemma {:induction false} PageIsNext<T>(
    handler: T -> bool, matching: seq<T>, offset: nat, batchSize: int, page: seq<T>, count: nat)
    requires batchSize > 0 && page == Slice(matching, offset, offset + batchSize) && StopsAt(handler, page, count)
    ensures |page| <= |From(matching, offset)| && page == From(matching, offset)[..|page|]
    ensures |page| < batchSize ==> |page| == |From(matching, offset)|
    ensures count < |page| || |page| < batchSize ==> StopsAt(handler, From(matching, offset), count)
  {
    var rest := From(matching, offset);
    assert forall i :: 0 <= i < |page| ==> page[i] == rest[i];
  }

  lemma {:induction false} PageDone<T>(
    handler: T -> bool, matching: seq<T>, start: nat, offset: int, delivered: seq<T>, page: seq<T>)
    requires Progress(handler, matching, start, offset, delivered) && start <= offset && page != []
    requires |page| <= |From(matching, offset)| && page == From(matching, offset)[..|page|]
    requires StopsAt(handler, page, |page|)
    ensures Progress(handler, matching, start, offset + |page|, delivered + page)
  {
    assert forall i :: offset <= i < offset + |page| ==> matching[i] == page[i - offset];
  }

  /** Pages through the matching events from the query's offset on. With a positive batch size
      and a non-negative offset it delivers each of them once, in order, until the handler
      throws; it always ends. */
  method Replay(store: RingBuffer, query: Query, batchSize: int, handler: Envelope -> bool)
    returns (delivered: seq<Envelope>, completed: bool)
    requires store.Valid()
    ensures batchSize > 0 && GetOr(query.offset, 0) >= 0 ==>
              var expected := From(Selected(query, LastOf(store.log, store.capacity)), GetOr(query.offset, 0));
              delivered == Handled(handler, expected) && completed == (delivered == expected)
  {
    ghost var matching := Selected(query, LastOf(store.log, store.capacity));
    var start := GetOr(query.offset, 0);
    ghost var sane := batchSize > 0 && start >= 0;
    var offset := start;
    delivered := [];
    while true
      invariant offset >= start
      invariant sane ==> Progress(handler, matching, start, offset, delivered)
      decreases |matching| - offset
    {
      var size, done;
      delivered, size, completed, done := ReplayPage(store, query, batchSize, handler, start, offset, delivered);
      if done {
        return;
      }
      offset := offset + size;
    }
  }

  /** What one page adds: the replay is over, or everything up to its end was delivered. */
  lemma {:induction false} PageOutcome<T>(
    handler: T -> bool, matching: seq<T>, start: nat, offset: int, before: seq<T>, batchSize: int, page: seq<T>,
    count: nat)
    requires batchSize > 0 && start <= offset && Progress(handler, matching, start, offset, before)
    requires page == Slice(matching, offset, offset + batchSize) && StopsAt(handler, page, count)
    ensures if count < |page| || |page| < batchSize then
              && before + page[..count] == Handled(handler, From(matching, start))
              && (count == |page| <==> before + page[..count] == From(matching, start))
            else Progress(handler, matching, start, offset + |page|, before + page)
  {
    PageIsNext(handler, matching, offset, batchSize, page, count);
    if count < |page| || |page| < batchSize {
      ReplayStops(handler, matching, start, offset, before, count);
      assert page[..count] == From(matching, offset)[..count];
    } else {
      PageDone(handler, matching, start, offset, before, page);
    }
  }

  /** One turn of the replay loop. */
  method ReplayPage(
    store: RingBuffer, query: Query, batchSize: int, handler: Envelope -> bool, ghost start: int, offset: int,
    before: seq<Envelope>)
    returns (delivered: seq<Envelope>, size: nat, completed: bool, done: bool)
    requires store.Valid() && start <= offset
    requires batchSize > 0 && start >= 0 ==>
               Progress(handler, Selected(query, LastOf(store.log, store.capacity)), start, offset, before)
    ensures var matching := Selected(query, LastOf(store.log, store.capacity));
            if !done then
              && size > 0 && offset < |matching|
              && (batchSize > 0 && start >= 0 ==> Progress(handler, matching, start, offset + size, delivered))
            else
              batchSize > 0 && start >= 0 ==>
                && delivered == Handled(handler, From(matching, start))
                && completed == (delivered == From(matching, start))
  {
    var page := NextPage(store, query, batchSize, offset);
    var count := Deliver(handler, page);
    size, completed := |page|, count == |page|;
    done := !completed || |page| < batchSize || page == [];
    ghost var matching := Selected(query, LastOf(store.log, store.capacity));
    delivered := before + page[..count];
    if batchSize > 0 && start >= 0 {
      PageOutcome(handler, matching, start, offset, before, batchSize, page, count);
    }
  }
}
