/** When the integrity check passes what the audit writer has stored, over all its runs: failed
    flushes, restarts and calls of `initialize` at any moment included. */
module LedgerCheck {
  import opened Canonical
  import opened Merkle
  import opened HashChain
  import opened Ledger
  import opened Shared

  // ---------------------------------------------------------------- one batch

  /** `s` takes the number after that of `r` and links to it. */
  predicate Joined(r: Record, s: Record) {
    s.sequence == r.sequence + 1 && s.prevHash == r.hash
  }

  /** None of the batch's numbers is taken, and some stored record joins the batch at one of its
      ends, unless nothing is stored. */
  ghost predicate Fits(stored: seq<Record>, batch: seq<Record>)
    requires batch != []
  {
    && (forall r, s :: r in stored && s in batch ==> r.sequence != s.sequence)
    && (stored == [] || exists r :: r in stored && (Joined(r, batch[0]) || Joined(batch[|batch| - 1], r)))
  }

  lemma {:induction false} ChainConcat(rs: seq<Record>, ss: seq<Record>)
    requires Chained(rs) && Chained(ss)
    requires rs != [] && ss != [] ==> Joined(rs[|rs| - 1], ss[0])
    ensures Chained(rs + ss)
  {
    var all := rs + ss;
    forall i | 0 <= i < |all|
      ensures Holds(all, i)
    {
      assert if i < |rs| then Holds(rs, i) else Holds(ss, i - |rs|);
    }
  }

  /** A batch in its own order can only join the end or the start of a chain. */
  lemma {:induction false} FittingChains(all: seq<Record>, batch: seq<Record>, r: Record)
    requires Chained(all) && Chained(batch) && batch != [] && r in all
    requires forall r, s :: r in all && s in batch ==> r.sequence != s.sequence
    ensures Joined(r, batch[0]) ==> Chained(all + batch)
    ensures Joined(batch[|batch| - 1], r) ==> Chained(batch + all)
  {
    var k := PlaceInChain(all, r);
    assert batch[0] in batch && batch[|batch| - 1] in batch && forall i :: 0 <= i < |all| ==> all[i] in all;
    if Joined(r, batch[0]) {
      if k + 1 < |all| { ChainedAscends(all, k, k + 1); }
      ChainConcat(all, batch);
    }
    if Joined(batch[|batch| - 1], r) {
      if k > 0 { ChainedAscends(all, k - 1, k); }
      ChainConcat(batch, all);
    }
  }

  lemma {:induction false} Arranged(rs: seq<Record>) returns (all: seq<Record>)
    requires Verify(rs).Valid?
    ensures Chained(all) && multiset(all) == multiset(rs)
  {
    all := SortBySequence(rs);
    SortBySequenceSpec(rs);
    CheckIsChained(all, 0);
  }

  lemma {:induction false} FittingPasses(stored: seq<Record>, batch: seq<Record>)
    requires Verify(stored).Valid? && Chained(batch) && batch != [] && Fits(stored, batch)
    ensures Verify(stored + batch).Valid?
  {
    var all := Arranged(stored);
    SameMembers(all, stored);
    ValidIsChainable(stored + batch);
    if stored == [] {
      assert stored + batch == batch;
      ChainedVerifies(batch);
    } else {
      var r :| r in stored && (Joined(r, batch[0]) || Joined(batch[|batch| - 1], r));
      FittingChains(all, batch, r);
      SameConcat(all, stored, batch);
    }
  }

  lemma {:induction false} SameConcat(rs: seq<Record>, ss: seq<Record>, batch: seq<Record>)
    requires multiset(rs) == multiset(ss)
    ensures multiset(rs + batch) == multiset(ss + batch) == multiset(batch + rs)
  {
  }

  lemma {:induction false} SameMembers(rs: seq<Record>, ss: seq<Record>)
    requires multiset(rs) == multiset(ss)
    ensures forall r :: r in rs <==> r in ss
  {
    forall r
      ensures r in rs <==> r in ss
    {
      assert r in multiset(rs) <==> r in multiset(ss);
    }
  }

  /** In a chain, the neighbours of a stretch that is not all of it join its ends. */
  lemma {:induction false} NeighbourJoins(all: seq<Record>, batch: seq<Record>) returns (r: Record)
    requires Chained(all) && Chained(batch) && batch != [] && |batch| < |all| && forall s :: s in batch ==> s in all
    ensures r in all && r !in batch && (Joined(r, batch[0]) || Joined(batch[|batch| - 1], r))
  {
    var i := ChainWithinChain(all, batch);
    var n := |batch|;
    assert batch[0] == all[i] && batch[n - 1] == all[i + n - 1];
    r := if i > 0 then all[i - 1] else all[n];
    if i > 0 {
      assert Holds(all, i);
    } else {
      assert Holds(all, n);
    }
    forall k | 0 <= k < n
      ensures batch[k] != r
    {
      ChainedAscends(batch, 0, k);
      ChainedAscends(batch, k, n - 1);
    }
  }

  lemma {:induction false} PassingFits(stored: seq<Record>, batch: seq<Record>)
    requires Verify(stored + batch).Valid? && Chained(batch) && batch != []
    ensures Fits(stored, batch)
  {
    var both := stored + batch;
    ValidIsChainable(both);
    var all :| multiset(all) == multiset(both) && Chained(all);
    forall r, s | r in stored && s in batch
      ensures r.sequence != s.sequence
    {
      var i :| 0 <= i < |stored| && stored[i] == r;
      var j :| 0 <= j < |batch| && batch[j] == s;
      ChainedOnce(both, all, i, |stored| + j);
      assert both[i] == r && both[|stored| + j] == s;
    }
    if stored != [] {
      SameMembers(all, both);
      SameSize(all, both);
      var r := NeighbourJoins(all, batch);
      assert r in both && r in stored;
    }
  }

  /** A batch that is stored keeps an accepted ledger acceptable if and only if it fits. */
  lemma {:induction false} StoreExactly(stored: seq<Record>, batch: seq<Record>)
    requires Verify(stored).Valid? && Chained(batch) && batch != []
    ensures Verify(stored + batch).Valid? <==> Fits(stored, batch)
  {
    if Verify(stored + batch).Valid? {
      PassingFits(stored, batch);
    } else if Fits(stored, batch) {
      FittingPasses(stored, batch);
    }
  }

  // ---------------------------------------------------------------- all runs

  predicate Passes(w: Writer) {
    Verify(Records(w.records)).Valid?
  }

  /** The batch of a flush is a chain, whatever the writer numbers it from. */
  ghost predicate BatchChained(w: Writer) {
    w.phase.Sealed? ==> w.phase.entries != [] && Chained(Records(w.phase.entries))
  }

  lemma {:induction false} TagRecords(rs: seq<Record>, root: Digest, block: int)
    ensures Records(Tag(rs, root, block)) == rs
  {
  }

  lemma {:induction false} ChainOfChained(payloads: seq<Value>, sequence: int, prev: Digest)
    ensures Chained(ChainOf(payloads, sequence, prev)) && |ChainOf(payloads, sequence, prev)| == |payloads|
  {
    var rs := ChainOf(payloads, sequence, prev);
    if payloads != [] {
      ChainOfAt(payloads, sequence, prev, 0);
    }
    forall i | 0 <= i < |rs|
      ensures Holds(rs, i)
    {
      ChainOfAt(payloads, sequence, prev, i);
      if i > 0 { ChainOfAt(payloads, sequence, prev, i - 1); }
    }
  }

  lemma {:induction false} SealBatch(w: Writer)
    requires w.batchSize >= 1 && BatchChained(w)
    ensures BatchChained(Seal(w)) && Seal(w).records == w.records
  {
    if w.phase == Idle && w.queue != [] {
      var n := Min(w.batchSize, |w.queue|);
      var rs := ChainOf(w.queue[..n], w.sequence, w.lastHash);
      ChainOfChained(w.queue[..n], w.sequence, w.lastHash);
      TagRecords(rs, Seal(w).phase.block.root, w.blockNumber + 1);
    }
  }

  /** The operation stores a batch that does not fit. */
  ghost predicate Misfits(w: Writer, op: Op)
    requires BatchChained(w)
  {
    op.StoreRecords? && w.phase.Sealed? && !Fits(Records(w.records), Records(w.phase.entries))
  }

  lemma {:induction false} StepBatch(w: Writer, op: Op)
    requires w.batchSize >= 1 && BatchChained(w)
    ensures BatchChained(Step(w, op))
    ensures Step(w, op).records
         == if op.StoreRecords? && w.phase.Sealed? then w.records + w.phase.entries else w.records
  {
    match op
    case Append(p) => SealBatch(w.(queue := w.queue + [p]));
    case Flush => SealBatch(w);
    case Finish => SealBatch(w.(phase := Idle));
    case StorageFails => SealBatch(w.(phase := Idle));
    case _ =>
  }

  lemma {:induction false} StepPasses(w: Writer, op: Op)
    requires w.batchSize >= 1 && BatchChained(w) && Passes(w)
    ensures Passes(Step(w, op)) <==> !Misfits(w, op)
  {
    StepBatch(w, op);
    if op.StoreRecords? && w.phase.Sealed? {
      RecordsConcat(w.records, w.phase.entries);
      StoreExactly(Records(w.records), Records(w.phase.entries));
    }
  }

  lemma {:induction false} RecordsConcat(es: seq<Stored>, fs: seq<Stored>)
    ensures Records(es + fs) == Records(es) + Records(fs)
  {
  }

  lemma {:induction false} RunBatch(w: Writer, ops: seq<Op>, n: nat)
    requires w.batchSize >= 1 && BatchChained(w) && n <= |ops|
    ensures BatchChained(Run(w, ops, n))
  {
    for k := 0 to n
      invariant BatchChained(Run(w, ops, k))
    {
      StepBatch(Run(w, ops, k), ops[k]);
    }
  }

  ghost predicate AlwaysPasses(w: Writer, ops: seq<Op>, n: nat)
    requires w.batchSize >= 1 && n <= |ops|
  {
    Passes(Run(w, ops, n)) && (n == 0 || AlwaysPasses(w, ops, n - 1))
  }

  /** Whenever a batch was stored, it fitted what was stored before. */
  ghost predicate FittingRun(w: Writer, ops: seq<Op>, n: nat)
    requires w.batchSize >= 1 && BatchChained(w) && n <= |ops|
  {
    n == 0 || (FittingRun(w, ops, n - 1) && FittingAt(w, ops, n - 1))
  }

  ghost predicate FittingAt(w: Writer, ops: seq<Op>, n: nat)
    requires w.batchSize >= 1 && BatchChained(w) && n < |ops|
  {
    RunBatch(w, ops, n);
    !Misfits(Run(w, ops, n), ops[n])
  }

  lemma {:induction false} PassesThen(w: Writer, ops: seq<Op>, n: nat)
    requires w.batchSize >= 1 && BatchChained(w) && n < |ops|
    ensures AlwaysPasses(w, ops, n + 1) <==> AlwaysPasses(w, ops, n) && FittingAt(w, ops, n)
    ensures FittingRun(w, ops, n + 1) <==> FittingRun(w, ops, n) && FittingAt(w, ops, n)
  {
    RunBatch(w, ops, n);
    if Passes(Run(w, ops, n)) {
      StepPasses(Run(w, ops, n), ops[n]);
    }
  }

  /** In every run of a new writer over any storage that the integrity check passes, with
      appends, flushes, failures, restarts and calls of `initialize` in any order: the check
      passes the stored records at every moment if and only if every batch that was stored
      fitted: none of its numbers was taken, and one of its ends joined a stored record unless
      the storage was empty. */
  lemma {:induction false} PassesExactly(
    batchSize: nat, maxQueue: nat, records: seq<Stored>, blocks: seq<Block>, ops: seq<Op>, n: nat)
    requires batchSize >= 1 && Verify(Records(records)).Valid? && n <= |ops|
    ensures var w := Fresh(batchSize, maxQueue, records, blocks);
            AlwaysPasses(w, ops, n) <==> FittingRun(w, ops, n)
  {
    var w := Fresh(batchSize, maxQueue, records, blocks);
    assert Passes(w);
    for k := 0 to n
      invariant AlwaysPasses(w, ops, k) <==> FittingRun(w, ops, k)
    {
      PassesThen(w, ops, k);
    }
  }

  // ---------------------------------------------------------------- in terms of the counters

  /** Records numbered and linked from a sequence number and a hash on. */
  ghost predicate ChainedFrom(rs: seq<Record>, sequence: int, prev: Digest) {
    Chained(rs) && (rs != [] ==> rs[0].sequence == sequence + 1 && rs[0].prevHash == prev)
  }

  lemma {:induction false} LinkedNumbers(es: seq<Stored>)
    requires Linked(es)
    ensures Chained(Records(es)) && Verify(Records(es)).Valid?
    ensures forall i :: 0 <= i < |es| ==> Records(es)[i].sequence == i + 1
  {
    var rs := Records(es);
    LinkedIsChained(es);
    forall i | 0 <= i < |rs|
      ensures Holds(rs, i) && rs[i].sequence == i + 1
    {
      assert LinkedAt(es, i);
      if i > 0 { assert LinkedAt(es, i - 1); }
    }
  }

  lemma {:induction false} TipFits(es: seq<Stored>, batch: seq<Record>)
    requires Linked(es) && es != [] && ChainedFrom(batch, |es|, HashOf(es)) && batch != []
    ensures Fits(Records(es), batch)
  {
    var rs := Records(es);
    LinkedNumbers(es);
    assert Joined(rs[|rs| - 1], batch[0]);
    forall r, s | r in rs && s in batch
      ensures r.sequence != s.sequence
    {
      var j :| 0 <= j < |batch| && batch[j] == s;
      ChainedAscends(batch, 0, j);
    }
  }

  lemma {:induction false} NumberIsFree(es: seq<Stored>, batch: seq<Record>, s: Record, i: nat)
    requires Linked(es) && batch != [] && Fits(Records(es), batch) && s in batch && i < |es|
    ensures s.sequence != i + 1
  {
    LinkedNumbers(es);
    assert Records(es)[i] in Records(es);
  }

  lemma {:induction false} JoinsAtEnd(es: seq<Stored>, batch: seq<Record>, k: nat)
    requires Linked(es) && batch != [] && Fits(Records(es), batch) && k < |es|
    requires Joined(Records(es)[k], batch[0])
    ensures k == |es| - 1
  {
    LinkedNumbers(es);
    if k + 1 < |es| { NumberIsFree(es, batch, batch[0], k + 1); }
  }

  lemma {:induction false} NotBeforeStart(es: seq<Stored>, batch: seq<Record>, k: nat)
    requires Linked(es) && Chained(batch) && batch != [] && Fits(Records(es), batch) && k < |es|
    ensures !Joined(batch[|batch| - 1], Records(es)[k])
  {
    LinkedNumbers(es);
    assert LinkedAt(es, 0) && Holds(batch, |batch| - 1);
    if k > 0 { NumberIsFree(es, batch, batch[|batch| - 1], k - 1); }
  }

  lemma {:induction false} FitsTip(es: seq<Stored>, batch: seq<Record>, sequence: int, prev: Digest)
    requires Linked(es) && es != [] && ChainedFrom(batch, sequence, prev) && batch != []
    requires Fits(Records(es), batch)
    ensures sequence == |es| && prev == HashOf(es)
  {
    var rs := Records(es);
    LinkedNumbers(es);
    var r :| r in rs && (Joined(r, batch[0]) || Joined(batch[|batch| - 1], r));
    var k :| 0 <= k < |rs| && rs[k] == r;
    NotBeforeStart(es, batch, k);
    JoinsAtEnd(es, batch, k);
  }

  /** Over a whole ledger a batch fits exactly when its flush began where the ledger ends. */
  lemma {:induction false} TipExactly(es: seq<Stored>, batch: seq<Record>, sequence: int, prev: Digest)
    requires Linked(es) && ChainedFrom(batch, sequence, prev) && batch != []
    ensures Fits(Records(es), batch) <==> es == [] || (sequence == |es| && prev == HashOf(es))
  {
    if es != [] {
      if sequence == |es| && prev == HashOf(es) { TipFits(es, batch); }
      if Fits(Records(es), batch) { FitsTip(es, batch, sequence, prev); }
    }
  }

  /** No failure, no restart, and no call of `initialize` comes back. */
  predicate Steady(op: Op) {
    !op.StorageFails? && !op.Restart? && !op.Resume?
  }

  /** What the writer has numbered since, it has numbered from the given counters on. */
  ghost predicate Continues(base: seq<Stored>, w: Writer, sequence: int, prev: Digest) {
    && base <= w.records
    && var more := Records(AllRecords(w)[|base|..]);
       && ChainedFrom(more, sequence, prev)
       && w.sequence == sequence + |more| && w.lastHash == LastHash(more, prev)
  }

  lemma {:induction false} BatchContinues(more: seq<Record>, batch: seq<Record>, sequence: int, prev: Digest)
    requires ChainedFrom(more, sequence, prev) && ChainedFrom(batch, sequence + |more|, LastHash(more, prev))
    requires batch != []
    ensures ChainedFrom(more + batch, sequence, prev)
    ensures LastHash(more + batch, prev) == LastHash(batch, LastHash(more, prev))
  {
    if more != [] {
      ChainedAscends(more, 0, |more| - 1);
    }
    ChainConcat(more, batch);
  }

  lemma {:induction false} SealContinues(base: seq<Stored>, w: Writer, sequence: int, prev: Digest)
    requires w.batchSize >= 1 && Continues(base, w, sequence, prev)
    ensures Continues(base, Seal(w), sequence, prev)
  {
    if w.phase == Idle && w.queue != [] {
      var batch, s, before := w.queue[..Min(w.batchSize, |w.queue|)], Seal(w), w.records[|base|..];
      var rs := ChainOf(batch, w.sequence, w.lastHash);
      ChainOfChained(batch, w.sequence, w.lastHash);
      ChainOfAt(batch, w.sequence, w.lastHash, 0);
      TagRecords(rs, s.phase.block.root, w.blockNumber + 1);
      assert AllRecords(s)[|base|..] == before + s.phase.entries;
      RecordsConcat(before, s.phase.entries);
      BatchContinues(Records(before), rs, sequence, prev);
    }
  }

  lemma {:induction false} StepContinues(base: seq<Stored>, w: Writer, sequence: int, prev: Digest, op: Op)
    requires w.batchSize >= 1 && Steady(op) && Continues(base, w, sequence, prev)
    ensures Continues(base, Step(w, op), sequence, prev)
  {
    match op
    case Append(p) => if |w.queue| < w.maxQueue { SealContinues(base, w.(queue := w.queue + [p]), sequence, prev); }
    case Flush => SealContinues(base, w, sequence, prev);
    case Finish => if w.phase.AllStored? { SealContinues(base, w.(phase := Idle), sequence, prev); }
    case StoreRecords => assert AllRecords(Step(w, op)) == AllRecords(w);
    case _ =>
  }

  lemma {:induction false} RunContinues(base: seq<Stored>, w: Writer, sequence: int, prev: Digest, ops: seq<Op>, n: nat)
    requires w.batchSize >= 1 && n <= |ops| && Continues(base, w, sequence, prev)
    requires forall k :: 0 <= k < n ==> Steady(ops[k])
    ensures Continues(base, Run(w, ops, n), sequence, prev)
  {
    for k := 0 to n
      invariant Continues(base, Run(w, ops, k), sequence, prev)
    {
      StepContinues(base, Run(w, ops, k), sequence, prev, ops[k]);
    }
  }

  lemma {:induction false} ContinuesPasses(base: seq<Stored>, w: Writer, sequence: int, prev: Digest)
    requires Linked(base) && Continues(base, w, sequence, prev)
    ensures Passes(w) <==> base == [] || w.records == base || (sequence == |base| && prev == HashOf(base))
  {
    var batch := Records(w.records[|base|..]);
    var more := Records(AllRecords(w)[|base|..]);
    LinkedNumbers(base);
    assert w.records == base + w.records[|base|..];
    RecordsConcat(base, w.records[|base|..]);
    assert batch == more[..|batch|];
    StretchIsChained(more, 0, |batch|);
    if batch == [] {
      assert w.records == base;
    } else {
      TipExactly(base, batch, sequence, prev);
      StoreExactly(Records(base), batch);
    }
  }

  /** A writer that is idle over a whole ledger and then runs undisturbed, whatever its counters
      are: the check passes if and only if the ledger was empty, nothing has been stored since,
      or the counters were those of the ledger's end. */
  lemma {:induction false} CountersExactly(w: Writer, ops: seq<Op>, n: nat)
    requires w.batchSize >= 1 && Linked(w.records) && w.phase == Idle && n <= |ops|
    requires forall k :: 0 <= k < n ==> Steady(ops[k])
    ensures Passes(Run(w, ops, n)) <==>
              || w.records == [] || Run(w, ops, n).records == w.records
              || (w.sequence == |w.records| && w.lastHash == HashOf(w.records))
  {
    assert w.records[|w.records|..] == [];
    RunContinues(w.records, w, w.sequence, w.lastHash, ops, n);
    ContinuesPasses(w.records, Run(w, ops, n), w.sequence, w.lastHash);
  }

  /** Nothing keeps a writer from accepting records before it is initialized. As long as that has
      not come back, the check passes if and only if the storage was empty or nothing has been
      stored. */
  lemma {:induction false} EarlyAppendExactly(
    batchSize: nat, maxQueue: nat, records: seq<Stored>, blocks: seq<Block>, ops: seq<Op>, n: nat)
    requires batchSize >= 1 && Linked(records) && n <= |ops| && forall k :: 0 <= k < n ==> Steady(ops[k])
    ensures var w := Run(Fresh(batchSize, maxQueue, records, blocks), ops, n);
            Passes(w) <==> records == [] || w.records == records
  {
    CountersExactly(Fresh(batchSize, maxQueue, records, blocks), ops, n);
  }

  /** When storing the records of a flush fails, the sequence has already moved on. Until another
      failure, a restart or an `initialize` that comes back, the loss goes unnoticed if and only
      if nothing had been stored before or nothing has been stored since. */
  lemma {:induction false} LostBatchExactly(w: Writer, ops: seq<Op>, n: nat)
    requires w.batchSize >= 1 && Inv(w) && w.phase.Sealed? && n <= |ops|
    requires forall k :: 0 <= k < n ==> Steady(ops[k])
    ensures var s := Run(Step(w, StorageFails), ops, n);
            Passes(s) <==> w.records == [] || s.records == w.records
  {
    var s := Step(w, StorageFails);
    LinkedPrefix(w.records, w.phase.entries);
    FailureContinues(w, s);
    RunContinues(w.records, s, w.sequence, w.lastHash, ops, n);
    ContinuesPasses(w.records, Run(s, ops, n), w.sequence, w.lastHash);
  }

  lemma {:induction false} FailureContinues(w: Writer, s: Writer)
    requires w.batchSize >= 1 && w.phase.Sealed? && s == Step(w, StorageFails)
    ensures Continues(w.records, s, w.sequence, w.lastHash)
  {
    assert w.records[|w.records|..] == [];
    SealContinues(w.records, w.(phase := Idle), w.sequence, w.lastHash);
  }

  /** An `initialize` that nothing interrupts, over whole storage and with nothing queued, makes
      the writer sound again, whatever it had lost: a batch lost before that is never noticed
      unless something is disturbed later. */
  lemma {:induction false} ReloadHidesLoss(w: Writer, ops: seq<Op>, n: nat)
    requires w.batchSize >= 1 && w.phase == Idle && w.queue == [] && w.records != []
    requires WholeLedger(w.records, w.blocks) && n <= |ops|
    ensures var s := Run(w, Loads(w.calls), 3);
            && s.records == w.records && Inv(s)
            && (CalmRun(s, ops, n) ==> Passes(Run(s, ops, n)))
  {
    var s := Run(w, Loads(w.calls), 3);
    LoadsAll(w);
    assert LinkedAt(w.records, |w.records| - 1);
    LosslessExactly(s, ops, n);
    if CalmRun(s, ops, n) {
      WholeAndStored(Run(s, ops, n));
    }
  }

  // ---------------------------------------------------------------- runs written out

  predicate Resting(w: Writer) {
    w.batchSize >= 1 && w.maxQueue >= 1 && w.phase == Idle && w.queue == []
  }

  function Single(w: Writer, p: Value): Record {
    Record(w.sequence + 1, w.lastHash, ChainHash(w.lastHash, w.sequence + 1, p), p)
  }

  /** A resting writer starts to flush one payload. */
  function Flushing(w: Writer, p: Value): Writer {
    var r := Single(w, p);
    var b := MakeBlock(w.blockNumber + 1, r.sequence, r.sequence, 1, r.hash, w.lastBlockHash);
    w.(sequence := r.sequence, lastHash := r.hash, blockNumber := b.number, lastBlockHash := b.hash,
       phase := Sealed([Stored(r, r.hash, b.number)], b))
  }

  /** And ends the flush with everything stored. */
  function Flushed(w: Writer): Writer
    requires w.phase.Sealed?
  {
    w.(records := w.records + w.phase.entries, blocks := w.blocks + [w.phase.block], phase := Idle)
  }

  lemma {:induction false} AppendOne(w: Writer, p: Value)
    requires Resting(w)
    ensures Step(w, Append(p)) == Flushing(w, p)
  {
    var w1 := w.(queue := [p]);
    assert w.queue + [p] == [p] && [p][..1] == [p] && [p][1..] == [];
    ChainOfAt([p], w.sequence, w.lastHash, 0);
    var rs := ChainOf([p], w.sequence, w.lastHash);
    assert rs == [Single(w, p)] && RecordHashes(rs) == [rs[0].hash];
    assert Tag(rs, rs[0].hash, w.blockNumber + 1) == [Stored(rs[0], rs[0].hash, w.blockNumber + 1)];
  }

  lemma {:induction false} FinishFlush(w: Writer, ops: seq<Op>)
    requires w.batchSize >= 1 && w.phase.Sealed? && w.queue == [] && ops == [StoreRecords, StoreBlock, Finish]
    ensures Run(w, ops, 3) == Flushed(w)
  {
    RunThree(w, ops);
  }

  lemma {:induction false} RunPrefix(w: Writer, a: seq<Op>, b: seq<Op>, n: nat)
    requires w.batchSize >= 1 && n <= |a|
    ensures Run(w, a + b, n) == Run(w, a, n)
  {
    for k := 0 to n
      invariant Run(w, a + b, k) == Run(w, a, k)
    {
      assert Run(w, a + b, k + 1) == Step(Run(w, a + b, k), (a + b)[k]);
      assert Run(w, a, k + 1) == Step(Run(w, a, k), a[k]);
    }
  }

  lemma {:induction false} RunConcat(w: Writer, a: seq<Op>, b: seq<Op>, n: nat)
    requires w.batchSize >= 1 && n <= |b|
    ensures Run(w, a + b, |a| + n) == Run(Run(w, a, |a|), b, n)
  {
    var m, w1 := |a|, Run(w, a, |a|);
    RunPrefix(w, a, b, m);
    for k := 0 to n
      invariant Run(w, a + b, m + k) == Run(w1, b, k)
    {
      assert Run(w, a + b, m + k + 1) == Step(Run(w, a + b, m + k), (a + b)[m + k]);
      assert Run(w1, b, k + 1) == Step(Run(w1, b, k), b[k]);
    }
  }

  function After(w: Writer, ops: seq<Op>): Writer
    requires w.batchSize >= 1
  {
    Run(w, ops, |ops|)
  }

  lemma {:induction false} AfterConcat(w: Writer, a: seq<Op>, b: seq<Op>)
    requires w.batchSize >= 1
    ensures After(w, a + b) == After(After(w, a), b)
  {
    RunConcat(w, a, b, |b|);
  }

  lemma {:induction false} AfterTwo(w: Writer, a: Op, b: Op)
    requires w.batchSize >= 1
    ensures After(w, [a, b]) == Step(Step(w, a), b)
  {
    var ops, k := [a, b], 1;
    assert Run(w, ops, k) == Step(Run(w, ops, 0), ops[0]);
  }

  function Stores(): seq<Op> {
    [StoreRecords, StoreBlock, Finish]
  }

  function Writes(p: Value): seq<Op> {
    [Append(p)] + Stores()
  }

  lemma {:induction false} WriteOne(w: Writer, p: Value)
    requires Resting(w)
    ensures After(w, Writes(p)) == Flushed(Flushing(w, p))
  {
    var ops := [Append(p)];
    assert Run(w, ops, 1) == Step(Run(w, ops, 0), ops[0]);
    AppendOne(w, p);
    AfterConcat(w, ops, Stores());
    FinishFlush(Flushing(w, p), Stores());
  }

  /** One more payload, written until its records are stored. */
  function Stored1(p: Value): seq<Op> {
    [Append(p), StoreRecords]
  }

  lemma {:induction false} OneMore(w: Writer, p: Value)
    requires Resting(w) && Linked(w.records)
    ensures Passes(After(w, Stored1(p))) <==>
              w.records == [] || (w.sequence == |w.records| && w.lastHash == HashOf(w.records))
  {
    var ops := Stored1(p);
    AppendOne(w, p);
    AfterTwo(w, Append(p), StoreRecords);
    assert |After(w, ops).records| == |w.records| + 1;
    CountersExactly(w, ops, 2);
  }

  function NewWriter(): Writer {
    Fresh(1, 10, [], [])
  }

  lemma {:induction false} FirstWritten(p: Value)
    ensures var w := After(NewWriter(), Writes(p));
            && Resting(w) && WholeLedger(w.records, w.blocks) && |w.records| == 1 && w.calls == 0 && w.loads == map[]
            && w.sequence == 1 && w.lastHash == HashOf(w.records)
            && LatestRecord(w.records) == Some(Single(NewWriter(), p))
  {
    var w0 := NewWriter();
    var w := Flushed(Flushing(w0, p));
    WriteOne(w0, p);
    assert w.records == Flushing(w0, p).phase.entries && w.blocks == [Flushing(w0, p).phase.block];
    FirstBlock(w.records[0], w.blocks[0]);
  }

  lemma {:induction false} FirstBlock(e: Stored, b: Block)
    requires e.record == Single(NewWriter(), e.record.payload) && e.root == e.record.hash && e.block == 1
    requires b == MakeBlock(1, 1, 1, 1, e.record.hash, Zero)
    ensures WholeLedger([e], [b])
  {
    assert [e][0..] == [e] && Hashes([e]) == [e.record.hash];
    assert LinkedAt([e], 0);
    assert [b][..0] == [] && [e][..0] == [];
    assert Seals(b, 1, [e], Zero);
  }

  /** A writer that is restarted and not initialized repeats a number. */
  lemma {:induction false} RestartRepeats(p: Value, q: Value)
    ensures !Passes(After(NewWriter(), Writes(p) + ([Restart] + Stored1(q))))
  {
    var w := After(NewWriter(), Writes(p));
    FirstWritten(p);
    AfterConcat(NewWriter(), Writes(p), [Restart] + Stored1(q));
    var r, ops := Step(w, Restart), [Restart];
    assert Run(w, ops, 1) == Step(Run(w, ops, 0), ops[0]);
    AfterConcat(w, ops, Stored1(q));
    OneMore(r, q);
  }

  /** The writer that lost the batch of `q` leaves a gap; initialized again it does not. */
  lemma {:induction false} ReloadHides(p: Value, q: Value, r: Value)
    ensures var lost := Writes(p) + [Append(q), StorageFails];
            && !Passes(After(NewWriter(), lost + Stored1(r)))
            && Passes(After(NewWriter(), lost + (Loads(0) + Stored1(r))))
  {
    var w0, lost := NewWriter(), Writes(p) + [Append(q), StorageFails];
    var w := After(w0, Writes(p));
    FirstWritten(p);
    AfterConcat(w0, Writes(p), [Append(q), StorageFails]);
    AfterTwo(w, Append(q), StorageFails);
    AppendOne(w, q);
    var s := Step(Flushing(w, q), StorageFails);
    assert s == Flushing(w, q).(phase := Idle) && After(w0, lost) == s;
    AfterConcat(w0, lost, Stored1(r));
    OneMore(s, r);
    AfterConcat(w0, lost, Loads(0) + Stored1(r));
    AfterConcat(s, Loads(0), Stored1(r));
    LoadsAll(s);
    OneMore(Reloaded(s), r);
  }

  /** An `initialize` that comes back while a batch is being stored takes the number of that
      batch back, so that the next one repeats it, although the storage was empty at first. */
  lemma {:induction false} LateLoadRepeats(p: Value, q: Value, r: Value)
    ensures !Passes(After(NewWriter(), Writes(p) + ([Initialize, Append(q), Resume(0)] + (Stores() + Stored1(r)))))
  {
    var w0, late := NewWriter(), [Initialize, Append(q), Resume(0)];
    var w := After(w0, Writes(p));
    FirstWritten(p);
    AfterConcat(w0, Writes(p), late + (Stores() + Stored1(r)));
    AfterConcat(w, late, Stores() + Stored1(r));
    RunThree(w, late);
    var s := LateLoad(w, p, q);
    AfterConcat(s, Stores(), Stored1(r));
    FinishFlush(s, Stores());
    OneMore(Flushed(s), r);
  }

  lemma {:induction false} LateLoad(w: Writer, p: Value, q: Value) returns (s: Writer)
    requires Resting(w) && Linked(w.records) && |w.records| == 1 && w.calls == 0 && w.sequence == 1
    requires w.lastHash == HashOf(w.records)
    ensures s == Step(Step(Step(w, Initialize), Append(q)), Resume(0))
    ensures s.batchSize == w.batchSize && s.maxQueue == w.maxQueue && s.queue == [] && s.phase.Sealed?
    ensures s.sequence == 1 && Linked(s.records + s.phase.entries) && |s.records + s.phase.entries| == 2
  {
    var w1 := Step(w, Initialize);
    AppendOne(w1, q);
    var w2 := Flushing(w1, q);
    s := Step(w2, Resume(0));
    var es := s.records + s.phase.entries;
    assert LinkedAt(w.records, 0);
    assert LinkedAt(es, 0) && LinkedAt(es, 1);
  }
}
