/** The audit writer (packages/audit-engine/src/AuditWriter.ts) as a transition system: an
    `append` that may start a flush, the three stretches into which a flush is cut by its two
    storage calls, and those of `initialize`, which may be called at any time. */
module Ledger {
  import opened Canonical
  import opened Merkle
  import opened HashChain
  import opened Shared

  datatype Block = Block(number: int, first: int, last: int, count: nat, root: Digest, prevBlock: Digest, hash: Digest)

  /** A stored record also names the block it was sealed into. */
  datatype Stored = Stored(record: Record, root: Digest, block: int)

  datatype Phase =
    | Idle
    | Sealed(entries: seq<Stored>, block: Block)  // before `appendRecords` has stored anything
    | HalfStored(block: Block)                    // records stored, block not
    | AllStored                                   // both stored, waiting to finish

  /** A call of `initialize` at one of its awaits, with what the storage has answered. */
  datatype Loading = RecordAwaited(record: Option<Record>) | BlockAwaited(block: Option<Block>)

  datatype Writer = Writer(
    batchSize: nat, maxQueue: nat,
    queue: seq<Value>, phase: Phase,
    sequence: int, lastHash: Digest, blockNumber: int, lastBlockHash: Digest,
    loads: map<nat, Loading>, calls: nat,
    records: seq<Stored>, blocks: seq<Block>)

  /** `Restart` puts a new writer over the storage. */
  datatype Op =
    | Append(payload: Value) | Flush | StoreRecords | StoreBlock | Finish | StorageFails
    | Initialize | Resume(call: nat) | LoadFails(call: nat) | Restart

  // ---------------------------------------------------------------- operations

  function Hashes(es: seq<Stored>): seq<Digest> {
    seq(|es|, i requires 0 <= i < |es| => es[i].record.hash)
  }

  function Payloads(es: seq<Stored>): seq<Value> {
    seq(|es|, i requires 0 <= i < |es| => es[i].record.payload)
  }

  function Records(es: seq<Stored>): seq<Record> {
    seq(|es|, i requires 0 <= i < |es| => es[i].record)
  }

  /** The records of a batch, numbered and linked from the given sequence and hash on. */
  function ChainOf(payloads: seq<Value>, sequence: int, prev: Digest): seq<Record> {
    if payloads == [] then []
    else
      var hash := ChainHash(prev, sequence + 1, payloads[0]);
      [Record(sequence + 1, prev, hash, payloads[0])] + ChainOf(payloads[1..], sequence + 1, hash)
  }

  function LastHash(rs: seq<Record>, prev: Digest): Digest {
    if rs == [] then prev else rs[|rs| - 1].hash
  }

  function RecordHashes(rs: seq<Record>): seq<Digest> {
    seq(|rs|, i requires 0 <= i < |rs| => rs[i].hash)
  }

  function Tag(rs: seq<Record>, root: Digest, block: int): seq<Stored> {
    seq(|rs|, i requires 0 <= i < |rs| => Stored(rs[i], root, block))
  }

  function MakeBlock(number: int, first: int, last: int, count: nat, root: Digest, prev: Digest): Block {
    Block(number, first, last, count, root, prev, BlockHash(number, first, last, root, prev))
  }

  /** `flush` up to its first storage call. */
  function Seal(w: Writer): Writer
    requires w.batchSize >= 1
  {
    if w.phase != Idle || w.queue == [] then w
    else
      var n := Min(w.batchSize, |w.queue|);
      var rs := ChainOf(w.queue[..n], w.sequence, w.lastHash);
      var root := Root(RecordHashes(rs));
      var block :=
        MakeBlock(w.blockNumber + 1, w.sequence + 1, w.sequence + n, n, root, w.lastBlockHash);
      w.(queue := w.queue[n..], sequence := w.sequence + n, lastHash := LastHash(rs, w.lastHash),
         blockNumber := w.blockNumber + 1, lastBlockHash := block.hash,
         phase := Sealed(Tag(rs, root, w.blockNumber + 1), block))
  }

  function Step(w: Writer, op: Op): (s: Writer)
    requires w.batchSize >= 1
    ensures s.batchSize == w.batchSize && s.maxQueue == w.maxQueue
  {
    match op
    case Append(p) => if |w.queue| >= w.maxQueue then w else Seal(w.(queue := w.queue + [p]))
    case Flush => Seal(w)
    case StoreRecords =>
      if w.phase.Sealed? then w.(records := w.records + w.phase.entries, phase := HalfStored(w.phase.block)) else w
    case StoreBlock =>
      if w.phase.HalfStored? then w.(blocks := w.blocks + [w.phase.block], phase := AllStored) else w
    case Finish => if w.phase.AllStored? then Seal(w.(phase := Idle)) else w
    case StorageFails => if w.phase.Sealed? || w.phase.HalfStored? then Seal(w.(phase := Idle)) else w
    case Initialize => BeginLoad(w)
    case Resume(call) => if call in w.loads then ResumeLoad(w, call) else w
    case LoadFails(call) => DropLoad(w, call)
    case Restart => Fresh(w.batchSize, w.maxQueue, w.records, w.blocks)
  }

  function LatestRecord(records: seq<Stored>): Option<Record> {
    if records == [] then None else Some(records[|records| - 1].record)
  }

  function LatestBlock(blocks: seq<Block>): Option<Block> {
    if blocks == [] then None else Some(blocks[|blocks| - 1])
  }

  /** `initialize` up to its first await: the storage answers with what it holds now. */
  function BeginLoad(w: Writer): Writer {
    w.(loads := w.loads[w.calls := RecordAwaited(LatestRecord(w.records))], calls := w.calls + 1)
  }

  function DropLoad(w: Writer, call: nat): Writer {
    w.(loads := w.loads - {call})
  }

  /** `initialize` goes on with what was fetched when it called the storage. */
  function ResumeLoad(w: Writer, call: nat): Writer
    requires call in w.loads
  {
    match w.loads[call]
    case RecordAwaited(latest) =>
      var w1 := w.(loads := w.loads[call := BlockAwaited(LatestBlock(w.blocks))]);
      if latest == None then w1 else w1.(sequence := latest.value.sequence, lastHash := latest.value.hash)
    case BlockAwaited(latest) =>
      var w1 := w.(loads := w.loads - {call});
      if latest == None then w1 else w1.(blockNumber := latest.value.number, lastBlockHash := latest.value.hash)
  }

  function Accepts(w: Writer, op: Op): seq<Value> {
    if op.Append? && |w.queue| < w.maxQueue then [op.payload] else []
  }

  /** A new writer, before it has asked its storage. */
  function Fresh(batchSize: nat, maxQueue: nat, records: seq<Stored>, blocks: seq<Block>): Writer {
    Writer(batchSize, maxQueue, [], Idle, 0, Zero, 0, Zero, map[], 0, records, blocks)
  }

  function Run(w: Writer, ops: seq<Op>, n: nat): (r: Writer)
    requires w.batchSize >= 1 && n <= |ops|
    ensures r.batchSize == w.batchSize
  {
    if n == 0 then w else Step(Run(w, ops, n - 1), ops[n - 1])
  }

  /** A call of `initialize` from its start to its end. */
  function Loads(call: nat): seq<Op> {
    [Initialize, Resume(call), Resume(call)]
  }

  /** A new writer that has been initialized before anything else. */
  function Initialized(batchSize: nat, maxQueue: nat, records: seq<Stored>, blocks: seq<Block>): Writer
    requires batchSize >= 1
  {
    Run(Fresh(batchSize, maxQueue, records, blocks), Loads(0), 3)
  }

  function Accepted(w: Writer, ops: seq<Op>, n: nat): seq<Value>
    requires w.batchSize >= 1 && n <= |ops|
  {
    if n == 0 then [] else Accepted(w, ops, n - 1) + Accepts(Run(w, ops, n - 1), ops[n - 1])
  }

  // ---------------------------------------------------------------- the ledger

  /** Records numbered 1, 2, 3 and so on, each linked to the one before. */
  ghost predicate Linked(es: seq<Stored>) {
    forall i :: 0 <= i < |es| ==> LinkedAt(es, i)
  }

  ghost predicate LinkedAt(es: seq<Stored>, i: nat)
    requires i < |es|
  {
    var r := es[i].record;
    var prev := if i == 0 then Zero else es[i - 1].record.hash;
    r.sequence == i + 1 && r.prevHash == prev && r.hash == ChainHash(prev, i + 1, r.payload)
  }

  function BlockHashOf(bs: seq<Block>): Digest {
    if bs == [] then Zero else bs[|bs| - 1].hash
  }

  /** `b` is the block numbered `number` over the last `b.count` records. */
  ghost predicate Seals(b: Block, number: int, es: seq<Stored>, prev: Digest) {
    && 0 < b.count <= |es|
    && b.number == number && b.first == |es| - b.count + 1 && b.last == |es| && b.prevBlock == prev
    && b.hash == BlockHash(b.number, b.first, b.last, b.root, b.prevBlock)
    && var run := es[|es| - b.count..];
       && b.root == Root(Hashes(run))
       && forall i :: 0 <= i < |run| ==> run[i].root == b.root && run[i].block == number
  }

  /** Blocks cut the records into consecutive non-empty runs, each block numbered, linked to
      the one before, and carrying the Merkle root of its run, which its records repeat. */
  ghost predicate Tiled(es: seq<Stored>, bs: seq<Block>) {
    if bs == [] then es == []
    else
      var b, before := bs[|bs| - 1], bs[..|bs| - 1];
      Seals(b, |bs|, es, BlockHashOf(before)) && Tiled(es[..|es| - b.count], before)
  }

  /** The records and blocks of the storage together with those of the flush in progress. */
  function AllRecords(w: Writer): seq<Stored> {
    if w.phase.Sealed? then w.records + w.phase.entries else w.records
  }

  function AllBlocks(w: Writer): seq<Block> {
    if w.phase.Sealed? || w.phase.HalfStored? then w.blocks + [w.phase.block] else w.blocks
  }

  function HashOf(es: seq<Stored>): Digest {
    if es == [] then Zero else es[|es| - 1].record.hash
  }

  /** The writer's counters and last hashes describe the ledger it is extending. */
  ghost predicate Consistent(w: Writer) {
    && Linked(AllRecords(w)) && Tiled(AllRecords(w), AllBlocks(w))
    && w.sequence == |AllRecords(w)| && w.blockNumber == |AllBlocks(w)|
    && w.lastHash == HashOf(AllRecords(w)) && w.lastBlockHash == BlockHashOf(AllBlocks(w))
  }

  ghost predicate Inv(w: Writer) {
    Consistent(w) && (w.phase == Idle ==> w.queue == []) && (w.phase.Sealed? ==> w.phase.entries != [])
  }

  lemma {:induction false} ChainOfAt(payloads: seq<Value>, sequence: int, prev: Digest, i: nat)
    requires i < |payloads|
    ensures var rs := ChainOf(payloads, sequence, prev);
            && |rs| == |payloads|
            && var p := if i == 0 then prev else rs[i - 1].hash;
               rs[i] == Record(sequence + i + 1, p, ChainHash(p, sequence + i + 1, payloads[i]), payloads[i])
    decreases |payloads|
  {
    if i > 0 {
      ChainOfAt(payloads[1..], sequence + 1, ChainHash(prev, sequence + 1, payloads[0]), i - 1);
    } else if |payloads| > 1 {
      ChainOfAt(payloads[1..], sequence + 1, ChainHash(prev, sequence + 1, payloads[0]), 0);
    }
  }

  lemma {:induction false} LinkedAppend(es: seq<Stored>, payloads: seq<Value>, root: Digest, block: int)
    requires Linked(es) && payloads != []
    ensures var rs := ChainOf(payloads, |es|, HashOf(es));
            && |rs| == |payloads|
            && Linked(es + Tag(rs, root, block))
            && HashOf(es + Tag(rs, root, block)) == LastHash(rs, HashOf(es))
  {
    var rs := ChainOf(payloads, |es|, HashOf(es));
    var all := es + Tag(rs, root, block);
    ChainOfAt(payloads, |es|, HashOf(es), 0);
    forall i | 0 <= i < |all|
      ensures LinkedAt(all, i)
    {
      if i < |es| {
        assert LinkedAt(es, i);
      } else {
        ChainOfAt(payloads, |es|, HashOf(es), i - |es|);
      }
    }
  }

  lemma {:induction false} TiledAppend(es: seq<Stored>, bs: seq<Block>, rs: seq<Record>, b: Block)
    requires Tiled(es, bs) && rs != []
    requires b == MakeBlock(|bs| + 1, |es| + 1, |es| + |rs|, |rs|, Root(RecordHashes(rs)), BlockHashOf(bs))
    ensures Tiled(es + Tag(rs, b.root, b.number), bs + [b])
  {
    var batch := Tag(rs, b.root, b.number);
    var all := es + batch;
    assert all[..|all| - |rs|] == es;
    SealsBatch(es, batch, rs, b, |bs| + 1, BlockHashOf(bs));
    assert (bs + [b])[..|bs|] == bs;
  }

  lemma {:induction false} SealsBatch(
    es: seq<Stored>, batch: seq<Stored>, rs: seq<Record>, b: Block, number: int, prev: Digest)
    requires rs != [] && batch == Tag(rs, b.root, b.number)
    requires b == MakeBlock(number, |es| + 1, |es| + |rs|, |rs|, Root(RecordHashes(rs)), prev)
    ensures Seals(b, number, es + batch, prev)
  {
    assert Hashes(batch) == RecordHashes(rs);
    assert (es + batch)[|es|..] == batch;
  }

  /** Nothing accepted is lost, repeated or reordered by a step. */
  ghost predicate Conserves(w: Writer, s: Writer, accepted: seq<Value>) {
    Payloads(AllRecords(s)) + s.queue == Payloads(AllRecords(w)) + w.queue + accepted
  }

  /** Sealing extends the ledger by the front of the queue, and only starts when idle. */
  lemma {:induction false} SealExtends(w: Writer)
    requires w.batchSize >= 1 && Consistent(w) && w.phase == Idle && w.queue != []
    ensures Inv(Seal(w)) && Seal(w).phase.Sealed?
    ensures Conserves(w, Seal(w), [])
  {
    SealConsistent(w, Seal(w), w.queue[..Min(w.batchSize, |w.queue|)]);
    SealConserves(w);
  }

  /** A flush takes as much of the queue as the batch size allows. */
  lemma {:induction false} SealTakes(w: Writer)
    requires w.batchSize >= 1 && w.phase == Idle && w.queue != []
    ensures var s := Seal(w);
            && s.phase.Sealed?
            && (|w.queue| >= w.batchSize ==> |s.phase.entries| == w.batchSize)
            && (|w.queue| < w.batchSize ==> s.queue == [])
            && Payloads(s.phase.entries) + s.queue == w.queue
  {
    var n := Min(w.batchSize, |w.queue|);
    SealedPayloads(w.queue[..n], w.sequence, w.lastHash, Seal(w).phase.block.root, w.blockNumber + 1);
    assert w.queue == w.queue[..n] + w.queue[n..];
    assert |Payloads(Seal(w).phase.entries)| == n;
  }

  lemma {:induction false} SealConsistent(w: Writer, s: Writer, batch: seq<Value>)
    requires w.batchSize >= 1 && Consistent(w) && w.phase == Idle && w.queue != []
    requires s == Seal(w) && batch == w.queue[..Min(w.batchSize, |w.queue|)]
    ensures Inv(s)
  {
    assert AllRecords(w) == w.records && AllBlocks(w) == w.blocks;
    ChainOfAt(batch, w.sequence, w.lastHash, 0);
    SealLedger(w, s, batch, ChainOf(batch, w.sequence, w.lastHash));
  }

  lemma {:induction false} SealLedger(w: Writer, s: Writer, batch: seq<Value>, rs: seq<Record>)
    requires Linked(w.records) && Tiled(w.records, w.blocks) && batch != []
    requires rs == ChainOf(batch, |w.records|, HashOf(w.records)) && |rs| == |batch|
    requires s.records == w.records && s.blocks == w.blocks && s.phase.Sealed?
    requires s.phase.block == MakeBlock(|w.blocks| + 1, |w.records| + 1, |w.records| + |rs|, |rs|,
                                        Root(RecordHashes(rs)), BlockHashOf(w.blocks))
    requires s.phase.entries == Tag(rs, s.phase.block.root, s.phase.block.number)
    requires s.sequence == |w.records| + |rs| && s.blockNumber == |w.blocks| + 1
    requires s.lastHash == LastHash(rs, HashOf(w.records)) && s.lastBlockHash == s.phase.block.hash
    ensures Consistent(s)
  {
    LinkedAppend(w.records, batch, s.phase.block.root, s.phase.block.number);
    TiledAppend(w.records, w.blocks, rs, s.phase.block);
    ConsistentWhen(s, w.records + s.phase.entries, w.blocks + [s.phase.block]);
  }

  lemma {:induction false} ConsistentWhen(s: Writer, es: seq<Stored>, bs: seq<Block>)
    requires AllRecords(s) == es && AllBlocks(s) == bs && Linked(es) && Tiled(es, bs)
    requires s.sequence == |es| && s.blockNumber == |bs|
    requires s.lastHash == HashOf(es) && s.lastBlockHash == BlockHashOf(bs)
    ensures Consistent(s)
  {
  }

  lemma {:induction false} SealConserves(w: Writer)
    requires w.batchSize >= 1 && w.phase == Idle && w.queue != []
    ensures Conserves(w, Seal(w), [])
  {
    var n := Min(w.batchSize, |w.queue|);
    var s := Seal(w);
    SealedPayloads(w.queue[..n], w.sequence, w.lastHash, s.phase.block.root, w.blockNumber + 1);
    PayloadsSplit(w.records, s.phase.entries);
    Glue(Payloads(w.records), w.queue, n);
  }

  lemma {:induction false} PayloadsSplit(es: seq<Stored>, fs: seq<Stored>)
    ensures Payloads(es + fs) == Payloads(es) + Payloads(fs)
  {
  }

  lemma {:induction false} Glue(ps: seq<Value>, queue: seq<Value>, n: nat)
    requires n <= |queue|
    ensures (ps + queue[..n]) + queue[n..] == ps + queue + []
  {
    assert queue == queue[..n] + queue[n..];
  }

  lemma {:induction false} SealedPayloads(batch: seq<Value>, sequence: int, prev: Digest, root: Digest, block: int)
    requires batch != []
    ensures Payloads(Tag(ChainOf(batch, sequence, prev), root, block)) == batch
  {
    ChainOfAt(batch, sequence, prev, 0);
    var ps := Payloads(Tag(ChainOf(batch, sequence, prev), root, block));
    forall i | 0 <= i < |batch|
      ensures ps[i] == batch[i]
    {
      ChainOfAt(batch, sequence, prev, i);
    }
  }

  lemma {:induction false} AppendKeeps(w: Writer, p: Value)
    requires w.batchSize >= 1 && Inv(w)
    ensures Inv(Step(w, Append(p))) && Conserves(w, Step(w, Append(p)), Accepts(w, Append(p)))
  {
    if |w.queue| < w.maxQueue {
      var w1 := w.(queue := w.queue + [p]);
      assert Payloads(AllRecords(w)) + w1.queue == Payloads(AllRecords(w)) + w.queue + [p];
      if w.phase == Idle {
        SealExtends(w1);
      }
    }
  }

  lemma {:induction false} FinishKeeps(w: Writer)
    requires w.batchSize >= 1 && Inv(w) && w.phase.AllStored?
    ensures Inv(Step(w, Finish)) && Conserves(w, Step(w, Finish), [])
  {
    var w1 := w.(phase := Idle);
    if w1.queue != [] {
      SealExtends(w1);
    }
  }

  /** Storing moves records and blocks from the flush to the ledger and changes neither. */
  lemma {:induction false} StoringKeeps(w: Writer, op: Op)
    requires w.batchSize >= 1 && Inv(w) && (op.StoreRecords? || op.StoreBlock?)
    ensures Inv(Step(w, op)) && Conserves(w, Step(w, op), [])
  {
    var s := Step(w, op);
    assert AllRecords(s) == AllRecords(w) && AllBlocks(s) == AllBlocks(w);
    assert Payloads(AllRecords(w)) + w.queue + [] == Payloads(AllRecords(w)) + w.queue;
  }

  /** What an operation must not do: lose a flush, go back to what the storage held before, or
      give up what is queued or stored. */
  predicate Calm(w: Writer, op: Op) {
    match op
    case StorageFails => !w.phase.Sealed? && !w.phase.HalfStored?
    case Resume(call) => call in w.loads ==> Current(w, w.loads[call])
    case Restart => AllRecords(w) == [] && w.queue == []
    case _ => true
  }

  /** What was fetched, if anything, is what the writer has anyway. */
  predicate Current(w: Writer, load: Loading) {
    match load
    case RecordAwaited(latest) =>
      latest.Some? ==> latest.value.sequence == w.sequence && latest.value.hash == w.lastHash
    case BlockAwaited(latest) =>
      latest.Some? ==> latest.value.number == w.blockNumber && latest.value.hash == w.lastBlockHash
  }

  lemma {:induction false} CalmKeeps(w: Writer, op: Op)
    requires w.batchSize >= 1 && Inv(w) && Calm(w, op)
    ensures Inv(Step(w, op)) && Conserves(w, Step(w, op), Accepts(w, op))
  {
    match op
    case Append(p) => AppendKeeps(w, p);
    case StoreRecords => StoringKeeps(w, op);
    case StoreBlock => StoringKeeps(w, op);
    case Finish => if w.phase.AllStored? { FinishKeeps(w); } else { SameLedger(w, w); }
    case Restart => RestartKeeps(w);
    case _ => QuietKeeps(w, op);
  }

  lemma {:induction false} QuietKeeps(w: Writer, op: Op)
    requires w.batchSize >= 1 && Inv(w) && Calm(w, op)
    requires op.Flush? || op.StorageFails? || op.Initialize? || op.Resume? || op.LoadFails?
    ensures Inv(Step(w, op)) && Conserves(w, Step(w, op), [])
  {
    SameLedger(w, Step(w, op));
  }

  lemma {:induction false} SameLedger(w: Writer, s: Writer)
    requires Inv(w) && s.phase == w.phase && s.queue == w.queue && s.records == w.records && s.blocks == w.blocks
    requires s.sequence == w.sequence && s.lastHash == w.lastHash
    requires s.blockNumber == w.blockNumber && s.lastBlockHash == w.lastBlockHash
    ensures Inv(s) && Conserves(w, s, [])
  {
    assert Payloads(AllRecords(w)) + w.queue + [] == Payloads(AllRecords(w)) + w.queue;
  }

  lemma {:induction false} RestartKeeps(w: Writer)
    requires w.batchSize >= 1 && Inv(w) && Calm(w, Restart)
    ensures Inv(Step(w, Restart)) && Conserves(w, Step(w, Restart), [])
  {
    NothingStored(w);
    assert Payloads(w.records) == [];
  }

  lemma {:induction false} NothingStored(w: Writer)
    requires Consistent(w) && AllRecords(w) == []
    ensures w.records == [] && w.blocks == []
  {
  }

  lemma {:induction false} SealCounts(w: Writer)
    requires w.batchSize >= 1 && w.phase == Idle
    ensures Seal(w).sequence - |AllRecords(Seal(w))| == w.sequence - |w.records|
    ensures Seal(w).blockNumber - |AllBlocks(Seal(w))| == w.blockNumber - |w.blocks|
  {
    if w.queue != [] {
      ChainOfAt(w.queue[..Min(w.batchSize, |w.queue|)], w.sequence, w.lastHash, 0);
    }
  }

  /** Exactly the other operations break the ledger or lose a payload. */
  lemma {:induction false} CalmExactly(w: Writer, op: Op)
    requires w.batchSize >= 1 && Inv(w)
    ensures Inv(Step(w, op)) && Conserves(w, Step(w, op), Accepts(w, op)) <==> Calm(w, op)
  {
    if Calm(w, op) {
      CalmKeeps(w, op);
    } else if op.StorageFails? {
      SealCounts(w.(phase := Idle));
    } else if op.Restart? && Conserves(w, Step(w, op), []) {
      assert |Payloads(w.records)| == |w.records| && |Payloads(AllRecords(w))| == |AllRecords(w)|;
    }
  }

  // ---------------------------------------------------------------- whole runs

  predicate CalmAt(w: Writer, ops: seq<Op>, n: nat)
    requires w.batchSize >= 1 && n < |ops|
  {
    Calm(Run(w, ops, n), ops[n])
  }

  predicate CalmRun(w: Writer, ops: seq<Op>, n: nat)
    requires w.batchSize >= 1 && n <= |ops|
  {
    n == 0 || (CalmRun(w, ops, n - 1) && CalmAt(w, ops, n - 1))
  }

  /** The ledger is whole, and what is stored, being flushed and queued is what the writer began
      with followed by what it has accepted since, in order. */
  ghost predicate Lossless(w: Writer, s: Writer, accepted: seq<Value>) {
    Inv(s) && Payloads(AllRecords(s)) + s.queue == Payloads(AllRecords(w)) + w.queue + accepted
  }

  ghost predicate LosslessAt(w: Writer, ops: seq<Op>, n: nat)
    requires w.batchSize >= 1 && n <= |ops|
  {
    Lossless(w, Run(w, ops, n), Accepted(w, ops, n))
  }

  ghost predicate AlwaysLossless(w: Writer, ops: seq<Op>, n: nat)
    requires w.batchSize >= 1 && n <= |ops|
  {
    LosslessAt(w, ops, n) && (n == 0 || AlwaysLossless(w, ops, n - 1))
  }

  /** A storage whose ledger is whole. */
  ghost predicate WholeLedger(records: seq<Stored>, blocks: seq<Block>) {
    Linked(records) && Tiled(records, blocks)
  }

  /** A call of `initialize` that nothing interrupts makes the writer continue its storage. */
  lemma {:induction false} LoadsAll(w: Writer)
    requires w.batchSize >= 1
    ensures Run(w, Loads(w.calls), 3) == Reloaded(w)
  {
    var w1 := Step(w, Initialize);
    RunThree(w, Loads(w.calls));
    LoadResumes(w, w1, w.calls);
  }

  lemma {:induction false} RunThree(w: Writer, ops: seq<Op>)
    requires w.batchSize >= 1 && |ops| == 3
    ensures Run(w, ops, 3) == Step(Step(Step(w, ops[0]), ops[1]), ops[2])
  {
    var k := 1;
    assert Run(w, ops, k) == Step(Run(w, ops, 0), ops[0]);
    assert Run(w, ops, k + 1) == Step(Run(w, ops, k), ops[k]);
  }

  lemma {:induction false} LoadResumes(w: Writer, w1: Writer, c: nat)
    requires w.batchSize >= 1 && c == w.calls && w1 == Step(w, Initialize)
    ensures Step(Step(w1, Resume(c)), Resume(c)) == Reloaded(w)
  {
    var w2 := ResumeLoad(w1, c);
    assert w2.loads[c] == BlockAwaited(LatestBlock(w.blocks));
    assert w2.loads - {c} == w.loads - {c};
    assert ResumeLoad(w2, c) == Reloaded(w);
  }

  function Reloaded(w: Writer): Writer {
    var r, b := LatestRecord(w.records), LatestBlock(w.blocks);
    w.(loads := w.loads - {w.calls}, calls := w.calls + 1,
       sequence := if r == None then w.sequence else r.value.sequence,
       lastHash := if r == None then w.lastHash else r.value.hash,
       blockNumber := if b == None then w.blockNumber else b.value.number,
       lastBlockHash := if b == None then w.lastBlockHash else b.value.hash)
  }

  lemma {:induction false} InitializedInv(batchSize: nat, maxQueue: nat, records: seq<Stored>, blocks: seq<Block>)
    requires batchSize >= 1 && WholeLedger(records, blocks)
    ensures var w := Initialized(batchSize, maxQueue, records, blocks);
            Inv(w) && w.records == records && w.blocks == blocks && w.phase == Idle && w.queue == []
  {
    var w := Fresh(batchSize, maxQueue, records, blocks);
    LoadsAll(w);
    if records != [] {
      assert LinkedAt(records, |records| - 1);
    }
  }

  lemma {:induction false} StepExtends(w: Writer, ops: seq<Op>, n: nat)
    requires w.batchSize >= 1 && n < |ops| && LosslessAt(w, ops, n)
    ensures LosslessAt(w, ops, n + 1) <==> CalmAt(w, ops, n)
  {
    var r := Run(w, ops, n);
    CalmExactly(r, ops[n]);
    Extend(Payloads(AllRecords(w)) + w.queue, Accepted(w, ops, n), Accepts(r, ops[n]),
           Payloads(AllRecords(r)) + r.queue);
  }

  lemma {:induction false} LosslessExactly(w: Writer, ops: seq<Op>, n: nat)
    requires w.batchSize >= 1 && Inv(w) && n <= |ops|
    ensures AlwaysLossless(w, ops, n) <==> CalmRun(w, ops, n)
  {
    LosslessAtStart(w, ops);
    for k := 0 to n
      invariant AlwaysLossless(w, ops, k) <==> CalmRun(w, ops, k)
    {
      AlwaysThen(w, ops, k);
    }
  }

  lemma {:induction false} AlwaysThen(w: Writer, ops: seq<Op>, n: nat)
    requires w.batchSize >= 1 && n < |ops|
    ensures AlwaysLossless(w, ops, n + 1) <==> AlwaysLossless(w, ops, n) && CalmAt(w, ops, n)
    ensures CalmRun(w, ops, n + 1) <==> CalmRun(w, ops, n) && CalmAt(w, ops, n)
  {
    if LosslessAt(w, ops, n) {
      StepExtends(w, ops, n);
    }
  }

  lemma {:induction false} LosslessAtStart(w: Writer, ops: seq<Op>)
    requires w.batchSize >= 1 && Inv(w)
    ensures AlwaysLossless(w, ops, 0) && CalmRun(w, ops, 0)
  {
    SameLedger(w, w);
  }

  lemma {:induction false} Extend(base: seq<Value>, before: seq<Value>, more: seq<Value>, all: seq<Value>)
    requires all == base + before
    ensures all + more == base + (before + more)
  {
  }

  lemma {:induction false} LinkedIsChained(es: seq<Stored>)
    requires Linked(es)
    ensures Verify(Records(es)) == Valid
  {
    var rs := Records(es);
    forall i | 0 <= i < |rs|
      ensures Holds(rs, i)
    {
      assert LinkedAt(es, i);
      if i > 0 {
        assert LinkedAt(es, i - 1);
      }
    }
    ChainedVerifies(rs);
  }

  lemma {:induction false} LinkedPrefix(es: seq<Stored>, more: seq<Stored>)
    requires Linked(es + more)
    ensures Linked(es)
  {
    forall i | 0 <= i < |es|
      ensures LinkedAt(es, i)
    {
      assert LinkedAt(es + more, i);
    }
  }

  /** In every run of an initialized writer over any whole ledger: at every moment nothing is
      lost and the ledger is whole if and only if every operation was calm; and then the stored
      records are numbered contiguously and pass the integrity check, stored and pending blocks
      tile and link, and whenever no flush is active nothing is queued. */
  lemma {:induction false} RunsAreLossless(
    batchSize: nat, maxQueue: nat, records: seq<Stored>, blocks: seq<Block>, ops: seq<Op>, n: nat)
    requires batchSize >= 1 && WholeLedger(records, blocks) && n <= |ops|
    ensures var w := Initialized(batchSize, maxQueue, records, blocks);
            AlwaysLossless(w, ops, n) <==> CalmRun(w, ops, n)
    ensures var w := Initialized(batchSize, maxQueue, records, blocks);
            var s := Run(w, ops, n);
            CalmRun(w, ops, n) ==>
              && Payloads(AllRecords(s)) + s.queue == Payloads(records) + Accepted(w, ops, n)
              && s.records <= AllRecords(s)
              && Linked(s.records) && Verify(Records(s.records)) == Valid
              && Tiled(AllRecords(s), AllBlocks(s))
              && (s.phase == Idle ==> s.queue == [] && WholeLedger(s.records, s.blocks))
  {
    var w := Initialized(batchSize, maxQueue, records, blocks);
    InitializedInv(batchSize, maxQueue, records, blocks);
    LosslessExactly(w, ops, n);
    if CalmRun(w, ops, n) {
      assert Payloads(records) + [] == Payloads(records);
      WholeAndStored(Run(w, ops, n));
    }
  }

  lemma {:induction false} WholeAndStored(s: Writer)
    requires Inv(s)
    ensures s.records <= AllRecords(s) && Linked(s.records) && Verify(Records(s.records)) == Valid
  {
    if s.phase.Sealed? {
      LinkedPrefix(s.records, s.phase.entries);
    }
    LinkedIsChained(s.records);
  }
}
