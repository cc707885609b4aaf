/** The audit writer and its in-memory storage as objects. A flush is the stretch up to
    `appendRecords`, the one up to `appendBlock`, and the rest; a call of `initialize` is cut at
    its two awaits and keeps what it has fetched. Each stretch is proved against a step of
    module Ledger. */
module AuditWriter {
  import opened Canonical
  import opened Merkle
  import opened HashChain
  import opened Ledger
  import opened Shared

  class Storage {
    var records: seq<Stored>
    var blocks: seq<Block>

    constructor (records: seq<Stored>, blocks: seq<Block>)
      ensures this.records == records && this.blocks == blocks
    {
      this.records, this.blocks := records, blocks;
    }

    method AppendRecords(rs: seq<Stored>)
      modifies `records
      ensures records == old(records) + rs
    {
      records := records + rs;
    }

    method GetLatestRecord() returns (latest: Option<Record>)
      ensures latest == LatestRecord(records)
    {
      latest := if records == [] then None else Some(records[|records| - 1].record);
    }

    method GetLatestBlock() returns (latest: Option<Block>)
      ensures latest == LatestBlock(blocks)
    {
      latest := if blocks == [] then None else Some(blocks[|blocks| - 1]);
    }

    method AppendBlock(b: Block)
      modifies `blocks
      ensures blocks == old(blocks) + [b]
    {
      blocks := blocks + [b];
    }
  }

  class AuditWriter {
    const batchSize: nat
    const maxQueue: nat
    const storage: Storage
    var queue: seq<Value>
    var flush: Phase
    var currentSequence: int
    var lastHash: Digest
    var currentBlockNumber: int
    var lastBlockHash: Digest
    var loads: map<nat, Loading>  // calls of `initialize` at an await
    var calls: nat

    ghost function View(): Writer
      reads this, storage
    {
      Writer(batchSize, maxQueue, queue, flush, currentSequence, lastHash, currentBlockNumber, lastBlockHash,
             loads, calls, storage.records, storage.blocks)
    }

    constructor (batchSize: nat, maxQueue: nat, storage: Storage)
      ensures View() == Fresh(batchSize, maxQueue, storage.records, storage.blocks)
      ensures this.storage == storage && this.batchSize == batchSize && this.maxQueue == maxQueue
    {
      this.batchSize, this.maxQueue, this.storage := batchSize, maxQueue, storage;
      queue, flush := [], Idle;
      currentSequence, lastHash, currentBlockNumber, lastBlockHash := 0, Zero, 0, Zero;
      loads, calls := map[], 0;
    }

    method Initialize() returns (call: nat)
      modifies `loads, `calls
      ensures View() == BeginLoad(old(View())) && call == old(calls)
    {
      call := calls;
      var latest := storage.GetLatestRecord();
      loads, calls := loads[call := RecordAwaited(latest)], calls + 1;
    }

    /** `initialize` when the latest record arrives, up to its second await. */
    method OnLatestRecord(call: nat)
      requires call in loads && loads[call].RecordAwaited?
      modifies `currentSequence, `lastHash, `loads
      ensures View() == ResumeLoad(old(View()), call)
    {
      var latestRecord := loads[call].record;
      if latestRecord.Some? {
        currentSequence, lastHash := latestRecord.value.sequence, latestRecord.value.hash;
      }
      var latest := storage.GetLatestBlock();
      loads := loads[call := BlockAwaited(latest)];
    }

    /** And when the latest block does. */
    method OnLatestBlock(call: nat)
      requires call in loads && loads[call].BlockAwaited?
      modifies `currentBlockNumber, `lastBlockHash, `loads
      ensures View() == ResumeLoad(old(View()), call)
    {
      var latestBlock := loads[call].block;
      if latestBlock.Some? {
        currentBlockNumber, lastBlockHash := latestBlock.value.number, latestBlock.value.hash;
      }
      loads := loads - {call};
    }

    /** Or when the storage refuses to answer. */
    method OnLoadFailed(call: nat)
      modifies `loads
      ensures View() == DropLoad(old(View()), call)
    {
      loads := loads - {call};
    }

    /** The loop that numbers and links a batch. */
    method LinkBatch(batch: seq<Value>) returns (records: seq<Record>)
      modifies `currentSequence, `lastHash
      ensures records == ChainOf(batch, old(currentSequence), old(lastHash))
      ensures currentSequence == old(currentSequence) + |batch|
      ensures lastHash == LastHash(records, old(lastHash))
    {
      records := [];
      var j := 0;
      while j < |batch|
        invariant 0 <= j <= |batch|
        invariant currentSequence == old(currentSequence) + j
        invariant lastHash == LastHash(records, old(lastHash))
        invariant records + ChainOf(batch[j..], currentSequence, lastHash)
               == ChainOf(batch, old(currentSequence), old(lastHash))
      {
        var prevHash := lastHash;
        ghost var rest := batch[j..];
        assert rest[0] == batch[j] && rest[1..] == batch[j + 1..];
        currentSequence := currentSequence + 1;
        lastHash := ChainHash(prevHash, currentSequence, batch[j]);
        var record := Record(currentSequence, prevHash, lastHash, batch[j]);
        assert records + ([record] + ChainOf(rest[1..], currentSequence, lastHash))
            == records + [record] + ChainOf(rest[1..], currentSequence, lastHash);
        records := records + [record];
        j := j + 1;
      }
      assert batch[j..] == [] && records + [] == records;
    }

    method BeginFlush()
      requires batchSize >= 1
      modifies this
      ensures View() == Seal(old(View()))
    {
      if flush != Idle || queue == [] {
        return;
      }
      var n := Min(batchSize, |queue|);
      var batch := queue[..n];
      queue := queue[n..];
      var records := LinkBatch(batch);
      assert |records| == n by { ChainOfAt(batch, old(currentSequence), old(lastHash), 0); }
      assert records == ChainOf(old(queue)[..n], old(currentSequence), old(lastHash));
      var items := seq(|records|, i requires 0 <= i < |records| => Hashed(records[i].hash));
      assert LeavesOf(items) == RecordHashes(records);
      var root, layers := BuildMerkleTree(items);
      currentBlockNumber := currentBlockNumber + 1;
      var block := MakeBlock(currentBlockNumber, currentSequence - n + 1, currentSequence, n, root, lastBlockHash);
      lastBlockHash := block.hash;
      flush := Sealed(Tag(records, root, currentBlockNumber), block);
      ghost var sealed := Seal(old(View()));
      assert flush == sealed.phase && queue == sealed.queue;
    }

    method AppendPayload(payload: Value) returns (accepted: bool)
      requires batchSize >= 1
      modifies this
      ensures View() == Step(old(View()), Append(payload))
      ensures accepted == (old(|queue|) < maxQueue)
    {
      accepted := |queue| < maxQueue;
      if accepted {
        queue := queue + [payload];
        BeginFlush();
      }
    }

    method OnRecordsAppended()
      requires batchSize >= 1
      modifies this, storage`records
      ensures View() == Step(old(View()), StoreRecords)
    {
      if flush.Sealed? {
        storage.AppendRecords(flush.entries);
        flush := HalfStored(flush.block);
      }
    }

    method OnBlockAppended()
      requires batchSize >= 1
      modifies this, storage`blocks
      ensures View() == Step(old(View()), StoreBlock)
    {
      if flush.HalfStored? {
        storage.AppendBlock(flush.block);
        flush := AllStored;
      }
    }

    method EndFlush(failed: bool)
      requires batchSize >= 1
      requires failed ==> flush.Sealed? || flush.HalfStored?
      modifies this
      ensures View() == Step(old(View()), if failed then StorageFails else Finish)
    {
      if failed || flush.AllStored? {
        flush := Idle;
        BeginFlush();
      }
    }
  }
}
