/** The evidence chain and its verifier (packages/evidence/src/EvidenceChain.ts,
    EvidenceVerifier.ts). */
module Evidence {
  import opened Canonical
  import opened Merkle

  datatype EvidenceBlock = EvidenceBlock(
    index: int, timestamp: int, evidenceId: Text, contentHash: Text, previous: Digest, hash: Digest)

  datatype Sealed = Sealed(root: Digest, blocks: seq<EvidenceBlock>)

  datatype Violation = IndexMismatch(position: nat) | BrokenLink(position: nat) | Tampered(position: nat) | RootMismatch

  datatype Report = Report(isValid: bool, rootMatches: bool, recomputedRoot: Digest, violations: seq<Violation>)

  function HashOf(b: EvidenceBlock): Digest {
    EvidenceHash(b.index, b.timestamp, b.evidenceId, b.contentHash, b.previous)
  }

  function BlockHashes(bs: seq<EvidenceBlock>): seq<Digest> {
    seq(|bs|, i requires 0 <= i < |bs| => bs[i].hash)
  }

  function LastOf(bs: seq<EvidenceBlock>): Digest {
    if bs == [] then Zero else bs[|bs| - 1].hash
  }

  /** Numbered from zero, each linked to the one before and carrying the hash of its fields. */
  ghost predicate Intact(bs: seq<EvidenceBlock>) {
    forall i :: 0 <= i < |bs| ==> IntactAt(bs, i)
  }

  ghost predicate IntactAt(bs: seq<EvidenceBlock>, i: nat)
    requires i < |bs|
  {
    bs[i].index == i && bs[i].previous == LastOf(bs[..i]) && bs[i].hash == HashOf(bs[i])
  }

  class EvidenceChainBuilder {
    var blocks: seq<EvidenceBlock>
    var lastBlockHash: Digest

    ghost predicate Valid()
      reads this
    {
      Intact(blocks) && lastBlockHash == LastOf(blocks)
    }

    constructor ()
      ensures Valid() && blocks == []
    {
      blocks, lastBlockHash := [], Zero;
    }

    method AddEvidence(evidenceId: Text, contentHash: Text, now: int) returns (block: EvidenceBlock)
      requires Valid()
      modifies this
      ensures Valid() && blocks == old(blocks) + [block]
      ensures block.evidenceId == evidenceId && block.contentHash == contentHash && block.timestamp == now
    {
      var index := |blocks|;
      var hash := EvidenceHash(index, now, evidenceId, contentHash, lastBlockHash);
      block := EvidenceBlock(index, now, evidenceId, contentHash, lastBlockHash, hash);
      ghost var before := blocks;
      blocks := blocks + [block];
      lastBlockHash := hash;
      forall i | 0 <= i < |blocks|
        ensures IntactAt(blocks, i)
      {
        assert blocks[..i] == before[..i];
        if i < |before| {
          assert IntactAt(before, i);
        } else {
          assert before[..i] == before;
        }
      }
    }

    /** Whatever was added, the sealed chain has no violation. */
    method Seal() returns (chain: Sealed)
      requires Valid()
      ensures chain.blocks == blocks && Violations(chain) == []
    {
      var root := ComputeMerkleRoot(BlockHashes(blocks));
      chain := Sealed(root, blocks);
      SoundChain(chain);
    }
  }

  // ---------------------------------------------------------------- verification

  function BlockViolations(bs: seq<EvidenceBlock>, i: nat): seq<Violation>
    requires i < |bs|
  {
    (if bs[i].index != i then [IndexMismatch(i)] else [])
    + (if bs[i].previous != LastOf(bs[..i]) then [BrokenLink(i)] else [])
    + (if bs[i].hash != HashOf(bs[i]) then [Tampered(i)] else [])
  }

  function ViolationsUpTo(bs: seq<EvidenceBlock>, n: nat): seq<Violation>
    requires n <= |bs|
  {
    if n == 0 then [] else ViolationsUpTo(bs, n - 1) + BlockViolations(bs, n - 1)
  }

  function Violations(chain: Sealed): seq<Violation> {
    ViolationsUpTo(chain.blocks, |chain.blocks|)
    + if chain.root != Root(BlockHashes(chain.blocks)) then [RootMismatch] else []
  }

  method VerifyChain(chain: Sealed) returns (report: Report)
    ensures report.violations == Violations(chain) && report.isValid == (report.violations == [])
    ensures report.recomputedRoot == Root(BlockHashes(chain.blocks))
    ensures report.rootMatches == (chain.root == report.recomputedRoot)
  {
    var blocks := chain.blocks;
    if blocks == [] {
      var matches := chain.root == Zero;
      return Report(matches, matches, Zero, if matches then [] else [RootMismatch]);
    }
    var violations: seq<Violation> := [];
    var expectedPrev := Zero;
    var i := 0;
    while i < |blocks|
      invariant 0 <= i <= |blocks|
      invariant expectedPrev == LastOf(blocks[..i])
      invariant violations == ViolationsUpTo(blocks, i)
    {
      var block := blocks[i];
      if block.index != i {
        violations := violations + [IndexMismatch(i)];
      }
      if block.previous != expectedPrev {
        violations := violations + [BrokenLink(i)];
      }
      if block.hash != HashOf(block) {
        violations := violations + [Tampered(i)];
      }
      expectedPrev := block.hash;
      assert violations == ViolationsUpTo(blocks, i) + BlockViolations(blocks, i);
      i := i + 1;
    }
    var root := ComputeMerkleRoot(BlockHashes(blocks));
    if chain.root != root {
      violations := violations + [RootMismatch];
    }
    report := Report(violations == [], chain.root == root, root, violations);
  }

  lemma {:induction false} NoBlockViolations(bs: seq<EvidenceBlock>, n: nat)
    requires n <= |bs|
    ensures ViolationsUpTo(bs, n) == [] <==> forall i :: 0 <= i < n ==> IntactAt(bs, i)
  {
    if n > 0 {
      NoBlockViolations(bs, n - 1);
      assert BlockViolations(bs, n - 1) == [] <==> IntactAt(bs, n - 1);
    }
  }

  /** The verifier accepts exactly the intact chains under their own Merkle root. */
  lemma {:induction false} SoundChain(chain: Sealed)
    ensures Violations(chain) == [] <==> Intact(chain.blocks) && chain.root == Root(BlockHashes(chain.blocks))
  {
    NoBlockViolations(chain.blocks, |chain.blocks|);
  }

  // ---------------------------------------------------------------- what is reported

  function PreviousHash(bs: seq<EvidenceBlock>, p: nat): Digest
    requires p < |bs|
  {
    if p == 0 then Zero else bs[p - 1].hash
  }

  /** What is wrong with a chain, violation by violation. */
  predicate Wrong(chain: Sealed, v: Violation) {
    var bs := chain.blocks;
    match v
    case IndexMismatch(p) => p < |bs| && bs[p].index != p
    case BrokenLink(p) => p < |bs| && bs[p].previous != PreviousHash(bs, p)
    case Tampered(p) =>
      p < |bs| && var b := bs[p]; b.hash != EvidenceHash(b.index, b.timestamp, b.evidenceId, b.contentHash, b.previous)
    case RootMismatch => chain.root != Root(BlockHashes(bs))
  }

  /** The order of the report: block by block, the index first, then the link, then the content,
      and the root at the end. */
  function Rank(v: Violation, n: nat): nat {
    match v
    case IndexMismatch(p) => 3 * p
    case BrokenLink(p) => 3 * p + 1
    case Tampered(p) => 3 * p + 2
    case RootMismatch => 3 * n
  }

  ghost predicate InOrder(vs: seq<Violation>, n: nat) {
    forall i, j :: 0 <= i < j < |vs| ==> Rank(vs[i], n) < Rank(vs[j], n)
  }

  lemma {:induction false} BlockReport(chain: Sealed, i: nat, v: Violation)
    requires i < |chain.blocks|
    ensures v in BlockViolations(chain.blocks, i) <==>
              v != RootMismatch && Rank(v, |chain.blocks|) / 3 == i && Wrong(chain, v)
    ensures InOrder(BlockViolations(chain.blocks, i), |chain.blocks|)
  {
  }

  lemma {:induction false} ReportUpTo(chain: Sealed, n: nat, v: Violation)
    requires n <= |chain.blocks|
    ensures v in ViolationsUpTo(chain.blocks, n) <==>
              v != RootMismatch && Rank(v, |chain.blocks|) < 3 * n && Wrong(chain, v)
  {
    if n > 0 {
      ReportUpTo(chain, n - 1, v);
      BlockReport(chain, n - 1, v);
    }
  }

  lemma {:induction false} OrderUpTo(chain: Sealed, n: nat)
    requires n <= |chain.blocks|
    ensures InOrder(ViolationsUpTo(chain.blocks, n), |chain.blocks|)
  {
    if n > 0 {
      OrderUpTo(chain, n - 1);
      var before, here := ViolationsUpTo(chain.blocks, n - 1), BlockViolations(chain.blocks, n - 1);
      forall i, j | 0 <= i < |before| && 0 <= j < |here|
        ensures Rank(before[i], |chain.blocks|) < Rank(here[j], |chain.blocks|)
      {
        ReportUpTo(chain, n - 1, before[i]);
        BlockReport(chain, n - 1, here[j]);
      }
      BlockReport(chain, n - 1, RootMismatch);
    }
  }

  /** The report names everything that is wrong, nothing else, nothing twice, and in order. */
  lemma {:induction false} ReportExactly(chain: Sealed, v: Violation)
    ensures v in Violations(chain) <==> Wrong(chain, v)
    ensures InOrder(Violations(chain), |chain.blocks|)
  {
    var n := |chain.blocks|;
    ReportUpTo(chain, n, v);
    OrderUpTo(chain, n);
    var before := ViolationsUpTo(chain.blocks, n);
    forall i | 0 <= i < |before|
      ensures Rank(before[i], n) < 3 * n
    {
      ReportUpTo(chain, n, before[i]);
    }
  }

  // ---------------------------------------------------------------- what a hash fixes

  /** Two accepted chains under one root are the same, block by block: the indices inside the
      block hashes rule out the collisions that Merkle roots over repeated leaves have. */
  lemma {:induction false} RootDeterminesChain(a: Sealed, b: Sealed)
    requires Violations(a) == [] && Violations(b) == [] && a.root == b.root
    ensures a == b
  {
    SoundChain(a);
    SoundChain(b);
    HashesAreLevel(a.blocks);
    HashesAreLevel(b.blocks);
    if a.blocks != [] && b.blocks != [] {
      RootBindsDistinct(BlockHashes(a.blocks), BlockHashes(b.blocks), 0);
    } else {
      NonEmptyRoot(a.blocks);
      NonEmptyRoot(b.blocks);
    }
    assert |BlockHashes(a.blocks)| == |BlockHashes(b.blocks)|;
    forall i | 0 <= i < |a.blocks|
      ensures a.blocks[i] == b.blocks[i]
    {
      assert IntactAt(a.blocks, i) && IntactAt(b.blocks, i);
      assert BlockHashes(a.blocks)[i] == BlockHashes(b.blocks)[i];
    }
  }

  lemma {:induction false} HashesAreLevel(bs: seq<EvidenceBlock>)
    requires Intact(bs)
    ensures LevelLayer(BlockHashes(bs), 0)
  {
    forall i | 0 <= i < |bs|
      ensures BlockHashes(bs)[i].EvidenceHash? && BlockHashes(bs)[i].index == i
    {
      assert IntactAt(bs, i);
    }
  }

  lemma {:induction false} NonEmptyRoot(bs: seq<EvidenceBlock>)
    requires Intact(bs)
    ensures bs != [] ==> Root(BlockHashes(bs)) != Zero
  {
    if bs != [] {
      HashesAreLevel(bs);
      RootDepth(BlockHashes(bs), 0);
      assert IntactAt(bs, 0);
    }
  }

  /** The last block alone pins the chain before it: two intact chains that end in the same
      block hash are the same. */
  lemma {:induction false} LastHashDeterminesChain(a: seq<EvidenceBlock>, b: seq<EvidenceBlock>)
    requires Intact(a) && Intact(b) && LastOf(a) == LastOf(b)
    ensures a == b
    decreases |a|
  {
    if a == [] || b == [] {
      assert a != [] ==> IntactAt(a, |a| - 1);
      assert b != [] ==> IntactAt(b, |b| - 1);
    } else {
      var n, m := |a| - 1, |b| - 1;
      assert IntactAt(a, n) && IntactAt(b, m);
      PrefixIntact(a, n);
      PrefixIntact(b, m);
      LastHashDeterminesChain(a[..n], b[..m]);
      assert a == a[..n] + [a[n]] && b == b[..m] + [b[m]];
    }
  }

  lemma {:induction false} PrefixIntact(bs: seq<EvidenceBlock>, n: nat)
    requires Intact(bs) && n <= |bs|
    ensures Intact(bs[..n])
  {
    forall i | 0 <= i < n
      ensures IntactAt(bs[..n], i)
    {
      assert IntactAt(bs, i) && bs[..n][..i] == bs[..i];
    }
  }
}
