/** Merkle proofs over byte strings, as `verifyMerkleProof` decodes them from hexadecimal
    (packages/audit-engine/src/AuditHasher.ts): the code checks no lengths, neither of the leaf
    nor of the proof, so what is no leaf can be passed off. The hash is free, as in module
    Merkle. */
module MerkleBytes {
  import opened Merkle
  import opened MerkleBinding

  /** A byte is given, or it is one of the bytes of a hash. */
  datatype Atom = Byte(value: nat) | Part(hash: Hash, index: nat)

  datatype Hash = Interior(input: seq<Atom>) | Leaf(digest: Digest)

  type Bytes = seq<Atom>

  const WIDTH: nat := 32

  function HashBytes(h: Hash): (bytes: Bytes)
    ensures |bytes| == WIDTH
  {
    seq(WIDTH, i requires 0 <= i < WIDTH => Part(h, i))
  }

  /** The bytes of a digest; interior nodes hash the prefix 0x01 and both children. */
  function Encode(d: Digest): (bytes: Bytes)
    ensures |bytes| == WIDTH
  {
    if d.Node? then HashBytes(Interior([Byte(1)] + Encode(d.left) + Encode(d.right))) else HashBytes(Leaf(d))
  }

  datatype RawStep = RawStep(position: Side, hash: Bytes)

  function RawCombine(h: Bytes, step: RawStep): (bytes: Bytes)
    ensures |bytes| == WIDTH
  {
    HashBytes(Interior(if step.position == Right then [Byte(1)] + h + step.hash else [Byte(1)] + step.hash + h))
  }

  function RawFold(h: Bytes, proof: seq<RawStep>): Bytes
    decreases |proof|
  {
    if proof == [] then h else RawFold(RawCombine(h, proof[0]), proof[1..])
  }

  function RawSides(proof: seq<RawStep>): seq<Side> {
    if proof == [] then [] else [proof[0].position] + RawSides(proof[1..])
  }

  function EncodeProof(proof: seq<ProofStep>): seq<RawStep> {
    if proof == [] then []
    else [RawStep(proof[0].position, Encode(proof[0].hash))] + EncodeProof(proof[1..])
  }

  method VerifyRawProof(leaf: Bytes, proof: seq<RawStep>, expectedRoot: Bytes)
    returns (valid: bool, computedRoot: Bytes)
    ensures computedRoot == RawFold(leaf, proof) && valid == (computedRoot == expectedRoot)
  {
    computedRoot := leaf;
    var k := 0;
    while k < |proof|
      invariant 0 <= k <= |proof|
      invariant RawFold(computedRoot, proof[k..]) == RawFold(leaf, proof)
    {
      assert proof[k..][0] == proof[k] && proof[k..][1..] == proof[k + 1..];
      computedRoot := RawCombine(computedRoot, proof[k]);
      k := k + 1;
    }
    valid := computedRoot == expectedRoot;
  }

  lemma {:induction false} HashInjective(g: Hash, h: Hash)
    requires HashBytes(g) == HashBytes(h)
    ensures g == h
  {
    assert HashBytes(g)[0] == Part(g, 0) && HashBytes(h)[0] == Part(h, 0);
  }

  lemma {:induction false} Cut(a: Bytes, b: Bytes, c: Bytes, d: Bytes)
    requires [Byte(1)] + a + b == [Byte(1)] + c + d && (|a| == |c| || |b| == |d|)
    ensures a == c && b == d
  {
    var s, t := [Byte(1)] + a + b, [Byte(1)] + c + d;
    assert |a| == |c| && |s| == |t|;
    assert s[1..1 + |a|] == a && t[1..1 + |c|] == c;
    assert s[1 + |a|..] == b && t[1 + |c|..] == d;
  }

  /** Different digests have different bytes. */
  lemma {:induction false} EncodeInjective(d: Digest, e: Digest)
    requires Encode(d) == Encode(e)
    ensures d == e
  {
    HashInjective(if d.Node? then Interior([Byte(1)] + Encode(d.left) + Encode(d.right)) else Leaf(d),
                  if e.Node? then Interior([Byte(1)] + Encode(e.left) + Encode(e.right)) else Leaf(e));
    if d.Node? {
      Cut(Encode(d.left), Encode(d.right), Encode(e.left), Encode(e.right));
      EncodeInjective(d.left, e.left);
      EncodeInjective(d.right, e.right);
    }
  }

  /** On digests the byte-level check is the one of module Merkle. */
  lemma {:induction false} FoldEncodes(h: Digest, proof: seq<ProofStep>)
    ensures RawFold(Encode(h), EncodeProof(proof)) == Encode(Fold(h, proof))
    decreases |proof|
  {
    if proof != [] {
      FoldEncodes(Combine(h, proof[0]), proof[1..]);
      assert EncodeProof(proof)[1..] == EncodeProof(proof[1..]);
    }
  }

  lemma {:induction false} StepSound(leaf: Bytes, step: RawStep, d: Digest, generated: ProofStep)
    requires |leaf| == WIDTH && step.position == generated.position
    requires RawCombine(leaf, step) == Encode(Combine(d, generated))
    ensures leaf == Encode(d) && step.hash == Encode(generated.hash)
  {
    if step.position == Right {
      HashInjective(Interior([Byte(1)] + leaf + step.hash), Interior([Byte(1)] + Encode(d) + Encode(generated.hash)));
      Cut(leaf, step.hash, Encode(d), Encode(generated.hash));
    } else {
      HashInjective(Interior([Byte(1)] + step.hash + leaf), Interior([Byte(1)] + Encode(generated.hash) + Encode(d)));
      Cut(step.hash, leaf, Encode(generated.hash), Encode(d));
    }
  }

  lemma {:induction false} WideLeafSound(leaves: seq<Digest>, i: nat, leaf: Bytes, proof: seq<RawStep>)
    requires i < |leaves| && |leaf| == WIDTH
    requires RawSides(proof) == Sides(ProofOf(leaves, i))
    requires RawFold(leaf, proof) == Encode(Root(leaves))
    ensures leaf == Encode(leaves[i]) && proof == EncodeProof(ProofOf(leaves, i))
    decreases |leaves|
  {
    var generated := ProofOf(leaves, i);
    if |leaves| == 1 {
      assert RawSides(proof) == [] && proof == [];
    } else {
      assert Sides(generated)[0] == StepAt(leaves, i).position && Sides(generated)[1..] == Sides(generated[1..]);
      assert RawSides(proof)[0] == proof[0].position && RawSides(proof)[1..] == RawSides(proof[1..]);
      StepReachesParent(leaves, i);
      WideLeafSound(NextLayer(leaves), i / 2, RawCombine(leaf, proof[0]), proof[1..]);
      StepSound(leaf, proof[0], leaves[i], StepAt(leaves, i));
      assert proof == [proof[0]] + proof[1..];
    }
  }

  /** A proof with the left/right pattern of index `i` that verifies proves the leaf at `i` if and
      only if the leaf it is given has the length of a digest. */
  lemma {:induction false} SoundAtIndex(leaves: seq<Digest>, i: nat, leaf: Bytes, proof: seq<RawStep>)
    requires i < |leaves|
    requires RawSides(proof) == Sides(ProofOf(leaves, i))
    requires RawFold(leaf, proof) == Encode(Root(leaves))
    ensures leaf == Encode(leaves[i]) <==> |leaf| == WIDTH
    ensures |leaf| == WIDTH ==> proof == EncodeProof(ProofOf(leaves, i))
  {
    if |leaf| == WIDTH {
      WideLeafSound(leaves, i, leaf, proof);
    }
  }

  /** Bytes as long as a digest that verify are those of a digest, and so are the steps. */
  lemma {:induction false} Decode(leaf: Bytes, proof: seq<RawStep>, d: Digest)
    returns (h: Digest, steps: seq<ProofStep>)
    requires |leaf| == WIDTH && RawFold(leaf, proof) == Encode(d)
    ensures leaf == Encode(h) && proof == EncodeProof(steps) && |steps| == |proof| && Fold(h, steps) == d
    decreases |proof|
  {
    if proof == [] {
      h, steps := d, [];
    } else {
      var parent, rest := Decode(RawCombine(leaf, proof[0]), proof[1..], d);
      var step;
      h, step := Split(leaf, proof[0], parent);
      steps := [step] + rest;
      assert steps[1..] == rest && EncodeProof(steps)[1..] == EncodeProof(rest);
      assert proof == [proof[0]] + proof[1..];
    }
  }

  lemma {:induction false} Split(leaf: Bytes, raw: RawStep, parent: Digest) returns (h: Digest, step: ProofStep)
    requires |leaf| == WIDTH && RawCombine(leaf, raw) == Encode(parent)
    ensures leaf == Encode(h) && raw == RawStep(step.position, Encode(step.hash)) && Combine(h, step) == parent
  {
    HashInjective(
      Interior(if raw.position == Right then [Byte(1)] + leaf + raw.hash else [Byte(1)] + raw.hash + leaf),
      if parent.Node? then Interior([Byte(1)] + Encode(parent.left) + Encode(parent.right)) else Leaf(parent));
    if raw.position == Right {
      Cut(leaf, raw.hash, Encode(parent.left), Encode(parent.right));
      h, step := parent.left, ProofStep(parent.left, Right, parent.right);
    } else {
      Cut(raw.hash, leaf, Encode(parent.left), Encode(parent.right));
      h, step := parent.right, ProofStep(parent.right, Left, parent.left);
    }
  }

  /** Over leaves that are no interior nodes: whatever bytes verify, with a proof of whatever
      pattern and length, they are those of a leaf if and only if they are as long as a digest
      and the proof has as many steps as the tree has levels above its leaves. The verifier
      checks neither. */
  lemma {:induction false} SoundExactly(leaves: seq<Digest>, leaf: Bytes, proof: seq<RawStep>)
    requires leaves != [] && NoNodes(leaves) && RawFold(leaf, proof) == Encode(Root(leaves))
    ensures (exists l :: l in leaves && leaf == Encode(l)) <==> |leaf| == WIDTH && |proof| == Height(|leaves|)
  {
    if |leaf| == WIDTH {
      var h, steps := Decode(leaf, proof, Root(leaves));
      ProvesLeafExactly(leaves, h, steps);
      forall l | l in leaves && leaf == Encode(l)
        ensures l == h
      {
        EncodeInjective(l, h);
      }
    }
  }

  /** An interior node passes with a proof that is a step short. */
  lemma {:induction false} InteriorPasses(a: Digest, b: Digest, c: Digest, d: Digest)
    requires NoNodes([a, b, c, d])
    ensures var leaf := Node(a, b);
            && leaf !in [a, b, c, d] && |Encode(leaf)| == WIDTH
            && RawFold(Encode(leaf), [RawStep(Right, Encode(Node(c, d)))]) == Encode(Root([a, b, c, d]))
  {
    var leaves, leaf, proof := [a, b, c, d], Node(a, b), [ProofStep(Node(a, b), Right, Node(c, d))];
    assert !leaves[0].Node? && !leaves[1].Node? && !leaves[2].Node? && !leaves[3].Node?;
    assert NextLayer(leaves) == [leaf, Node(c, d)] && NextLayer([leaf, Node(c, d)]) == [Node(leaf, Node(c, d))];
    assert Root(leaves) == Root([leaf, Node(c, d)]) == Root([Node(leaf, Node(c, d))]);
    assert proof[1..] == [] && Fold(leaf, proof) == Combine(leaf, proof[0]);
    assert EncodeProof(proof) == [RawStep(Right, Encode(Node(c, d)))] + EncodeProof([]);
    FoldEncodes(leaf, proof);
  }

  /** The empty leaf passes for the second of two: its one step carries both digests. */
  lemma {:induction false} EmptyLeafPasses(l: Digest, r: Digest)
    ensures var proof := [RawStep(Left, Encode(l) + Encode(r))];
            && RawSides(proof) == Sides(ProofOf([l, r], 1))
            && RawFold([], proof) == Encode(Root([l, r]))
  {
    var proof := [RawStep(Left, Encode(l) + Encode(r))];
    assert NextLayer([l, r]) == [Node(l, r)];
    assert proof[1..] == [] && [Byte(1)] + (Encode(l) + Encode(r)) + [] == [Byte(1)] + Encode(l) + Encode(r);
    assert ProofOf([l, r], 1) == [StepAt([l, r], 1)] + ProofOf(NextLayer([l, r]), 0);
    assert ProofOf([Node(l, r)], 0) == [];
    assert RawSides(proof) == [Left];
    assert Sides([StepAt([l, r], 1)]) == [Left];
  }
}
