/** Merkle trees and proofs (packages/audit-engine/src/AuditHasher.ts,
    packages/evidence/src/EvidenceHasher.ts) over a free hash: a digest is a constructor
    applied to what was hashed, so different inputs have different digests. */
module Merkle {
  import opened Arithmetic
  import opened Canonical

  datatype Digest =
    | Zero                                             // sixty-four zeros
    | Data(text: Text)                                 // hash of a text
    | Node(left: Digest, right: Digest)                // interior node, prefix 0x01
    | Link(prev: Digest, sequence: int, canonical: Text)
    | BlockHash(number: int, first: int, last: int, root: Digest, prevBlock: Digest)
    | EvidenceHash(index: int, timestamp: int, evidenceId: Text, contentHash: Text, previous: Digest)

  datatype Side = Left | Right

  datatype ProofStep = ProofStep(leaf: Digest, position: Side, hash: Digest)

  // ---------------------------------------------------------------- trees

  /** The parent of position `k` of the layer above; an odd last node is paired with itself. */
  function Parent(layer: seq<Digest>, k: nat): Digest
    requires 2 * k < |layer|
  {
    Node(layer[2 * k], layer[if 2 * k + 1 < |layer| then 2 * k + 1 else 2 * k])
  }

  function NextLayer(layer: seq<Digest>): (next: seq<Digest>)
    ensures |next| == (|layer| + 1) / 2
  {
    seq((|layer| + 1) / 2, k requires 0 <= k < (|layer| + 1) / 2 => Parent(layer, k))
  }

  function Layers(leaves: seq<Digest>): seq<seq<Digest>>
    requires leaves != []
    decreases |leaves|
  {
    if |leaves| == 1 then [leaves] else [leaves] + Layers(NextLayer(leaves))
  }

  function Root(leaves: seq<Digest>): Digest
    decreases |leaves|
  {
    if leaves == [] then Zero else if |leaves| == 1 then leaves[0] else Root(NextLayer(leaves))
  }

  /** The sibling step for position `i` of a layer. */
  function StepAt(layer: seq<Digest>, i: nat): ProofStep
    requires i < |layer|
  {
    if i % 2 == 1 then ProofStep(layer[i], Left, layer[i - 1])
    else if i + 1 < |layer| then ProofStep(layer[i], Right, layer[i + 1])
    else ProofStep(layer[i], Right, layer[i])
  }

  function ProofOf(leaves: seq<Digest>, i: nat): seq<ProofStep>
    requires i < |leaves|
    decreases |leaves|
  {
    if |leaves| == 1 then [] else [StepAt(leaves, i)] + ProofOf(NextLayer(leaves), i / 2)
  }

  function Combine(h: Digest, step: ProofStep): Digest {
    if step.position == Right then Node(h, step.hash) else Node(step.hash, h)
  }

  function Fold(h: Digest, proof: seq<ProofStep>): Digest
    decreases |proof|
  {
    if proof == [] then h else Fold(Combine(h, proof[0]), proof[1..])
  }

  /** A step leads from a node to its parent. */
  lemma {:induction false} StepReachesParent(layer: seq<Digest>, i: nat)
    requires i < |layer|
    ensures i / 2 < |NextLayer(layer)|
    ensures Combine(layer[i], StepAt(layer, i)) == NextLayer(layer)[i / 2]
  {
  }

  /** The generated proof of every leaf verifies against the root. */
  lemma {:induction false} ProofComplete(leaves: seq<Digest>, i: nat)
    requires i < |leaves|
    ensures Fold(leaves[i], ProofOf(leaves, i)) == Root(leaves)
    decreases |leaves|
  {
    if |leaves| > 1 {
      StepReachesParent(leaves, i);
      ProofComplete(NextLayer(leaves), i / 2);
    }
  }

  /** The left/right pattern of a proof. */
  function Sides(proof: seq<ProofStep>): (sides: seq<Side>)
    ensures |sides| == |proof|
  {
    if proof == [] then [] else [proof[0].position] + Sides(proof[1..])
  }

  /** A proof with the pattern of index `i` that verifies at all verifies the leaf at `i`, and
      its hashes are those of the generated proof. */
  lemma {:induction false} ProofSound(leaves: seq<Digest>, i: nat, h: Digest, proof: seq<ProofStep>)
    requires i < |leaves|
    requires Sides(proof) == Sides(ProofOf(leaves, i))
    requires Fold(h, proof) == Root(leaves)
    ensures h == leaves[i]
    ensures |proof| == |ProofOf(leaves, i)|
    ensures forall k :: 0 <= k < |proof| ==> proof[k].hash == ProofOf(leaves, i)[k].hash
    decreases |leaves|
  {
    var generated := ProofOf(leaves, i);
    if |leaves| > 1 {
      assert Sides(generated)[0] == StepAt(leaves, i).position && Sides(generated)[1..] == Sides(generated[1..]);
      assert Sides(proof)[0] == proof[0].position && Sides(proof)[1..] == Sides(proof[1..]);
      StepReachesParent(leaves, i);
      ProofSound(NextLayer(leaves), i / 2, Combine(h, proof[0]), proof[1..]);
      forall k | 0 <= k < |proof|
        ensures proof[k].hash == generated[k].hash
      {
        if k > 0 {
          assert proof[k] == proof[1..][k - 1] && generated[k] == generated[1..][k - 1];
        }
      }
    }
  }

  function Pow2(k: nat): nat
  {
    if k == 0 then 1 else 2 * Pow2(k - 1)
  }

  lemma {:induction false} CeilHalves(n: nat, p: nat)
    requires p > 0
    ensures ((n + 1) / 2 + p - 1) / p == (n + 2 * p - 1) / (2 * p)
  {
    var q := (n + 2 * p - 1) / (2 * p);
    var r := (n + 2 * p - 1) % (2 * p);
    assert n + 2 * p - 1 == q * (2 * p) + r;
    assert (n + 1) / 2 + p - 1 == q * p + (r + 2) / 2 - 1 by {
      assert n + 1 == 2 * (q * p - p) + (r + 2);
    }
    var s := (r + 2) / 2 - 1;
    assert 0 <= s < p;
    QuotientUnique((n + 1) / 2 + p - 1, p, q, s);
  }

  /** Layer `k` of a tree over `n` leaves has ceil(n / 2^k) nodes, and the last one is the root. */
  lemma {:induction false} LayerSizes(leaves: seq<Digest>, k: nat)
    requires leaves != [] && k < |Layers(leaves)|
    ensures Pow2(k) > 0 && |Layers(leaves)[k]| == (|leaves| + Pow2(k) - 1) / Pow2(k)
    ensures var top := Layers(leaves)[|Layers(leaves)| - 1]; top == [Root(leaves)]
    decreases |leaves|
  {
    if |leaves| > 1 {
      var up := NextLayer(leaves);
      LayerSizes(up, if k == 0 then 0 else k - 1);
      if k > 0 {
        assert Layers(leaves)[k] == Layers(up)[k - 1];
        CeilHalves(|leaves|, Pow2(k - 1));
      }
    }
  }

  // ---------------------------------------------------------------- binding

  lemma {:induction false} NextLayerInjective(a: seq<Digest>, b: seq<Digest>)
    requires |a| == |b| && NextLayer(a) == NextLayer(b)
    ensures a == b
  {
    forall i | 0 <= i < |a|
      ensures a[i] == b[i]
    {
      assert Parent(a, i / 2) == NextLayer(a)[i / 2] == NextLayer(b)[i / 2] == Parent(b, i / 2);
    }
  }

  /** Lists of equal length with equal roots are equal. */
  lemma {:induction false} RootBinds(a: seq<Digest>, b: seq<Digest>)
    requires |a| == |b| && Root(a) == Root(b)
    ensures a == b
    decreases |a|
  {
    if |a| > 1 {
      RootBinds(NextLayer(a), NextLayer(b));
      NextLayerInjective(a, b);
    }
  }

  function Depth(d: Digest): nat {
    if d.Node? then 1 + Depth(d.left) else 0
  }

  /** Different digests, all at one height above the leaves. */
  ghost predicate LevelLayer(layer: seq<Digest>, k: nat) {
    && (forall i :: 0 <= i < |layer| ==> Depth(layer[i]) == k)
    && (forall i, j :: 0 <= i < j < |layer| ==> layer[i] != layer[j])
  }

  lemma {:induction false} NextLayerIsLevel(layer: seq<Digest>, k: nat)
    requires LevelLayer(layer, k)
    ensures LevelLayer(NextLayer(layer), k + 1)
  {
    forall i, j | 0 <= i < j < |NextLayer(layer)|
      ensures NextLayer(layer)[i] != NextLayer(layer)[j]
    {
      assert layer[2 * i] != layer[2 * j];
    }
  }

  lemma {:induction false} RootDepth(layer: seq<Digest>, k: nat)
    requires LevelLayer(layer, k) && layer != []
    ensures Depth(Root(layer)) >= k && (|layer| > 1 ==> Depth(Root(layer)) > k)
    decreases |layer|
  {
    if |layer| > 1 {
      NextLayerIsLevel(layer, k);
      RootDepth(NextLayer(layer), k + 1);
    }
  }

  /** Over different leaves that are no interior nodes the root binds the list, whatever the
      lengths. */
  lemma {:induction false} RootBindsDistinct(a: seq<Digest>, b: seq<Digest>, k: nat)
    requires LevelLayer(a, k) && LevelLayer(b, k) && a != [] && b != []
    requires Root(a) == Root(b)
    ensures a == b
    decreases |a|
  {
    RootDepth(a, k);
    RootDepth(b, k);
    if |a| > 1 && |b| > 1 {
      NextLayerIsLevel(a, k);
      NextLayerIsLevel(b, k);
      RootBindsDistinct(NextLayer(a), NextLayer(b), k + 1);
      var m := |NextLayer(a)|;
      assert Parent(a, m - 1) == NextLayer(a)[m - 1] == NextLayer(b)[m - 1] == Parent(b, m - 1);
      assert |a| == |b|;
      NextLayerInjective(a, b);
    }
  }

  /** Across lengths the root does not bind lists with repetitions: repeating the last leaf of an odd list of more
      than one leaf keeps its root. */
  lemma {:induction false} RepeatedLeafCollides(leaves: seq<Digest>)
    requires |leaves| > 1 && |leaves| % 2 == 1
    ensures Root(leaves + [leaves[|leaves| - 1]]) == Root(leaves)
  {
    var longer := leaves + [leaves[|leaves| - 1]];
    forall k | 0 <= k < |NextLayer(leaves)|
      ensures NextLayer(longer)[k] == NextLayer(leaves)[k]
    {
    }
    assert NextLayer(longer) == NextLayer(leaves);
  }

  /** Nor does the tree tell a leaf from an interior node. */
  lemma {:induction false} NodeAsLeafCollides(a: Digest, b: Digest)
    ensures Root([Node(a, b)]) == Root([a, b])
  {
    assert NextLayer([a, b]) == [Node(a, b)];
  }

  // ---------------------------------------------------------------- the loops

  method BuildLayer(layer: seq<Digest>) returns (next: seq<Digest>)
    ensures next == NextLayer(layer)
  {
    next := [];
    var i := 0;
    while i < |layer|
      invariant i == 2 * |next| && |next| <= (|layer| + 1) / 2
      invariant forall k :: 0 <= k < |next| ==> next[k] == Parent(layer, k)
    {
      var left := layer[i];
      var right := if i + 1 < |layer| then layer[i + 1] else left;
      next := next + [Node(left, right)];
      i := i + 2;
    }
  }

  /** Layers of a layer are the layers above it. */
  lemma {:induction false} LayersAbove(leaves: seq<Digest>, k: nat)
    requires leaves != [] && k < |Layers(leaves)|
    ensures var ls := Layers(leaves);
            && ls[0] == leaves && ls[k] != []
            && (k + 1 < |ls| ==> |ls[k]| > 1 && ls[k + 1] == NextLayer(ls[k]))
            && (k + 1 == |ls| ==> |ls[k]| == 1)
            && Root(ls[k]) == Root(leaves)
    decreases |leaves|
  {
    if |leaves| > 1 {
      var up := NextLayer(leaves);
      if k > 0 {
        LayersAbove(up, k - 1);
        assert Layers(leaves)[k] == Layers(up)[k - 1];
      }
      if k + 1 < |Layers(leaves)| {
        LayersAbove(up, k);
        assert Layers(leaves)[k + 1] == Layers(up)[k];
      }
    }
  }

  /** An item is a string of sixty-four hexadecimal digits, taken as a digest, or other data. */
  datatype Item = Hashed(digest: Digest) | Raw(value: Value)

  /** `hashData`: a string is hashed as it is, any other value as its canonical text. */
  function HashData(v: Value): Digest {
    Data(if v.Str? then v.s else Canon(Audit, v))
  }

  function LeafOf(item: Item): Digest {
    match item
    case Hashed(digest) => digest
    case Raw(value) => HashData(value)
  }

  function LeavesOf(items: seq<Item>): seq<Digest> {
    seq(|items|, i requires 0 <= i < |items| => LeafOf(items[i]))
  }

  /** Which data share a leaf: equal strings; other values that serialize alike; and a string
      with every value whose canonical text it is, so that such a string passes for the value. */
  lemma {:induction false} DataExactly(v: Value, w: Value)
    requires Object(v) && Object(w) && (v.Str? ==> w.Str?)
    ensures LeafOf(Raw(v)) == LeafOf(Raw(w)) <==>
              if v.Str? then v == w
              else if w.Str? then w.s == Canon(Audit, v)
              else Same(Normal(Audit, v), Normal(Audit, w))
  {
    if !w.Str? {
      CanonExact(Audit, v, Audit, w);
    }
  }

  method BuildMerkleTree(items: seq<Item>) returns (root: Digest, layers: seq<seq<Digest>>)
    ensures root == Root(LeavesOf(items))
    ensures layers == if items == [] then [[Zero]] else Layers(LeavesOf(items))
  {
    if items == [] {
      return Zero, [[Zero]];
    }
    var leaves := LeavesOf(items);
    layers := [leaves];
    var current := leaves;
    LayersAbove(leaves, 0);
    while |current| > 1
      invariant 0 < |layers| <= |Layers(leaves)| && current == layers[|layers| - 1] != []
      invariant layers == Layers(leaves)[..|layers|]
      decreases |current|
    {
      LayersAbove(leaves, |layers| - 1);
      current := BuildLayer(current);
      layers := layers + [current];
    }
    LayersAbove(leaves, |layers| - 1);
    root := current[0];
  }

  /** Every layer below the top has the node that the walk from position `i` passes. */
  predicate Walkable(layers: seq<seq<Digest>>, i: nat)
    decreases |layers|
  {
    |layers| <= 1 || (i < |layers[0]| && Walkable(layers[1..], i / 2))
  }

  function ProofIn(layers: seq<seq<Digest>>, i: nat): seq<ProofStep>
    requires Walkable(layers, i)
    decreases |layers|
  {
    if |layers| <= 1 then [] else [StepAt(layers[0], i)] + ProofIn(layers[1..], i / 2)
  }

  /** In the layers of a tree the walk goes through and collects the proof of the leaf. */
  lemma {:induction false} ProofInTree(leaves: seq<Digest>, i: nat)
    requires i < |leaves|
    ensures Walkable(Layers(leaves), i) && ProofIn(Layers(leaves), i) == ProofOf(leaves, i)
    decreases |leaves|
  {
    if |leaves| > 1 {
      assert Layers(leaves)[1..] == Layers(NextLayer(leaves));
      ProofInTree(NextLayer(leaves), i / 2);
      assert Layers(NextLayer(leaves)) != [];
    }
  }

  /** Indices out of range give an empty proof. */
  method GetMerkleProof(layers: seq<seq<Digest>>, index: int) returns (proof: seq<ProofStep>)
    requires layers != [] && 0 <= index < |layers[0]| ==> Walkable(layers, index)
    ensures proof == if layers != [] && 0 <= index < |layers[0]| then ProofIn(layers, index) else []
  {
    proof := [];
    if layers == [] || index < 0 || index >= |layers[0]| {
      return;
    }
    var current: nat := index;
    var k := 0;
    while k < |layers| - 1
      invariant 0 <= k < |layers| && Walkable(layers[k..], current)
      invariant proof + ProofIn(layers[k..], current) == ProofIn(layers, index)
    {
      var layer := layers[k];
      assert layers[k..][0] == layer && layers[k..][1..] == layers[k + 1..];
      var step := if current % 2 == 1 then ProofStep(layer[current], Left, layer[current - 1])
                  else if current + 1 < |layer| then ProofStep(layer[current], Right, layer[current + 1])
                  else ProofStep(layer[current], Right, layer[current]);
      Prepend(proof, step, ProofIn(layers[k + 1..], current / 2));
      proof := proof + [step];
      current := current / 2;
      k := k + 1;
    }
  }

  lemma {:induction false} Prepend(proof: seq<ProofStep>, step: ProofStep, rest: seq<ProofStep>)
    ensures proof + ([step] + rest) == proof + [step] + rest
  {
  }

  method VerifyMerkleProof(leaf: Digest, proof: seq<ProofStep>, expectedRoot: Digest)
    returns (valid: bool, computedRoot: Digest)
    ensures computedRoot == Fold(leaf, proof) && valid == (computedRoot == expectedRoot)
  {
    computedRoot := leaf;
    var k := 0;
    while k < |proof|
      invariant 0 <= k <= |proof|
      invariant Fold(computedRoot, proof[k..]) == Fold(leaf, proof)
    {
      assert proof[k..][0] == proof[k] && proof[k..][1..] == proof[k + 1..];
      computedRoot := Combine(computedRoot, proof[k]);
      k := k + 1;
    }
    valid := computedRoot == expectedRoot;
  }

  /** The evidence package computes the same root. */
  method ComputeMerkleRoot(hashes: seq<Digest>) returns (root: Digest)
    ensures root == Root(hashes)
  {
    if hashes == [] {
      return Zero;
    }
    if |hashes| == 1 {
      return hashes[0];
    }
    var current := hashes;
    while |current| > 1
      invariant current != [] && Root(current) == Root(hashes)
      decreases |current|
    {
      current := BuildLayer(current);
    }
    root := current[0];
  }
}
