/** Exactly which lists share a Merkle root: those with the same completion, the list filled up
    level by level by repeating the last block wherever a level is odd. */
module MerkleBinding {
  import opened Merkle

  // ---------------------------------------------------------------- completion

  /** Joins blocks in pairs; an odd last block is paired with itself. */
  function Merge(blocks: seq<seq<Digest>>): (merged: seq<seq<Digest>>)
    ensures |merged| == (|blocks| + 1) / 2
  {
    seq((|blocks| + 1) / 2, k requires 0 <= k < (|blocks| + 1) / 2 =>
      blocks[2 * k] + blocks[if 2 * k + 1 < |blocks| then 2 * k + 1 else 2 * k])
  }

  function Join(blocks: seq<seq<Digest>>): seq<Digest>
    decreases |blocks|
  {
    if blocks == [] then [] else if |blocks| == 1 then blocks[0] else Join(Merge(blocks))
  }

  function Singles(leaves: seq<Digest>): seq<seq<Digest>> {
    seq(|leaves|, i requires 0 <= i < |leaves| => [leaves[i]])
  }

  /** The leaves filled up to a power of two; no leaves at all count as the zero digest. */
  function Completion(leaves: seq<Digest>): seq<Digest> {
    if leaves == [] then [Zero] else Join(Singles(leaves))
  }

  function Height(n: nat): nat {
    if n <= 1 then 0 else 1 + Height((n + 1) / 2)
  }

  function Flat(blocks: seq<seq<Digest>>): seq<Digest> {
    if blocks == [] then [] else blocks[0] + Flat(blocks[1..])
  }

  lemma {:induction false} MergeFront(blocks: seq<seq<Digest>>)
    requires |blocks| >= 2
    ensures Merge(blocks) == [blocks[0] + blocks[1]] + Merge(blocks[2..])
  {
  }

  lemma {:induction false} MergeExtends(blocks: seq<seq<Digest>>)
    ensures Flat(blocks) <= Flat(Merge(blocks))
    decreases |blocks|
  {
    if |blocks| == 1 {
      assert Merge(blocks) == [blocks[0] + blocks[0]];
    } else if |blocks| >= 2 {
      MergeFront(blocks);
      MergeExtends(blocks[2..]);
      assert blocks[1..][1..] == blocks[2..];
      assert Flat(blocks) == blocks[0] + blocks[1] + Flat(blocks[2..]);
      assert Flat(Merge(blocks)) == blocks[0] + blocks[1] + Flat(Merge(blocks[2..]));
    }
  }

  lemma {:induction false} JoinExtends(blocks: seq<seq<Digest>>)
    ensures Flat(blocks) <= Join(blocks)
    decreases |blocks|
  {
    if |blocks| == 1 {
      assert Flat(blocks) == blocks[0];
    } else if |blocks| >= 2 {
      MergeExtends(blocks);
      JoinExtends(Merge(blocks));
    }
  }

  lemma {:induction false} FlatSingles(leaves: seq<Digest>)
    ensures Flat(Singles(leaves)) == leaves
  {
    if leaves != [] {
      assert Singles(leaves)[1..] == Singles(leaves[1..]);
      FlatSingles(leaves[1..]);
    }
  }

  lemma {:induction false} JoinSize(blocks: seq<seq<Digest>>, k: nat)
    requires blocks != [] && forall i :: 0 <= i < |blocks| ==> |blocks[i]| == Pow2(k)
    ensures |Join(blocks)| == Pow2(k + Height(|blocks|))
    decreases |blocks|
  {
    if |blocks| > 1 {
      JoinSize(Merge(blocks), k + 1);
    }
  }

  /** A completion starts with the leaves and has a power of two of them. */
  lemma {:induction false} CompletionExtends(leaves: seq<Digest>)
    requires leaves != []
    ensures leaves <= Completion(leaves) && |Completion(leaves)| == Pow2(Height(|leaves|))
  {
    FlatSingles(leaves);
    JoinExtends(Singles(leaves));
    JoinSize(Singles(leaves), 0);
  }

  // ---------------------------------------------------------------- unfolding a root

  /** The nodes `h` levels below a digest. */
  function Below(d: Digest, h: nat): seq<Digest> {
    if h == 0 || !d.Node? then [d] else Below(d.left, h - 1) + Below(d.right, h - 1)
  }

  /** The digest is a full tree of at least `h` levels. */
  predicate Full(d: Digest, h: nat) {
    h == 0 || (d.Node? && Full(d.left, h - 1) && Full(d.right, h - 1))
  }

  lemma {:induction false} BelowSize(d: Digest, h: nat)
    requires Full(d, h)
    ensures |Below(d, h)| == Pow2(h)
  {
    if h > 0 {
      BelowSize(d.left, h - 1);
      BelowSize(d.right, h - 1);
    }
  }

  /** A full tree is determined by its nodes at one level. */
  lemma {:induction false} BelowInjective(c: Digest, d: Digest, h: nat)
    requires Full(c, h) && Full(d, h) && Below(c, h) == Below(d, h)
    ensures c == d
  {
    if h > 0 {
      BelowSize(c.left, h - 1);
      BelowSize(d.left, h - 1);
      var n := Pow2(h - 1);
      assert Below(c, h)[..n] == Below(c.left, h - 1) && Below(d, h)[..n] == Below(d.left, h - 1);
      assert Below(c, h)[n..] == Below(c.right, h - 1) && Below(d, h)[n..] == Below(d.right, h - 1);
      BelowInjective(c.left, d.left, h - 1);
      BelowInjective(c.right, d.right, h - 1);
    }
  }

  function AllBelow(layer: seq<Digest>, k: nat): seq<seq<Digest>> {
    seq(|layer|, i requires 0 <= i < |layer| => Below(layer[i], k))
  }

  lemma {:induction false} MergeBelow(layer: seq<Digest>, k: nat)
    ensures Merge(AllBelow(layer, k)) == AllBelow(NextLayer(layer), k + 1)
  {
    forall i | 0 <= i < |NextLayer(layer)|
      ensures Merge(AllBelow(layer, k))[i] == AllBelow(NextLayer(layer), k + 1)[i]
    {
      assert NextLayer(layer)[i] == Parent(layer, i);
    }
  }

  /** Hashing up and filling up go hand in hand. */
  lemma {:induction false} JoinIsBelowRoot(layer: seq<Digest>, k: nat, h: nat)
    requires layer != [] && h == k + Height(|layer|) && forall i :: 0 <= i < |layer| ==> Full(layer[i], k)
    ensures Full(Root(layer), h) && Join(AllBelow(layer, k)) == Below(Root(layer), h)
    decreases |layer|
  {
    if |layer| > 1 {
      MergeBelow(layer, k);
      forall i | 0 <= i < |NextLayer(layer)|
        ensures Full(NextLayer(layer)[i], k + 1)
      {
        assert NextLayer(layer)[i] == Parent(layer, i);
      }
      JoinIsBelowRoot(NextLayer(layer), k + 1, h);
    }
  }

  lemma {:induction false} SinglesAreBelow(leaves: seq<Digest>)
    ensures Singles(leaves) == AllBelow(leaves, 0)
  {
    forall i | 0 <= i < |leaves|
      ensures Singles(leaves)[i] == AllBelow(leaves, 0)[i]
    {
      assert Below(leaves[i], 0) == [leaves[i]];
    }
  }

  lemma {:induction false} CompletionIsBelowRoot(leaves: seq<Digest>)
    requires leaves != []
    ensures Full(Root(leaves), Height(|leaves|))
    ensures Completion(leaves) == Below(Root(leaves), Height(|leaves|))
  {
    SinglesAreBelow(leaves);
    JoinIsBelowRoot(leaves, 0, Height(|leaves|));
  }

  // ---------------------------------------------------------------- equal roots

  /** Lists of equal height, of any digests, share a root exactly when they share a completion. */
  lemma {:induction false} SameHeightExactly(a: seq<Digest>, b: seq<Digest>)
    requires a != [] && b != [] && Height(|a|) == Height(|b|)
    ensures Root(a) == Root(b) <==> Completion(a) == Completion(b)
  {
    CompletionIsBelowRoot(a);
    CompletionIsBelowRoot(b);
    if Completion(a) == Completion(b) {
      BelowInjective(Root(a), Root(b), Height(|a|));
    }
  }

  function LeftDepth(d: Digest): nat {
    if d.Node? then 1 + LeftDepth(d.left) else 0
  }

  predicate NoNodes(leaves: seq<Digest>) {
    forall i | 0 <= i < |leaves| :: !leaves[i].Node?
  }

  lemma {:induction false} RootLeftDepth(layer: seq<Digest>, k: nat)
    requires layer != [] && forall i :: 0 <= i < |layer| ==> LeftDepth(layer[i]) == k
    ensures LeftDepth(Root(layer)) == k + Height(|layer|)
    decreases |layer|
  {
    if |layer| > 1 {
      RootLeftDepth(NextLayer(layer), k + 1);
    }
  }

  lemma {:induction false} Pow2Injective(h: nat, k: nat)
    ensures Pow2(h) >= 1 && Pow2(k) >= 1
    ensures Pow2(h) == Pow2(k) ==> h == k
  {
    if h > 0 && k > 0 {
      Pow2Injective(h - 1, k - 1);
    } else if h > 0 {
      Pow2Injective(h - 1, 0);
    } else if k > 0 {
      Pow2Injective(0, k - 1);
    }
  }

  lemma {:induction false} FilledIn(leaves: seq<Digest>)
    requires leaves == []
    ensures Root(leaves) == Root([Zero]) && Completion(leaves) == Completion([Zero])
  {
    assert Singles([Zero]) == [[Zero]];
  }

  /** Over leaves that are no interior nodes, of any two lengths: the roots are equal if and
      only if the completions are. */
  lemma {:induction false} RootsEqualExactly(a: seq<Digest>, b: seq<Digest>)
    requires NoNodes(a) && NoNodes(b)
    ensures Root(a) == Root(b) <==> Completion(a) == Completion(b)
  {
    if a == [] {
      FilledIn(a);
      if b == [] { FilledIn(b); } else { NonEmptyExactly([Zero], b); }
    } else if b == [] {
      FilledIn(b);
      NonEmptyExactly(a, [Zero]);
    } else {
      NonEmptyExactly(a, b);
    }
  }

  lemma {:induction false} NonEmptyExactly(a: seq<Digest>, b: seq<Digest>)
    requires NoNodes(a) && NoNodes(b) && a != [] && b != []
    ensures Root(a) == Root(b) <==> Completion(a) == Completion(b)
  {
    RootLeftDepth(a, 0);
    RootLeftDepth(b, 0);
    CompletionExtends(a);
    CompletionExtends(b);
    Pow2Injective(Height(|a|), Height(|b|));
    if Height(|a|) == Height(|b|) {
      SameHeightExactly(a, b);
    }
  }

  lemma {:induction false} LayerHeights(leaves: seq<Digest>, k: nat)
    requires leaves != [] && k <= Height(|leaves|)
    ensures |Layers(leaves)| == Height(|leaves|) + 1
    ensures Layers(leaves)[k] != [] && Height(|Layers(leaves)[k]|) == Height(|leaves|) - k
    decreases |leaves|
  {
    if |leaves| > 1 {
      LayerHeights(NextLayer(leaves), if k == 0 then 0 else k - 1);
      assert k > 0 ==> Layers(leaves)[k] == Layers(NextLayer(leaves))[k - 1];
    }
  }

  /** And over any leaves, interior nodes among them: the roots are equal exactly when the
      layer of the taller tree at the height of the other has the other's completion. */
  lemma {:induction false} AnyRootsEqualExactly(a: seq<Digest>, b: seq<Digest>)
    requires a != [] && b != [] && Height(|a|) >= Height(|b|)
    ensures |Layers(a)| == Height(|a|) + 1
    ensures Root(a) == Root(b) <==> Completion(Layers(a)[Height(|a|) - Height(|b|)]) == Completion(b)
  {
    var k := Height(|a|) - Height(|b|);
    LayerHeights(a, k);
    LayersAbove(a, k);
    SameHeightExactly(Layers(a)[k], b);
  }

  // ---------------------------------------------------------------- proofs of any shape

  lemma {:induction false} JoinMembers(blocks: seq<seq<Digest>>, d: Digest)
    requires d in Join(blocks)
    ensures exists i :: 0 <= i < |blocks| && d in blocks[i]
    decreases |blocks|
  {
    if |blocks| > 1 {
      JoinMembers(Merge(blocks), d);
      var k :| 0 <= k < |Merge(blocks)| && d in Merge(blocks)[k];
      assert d in blocks[2 * k] || d in blocks[if 2 * k + 1 < |blocks| then 2 * k + 1 else 2 * k];
    }
  }

  lemma {:induction false} CompletionMembers(leaves: seq<Digest>, d: Digest)
    requires leaves != [] && d in Completion(leaves)
    ensures d in leaves
  {
    JoinMembers(Singles(leaves), d);
    var i :| 0 <= i < |leaves| && d in Singles(leaves)[i];
    assert d == leaves[i];
  }

  lemma {:induction false} BelowChildren(d: Digest, h: nat, c: Digest)
    requires c in Below(d, h) && c.Node?
    ensures c.left in Below(d, h + 1) && c.right in Below(d, h + 1)
  {
    if h > 0 && d.Node? {
      if c in Below(d.left, h - 1) {
        BelowChildren(d.left, h - 1, c);
      } else {
        BelowChildren(d.right, h - 1, c);
      }
    } else {
      assert Below(d.left, 0) == [d.left] && Below(d.right, 0) == [d.right];
    }
  }

  /** A proof leads up from a node as many levels below the root as it has steps. */
  lemma {:induction false} FoldIsBelow(h: Digest, proof: seq<ProofStep>)
    ensures h in Below(Fold(h, proof), |proof|)
    decreases |proof|
  {
    if proof != [] {
      var c := Combine(h, proof[0]);
      FoldIsBelow(c, proof[1..]);
      BelowChildren(Fold(h, proof), |proof| - 1, c);
    }
  }

  lemma {:induction false} InteriorBelow(d: Digest, n: nat, h: nat, c: Digest)
    requires Full(d, h) && n < h && c in Below(d, n)
    ensures c.Node?
  {
    if n > 0 {
      if c in Below(d.left, n - 1) {
        InteriorBelow(d.left, n - 1, h - 1, c);
      } else {
        InteriorBelow(d.right, n - 1, h - 1, c);
      }
    }
  }

  lemma {:induction false} FoldSplit(h: Digest, proof: seq<ProofStep>, k: nat)
    requires k <= |proof|
    ensures Fold(h, proof) == Fold(Fold(h, proof[..k]), proof[k..])
    ensures k > 0 ==> Fold(h, proof[..k]).Node?
    decreases k
  {
    if k == 0 {
      assert proof[..0] == [] && proof[0..] == proof;
    } else {
      FoldSplit(Combine(h, proof[0]), proof[1..], k - 1);
      assert proof[..k][1..] == proof[1..][..k - 1] && proof[1..][k - 1..] == proof[k..];
    }
  }

  lemma {:induction false} FullLengthIsLeaf(leaves: seq<Digest>, h: Digest, proof: seq<ProofStep>)
    requires leaves != [] && Fold(h, proof) == Root(leaves) && |proof| == Height(|leaves|)
    ensures h in leaves
  {
    CompletionIsBelowRoot(leaves);
    FoldIsBelow(h, proof);
    CompletionMembers(leaves, h);
  }

  lemma {:induction false} LeafNeedsFullLength(leaves: seq<Digest>, h: Digest, proof: seq<ProofStep>)
    requires leaves != [] && NoNodes(leaves) && h in leaves && Fold(h, proof) == Root(leaves)
    ensures |proof| == Height(|leaves|)
  {
    CompletionIsBelowRoot(leaves);
    FoldIsBelow(h, proof);
    var height := Height(|leaves|);
    if |proof| < height {
      InteriorBelow(Root(leaves), |proof|, height, h);
    } else if |proof| > height {
      var k := |proof| - height;
      FoldSplit(h, proof, k);
      FullLengthIsLeaf(leaves, Fold(h, proof[..k]), proof[k..]);
    }
  }

  /** A proof of any left/right pattern that verifies: if it is as long as the tree is high, it
      proves a leaf; and over leaves that are no interior nodes it proves one only then. */
  lemma {:induction false} ProvesLeafExactly(leaves: seq<Digest>, h: Digest, proof: seq<ProofStep>)
    requires leaves != [] && Fold(h, proof) == Root(leaves)
    ensures |proof| == Height(|leaves|) ==> h in leaves
    ensures NoNodes(leaves) ==> (h in leaves <==> |proof| == Height(|leaves|))
  {
    if |proof| == Height(|leaves|) {
      FullLengthIsLeaf(leaves, h, proof);
    } else if NoNodes(leaves) && h in leaves {
      LeafNeedsFullLength(leaves, h, proof);
    }
  }
}
