/** What an accepted membership proof proves when it is not as long as the tree is deep: `verifyMerkleProof`
    takes the length of the path from the proof itself (sdk/merkle-tree/index.ts:201-209). */
module ProofLengths {
  import opened Bits
  import opened Hex
  import opened Field
  import opened MerkleSpec
  import opened CommitmentTrees
  import opened TreeBinding

  /** The first `n` nodes of one level. */
  function Row(p: Poseidon2, leaves: seq<Bytes32>, level: nat, n: nat): (v: seq<Bytes32>)
    ensures |v| == n && forall i :: 0 <= i < n ==> v[i] == Node(p, leaves, level, i)
  {
    seq(n, i requires 0 <= i < n => Node(p, leaves, level, i))
  }

  /** A tree over the nodes of one level is the upper part of the tree. */
  lemma {:induction false} NodeOfRow(p: Poseidon2, leaves: seq<Bytes32>, level: nat, n: nat, height: nat, i: nat)
    requires (i + 1) * Pow2(height) <= n
    ensures Node(p, Row(p, leaves, level, n), height, i) == Node(p, leaves, level + height, i)
  {
    hide HashPair, Row;
    if height > 0 {
      var half := Pow2(height - 1);
      assert (i + 1) * (2 * half) == (2 * i + 1 + 1) * half == (2 * i + 1) * half + half;
      NodeOfRow(p, leaves, level, n, height - 1, 2 * i);
      NodeOfRow(p, leaves, level, n, height - 1, 2 * i + 1);
    }
  }

  lemma RootOfRow(p: Poseidon2, leaves: seq<Bytes32>, level: nat, height: nat)
    ensures TreeRoot(p, Row(p, leaves, level, Pow2(height)), height) == TreeRoot(p, leaves, level + height)
    ensures VectorRoot(p, height, Row(p, leaves, level, Pow2(height))) == TreeRoot(p, leaves, level + height)
  {
    hide VectorRoot, Node, Row, Pow2;
    var row := Row(p, leaves, level, Pow2(height));
    NodeOfRow(p, leaves, level, Pow2(height), height, 0);
    TopNodeIsRoot(p, row, height);
    TopNodeIsRoot(p, leaves, level + height);
    assert Slots(row, 0, Pow2(height)) == row;
  }

  /** An accepted proof with no more siblings than levels proves the node that many levels below the root,
      at the index its bits name: a leaf only if it has one sibling per level. Or a collision. */
  lemma ShortProofBinds(p: Poseidon2, leaves: seq<Bytes32>, depth: nat, proof: MerkleProof)
    requires |proof.siblings| <= depth && proof.root == TreeRoot(p, leaves, depth) && Accepts(p, proof)
    ensures var m := |proof.siblings|;
            var bits := BitsUsed(proof.indexBits, m);
            match FindCollision(p, Row(p, leaves, depth - m, Pow2(m)), proof.leaf, bits, proof.siblings)
            case Some(x) => IsCollision(p, x)
            case None => Bytes32ToField(proof.leaf) == Bytes32ToField(Node(p, leaves, depth - m, Decode(bits)))
  {
    hide HashPair, Fold, VectorRoot, Bytes32ToField, FindCollision, Decode, Row, Node, BitsUsed, Pow2, TreeRoot;
    var m := |proof.siblings|;
    RootOfRow(p, leaves, depth - m, m);
    PathBinds(p, Row(p, leaves, depth - m, Pow2(m)), proof.leaf, proof.leaf, BitsUsed(proof.indexBits, m),
              proof.siblings);
  }

  /** Conversely every node of the tree has such a proof. */
  lemma EveryNodeHasProof(p: Poseidon2, leaves: seq<Bytes32>, depth: nat, level: nat, index: nat)
    requires level <= depth && index < Pow2(depth - level)
    ensures var m := depth - level;
            var siblings := PathSiblings(p, Row(p, leaves, level, Pow2(m)), index, m);
            var proof := MerkleProof(Node(p, leaves, level, index), index, PathBits(index, m), siblings,
                                     TreeRoot(p, leaves, depth));
            Accepts(p, proof) && Decode(proof.indexBits) == index && |proof.siblings| == m
  {
    hide HashPair, Fold, VectorRoot, Row, PathBits, PathSiblings, Decode, Pow2, TreeRoot, Shr;
    var m := depth - level;
    var row := Row(p, leaves, level, Pow2(m));
    RootOfRow(p, leaves, level, m);
    FoldAlongPath(p, row, row, index, m);
    ShrBelow(index, m);
    TopNodeIsRoot(p, row, m);
    DecodePathBits(index, m);
    assert BitsUsed(PathBits(index, m), m) == PathBits(index, m);
  }

  lemma {:induction false} FoldInTwo(p: Poseidon2, leaf: Bytes32, bits: seq<bool>, siblings: seq<Bytes32>, e: nat)
    requires |bits| == |siblings| && e <= |bits|
    ensures Fold(p, leaf, bits, siblings) == Fold(p, Fold(p, leaf, bits[..e], siblings[..e]), bits[e..], siblings[e..])
  {
    hide HashOnPath;
    var n := |bits|;
    if e == n {
      assert bits[..e] == bits && siblings[..e] == siblings;
    } else {
      FoldInTwo(p, leaf, bits[..n - 1], siblings[..n - 1], e);
      assert bits[..n - 1][..e] == bits[..e] && siblings[..n - 1][..e] == siblings[..e];
      assert bits[e..][..n - 1 - e] == bits[..n - 1][e..] && siblings[e..][..n - 1 - e] == siblings[..n - 1][e..];
    }
  }

  /** What a proof longer than the tree is deep puts forward as a leaf: its own start, hashed along the lower
      siblings. */
  function LeafOfLong(p: Poseidon2, depth: nat, proof: MerkleProof): Bytes32
    requires |proof.siblings| >= depth
  {
    hide *;
    var m := |proof.siblings|;
    Fold(p, proof.leaf, BitsUsed(proof.indexBits, m)[..m - depth], proof.siblings[..m - depth])
  }

  /** Its upper bits, one per level. */
  function UpperBits(depth: nat, proof: MerkleProof): (bits: seq<bool>)
    requires |proof.siblings| >= depth
    ensures |bits| == depth
  {
    hide *;
    var m := |proof.siblings|;
    BitsUsed(proof.indexBits, m)[m - depth..]
  }

  /** An accepted proof with more siblings than levels proves that the leaf at the slot its upper bits name
      is the hash, along the lower siblings, of what it starts from. Or a collision. */
  lemma LongProofBinds(p: Poseidon2, leaves: seq<Bytes32>, depth: nat, proof: MerkleProof)
    requires |proof.siblings| >= depth && proof.root == TreeRoot(p, leaves, depth) && Accepts(p, proof)
    ensures var leaf, bits := LeafOfLong(p, depth, proof), UpperBits(depth, proof);
            match FindCollision(p, Slots(leaves, 0, Pow2(depth)), leaf, bits,
                                proof.siblings[|proof.siblings| - depth..])
            case Some(x) => IsCollision(p, x)
            case None => Bytes32ToField(leaf) == Bytes32ToField(LeafAt(leaves, Decode(bits)))
  {
    hide HashPair, Fold, VectorRoot, Bytes32ToField, FindCollision, Decode, Slots, BitsUsed, Pow2;
    var m := |proof.siblings|;
    FoldInTwo(p, proof.leaf, BitsUsed(proof.indexBits, m), proof.siblings, m - depth);
    var leaf := LeafOfLong(p, depth, proof);
    PathBinds(p, Slots(leaves, 0, Pow2(depth)), leaf, leaf, UpperBits(depth, proof), proof.siblings[m - depth..]);
  }

  // ---- a commitment that the tree does not hold, and an accepted proof for it ----

  /** The proof of the left inner node of a tree of two levels. */
  function InnerProof(p: Poseidon2, leaves: seq<Bytes32>): MerkleProof
  {
    MerkleProof(Node(p, leaves, 1, 0), 0, [false], [Node(p, leaves, 1, 1)], TreeRoot(p, leaves, 2))
  }

  /** For every hash it is accepted... */
  lemma InnerProofAccepted(p: Poseidon2, leaves: seq<Bytes32>)
    ensures Accepts(p, InnerProof(p, leaves))
  {
    hide HashPair, TreeRoot, Fold;
    var proof := InnerProof(p, leaves);
    assert BitsUsed([false], 1) == [false];
    TopOfFold(p, proof.leaf, [false], proof.siblings);
    NothingFolded(p, proof.leaf);
    assert [false][..0] == [] && proof.siblings[..0] == [];
    TopNodeIsRoot(p, leaves, 2);
  }

  lemma NothingFolded(p: Poseidon2, leaf: Bytes32)
    ensures Fold(p, leaf, [], []) == leaf
  {}

  /** ...and no collision is found along it. */
  lemma InnerProofNoCollision(p: Poseidon2, leaves: seq<Bytes32>)
    ensures var proof := InnerProof(p, leaves);
            FindCollision(p, Row(p, leaves, 1, Pow2(1)), proof.leaf, proof.indexBits, proof.siblings).None?
  {
    hide HashPair, Bytes32ToField, Node, TreeRoot;
    assert [false][..0] == [];
  }

  /** With leaves 1 and 2 and the hash that adds, 3 is proved and not held: the failing input. */
  lemma AbsentButAccepted()
    ensures var leaves := [FieldToBytes32(1), FieldToBytes32(2)];
            var proof := InnerProof(SumHash(), leaves);
            && RealCommitments(leaves) && RealCommitments([proof.leaf]) && proof.leaf !in leaves
            && Accepts(SumHash(), proof)
            && FindCollision(SumHash(), Row(SumHash(), leaves, 1, Pow2(1)), proof.leaf, proof.indexBits,
                             proof.siblings).None?
  {
    hide FindCollision, Row, FieldToBytes32, Bytes32ToField, Canonical, BytesVal;
    var leaves := [FieldToBytes32(1), FieldToBytes32(2)];
    InnerProofAccepted(SumHash(), leaves);
    InnerProofNoCollision(SumHash(), leaves);
    ZeroIsCanonical();
    FieldRoundTrip(1);
    FieldRoundTrip(2);
    FieldRoundTrip(3);
    assert Node(SumHash(), leaves, 0, 0) == leaves[0] && Node(SumHash(), leaves, 0, 1) == leaves[1];
    HashAsField(SumHash(), leaves[0], leaves[1]);
    assert Node(SumHash(), leaves, 1, 0) == HashPair(SumHash(), leaves[0], leaves[1]) == FieldToBytes32(3);
  }
}
