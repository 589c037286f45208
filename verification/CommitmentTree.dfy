/** The sparse incremental commitment tree (sdk/merkle-tree/index.ts). */
module CommitmentTrees {
  import opened Bits
  import opened Hex
  import opened Field
  import opened MerkleSpec
  import opened Results

  const TREE_DEPTH: nat := 20
  const MAX_LEAVES: nat := 0x10_0000

  datatype MerkleProof = MerkleProof(
    leaf: Bytes32, index: nat, indexBits: seq<bool>, siblings: seq<Bytes32>, root: Bytes32)

  datatype InsertionWitness = InsertionWitness(
    index: nat, indexBits: seq<bool>, siblings: seq<Bytes32>, emptyLeaf: Bytes32, oldRoot: Bytes32, newRoot: Bytes32)

  datatype TreeError = TreeFull | NoSuchLeaf

  /** Missing direction bits read as `false`, surplus ones are ignored. */
  function BitsUsed(bits: seq<bool>, n: nat): (r: seq<bool>)
    ensures |r| == n
  {
    if n <= |bits| then bits[..n] else bits + seq(n - |bits|, _ => false)
  }

  /** The loop shared by `fold` and `verifyMerkleProof`. */
  method FoldLoop(p: Poseidon2, leaf: Bytes32, indexBits: seq<bool>, siblings: seq<Bytes32>) returns (node: Bytes32)
    ensures node == Fold(p, leaf, BitsUsed(indexBits, |siblings|), siblings)
  {
    hide HashPair, HashPairTwice;
    node := leaf;
    ghost var bits := BitsUsed(indexBits, |siblings|);
    for level := 0 to |siblings|
      invariant node == Fold(p, leaf, bits[..level], siblings[..level])
    {
      var sibling := siblings[level];
      var right := level < |indexBits| && indexBits[level];
      var l := if right then sibling else node;
      var r := if right then node else sibling;
      HashesAgree(p, l, r);
      node := HashPairTwice(p, l, r);
      assert bits[..level + 1][..level] == bits[..level];
      assert siblings[..level + 1][..level] == siblings[..level];
    }
    assert bits[..|siblings|] == bits && siblings[..|siblings|] == siblings;
  }

  class CommitmentTree {
    const depth: nat
    const poseidon: Poseidon2
    const zeros: seq<Bytes32>
    var nodes: map<nat, map<nat, Bytes32>>
    var count: nat
    /** Everything inserted so far, in order. */
    ghost var leaves: seq<Bytes32>

    /** Every stored or defaulted node is the node of the full tree over `leaves`. */
    ghost predicate Represents(contents: seq<Bytes32>)
      reads this
      requires |zeros| == depth + 1
    {
      forall level: nat, i: nat | level <= depth :: Get(level, i) == Node(poseidon, contents, level, i)
    }

    ghost predicate Valid()
      reads this
    {
      && |zeros| == depth + 1
      && (forall level: nat | level <= depth :: zeros[level] == EmptyNode(poseidon, level))
      && count == |leaves| <= MAX_LEAVES
      && Represents(leaves)
    }

    constructor (poseidon: Poseidon2, depth: nat)
      ensures Valid() && leaves == [] && this.depth == depth && this.poseidon == poseidon
    {
      hide HashPair, HashPairTwice;
      var z: Bytes32 := ZERO_HASH;
      var zs: seq<Bytes32> := [z];
      for i := 0 to depth
        invariant |zs| == i + 1 && z == EmptyNode(poseidon, i)
        invariant forall level: nat | level <= i :: zs[level] == EmptyNode(poseidon, level)
      {
        HashesAgree(poseidon, z, z);
        z := HashPairTwice(poseidon, z, z);
        zs := zs + [z];
      }
      this.depth, this.poseidon, this.zeros := depth, poseidon, zs;
      nodes, count, leaves := map[], 0, [];
      new;
      forall level: nat, i: nat | level <= depth ensures Get(level, i) == Node(poseidon, [], level, i) {
        EmptySubtree(poseidon, level, i);
      }
    }

    function Get(level: nat, index: nat): Bytes32
      reads this
      requires level < |zeros|
    {
      if level in nodes && index in nodes[level] then nodes[level][index] else zeros[level]
    }

    method Set(level: nat, index: nat, value: Bytes32)
      requires level < |zeros|
      modifies this`nodes
      ensures forall l: nat, i: nat | l < |zeros| :: Get(l, i) == if l == level && i == index then value
              else old(Get(l, i))
    {
      var lvl: map<nat, Bytes32> := if level in nodes then nodes[level] else map[];
      nodes := nodes[level := lvl[index := value]];
    }

    function Root(): (r: Bytes32)
      reads this
      requires Valid()
      ensures r == TreeRoot(poseidon, leaves, depth)
    {
      TopNodeIsRoot(poseidon, leaves, depth);
      Get(depth, 0)
    }

    lemma CountIsSize()
      requires Valid()
      ensures count == |leaves| <= MAX_LEAVES
    {}

    /** Append a commitment. Only the 20-level capacity is guarded, whatever `depth` is. */
    method Insert(commitment: Bytes32) returns (r: Result<nat, TreeError>)
      requires Valid()
      modifies this`nodes, this`count, this`leaves
      ensures Valid()
      ensures old(count) >= MAX_LEAVES ==> r == Err(TreeFull) && unchanged(this)
      ensures old(count) < MAX_LEAVES ==> r == Ok(old(count)) && leaves == old(leaves) + [commitment]
    {
      hide HashPair, HashPairTwice, Node, EmptyNode;
      if count >= MAX_LEAVES { return Err(TreeFull); }
      var index := count;
      count := count + 1;
      SetLeaf(index, commitment, leaves, leaves + [commitment]);
      leaves := leaves + [commitment];
      r := Ok(index);
    }

    /** Rewrite one leaf and rehash the nodes above it, and nothing else. */
    method SetLeaf(index: nat, value: Bytes32, ghost before: seq<Bytes32>, ghost after: seq<Bytes32>)
      requires |zeros| == depth + 1 && index < MAX_LEAVES
      requires Represents(before) && AgreeExcept(before, after, index) && LeafAt(after, index) == value
      modifies this`nodes
      ensures Represents(after)
    {
      hide HashPair, HashPairTwice, Shr, Node, BitXor, BitAnd;
      Set(0, index, value);
      var i := index;
      StartOfPath(poseidon, before, after, index);
      for level := 0 to depth
        invariant i == Shr(index, level) <= index
        invariant forall l: nat, j: nat | l <= depth && (l <= level || j != Shr(index, l)) ::
                  Get(l, j) == Node(poseidon, after, l, j)
      {
        XorOne(i);
        AndOne(i);
        var sibling := Get(level, Xor32(i, 1));
        var current := Get(level, i);
        var l := if And32(i, 1) == 0 then current else sibling;
        var r := if And32(i, 1) == 0 then sibling else current;
        NodeAbove(poseidon, after, level, i);
        HashesAgree(poseidon, l, r);
        ShrStep(index, level);
        i := Shr32(i, 1);
        Set(level + 1, i, HashPairTwice(poseidon, l, r));
      }
    }

    /** Siblings and direction bits from a leaf slot up to the root. */
    method Path(index: nat) returns (indexBits: seq<bool>, siblings: seq<Bytes32>)
      requires Valid() && index < MAX_LEAVES
      ensures indexBits == PathBits(index, depth)
      ensures siblings == PathSiblings(poseidon, leaves, index, depth)
    {
      hide HashPair, HashPairTwice, Node, Shr;
      StartOfPath(poseidon, leaves, leaves, index);
      siblings, indexBits := [], [];
      var i := index;
      for level := 0 to depth
        invariant i == Shr(index, level) <= index
        invariant indexBits == PathBits(index, level)
        invariant siblings == PathSiblings(poseidon, leaves, index, level)
      {
        XorOne(i);
        AndOne(i);
        siblings := siblings + [Get(level, Xor32(i, 1))];
        indexBits := indexBits + [And32(i, 1) == 1];
        ShrStep(index, level);
        i := Shr32(i, 1);
      }
    }

    /** Witness for appending `commitment` at the next free slot; the tree is not changed. */
    method GetInsertionWitness(commitment: Bytes32) returns (r: Result<InsertionWitness, TreeError>)
      requires Valid()
      ensures count >= MAX_LEAVES ==> r == Err(TreeFull)
      ensures count < MAX_LEAVES ==> r.Ok? && IsAppendWitness(poseidon, leaves, depth, commitment, r.value)
    {
      if count >= MAX_LEAVES { return Err(TreeFull); }
      var index := count;
      var indexBits, siblings := Path(index);
      var oldRoot := FoldLoop(poseidon, ZERO_HASH, indexBits, siblings);
      var newRoot := FoldLoop(poseidon, commitment, indexBits, siblings);
      assert BitsUsed(indexBits, depth) == indexBits;
      r := Ok(InsertionWitness(index, indexBits, siblings, ZERO_HASH, oldRoot, newRoot));
    }

    method Proof(index: int) returns (r: Result<MerkleProof, TreeError>)
      requires Valid()
      ensures !(0 <= index < count) ==> r == Err(NoSuchLeaf)
      ensures 0 <= index < count ==> r == Ok(ProofOf(poseidon, leaves, depth, index))
    {
      if index < 0 || index >= count { return Err(NoSuchLeaf); }
      var indexBits, siblings := Path(index);
      r := Ok(MerkleProof(Get(0, index), index, indexBits, siblings, Root()));
    }

    /** The first leaf holding a commitment, or -1. */
    method IndexOf(commitment: Bytes32) returns (index: int)
      requires Valid()
      ensures -1 <= index < count
      ensures index >= 0 ==> leaves[index] == commitment && commitment !in leaves[..index]
      ensures index == -1 ==> commitment !in leaves
    {
      for i := 0 to count
        invariant commitment !in leaves[..i]
      {
        assert Get(0, i) == Node(poseidon, leaves, 0, i) == leaves[i];
        if Get(0, i) == commitment { return i; }
      }
      index := -1;
    }
  }

  lemma StartOfPath(p: Poseidon2, before: seq<Bytes32>, after: seq<Bytes32>, index: nat)
    requires AgreeExcept(before, after, index)
    ensures Shr(index, 0) == index && Node(p, after, 0, index) == LeafAt(after, index)
    ensures forall l: nat, j: nat | j != Shr(index, l) :: Node(p, before, l, j) == Node(p, after, l, j)
  {
    forall l: nat, j: nat | j != Shr(index, l)
      ensures Node(p, before, l, j) == Node(p, after, l, j)
    {
      OffPathUnchanged(p, before, after, index, l, j);
    }
  }

  /** What the witness of an append says: the two folds the circuit repeats over one path. */
  ghost predicate IsAppendWitness(p: Poseidon2, leaves: seq<Bytes32>, depth: nat, commitment: Bytes32,
                                  w: InsertionWitness)
  {
    && w.index == |leaves|
    && w.indexBits == PathBits(|leaves|, depth)
    && w.siblings == PathSiblings(p, leaves, |leaves|, depth)
    && w.emptyLeaf == ZERO_HASH
    && w.oldRoot == Fold(p, w.emptyLeaf, w.indexBits, w.siblings)
    && w.newRoot == Fold(p, commitment, w.indexBits, w.siblings)
  }

  function ProofOf(p: Poseidon2, leaves: seq<Bytes32>, depth: nat, index: nat): MerkleProof
  {
    MerkleProof(LeafAt(leaves, index), index, PathBits(index, depth), PathSiblings(p, leaves, index, depth),
                TreeRoot(p, leaves, depth))
  }

  function Accepts(p: Poseidon2, proof: MerkleProof): bool
  {
    Fold(p, proof.leaf, BitsUsed(proof.indexBits, |proof.siblings|), proof.siblings) == proof.root
  }

  /** Byte by byte over the computed root. */
  method VerifyMerkleProof(p: Poseidon2, proof: MerkleProof) returns (ok: bool)
    ensures ok == Accepts(p, proof)
  {
    hide HashPair, Fold, BitsUsed;
    var node := FoldLoop(p, proof.leaf, proof.indexBits, proof.siblings);
    for i := 0 to |node|
      invariant node[..i] == proof.root[..i]
    {
      if node[i] != proof.root[i] { return false; }
    }
    assert node == node[..32] && proof.root == proof.root[..32];
    ok := true;
  }

  lemma MaxLeavesIsFullDepth()
    ensures Pow2(TREE_DEPTH) == MAX_LEAVES
  {
    assert Pow2(5) == 32 by { assert Pow2(2) == 4; }
    Pow2Sum(5, 5);
    Pow2Sum(10, 10);
  }

  /** At the protocol's depth, or any greater one, the capacity guard leaves every slot inside the tree. */
  lemma SlotInTree(index: nat, depth: nat)
    requires index < MAX_LEAVES && depth >= TREE_DEPTH
    ensures index < Pow2(depth)
  {
    MaxLeavesIsFullDepth();
    Pow2Monotone(TREE_DEPTH, depth);
  }

  lemma AppendAgrees(leaves: seq<Bytes32>, c: Bytes32)
    ensures AgreeExcept(leaves, leaves + [c], |leaves|)
  {}

  /** Witness completeness: while the slot is inside the tree, the witness starts from the root of
      the tree and ends at the root after the append, and its bits decode to the slot. */
  lemma AppendWitnessComplete(p: Poseidon2, leaves: seq<Bytes32>, depth: nat, c: Bytes32, w: InsertionWitness)
    requires IsAppendWitness(p, leaves, depth, c, w) && |leaves| < Pow2(depth)
    ensures w.oldRoot == TreeRoot(p, leaves, depth)
    ensures w.newRoot == TreeRoot(p, leaves + [c], depth)
    ensures Decode(w.indexBits) == |leaves|
  {
    hide HashPair, Fold, Node, TreeRoot, Shr, PathBits, PathSiblings, Decode;
    var n := |leaves|;
    ShrBelow(n, depth);
    FoldAlongPath(p, leaves, leaves, n, depth);
    AppendAgrees(leaves, c);
    FoldAlongPath(p, leaves, leaves + [c], n, depth);
    TopNodeIsRoot(p, leaves, depth);
    TopNodeIsRoot(p, leaves + [c], depth);
    DecodePathBits(n, depth);
  }

  /** Membership completeness: every proof the tree hands out for a slot inside it is accepted
      and decodes to its own index. */
  lemma ProofComplete(p: Poseidon2, leaves: seq<Bytes32>, depth: nat, index: nat)
    requires index < |leaves| && index < Pow2(depth)
    ensures var proof := ProofOf(p, leaves, depth, index);
            Accepts(p, proof) && Decode(proof.indexBits) == index && proof.leaf == leaves[index]
  {
    hide HashPair, Fold, Node, TreeRoot, Shr, PathBits, PathSiblings, Decode;
    ShrBelow(index, depth);
    FoldAlongPath(p, leaves, leaves, index, depth);
    TopNodeIsRoot(p, leaves, depth);
    DecodePathBits(index, depth);
    var bits := PathBits(index, depth);
    assert BitsUsed(bits, depth) == bits;
  }
}
