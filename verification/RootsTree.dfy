/** The second tree implementation (sdk/roots/merkle-tree.ts), its clone and projection, and its
    agreement with `CommitmentTree`. */
module RootsTrees {
  import opened Bits
  import opened Hex
  import opened Field
  import opened MerkleSpec
  import opened Results
  import CommitmentTrees

  datatype MerklePath = MerklePath(leaf: Bytes32, index: nat, indexBits: seq<nat>, siblings: seq<Bytes32>,
                                   root: Bytes32)

  datatype ShieldError = TreeFull | BadIndex

  /** Direction bits as the numbers 0 and 1. */
  function Numbers(bits: seq<bool>): (r: seq<nat>)
    ensures |r| == |bits|
  {
    if bits == [] then [] else Numbers(bits[..|bits| - 1]) + [if bits[|bits| - 1] then 1 else 0]
  }

  /** One JavaScript `Map` of node hashes; writes go to this very object. */
  class LevelMap {
    var entries: map<nat, Bytes32>

    constructor ()
      ensures entries == map[]
    {
      entries := map[];
    }

    /** `new Map(other)`. */
    constructor CopyOf(other: LevelMap)
      ensures entries == other.entries
    {
      entries := other.entries;
    }

    method Set(index: nat, value: Bytes32)
      modifies this
      ensures entries == old(entries)[index := value]
    {
      entries := entries[index := value];
    }
  }

  /** The JavaScript array of leaves, which grows in place. */
  class LeafArray {
    var items: seq<Bytes32>

    constructor ()
      ensures items == []
    {
      items := [];
    }

    /** `other.slice()`. */
    constructor SliceOf(other: LeafArray)
      ensures items == other.items
    {
      items := other.items;
    }

    method Push(leaf: Bytes32)
      modifies this
      ensures items == old(items) + [leaf]
    {
      items := items + [leaf];
    }
  }

  class MerkleTree {
    const depth: nat
    const poseidon: Poseidon2
    const zeros: seq<Bytes32>
    var leaves: LeafArray
    var nodes: seq<LevelMap>
    /** The objects this tree writes to: itself, its leaves and its levels. */
    ghost var Repr: set<object>

    /** One level map per level, none of them shared. */
    ghost predicate Shape()
      reads this
    {
      && this in Repr && leaves in Repr
      && |zeros| == depth + 1 && |nodes| == depth + 1
      && (forall l :: 0 <= l < |nodes| ==> nodes[l] in Repr)
      && (forall l, m :: 0 <= l < m < |nodes| ==> nodes[l] != nodes[m])
    }

    ghost predicate Represents(contents: seq<Bytes32>)
      reads this, nodes
      requires Shape()
    {
      forall level: nat, i: nat | level <= depth :: GetNode(level, i) == Node(poseidon, contents, level, i)
    }

    ghost predicate Valid()
      reads this, Repr
    {
      && Shape()
      && (forall level: nat | level <= depth :: zeros[level] == EmptyNode(poseidon, level))
      && |leaves.items| <= Pow2(depth)
      && Represents(leaves.items)
    }

    ghost function Contents(): seq<Bytes32>
      reads this, leaves
    {
      leaves.items
    }

    constructor (poseidon: Poseidon2, depth: nat)
      ensures Valid() && fresh(Repr) && Contents() == [] && this.depth == depth && this.poseidon == poseidon
    {
      hide HashPair;
      var zs: seq<Bytes32> := [ZERO_HASH];
      for i := 1 to depth + 1
        invariant |zs| == i
        invariant forall level: nat | level < i :: zs[level] == EmptyNode(poseidon, level)
      {
        var prev := zs[i - 1];
        zs := zs + [HashPair(poseidon, prev, prev)];
      }
      var levels := EmptyLevels(depth + 1);
      var empty := new LeafArray();
      this.depth, this.poseidon, this.zeros := depth, poseidon, zs;
      leaves, nodes := empty, levels;
      Repr := {this, empty} + Objects(levels);
      new;
      forall level: nat, i: nat | level <= depth ensures GetNode(level, i) == Node(poseidon, [], level, i) {
        EmptySubtree(poseidon, level, i);
      }
    }

    function GetNode(level: nat, index: nat): Bytes32
      reads this, nodes
      requires level < |zeros| && level < |nodes|
    {
      if index in nodes[level].entries then nodes[level].entries[index] else zeros[level]
    }

    method SetNode(level: nat, index: nat, value: Bytes32)
      requires Shape() && level <= depth
      modifies nodes[level]
      ensures forall l: nat, i: nat | l <= depth :: GetNode(l, i) == if l == level && i == index then value
              else old(GetNode(l, i))
    {
      nodes[level].Set(index, value);
    }

    function GenesisRoot(): (r: Bytes32)
      reads this, Repr
      requires Valid()
      ensures r == TreeRoot(poseidon, [], depth)
    {
      EmptySubtree(poseidon, depth, 0);
      TopNodeIsRoot(poseidon, [], depth);
      zeros[depth]
    }

    function Root(): (r: Bytes32)
      reads this, Repr
      requires Valid()
      ensures r == TreeRoot(poseidon, Contents(), depth)
    {
      TopNodeIsRoot(poseidon, leaves.items, depth);
      GetNode(depth, 0)
    }

    /** Append in place. Nothing but this tree's own leaves and levels is written. */
    method Append(leaf: Bytes32) returns (r: Result<nat, ShieldError>)
      requires Valid()
      modifies Repr - {this}
      ensures Valid()
      ensures |old(Contents())| >= Pow2(depth) ==> r == Err(TreeFull) && unchanged(Repr)
      ensures |old(Contents())| < Pow2(depth) ==> r == Ok(|old(Contents())|) && Contents() == old(Contents()) + [leaf]
    {
      hide Node, EmptyNode, Pow2, Shr;
      if |leaves.items| >= Pow2(depth) { return Err(TreeFull); }
      var index := |leaves.items|;
      ghost var before := leaves.items;
      leaves.Push(leaf);
      SetNode(0, index, leaf);
      CommitmentTrees.StartOfPath(poseidon, before, leaves.items, index);
      RecomputePath(index, leaves.items);
      r := Ok(index);
    }

    /** Rehash the ancestors of one leaf, bottom up. */
    method RecomputePath(index: nat, ghost after: seq<Bytes32>)
      requires Shape()
      requires forall l: nat, j: nat | l <= depth && (l == 0 || j != Shr(index, l)) ::
               GetNode(l, j) == Node(poseidon, after, l, j)
      modifies nodes
      ensures Represents(after)
    {
      hide HashPair, Shr, Node;
      var i := index;
      ShrAtMost(index, 0);
      assert Shr(index, 0) == index by { CommitmentTrees.StartOfPath(poseidon, after, after, index); }
      for level := 0 to depth
        invariant i == Shr(index, level)
        invariant forall l: nat, j: nat | l <= depth && (l <= level || j != Shr(index, l)) ::
                  GetNode(l, j) == Node(poseidon, after, l, j)
      {
        var left := if i % 2 == 0 then GetNode(level, i) else GetNode(level, i - 1);
        var right := if i % 2 == 0 then GetNode(level, i + 1) else GetNode(level, i);
        var parent := HashPair(poseidon, left, right);
        NodeAbove(poseidon, after, level, i);
        ShrStep(index, level);
        i := i / 2;
        SetNode(level + 1, i, parent);
      }
    }

    /** A deep copy: equal contents, and not one object in common with this tree. */
    method Clone() returns (copy: MerkleTree)
      requires Valid()
      ensures copy.Valid() && fresh(copy.Repr)
      ensures copy.depth == depth && copy.poseidon == poseidon && copy.Contents() == Contents()
    {
      hide Node, EmptyNode;
      copy := new MerkleTree(poseidon, depth);
      var leavesCopy := new LeafArray.SliceOf(leaves);
      var levels := CopiedLevels(nodes);
      copy.leaves := leavesCopy;
      copy.nodes := levels;
      copy.Repr := {copy, leavesCopy} + Objects(levels);
      assert forall level: nat | level <= depth :: copy.zeros[level] == zeros[level];
      assert forall level: nat, i: nat | level <= depth :: copy.GetNode(level, i) == GetNode(level, i);
    }

    lemma WithinCapacity()
      requires Valid()
      ensures |Contents()| <= Pow2(depth)
    {}

    /** The root after appending `newLeaves`. All appends go to a copy: no leaf, level or field of this
        tree is written. */
    method ProjectRoot(newLeaves: seq<Bytes32>) returns (r: Result<Bytes32, ShieldError>)
      requires Valid()
      ensures Valid() && unchanged(Repr)
      ensures |Contents()| + |newLeaves| <= Pow2(depth) ==> r == Ok(TreeRoot(poseidon, Contents() + newLeaves, depth))
      ensures |Contents()| + |newLeaves| > Pow2(depth) ==> r == Err(TreeFull)
    {
      hide *;
      WithinCapacity();
      var scratch := Clone();
      for k := 0 to |newLeaves|
        invariant scratch.Valid() && fresh(scratch.Repr) && scratch.depth == depth && scratch.poseidon == poseidon
        invariant scratch.Contents() == Contents() + newLeaves[..k] && |Contents()| + k <= Pow2(depth)
      {
        var appended := scratch.Append(newLeaves[k]);
        if appended.Err? { return Err(appended.error); }
        assert newLeaves[..k + 1] == newLeaves[..k] + [newLeaves[k]];
      }
      assert newLeaves[..|newLeaves|] == newLeaves;
      r := Ok(scratch.Root());
    }

    method Proof(index: int) returns (r: Result<MerklePath, ShieldError>)
      requires Valid()
      ensures !(0 <= index < |Contents()|) ==> r == Err(BadIndex)
      ensures 0 <= index < |Contents()| ==>
                r.Ok? && SamePath(r.value, CommitmentTrees.ProofOf(poseidon, Contents(), depth, index))
    {
      hide HashPair, Node, Shr, TreeRoot, EmptyNode, Pow2;
      if index < 0 || index >= |leaves.items| { return Err(BadIndex); }
      var siblings: seq<Bytes32>, indexBits: seq<nat> := [], [];
      var i: nat := index;
      CommitmentTrees.StartOfPath(poseidon, leaves.items, leaves.items, index);
      for level := 0 to depth
        invariant i == Shr(index, level)
        invariant indexBits == Numbers(PathBits(index, level))
        invariant siblings == PathSiblings(poseidon, leaves.items, index, level)
      {
        var isRight := i % 2 == 1;
        var siblingIndex := if isRight then i - 1 else i + 1;
        siblings := siblings + [GetNode(level, siblingIndex)];
        indexBits := indexBits + [if isRight then 1 else 0];
        assert PathBits(index, level + 1)[..level] == PathBits(index, level);
        ShrStep(index, level);
        i := i / 2;
      }
      r := Ok(MerklePath(leaves.items[index], index, indexBits, siblings, Root()));
    }
  }

  ghost function Objects(levels: seq<LevelMap>): (r: set<object>)
    ensures forall l :: 0 <= l < |levels| ==> levels[l] in r
    ensures forall o :: o in r ==> o in levels
  {
    set l | l in levels
  }

  /** `n` new maps, all different. */
  method EmptyLevels(n: nat) returns (levels: seq<LevelMap>)
    ensures |levels| == n && fresh(levels)
    ensures forall l :: 0 <= l < n ==> levels[l].entries == map[]
    ensures forall l, m :: 0 <= l < m < n ==> levels[l] != levels[m]
  {
    levels := [];
    for k := 0 to n
      invariant |levels| == k && fresh(levels)
      invariant forall l :: 0 <= l < k ==> levels[l].entries == map[]
      invariant forall l, m :: 0 <= l < m < k ==> levels[l] != levels[m]
    {
      var level := new LevelMap();
      levels := levels + [level];
    }
  }

  /** `nodes.map((level) => new Map(level))`. */
  method CopiedLevels(nodes: seq<LevelMap>) returns (levels: seq<LevelMap>)
    ensures |levels| == |nodes| && fresh(levels)
    ensures forall l :: 0 <= l < |levels| ==> levels[l].entries == nodes[l].entries
    ensures forall l, m :: 0 <= l < m < |levels| ==> levels[l] != levels[m]
  {
    levels := [];
    for k := 0 to |nodes|
      invariant |levels| == k && fresh(levels)
      invariant forall l :: 0 <= l < k ==> levels[l].entries == nodes[l].entries
      invariant forall l, m :: 0 <= l < m < k ==> levels[l] != levels[m]
    {
      var level := new LevelMap.CopyOf(nodes[k]);
      levels := levels + [level];
    }
  }

  /** One authentication path in the two trees' notations. */
  ghost predicate SamePath(a: MerklePath, b: CommitmentTrees.MerkleProof)
  {
    a.leaf == b.leaf && a.index == b.index && a.indexBits == Numbers(b.indexBits) && a.siblings == b.siblings
        && a.root == b.root
  }

  /** Two trees of equal depth and contents agree on the root and on every node. */
  lemma TreesAgree(a: CommitmentTrees.CommitmentTree, b: MerkleTree)
    requires a.Valid() && b.Valid()
    requires a.poseidon == b.poseidon && a.depth == b.depth && a.leaves == b.Contents()
    ensures a.Root() == b.Root()
    ensures forall level: nat, i: nat | level <= a.depth :: a.Get(level, i) == b.GetNode(level, i)
  {}

  /** Both implementations, fed one sequence of appends that fits in either, end with equal roots
      and give equal paths for the same indices. */
  method AppendToBoth(p: Poseidon2, depth: nat, commitments: seq<Bytes32>, index: int)
    returns (a: CommitmentTrees.CommitmentTree, b: MerkleTree,
             pa: Result<CommitmentTrees.MerkleProof, CommitmentTrees.TreeError>, pb: Result<MerklePath, ShieldError>)
    requires |commitments| <= Pow2(depth) && |commitments| <= CommitmentTrees.MAX_LEAVES
    ensures a.Valid() && b.Valid() && a.leaves == b.Contents() == commitments
    ensures a.Root() == b.Root()
    ensures pa.Ok? == pb.Ok? == (0 <= index < |commitments|)
    ensures pa.Ok? ==> SamePath(pb.value, pa.value)
  {
    hide *;
    a := new CommitmentTrees.CommitmentTree(p, depth);
    b := new MerkleTree(p, depth);
    for k := 0 to |commitments|
      invariant fresh(a) && fresh(b.Repr) && a !in b.Repr && a.Valid() && b.Valid()
      invariant a.depth == b.depth == depth && a.poseidon == b.poseidon == p
      invariant a.leaves == b.Contents() == commitments[..k]
    {
      a.CountIsSize();
      var _ := a.Insert(commitments[k]);
      var _ := b.Append(commitments[k]);
      assert commitments[..k + 1] == commitments[..k] + [commitments[k]];
    }
    assert commitments[..|commitments|] == commitments;
    a.CountIsSize();
    pa := a.Proof(index);
    pb := b.Proof(index);
  }
}
