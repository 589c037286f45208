/** What the circuit's path checks bind when the tree is the client's (sdk/merkle-tree/index.ts:128-138, 199-209),
    and when the witness the tree hands out really starts from its root. */
module TreeBinding {
  import opened Bits
  import opened Digits
  import opened Hex
  import opened Field
  import opened MerkleSpec
  import opened CommitmentTrees
  import opened Results

  /** Commitments as the protocol makes them: reduced, and not the empty leaf. */
  ghost predicate RealCommitments(leaves: seq<Bytes32>)
  {
    forall i :: 0 <= i < |leaves| ==> Canonical(leaves[i]) && leaves[i] != ZERO_HASH
  }

  lemma ZeroIsCanonical()
    ensures BytesVal(ZERO_HASH) == 0 && Canonical(ZERO_HASH) && Bytes32ToField(ZERO_HASH) == 0
  {
    LeadingZeros(32, [], 256);
    assert Zeros(32) + [] == ZERO_HASH;
    FieldIsReducedValue(ZERO_HASH);
  }

  lemma SameField(a: Bytes32, b: Bytes32)
    requires Canonical(a) && Canonical(b)
    ensures Bytes32ToField(a) == Bytes32ToField(b) <==> a == b
  {
    if Bytes32ToField(a) == Bytes32ToField(b) { CanonicalInjective(a, b); }
  }

  lemma FreeSlot(leaves: seq<Bytes32>, slot: nat)
    requires RealCommitments(leaves) && Bytes32ToField(LeafAt(leaves, slot)) == 0
    ensures slot >= |leaves|
  {
    hide Bytes32ToField, Canonical;
    ZeroIsCanonical();
    if slot < |leaves| { SameField(leaves[slot], ZERO_HASH); }
  }

  lemma HeldLeaf(leaves: seq<Bytes32>, slot: nat, leaf: Bytes32)
    requires RealCommitments(leaves) && RealCommitments([leaf])
    requires Bytes32ToField(LeafAt(leaves, slot)) == Bytes32ToField(leaf)
    ensures slot < |leaves| && leaves[slot] == leaf
  {
    hide Bytes32ToField, Canonical;
    ZeroIsCanonical();
    assert [leaf][0] == leaf;
    SameField(LeafAt(leaves, slot), leaf);
  }

  lemma AppendedSlots(leaves: seq<Bytes32>, c: Bytes32, n: nat)
    requires |leaves| < n
    ensures Slots(leaves, 0, n)[|leaves| := c] == Slots(leaves + [c], 0, n)
  {
    hide Slots;
  }

  /** A forged append: bits and siblings of the adversary's choice that take the empty leaf to the
      current root can only name an empty slot, and the new root is the old vector with that one
      slot filled. Otherwise they hand us a Poseidon collision. */
  lemma AppendBinds(p: Poseidon2, leaves: seq<Bytes32>, depth: nat, bits: seq<bool>, siblings: seq<Bytes32>,
                    c: Bytes32, newRoot: Bytes32)
    requires |bits| == |siblings| == depth
    requires Fold(p, ZERO_HASH, bits, siblings) == TreeRoot(p, leaves, depth)
    requires Fold(p, c, bits, siblings) == newRoot
    ensures var v, slot := Slots(leaves, 0, Pow2(depth)), Decode(bits);
            match FindCollision(p, v, ZERO_HASH, bits, siblings)
            case Some(x) => IsCollision(p, x)
            case None =>
              && Bytes32ToField(LeafAt(leaves, slot)) == 0
              && newRoot == VectorRoot(p, depth, v[slot := c])
              && (RealCommitments(leaves) ==> slot >= |leaves|)
              && (slot == |leaves| ==> newRoot == TreeRoot(p, leaves + [c], depth))
  {
    hide HashPair, Fold, VectorRoot, Bytes32ToField, FindCollision, Decode, Slots, RealCommitments;
    var v, slot := Slots(leaves, 0, Pow2(depth)), Decode(bits);
    PathBinds(p, v, ZERO_HASH, c, bits, siblings);
    if FindCollision(p, v, ZERO_HASH, bits, siblings).None? {
      ZeroIsCanonical();
      if RealCommitments(leaves) { FreeSlot(leaves, slot); }
      if slot == |leaves| { AppendedSlots(leaves, c, Pow2(depth)); }
    }
  }

  /** The collision an append at the next free slot would have to exhibit, if it exhibits one. */
  function AppendCollision(p: Poseidon2, leaves: seq<Bytes32>, bits: seq<bool>,
                           siblings: seq<Bytes32>): Option<Collision>
    requires |bits| == |siblings|
  {
    FindCollision(p, Slots(leaves, 0, Pow2(|bits|)), ZERO_HASH, bits, siblings)
  }

  lemma AppendAtNextSlot(p: Poseidon2, leaves: seq<Bytes32>, bits: seq<bool>, siblings: seq<Bytes32>, c: Bytes32,
                         newRoot: Bytes32)
    requires |bits| == |siblings| && Decode(bits) == |leaves|
    requires Fold(p, ZERO_HASH, bits, siblings) == TreeRoot(p, leaves, |bits|) && Fold(p, c, bits, siblings) == newRoot
    ensures match AppendCollision(p, leaves, bits, siblings)
            case Some(x) => IsCollision(p, x)
            case None => newRoot == TreeRoot(p, leaves + [c], |bits|)
  {
    hide Fold, TreeRoot, FindCollision, Decode, Slots, VectorRoot;
    AppendBinds(p, leaves, |bits|, bits, siblings, c, newRoot);
  }

  /** Two chained appends, as in a split: over an intermediate root of the adversary's choice, appending
      at the next two free slots can only end at the root of the tree with both commitments appended. */
  lemma TwoAppendsBind(p: Poseidon2, leaves: seq<Bytes32>, c1: Bytes32, c2: Bytes32, middle: Bytes32, newRoot: Bytes32,
                       bits1: seq<bool>, siblings1: seq<Bytes32>, bits2: seq<bool>, siblings2: seq<Bytes32>)
    requires |bits1| == |siblings1| == |bits2| == |siblings2|
    requires Fold(p, ZERO_HASH, bits1, siblings1) == TreeRoot(p, leaves, |bits1|)
             && Fold(p, c1, bits1, siblings1) == middle
    requires Fold(p, ZERO_HASH, bits2, siblings2) == middle && Fold(p, c2, bits2, siblings2) == newRoot
    requires Decode(bits1) == |leaves| && Decode(bits2) == |leaves| + 1
    ensures var x1, x2 := AppendCollision(p, leaves, bits1, siblings1),
            AppendCollision(p, leaves + [c1], bits2, siblings2);
            if x1.Some? then IsCollision(p, x1.value)
            else if x2.Some? then IsCollision(p, x2.value)
            else newRoot == TreeRoot(p, leaves + [c1] + [c2], |bits1|)
  {
    hide *;
    AppendAtNextSlot(p, leaves, bits1, siblings1, c1, middle);
    if AppendCollision(p, leaves, bits1, siblings1).None? {
      AppendAtNextSlot(p, leaves + [c1], bits2, siblings2, c2, newRoot);
    }
  }

  /** An accepted membership proof with one sibling per level, against the root of the tree, proves
      the leaf in the slot its bits name. Proofs of other lengths are the subject of module ProofLengths. */
  lemma MembershipSound(p: Poseidon2, leaves: seq<Bytes32>, proof: MerkleProof)
    requires proof.root == TreeRoot(p, leaves, |proof.siblings|)
    requires Accepts(p, proof)
    ensures var bits := BitsUsed(proof.indexBits, |proof.siblings|);
            match FindCollision(p, Slots(leaves, 0, Pow2(|bits|)), proof.leaf, bits, proof.siblings)
            case Some(x) => IsCollision(p, x)
            case None =>
              && Bytes32ToField(proof.leaf) == Bytes32ToField(LeafAt(leaves, Decode(bits)))
              && (RealCommitments(leaves) && RealCommitments([proof.leaf]) ==>
                    Decode(bits) < |leaves| && leaves[Decode(bits)] == proof.leaf)
  {
    hide HashPair, Fold, VectorRoot, Bytes32ToField, FindCollision, Decode, Slots, RealCommitments, BitsUsed;
    var bits := BitsUsed(proof.indexBits, |proof.siblings|);
    var v := Slots(leaves, 0, Pow2(|bits|));
    PathBinds(p, v, proof.leaf, proof.leaf, bits, proof.siblings);
    if FindCollision(p, v, proof.leaf, bits, proof.siblings).None? {
      if RealCommitments(leaves) && RealCommitments([proof.leaf]) { HeldLeaf(leaves, Decode(bits), proof.leaf); }
    }
  }

  /** For a real commitment that the tree does not hold, no proof with one sibling per level is accepted,
      short of a collision. */
  lemma AbsentHasNoProof(p: Poseidon2, leaves: seq<Bytes32>, proof: MerkleProof)
    requires RealCommitments(leaves) && RealCommitments([proof.leaf]) && proof.leaf !in leaves
    requires proof.root == TreeRoot(p, leaves, |proof.siblings|)
    requires Accepts(p, proof)
    ensures var bits := BitsUsed(proof.indexBits, |proof.siblings|);
            var x := FindCollision(p, Slots(leaves, 0, Pow2(|bits|)), proof.leaf, bits, proof.siblings);
            x.Some? && IsCollision(p, x.value)
  {
    hide Fold, VectorRoot, FindCollision, Decode, Slots, Accepts, BitsUsed;
    MembershipSound(p, leaves, proof);
  }

  // ---- a root commits to the whole list ----

  /** The collision two trees with one root would have to exhibit, if they exhibit one. */
  function RootCollision(p: Poseidon2, a: seq<Bytes32>, b: seq<Bytes32>, depth: nat): Option<Collision>
  {
    FindRootCollision(p, depth, Slots(a, 0, Pow2(depth)), Slots(b, 0, Pow2(depth)))
  }

  /** Two lists of leaves have one root if and only if they agree, as field elements, in every slot of the
      tree; lists of real commitments that fit in the tree, if and only if they are equal. Or a collision. */
  lemma RootsBindLists(p: Poseidon2, a: seq<Bytes32>, b: seq<Bytes32>, depth: nat)
    ensures match RootCollision(p, a, b, depth)
            case Some(x) => IsCollision(p, x)
            case None =>
              var same := Bytes32ToField(TreeRoot(p, a, depth)) == Bytes32ToField(TreeRoot(p, b, depth));
              && (same <==> SameAsFields(Slots(a, 0, Pow2(depth)), Slots(b, 0, Pow2(depth))))
              && (RealCommitments(a) && RealCommitments(b) && |a| <= Pow2(depth) && |b| <= Pow2(depth)
                  ==> (same <==> a == b))
  {
    hide Bytes32ToField, VectorRoot, FindRootCollision, SameAsFields, Slots, RealCommitments;
    RootBindsLeaves(p, depth, Slots(a, 0, Pow2(depth)), Slots(b, 0, Pow2(depth)));
    if RealCommitments(a) && RealCommitments(b) && |a| <= Pow2(depth) && |b| <= Pow2(depth) {
      SameSlotsSameList(a, b, Pow2(depth));
    }
  }

  lemma SameSlotsSameList(a: seq<Bytes32>, b: seq<Bytes32>, n: nat)
    requires RealCommitments(a) && RealCommitments(b) && |a| <= n && |b| <= n
    ensures SameAsFields(Slots(a, 0, n), Slots(b, 0, n)) <==> a == b
  {
    hide Bytes32ToField, Canonical, Slots;
    var v, w := Slots(a, 0, n), Slots(b, 0, n);
    if SameAsFields(v, w) {
      forall i | 0 <= i < n ensures LeafAt(a, i) == LeafAt(b, i) {
        assert v[i] == LeafAt(a, i) && w[i] == LeafAt(b, i);
        ZeroIsCanonical();
        SameField(LeafAt(a, i), LeafAt(b, i));
      }
      assert |a| < n ==> LeafAt(b, |a|) == LeafAt(a, |a|) == ZERO_HASH;
      assert |b| < n ==> LeafAt(a, |b|) == LeafAt(b, |b|) == ZERO_HASH;
      assert |a| == |b|;
      assert forall i :: 0 <= i < |a| ==> a[i] == LeafAt(a, i) == LeafAt(b, i) == b[i];
      assert a == b;
    }
  }

  /** Roots above leaf level are canonical: they agree as numbers exactly when they agree as field elements. */
  lemma SameRootNumber(p: Poseidon2, a: seq<Bytes32>, b: seq<Bytes32>, depth: nat)
    requires depth > 0
    ensures BytesToBig(TreeRoot(p, a, depth)) == BytesToBig(TreeRoot(p, b, depth))
            <==> Bytes32ToField(TreeRoot(p, a, depth)) == Bytes32ToField(TreeRoot(p, b, depth))
  {
    hide Bytes32ToField, VectorRoot, Slots, BytesToBig, Canonical, BytesVal;
    var v, w := TreeRoot(p, a, depth), TreeRoot(p, b, depth);
    VectorRootCanonical(p, depth, Slots(a, 0, Pow2(depth)));
    VectorRootCanonical(p, depth, Slots(b, 0, Pow2(depth)));
    BytesToBigIsValue(v);
    BytesToBigIsValue(w);
    if BytesVal(v) == BytesVal(w) { BytesValInjective(v, w); }
    SameField(v, w);
  }

  // The insertion guard counts to 2^20 whatever the depth. For a shallower tree the comment
  // "oldRoot == this.root" (sdk/merkle-tree/index.ts:164) therefore fails once the tree is full.

  /** A Poseidon stand-in that only adds, to tell subtrees apart. */
  function SumHash(): Poseidon2
  {
    (a, b) => (a + b) % BN254_FIELD_MODULUS
  }

  function OneThenZeros(n: nat): seq<Bytes32>
    requires n > 0
  {
    [FieldToBytes32(1)] + seq(n - 1, _ => ZERO_HASH)
  }

  lemma {:induction false} SumOfSubtree(n: nat, level: nat, index: nat)
    requires n > 0
    ensures Bytes32ToField(Node(SumHash(), OneThenZeros(n), level, index)) == if index == 0 then 1 else 0
  {
    hide Bytes32ToField, FieldToBytes32;
    if level == 0 {
      FieldRoundTrip(1);
      ZeroIsCanonical();
    } else {
      SumOfSubtree(n, level - 1, 2 * index);
      SumOfSubtree(n, level - 1, 2 * index + 1);
      FieldRoundTrip(if index == 0 then 1 else 0);
    }
  }

  lemma {:induction false} SumOfNothing(level: nat, index: nat)
    ensures Bytes32ToField(Node(SumHash(), [], level, index)) == 0
  {
    hide Bytes32ToField, HashPair;
    if level == 0 {
      ZeroIsCanonical();
    } else {
      SumOfNothing(level - 1, 2 * index);
      SumOfNothing(level - 1, 2 * index + 1);
      HashAsField(SumHash(), Node(SumHash(), [], level - 1, 2 * index), Node(SumHash(), [], level - 1, 2 * index + 1));
    }
  }

  /** Two real lists with different roots, without a collision: none, and one leaf. */
  lemma RootsOfSums(depth: nat)
    ensures Bytes32ToField(TreeRoot(SumHash(), [], depth)) == 0
            && Bytes32ToField(TreeRoot(SumHash(), OneThenZeros(1), depth)) == 1
  {
    hide Bytes32ToField, TreeRoot, SumHash, OneThenZeros, Node;
    TopNodeIsRoot(SumHash(), [], depth);
    TopNodeIsRoot(SumHash(), OneThenZeros(1), depth);
    SumOfSubtree(1, depth, 0);
    SumOfNothing(depth, 0);
  }

  /** Whatever the depth, the witness starts from the node above its slot... */
  lemma WitnessStartsAboveSlot(p: Poseidon2, leaves: seq<Bytes32>, depth: nat, c: Bytes32, w: InsertionWitness)
    requires IsAppendWitness(p, leaves, depth, c, w)
    ensures w.oldRoot == Node(p, leaves, depth, Shr(|leaves|, depth))
  {
    hide HashPair, Fold, Node;
    FoldAlongPath(p, leaves, leaves, |leaves|, depth);
  }

  /** The block of slots, as wide as the tree, that the next free slot lies in. */
  function OwnBlock(leaves: seq<Bytes32>, depth: nat): (v: seq<Bytes32>)
    ensures |v| == Pow2(depth)
  {
    Block(leaves, depth, Shr(|leaves|, depth))
  }

  /** ...so for the hash at hand it starts from the root if and only if its own block looks like the first
      block: with real commitments, if and only if there is room. Or a collision. */
  lemma WitnessStartsAtRootIffSameBlock(p: Poseidon2, leaves: seq<Bytes32>, depth: nat, c: Bytes32, w: InsertionWitness)
    requires IsAppendWitness(p, leaves, depth, c, w)
    ensures var own, first := OwnBlock(leaves, depth), Slots(leaves, 0, Pow2(depth));
            match FindRootCollision(p, depth, own, first)
            case Some(x) => IsCollision(p, x)
            case None =>
              var atRoot := Bytes32ToField(w.oldRoot) == Bytes32ToField(TreeRoot(p, leaves, depth));
              && (atRoot <==> SameAsFields(own, first))
              && (RealCommitments(leaves) ==> (atRoot <==> |leaves| < Pow2(depth)))
  {
    hide Bytes32ToField, VectorRoot, Node, FindRootCollision, SameAsFields, Slots, RealCommitments, Shr,
         IsAppendWitness, Pow2;
    WitnessStartsAboveSlot(p, leaves, depth, c, w);
    NodeIsSubtree(p, leaves, depth, Shr(|leaves|, depth));
    RootBindsLeaves(p, depth, OwnBlock(leaves, depth), Slots(leaves, 0, Pow2(depth)));
    if RealCommitments(leaves) { OwnBlockHasGap(leaves, depth); }
  }

  lemma OwnBlockHasGap(leaves: seq<Bytes32>, depth: nat)
    requires RealCommitments(leaves)
    ensures SameAsFields(OwnBlock(leaves, depth), Slots(leaves, 0, Pow2(depth))) <==> |leaves| < Pow2(depth)
  {
    hide Bytes32ToField, Canonical, Slots, Shr, Pow2;
    var n, k := Pow2(depth), Shr(|leaves|, depth);
    ShrBelow(|leaves|, depth);
    if |leaves| < n {
      assert k * n == 0;
    } else {
      ShrIsDivision(|leaves|, depth);
      GapBelow(|leaves|, n);
      var gap := |leaves| % n;
      assert OwnBlock(leaves, depth)[gap] == LeafAt(leaves, k * n + gap) == ZERO_HASH;
      assert Slots(leaves, 0, n)[gap] == leaves[gap];
      ZeroIsCanonical();
      SameField(leaves[gap], ZERO_HASH);
    }
  }

  lemma GapBelow(size: nat, n: nat)
    requires n > 0
    ensures (size / n) * n + size % n == size && size % n < n && (size >= n ==> size % n < size)
  {}

  /** And the claim that it starts from the root, for every hash and every tree of `n` leaves,
      holds if and only if `n < 2^depth`. */
  lemma WitnessStartsAtRootIffRoom(n: nat, depth: nat)
    ensures n < Pow2(depth) <==>
            forall p: Poseidon2, leaves: seq<Bytes32> | |leaves| == n ::
              Node(p, leaves, depth, Shr(n, depth)) == TreeRoot(p, leaves, depth)
  {
    hide HashPair, Node, TreeRoot, Shr, Bytes32ToField, FieldToBytes32;
    ShrBelow(n, depth);
    if n < Pow2(depth) {
      forall p: Poseidon2, leaves: seq<Bytes32> | |leaves| == n
        ensures Node(p, leaves, depth, Shr(n, depth)) == TreeRoot(p, leaves, depth)
      {
        TopNodeIsRoot(p, leaves, depth);
      }
    } else {
      TopNodeIsRoot(SumHash(), OneThenZeros(n), depth);
      SumOfSubtree(n, depth, 0);
      SumOfSubtree(n, depth, Shr(n, depth));
      assert |OneThenZeros(n)| == n;
    }
  }
}
