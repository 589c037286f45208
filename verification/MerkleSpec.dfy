/** What a commitment tree means: the recursive hash of the complete ZERO-padded leaf vector,
    and what a path of siblings does and does not bind. */
module MerkleSpec {
  import opened Bits
  import opened Digits
  import opened Hex
  import opened Field
  import opened Results

  /** Root of a complete vector of `2^depth` leaves. */
  function VectorRoot(p: Poseidon2, depth: nat, v: seq<Bytes32>): Bytes32
    requires |v| == Pow2(depth)
  {
    if depth == 0 then v[0]
    else
      hide HashPair;
      var half := Pow2(depth - 1);
      assert |v| == 2 * half;
      HashPair(p, VectorRoot(p, depth - 1, v[..half]), VectorRoot(p, depth - 1, v[half..]))
  }

  function LeafAt(leaves: seq<Bytes32>, i: nat): Bytes32
  {
    if i < |leaves| then leaves[i] else ZERO_HASH
  }

  /** `n` consecutive slots of the ZERO-padded leaf vector. */
  function Slots(leaves: seq<Bytes32>, start: nat, n: nat): (v: seq<Bytes32>)
    ensures |v| == n && forall i :: 0 <= i < n ==> v[i] == LeafAt(leaves, start + i)
  {
    if n == 0 then [] else Slots(leaves, start, n - 1) + [LeafAt(leaves, start + n - 1)]
  }

  /** Root of the tree of `depth` levels over `leaves`. */
  function TreeRoot(p: Poseidon2, leaves: seq<Bytes32>, depth: nat): Bytes32
  {
    VectorRoot(p, depth, Slots(leaves, 0, Pow2(depth)))
  }

  /** The node at `index` of `level`, child by child. */
  function Node(p: Poseidon2, leaves: seq<Bytes32>, level: nat, index: nat): Bytes32
  {
    if level == 0 then LeafAt(leaves, index)
    else HashPair(p, Node(p, leaves, level - 1, 2 * index), Node(p, leaves, level - 1, 2 * index + 1))
  }

  /** The slots below a node. */
  function Block(leaves: seq<Bytes32>, level: nat, index: nat): (v: seq<Bytes32>)
    ensures |v| == Pow2(level)
  {
    Slots(leaves, index * Pow2(level), Pow2(level))
  }

  /** Every node is the root of its own stretch of the leaf vector. */
  lemma {:induction false} NodeIsSubtree(p: Poseidon2, leaves: seq<Bytes32>, level: nat, index: nat)
    ensures Node(p, leaves, level, index) == VectorRoot(p, level, Block(leaves, level, index))
  {
    hide HashPair, Block;
    if level == 0 {
      BlockOfOne(leaves, index);
    } else {
      HalvesOfBlock(leaves, level, index);
      NodeIsSubtree(p, leaves, level - 1, 2 * index);
      NodeIsSubtree(p, leaves, level - 1, 2 * index + 1);
    }
  }

  lemma BlockOfOne(leaves: seq<Bytes32>, index: nat)
    ensures Block(leaves, 0, index) == [LeafAt(leaves, index)]
  {}

  lemma HalvesOfBlock(leaves: seq<Bytes32>, level: nat, index: nat)
    requires level > 0
    ensures Block(leaves, level, index)[..Pow2(level - 1)] == Block(leaves, level - 1, 2 * index)
    ensures Block(leaves, level, index)[Pow2(level - 1)..] == Block(leaves, level - 1, 2 * index + 1)
  {
    hide Slots, LeafAt;
    var half := Pow2(level - 1);
    DoubleIndex(index, half);
    HalvesOfSlots(leaves, index * (2 * half), half);
  }

  lemma HalvesOfSlots(leaves: seq<Bytes32>, start: nat, half: nat)
    ensures Slots(leaves, start, 2 * half)[..half] == Slots(leaves, start, half)
    ensures Slots(leaves, start, 2 * half)[half..] == Slots(leaves, start + half, half)
  {}

  lemma DoubleIndex(index: nat, half: nat)
    ensures index * (2 * half) == (2 * index) * half
    ensures (2 * index + 1) * half == index * (2 * half) + half
  {}

  lemma TopNodeIsRoot(p: Poseidon2, leaves: seq<Bytes32>, depth: nat)
    ensures Node(p, leaves, depth, 0) == TreeRoot(p, leaves, depth)
  {
    NodeIsSubtree(p, leaves, depth, 0);
  }

  /** In terms of the hash: a node holds the hash of its left child and its right child, in this order, and a slot
      beyond the leaves holds the zero. */
  lemma NodeInHashes(p: Poseidon2, leaves: seq<Bytes32>, level: nat, index: nat)
    ensures level == 0 && index < |leaves| ==> Node(p, leaves, level, index) == leaves[index]
    ensures level == 0 && index >= |leaves| ==> Bytes32ToField(Node(p, leaves, level, index)) == 0
    ensures level > 0 ==>
              Bytes32ToField(Node(p, leaves, level, index))
              == p(Bytes32ToField(Node(p, leaves, level - 1, 2 * index)),
                   Bytes32ToField(Node(p, leaves, level - 1, 2 * index + 1)))
  {
    hide HashPair, Bytes32ToField;
    if level == 0 {
      LeadingZeros(32, [], 256);
      assert Zeros(32) + [] == ZERO_HASH;
      FieldIsReducedValue(ZERO_HASH);
    } else {
      HashAsField(p, Node(p, leaves, level - 1, 2 * index), Node(p, leaves, level - 1, 2 * index + 1));
    }
  }

  function EmptyNode(p: Poseidon2, level: nat): Bytes32
  {
    if level == 0 then ZERO_HASH else HashPair(p, EmptyNode(p, level - 1), EmptyNode(p, level - 1))
  }

  lemma {:induction false} EmptySubtree(p: Poseidon2, level: nat, index: nat)
    ensures Node(p, [], level, index) == EmptyNode(p, level)
  {
    hide HashPair;
    if level > 0 {
      EmptySubtree(p, level - 1, 2 * index);
      EmptySubtree(p, level - 1, 2 * index + 1);
    }
  }

  /** Two leaf vectors that agree everywhere except in slot `i`. */
  ghost predicate AgreeExcept(a: seq<Bytes32>, b: seq<Bytes32>, i: nat)
  {
    forall k: nat | k != i :: LeafAt(a, k) == LeafAt(b, k)
  }

  /** Only the ancestors of a changed slot change. */
  lemma {:induction false} OffPathUnchanged(p: Poseidon2, a: seq<Bytes32>, b: seq<Bytes32>, i: nat, level: nat,
                                            index: nat)
    requires AgreeExcept(a, b, i) && index != Shr(i, level)
    ensures Node(p, a, level, index) == Node(p, b, level, index)
  {
    hide HashPair;
    if level > 0 {
      OffPathUnchanged(p, a, b, i, level - 1, 2 * index);
      OffPathUnchanged(p, a, b, i, level - 1, 2 * index + 1);
    }
  }

  function HashOnPath(p: Poseidon2, node: Bytes32, bit: bool, sibling: Bytes32): Bytes32
  {
    if bit then HashPair(p, sibling, node) else HashPair(p, node, sibling)
  }

  /** The root a path leads to from `leaf`; bit `k` says that the node at level `k` is a right child. */
  function Fold(p: Poseidon2, leaf: Bytes32, bits: seq<bool>, siblings: seq<Bytes32>): Bytes32
    requires |bits| == |siblings|
  {
    if siblings == [] then leaf
    else
      var n := |siblings| - 1;
      HashOnPath(p, Fold(p, leaf, bits[..n], siblings[..n]), bits[n], siblings[n])
  }

  /** The slot that little-endian path bits name. */
  function Decode(bits: seq<bool>): (i: nat)
    ensures i < Pow2(|bits|)
  {
    if bits == [] then 0
    else
      var n := |bits| - 1;
      Decode(bits[..n]) + (if bits[n] then Pow2(n) else 0)
  }

  function PathBits(index: nat, n: nat): (bits: seq<bool>)
    ensures |bits| == n
  {
    if n == 0 then [] else PathBits(index, n - 1) + [Shr(index, n - 1) % 2 == 1]
  }

  function Sibling(i: nat): nat
  {
    if i % 2 == 0 then i + 1 else i - 1
  }

  function PathSiblings(p: Poseidon2, leaves: seq<Bytes32>, index: nat, n: nat): (s: seq<Bytes32>)
    ensures |s| == n
  {
    if n == 0 then []
    else PathSiblings(p, leaves, index, n - 1) + [Node(p, leaves, n - 1, Sibling(Shr(index, n - 1)))]
  }

  lemma {:induction false} DecodePathBits(index: nat, n: nat)
    ensures Decode(PathBits(index, n)) == index % Pow2(n)
    ensures index < Pow2(n) ==> Decode(PathBits(index, n)) == index
  {
    if n > 0 {
      DecodePathBits(index, n - 1);
      assert PathBits(index, n)[..n - 1] == PathBits(index, n - 1);
      ShrIsDivision(index, n - 1);
      TopBitModulo(index, Pow2(n - 1));
    }
    ModIs(index % Pow2(n), Pow2(n), 0, index % Pow2(n));
    if index < Pow2(n) { ModIs(index, Pow2(n), 0, index); }
  }

  lemma TopBitModulo(a: nat, m: nat)
    requires m > 0
    ensures a % (2 * m) == a % m + (if (a / m) % 2 == 1 then m else 0)
  {
    var q, r, n := a / m, a % m, 2 * m;
    assert a == m * q + r;
    assert n * (q / 2) + m * (q % 2) == m * q;
    ModIs(a, n, q / 2, m * (q % 2) + r);
  }

  /** Completeness: the siblings of slot `index` fold whatever leaf is put there up to the node
      above it, at every height. */
  lemma {:induction false} FoldAlongPath(p: Poseidon2, leaves: seq<Bytes32>, leaves': seq<Bytes32>, index: nat, n: nat)
    requires AgreeExcept(leaves, leaves', index)
    ensures Fold(p, LeafAt(leaves', index), PathBits(index, n), PathSiblings(p, leaves, index, n))
         == Node(p, leaves', n, Shr(index, n))
  {
    hide HashPair;
    if n > 0 {
      var k := n - 1;
      var i := Shr(index, k);
      FoldAlongPath(p, leaves, leaves', index, k);
      OffPathUnchanged(p, leaves, leaves', index, k, Sibling(i));
      NodeAbove(p, leaves', k, i);
      assert PathBits(index, n)[..k] == PathBits(index, k);
      assert PathSiblings(p, leaves, index, n)[..k] == PathSiblings(p, leaves, index, k);
    }
  }

  /** A node hashed with its sibling, on the side its parity says, is its parent. */
  lemma NodeAbove(p: Poseidon2, leaves: seq<Bytes32>, level: nat, i: nat)
    ensures HashOnPath(p, Node(p, leaves, level, i), i % 2 == 1, Node(p, leaves, level, Sibling(i)))
         == Node(p, leaves, level + 1, i / 2)
  {
    hide HashPair;
  }

  /** The two preimages of the root of `v`: the pair a path claims, and the pair in the tree. */
  function TopPairs(p: Poseidon2, v: seq<Bytes32>, leaf: Bytes32, bits: seq<bool>, siblings: seq<Bytes32>): Collision
    requires |bits| == |siblings| > 0 && |v| == Pow2(|bits|)
  {
    hide Bytes32ToField, HashPair, Fold, VectorRoot;
    var n := |bits| - 1;
    assert |v| == 2 * Pow2(n);
    var node := Bytes32ToField(Fold(p, leaf, bits[..n], siblings[..n]));
    var sibling := Bytes32ToField(siblings[n]);
    Collision(if bits[n] then sibling else node,
              if bits[n] then node else sibling,
              Bytes32ToField(VectorRoot(p, n, v[..Pow2(n)])),
              Bytes32ToField(VectorRoot(p, n, v[Pow2(n)..])))
  }

  /** Soundness of a path, constructively: walk down from the root comparing what the path
      claims with the real tree, and return the first two different preimages of one hash. */
  function FindCollision(p: Poseidon2, v: seq<Bytes32>, leaf: Bytes32, bits: seq<bool>,
                         siblings: seq<Bytes32>): Option<Collision>
    requires |bits| == |siblings| && |v| == Pow2(|bits|)
  {
    if bits == [] then None
    else
      var n := |bits| - 1;
      var x := TopPairs(p, v, leaf, bits, siblings);
      if (x.a, x.b) != (x.c, x.d) then Some(x)
      else FindCollision(p, if bits[n] then v[Pow2(n)..] else v[..Pow2(n)], leaf, bits[..n], siblings[..n])
  }

  lemma VectorRootCanonical(p: Poseidon2, depth: nat, v: seq<Bytes32>)
    requires |v| == Pow2(depth) && depth > 0
    ensures Canonical(VectorRoot(p, depth, v))
  {
    var half := Pow2(depth - 1);
    HashesAgree(p, VectorRoot(p, depth - 1, v[..half]), VectorRoot(p, depth - 1, v[half..]));
  }

  /** Binding: a path that reaches the root of `v` from `leaf` starts, up to reduction, at the
      leaf in the slot it names, and from any other leaf `c` the same path reaches the root of
      `v` with just that slot replaced; or `FindCollision` has found a Poseidon collision. */
  lemma {:induction false} PathBinds(p: Poseidon2, v: seq<Bytes32>, leaf: Bytes32, c: Bytes32, bits: seq<bool>,
                                     siblings: seq<Bytes32>)
    requires |bits| == |siblings| && |v| == Pow2(|bits|)
    requires Bytes32ToField(Fold(p, leaf, bits, siblings)) == Bytes32ToField(VectorRoot(p, |bits|, v))
    ensures match FindCollision(p, v, leaf, bits, siblings)
            case Some(x) => IsCollision(p, x)
            case None =>
              && Bytes32ToField(leaf) == Bytes32ToField(v[Decode(bits)])
              && Fold(p, c, bits, siblings) == VectorRoot(p, |bits|, v[Decode(bits) := c])
  {
    hide HashPair, Bytes32ToField;
    if bits != [] {
      var n := |bits| - 1;
      var half := Pow2(n);
      var x := TopPairs(p, v, leaf, bits, siblings);
      TopPairsCollide(p, v, leaf, bits, siblings);
      if (x.a, x.b) == (x.c, x.d) {
        var part := if bits[n] then v[half..] else v[..half];
        PathBinds(p, part, leaf, c, bits[..n], siblings[..n]);
        var slot := Decode(bits[..n]);
        var v' := v[Decode(bits) := c];
        var c' := Fold(p, c, bits[..n], siblings[..n]);
        if bits[n] {
          assert v'[..half] == v[..half] && v'[half..] == part[slot := c];
          HashOfFields(p, siblings[n], c', VectorRoot(p, n, v[..half]), c');
        } else {
          assert v'[..half] == part[slot := c] && v'[half..] == v[half..];
          HashOfFields(p, c', siblings[n], c', VectorRoot(p, n, v[half..]));
        }
      }
    }
  }

  lemma TopPairsCollide(p: Poseidon2, v: seq<Bytes32>, leaf: Bytes32, bits: seq<bool>, siblings: seq<Bytes32>)
    requires |bits| == |siblings| > 0 && |v| == Pow2(|bits|)
    requires Bytes32ToField(Fold(p, leaf, bits, siblings)) == RootField(p, |bits|, v)
    ensures var x := TopPairs(p, v, leaf, bits, siblings); p(x.a, x.b) == p(x.c, x.d)
  {
    hide HashPair, Bytes32ToField, Fold, VectorRoot, Pow2;
    var n := |bits| - 1;
    TopOfFold(p, leaf, bits, siblings);
    TopOfVector(p, n + 1, v);
    var node := Fold(p, leaf, bits[..n], siblings[..n]);
    HashAsField(p, siblings[n], node);
    HashAsField(p, node, siblings[n]);
  }

  lemma TopOfFold(p: Poseidon2, leaf: Bytes32, bits: seq<bool>, siblings: seq<Bytes32>)
    requires |bits| == |siblings| > 0
    ensures var n := |bits| - 1;
            Fold(p, leaf, bits, siblings)
                == HashOnPath(p, Fold(p, leaf, bits[..n], siblings[..n]), bits[n], siblings[n])
  {
    hide HashOnPath;
  }

  function LowerHalf(depth: nat, v: seq<Bytes32>): (r: seq<Bytes32>)
    requires depth > 0 && |v| == Pow2(depth)
    ensures |r| == Pow2(depth - 1)
  {
    v[..Pow2(depth - 1)]
  }

  function UpperHalf(depth: nat, v: seq<Bytes32>): (r: seq<Bytes32>)
    requires depth > 0 && |v| == Pow2(depth)
    ensures |r| == Pow2(depth - 1)
  {
    v[Pow2(depth - 1)..]
  }

  /** A root as the hashes see it. */
  function RootField(p: Poseidon2, depth: nat, v: seq<Bytes32>): FieldElement
    requires |v| == Pow2(depth)
  {
    Bytes32ToField(VectorRoot(p, depth, v))
  }

  /** It is the Poseidon output of its halves' roots. */
  lemma TopOfVector(p: Poseidon2, depth: nat, v: seq<Bytes32>)
    requires depth > 0 && |v| == Pow2(depth)
    ensures RootField(p, depth, v)
         == p(RootField(p, depth - 1, LowerHalf(depth, v)), RootField(p, depth - 1, UpperHalf(depth, v)))
  {
    hide HashPair, Bytes32ToField;
    HashAsField(p, VectorRoot(p, depth - 1, LowerHalf(depth, v)), VectorRoot(p, depth - 1, UpperHalf(depth, v)));
  }

  // ---- a root commits to its whole leaf vector ----

  /** Two leaf vectors that a hash cannot tell apart. */
  ghost predicate SameAsFields(v: seq<Bytes32>, w: seq<Bytes32>)
  {
    |v| == |w| && forall i :: 0 <= i < |v| ==> Bytes32ToField(v[i]) == Bytes32ToField(w[i])
  }

  /** What the top hashes of two vectors are taken of. */
  function RootPairs(p: Poseidon2, depth: nat, v: seq<Bytes32>, w: seq<Bytes32>): Collision
    requires depth > 0 && |v| == |w| == Pow2(depth)
  {
    hide *;
    Collision(RootField(p, depth - 1, LowerHalf(depth, v)), RootField(p, depth - 1, UpperHalf(depth, v)),
              RootField(p, depth - 1, LowerHalf(depth, w)), RootField(p, depth - 1, UpperHalf(depth, w)))
  }

  /** Compare two trees from their roots down and return the first two different preimages of one hash. */
  function FindRootCollision(p: Poseidon2, depth: nat, v: seq<Bytes32>, w: seq<Bytes32>): Option<Collision>
    requires |v| == |w| == Pow2(depth)
  {
    if depth == 0 then None
    else
      hide *;
      var x := RootPairs(p, depth, v, w);
      if (x.a, x.b) != (x.c, x.d) then (if IsCollision(p, x) then Some(x) else None)
      else
        var lower := FindRootCollision(p, depth - 1, LowerHalf(depth, v), LowerHalf(depth, w));
        if lower.Some? then lower
        else FindRootCollision(p, depth - 1, UpperHalf(depth, v), UpperHalf(depth, w))
  }

  /** Two roots agree if and only if the two leaf vectors agree in every slot, or `FindRootCollision`
      has found a Poseidon collision. */
  lemma {:induction false} RootBindsLeaves(p: Poseidon2, depth: nat, v: seq<Bytes32>, w: seq<Bytes32>)
    requires |v| == |w| == Pow2(depth)
    ensures match FindRootCollision(p, depth, v, w)
            case Some(x) => IsCollision(p, x)
            case None => RootField(p, depth, v) == RootField(p, depth, w) <==> SameAsFields(v, w)
  {
    hide Bytes32ToField, RootField, VectorRoot, SameAsFields, LowerHalf, UpperHalf, Pow2;
    if depth == 0 {
      SingleLeaf(p, v, w);
    } else {
      TopOfVector(p, depth, v);
      TopOfVector(p, depth, w);
      HalvesSameAsFields(depth, v, w);
      SameFieldsSameRoot(p, depth - 1, LowerHalf(depth, v), LowerHalf(depth, w));
      SameFieldsSameRoot(p, depth - 1, UpperHalf(depth, v), UpperHalf(depth, w));
      RootBindsLeaves(p, depth - 1, LowerHalf(depth, v), LowerHalf(depth, w));
      RootBindsLeaves(p, depth - 1, UpperHalf(depth, v), UpperHalf(depth, w));
    }
  }

  lemma SingleLeaf(p: Poseidon2, v: seq<Bytes32>, w: seq<Bytes32>)
    requires |v| == |w| == Pow2(0)
    ensures RootField(p, 0, v) == RootField(p, 0, w) <==> SameAsFields(v, w)
  {
    hide Bytes32ToField;
  }

  lemma HalvesSameAsFields(depth: nat, v: seq<Bytes32>, w: seq<Bytes32>)
    requires depth > 0 && |v| == |w| == Pow2(depth)
    ensures SameAsFields(v, w) <==> && SameAsFields(LowerHalf(depth, v), LowerHalf(depth, w))
                                    && SameAsFields(UpperHalf(depth, v), UpperHalf(depth, w))
  {
    hide Bytes32ToField;
    var half := Pow2(depth - 1);
    assert |v| == 2 * half;
    assert v == v[..half] + v[half..] && w == w[..half] + w[half..];
  }

  lemma {:induction false} SameFieldsSameRoot(p: Poseidon2, depth: nat, v: seq<Bytes32>, w: seq<Bytes32>)
    requires |v| == |w| == Pow2(depth)
    ensures SameAsFields(v, w) ==> RootField(p, depth, v) == RootField(p, depth, w)
  {
    hide Bytes32ToField, RootField, VectorRoot, SameAsFields, LowerHalf, UpperHalf, Pow2;
    if depth == 0 {
      SingleLeaf(p, v, w);
    } else {
      TopOfVector(p, depth, v);
      TopOfVector(p, depth, w);
      HalvesSameAsFields(depth, v, w);
      SameFieldsSameRoot(p, depth - 1, LowerHalf(depth, v), LowerHalf(depth, w));
      SameFieldsSameRoot(p, depth - 1, UpperHalf(depth, v), UpperHalf(depth, w));
    }
  }
}
