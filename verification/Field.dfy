/** BN254 field elements as 32-byte values, and the Merkle node hash (sdk/utilities/crypto.ts). */
module Field {
  import opened Digits
  import opened Hex

  const BN254_FIELD_MODULUS: nat := 21888242871839275222246405745257275088548364400416034343698204186575808495617

  type FieldElement = x: nat | x < BN254_FIELD_MODULUS

  /** Poseidon over two inputs is not interpreted: any function into the field. */
  type Poseidon2 = (nat, nat) -> FieldElement

  const ZERO_HASH: Bytes32 := ZeroBytes(32)

  lemma ModulusFits()
    ensures Pow(16, 64) == 0x1_0000000000000000_0000000000000000_0000000000000000_0000000000000000
    ensures BN254_FIELD_MODULUS < Pow(16, 64)
  {
    assert Pow(16, 4) == 0x1_0000 by {
      assert Pow(16, 0) == 1 && Pow(16, 1) == 16 && Pow(16, 2) == 256;
    }
    PowSum(16, 4, 4);
    PowSum(16, 8, 8);
    PowSum(16, 16, 16);
    PowSum(16, 32, 32);
  }

  /** JavaScript's `%` truncates toward zero, so the source adds the modulus and reduces again. */
  function TruncatedMod(a: int, m: int): (r: int)
    requires m > 0
    ensures -m < r < m
  {
    if a >= 0 then a % m else -((-a) % m)
  }

  function Reduce(f: int): (r: FieldElement)
  {
    TruncatedMod(TruncatedMod(f, BN254_FIELD_MODULUS) + BN254_FIELD_MODULUS, BN254_FIELD_MODULUS)
  }

  function FieldToBytes32(f: int): Bytes32
  {
    ModulusFits();
    FixedWidth(Reduce(f), 64);
    BytesOf(EvenLength(PadStart(ToString16(Reduce(f)), 64)))
  }

  function Bytes32ToField(b: Bytes32): FieldElement
  {
    ParseHex(HexOf(b)) % BN254_FIELD_MODULUS
  }

  function PoseidonHash2(p: Poseidon2, a: nat, b: nat): Bytes32
  {
    FieldToBytes32(p(a, b))
  }

  /** The 32-byte values that are already reduced. */
  ghost predicate Canonical(b: Bytes32)
  {
    BytesVal(b) < BN254_FIELD_MODULUS
  }

  /** Writing a field element to bytes and reading it back is the identity... */
  lemma FieldRoundTrip(f: FieldElement)
    ensures Bytes32ToField(FieldToBytes32(f)) == f
    ensures BytesVal(FieldToBytes32(f)) == f && Canonical(FieldToBytes32(f))
  {
    hide ToString16, PadStart, HexOf, BytesOf, ParseHex, BytesVal;
    ModulusFits();
    FixedWidth(f, 64);
    ReduceBelow(f);
    var s := PadStart(ToString16(f), 64);
    assert Reduce(f) == f;
    BytesOfDenotes(s);
    HexOfDenotes(BytesOf(s));
  }

  lemma FieldIsReducedValue(b: Bytes32)
    ensures Bytes32ToField(b) == BytesVal(b) % BN254_FIELD_MODULUS
  {
    HexOfDenotes(b);
  }

  lemma ReduceBelow(x: nat)
    requires x < BN254_FIELD_MODULUS
    ensures x % BN254_FIELD_MODULUS == x
  {}

  /** ...and the other way round exactly for canonical bytes. */
  lemma BytesRoundTrip(b: Bytes32)
    ensures FieldToBytes32(Bytes32ToField(b)) == b <==> Canonical(b)
  {
    var f := Bytes32ToField(b);
    FieldRoundTrip(f);
    FieldIsReducedValue(b);
    if Canonical(b) {
      ReduceBelow(BytesVal(b));
      BytesValInjective(FieldToBytes32(f), b);
    }
  }

  lemma CanonicalInjective(a: Bytes32, b: Bytes32)
    requires Canonical(a) && Canonical(b) && Bytes32ToField(a) == Bytes32ToField(b)
    ensures a == b
  {
    BytesRoundTrip(a);
    BytesRoundTrip(b);
  }

  /** The node hash of `MerkleTree`: one reduction of each child, one of the result. */
  function HashPair(p: Poseidon2, l: Bytes32, r: Bytes32): Bytes32
  {
    PoseidonHash2(p, Bytes32ToField(l), Bytes32ToField(r))
  }

  /** The node hash of `CommitmentTree`: the result is read back and reduced once more. */
  function HashPairTwice(p: Poseidon2, l: Bytes32, r: Bytes32): Bytes32
  {
    FieldToBytes32(Bytes32ToField(PoseidonHash2(p, Bytes32ToField(l), Bytes32ToField(r))))
  }

  /** The second reduction changes nothing, so the two trees hash alike. */
  lemma HashesAgree(p: Poseidon2, l: Bytes32, r: Bytes32)
    ensures HashPairTwice(p, l, r) == HashPair(p, l, r)
    ensures Canonical(HashPair(p, l, r))
  {
    FieldRoundTrip(p(Bytes32ToField(l), Bytes32ToField(r)));
  }

  /** A node hash sees its children only as field elements. */
  lemma HashOfFields(p: Poseidon2, l: Bytes32, r: Bytes32, l': Bytes32, r': Bytes32)
    requires Bytes32ToField(l) == Bytes32ToField(l') && Bytes32ToField(r) == Bytes32ToField(r')
    ensures HashPair(p, l, r) == HashPair(p, l', r')
  {}

  /** Read as a field element, a node hash is the Poseidon output itself. */
  lemma HashAsField(p: Poseidon2, l: Bytes32, r: Bytes32)
    ensures Bytes32ToField(HashPair(p, l, r)) == p(Bytes32ToField(l), Bytes32ToField(r))
  {
    hide FieldToBytes32, Bytes32ToField;
    FieldRoundTrip(p(Bytes32ToField(l), Bytes32ToField(r)));
  }

  /** Two different pairs of field elements with one Poseidon image. */
  datatype Collision = Collision(a: FieldElement, b: FieldElement, c: FieldElement, d: FieldElement)

  predicate IsCollision(p: Poseidon2, x: Collision)
  {
    (x.a, x.b) != (x.c, x.d) && p(x.a, x.b) == p(x.c, x.d)
  }
}
