/** Canonical public-input encoding of the five operations, native and asset-bound
    (sdk/public-inputs/index.ts, sdk/public-inputs/sip10.ts). */
module PublicInputs {
  import opened Bits
  import opened Digits
  import opened Hex
  import opened Results

  /** `sha256` of the consensus encoding of a principal is not interpreted. */
  type PrincipalDigest = string -> Bytes32

  datatype EncodeError = Negative | TooLarge | NotThirtyTwoBytes

  const OP_SHIELD := 1
  const OP_TRANSFER := 2
  const OP_WITHDRAW := 3
  const OP_SPLIT := 4
  const OP_MERGE := 5

  datatype Operation =
    | Shield(commitment: Bytes, ownerCommitment: Bytes, amount: int, oldRoot: Bytes, newRoot: Bytes, leafIndex: int)
    | Transfer(nullifier: Bytes, newCommitment: Bytes, newOwnerCommitment: Bytes, merkleRoot: Bytes, newRoot: Bytes,
               leafIndex: int)
    | Withdraw(nullifier: Bytes, amount: int, recipient: string, merkleRoot: Bytes)
    | Split(nullifier: Bytes, commitment1: Bytes, ownerCommitment1: Bytes, commitment2: Bytes, ownerCommitment2: Bytes,
            merkleRoot: Bytes, newRoot: Bytes, leafIndex: int)
    | Merge(nullifier1: Bytes, nullifier2: Bytes, commitment: Bytes, ownerCommitment: Bytes,
            merkleRoot: Bytes, newRoot: Bytes, leafIndex: int)

  /** The public inputs of one operation. `token` is present for the asset-bound circuits. */
  datatype Statement = Statement(op: Operation, token: Option<string>, circuitVersion: int)

  /** The 32 big-endian bytes of a number that fits. */
  function BigEndian(v: nat, n: nat): (b: Bytes)
    ensures |b| == n
  {
    if n == 0 then [] else BigEndian(v / 256, n - 1) + [v % 256]
  }

  lemma {:induction false} BigEndianDenotes(v: nat, n: nat)
    requires v < Pow(256, n)
    ensures BytesVal(BigEndian(v, n)) == v
  {
    if n > 0 {
      var b := BigEndian(v, n);
      QuotientBelow(v, 256, Pow(256, n - 1));
      BigEndianDenotes(v / 256, n - 1);
      assert b[..n - 1] == BigEndian(v / 256, n - 1);
    }
  }

  /** 2^256: one more than 32 bytes can hold. */
  const LIMIT: nat := 0x1_0000000000000000_0000000000000000_0000000000000000_0000000000000000

  lemma LimitIsPower(n: nat)
    requires n == 32
    ensures Pow(256, n) == LIMIT
  {
    assert Pow(256, 2) == 0x1_0000 by { assert Pow(256, 0) == 1 && Pow(256, 1) == 256; }
    PowSum(256, 2, 2);
    PowSum(256, 4, 4);
    PowSum(256, 8, 8);
    PowSum(256, 16, 16);
  }

  /** A field element holds exactly the numbers from 0 up to 2^256 - 1. */
  function FeUintSpec(n: int): (r: Result<Bytes, EncodeError>)
    ensures r.Ok? <==> 0 <= n < LIMIT
    ensures r.Ok? ==> |r.value| == 32
  {
    if n < 0 then Err(Negative) else if n >= LIMIT then Err(TooLarge) else Ok(BigEndian(n, 32))
  }

  /** The byte-filling loop: least significant byte last, stopping early at zero. */
  method FeUint(n: int) returns (r: Result<Bytes, EncodeError>)
    ensures r == FeUintSpec(n)
  {
    if n < 0 { return Err(Negative); }
    hide Val, BitAnd, Shr, FeUintSpec, Shifted;
    var out := new Byte[32](_ => 0);
    var x: nat := n;
    var i := 31;
    NothingWritten(n, out[..]);
    while i >= 0 && x > 0
      invariant -1 <= i <= 31
      invariant Shifted(x, out[..][i + 1..]) == n
      invariant forall k :: 0 <= k <= i ==> out[k] == 0
    {
      ghost var before := out[..];
      LowByte(x);
      out[i] := BitAnd(x, 0xff);
      MoveByte(x, i, before, out[..]);
      x := Shr(x, 8);
      i := i - 1;
    }
    Written(n, x, i + 1, out[..]);
    if x > 0 { return Err(TooLarge); }
    r := Ok(out[..]);
  }

  /** The number of which `low` holds the low bytes and `x` the rest. */
  ghost function Shifted(x: nat, low: Bytes): nat
  {
    x * Pow(256, |low|) + BytesVal(low)
  }

  lemma NothingWritten(n: nat, out: Bytes)
    ensures Shifted(n, out[|out|..]) == n
  {
    assert Pow(256, 0) == 1;
  }

  lemma LowByte(x: nat)
    ensures BitAnd(x, 0xff) == x % 256 && Shr(x, 8) == x / 256
  {
    assert Pow2(8) == 256 by { assert Pow2(4) == 16; }
    AndMask(x, 8);
    ShrIsDivision(x, 8);
  }

  lemma MoveByte(x: nat, i: nat, before: Bytes, after: Bytes)
    requires i < |before| && after == before[i := x % 256]
    ensures Shifted(x / 256, after[i..]) == Shifted(x, before[i + 1..])
  {
    var low := before[i + 1..];
    assert after[i..] == [x % 256] + low;
    LeadingDigit(x % 256, low, 256);
    MoveFactor(x, Pow(256, |low|));
  }

  lemma MoveFactor(x: nat, m: nat)
    ensures x * m == (x / 256) * (m * 256) + (x % 256) * m
  {
    var q, b := x / 256, x % 256;
    TimesAssociate(q, m, 256);
    TimesAssociate(q, 256, m);
    assert (q * 256 + b) * m == q * 256 * m + b * m;
  }

  lemma Written(n: nat, x: nat, unused: nat, out: Bytes)
    requires unused <= |out| == 32 && forall k :: 0 <= k < unused ==> out[k] == 0
    requires Shifted(x, out[unused..]) == n && (x == 0 || unused == 0)
    ensures FeUintSpec(n) == if x > 0 then Err(TooLarge) else Ok(out)
  {
    hide Val, Pow;
    LimitIsPower(|out|);
    if x > 0 {
      TimesMonotone(1, x, LIMIT);
    } else {
      assert out == Zeros(unused) + out[unused..];
      LeadingZeros(unused, out[unused..], 256);
      ValBound(out, 256);
      BigEndianDenotes(n, |out|);
      BytesValInjective(out, BigEndian(n, |out|));
    }
  }

  /** `feUint` loses nothing and accepts exactly the unsigned 256-bit numbers. */
  lemma FeUintExact(n: int, m: int)
    ensures FeUintSpec(n).Ok? <==> 0 <= n < LIMIT
    ensures FeUintSpec(n).Ok? ==> |FeUintSpec(n).value| == 32 && BytesVal(FeUintSpec(n).value) == n
    ensures FeUintSpec(n).Ok? && FeUintSpec(n) == FeUintSpec(m) ==> n == m
    ensures n < 0 ==> FeUintSpec(n) == Err(Negative)
    ensures n >= 0 && FeUintSpec(n).Err? ==> FeUintSpec(n) == Err(TooLarge)
  {
    hide Pow;
    LimitIsPower(32);
    if 0 <= n < LIMIT { BigEndianDenotes(n, 32); }
    if 0 <= m < LIMIT { BigEndianDenotes(m, 32); }
  }

  /** A principal's digest with the top byte zeroed, which keeps it below the field modulus. */
  function FePrincipal(digest: PrincipalDigest, address: string): (b: Bytes)
    ensures |b| == 32
  {
    [0] + digest(address)[1..]
  }

  function Fe32(b: Bytes): (r: Result<Bytes, EncodeError>)
    ensures r.Ok? <==> |b| == 32
    ensures if r.Ok? then |r.value| == 32 else r.error == NotThirtyTwoBytes
  {
    if |b| == 32 then Ok(b) else Err(NotThirtyTwoBytes)
  }

  function AssetField(digest: PrincipalDigest, token: Option<string>): seq<Result<Bytes, EncodeError>>
  {
    if token.Some? then [Ok(FePrincipal(digest, token.value))] else []
  }

  /** The field list of each circuit, in declaration order; the asset goes just before the version. */
  function Fields(digest: PrincipalDigest, st: Statement): seq<Result<Bytes, EncodeError>>
  {
    (match st.op
     case Shield(c, oc, amount, oldRoot, newRoot, leafIndex) =>
       [FeUintSpec(OP_SHIELD), Fe32(c), Fe32(oc), FeUintSpec(amount), Fe32(oldRoot), Fe32(newRoot),
        FeUintSpec(leafIndex)]
     case Transfer(n, c, oc, root, newRoot, leafIndex) =>
       [FeUintSpec(OP_TRANSFER), Fe32(n), Fe32(c), Fe32(oc), Fe32(root), Fe32(newRoot), FeUintSpec(leafIndex)]
     case Withdraw(n, amount, recipient, root) =>
       [FeUintSpec(OP_WITHDRAW), Fe32(n), FeUintSpec(amount), Ok(FePrincipal(digest, recipient)), Fe32(root)]
     case Split(n, c1, oc1, c2, oc2, root, newRoot, leafIndex) =>
       [FeUintSpec(OP_SPLIT), Fe32(n), Fe32(c1), Fe32(oc1), Fe32(c2), Fe32(oc2), Fe32(root), Fe32(newRoot),
        FeUintSpec(leafIndex)]
     case Merge(n1, n2, c, oc, root, newRoot, leafIndex) =>
       [FeUintSpec(OP_MERGE), Fe32(n1), Fe32(n2), Fe32(c), Fe32(oc), Fe32(root), Fe32(newRoot), FeUintSpec(leafIndex)])
    + AssetField(digest, st.token) + [FeUintSpec(st.circuitVersion)]
  }

  /** The values of a list of fields, or the leftmost error. */
  function Collect(fs: seq<Result<Bytes, EncodeError>>): Result<seq<Bytes>, EncodeError>
  {
    if fs == [] then Ok([])
    else if fs[0].Err? then Err(fs[0].error)
    else
      var rest := Collect(fs[1..]);
      if rest.Err? then rest else Ok([fs[0].value] + rest.value)
  }

  function Concat(parts: seq<Bytes>): Bytes
  {
    if parts == [] then [] else Concat(parts[..|parts| - 1]) + parts[|parts| - 1]
  }

  /** The bytes that are hashed for a statement. */
  function Preimage(digest: PrincipalDigest, st: Statement): Result<Bytes, EncodeError>
  {
    var fields := Collect(Fields(digest, st));
    if fields.Err? then Err(fields.error) else Ok(Concat(fields.value))
  }

  function Total(parts: seq<Bytes>): nat
  {
    if parts == [] then 0 else Total(parts[..|parts| - 1]) + |parts[|parts| - 1]|
  }

  lemma {:induction false} ConcatLength(parts: seq<Bytes>)
    ensures |Concat(parts)| == Total(parts)
  {
    if parts != [] { ConcatLength(parts[..|parts| - 1]); }
  }

  lemma {:induction false} TotalMonotone(parts: seq<Bytes>, k: nat)
    requires k <= |parts|
    ensures Total(parts[..k]) <= Total(parts)
  {
    if k < |parts| {
      TotalMonotone(parts[..|parts| - 1], k);
      assert parts[..|parts| - 1][..k] == parts[..k];
    } else {
      assert parts[..k] == parts;
    }
  }

  /** The buffer is sized first, then every part is copied in at the running offset. */
  method ConcatAll(parts: seq<Bytes>) returns (r: Bytes)
    ensures r == Concat(parts)
  {
    var total := 0;
    for k := 0 to |parts|
      invariant total == Total(parts[..k])
    {
      assert parts[..k + 1][..k] == parts[..k];
      total := total + |parts[k]|;
    }
    assert parts[..|parts|] == parts;
    var out := new Byte[total](_ => 0);
    var i := 0;
    for k := 0 to |parts|
      invariant i == Total(parts[..k]) <= total && out[..i] == Concat(parts[..k])
    {
      assert parts[..k + 1][..k] == parts[..k];
      TotalMonotone(parts, k + 1);
      CopyInto(out, i, parts[k]);
      i := i + |parts[k]|;
    }
    ConcatLength(parts);
    assert out[..i] == out[..];
    r := out[..];
  }

  method CopyInto(out: array<Byte>, at: nat, part: Bytes)
    requires at + |part| <= out.Length
    modifies out
    ensures out[..at + |part|] == old(out[..at]) + part
  {
    for j := 0 to |part|
      invariant out[..at] == old(out[..at]) && out[at..at + j] == part[..j]
    {
      out[at + j] := part[j];
    }
  }

  /** Equal statements: one operation, one family, equal fields; principals up to their field element. */
  ghost predicate SameStatement(digest: PrincipalDigest, a: Statement, b: Statement)
  {
    && a.circuitVersion == b.circuitVersion
    && SameToken(digest, a.token, b.token)
    && if a.op.Withdraw? && b.op.Withdraw?
       then a.op.(recipient := b.op.recipient) == b.op
           && FePrincipal(digest, a.op.recipient) == FePrincipal(digest, b.op.recipient)
       else a.op == b.op
  }

  ghost predicate SameToken(digest: PrincipalDigest, a: Option<string>, b: Option<string>)
  {
    a.Some? == b.Some? && (a.Some? ==> FePrincipal(digest, a.value) == FePrincipal(digest, b.value))
  }

  lemma {:induction false} CollectKeepsAll(fs: seq<Result<Bytes, EncodeError>>)
    ensures Collect(fs).Ok? <==> forall i :: 0 <= i < |fs| ==> fs[i].Ok?
    ensures Collect(fs).Ok? ==>
              |Collect(fs).value| == |fs| && forall i :: 0 <= i < |fs| ==> Collect(fs).value[i] == fs[i].value
  {
    if fs != [] { CollectKeepsAll(fs[1..]); }
  }

  lemma {:induction false} ConcatInjective(xs: seq<Bytes>, ys: seq<Bytes>)
    requires forall i :: 0 <= i < |xs| ==> |xs[i]| == 32
    requires forall i :: 0 <= i < |ys| ==> |ys[i]| == 32
    requires Concat(xs) == Concat(ys)
    ensures xs == ys
  {
    if xs != [] && ys != [] {
      var m, n := |xs| - 1, |ys| - 1;
      var c := Concat(xs);
      assert c[..|c| - 32] == Concat(xs[..m]) && c[..|c| - 32] == Concat(ys[..n]);
      assert c[|c| - 32..] == xs[m] && c[|c| - 32..] == ys[n];
      ConcatInjective(xs[..m], ys[..n]);
      assert xs == xs[..m] + [xs[m]] && ys == ys[..n] + [ys[n]];
    }
  }

  lemma FieldsAreWords(digest: PrincipalDigest, st: Statement, i: nat)
    requires i < |Fields(digest, st)| && Fields(digest, st)[i].Ok?
    ensures |Fields(digest, st)[i].value| == 32
  {
    hide FePrincipal, FeUintSpec, Fe32;
  }

  /** Equal hashed bytes come from equal field lists. */
  lemma SameFields(digest: PrincipalDigest, a: Statement, b: Statement)
    requires Preimage(digest, a).Ok? && Preimage(digest, a) == Preimage(digest, b)
    ensures Fields(digest, a) == Fields(digest, b)
    ensures forall i :: 0 <= i < |Fields(digest, a)| ==> Fields(digest, a)[i].Ok?
  {
    hide Fields;
    var fa, fb := Fields(digest, a), Fields(digest, b);
    CollectKeepsAll(fa);
    CollectKeepsAll(fb);
    forall i | 0 <= i < |fa| ensures |fa[i].value| == 32 { FieldsAreWords(digest, a, i); }
    forall i | 0 <= i < |fb| ensures |fb[i].value| == 32 { FieldsAreWords(digest, b, i); }
    ConcatInjective(Collect(fa).value, Collect(fb).value);
    assert forall i :: 0 <= i < |fa| ==> fa[i] == Ok(Collect(fa).value[i]);
    assert forall i :: 0 <= i < |fb| ==> fb[i] == Ok(Collect(fb).value[i]);
  }

  lemma SameNumber(n: int, m: int)
    requires FeUintSpec(n).Ok? && FeUintSpec(n) == FeUintSpec(m)
    ensures n == m
  {
    FeUintExact(n, m);
  }

  lemma SameOpCode(digest: PrincipalDigest, a: Statement, b: Statement)
    requires Fields(digest, a)[0].Ok? && Fields(digest, a)[0] == Fields(digest, b)[0]
    ensures a.op.Shield? == b.op.Shield? && a.op.Transfer? == b.op.Transfer? && a.op.Withdraw? == b.op.Withdraw?
    ensures a.op.Split? == b.op.Split? && a.op.Merge? == b.op.Merge?
  {
    hide FeUintSpec, FePrincipal, Fe32;
    var code := (st: Statement) => match st.op
      case Shield(_, _, _, _, _, _) => OP_SHIELD
      case Transfer(_, _, _, _, _, _) => OP_TRANSFER
      case Withdraw(_, _, _, _) => OP_WITHDRAW
      case Split(_, _, _, _, _, _, _, _) => OP_SPLIT
      case Merge(_, _, _, _, _, _, _) => OP_MERGE;
    SameNumber(code(a), code(b));
  }

  lemma SameWord(a: Bytes, b: Bytes)
    requires Fe32(a).Ok? && Fe32(a) == Fe32(b)
    ensures a == b
  {}

  /** The encoding is injective across all ten circuits: the hashed bytes are equal exactly when
      operation, family and all fields are. */
  lemma PreimageInjective(digest: PrincipalDigest, a: Statement, b: Statement)
    requires Preimage(digest, a).Ok?
    ensures Preimage(digest, a) == Preimage(digest, b) <==> SameStatement(digest, a, b)
  {
    hide FeUintSpec, FePrincipal, Fe32;
    if Preimage(digest, a) == Preimage(digest, b) {
      SameFields(digest, a, b);
      SameOpCode(digest, a, b);
      var fa, fb := Fields(digest, a), Fields(digest, b);
      var n := |fa| - 1;
      assert fa[n] == FeUintSpec(a.circuitVersion) && fb[n] == FeUintSpec(b.circuitVersion);
      SameNumber(a.circuitVersion, b.circuitVersion);
      SameOperation(digest, a, b);
    }
    if SameStatement(digest, a, b) { assert Fields(digest, a) == Fields(digest, b); }
  }

  lemma SameOperation(digest: PrincipalDigest, a: Statement, b: Statement)
    requires Fields(digest, a) == Fields(digest, b)
    requires forall i :: 0 <= i < |Fields(digest, a)| ==> Fields(digest, a)[i].Ok?
    requires a.op.Shield? == b.op.Shield? && a.op.Transfer? == b.op.Transfer? && a.op.Withdraw? == b.op.Withdraw?
    requires a.op.Split? == b.op.Split? && a.op.Merge? == b.op.Merge?
    requires a.circuitVersion == b.circuitVersion
    ensures SameStatement(digest, a, b)
  {
    hide FeUintSpec, FePrincipal, Fe32;
    var fa, fb := Fields(digest, a), Fields(digest, b);
    match a.op
    case Shield(c, oc, amount, oldRoot, newRoot, leafIndex) =>
      assert fa[1] == Fe32(c) && fa[2] == Fe32(oc) && fa[3] == FeUintSpec(amount);
      assert fa[4] == Fe32(oldRoot) && fa[5] == Fe32(newRoot) && fa[6] == FeUintSpec(leafIndex);
      SameWord(c, b.op.commitment);
      SameWord(oc, b.op.ownerCommitment);
      SameNumber(amount, b.op.amount);
      SameWord(oldRoot, b.op.oldRoot);
      SameWord(newRoot, b.op.newRoot);
      SameNumber(leafIndex, b.op.leafIndex);
      SameAsset(digest, a, b, 7);
    case Transfer(n, c, oc, root, newRoot, leafIndex) =>
      assert fa[1] == Fe32(n) && fa[2] == Fe32(c) && fa[3] == Fe32(oc);
      assert fa[4] == Fe32(root) && fa[5] == Fe32(newRoot) && fa[6] == FeUintSpec(leafIndex);
      SameWord(n, b.op.nullifier);
      SameWord(c, b.op.newCommitment);
      SameWord(oc, b.op.newOwnerCommitment);
      SameWord(root, b.op.merkleRoot);
      SameWord(newRoot, b.op.newRoot);
      SameNumber(leafIndex, b.op.leafIndex);
      SameAsset(digest, a, b, 7);
    case Withdraw(n, amount, recipient, root) =>
      assert fa[1] == Fe32(n) && fa[2] == FeUintSpec(amount) && fa[3] == Ok(FePrincipal(digest, recipient))
             && fa[4] == Fe32(root);
      SameWord(n, b.op.nullifier);
      SameNumber(amount, b.op.amount);
      SameWord(root, b.op.merkleRoot);
      SameAsset(digest, a, b, 5);
    case Split(n, c1, oc1, c2, oc2, root, newRoot, leafIndex) =>
      assert fa[1] == Fe32(n) && fa[2] == Fe32(c1) && fa[3] == Fe32(oc1) && fa[4] == Fe32(c2) && fa[5] == Fe32(oc2);
      assert fa[6] == Fe32(root) && fa[7] == Fe32(newRoot) && fa[8] == FeUintSpec(leafIndex);
      SameWord(n, b.op.nullifier);
      SameWord(c1, b.op.commitment1);
      SameWord(oc1, b.op.ownerCommitment1);
      SameWord(c2, b.op.commitment2);
      SameWord(oc2, b.op.ownerCommitment2);
      SameWord(root, b.op.merkleRoot);
      SameWord(newRoot, b.op.newRoot);
      SameNumber(leafIndex, b.op.leafIndex);
      SameAsset(digest, a, b, 9);
    case Merge(n1, n2, c, oc, root, newRoot, leafIndex) =>
      assert fa[1] == Fe32(n1) && fa[2] == Fe32(n2) && fa[3] == Fe32(c) && fa[4] == Fe32(oc);
      assert fa[5] == Fe32(root) && fa[6] == Fe32(newRoot) && fa[7] == FeUintSpec(leafIndex);
      SameWord(n1, b.op.nullifier1);
      SameWord(n2, b.op.nullifier2);
      SameWord(c, b.op.commitment);
      SameWord(oc, b.op.ownerCommitment);
      SameWord(root, b.op.merkleRoot);
      SameWord(newRoot, b.op.newRoot);
      SameNumber(leafIndex, b.op.leafIndex);
      SameAsset(digest, a, b, 8);
  }

  lemma SameAsset(digest: PrincipalDigest, a: Statement, b: Statement, at: nat)
    requires Fields(digest, a) == Fields(digest, b)
    requires |Fields(digest, a)| == at + |AssetField(digest, a.token)| + 1
    requires |Fields(digest, b)| == at + |AssetField(digest, b.token)| + 1
    ensures SameToken(digest, a.token, b.token)
  {
    hide FeUintSpec, FePrincipal, Fe32;
    if a.token.Some? {
      assert Fields(digest, a)[at] == Ok(FePrincipal(digest, a.token.value));
      assert Fields(digest, b)[at] == Ok(FePrincipal(digest, b.token.value));
    }
  }

  /** What can be encoded: every byte field has 32 bytes and every number fits in 256 bits. */
  ghost predicate Encodable(st: Statement)
  {
    && 0 <= st.circuitVersion < LIMIT
    && match st.op
       case Shield(c, oc, amount, oldRoot, newRoot, leafIndex) =>
         |c| == |oc| == |oldRoot| == |newRoot| == 32 && 0 <= amount < LIMIT && 0 <= leafIndex < LIMIT
       case Transfer(n, c, oc, root, newRoot, leafIndex) =>
         |n| == |c| == |oc| == |root| == |newRoot| == 32 && 0 <= leafIndex < LIMIT
       case Withdraw(n, amount, recipient, root) => |n| == |root| == 32 && 0 <= amount < LIMIT
       case Split(n, c1, oc1, c2, oc2, root, newRoot, leafIndex) =>
         |n| == |c1| == |oc1| == |c2| == |oc2| == |root| == |newRoot| == 32 && 0 <= leafIndex < LIMIT
       case Merge(n1, n2, c, oc, root, newRoot, leafIndex) =>
         |n1| == |n2| == |c| == |oc| == |root| == |newRoot| == 32 && 0 <= leafIndex < LIMIT
  }

  lemma EncodesExactlyEncodable(digest: PrincipalDigest, st: Statement)
    ensures Preimage(digest, st).Ok? <==> Encodable(st)
  {
    hide FePrincipal, FeUintSpec, Fe32;
    var fs := Fields(digest, st);
    CollectKeepsAll(fs);
    assert fs[|fs| - 1] == FeUintSpec(st.circuitVersion);
    match st.op
    case Shield(_, _, _, _, _, _) =>
      assert Encodable(st) <==> && fs[1].Ok? && fs[2].Ok? && fs[3].Ok? && fs[4].Ok?
                                && fs[5].Ok? && fs[6].Ok? && fs[|fs| - 1].Ok?;
    case Transfer(_, _, _, _, _, _) =>
      assert Encodable(st) <==> && fs[1].Ok? && fs[2].Ok? && fs[3].Ok? && fs[4].Ok?
                                && fs[5].Ok? && fs[6].Ok? && fs[|fs| - 1].Ok?;
    case Withdraw(_, _, _, _) =>
      assert Encodable(st) <==> && fs[1].Ok? && fs[2].Ok?
                                && fs[4].Ok? && fs[|fs| - 1].Ok?;
    case Split(_, _, _, _, _, _, _, _) =>
      assert Encodable(st) <==> && fs[1].Ok? && fs[2].Ok? && fs[3].Ok? && fs[4].Ok? && fs[5].Ok?
                                && fs[6].Ok? && fs[7].Ok? && fs[8].Ok? && fs[|fs| - 1].Ok?;
    case Merge(_, _, _, _, _, _, _) =>
      assert Encodable(st) <==> && fs[1].Ok? && fs[2].Ok? && fs[3].Ok? && fs[4].Ok?
                                && fs[5].Ok? && fs[6].Ok? && fs[7].Ok? && fs[|fs| - 1].Ok?;
  }

  /** A statement that does not fit is refused for the first field, in order, that does not. */
  lemma RefusedForFirstMisfit(digest: PrincipalDigest, st: Statement, e: EncodeError)
    ensures Preimage(digest, st) == Err(e) <==>
            exists i :: FirstMisfit(Fields(digest, st), i) && Fields(digest, st)[i].error == e
  {
    hide Fields;
    LeftmostError(Fields(digest, st), e);
  }

  ghost predicate FirstMisfit(fs: seq<Result<Bytes, EncodeError>>, i: int)
  {
    0 <= i < |fs| && fs[i].Err? && forall j :: 0 <= j < i ==> fs[j].Ok?
  }

  lemma {:induction false} LeftmostError(fs: seq<Result<Bytes, EncodeError>>, e: EncodeError)
    ensures Collect(fs) == Err(e) <==> exists i :: FirstMisfit(fs, i) && fs[i].error == e
  {
    if fs != [] {
      var rest := fs[1..];
      LeftmostError(rest, e);
      assert forall j :: 0 < j < |fs| ==> fs[j] == rest[j - 1];
      if fs[0].Err? {
        assert FirstMisfit(fs, 0);
      } else {
        if i :| FirstMisfit(rest, i) && rest[i].error == e { assert FirstMisfit(fs, i + 1); }
        if i :| FirstMisfit(fs, i) && fs[i].error == e { assert FirstMisfit(rest, i - 1); }
      }
    }
  }

  // ---- the layout, word by word ----

  function Word(b: Bytes, k: nat): (w: Bytes)
    requires 32 * k + 32 <= |b|
    ensures |w| == 32
  {
    b[32 * k..32 * k + 32]
  }

  lemma {:induction false} WordsOfConcat(parts: seq<Bytes>, k: nat)
    requires k < |parts| && forall i :: 0 <= i < |parts| ==> |parts[i]| == 32
    ensures |Concat(parts)| == 32 * |parts| && Word(Concat(parts), k) == parts[k]
  {
    var n := |parts| - 1;
    var front := Concat(parts[..n]);
    if n == 0 {
      assert parts[..0] == [] && Concat(parts) == parts[0];
    } else {
      WordsOfConcat(parts[..n], if k < n then k else 0);
      assert Concat(parts) == front + parts[n];
      if k < n { assert Word(Concat(parts), k) == Word(front, k); }
    }
  }

  /** The hashed bytes are the fields, one word each. */
  lemma WordsOfPreimage(digest: PrincipalDigest, st: Statement, k: nat)
    requires Preimage(digest, st).Ok? && k < |Fields(digest, st)|
    ensures var b, fs := Preimage(digest, st).value, Fields(digest, st);
            |b| == 32 * |fs| && fs[k].Ok? && Word(b, k) == fs[k].value
  {
    hide Fields, Word, Concat;
    var fs := Fields(digest, st);
    CollectKeepsAll(fs);
    forall i | 0 <= i < |fs| ensures |fs[i].value| == 32 { FieldsAreWords(digest, st, i); }
    WordsOfConcat(Collect(fs).value, k);
  }

  /** Word `k` is the big-endian number `n`. */
  ghost predicate NumberAt(b: Bytes, k: nat, n: int)
  {
    32 * k + 32 <= |b| && BytesVal(Word(b, k)) == n
  }

  ghost predicate BytesAt(b: Bytes, k: nat, w: Bytes)
  {
    32 * k + 32 <= |b| && Word(b, k) == w
  }

  /** Word `k` is a principal: its digest with the first byte zeroed. */
  ghost predicate PrincipalAt(digest: PrincipalDigest, b: Bytes, k: nat, address: string)
  {
    BytesAt(b, k, [0] + digest(address)[1..])
  }

  /** From word `k` on: the asset, for an asset-bound circuit, then the version, and nothing more. */
  ghost predicate EndsWith(digest: PrincipalDigest, b: Bytes, k: nat, st: Statement)
  {
    match st.token
    case None => |b| == 32 * (k + 1) && NumberAt(b, k, st.circuitVersion)
    case Some(token) =>
      |b| == 32 * (k + 2) && PrincipalAt(digest, b, k, token) && NumberAt(b, k + 1, st.circuitVersion)
  }

  /** The ten circuits' public inputs, in the order each circuit declares them. */
  ghost predicate LaidOut(digest: PrincipalDigest, b: Bytes, st: Statement)
  {
    match st.op
    case Shield(c, oc, amount, oldRoot, newRoot, leafIndex) =>
      && NumberAt(b, 0, 1) && BytesAt(b, 1, c) && BytesAt(b, 2, oc) && NumberAt(b, 3, amount)
      && BytesAt(b, 4, oldRoot) && BytesAt(b, 5, newRoot) && NumberAt(b, 6, leafIndex) && EndsWith(digest, b, 7, st)
    case Transfer(n, c, oc, root, newRoot, leafIndex) =>
      && NumberAt(b, 0, 2) && BytesAt(b, 1, n) && BytesAt(b, 2, c) && BytesAt(b, 3, oc)
      && BytesAt(b, 4, root) && BytesAt(b, 5, newRoot) && NumberAt(b, 6, leafIndex) && EndsWith(digest, b, 7, st)
    case Withdraw(n, amount, recipient, root) =>
      && NumberAt(b, 0, 3) && BytesAt(b, 1, n) && NumberAt(b, 2, amount)
      && PrincipalAt(digest, b, 3, recipient) && BytesAt(b, 4, root) && EndsWith(digest, b, 5, st)
    case Split(n, c1, oc1, c2, oc2, root, newRoot, leafIndex) =>
      && NumberAt(b, 0, 4) && BytesAt(b, 1, n) && BytesAt(b, 2, c1) && BytesAt(b, 3, oc1) && BytesAt(b, 4, c2)
      && BytesAt(b, 5, oc2) && BytesAt(b, 6, root) && BytesAt(b, 7, newRoot) && NumberAt(b, 8, leafIndex)
      && EndsWith(digest, b, 9, st)
    case Merge(n1, n2, c, oc, root, newRoot, leafIndex) =>
      && NumberAt(b, 0, 5) && BytesAt(b, 1, n1) && BytesAt(b, 2, n2) && BytesAt(b, 3, c) && BytesAt(b, 4, oc)
      && BytesAt(b, 5, root) && BytesAt(b, 6, newRoot) && NumberAt(b, 7, leafIndex) && EndsWith(digest, b, 8, st)
  }

  lemma NumberWord(digest: PrincipalDigest, st: Statement, k: nat, n: int)
    requires Preimage(digest, st).Ok? && k < |Fields(digest, st)| && Fields(digest, st)[k] == FeUintSpec(n)
    ensures NumberAt(Preimage(digest, st).value, k, n)
  {
    hide Fields, FeUintSpec, Word, Preimage;
    WordsOfPreimage(digest, st, k);
    FeUintExact(n, n);
  }

  lemma BytesWord(digest: PrincipalDigest, st: Statement, k: nat, w: Bytes)
    requires Preimage(digest, st).Ok? && k < |Fields(digest, st)|
    requires Fields(digest, st)[k] == Fe32(w) || Fields(digest, st)[k] == Ok(w)
    ensures BytesAt(Preimage(digest, st).value, k, w)
  {
    hide Fields, Word, Preimage;
    WordsOfPreimage(digest, st, k);
  }

  lemma LastWords(digest: PrincipalDigest, st: Statement, k: nat)
    requires Preimage(digest, st).Ok? && |Fields(digest, st)| == k + |AssetField(digest, st.token)| + 1
    ensures EndsWith(digest, Preimage(digest, st).value, k, st)
  {
    hide FeUintSpec, Word, Preimage, NumberAt, BytesAt;
    var fs := Fields(digest, st);
    WordsOfPreimage(digest, st, |fs| - 1);
    assert fs[|fs| - 1] == FeUintSpec(st.circuitVersion);
    NumberWord(digest, st, |fs| - 1, st.circuitVersion);
    if st.token.Some? {
      assert fs[k] == Ok(FePrincipal(digest, st.token.value));
      BytesWord(digest, st, k, FePrincipal(digest, st.token.value));
    }
  }

  /** Whatever is encoded is laid out so. */
  lemma PreimageLayout(digest: PrincipalDigest, st: Statement)
    requires Preimage(digest, st).Ok?
    ensures LaidOut(digest, Preimage(digest, st).value, st)
  {
    hide FeUintSpec, Fe32, Word, Preimage, NumberAt, BytesAt, EndsWith;
    match st.op
    case Shield(c, oc, amount, oldRoot, newRoot, leafIndex) =>
      NumberWord(digest, st, 0, 1);
      BytesWord(digest, st, 1, c);
      BytesWord(digest, st, 2, oc);
      NumberWord(digest, st, 3, amount);
      BytesWord(digest, st, 4, oldRoot);
      BytesWord(digest, st, 5, newRoot);
      NumberWord(digest, st, 6, leafIndex);
      LastWords(digest, st, 7);
    case Transfer(n, c, oc, root, newRoot, leafIndex) =>
      NumberWord(digest, st, 0, 2);
      BytesWord(digest, st, 1, n);
      BytesWord(digest, st, 2, c);
      BytesWord(digest, st, 3, oc);
      BytesWord(digest, st, 4, root);
      BytesWord(digest, st, 5, newRoot);
      NumberWord(digest, st, 6, leafIndex);
      LastWords(digest, st, 7);
    case Withdraw(n, amount, recipient, root) =>
      NumberWord(digest, st, 0, 3);
      BytesWord(digest, st, 1, n);
      NumberWord(digest, st, 2, amount);
      BytesWord(digest, st, 3, FePrincipal(digest, recipient));
      BytesWord(digest, st, 4, root);
      LastWords(digest, st, 5);
    case Split(n, c1, oc1, c2, oc2, root, newRoot, leafIndex) =>
      NumberWord(digest, st, 0, 4);
      BytesWord(digest, st, 1, n);
      BytesWord(digest, st, 2, c1);
      BytesWord(digest, st, 3, oc1);
      BytesWord(digest, st, 4, c2);
      BytesWord(digest, st, 5, oc2);
      BytesWord(digest, st, 6, root);
      BytesWord(digest, st, 7, newRoot);
      NumberWord(digest, st, 8, leafIndex);
      LastWords(digest, st, 9);
    case Merge(n1, n2, c, oc, root, newRoot, leafIndex) =>
      NumberWord(digest, st, 0, 5);
      BytesWord(digest, st, 1, n1);
      BytesWord(digest, st, 2, n2);
      BytesWord(digest, st, 3, c);
      BytesWord(digest, st, 4, oc);
      BytesWord(digest, st, 5, root);
      BytesWord(digest, st, 6, newRoot);
      NumberWord(digest, st, 7, leafIndex);
      LastWords(digest, st, 8);
  }

  /** Binding of the published hash: two statements with one hash are the same statement, or their
      encodings are a keccak collision in hand. */
  lemma StatementHashBinds(keccak: Bytes -> Bytes32, digest: PrincipalDigest, a: Statement, b: Statement)
    requires Encodable(a) && Encodable(b)
    ensures Preimage(digest, a).Ok? && Preimage(digest, b).Ok?
    ensures var x, y := Preimage(digest, a).value, Preimage(digest, b).value;
            keccak(x) == keccak(y) ==> SameStatement(digest, a, b) || (x != y && keccak(x) == keccak(y))
  {
    hide Fields, Encodable, Preimage, SameStatement;
    EncodesExactlyEncodable(digest, a);
    EncodesExactlyEncodable(digest, b);
    if Preimage(digest, a).value == Preimage(digest, b).value { PreimageInjective(digest, a, b); }
  }
}
