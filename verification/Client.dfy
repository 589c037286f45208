/** How the client drives the tree and the note store (sdk/src/client/STXShield.ts).
    Network calls, the prover and randomness are parameters; no other operation of the same client
    runs in between. */
module Client {
  import opened Hex
  import opened Field
  import opened MerkleSpec
  import opened CommitmentTrees
  import opened JsMaps
  import opened Notes
  import opened Results
  import Fees

  datatype ClientError = InvalidNote | NotOnChain | Full | ProofFailed | SubmitFailed | Reverted

  datatype MembershipWitness = MembershipWitness(indexBits: seq<bool>, siblings: seq<nat>, merkleRoot: nat)

  datatype InsertionNumbers = InsertionNumbers(
    leafIndex: nat, indexBits: seq<bool>, siblings: seq<nat>, oldRoot: nat, newRoot: nat)

  /** What the prover is given. */
  datatype ProofInputs =
    | ShieldProof(commitment: nat, insertion: InsertionNumbers)
    | TransferProof(nullifier: nat, newCommitment: nat, membership: MembershipWitness, insertion: InsertionNumbers)
    | SplitProof(nullifier: nat, commitment1: nat, commitment2: nat, membership: MembershipWitness,
                 insertion1: InsertionNumbers, insertion2: InsertionNumbers)
    | MergeProof(nullifier1: nat, nullifier2: nat, commitment: nat,
                 membership1: MembershipWitness, membership2: MembershipWitness, insertion: InsertionNumbers)
    | WithdrawProof(nullifier: nat, amount: int, membership: MembershipWitness)

  /** What is published: nullifiers, output commitments, roots and slot. */
  datatype Request =
    | Append(nullifiers: seq<string>, commitments: seq<string>, currentRoot: string, newRoot: string, leafIndex: nat)
    | WithdrawRequest(nullifier: string, amount: int, root: string)

  /** A completed operation: what was proved and published, and what it did to the note store. */
  datatype Done = Done(proof: ProofInputs, request: Request, op: Operation)

  /** What the outside world answers during one operation. */
  datatype World = World(
    commitments: seq<string>,   // every commitment of the chain, in leaf order
    liveRoot: string,           // the registry's current root
    blinding1: nat, blinding2: nat,
    proofOk: bool, submitOk: bool, reverted: bool,
    txid: string, ciphertext1: string, ciphertext2: string)

  const MIN_SHIELD: nat := 1_000_000
  const MIN_WITHDRAWAL: nat := 1_000_000

  // ---- commitments as text and as leaves ----

  function LowerChar(c: char): char
  {
    if 'A' <= c <= 'Z' then (c as int - 'A' as int + 'a' as int) as char else c
  }

  function ToLower(s: string): (r: string)
    ensures |r| == |s| && forall i :: 0 <= i < |s| ==> r[i] == LowerChar(s[i])
  {
    seq(|s|, i requires 0 <= i < |s| => LowerChar(s[i]))
  }

  function Norm(c: string): string { ToLower(WithPrefix(c)) }

  /** A 32-byte commitment in hexadecimal, with or without prefix. */
  predicate IsCommitmentText(c: string)
  {
    |StripPrefix(c)| == 64 && IsHex(StripPrefix(c))
  }

  lemma LowerKeepsHex(s: string)
    requires IsHex(s)
    ensures IsHex(ToLower(s)) && DigitsOf(ToLower(s)) == DigitsOf(s)
  {
    assert forall c: char | IsHexChar(c) :: IsHexChar(LowerChar(c)) && HexVal(LowerChar(c)) == HexVal(c);
  }

  lemma NormIsPrefixed(c: string)
    requires IsCommitmentText(c)
    ensures Norm(c) == "0x" + ToLower(StripPrefix(c)) && StripPrefix(Norm(c)) == ToLower(StripPrefix(c))
    ensures IsCommitmentText(Norm(c))
  {
    assert WithPrefix(c) == "0x" + StripPrefix(c);
    LowerKeepsHex(StripPrefix(c));
  }

  ghost predicate AllCommitments(commitments: seq<string>)
  {
    forall i :: 0 <= i < |commitments| ==> IsCommitmentText(commitments[i])
  }

  /** The leaf a commitment text denotes. */
  function LeafOf(c: string): (leaf: Bytes32)
    requires IsCommitmentText(c)
  {
    HexToBytesSpec(c)
  }

  lemma LeafOfNorm(c: string)
    requires IsCommitmentText(c)
    ensures IsCommitmentText(Norm(c)) && LeafOf(Norm(c)) == LeafOf(c)
  {
    NormIsPrefixed(c);
    var s, t := StripPrefix(c), StripPrefix(Norm(c));
    LowerKeepsHex(s);
    SameDigitsSameBytes(s, t);
  }

  lemma {:induction false} SameDigitsSameBytes(s: string, t: string)
    requires IsHex(s) && IsHex(t) && |s| % 2 == 0 && DigitsOf(s) == DigitsOf(t)
    ensures BytesOf(s) == BytesOf(t)
  {
    BytesOfDenotes(s);
    BytesOfDenotes(t);
    assert |s| == |DigitsOf(s)| == |t|;
    BytesValInjective(BytesOf(s), BytesOf(t));
  }

  ghost function LeavesOf(commitments: seq<string>): (leaves: seq<Bytes32>)
    requires AllCommitments(commitments)
    ensures |leaves| == |commitments|
  {
    if commitments == [] then []
    else LeavesOf(commitments[..|commitments| - 1]) + [LeafOf(commitments[|commitments| - 1])]
  }

  /** Normalised commitment -> its last leaf index. */
  function IndexOf(commitments: seq<string>): map<string, nat>
  {
    if commitments == [] then map[]
    else
      var n := |commitments| - 1;
      IndexOf(commitments[..n])[Norm(commitments[n]) := n]
  }

  lemma {:induction false} IndexPointsAtLeaf(commitments: seq<string>, c: string)
    requires AllCommitments(commitments) && c in IndexOf(commitments)
    ensures IndexOf(commitments)[c] < |commitments| && IsCommitmentText(c)
    ensures LeavesOf(commitments)[IndexOf(commitments)[c]] == LeafOf(c)
    ensures Norm(commitments[IndexOf(commitments)[c]]) == c
    ensures forall j :: IndexOf(commitments)[c] < j < |commitments| ==> Norm(commitments[j]) != c
  {
    hide Norm, IsCommitmentText, LeafOf;
    var n := |commitments| - 1;
    if c == Norm(commitments[n]) {
      LeafOfNorm(commitments[n]);
    } else {
      IndexPointsAtLeaf(commitments[..n], c);
    }
  }

  lemma {:induction false} IndexKnowsAll(commitments: seq<string>, c: string)
    ensures c in IndexOf(commitments) <==> exists i :: 0 <= i < |commitments| && Norm(commitments[i]) == c
  {
    hide Norm;
    if commitments != [] {
      var n := |commitments| - 1;
      IndexKnowsAll(commitments[..n], c);
      if i :| 0 <= i < n && Norm(commitments[..n][i]) == c { assert Norm(commitments[i]) == c; }
      if i :| 0 <= i < n && Norm(commitments[i]) == c { assert Norm(commitments[..n][i]) == c; }
    }
  }

  // ---- witnesses and roots as the prover and the chain see them ----

  function Numbers(bs: seq<Bytes32>): (r: seq<nat>)
    ensures |r| == |bs|
  {
    if bs == [] then [] else Numbers(bs[..|bs| - 1]) + [BytesToBig(bs[|bs| - 1])]
  }

  function RootHex(root: Bytes32): string { "0x" + HexOf(root) }

  /** The number a published root text denotes. */
  function RootNumber(s: string): nat
    requires IsHex(StripPrefix(s))
  {
    ParseHex(StripPrefix(s))
  }

  /** A published root text denotes exactly the number handed to the prover. */
  lemma RootTextIsNumber(root: Bytes32)
    ensures IsHex(StripPrefix(RootHex(root))) && RootNumber(RootHex(root)) == BytesToBig(root)
  {
    assert StripPrefix(RootHex(root)) == HexOf(root);
    HexOfDenotes(root);
    BytesToBigIsValue(root);
  }

  /** `insertion` appends `c` at slot `|leaves|`: the slot is empty under the old root, holds `c`
      under the new one, and both roots are the real ones of the protocol-depth tree. */
  ghost predicate Appends(p: Poseidon2, leaves: seq<Bytes32>, c: Bytes32, w: InsertionNumbers)
  {
    && w.leafIndex == |leaves|
    && Decode(w.indexBits) == |leaves|
    && w.indexBits == PathBits(|leaves|, TREE_DEPTH)
    && w.siblings == Numbers(PathSiblings(p, leaves, |leaves|, TREE_DEPTH))
    && w.oldRoot == BytesToBig(TreeRoot(p, leaves, TREE_DEPTH))
    && w.newRoot == BytesToBig(TreeRoot(p, leaves + [c], TREE_DEPTH))
  }

  /** `m` proves that the leaf of commitment text `c` is in the tree over `leaves`. */
  ghost predicate Proves(p: Poseidon2, leaves: seq<Bytes32>, c: string, m: MembershipWitness)
  {
    && IsCommitmentText(c)
    && m.merkleRoot == BytesToBig(TreeRoot(p, leaves, TREE_DEPTH))
    && exists i: nat :: i < |leaves| && leaves[i] == LeafOf(c)
         && m.indexBits == PathBits(i, TREE_DEPTH) && m.siblings == Numbers(PathSiblings(p, leaves, i, TREE_DEPTH))
  }

  /** A commitment text that `BigInt` reads as hexadecimal: the prefix may be of either case. */
  predicate IsNoteText(c: string)
  {
    |c| == 66 && c[0] == '0' && (c[1] == 'x' || c[1] == 'X') && IsHex(c[2..])
  }

  /** `BigInt(c)`. */
  function NumberOf(c: string): nat
    requires IsNoteText(c)
  {
    ParseHex(c[2..])
  }

  /** The text of a commitment made here denotes that commitment. */
  lemma NewCommitmentText(x: FieldElement)
    ensures IsCommitmentText(ToHex32(x)) && IsNoteText(ToHex32(x)) && NumberOf(ToHex32(x)) == x
    ensures ToLower(ToHex32(x)) == ToHex32(x) && Norm(ToHex32(x)) == ToHex32(x)
  {
    ModulusFits();
    FixedWidth(x, 64);
    assert StripPrefix(ToHex32(x)) == ToHex32(x)[2..] == PadStart(ToString16(x), 64);
  }

  function Nullifier(h: Hashes, note: ShieldNote): FieldElement
    requires IsNoteText(note.commitment)
  {
    NullifierOf(h, NumberOf(note.commitment), note.secret.ownerSk)
  }

  /** The chain lists a commitment under the text that the lookup makes of `c`. */
  ghost predicate Listed(commitments: seq<string>, c: string)
  {
    exists i :: 0 <= i < |commitments| && Norm(commitments[i]) == ToLower(c)
  }

  /** A listed text is found by a text of the same digits, after a prefix of either case, and by no other. */
  lemma FoundBySameDigits(listed: string, c: string)
    requires IsCommitmentText(listed)
    ensures Norm(listed) == ToLower(c) <==> IsNoteText(c) && ToLower(StripPrefix(listed)) == ToLower(c[2..])
  {
    NormIsPrefixed(listed);
    var t := ToLower(StripPrefix(listed));
    if Norm(listed) == ToLower(c) {
      LowerKeepsHex(StripPrefix(listed));
      assert LowerChar(c[0]) == '0' && LowerChar(c[1]) == 'x';
      forall i | 2 <= i < |c| ensures IsHexChar(c[i]) { assert LowerChar(c[i]) == Norm(listed)[i] == t[i - 2]; }
      assert ToLower(c)[2..] == ToLower(c[2..]) == t;
    } else if IsNoteText(c) {
      assert ToLower(c) == "0x" + ToLower(c[2..]);
    }
  }

  lemma ListedIsNoteText(commitments: seq<string>, c: string)
    requires AllCommitments(commitments)
    ensures Listed(commitments, c) ==> IsNoteText(c)
  {
    hide IsCommitmentText, IsNoteText, Norm, ToLower;
    if i :| 0 <= i < |commitments| && Norm(commitments[i]) == ToLower(c) {
      FoundBySameDigits(commitments[i], c);
    }
  }

  /** Published as a transition from the tree over `before` to the tree over `after`, at the next slot. */
  ghost predicate Publishes(h: Hashes, before: seq<Bytes32>, after: seq<Bytes32>, nullifiers: seq<string>,
                            outputs: seq<string>, request: Request)
  {
    request == Append(nullifiers, outputs, RootHex(TreeRoot(h.two, before, TREE_DEPTH)),
                      RootHex(TreeRoot(h.two, after, TREE_DEPTH)), |before|)
  }

  function Filled(note: ShieldNote, ciphertext: string, root: string, txid: string, leafIndex: nat): ShieldNote
  {
    note.(ciphertext := ciphertext, root := root, txid := txid, secret := note.secret.(leafIndex := Some(leafIndex)))
  }

  /** The synchronous block of a split: membership, two chained appends, and the roots around them. */
  datatype Transition = Transition(
    membership: MembershipWitness, currentRoot: string, insertion1: InsertionNumbers, l1: nat,
    insertion2: InsertionNumbers, l2: nat, newRoot: string)

  ghost predicate Chained(h: Hashes, leaves: seq<Bytes32>, note: ShieldNote, c1: string, c2: string, t: Transition)
    requires IsCommitmentText(c1) && IsCommitmentText(c2)
  {
    && Proves(h.two, leaves, ToLower(note.commitment), t.membership)
    && Appends(h.two, leaves, LeafOf(c1), t.insertion1)
    && Appends(h.two, leaves + [LeafOf(c1)], LeafOf(c2), t.insertion2)
    && t.l1 == |leaves| && t.l2 == |leaves| + 1
    && t.currentRoot == RootHex(TreeRoot(h.two, leaves, TREE_DEPTH))
    && t.newRoot == RootHex(TreeRoot(h.two, leaves + [LeafOf(c1)] + [LeafOf(c2)], TREE_DEPTH))
  }

  /** What a completed split proved, published and stored. */
  ghost predicate SplitDone(h: Hashes, w: World, note: ShieldNote, amounts: seq<int>, owner: OwnerKey, d: Done)
    requires AllCommitments(w.commitments) && |amounts| == 2
  {
    hide TreeRoot, RootHex, Nullifier, IsCommitmentText, IsNoteText, NewNote, LeavesOf, LeafOf, NumberOf, ToHex32,
         ToLower, Proves, Appends;
    var leaves := LeavesOf(w.commitments);
    var asset := note.asset.GetOr(NATIVE);
    var o1 := NewNote(h, amounts[0], owner.sk, owner.pkX, owner.pkY, w.blinding1, asset);
    var o2 := NewNote(h, amounts[1], owner.sk, owner.pkX, owner.pkY, w.blinding2, asset);
    NewNoteText(h, amounts[0], owner.sk, owner.pkX, owner.pkY, w.blinding1, asset);
    NewNoteText(h, amounts[1], owner.sk, owner.pkX, owner.pkY, w.blinding2, asset);
    && IsNoteText(note.commitment) && d.proof.SplitProof? && d.request.Append?
    && Chained(h, leaves, note, o1.commitment, o2.commitment,
         Transition(d.proof.membership, d.request.currentRoot, d.proof.insertion1, |leaves|, d.proof.insertion2,
                    |leaves| + 1, d.request.newRoot))
    && d.request.leafIndex == |leaves|
    && d.request.nullifiers == [ToHex32(d.proof.nullifier)] && d.proof.nullifier == Nullifier(h, note)
    && d.request.commitments == [o1.commitment, o2.commitment]
    && d.proof.commitment1 == NumberOf(o1.commitment) && d.proof.commitment2 == NumberOf(o2.commitment)
    && d.op == Operation.Split(note, Filled(o1, w.ciphertext1, d.request.newRoot, w.txid, |leaves|),
                                     Filled(o2, w.ciphertext2, d.request.newRoot, w.txid, |leaves| + 1))
  }

  /** What is left of an amount after the pool's fee in basis points. */
  function NetOf(amount: int, feeBps: nat): (net: int)
    requires feeBps <= 10_000
    ensures net + Fees.PercentFee(amount, feeBps) == amount
    ensures amount >= 0 ==> 0 <= net <= amount
    ensures feeBps == 0 ==> net == amount
  {
    hide Fees.PercentFee;
    Fees.PercentWithinAmount(amount, feeBps);
    amount - Fees.PercentFee(amount, feeBps)
  }

  /** The first note, in insertion order, of exactly this amount and asset. */
  function PickNote(unspent: seq<ShieldNote>, base: int, asset: AssetInfo): (r: Option<ShieldNote>)
    ensures r.None? <==> forall n :: n in unspent ==> !(n.amount == base && SameAsset(n.asset, asset))
    ensures r.Some? ==> r.value.amount == base && SameAsset(r.value.asset, asset)
    ensures r.Some? ==>
              exists i :: && 0 <= i < |unspent| && unspent[i] == r.value
                          && forall j :: 0 <= j < i
                              ==> !(unspent[j].amount == base && SameAsset(unspent[j].asset, asset))
  {
    if unspent == [] then None
    else if unspent[0].amount == base && SameAsset(unspent[0].asset, asset) then Some(unspent[0])
    else
      var r := PickNote(unspent[1..], base, asset);
      assert forall j :: 0 < j < |unspent| ==> unspent[j] == unspent[1..][j - 1];
      r
  }

  /** One output appended to the tree whose root is published, in the slot that is published. */
  ghost predicate AppendsOne(h: Hashes, leaves: seq<Bytes32>, c: string, insertion: InsertionNumbers,
                             nullifiers: seq<string>, request: Request)
    requires IsCommitmentText(c)
  {
    && Appends(h.two, leaves, LeafOf(c), insertion)
    && Publishes(h, leaves, leaves + [LeafOf(c)], nullifiers, [c], request)
  }

  ghost predicate TransferDone(h: Hashes, w: World, input: ShieldNote, base: int, pkX: nat, pkY: nat,
                               asset: AssetInfo, d: Done)
    requires AllCommitments(w.commitments)
  {
    hide TreeRoot, RootHex, Nullifier, IsCommitmentText, IsNoteText, NewNote, LeavesOf, LeafOf, NumberOf, ToHex32,
         ToLower, Proves, Appends;
    var leaves := LeavesOf(w.commitments);
    var c := NewNote(h, base, 0, pkX, pkY, w.blinding1, asset).commitment;
    NewNoteText(h, base, 0, pkX, pkY, w.blinding1, asset);
    && IsNoteText(input.commitment) && d.proof.TransferProof? && d.op == Operation.Transfer(input)
    && d.proof.nullifier == Nullifier(h, input) && d.proof.newCommitment == NumberOf(c)
    && Proves(h.two, leaves, ToLower(input.commitment), d.proof.membership)
    && AppendsOne(h, leaves, c, d.proof.insertion, [ToHex32(Nullifier(h, input))], d.request)
  }

  ghost predicate MergeDone(h: Hashes, w: World, input1: ShieldNote, input2: ShieldNote, owner: OwnerKey, d: Done)
    requires AllCommitments(w.commitments)
  {
    hide TreeRoot, RootHex, Nullifier, IsCommitmentText, IsNoteText, NewNote, LeavesOf, LeafOf, NumberOf, ToHex32,
         ToLower, Proves, Appends;
    var leaves := LeavesOf(w.commitments);
    var asset := input1.asset.GetOr(NATIVE);
    var out := NewNote(h, input1.amount + input2.amount, owner.sk, owner.pkX, owner.pkY, w.blinding1, asset);
    NewNoteText(h, input1.amount + input2.amount, owner.sk, owner.pkX, owner.pkY, w.blinding1, asset);
    && IsNoteText(input1.commitment) && IsNoteText(input2.commitment) && d.proof.MergeProof? && d.request.Append?
    && d.op == Operation.Merge(input1, input2, Filled(out, w.ciphertext1, d.request.newRoot, w.txid, |leaves|))
    && d.proof.nullifier1 == Nullifier(h, input1) && d.proof.nullifier2 == Nullifier(h, input2)
    && d.proof.commitment == NumberOf(out.commitment)
    && Proves(h.two, leaves, ToLower(input1.commitment), d.proof.membership1)
    && Proves(h.two, leaves, ToLower(input2.commitment), d.proof.membership2)
    && AppendsOne(h, leaves, out.commitment, d.proof.insertion,
                  [ToHex32(Nullifier(h, input1)), ToHex32(Nullifier(h, input2))], d.request)
  }

  ghost predicate WithdrawDone(h: Hashes, w: World, note: ShieldNote, d: Done)
    requires AllCommitments(w.commitments)
  {
    var leaves := LeavesOf(w.commitments);
    && IsNoteText(note.commitment) && d.proof.WithdrawProof? && d.op == Operation.Withdraw(note)
    && d.proof.nullifier == Nullifier(h, note) && d.proof.amount == note.amount
    && Proves(h.two, leaves, ToLower(note.commitment), d.proof.membership)
    && d.request == WithdrawRequest(ToHex32(Nullifier(h, note)), note.amount,
                                    RootHex(TreeRoot(h.two, leaves, TREE_DEPTH)))
  }

  /** The optimistic note of a shield. */
  ghost function ShieldedNote(h: Hashes, w: World, base: int, owner: OwnerKey, asset: AssetInfo): ShieldNote
    requires AllCommitments(w.commitments)
  {
    hide TreeRoot, RootHex, Nullifier, IsCommitmentText, IsNoteText, NewNote, LeavesOf, LeafOf, NumberOf, ToHex32,
         ToLower, Proves, Appends;
    var leaves := LeavesOf(w.commitments);
    var note := NewNote(h, base, owner.sk, owner.pkX, owner.pkY, w.blinding1, asset);
    NewNoteText(h, base, owner.sk, owner.pkX, owner.pkY, w.blinding1, asset);
    Filled(note, w.ciphertext1, RootHex(TreeRoot(h.two, leaves + [LeafOf(note.commitment)], TREE_DEPTH)), w.txid,
           |leaves|)
  }

  /** A shield publishes the registry's live root as the current one, and its own tree's as the new one. */
  ghost predicate ShieldDone(h: Hashes, w: World, base: int, owner: OwnerKey, asset: AssetInfo, d: Done)
    requires AllCommitments(w.commitments)
  {
    hide TreeRoot, RootHex, Nullifier, IsCommitmentText, IsNoteText, NewNote, LeavesOf, LeafOf, NumberOf, ToHex32,
         ToLower, Proves, Appends;
    var leaves := LeavesOf(w.commitments);
    var c := NewNote(h, base, owner.sk, owner.pkX, owner.pkY, w.blinding1, asset).commitment;
    NewNoteText(h, base, owner.sk, owner.pkX, owner.pkY, w.blinding1, asset);
    && d.proof.ShieldProof? && d.proof.commitment == NumberOf(c)
    && d.op == Operation.Shield(ShieldedNote(h, w, base, owner, asset))
    && Appends(h.two, leaves, LeafOf(c), d.proof.insertion)
    && d.request == Append([], [c], w.liveRoot, RootHex(TreeRoot(h.two, leaves + [LeafOf(c)], TREE_DEPTH)), |leaves|)
  }

  class STXShield {
    const hashes: Hashes
    const store: NoteStore
    var tree: CommitmentTree
    var commitmentIndex: map<string, nat>

    ghost predicate Valid()
      reads this, tree
    {
      tree.Valid() && tree.poseidon == hashes.two && tree.depth == TREE_DEPTH
    }

    constructor (hashes: Hashes)
      ensures Valid() && fresh(store) && fresh(tree) && store.notes == [] && this.hashes == hashes
    {
      this.hashes := hashes;
      store := new NoteStore();
      tree := new CommitmentTree(hashes.two, TREE_DEPTH);
      commitmentIndex := map[];
    }

    /** The client mirrors the chain. */
    ghost predicate Synced(commitments: seq<string>)
      reads this, tree
    {
      && Valid()
      && AllCommitments(commitments)
      && tree.leaves == LeavesOf(commitments)
      && commitmentIndex == IndexOf(commitments)
    }

    method NormalisedLeaf(norm: string) returns (leaf: Bytes32)
      requires IsCommitmentText(norm)
      ensures leaf == LeafOf(norm)
    {
      leaf := HexToBytes(norm);
    }

    method SyncTree(commitments: seq<string>) returns (r: Result<(), ClientError>)
      requires Valid() && AllCommitments(commitments)
      modifies this`tree, this`commitmentIndex
      ensures Valid()
      ensures |commitments| <= MAX_LEAVES ==> r.Ok? && Synced(commitments) && fresh(tree)
      ensures |commitments| > MAX_LEAVES ==> r == Err(Full) && unchanged(this)
    {
      hide TreeRoot, Norm, LeafOf, IsCommitmentText, HexToBytesSpec;
      var t := new CommitmentTree(hashes.two, TREE_DEPTH);
      var index: map<string, nat> := map[];
      for k := 0 to |commitments|
        invariant Valid() && unchanged(this) && unchanged(tree)
        invariant fresh(t) && t.Valid() && t.poseidon == hashes.two && t.depth == TREE_DEPTH
        invariant t.leaves == LeavesOf(commitments[..k]) && index == IndexOf(commitments[..k])
      {
        var norm := Norm(commitments[k]);
        NormIsPrefixed(commitments[k]);
        LeafOfNorm(commitments[k]);
        var leaf := NormalisedLeaf(norm);
        var idx := t.Insert(leaf);
        assert commitments[..k + 1][..k] == commitments[..k];
        if idx.Err? { return Err(Full); }
        index := index[norm := idx.value];
      }
      assert commitments[..|commitments|] == commitments;
      tree, commitmentIndex := t, index;
      r := Ok(());
    }

    /** Membership witness of a note, at the leaf the chain gave it. */
    method Membership(note: ShieldNote, ghost commitments: seq<string>)
        returns (r: Result<MembershipWitness, ClientError>)
      requires Synced(commitments)
      ensures r.Ok? <==> Listed(commitments, note.commitment)
      ensures r.Err? ==> r.error == NotOnChain
      ensures r.Ok? ==> Proves(hashes.two, tree.leaves, ToLower(note.commitment), r.value)
    {
      hide TreeRoot, PathBits, PathSiblings, IndexOf, LeavesOf;
      var key := ToLower(note.commitment);
      IndexKnowsAll(commitments, key);
      if key in IndexOf(commitments) { IndexPointsAtLeaf(commitments, key); }
      if key !in commitmentIndex { return Err(NotOnChain); }
      var proof := tree.Proof(commitmentIndex[key]);
      var p := proof.value;
      var siblings := AsNumbers(p.siblings);
      r := Ok(MembershipWitness(p.indexBits, siblings, BytesToBig(tree.Root())));
    }

    method AsNumbers(bs: seq<Bytes32>) returns (r: seq<nat>)
      ensures r == Numbers(bs)
    {
      r := [];
      for k := 0 to |bs|
        invariant r == Numbers(bs[..k])
      {
        assert bs[..k + 1][..k] == bs[..k];
        r := r + [BytesToBig(bs[k])];
      }
      assert bs[..|bs|] == bs;
    }

    function CurrentRootHex(): (s: string)
      reads this, tree
      requires Valid()
      ensures s == RootHex(TreeRoot(hashes.two, tree.leaves, TREE_DEPTH))
    {
      RootHex(tree.Root())
    }

    method InsertionFor(commitmentHex: string) returns (r: Result<InsertionNumbers, ClientError>)
      requires Valid() && IsCommitmentText(commitmentHex)
      ensures tree.count >= MAX_LEAVES ==> r == Err(Full)
      ensures tree.count < MAX_LEAVES ==>
                r.Ok? && r.value.leafIndex == |tree.leaves|
                    && Appends(hashes.two, tree.leaves, LeafOf(commitmentHex), r.value)
    {
      hide TreeRoot, PathBits, PathSiblings, Decode;
      var leaf := HexToBytes(commitmentHex);
      var found := tree.GetInsertionWitness(leaf);
      if found.Err? { return Err(Full); }
      var w := found.value;
      SlotInTree(|tree.leaves|, TREE_DEPTH);
      AppendWitnessComplete(hashes.two, tree.leaves, TREE_DEPTH, leaf, w);
      var siblings := AsNumbers(w.siblings);
      r := Ok(InsertionNumbers(w.index, w.indexBits, siblings, BytesToBig(w.oldRoot), BytesToBig(w.newRoot)));
    }

    method InsertLeaf(commitmentHex: string) returns (r: Result<nat, ClientError>)
      requires Valid() && IsCommitmentText(commitmentHex)
      modifies tree
      ensures Valid()
      ensures old(tree.count) >= MAX_LEAVES ==> r == Err(Full) && unchanged(tree)
      ensures old(tree.count) < MAX_LEAVES ==>
                r == Ok(|old(tree.leaves)|) && tree.leaves == old(tree.leaves) + [LeafOf(commitmentHex)]
    {
      var leaf := HexToBytes(commitmentHex);
      var inserted := tree.Insert(leaf);
      r := if inserted.Ok? then Ok(inserted.value) else Err(Full);
    }

    /** Witness, insert, witness, insert: nothing else of this client runs in between. */
    method AppendTwice(note: ShieldNote, c1: string, c2: string, ghost commitments: seq<string>)
        returns (r: Result<Transition, ClientError>)
      requires Synced(commitments) && IsCommitmentText(c1) && IsCommitmentText(c2)
      modifies tree
      ensures Valid()
      ensures r.Ok? <==> && |commitments| + 2 <= MAX_LEAVES
                         && Listed(commitments, note.commitment)
      ensures r.Err? ==> r.error == if Listed(commitments, note.commitment) then Full else NotOnChain
      ensures r.Ok? ==> Chained(hashes, LeavesOf(commitments), note, c1, c2, r.value)
      ensures r.Ok? ==> r.value.l1 == r.value.insertion1.leafIndex == |commitments| && r.value.l2 == |commitments| + 1
    {
      hide MarkSpent, AddNote, Delete, TreeRoot, RootHex, Nullifier, LeavesOf, IsCommitmentText, LeafOf, ToLower,
           Norm, Listed, Proves, Appends;
      var membership := Membership(note, commitments);
      if membership.Err? { return Err(membership.error); }
      var currentRoot := CurrentRootHex();
      var insertion1 := InsertionFor(c1);
      if insertion1.Err? { return Err(insertion1.error); }
      var l1 := InsertLeaf(c1);
      var insertion2 := InsertionFor(c2);
      if insertion2.Err? { return Err(insertion2.error); }
      var l2 := InsertLeaf(c2);
      r := Ok(Transition(membership.value, currentRoot, insertion1.value, l1.value, insertion2.value, l2.value,
                         CurrentRootHex()));
    }

    /** Split a note into two notes of one's own. */
    method Split(note: ShieldNote, amounts: seq<int>, owner: OwnerKey, w: World) returns (r: Result<Done, ClientError>)
      requires Valid() && AllCommitments(w.commitments)
      modifies this`tree, this`commitmentIndex, store
      ensures Valid()
      ensures r.Ok? <==> && |amounts| == 2 && amounts[0] + amounts[1] == note.amount
                         && |w.commitments| + 2 <= MAX_LEAVES && Listed(w.commitments, note.commitment) && w.proofOk
                         && w.submitOk
      ensures r.Err? ==> r.error == if |amounts| != 2 || amounts[0] + amounts[1] != note.amount then InvalidNote
                                    else if |w.commitments| > MAX_LEAVES then Full
                                    else if !IsNoteText(note.commitment) then InvalidNote
                                    else if !Listed(w.commitments, note.commitment) then NotOnChain
                                    else if |w.commitments| + 2 > MAX_LEAVES then Full
                                    else if !w.proofOk then ProofFailed else SubmitFailed
      ensures r.Err? ==> store.notes == old(store.notes)
      ensures r.Ok? ==> store.notes == Apply(old(store.notes), r.value.op)
      ensures r.Ok? ==> SplitDone(hashes, w, note, amounts, owner, r.value)
    {
      hide MarkSpent, AddNote, Delete, TreeRoot, RootHex, Nullifier, LeavesOf, IsCommitmentText, LeafOf, ToLower,
           Norm, Listed, NewNote, ToHex32, NumberOf, IsNoteText, Chained;
      if |amounts| != 2 || amounts[0] + amounts[1] != note.amount { return Err(InvalidNote); }
      var asset := note.asset.GetOr(NATIVE);
      var synced := SyncTree(w.commitments);
      if synced.Err? { return Err(Full); }
      var o1 := NewNote(hashes, amounts[0], owner.sk, owner.pkX, owner.pkY, w.blinding1, asset);
      var o2 := NewNote(hashes, amounts[1], owner.sk, owner.pkX, owner.pkY, w.blinding2, asset);
      NewNoteText(hashes, amounts[0], owner.sk, owner.pkX, owner.pkY, w.blinding1, asset);
      NewNoteText(hashes, amounts[1], owner.sk, owner.pkX, owner.pkY, w.blinding2, asset);
      ListedIsNoteText(w.commitments, note.commitment);
      if !IsNoteText(note.commitment) { return Err(InvalidNote); }
      var nf := Nullifier(hashes, note);
      var appended := AppendTwice(note, o1.commitment, o2.commitment, w.commitments);
      if appended.Err? { return Err(appended.error); }
      var t := appended.value;
      if !w.proofOk { return Err(ProofFailed); }
      if !w.submitOk { return Err(SubmitFailed); }
      var proof := SplitProof(nf, NumberOf(o1.commitment), NumberOf(o2.commitment), t.membership, t.insertion1,
                              t.insertion2);
      var request := Append([ToHex32(nf)], [o1.commitment, o2.commitment], t.currentRoot, t.newRoot,
                            t.insertion1.leafIndex);
      store.MarkNoteSpent(note.commitment);
      var n1 := Filled(o1, w.ciphertext1, t.newRoot, w.txid, t.l1);
      var n2 := Filled(o2, w.ciphertext2, t.newRoot, w.txid, t.l2);
      store.Add(n1);
      store.Add(n2);
      r := Ok(Done(proof, request, Operation.Split(note, n1, n2)));
    }

    /** Advance the tree past one output, reading the root before and after. */
    method AppendOnce(c: string) returns (r: Result<(string, nat, string), ClientError>)
      requires Valid() && IsCommitmentText(c)
      modifies tree
      ensures Valid()
      ensures old(tree.count) >= MAX_LEAVES ==> r == Err(Full)
      ensures old(tree.count) < MAX_LEAVES ==>
                r == Ok((RootHex(TreeRoot(hashes.two, old(tree.leaves), TREE_DEPTH)), |old(tree.leaves)|,
                         RootHex(TreeRoot(hashes.two, old(tree.leaves) + [LeafOf(c)], TREE_DEPTH))))
    {
      hide IsCommitmentText, LeafOf;
      var currentRoot := CurrentRootHex();
      var leaf := InsertLeaf(c);
      if leaf.Err? { return Err(Full); }
      r := Ok((currentRoot, leaf.value, CurrentRootHex()));
    }

    method TransferWitnesses(input: ShieldNote, c: string, ghost commitments: seq<string>)
      returns (r: Result<(InsertionNumbers, MembershipWitness), ClientError>)
      requires Synced(commitments) && IsCommitmentText(c)
      ensures r.Ok? <==> |commitments| < MAX_LEAVES && Listed(commitments, input.commitment)
      ensures r.Err? ==> r.error == if |commitments| == MAX_LEAVES then Full else NotOnChain
      ensures r.Ok? ==> && r.value.0.leafIndex == |commitments|
                        && Appends(hashes.two, LeavesOf(commitments), LeafOf(c), r.value.0)
                        && Proves(hashes.two, LeavesOf(commitments), ToLower(input.commitment), r.value.1)
    {
      hide TreeRoot, LeavesOf, IsCommitmentText, LeafOf, ToLower, Norm, Listed, Proves, Appends;
      var insertion := InsertionFor(c);
      if insertion.Err? { return Err(insertion.error); }
      var membership := Membership(input, commitments);
      if membership.Err? { return Err(membership.error); }
      r := Ok((insertion.value, membership.value));
    }

    /** Spend the first note of exactly this value, paying a recipient's public key. */
    method Transfer(base: int, pkX: nat, pkY: nat, asset: AssetInfo, w: World) returns (r: Result<Done, ClientError>)
      requires Valid() && AllCommitments(w.commitments)
      modifies this`tree, this`commitmentIndex, store
      ensures Valid()
      ensures var input := PickNote(Unspent(old(store.notes)), base, asset);
              r.Ok? <==> && input.Some? && |w.commitments| + 1 <= MAX_LEAVES
                         && Listed(w.commitments, input.value.commitment) && w.proofOk && w.submitOk
      ensures var input := PickNote(Unspent(old(store.notes)), base, asset);
              r.Err? ==> r.error == if input.None? then InvalidNote
                                    else if |w.commitments| > MAX_LEAVES then Full
                                    else if !IsNoteText(input.value.commitment) then InvalidNote
                                    else if |w.commitments| == MAX_LEAVES then Full
                                    else if !Listed(w.commitments, input.value.commitment) then NotOnChain
                                    else if !w.proofOk then ProofFailed else SubmitFailed
      ensures r.Err? ==> store.notes == old(store.notes)
      ensures r.Ok? ==> store.notes == Apply(old(store.notes), r.value.op)
                        && TransferDone(hashes, w, PickNote(Unspent(old(store.notes)), base, asset).value, base, pkX,
                                        pkY, asset, r.value)
    {
      hide MarkSpent, AddNote, Delete, TreeRoot, RootHex, Nullifier, LeavesOf, IsCommitmentText, LeafOf, ToLower,
           Norm, Listed, NewNote, ToHex32, NumberOf, IsNoteText, Proves, Appends, Unspent;
      var unspent := store.UnspentNotes();
      var picked := PickNote(unspent, base, asset);
      if picked.None? { return Err(InvalidNote); }
      var input := picked.value;
      var out := NewNote(hashes, base, 0, pkX, pkY, w.blinding1, asset);
      NewNoteText(hashes, base, 0, pkX, pkY, w.blinding1, asset);
      var synced := SyncTree(w.commitments);
      if synced.Err? { return Err(Full); }
      ListedIsNoteText(w.commitments, input.commitment);
      if !IsNoteText(input.commitment) { return Err(InvalidNote); }
      var nf := Nullifier(hashes, input);
      var witnesses := TransferWitnesses(input, out.commitment, w.commitments);
      if witnesses.Err? { return Err(witnesses.error); }
      var (insertion, membership) := witnesses.value;
      if !w.proofOk { return Err(ProofFailed); }
      var appended := AppendOnce(out.commitment);
      if !w.submitOk { return Err(SubmitFailed); }
      var (currentRoot, outLeaf, newRoot) := appended.value;
      var request := Append([ToHex32(nf)], [out.commitment], currentRoot, newRoot, insertion.leafIndex);
      store.MarkNoteSpent(input.commitment);
      r := Ok(Done(TransferProof(nf, NumberOf(out.commitment), membership, insertion), request,
                   Operation.Transfer(input)));
    }

    method MergeWitnesses(i1: ShieldNote, i2: ShieldNote, c: string, ghost commitments: seq<string>)
      returns (r: Result<(InsertionNumbers, MembershipWitness, MembershipWitness), ClientError>)
      requires Synced(commitments) && IsCommitmentText(c)
      ensures r.Ok? <==> && |commitments| < MAX_LEAVES
                         && Listed(commitments, i1.commitment)
                         && Listed(commitments, i2.commitment)
      ensures r.Err? ==> r.error == if |commitments| == MAX_LEAVES then Full else NotOnChain
      ensures r.Ok? ==> && r.value.0.leafIndex == |commitments|
                        && Appends(hashes.two, LeavesOf(commitments), LeafOf(c), r.value.0)
                        && Proves(hashes.two, LeavesOf(commitments), ToLower(i1.commitment), r.value.1)
                        && Proves(hashes.two, LeavesOf(commitments), ToLower(i2.commitment), r.value.2)
    {
      hide TreeRoot, LeavesOf, IsCommitmentText, LeafOf, ToLower, Norm, Listed, Proves, Appends;
      var insertion := InsertionFor(c);
      if insertion.Err? { return Err(insertion.error); }
      var membership1 := Membership(i1, commitments);
      if membership1.Err? { return Err(membership1.error); }
      var membership2 := Membership(i2, commitments);
      if membership2.Err? { return Err(membership2.error); }
      r := Ok((insertion.value, membership1.value, membership2.value));
    }

    /** Merge two notes of one asset into one. The two are not compared with each other. */
    method Merge(notes: seq<ShieldNote>, owner: OwnerKey, w: World) returns (r: Result<Done, ClientError>)
      requires Valid() && AllCommitments(w.commitments)
      modifies this`tree, this`commitmentIndex, store
      ensures Valid()
      ensures r.Ok? <==> && |notes| == 2 && SameAsset(notes[1].asset, notes[0].asset.GetOr(NATIVE))
                         && |w.commitments| + 1 <= MAX_LEAVES && Listed(w.commitments, notes[0].commitment)
                         && Listed(w.commitments, notes[1].commitment) && w.proofOk && w.submitOk
      ensures r.Err? ==> r.error == if |notes| != 2 || !SameAsset(notes[1].asset, notes[0].asset.GetOr(NATIVE))
                                    then InvalidNote
                                    else if |w.commitments| > MAX_LEAVES then Full
                                    else if !IsNoteText(notes[0].commitment) || !IsNoteText(notes[1].commitment)
                                    then InvalidNote
                                    else if |w.commitments| == MAX_LEAVES then Full
                                    else if !Listed(w.commitments, notes[0].commitment)
                                            || !Listed(w.commitments, notes[1].commitment) then NotOnChain
                                    else if !w.proofOk then ProofFailed else SubmitFailed
      ensures r.Err? ==> store.notes == old(store.notes)
      ensures r.Ok? ==> store.notes == Apply(old(store.notes), r.value.op)
      ensures r.Ok? ==> MergeDone(hashes, w, notes[0], notes[1], owner, r.value)
    {
      hide MarkSpent, AddNote, Delete, TreeRoot, RootHex, Nullifier, LeavesOf, IsCommitmentText, LeafOf, ToLower,
           Norm, Listed, NewNote, ToHex32, NumberOf, IsNoteText, Proves, Appends;
      if |notes| != 2 { return Err(InvalidNote); }
      var i1, i2 := notes[0], notes[1];
      var asset := i1.asset.GetOr(NATIVE);
      if !SameAsset(i2.asset, asset) { return Err(InvalidNote); }
      var out := NewNote(hashes, i1.amount + i2.amount, owner.sk, owner.pkX, owner.pkY, w.blinding1, asset);
      NewNoteText(hashes, i1.amount + i2.amount, owner.sk, owner.pkX, owner.pkY, w.blinding1, asset);
      var synced := SyncTree(w.commitments);
      if synced.Err? { return Err(Full); }
      ListedIsNoteText(w.commitments, i1.commitment);
      if !IsNoteText(i1.commitment) { return Err(InvalidNote); }
      ListedIsNoteText(w.commitments, i2.commitment);
      if !IsNoteText(i2.commitment) { return Err(InvalidNote); }
      var nf1, nf2 := Nullifier(hashes, i1), Nullifier(hashes, i2);
      var witnesses := MergeWitnesses(i1, i2, out.commitment, w.commitments);
      if witnesses.Err? { return Err(witnesses.error); }
      var (insertion, membership1, membership2) := witnesses.value;
      if !w.proofOk { return Err(ProofFailed); }
      var appended := AppendOnce(out.commitment);
      if !w.submitOk { return Err(SubmitFailed); }
      var (currentRoot, leaf, newRoot) := appended.value;
      var request := Append([ToHex32(nf1), ToHex32(nf2)], [out.commitment], currentRoot, newRoot, insertion.leafIndex);
      store.MarkNoteSpent(i1.commitment);
      store.MarkNoteSpent(i2.commitment);
      var merged := Filled(out, w.ciphertext1, newRoot, w.txid, leaf);
      store.Add(merged);
      r := Ok(Done(MergeProof(nf1, nf2, NumberOf(out.commitment), membership1, membership2, insertion),
                   request, Operation.Merge(i1, i2, merged)));
    }

    /** Prove a note against the freshly synced root. */
    method ProveSpend(note: ShieldNote, w: World) returns (r: Result<(string, MembershipWitness), ClientError>)
      requires Valid() && AllCommitments(w.commitments)
      modifies this`tree, this`commitmentIndex
      ensures Valid()
      ensures r.Ok? <==> |w.commitments| <= MAX_LEAVES && Listed(w.commitments, note.commitment) && w.proofOk
      ensures r.Err? ==> r.error == if |w.commitments| > MAX_LEAVES then Full
                                    else if !IsNoteText(note.commitment) then InvalidNote
                                    else if !Listed(w.commitments, note.commitment) then NotOnChain else ProofFailed
      ensures r.Ok? ==> && IsNoteText(note.commitment)
                        && r.value.0 == RootHex(TreeRoot(hashes.two, LeavesOf(w.commitments), TREE_DEPTH))
                        && Proves(hashes.two, LeavesOf(w.commitments), ToLower(note.commitment), r.value.1)
    {
      hide TreeRoot, RootHex, LeavesOf, IsCommitmentText, ToLower, Norm, Listed, IsNoteText, Proves;
      var synced := SyncTree(w.commitments);
      if synced.Err? { return Err(Full); }
      ListedIsNoteText(w.commitments, note.commitment);
      if !IsNoteText(note.commitment) { return Err(InvalidNote); }
      var root := CurrentRootHex();
      var membership := Membership(note, w.commitments);
      if membership.Err? { return Err(membership.error); }
      if !w.proofOk { return Err(ProofFailed); }
      r := Ok((root, membership.value));
    }

    /** Withdraw a whole note to a transparent address. */
    method Withdraw(note: ShieldNote, w: World) returns (r: Result<Done, ClientError>, amountReceived: int)
      requires Valid() && AllCommitments(w.commitments)
      modifies this`tree, this`commitmentIndex, store
      ensures Valid()
      ensures r.Ok? <==> && (note.asset.GetOr(NATIVE).native ==> note.amount >= MIN_WITHDRAWAL)
                         && |w.commitments| <= MAX_LEAVES && Listed(w.commitments, note.commitment) && w.proofOk
                         && w.submitOk
      ensures r.Err? ==> r.error == if note.asset.GetOr(NATIVE).native && note.amount < MIN_WITHDRAWAL then InvalidNote
                                    else if |w.commitments| > MAX_LEAVES then Full
                                    else if !IsNoteText(note.commitment) then InvalidNote
                                    else if !Listed(w.commitments, note.commitment) then NotOnChain
                                    else if !w.proofOk then ProofFailed else SubmitFailed
      ensures r.Err? ==> store.notes == old(store.notes)
      ensures r.Ok? ==> store.notes == Apply(old(store.notes), r.value.op) && WithdrawDone(hashes, w, note, r.value)
      ensures r.Ok? ==> amountReceived == NetOf(note.amount, if note.asset.GetOr(NATIVE).native then 30 else 0)
    {
      hide MarkSpent, TreeRoot, RootHex, Nullifier, LeavesOf, IsCommitmentText, ToLower, Norm, Listed, ToHex32,
           IsNoteText, Proves, NetOf;
      amountReceived := 0;
      var asset := note.asset.GetOr(NATIVE);
      if asset.native && note.amount < MIN_WITHDRAWAL { return Err(InvalidNote), 0; }
      var proved := ProveSpend(note, w);
      if proved.Err? { return Err(proved.error), 0; }
      if !w.submitOk { return Err(SubmitFailed), 0; }
      var (root, membership) := proved.value;
      var nf := Nullifier(hashes, note);
      store.MarkNoteSpent(note.commitment);
      var feeBps := if asset.native then 30 else 0;
      amountReceived := NetOf(note.amount, feeBps);
      r := Ok(Done(WithdrawProof(nf, note.amount, membership), WithdrawRequest(ToHex32(nf), note.amount, root),
                   Operation.Withdraw(note)));
    }

    /** Shield transparent tokens; the note is stored optimistically and removed if the transaction reverts. */
    method Shield(base: int, asset: AssetInfo, owner: OwnerKey, w: World) returns (r: Result<Done, ClientError>)
      requires Valid() && AllCommitments(w.commitments)
      modifies this`tree, this`commitmentIndex, store
      ensures Valid()
      ensures r.Ok? <==> && (asset.native ==> base >= MIN_SHIELD) && asset.active
                         && |w.commitments| + 1 <= MAX_LEAVES && w.proofOk && w.submitOk && !w.reverted
      ensures r.Err? ==> r.error == if !asset.active || (asset.native && base < MIN_SHIELD) then InvalidNote
                                    else if |w.commitments| >= MAX_LEAVES then Full
                                    else if !w.proofOk then ProofFailed
                                    else if !w.submitOk then SubmitFailed else Reverted
      ensures r.Err? && r.error != Reverted ==> store.notes == old(store.notes)
      ensures r == Err(Reverted) ==>
                store.notes == Apply(old(store.notes),
                                     Operation.ShieldReverted(ShieldedNote(hashes, w, base, owner, asset)))
      ensures r.Ok? ==> store.notes == Apply(old(store.notes), r.value.op)
      ensures r.Ok? ==> ShieldDone(hashes, w, base, owner, asset, r.value)
    {
      hide MarkSpent, AddNote, Delete, TreeRoot, RootHex, Nullifier, LeavesOf, IsCommitmentText, LeafOf, NewNote,
           NumberOf, IsNoteText, Appends;
      if asset.native && base < MIN_SHIELD { return Err(InvalidNote); }
      if !asset.active { return Err(InvalidNote); }
      var synced := SyncTree(w.commitments);
      if synced.Err? { return Err(Full); }
      var note := NewNote(hashes, base, owner.sk, owner.pkX, owner.pkY, w.blinding1, asset);
      NewNoteText(hashes, base, owner.sk, owner.pkX, owner.pkY, w.blinding1, asset);
      var currentRoot := w.liveRoot;
      var insertion := InsertionFor(note.commitment);
      if insertion.Err? { return Err(insertion.error); }
      if !w.proofOk { return Err(ProofFailed); }
      var appended := AppendOnce(note.commitment);
      if !w.submitOk { return Err(SubmitFailed); }
      var (_, leafIndex, newRoot) := appended.value;
      var request := Append([], [note.commitment], currentRoot, newRoot, insertion.value.leafIndex);
      var stored := Filled(note, w.ciphertext1, newRoot, w.txid, leafIndex);
      store.Add(stored);
      if w.reverted {
        store.Remove(stored.commitment);
        return Err(Reverted);
      }
      r := Ok(Done(ShieldProof(NumberOf(note.commitment), insertion.value), request, Operation.Shield(stored)));
    }
  }

  lemma NewNoteText(h: Hashes, amount: int, sk: nat, pkX: nat, pkY: nat, blinding: int, asset: AssetInfo)
    ensures var c := NewNote(h, amount, sk, pkX, pkY, blinding, asset).commitment;
            IsCommitmentText(c) && IsNoteText(c)
            && NumberOf(c) == CommitmentOf(h, amount, pkX, pkY, blinding, AssetFieldFor(h, asset))
  {
    NewCommitmentText(CommitmentOf(h, amount, pkX, pkY, blinding, AssetFieldFor(h, asset)));
  }

  lemma TwoLeaves(leaves: seq<Bytes32>, c1: string, c2: string)
    requires IsCommitmentText(c1) && IsCommitmentText(c2)
    ensures leaves + LeavesOf([c1, c2]) == leaves + [LeafOf(c1)] + [LeafOf(c2)]
    ensures leaves + LeavesOf([c1]) == leaves + [LeafOf(c1)]
  {
    assert [c1, c2][..1] == [c1] && [c1][..0] == [];
    assert LeavesOf([c1]) == [LeafOf(c1)];
    assert LeavesOf([c1, c2]) == [LeafOf(c1), LeafOf(c2)];
  }
}
