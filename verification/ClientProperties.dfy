/** What a reader of the published requests, and the owner of the store, can rely on
    (sdk/src/client/STXShield.ts:229-255, 345-525). */
module ClientProperties {
  import opened Results
  import opened Digits
  import opened Hex
  import opened Field
  import opened MerkleSpec
  import opened CommitmentTrees
  import opened JsMaps
  import opened Notes
  import opened Client
  import opened TreeBinding

  /** Two published roots are one transition of one witness. */
  lemma RootsMatch(h: Hashes, before: seq<Bytes32>, c: string, insertion: InsertionNumbers, nullifiers: seq<string>,
                   request: Request)
    requires IsCommitmentText(c) && AppendsOne(h, before, c, insertion, nullifiers, request)
    ensures IsHex(StripPrefix(request.currentRoot)) && IsHex(StripPrefix(request.newRoot))
    ensures RootNumber(request.currentRoot) == insertion.oldRoot && RootNumber(request.newRoot) == insertion.newRoot
    ensures request.leafIndex == insertion.leafIndex == |before| && request.nullifiers == nullifiers
            && request.commitments == [c]
  {
    hide TreeRoot, RootHex, IsCommitmentText, LeafOf, RootNumber;
    RootTextIsNumber(TreeRoot(h.two, before, TREE_DEPTH));
    RootTextIsNumber(TreeRoot(h.two, before + [LeafOf(c)], TREE_DEPTH));
  }

  /** Split: membership root = current root = first old root; the second append starts where the
      first ends and ends at the published root; the slots are consecutive and the first is published. */
  lemma SplitIsChained(h: Hashes, w: World, note: ShieldNote, amounts: seq<int>, owner: OwnerKey, d: Done)
    requires AllCommitments(w.commitments) && |amounts| == 2
    requires SplitDone(h, w, note, amounts, owner, d)
    ensures IsHex(StripPrefix(d.request.currentRoot)) && IsHex(StripPrefix(d.request.newRoot))
    ensures d.proof.membership.merkleRoot == RootNumber(d.request.currentRoot) == d.proof.insertion1.oldRoot
    ensures d.proof.insertion1.newRoot == d.proof.insertion2.oldRoot
    ensures d.proof.insertion2.newRoot == RootNumber(d.request.newRoot)
    ensures d.proof.insertion2.leafIndex == d.proof.insertion1.leafIndex + 1
    ensures d.request.leafIndex == d.proof.insertion1.leafIndex == |w.commitments|
    ensures d.request.nullifiers == [ToHex32(d.proof.nullifier)]
  {
    hide TreeRoot, RootHex, IsCommitmentText, IsNoteText, NewNote, LeavesOf, LeafOf, Nullifier, NumberOf, ToHex32,
         RootNumber;
    var leaves := LeavesOf(w.commitments);
    var asset := note.asset.GetOr(NATIVE);
    var c1 := NewNote(h, amounts[0], owner.sk, owner.pkX, owner.pkY, w.blinding1, asset).commitment;
    var c2 := NewNote(h, amounts[1], owner.sk, owner.pkX, owner.pkY, w.blinding2, asset).commitment;
    NewNoteText(h, amounts[0], owner.sk, owner.pkX, owner.pkY, w.blinding1, asset);
    NewNoteText(h, amounts[1], owner.sk, owner.pkX, owner.pkY, w.blinding2, asset);
    RootTextIsNumber(TreeRoot(h.two, leaves, TREE_DEPTH));
    RootTextIsNumber(TreeRoot(h.two, leaves + [LeafOf(c1)] + [LeafOf(c2)], TREE_DEPTH));
  }

  lemma TransferIsBound(h: Hashes, w: World, input: ShieldNote, base: int, pkX: nat, pkY: nat, asset: AssetInfo,
                        d: Done)
    requires AllCommitments(w.commitments)
    requires TransferDone(h, w, input, base, pkX, pkY, asset, d)
    ensures d.request.Append? && IsHex(StripPrefix(d.request.currentRoot)) && IsHex(StripPrefix(d.request.newRoot))
    ensures d.proof.membership.merkleRoot == RootNumber(d.request.currentRoot) == d.proof.insertion.oldRoot
    ensures RootNumber(d.request.newRoot) == d.proof.insertion.newRoot
    ensures d.request.leafIndex == d.proof.insertion.leafIndex == |w.commitments|
    ensures d.request.nullifiers == [ToHex32(d.proof.nullifier)]
  {
    hide TreeRoot, IsCommitmentText, IsNoteText, NewNote, LeavesOf, LeafOf, Nullifier, NumberOf, ToHex32, RootNumber,
         AppendsOne;
    var c := NewNote(h, base, 0, pkX, pkY, w.blinding1, asset).commitment;
    NewNoteText(h, base, 0, pkX, pkY, w.blinding1, asset);
    var leaves := LeavesOf(w.commitments);
    RootsMatch(h, leaves, c, d.proof.insertion, [ToHex32(Nullifier(h, input))], d.request);
    OldRootIsTreeRoot(h, leaves, c, d.proof.insertion, [ToHex32(Nullifier(h, input))], d.request);
  }

  lemma OldRootIsTreeRoot(h: Hashes, before: seq<Bytes32>, c: string, insertion: InsertionNumbers,
                          nullifiers: seq<string>, request: Request)
    requires IsCommitmentText(c) && AppendsOne(h, before, c, insertion, nullifiers, request)
    ensures insertion.oldRoot == BytesToBig(TreeRoot(h.two, before, TREE_DEPTH)) && request.Append?
  {
    hide TreeRoot, RootHex, IsCommitmentText, IsNoteText, LeafOf, BytesToBig;
  }

  lemma ProvedRoot(p: Poseidon2, leaves: seq<Bytes32>, c: string, m: MembershipWitness)
    requires Proves(p, leaves, c, m)
    ensures m.merkleRoot == BytesToBig(TreeRoot(p, leaves, TREE_DEPTH))
  {
    hide TreeRoot, BytesToBig, IsCommitmentText, IsNoteText, LeafOf;
  }

  lemma MergeIsBound(h: Hashes, w: World, input1: ShieldNote, input2: ShieldNote, owner: OwnerKey, d: Done)
    requires AllCommitments(w.commitments)
    requires MergeDone(h, w, input1, input2, owner, d)
    ensures d.request.Append? && IsHex(StripPrefix(d.request.currentRoot)) && IsHex(StripPrefix(d.request.newRoot))
    ensures d.proof.membership1.merkleRoot == d.proof.membership2.merkleRoot == RootNumber(d.request.currentRoot)
            == d.proof.insertion.oldRoot
    ensures RootNumber(d.request.newRoot) == d.proof.insertion.newRoot
    ensures d.request.leafIndex == d.proof.insertion.leafIndex == |w.commitments|
    ensures d.request.nullifiers == [ToHex32(d.proof.nullifier1), ToHex32(d.proof.nullifier2)]
  {
    hide TreeRoot, IsCommitmentText, IsNoteText, NewNote, LeavesOf, LeafOf, Nullifier, NumberOf, ToHex32, RootNumber,
         AppendsOne, Proves, ToLower, BytesToBig;
    ProvedRoot(h.two, LeavesOf(w.commitments), ToLower(input1.commitment), d.proof.membership1);
    ProvedRoot(h.two, LeavesOf(w.commitments), ToLower(input2.commitment), d.proof.membership2);
    var asset := input1.asset.GetOr(NATIVE);
    var c := NewNote(h, input1.amount + input2.amount, owner.sk, owner.pkX, owner.pkY, w.blinding1, asset).commitment;
    NewNoteText(h, input1.amount + input2.amount, owner.sk, owner.pkX, owner.pkY, w.blinding1, asset);
    var leaves := LeavesOf(w.commitments);
    var nullifiers := [ToHex32(Nullifier(h, input1)), ToHex32(Nullifier(h, input2))];
    RootsMatch(h, leaves, c, d.proof.insertion, nullifiers, d.request);
    OldRootIsTreeRoot(h, leaves, c, d.proof.insertion, nullifiers, d.request);
  }

  lemma WithdrawIsBound(h: Hashes, w: World, note: ShieldNote, d: Done)
    requires AllCommitments(w.commitments) && WithdrawDone(h, w, note, d)
    ensures IsHex(StripPrefix(d.request.root)) && d.proof.membership.merkleRoot == RootNumber(d.request.root)
    ensures d.request.nullifier == ToHex32(d.proof.nullifier) && d.request.amount == d.proof.amount == note.amount
  {
    hide TreeRoot, RootHex, IsCommitmentText, IsNoteText, LeavesOf, Nullifier, NumberOf, ToHex32, RootNumber,
         BytesToBig;
    RootTextIsNumber(TreeRoot(h.two, LeavesOf(w.commitments), TREE_DEPTH));
  }

  /** A shield's current root is read from the registry, not from the synced tree. With `onChain` the leaves
      whose root the registry answered, the published pair is the proved transition if and only if the
      synced commitments agree with them in every slot; for real commitments, if and only if the two lists
      are equal. Or two different trees with one root exhibit a collision. */
  lemma ShieldBoundIffLive(h: Hashes, w: World, base: int, owner: OwnerKey, asset: AssetInfo, d: Done,
                           onChain: seq<Bytes32>)
    requires AllCommitments(w.commitments) && |w.commitments| <= MAX_LEAVES && |onChain| <= MAX_LEAVES
    requires IsHex(StripPrefix(w.liveRoot))
             && RootNumber(w.liveRoot) == BytesToBig(TreeRoot(h.two, onChain, TREE_DEPTH))
    requires ShieldDone(h, w, base, owner, asset, d)
    ensures d.request.Append? && IsHex(StripPrefix(d.request.newRoot))
    ensures RootNumber(d.request.newRoot) == d.proof.insertion.newRoot
    ensures d.request.leafIndex == d.proof.insertion.leafIndex == |w.commitments|
    ensures var synced := LeavesOf(w.commitments);
            match RootCollision(h.two, synced, onChain, TREE_DEPTH)
            case Some(x) => IsCollision(h.two, x)
            case None =>
              var bound := RootNumber(d.request.currentRoot) == d.proof.insertion.oldRoot;
              && (bound <==> SameAsFields(Slots(synced, 0, MAX_LEAVES), Slots(onChain, 0, MAX_LEAVES)))
              && (RealCommitments(synced) && RealCommitments(onChain) ==> (bound <==> synced == onChain))
  {
    hide TreeRoot, RootHex, IsCommitmentText, IsNoteText, NewNote, LeavesOf, LeafOf, NumberOf, RootNumber, BytesToBig,
         ShieldedNote, RootCollision, SameAsFields, Slots, RealCommitments, Bytes32ToField;
    var c := NewNote(h, base, owner.sk, owner.pkX, owner.pkY, w.blinding1, asset).commitment;
    NewNoteText(h, base, owner.sk, owner.pkX, owner.pkY, w.blinding1, asset);
    RootTextIsNumber(TreeRoot(h.two, LeavesOf(w.commitments) + [LeafOf(c)], TREE_DEPTH));
    MaxLeavesIsFullDepth();
    SameRootNumber(h.two, LeavesOf(w.commitments), onChain, TREE_DEPTH);
    RootsBindLists(h.two, LeavesOf(w.commitments), onChain, TREE_DEPTH);
  }

  // ---- what is proved and published, in terms of the hashes ----

  /** A text of 32 bytes denotes a number. */
  ghost predicate Denotes(text: string, n: nat)
  {
    IsNoteText(text) && ParseHex(text[2..]) == n
  }

  /** A text denotes the commitment to an amount under a public key and a blinding: four inputs for the native asset,
      and for another one a second hash that binds the number of its token. */
  ghost predicate CommitsTo(h: Hashes, text: string, amount: int, pkX: nat, pkY: nat, blinding: int, asset: AssetInfo)
  {
    var inner, field := h.four(amount, pkX, pkY, blinding), BytesVal(h.digest(asset.token)[1..]);
    Denotes(text, if asset.native || field == 0 then inner else h.two(inner, field))
  }

  /** A text denotes the nullifier of a note: the hash of its commitment and its spending key, in this order. */
  ghost predicate Nullifies(h: Hashes, text: string, note: ShieldNote)
  {
    IsNoteText(note.commitment) && Denotes(text, h.two(ParseHex(note.commitment[2..]), note.secret.ownerSk))
  }

  lemma NewNoteCommits(h: Hashes, amount: int, sk: nat, pkX: nat, pkY: nat, blinding: int, asset: AssetInfo)
    ensures var note := NewNote(h, amount, sk, pkX, pkY, blinding, asset);
            && CommitsTo(h, note.commitment, amount, pkX, pkY, blinding, asset)
            && note.amount == amount && note.asset == Some(asset) && !note.spent
            && note.secret.ownerSk == sk && note.secret.ownerPkX == pkX && note.secret.ownerPkY == pkY
            && note.secret.blinding == blinding
            && note.secret.assetId == (if asset.native then None else Some(asset.id))
  {
    hide ParseHex, ToHex32, BytesVal, IsNoteText;
    AssetFieldBelowModulus(h, asset.token);
    NewCommitmentText(CommitmentOf(h, amount, pkX, pkY, blinding, AssetFieldFor(h, asset)));
  }

  lemma NullifierText(h: Hashes, note: ShieldNote)
    requires IsNoteText(note.commitment)
    ensures Nullifies(h, ToHex32(Nullifier(h, note)), note)
    ensures Nullifier(h, note) == h.two(ParseHex(note.commitment[2..]), note.secret.ownerSk)
  {
    hide ParseHex, ToHex32;
    NewCommitmentText(Nullifier(h, note));
  }

  /** An output of one's own or of a recipient, as it is kept: the value asked for, under the key it was made for. */
  ghost predicate Holds(note: ShieldNote, amount: int, sk: nat, pkX: nat, pkY: nat, blinding: int, asset: AssetInfo)
  {
    && note.amount == amount && note.asset == Some(asset) && !note.spent
    && note.secret.ownerSk == sk && note.secret.ownerPkX == pkX && note.secret.ownerPkY == pkY
    && note.secret.blinding == blinding && note.secret.assetId == (if asset.native then None else Some(asset.id))
  }

  lemma SplitInHashes(h: Hashes, w: World, note: ShieldNote, amounts: seq<int>, owner: OwnerKey, d: Done)
    requires AllCommitments(w.commitments) && |amounts| == 2 && SplitDone(h, w, note, amounts, owner, d)
    ensures d.request.Append? && |d.request.nullifiers| == 1 && |d.request.commitments| == 2
    ensures Nullifies(h, d.request.nullifiers[0], note) && Denotes(d.request.nullifiers[0], d.proof.nullifier)
    ensures var asset := note.asset.GetOr(NATIVE);
            && CommitsTo(h, d.request.commitments[0], amounts[0], owner.pkX, owner.pkY, w.blinding1, asset)
            && CommitsTo(h, d.request.commitments[1], amounts[1], owner.pkX, owner.pkY, w.blinding2, asset)
            && Denotes(d.request.commitments[0], d.proof.commitment1)
            && Denotes(d.request.commitments[1], d.proof.commitment2)
    ensures var asset, n := note.asset.GetOr(NATIVE), |w.commitments|;
            && d.op.Split? && d.op.input == note
            && Holds(d.op.out1, amounts[0], owner.sk, owner.pkX, owner.pkY, w.blinding1, asset)
            && Holds(d.op.out2, amounts[1], owner.sk, owner.pkX, owner.pkY, w.blinding2, asset)
            && d.op.out1.commitment == d.request.commitments[0] && d.op.out2.commitment == d.request.commitments[1]
            && d.op.out1.secret.leafIndex == Some(n) && d.op.out2.secret.leafIndex == Some(n + 1)
            && d.op.out1.root == d.op.out2.root == d.request.newRoot && d.op.out1.txid == d.op.out2.txid == w.txid
            && d.op.out1.ciphertext == w.ciphertext1 && d.op.out2.ciphertext == w.ciphertext2
  {
    hide TreeRoot, RootHex, IsCommitmentText, IsNoteText, NewNote, LeavesOf, LeafOf, ToHex32, Nullifier, ParseHex,
         Chained, CommitsTo, AllCommitments;
    var asset := note.asset.GetOr(NATIVE);
    NewNoteCommits(h, amounts[0], owner.sk, owner.pkX, owner.pkY, w.blinding1, asset);
    NewNoteCommits(h, amounts[1], owner.sk, owner.pkX, owner.pkY, w.blinding2, asset);
    NewNoteText(h, amounts[0], owner.sk, owner.pkX, owner.pkY, w.blinding1, asset);
    NewNoteText(h, amounts[1], owner.sk, owner.pkX, owner.pkY, w.blinding2, asset);
    NullifierText(h, note);
  }

  lemma TransferInHashes(h: Hashes, w: World, input: ShieldNote, base: int, pkX: nat, pkY: nat, asset: AssetInfo,
                         d: Done)
    requires AllCommitments(w.commitments) && TransferDone(h, w, input, base, pkX, pkY, asset, d)
    ensures d.request.Append? && |d.request.nullifiers| == 1 && |d.request.commitments| == 1
    ensures Nullifies(h, d.request.nullifiers[0], input) && Denotes(d.request.nullifiers[0], d.proof.nullifier)
    ensures CommitsTo(h, d.request.commitments[0], base, pkX, pkY, w.blinding1, asset)
    ensures Denotes(d.request.commitments[0], d.proof.newCommitment) && d.op == Operation.Transfer(input)
  {
    hide TreeRoot, RootHex, IsCommitmentText, IsNoteText, NewNote, LeavesOf, LeafOf, ToHex32, Nullifier, ParseHex,
         Proves, Appends, CommitsTo, AllCommitments;
    NewNoteCommits(h, base, 0, pkX, pkY, w.blinding1, asset);
    NewNoteText(h, base, 0, pkX, pkY, w.blinding1, asset);
    NullifierText(h, input);
  }

  lemma MergeInHashes(h: Hashes, w: World, input1: ShieldNote, input2: ShieldNote, owner: OwnerKey, d: Done)
    requires AllCommitments(w.commitments) && MergeDone(h, w, input1, input2, owner, d)
    ensures d.request.Append? && |d.request.nullifiers| == 2 && |d.request.commitments| == 1
    ensures Nullifies(h, d.request.nullifiers[0], input1) && Denotes(d.request.nullifiers[0], d.proof.nullifier1)
    ensures Nullifies(h, d.request.nullifiers[1], input2) && Denotes(d.request.nullifiers[1], d.proof.nullifier2)
    ensures var asset, amount := input1.asset.GetOr(NATIVE), input1.amount + input2.amount;
            && CommitsTo(h, d.request.commitments[0], amount, owner.pkX, owner.pkY, w.blinding1, asset)
            && Denotes(d.request.commitments[0], d.proof.commitment)
            && d.op.Merge? && d.op.input1 == input1 && d.op.input2 == input2
            && Holds(d.op.out, amount, owner.sk, owner.pkX, owner.pkY, w.blinding1, asset)
            && d.op.out.commitment == d.request.commitments[0] && d.op.out.secret.leafIndex == Some(|w.commitments|)
            && d.op.out.root == d.request.newRoot && d.op.out.txid == w.txid && d.op.out.ciphertext == w.ciphertext1
  {
    hide TreeRoot, RootHex, IsCommitmentText, IsNoteText, NewNote, LeavesOf, LeafOf, ToHex32, Nullifier, ParseHex,
         Proves, Appends, CommitsTo, AllCommitments;
    var asset, amount := input1.asset.GetOr(NATIVE), input1.amount + input2.amount;
    NewNoteCommits(h, amount, owner.sk, owner.pkX, owner.pkY, w.blinding1, asset);
    NewNoteText(h, amount, owner.sk, owner.pkX, owner.pkY, w.blinding1, asset);
    NullifierText(h, input1);
    NullifierText(h, input2);
  }

  lemma WithdrawInHashes(h: Hashes, w: World, note: ShieldNote, d: Done)
    requires AllCommitments(w.commitments) && WithdrawDone(h, w, note, d)
    ensures d.request.WithdrawRequest? && d.request.amount == note.amount
    ensures Nullifies(h, d.request.nullifier, note) && Denotes(d.request.nullifier, d.proof.nullifier)
  {
    hide TreeRoot, RootHex, IsCommitmentText, IsNoteText, LeavesOf, ToHex32, Nullifier, ParseHex, Proves,
         AllCommitments;
    NullifierText(h, note);
  }

  lemma ShieldInHashes(h: Hashes, w: World, base: int, owner: OwnerKey, asset: AssetInfo, d: Done)
    requires AllCommitments(w.commitments) && ShieldDone(h, w, base, owner, asset, d)
    ensures d.request.Append? && d.request.nullifiers == [] && |d.request.commitments| == 1
    ensures CommitsTo(h, d.request.commitments[0], base, owner.pkX, owner.pkY, w.blinding1, asset)
    ensures Denotes(d.request.commitments[0], d.proof.commitment)
    ensures && d.op.Shield? && Holds(d.op.note, base, owner.sk, owner.pkX, owner.pkY, w.blinding1, asset)
            && d.op.note.commitment == d.request.commitments[0] && d.op.note.secret.leafIndex == Some(|w.commitments|)
            && d.op.note.root == d.request.newRoot && d.op.note.txid == w.txid && d.op.note.ciphertext == w.ciphertext1
  {
    hide TreeRoot, RootHex, IsCommitmentText, IsNoteText, NewNote, LeavesOf, LeafOf, ToHex32, ParseHex, Appends,
         CommitsTo, AllCommitments;
    NewNoteCommits(h, base, owner.sk, owner.pkX, owner.pkY, w.blinding1, asset);
    NewNoteText(h, base, owner.sk, owner.pkX, owner.pkY, w.blinding1, asset);
  }

  // ---- what nullifiers and commitments bind ----

  /** Two different pairs with one hash. */
  ghost predicate TwoPreimages(p: Poseidon2, a: nat, b: nat, c: nat, d: nat)
  {
    (a, b) != (c, d) && p(a, b) == p(c, d)
  }

  /** One published nullifier spends one note: two notes it nullifies have one commitment number and one spending key,
      or they exhibit a collision. And a note has one nullifier, however often it is spent. */
  lemma NullifierBinds(h: Hashes, text: string, text': string, a: ShieldNote, b: ShieldNote)
    requires Nullifies(h, text, a) && Nullifies(h, text', b)
    ensures ParseHex(text[2..]) == ParseHex(text'[2..]) ==>
              || (ParseHex(a.commitment[2..]) == ParseHex(b.commitment[2..]) && a.secret.ownerSk == b.secret.ownerSk)
              || TwoPreimages(h.two, ParseHex(a.commitment[2..]), a.secret.ownerSk, ParseHex(b.commitment[2..]),
                              b.secret.ownerSk)
    ensures ParseHex(a.commitment[2..]) == ParseHex(b.commitment[2..]) && a.secret.ownerSk == b.secret.ownerSk ==>
              ParseHex(text[2..]) == ParseHex(text'[2..])
  {
    hide ParseHex, IsNoteText;
  }

  /** One commitment is to one amount, key, blinding and asset number. Otherwise it is a collision of the four-input
      hash,
      one of the two-input hash, or a native commitment that is also an asset-bound one. */
  lemma CommitmentBinds(h: Hashes, text: string, amount: int, pkX: nat, pkY: nat, blinding: int, asset: AssetInfo,
                        amount': int, pkX': nat, pkY': nat, blinding': int, asset': AssetInfo)
    requires CommitsTo(h, text, amount, pkX, pkY, blinding, asset)
    requires CommitsTo(h, text, amount', pkX', pkY', blinding', asset')
    ensures var field := if asset.native then 0 else BytesVal(h.digest(asset.token)[1..]);
            var field' := if asset'.native then 0 else BytesVal(h.digest(asset'.token)[1..]);
            var x, y := h.four(amount, pkX, pkY, blinding), h.four(amount', pkX', pkY', blinding');
            || ((amount, pkX, pkY, blinding) == (amount', pkX', pkY', blinding') && field == field')
            || ((amount, pkX, pkY, blinding) != (amount', pkX', pkY', blinding') && x == y)
            || (field != 0 && field' != 0 && TwoPreimages(h.two, x, field, y, field'))
            || (field == 0 && field' != 0 && x == h.two(y, field'))
            || (field != 0 && field' == 0 && h.two(x, field) == y)
  {
    hide ParseHex, IsNoteText, BytesVal;
  }

  // ---- the next synchronisation ----

  lemma {:induction false} LeavesOfAppend(a: seq<string>, b: seq<string>)
    requires AllCommitments(a) && AllCommitments(b)
    ensures AllCommitments(a + b) && LeavesOf(a + b) == LeavesOf(a) + LeavesOf(b)
  {
    hide IsCommitmentText, IsNoteText, LeafOf;
    if b == [] {
      assert a + b == a;
    } else {
      var n := |b| - 1;
      LeavesOfAppend(a, b[..n]);
      assert (a + b)[..|a + b| - 1] == a + b[..n];
    }
  }

  /** Once the chain lists the two outputs of a split where the request said, the next sync computes
      exactly the published root. */
  lemma NextSyncAgrees(h: Hashes, w: World, note: ShieldNote, amounts: seq<int>, owner: OwnerKey, d: Done)
    requires AllCommitments(w.commitments) && |amounts| == 2
    requires SplitDone(h, w, note, amounts, owner, d)
    ensures AllCommitments(w.commitments + d.request.commitments)
    ensures d.request.newRoot == RootHex(TreeRoot(h.two, LeavesOf(w.commitments + d.request.commitments), TREE_DEPTH))
  {
    hide TreeRoot, RootHex, IsCommitmentText, IsNoteText, NewNote, LeafOf, Nullifier, NumberOf, ToHex32, Proves,
         Appends, LeavesOf;
    var asset := note.asset.GetOr(NATIVE);
    var c1 := NewNote(h, amounts[0], owner.sk, owner.pkX, owner.pkY, w.blinding1, asset).commitment;
    var c2 := NewNote(h, amounts[1], owner.sk, owner.pkX, owner.pkY, w.blinding2, asset).commitment;
    NewNoteText(h, amounts[0], owner.sk, owner.pkX, owner.pkY, w.blinding1, asset);
    NewNoteText(h, amounts[1], owner.sk, owner.pkX, owner.pkY, w.blinding2, asset);
    TwoLeaves(LeavesOf(w.commitments), c1, c2);
    LeavesOfAppend(w.commitments, [c1, c2]);
  }

  // ---- conservation, tied to what the operations return ----

  lemma SplitIsProper(h: Hashes, w: World, note: ShieldNote, amounts: seq<int>, owner: OwnerKey, d: Done, m: Store)
    requires AllCommitments(w.commitments) && |amounts| == 2
    requires SplitDone(h, w, note, amounts, owner, d) && amounts[0] + amounts[1] == note.amount
    requires StoredUnspent(m, note)
    requires Get(m, d.op.out1.commitment).None? && Get(m, d.op.out2.commitment).None?
             && d.op.out1.commitment != d.op.out2.commitment
    ensures Proper(m, d.op)
  {
    hide IsCommitmentText, IsNoteText, LeavesOf, LeafOf, Nullifier, NumberOf, ToHex32, Chained, CommitmentOf;
  }

  lemma MergeIsProper(h: Hashes, w: World, input1: ShieldNote, input2: ShieldNote, owner: OwnerKey, d: Done, m: Store)
    requires AllCommitments(w.commitments)
    requires MergeDone(h, w, input1, input2, owner, d) && SameAsset(input2.asset, input1.asset.GetOr(NATIVE))
    requires StoredUnspent(m, input1) && StoredUnspent(m, input2) && input1.commitment != input2.commitment
    requires Get(m, d.op.out.commitment).None?
    ensures Proper(m, d.op)
  {
    hide IsCommitmentText, IsNoteText, LeavesOf, LeafOf, Nullifier, NumberOf, ToHex32, AppendsOne, Proves, CommitmentOf;
  }

  /** A transfer takes its note from the store itself: each balance drops by exactly the amount sent. */
  lemma TransferSubtracts(m: Store, base: int, asset: AssetInfo, id: nat)
    requires WellFormed(m) && PickNote(Unspent(m), base, asset).Some?
    ensures var op := Operation.Transfer(PickNote(Unspent(m), base, asset).value);
            Proper(m, op) && Balance(Apply(m, op), id) == Balance(m, id) - (if id == asset.id then base else 0)
  {
    var note := PickNote(Unspent(m), base, asset).value;
    UnspentIsStored(m, note);
    OperationConserves(m, Operation.Transfer(note), id);
  }

  /** A landed deposit adds exactly its amount, to its own asset; the same deposit reverted changes no balance. */
  lemma ShieldAdds(h: Hashes, w: World, base: int, owner: OwnerKey, asset: AssetInfo, d: Done, m: Store, id: nat)
    requires AllCommitments(w.commitments) && ShieldDone(h, w, base, owner, asset, d)
    requires Get(m, ShieldedNote(h, w, base, owner, asset).commitment).None?
    ensures Proper(m, d.op) && Balance(Apply(m, d.op), id) == Balance(m, id) + (if id == asset.id then base else 0)
    ensures Apply(m, Operation.ShieldReverted(ShieldedNote(h, w, base, owner, asset))) == m
  {
    hide Balance, Apply, TreeRoot, RootHex, LeavesOf, LeafOf, IsCommitmentText, IsNoteText, CommitmentOf, Appends,
         NumberOf, ToHex32;
    OperationConserves(m, d.op, id);
    RevertRestores(m, ShieldedNote(h, w, base, owner, asset));
  }

  /** A withdrawal takes exactly the published amount from its note's asset. */
  lemma WithdrawSubtracts(h: Hashes, w: World, note: ShieldNote, d: Done, m: Store, id: nat)
    requires AllCommitments(w.commitments) && WithdrawDone(h, w, note, d)
    requires StoredUnspent(m, note)
    ensures Balance(Apply(m, d.op), id) == Balance(m, id) - (if id == AssetIdOf(note) then d.request.amount else 0)
  {
    hide Balance, Apply, TreeRoot, RootHex, LeavesOf, LeafOf, IsCommitmentText, IsNoteText, CommitmentOf, NumberOf,
         ToHex32;
    OperationConserves(m, d.op, id);
  }

  // ---- notes whose commitment text lacks the prefix ----

  /** `membership` lower-cases the note's commitment but does not add the prefix the index has
      (sdk/src/client/STXShield.ts:221,
       232): a text is found if and only if it has a prefix of either case and the chain
      lists a text of the same number. A note stored without a prefix is never found, whatever the chain lists. */
  lemma FoundIffPrefixed(commitments: seq<string>, c: string)
    requires AllCommitments(commitments)
    ensures Listed(commitments, c)
            <==> && IsNoteText(c)
                 && exists i :: 0 <= i < |commitments| && ParseHex(StripPrefix(commitments[i])) == ParseHex(c[2..])
  {
    hide IsHex, Norm, ToLower, StripPrefix, ParseHex;
    forall i | 0 <= i < |commitments|
      ensures Norm(commitments[i]) == ToLower(c)
              <==> IsNoteText(c) && ParseHex(StripPrefix(commitments[i])) == ParseHex(c[2..])
    {
      FoundBySameDigits(commitments[i], c);
      if IsNoteText(c) { SameLowerSameNumber(StripPrefix(commitments[i]), c[2..]); }
    }
    ListedIsNoteText(commitments, c);
  }

  lemma SameLowerSameNumber(s: string, t: string)
    requires IsHex(s) && IsHex(t) && |s| == |t|
    ensures ToLower(s) == ToLower(t) <==> ParseHex(s) == ParseHex(t)
  {
    LowerKeepsHex(s);
    LowerKeepsHex(t);
    if ParseHex(s) == ParseHex(t) {
      ValInjective(DigitsOf(s), DigitsOf(t), 16);
      SameDigitsSameLower(s, t);
    }
  }

  lemma SameDigitsSameLower(s: string, t: string)
    requires IsHex(s) && IsHex(t) && DigitsOf(s) == DigitsOf(t)
    ensures ToLower(s) == ToLower(t)
  {
    LowerKeepsHex(s);
    LowerKeepsHex(t);
    assert |DigitsOf(s)| == |s| && |DigitsOf(t)| == |t|;
    forall i | 0 <= i < |s| ensures LowerChar(s[i]) == LowerChar(t[i]) {
      assert HexVal(s[i]) == DigitsOf(s)[i] == DigitsOf(t)[i] == HexVal(t[i]);
    }
  }

  /** The same commitment with its prefix is found, and without it is not. */
  lemma UnprefixedIsLost(commitments: seq<string>, x: FieldElement)
    requires AllCommitments(commitments) && ToHex32(x) in commitments
    ensures Listed(commitments, ToHex32(x)) && !Listed(commitments, ToHex32(x)[2..])
  {
    NewCommitmentText(x);
    var i :| 0 <= i < |commitments| && commitments[i] == ToHex32(x);
    assert Norm(commitments[i]) == ToLower(ToHex32(x));
    FoundIffPrefixed(commitments, ToHex32(x)[2..]);
  }
}
