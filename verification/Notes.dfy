/** Shielded notes, their commitments, and the local note store
    (sdk/src/types/note.ts, sdk/src/crypto/commitments.ts, sdk/src/notes/index.ts:58-86). */
module Notes {
  import opened Results
  import opened Field
  import opened Digits
  import opened Hex
  import opened JsMaps
  import PublicInputs

  /** Amounts and blindings come out of payloads as any integers. */
  type Poseidon4 = (int, nat, nat, int) -> FieldElement

  /** The uninterpreted hashes: Poseidon of two and of four inputs, and the principal digest. */
  datatype Hashes = Hashes(two: Poseidon2, four: Poseidon4, digest: PublicInputs.PrincipalDigest)

  datatype AssetInfo = AssetInfo(id: nat, token: string, active: bool, native: bool)

  /** The synthesized native asset of a note that names none. */
  const NATIVE := AssetInfo(0, "", true, true)

  datatype NoteSecret = NoteSecret(
    ownerSk: nat, ownerPkX: nat, ownerPkY: nat, blinding: int,
    leafIndex: Option<nat>, assetId: Option<nat>, assetField: Option<nat>)

  datatype ShieldNote = ShieldNote(
    commitment: string, ciphertext: string, root: string, txid: string,
    amount: int, asset: Option<AssetInfo>, spent: bool, secret: NoteSecret)

  /** An absent asset field, or a zero one, selects the native form. */
  function CommitmentOf(h: Hashes, amount: int, ownerPkX: nat, ownerPkY: nat, blinding: int,
                        assetField: Option<nat>): FieldElement
  {
    var inner := h.four(amount, ownerPkX, ownerPkY, blinding);
    if assetField.Some? && assetField.value != 0 then h.two(inner, assetField.value) else inner
  }

  function NullifierOf(h: Hashes, commitment: nat, ownerSk: nat): FieldElement
  {
    h.two(commitment, ownerSk)
  }

  function AssetFieldOf(h: Hashes, token: string): nat
  {
    BytesToBig(PublicInputs.FePrincipal(h.digest, token))
  }

  function AssetFieldFor(h: Hashes, asset: AssetInfo): Option<nat>
  {
    if asset.native then None else Some(AssetFieldOf(h, asset.token))
  }

  /** Zeroing the top byte of a digest is what keeps an asset's number a field element. */
  lemma AssetFieldBelowModulus(h: Hashes, token: string)
    ensures AssetFieldOf(h, token) == BytesVal(h.digest(token)[1..]) < BN254_FIELD_MODULUS
  {
    hide BytesVal;
    var rest := h.digest(token)[1..];
    BytesToBigIsValue([0] + rest);
    TopByteGone(rest, 31);
  }

  lemma TopByteGone(rest: Bytes, n: nat)
    requires |rest| == n == 31
    ensures BytesVal([0] + rest) == BytesVal(rest) < BN254_FIELD_MODULUS
  {
    LeadingZeros(1, rest, 256);
    assert Zeros(1) == [0];
    ValBound(rest, 256);
    PublicInputs.LimitIsPower(n + 1);
    assert Pow(256, n + 1) == Pow(256, n) * 256;
  }

  /** The spending key pair of a user. */
  datatype OwnerKey = OwnerKey(sk: nat, pkX: nat, pkY: nat)

  /** A note for a public key, before its ciphertext, root and transaction are known. The spending
      key is the owner's for a note to oneself and zero for a note to someone else. */
  function NewNote(h: Hashes, amount: int, ownerSk: nat, pkX: nat, pkY: nat, blinding: int,
                   asset: AssetInfo): ShieldNote
  {
    var field := AssetFieldFor(h, asset);
    var c := CommitmentOf(h, amount, pkX, pkY, blinding, field);
    ShieldNote(ToHex32(c), "", "", "", amount, Some(asset), false,
               NoteSecret(ownerSk, pkX, pkY, blinding, None, if asset.native then None else Some(asset.id), field))
  }

  /** The asset uid a note counts toward; a note without an asset is native STX. */
  function AssetIdOf(note: ShieldNote): nat
  {
    if note.asset.Some? then note.asset.value.id else 0
  }

  predicate SameAsset(a: Option<AssetInfo>, b: AssetInfo)
  {
    (if a.Some? then a.value.id else 0) == b.id
  }

  type Store = JsMap<string, ShieldNote>

  // What each store method does to the map.

  function AddNote(m: Store, note: ShieldNote): Store
  {
    var prev := Get(m, note.commitment);
    Set(m, note.commitment, note.(spent := note.spent || (prev.Some? && prev.value.spent)))
  }

  function MarkSpent(m: Store, commitment: string): Store
  {
    var n := Get(m, commitment);
    if n.Some? then Set(m, commitment, n.value.(spent := true)) else m
  }

  function Unspent(m: Store): seq<ShieldNote>
  {
    if m == [] then []
    else
      var last := m[|m| - 1].value;
      Unspent(m[..|m| - 1]) + (if last.spent then [] else [last])
  }

  class NoteStore {
    var notes: Store

    constructor ()
      ensures notes == []
    {
      notes := [];
    }

    method Add(note: ShieldNote)
      modifies this
      ensures notes == AddNote(old(notes), note)
    {
      var prev := Get(notes, note.commitment);
      var spent := note.spent || (prev.Some? && prev.value.spent);
      notes := Set(notes, note.commitment, if spent == note.spent then note else note.(spent := spent));
    }

    method MarkNoteSpent(commitment: string)
      modifies this
      ensures notes == MarkSpent(old(notes), commitment)
    {
      var n := Get(notes, commitment);
      if n.Some? { notes := Set(notes, commitment, n.value.(spent := true)); }
    }

    method Remove(commitment: string)
      modifies this
      ensures notes == Delete(old(notes), commitment)
    {
      notes := Delete(notes, commitment);
    }

    /** The unspent notes, in insertion order. */
    method UnspentNotes() returns (r: seq<ShieldNote>)
      ensures r == Unspent(notes)
    {
      r := [];
      for i := 0 to |notes|
        invariant r == Unspent(notes[..i])
      {
        assert notes[..i + 1][..i] == notes[..i];
        if !notes[i].value.spent { r := r + [notes[i].value]; }
      }
      assert notes[..|notes|] == notes;
    }
  }

  // Value in the store.

  function Worth(note: Option<ShieldNote>, asset: nat): int
  {
    if note.Some? && !note.value.spent && AssetIdOf(note.value) == asset then note.value.amount else 0
  }

  /** Sum of the unspent notes of one asset. */
  function Balance(m: Store, asset: nat): int
  {
    if m == [] then 0 else Worth(Some(m[0].value), asset) + Balance(m[1..], asset)
  }

  lemma {:induction false} BalanceSet(m: Store, k: string, v: ShieldNote, asset: nat)
    ensures Balance(Set(m, k, v), asset) == Balance(m, asset) - Worth(Get(m, k), asset) + Worth(Some(v), asset)
  {
    if m == [] {
      assert Set(m, k, v)[1..] == [];
    } else {
      if m[0].key != k { BalanceSet(m[1..], k, v, asset); }
      assert Set(m, k, v)[1..] == if m[0].key == k then m[1..] else Set(m[1..], k, v);
    }
  }

  /** Completed client operations, by what they do to the store. */
  datatype Operation =
    | Shield(note: ShieldNote)
    | ShieldReverted(note: ShieldNote)
    | Transfer(input: ShieldNote)
    | Split(input: ShieldNote, out1: ShieldNote, out2: ShieldNote)
    | Merge(input1: ShieldNote, input2: ShieldNote, out: ShieldNote)
    | Withdraw(input: ShieldNote)
    | Discover(found: seq<ShieldNote>)

  function AddAll(m: Store, found: seq<ShieldNote>): Store
  {
    if found == [] then m else AddNote(AddAll(m, found[..|found| - 1]), found[|found| - 1])
  }

  function Apply(m: Store, op: Operation): Store
  {
    match op
    case Shield(note) => AddNote(m, note)
    case ShieldReverted(note) => Delete(AddNote(m, note), note.commitment)
    case Transfer(input) => MarkSpent(m, input.commitment)
    case Split(input, out1, out2) => AddNote(AddNote(MarkSpent(m, input.commitment), out1), out2)
    case Merge(input1, input2, out) => AddNote(MarkSpent(MarkSpent(m, input1.commitment), input2.commitment), out)
    case Withdraw(input) => MarkSpent(m, input.commitment)
    case Discover(found) => AddAll(m, found)
  }

  function Run(m: Store, ops: seq<Operation>): Store
  {
    if ops == [] then m else Apply(Run(m, ops[..|ops| - 1]), ops[|ops| - 1])
  }

  ghost predicate StoredUnspent(m: Store, note: ShieldNote)
  {
    Get(m, note.commitment) == Some(note) && !note.spent
  }

  ghost predicate Fresh(m: Store, note: ShieldNote)
  {
    Get(m, note.commitment).None? && !note.spent
  }

  /** Inputs are distinct unspent notes of the store, outputs are new, amounts and assets are those
      the operation computes. Discovered notes are new to the store or of the value it holds. */
  ghost predicate Proper(m: Store, op: Operation)
  {
    match op
    case Shield(note) => Fresh(m, note)
    case ShieldReverted(note) => Fresh(m, note)
    case Transfer(input) => StoredUnspent(m, input)
    case Split(input, out1, out2) =>
      && StoredUnspent(m, input) && Fresh(m, out1) && Fresh(m, out2) && out1.commitment != out2.commitment
      && out1.amount + out2.amount == input.amount
      && AssetIdOf(out1) == AssetIdOf(out2) == AssetIdOf(input)
    case Merge(input1, input2, out) =>
      && StoredUnspent(m, input1) && StoredUnspent(m, input2) && input1.commitment != input2.commitment
      && Fresh(m, out) && out.amount == input1.amount + input2.amount
      && AssetIdOf(out) == AssetIdOf(input1) == AssetIdOf(input2)
    case Withdraw(input) => StoredUnspent(m, input)
    case Discover(found) => ProperFound(m, found)
  }

  ghost predicate ProperFound(m: Store, found: seq<ShieldNote>)
  {
    found == [] ||
    var rest, last := found[..|found| - 1], found[|found| - 1];
    ProperFound(m, rest) && (Get(AddAll(m, rest), last.commitment).None? || Rediscovered(AddAll(m, rest), last))
  }

  /** A found note whose value the store already holds, whichever of the two knows that it is spent. */
  ghost predicate Rediscovered(m: Store, note: ShieldNote)
  {
    var prev := Get(m, note.commitment);
    prev.Some? && prev.value.amount == note.amount && AssetIdOf(prev.value) == AssetIdOf(note)
  }

  /** What the notes a discovery finds for the first time are worth. */
  function Incoming(m: Store, found: seq<ShieldNote>, asset: nat): int
  {
    if found == [] then 0
    else
      var rest, last := found[..|found| - 1], found[|found| - 1];
      Incoming(m, rest, asset) + (if Get(AddAll(m, rest), last.commitment).None? then Worth(Some(last), asset) else 0)
  }

  /** What the held notes are worth that a discovery is the first to report spent, as after a spend on another
      device. */
  function NewlySpent(m: Store, found: seq<ShieldNote>, asset: nat): int
  {
    if found == [] then 0
    else
      var rest, last := found[..|found| - 1], found[|found| - 1];
      NewlySpent(m, rest, asset) + (if last.spent then Worth(Get(AddAll(m, rest), last.commitment), asset) else 0)
  }

  /** What an operation adds to the balance of one asset. */
  function Delta(m: Store, op: Operation, asset: nat): int
  {
    match op
    case Shield(note) => if AssetIdOf(note) == asset then note.amount else 0
    case ShieldReverted(_) => 0
    case Transfer(input) => if AssetIdOf(input) == asset then 0 - input.amount else 0
    case Split(_, _, _) => 0
    case Merge(_, _, _) => 0
    case Withdraw(input) => if AssetIdOf(input) == asset then 0 - input.amount else 0
    case Discover(found) => Incoming(m, found, asset) - NewlySpent(m, found, asset)
  }

  function TotalDelta(m: Store, ops: seq<Operation>, asset: nat): int
  {
    if ops == [] then 0
    else
      var rest := ops[..|ops| - 1];
      TotalDelta(m, rest, asset) + Delta(Run(m, rest), ops[|ops| - 1], asset)
  }

  ghost predicate ProperRun(m: Store, ops: seq<Operation>)
  {
    ops == [] || (ProperRun(m, ops[..|ops| - 1]) && Proper(Run(m, ops[..|ops| - 1]), ops[|ops| - 1]))
  }

  lemma BalanceAddFresh(m: Store, note: ShieldNote, asset: nat)
    requires Fresh(m, note)
    ensures Balance(AddNote(m, note), asset) == Balance(m, asset) + Worth(Some(note), asset)
  {
    BalanceSet(m, note.commitment, note, asset);
  }

  lemma BalanceSpend(m: Store, note: ShieldNote, asset: nat)
    requires StoredUnspent(m, note)
    ensures Balance(MarkSpent(m, note.commitment), asset) == Balance(m, asset) - Worth(Some(note), asset)
  {
    BalanceSet(m, note.commitment, note.(spent := true), asset);
  }

  lemma GetAfterSpend(m: Store, c: string, k: string)
    ensures Get(MarkSpent(m, c), k) ==
            if k == c && Get(m, c).Some? then Some(Get(m, c).value.(spent := true)) else Get(m, k)
  {
    if Get(m, c).Some? { GetSet(m, c, Get(m, c).value.(spent := true), k); }
  }

  lemma GetAfterAdd(m: Store, note: ShieldNote, k: string)
    ensures Get(AddNote(m, note), k) ==
            if k == note.commitment
            then Some(note.(spent := note.spent || (Get(m, k).Some? && Get(m, k).value.spent)))
            else Get(m, k)
  {
    var prev := Get(m, note.commitment);
    GetSet(m, note.commitment, note.(spent := note.spent || (prev.Some? && prev.value.spent)), k);
  }

  lemma {:induction false} DiscoveryConserves(m: Store, found: seq<ShieldNote>, asset: nat)
    requires ProperFound(m, found)
    ensures Balance(AddAll(m, found), asset)
            == Balance(m, asset) + Incoming(m, found, asset) - NewlySpent(m, found, asset)
  {
    if found != [] {
      var rest, last := found[..|found| - 1], found[|found| - 1];
      DiscoveryConserves(m, rest, asset);
      var m' := AddAll(m, rest);
      var prev := Get(m', last.commitment);
      BalanceSet(m', last.commitment, last.(spent := last.spent || (prev.Some? && prev.value.spent)), asset);
    }
  }

  /** One completed operation changes each asset's unspent total by exactly its delta. */
  lemma OperationConserves(m: Store, op: Operation, asset: nat)
    requires Proper(m, op)
    ensures Balance(Apply(m, op), asset) == Balance(m, asset) + Delta(m, op, asset)
  {
    match op
    case Shield(note) => BalanceAddFresh(m, note, asset);
    case ShieldReverted(note) => DeleteUndoesSet(m, note.commitment, note);
    case Transfer(input) => BalanceSpend(m, input, asset);
    case Withdraw(input) => BalanceSpend(m, input, asset);
    case Split(input, out1, out2) =>
      BalanceSpend(m, input, asset);
      var m1 := MarkSpent(m, input.commitment);
      GetAfterSpend(m, input.commitment, out1.commitment);
      GetAfterSpend(m, input.commitment, out2.commitment);
      BalanceAddFresh(m1, out1, asset);
      GetAfterAdd(m1, out1, out2.commitment);
      BalanceAddFresh(AddNote(m1, out1), out2, asset);
    case Merge(input1, input2, out) =>
      BalanceSpend(m, input1, asset);
      var m1 := MarkSpent(m, input1.commitment);
      GetAfterSpend(m, input1.commitment, input2.commitment);
      GetAfterSpend(m, input1.commitment, out.commitment);
      BalanceSpend(m1, input2, asset);
      GetAfterSpend(m1, input2.commitment, out.commitment);
      BalanceAddFresh(MarkSpent(m1, input2.commitment), out, asset);
    case Discover(found) => DiscoveryConserves(m, found, asset);
  }

  /** The commitments of the notes an operation spends. */
  function Inputs(op: Operation): set<string>
  {
    match op
    case Transfer(input) => {input.commitment}
    case Withdraw(input) => {input.commitment}
    case Split(input, _, _) => {input.commitment}
    case Merge(input1, input2, _) => {input1.commitment, input2.commitment}
    case _ => {}
  }

  /** The notes an operation leaves behind. */
  function Outputs(op: Operation): seq<ShieldNote>
  {
    match op
    case Shield(note) => [note]
    case Split(_, out1, out2) => [out1, out2]
    case Merge(_, _, out) => [out]
    case _ => []
  }

  /** The store with the flags of some entries set and some notes, in order, at its end. */
  ghost predicate Became(m: Store, spent: set<string>, added: seq<ShieldNote>, m': Store)
  {
    && |m'| == |m| + |added|
    && (forall i :: 0 <= i < |m| ==>
          m'[i] == Entry(m[i].key, m[i].value.(spent := m[i].value.spent || m[i].key in spent)))
    && (forall i :: |m| <= i < |m'| ==> m'[i] == Entry(added[i - |m|].commitment, added[i - |m|]))
  }

  /** What an operation does to the store, entry by entry: exactly its inputs are flagged, where they are, and its
      outputs
      follow in order. */
  lemma OperationExact(m: Store, op: Operation)
    requires Distinct(m) && Proper(m, op) && !op.Discover?
    ensures Became(m, Inputs(op), Outputs(op), Apply(m, op))
  {
    hide Became, Set, Delete, Get, Distinct;
    Unchanged(m);
    match op
    case Shield(note) =>
      ThenAdd(m, {}, [], m, note);
      assert [] + [note] == Outputs(op);
    case ShieldReverted(note) => DeleteUndoesSet(m, note.commitment, note);
    case Transfer(input) =>
      ThenSpend(m, {}, m, input.commitment);
      assert {} + {input.commitment} == Inputs(op);
    case Withdraw(input) =>
      ThenSpend(m, {}, m, input.commitment);
      assert {} + {input.commitment} == Inputs(op);
    case Split(input, out1, out2) =>
      ThenSpend(m, {}, m, input.commitment);
      var m1 := MarkSpent(m, input.commitment);
      GetAfterSpend(m, input.commitment, out1.commitment);
      GetAfterSpend(m, input.commitment, out2.commitment);
      ThenAdd(m, {input.commitment}, [], m1, out1);
      GetAfterAdd(m1, out1, out2.commitment);
      ThenAdd(m, {input.commitment}, [] + [out1], AddNote(m1, out1), out2);
      assert {} + {input.commitment} == Inputs(op) && [] + [out1] + [out2] == Outputs(op);
    case Merge(input1, input2, out) =>
      ThenSpend(m, {}, m, input1.commitment);
      var m1 := MarkSpent(m, input1.commitment);
      ThenSpend(m, {input1.commitment}, m1, input2.commitment);
      GetAfterSpend(m, input1.commitment, out.commitment);
      GetAfterSpend(m1, input2.commitment, out.commitment);
      ThenAdd(m, {input1.commitment} + {input2.commitment}, [], MarkSpent(m1, input2.commitment), out);
      assert {input1.commitment} + {input2.commitment} == Inputs(op) && [] + [out] == Outputs(op);
  }

  lemma Unchanged(m: Store)
    ensures Became(m, {}, [], m)
  {}

  lemma ThenSpend(m: Store, spent: set<string>, m': Store, c: string)
    requires Distinct(m') && Became(m, spent, [], m')
    ensures Became(m, spent + {c}, [], MarkSpent(m', c)) && Distinct(MarkSpent(m', c))
  {
    GetNone(m', c);
    if Get(m', c).Some? {
      var i := EntryOf(m', c);
      SetInPlace(m', c, m'[i].value.(spent := true), i);
      SetKeepsDistinct(m', c, m'[i].value.(spent := true));
      EntriesDiffer(m', i);
    } else {
      forall i | 0 <= i < |m'| ensures m'[i].key != c { KeyIsIn(m', i); }
    }
  }

  lemma {:induction false} EntryOf(m: Store, c: string) returns (i: nat)
    requires Get(m, c).Some?
    ensures i < |m| && m[i] == Entry(c, Get(m, c).value)
  {
    if m[0].key == c {
      i := 0;
    } else {
      var j := EntryOf(m[1..], c);
      i := j + 1;
    }
  }

  lemma {:induction false} EntriesDiffer(m: Store, i: nat)
    requires Distinct(m) && i < |m|
    ensures forall j :: 0 <= j < |m| && j != i ==> m[j].key != m[i].key
  {
    forall j | 0 <= j < |m| && j != i ensures m[j].key != m[i].key {
      if i == 0 { KeyIsIn(m[1..], j - 1); }
      else if j == 0 { KeyIsIn(m[1..], i - 1); }
      else { EntriesDiffer(m[1..], i - 1); assert m[1..][j - 1] == m[j]; }
    }
  }

  lemma ThenAdd(m: Store, spent: set<string>, added: seq<ShieldNote>, m': Store, note: ShieldNote)
    requires Distinct(m') && Became(m, spent, added, m') && Fresh(m', note)
    ensures Became(m, spent, added + [note], AddNote(m', note)) && Distinct(AddNote(m', note))
  {
    GetNone(m', note.commitment);
    SetKeepsDistinct(m', note.commitment, note);
  }

  /** A reverted shield leaves no trace, not even in the order of the notes. */
  lemma RevertRestores(m: Store, note: ShieldNote)
    requires Fresh(m, note)
    ensures Apply(m, ShieldReverted(note)) == m
  {
    DeleteUndoesSet(m, note.commitment, note);
  }

  /** Conservation over every run of completed operations. */
  lemma {:induction false} RunConserves(m: Store, ops: seq<Operation>, asset: nat)
    requires ProperRun(m, ops)
    ensures Balance(Run(m, ops), asset) == Balance(m, asset) + TotalDelta(m, ops, asset)
  {
    if ops != [] {
      RunConserves(m, ops[..|ops| - 1], asset);
      OperationConserves(Run(m, ops[..|ops| - 1]), ops[|ops| - 1], asset);
    }
  }

  /** `merge` never compares its two inputs (sdk/src/client/STXShield.ts:470-475): the local total
      survives exactly when they are different notes, or the note is worthless. */
  lemma MergeConservesIffDistinct(m: Store, input1: ShieldNote, input2: ShieldNote, out: ShieldNote)
    requires StoredUnspent(m, input1) && StoredUnspent(m, input2) && Fresh(m, out)
    requires out.amount == input1.amount + input2.amount && AssetIdOf(out) == AssetIdOf(input1) == AssetIdOf(input2)
    ensures Balance(Apply(m, Merge(input1, input2, out)), AssetIdOf(out)) == Balance(m, AssetIdOf(out))
            <==> input1.commitment != input2.commitment || input1.amount == 0
  {
    var asset := AssetIdOf(out);
    if input1.commitment != input2.commitment {
      OperationConserves(m, Merge(input1, input2, out), asset);
    } else {
      var c := input1.commitment;
      BalanceSpend(m, input1, asset);
      var m1 := MarkSpent(m, c);
      GetAfterSpend(m, c, c);
      GetAfterSpend(m, c, out.commitment);
      BalanceSet(m1, c, Get(m1, c).value.(spent := true), asset);
      GetAfterSpend(m1, c, out.commitment);
      BalanceAddFresh(MarkSpent(m1, c), out, asset);
    }
  }

  /** Merging a note worth 5 with itself leaves 10 where there were 5. */
  lemma MergeWithItself(note: ShieldNote, out: ShieldNote)
    requires note.amount == 5 && !note.spent && out.amount == 10 && !out.spent
    requires note.commitment != out.commitment && AssetIdOf(note) == AssetIdOf(out)
    ensures var m := [Entry(note.commitment, note)];
            && Balance(m, AssetIdOf(note)) == 5
            && Balance(Apply(m, Merge(note, note, out)), AssetIdOf(note)) == 10
  {
    var m, asset := [Entry(note.commitment, note)], AssetIdOf(note);
    assert m[..0] == [];
    BalanceSpend(m, note, asset);
    var spent := [Entry(note.commitment, note.(spent := true))];
    assert MarkSpent(m, note.commitment) == spent == MarkSpent(spent, note.commitment);
    BalanceAddFresh(spent, out, asset);
  }

  ghost predicate IsSpent(m: Store, c: string)
  {
    Get(m, c).Some? && Get(m, c).value.spent
  }

  lemma {:induction false} AddAllKeepsSpent(m: Store, found: seq<ShieldNote>, c: string)
    requires IsSpent(m, c)
    ensures IsSpent(AddAll(m, found), c)
  {
    if found != [] {
      AddAllKeepsSpent(m, found[..|found| - 1], c);
      GetAfterAdd(AddAll(m, found[..|found| - 1]), found[|found| - 1], c);
    }
  }

  lemma OperationKeepsSpent(m: Store, op: Operation, c: string)
    requires Distinct(m) && IsSpent(m, c) && !(op.ShieldReverted? && op.note.commitment == c)
    ensures IsSpent(Apply(m, op), c)
  {
    match op
    case Shield(note) => GetAfterAdd(m, note, c);
    case ShieldReverted(note) =>
      var prev := Get(m, note.commitment);
      SetKeepsDistinct(m, note.commitment, note.(spent := note.spent || (prev.Some? && prev.value.spent)));
      GetAfterAdd(m, note, c);
      GetDelete(AddNote(m, note), note.commitment, c);
    case Transfer(input) => GetAfterSpend(m, input.commitment, c);
    case Withdraw(input) => GetAfterSpend(m, input.commitment, c);
    case Split(input, out1, out2) =>
      var m1 := MarkSpent(m, input.commitment);
      GetAfterSpend(m, input.commitment, c);
      GetAfterAdd(m1, out1, c);
      GetAfterAdd(AddNote(m1, out1), out2, c);
    case Merge(input1, input2, out) =>
      var m1 := MarkSpent(m, input1.commitment);
      GetAfterSpend(m, input1.commitment, c);
      GetAfterSpend(m1, input2.commitment, c);
      GetAfterAdd(MarkSpent(m1, input2.commitment), out, c);
    case Discover(found) => AddAllKeepsSpent(m, found, c);
  }

  /** Every note sits under its own commitment, once. */
  ghost predicate WellFormed(m: Store)
  {
    Distinct(m) && Keyed(m)
  }

  ghost predicate Keyed(m: Store)
  {
    m == [] || (m[0].value.commitment == m[0].key && Keyed(m[1..]))
  }

  lemma {:induction false} SetKeepsKeyed(m: Store, note: ShieldNote)
    requires Keyed(m)
    ensures Keyed(Set(m, note.commitment, note))
  {
    if m != [] {
      SetKeepsKeyed(m[1..], note);
      assert Set(m, note.commitment, note)[1..] == if m[0].key == note.commitment then m[1..]
             else Set(m[1..], note.commitment, note);
    }
  }

  lemma {:induction false} DeleteKeepsKeyed(m: Store, c: string)
    requires Keyed(m)
    ensures Keyed(Delete(m, c))
  {
    if m != [] {
      DeleteKeepsKeyed(m[1..], c);
      if m[0].key != c { assert Delete(m, c)[1..] == Delete(m[1..], c); }
    }
  }

  lemma {:induction false} GetIsKeyed(m: Store, c: string)
    requires Keyed(m)
    ensures Get(m, c).Some? ==> Get(m, c).value.commitment == c
  {
    if m != [] && m[0].key != c { GetIsKeyed(m[1..], c); }
  }

  /** The list of unspent notes: exactly the entries that are not spent... */
  lemma {:induction false} UnspentExactly(m: Store, note: ShieldNote)
    ensures note in Unspent(m) <==> !note.spent && exists i :: 0 <= i < |m| && m[i].value == note
  {
    if m != [] {
      var n := |m| - 1;
      UnspentExactly(m[..n], note);
      if i :| 0 <= i < n && m[i].value == note { assert m[..n][i].value == note; }
      if i :| 0 <= i < n && m[..n][i].value == note { assert m[i].value == note; }
    }
  }

  /** ...in the order of the store. */
  lemma {:induction false} UnspentInOrder(a: Store, b: Store)
    ensures Unspent(a + b) == Unspent(a) + Unspent(b)
    ensures |b| == 1 ==> Unspent(b) == if b[0].value.spent then [] else [b[0].value]
  {
    hide Unspent;
    NoneUnspent();
    if b == [] {
      assert a + b == a;
    } else {
      var n := |b| - 1;
      UnspentInOrder(a, b[..n]);
      UnspentLast(b[..n], b[n]);
      UnspentLast(a + b[..n], b[n]);
      assert b == b[..n] + [b[n]] && a + b == (a + b[..n]) + [b[n]];
    }
  }

  lemma NoneUnspent()
    ensures Unspent([]) == []
  {}

  lemma UnspentLast(front: Store, last: Entry<string, ShieldNote>)
    ensures Unspent(front + [last]) == Unspent(front) + (if last.value.spent then [] else [last.value])
  {
    assert (front + [last])[..|front|] == front;
  }

  /** What the store lists as unspent, it holds unspent. */
  lemma {:induction false} UnspentIsStored(m: Store, note: ShieldNote)
    requires WellFormed(m) && note in Unspent(m)
    ensures StoredUnspent(m, note)
  {
    var n := |m| - 1;
    if note in Unspent(m[..n]) {
      PrefixWellFormed(m, n);
      UnspentIsStored(m[..n], note);
      GetInPrefix(m, n, note.commitment);
    } else {
      LastEntry(m);
    }
  }

  lemma {:induction false} PrefixWellFormed(m: Store, n: nat)
    requires WellFormed(m) && n <= |m|
    ensures WellFormed(m[..n]) && Keys(m[..n]) <= Keys(m)
  {
    if n > 0 {
      PrefixWellFormed(m[1..], n - 1);
      assert m[..n][1..] == m[1..][..n - 1];
    }
  }

  lemma {:induction false} GetInPrefix(m: Store, n: nat, c: string)
    requires n <= |m| && Get(m[..n], c).Some?
    ensures Get(m, c) == Get(m[..n], c)
  {
    if m[0].key != c {
      assert m[..n][1..] == m[1..][..n - 1];
      GetInPrefix(m[1..], n - 1, c);
    }
  }

  lemma {:induction false} LastEntry(m: Store)
    requires WellFormed(m) && m != []
    ensures Get(m, m[|m| - 1].key) == Some(m[|m| - 1].value) && m[|m| - 1].key in Keys(m)
    ensures m[|m| - 1].value.commitment == m[|m| - 1].key
  {
    if |m| > 1 { LastEntry(m[1..]); }
  }

  lemma AddKeepsWellFormed(m: Store, note: ShieldNote)
    requires WellFormed(m)
    ensures WellFormed(AddNote(m, note))
  {
    var prev := Get(m, note.commitment);
    var stored := note.(spent := note.spent || (prev.Some? && prev.value.spent));
    SetKeepsDistinct(m, note.commitment, stored);
    SetKeepsKeyed(m, stored);
  }

  lemma SpendKeepsWellFormed(m: Store, c: string)
    requires WellFormed(m)
    ensures WellFormed(MarkSpent(m, c))
  {
    if Get(m, c).Some? {
      var stored := Get(m, c).value.(spent := true);
      GetIsKeyed(m, c);
      SetKeepsDistinct(m, c, stored);
      SetKeepsKeyed(m, stored);
    }
  }

  lemma {:induction false} AddAllKeepsWellFormed(m: Store, found: seq<ShieldNote>)
    requires WellFormed(m)
    ensures WellFormed(AddAll(m, found))
  {
    if found != [] {
      AddAllKeepsWellFormed(m, found[..|found| - 1]);
      AddKeepsWellFormed(AddAll(m, found[..|found| - 1]), found[|found| - 1]);
    }
  }

  lemma OperationKeepsWellFormed(m: Store, op: Operation)
    requires WellFormed(m)
    ensures WellFormed(Apply(m, op))
  {
    match op
    case Shield(note) => AddKeepsWellFormed(m, note);
    case ShieldReverted(note) =>
      AddKeepsWellFormed(m, note);
      DeleteKeepsDistinct(AddNote(m, note), note.commitment);
      DeleteKeepsKeyed(AddNote(m, note), note.commitment);
    case Transfer(input) => SpendKeepsWellFormed(m, input.commitment);
    case Withdraw(input) => SpendKeepsWellFormed(m, input.commitment);
    case Split(input, out1, out2) =>
      SpendKeepsWellFormed(m, input.commitment);
      AddKeepsWellFormed(MarkSpent(m, input.commitment), out1);
      AddKeepsWellFormed(AddNote(MarkSpent(m, input.commitment), out1), out2);
    case Merge(input1, input2, out) =>
      SpendKeepsWellFormed(m, input1.commitment);
      SpendKeepsWellFormed(MarkSpent(m, input1.commitment), input2.commitment);
      AddKeepsWellFormed(MarkSpent(MarkSpent(m, input1.commitment), input2.commitment), out);
    case Discover(found) => AddAllKeepsWellFormed(m, found);
  }

  /** Once spent, spent for good: over any run at all, proper or not, of additions, discoveries and
      spends, short of rolling back a shield of that very commitment. */
  lemma {:induction false} SpentForGood(m: Store, ops: seq<Operation>, c: string)
    requires WellFormed(m) && IsSpent(m, c)
    requires forall i :: 0 <= i < |ops| ==> !(ops[i].ShieldReverted? && ops[i].note.commitment == c)
    ensures WellFormed(Run(m, ops)) && IsSpent(Run(m, ops), c)
  {
    if ops != [] {
      var rest := ops[..|ops| - 1];
      SpentForGood(m, rest, c);
      OperationKeepsSpent(Run(m, rest), ops[|ops| - 1], c);
      OperationKeepsWellFormed(Run(m, rest), ops[|ops| - 1]);
    }
  }
}
