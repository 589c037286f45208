/** Sending a note and finding it again (sdk/src/client/STXShield.ts:276-313, sdk/src/notes/index.ts:28-138). */
module Discovery {
  import opened Digits
  import opened Hex
  import opened Field
  import opened JsMaps
  import opened Notes
  import opened Encryption
  import PublicInputs
  import opened Results

  /** A stored note as the API lists it. */
  datatype NoteRecord = NoteRecord(commitment: string, ciphertext: Option<string>, root: string, txid: string,
                                   spent: bool)

  /** What `storeCiphertext` publishes for a note: `toHex` prefixes, and the client prefixes again. */
  function StoreCiphertext(x: Primitives, note: ShieldNote, leafIndex: nat, viewingPk: Bytes, nonce: int,
                           ephSk: Bytes32): string
    requires IsHex(StripPrefix(note.commitment))
  {
    "0x" + ToHexText(Wire(EncryptNote(x, PayloadOf(note, leafIndex, nonce), viewingPk, ephSk)))
  }

  function PayloadOf(note: ShieldNote, leafIndex: nat, nonce: int): NotePayload
    requires IsHex(StripPrefix(note.commitment))
  {
    NotePayload(1, note.amount, note.secret.blinding, note.secret.ownerSk, nonce, HexToBytesSpec(note.commitment),
                leafIndex, note.secret.assetId)
  }

  /** A map from id to asset keeps the last of several. */
  function ById(assets: seq<AssetInfo>, id: nat): Option<AssetInfo>
  {
    if assets == [] then None
    else if assets[|assets| - 1].id == id then Some(assets[|assets| - 1])
    else ById(assets[..|assets| - 1], id)
  }

  /** The payload behind a record, if it is addressed to us. */
  function OpenRecord(x: Primitives, r: NoteRecord, viewingSk: Bytes32): Option<NotePayload>
  {
    if r.ciphertext.None? || r.ciphertext.value == "" then None
    else
      var text := StripPrefix(r.ciphertext.value);
      if !IsHex(StripPrefix(text)) then None
      else
        var note := DecodeEncryptedNote(HexToBytesSpec(text));
        if note.None? then None else TryDecryptNote(x, note.value, viewingSk)
  }

  /** One record: ours, of a known asset, and reproducing the listed commitment; or nothing. */
  function DiscoverOne(h: Hashes, x: Primitives, r: NoteRecord, viewingSk: Bytes32, owner: OwnerKey,
                       assets: seq<AssetInfo>): Option<ShieldNote>
  {
    var payload := OpenRecord(x, r, viewingSk);
    if payload.None? then None else FromPayload(h, payload.value, r, owner, assets)
  }

  function FromPayload(h: Hashes, p: NotePayload, r: NoteRecord, owner: OwnerKey,
                       assets: seq<AssetInfo>): Option<ShieldNote>
  {
    var named := p.assetId.Some? && p.assetId.value != 0;
    var asset := if named then ById(assets, p.assetId.value) else None;
    if named && asset.None? then None
    else
      var field := if asset.Some? then AssetFieldFor(h, asset.value) else None;
      var secret := NoteSecret(owner.sk, owner.pkX, owner.pkY, p.blinding, Some(p.treePosition),
                               if asset.Some? && !asset.value.native then Some(asset.value.id) else None, field);
      if ToHex32(CommitmentOf(h, p.amount, owner.pkX, owner.pkY, p.blinding, field)) != WithPrefix(r.commitment)
          then None
      else Some(ShieldNote(r.commitment, r.ciphertext.GetOr(""), r.root, r.txid, p.amount, asset, r.spent, secret))
  }

  function Discovered(h: Hashes, x: Primitives, records: seq<NoteRecord>, viewingSk: Bytes32, owner: OwnerKey,
                      assets: seq<AssetInfo>): seq<ShieldNote>
  {
    if records == [] then []
    else
      var n := |records| - 1;
      var found := DiscoverOne(h, x, records[n], viewingSk, owner, assets);
      Discovered(h, x, records[..n], viewingSk, owner, assets) + (if found.Some? then [found.value] else [])
  }

  /** The loop over the feed. */
  method DiscoverNotes(h: Hashes, x: Primitives, records: seq<NoteRecord>, viewingSk: Bytes32, owner: OwnerKey,
                       assets: seq<AssetInfo>)
    returns (out: seq<ShieldNote>)
    ensures out == Discovered(h, x, records, viewingSk, owner, assets)
  {
    out := [];
    for k := 0 to |records|
      invariant out == Discovered(h, x, records[..k], viewingSk, owner, assets)
    {
      assert records[..k + 1][..k] == records[..k];
      var found := DiscoverOne(h, x, records[k], viewingSk, owner, assets);
      if found.Some? { out := out + [found.value]; }
    }
    assert records[..|records|] == records;
  }

  lemma {:induction false} FoundInFeed(h: Hashes, x: Primitives, records: seq<NoteRecord>, viewingSk: Bytes32,
                                       owner: OwnerKey, assets: seq<AssetInfo>, r: NoteRecord)
    requires r in records && DiscoverOne(h, x, r, viewingSk, owner, assets).Some?
    ensures DiscoverOne(h, x, r, viewingSk, owner, assets).value in Discovered(h, x, records, viewingSk, owner, assets)
  {
    hide DiscoverOne;
    var n := |records| - 1;
    if r != records[n] { FoundInFeed(h, x, records[..n], viewingSk, owner, assets, r); }
  }

  // ---- what passes ----

  /** The asset of an id: the last one listed under it. */
  ghost predicate ListedLast(assets: seq<AssetInfo>, id: nat, asset: AssetInfo)
  {
    exists i :: LastAt(assets, id, asset, i)
  }

  ghost predicate LastAt(assets: seq<AssetInfo>, id: nat, asset: AssetInfo, i: int)
  {
    && 0 <= i < |assets| && assets[i] == asset && asset.id == id
    && forall j :: i < j < |assets| ==> assets[j].id != id
  }

  lemma {:induction false} ByIdExact(assets: seq<AssetInfo>, id: nat, asset: AssetInfo)
    ensures ById(assets, id) == Some(asset) <==> ListedLast(assets, id, asset)
    ensures ById(assets, id).None? <==> forall i :: 0 <= i < |assets| ==> assets[i].id != id
  {
    if assets != [] {
      var n := |assets| - 1;
      ByIdExact(assets[..n], id, asset);
      assert forall i :: 0 <= i < n ==> assets[..n][i] == assets[i];
      if assets[n].id != id {
        ListedBefore(assets, id, asset);
      } else {
        assert LastAt(assets, id, assets[n], n);
        if i :| LastAt(assets, id, asset, i) { assert i == n; }
      }
    }
  }

  lemma ListedBefore(assets: seq<AssetInfo>, id: nat, asset: AssetInfo)
    requires assets != [] && assets[|assets| - 1].id != id
    ensures ListedLast(assets, id, asset) <==> ListedLast(assets[..|assets| - 1], id, asset)
  {
    var n := |assets| - 1;
    assert forall i :: 0 <= i < n ==> assets[..n][i] == assets[i];
    if i :| LastAt(assets, id, asset, i) { assert LastAt(assets[..n], id, asset, i); }
    if i :| LastAt(assets[..n], id, asset, i) { assert LastAt(assets, id, asset, i); }
  }

  /** The ciphertext of a record opens, with the viewing secret, to a version-1 payload. */
  ghost predicate Says(x: Primitives, r: NoteRecord, viewingSk: Bytes32, p: NotePayload)
  {
    && r.ciphertext.Some? && r.ciphertext.value != ""
    && var text := StripPrefix(r.ciphertext.value);
    && IsHex(StripPrefix(text))
    && var bytes := HexToBytesSpec(text);
    && |bytes| >= 57
    && var key := x.sha256(x.shared(viewingSk, bytes[..32]) + bytes[..32] + KEY_LABEL);
    && var plain := x.open(key, bytes[32..56], bytes[56..]);
    && plain.Some? && Carries(plain.value, p) && p.version == 1
  }

  /** The asset a payload names is native, or in the list. */
  ghost predicate NamesAsset(p: NotePayload, assets: seq<AssetInfo>, asset: Option<AssetInfo>)
  {
    if p.assetId.None? || p.assetId.value == 0 then asset == None
    else asset.Some? && ListedLast(assets, p.assetId.value, asset.value)
  }

  /** The number of the asset that a commitment binds; zero for a native one. */
  ghost function BoundField(h: Hashes, asset: Option<AssetInfo>): nat
  {
    if asset.None? || asset.value.native then 0 else BytesVal([0] + h.digest(asset.value.token)[1..])
  }

  /** The listed commitment is that of the payload's amount and blinding, under our own key and the named asset. */
  ghost predicate Reproduces(h: Hashes, p: NotePayload, r: NoteRecord, owner: OwnerKey, asset: Option<AssetInfo>)
  {
    var inner, field := h.four(p.amount, owner.pkX, owner.pkY, p.blinding), BoundField(h, asset);
    WithPrefix(r.commitment) == ToHex32(if field == 0 then inner else h.two(inner, field))
  }

  /** What is returned for a record that passes. */
  ghost predicate FoundAs(h: Hashes, p: NotePayload, r: NoteRecord, owner: OwnerKey, note: ShieldNote)
  {
    && note.amount == p.amount && note.commitment == r.commitment && Some(note.ciphertext) == r.ciphertext
    && note.root == r.root && note.txid == r.txid && note.spent == r.spent
    && note.secret.ownerSk == owner.sk && note.secret.ownerPkX == owner.pkX && note.secret.ownerPkY == owner.pkY
    && note.secret.blinding == p.blinding && note.secret.leafIndex == Some(p.treePosition)
    && var bound := note.asset.Some? && !note.asset.value.native;
    && note.secret.assetId == (if bound then Some(note.asset.value.id) else None)
    && note.secret.assetField == (if bound then Some(BoundField(h, note.asset)) else None)
  }

  /** A record passes, as a note, if and only if its ciphertext opens to a payload of a native or listed asset that
      reproduces the listed commitment under our own key. */
  lemma RecordPassesIff(h: Hashes, x: Primitives, r: NoteRecord, viewingSk: Bytes32, owner: OwnerKey,
                        assets: seq<AssetInfo>, note: ShieldNote)
    ensures DiscoverOne(h, x, r, viewingSk, owner, assets) == Some(note) <==>
            exists p :: && Says(x, r, viewingSk, p) && NamesAsset(p, assets, note.asset)
                        && Reproduces(h, p, r, owner, note.asset) && FoundAs(h, p, r, owner, note)
  {
    hide OpenRecord, FromPayload, Says, NamesAsset, Reproduces, FoundAs;
    var payload := OpenRecord(x, r, viewingSk);
    forall p ensures Says(x, r, viewingSk, p) <==> payload == Some(p) { SaysWhatOpens(x, r, viewingSk, p); }
    OnlyCiphertextsOpen(x, r, viewingSk);
    if payload.Some? { PayloadPassesIff(h, payload.value, r, owner, assets, note); }
  }

  lemma OnlyCiphertextsOpen(x: Primitives, r: NoteRecord, viewingSk: Bytes32)
    ensures OpenRecord(x, r, viewingSk).Some? ==> r.ciphertext.Some?
  {}

  lemma SaysWhatOpens(x: Primitives, r: NoteRecord, viewingSk: Bytes32, p: NotePayload)
    ensures Says(x, r, viewingSk, p) <==> OpenRecord(x, r, viewingSk) == Some(p)
  {
    hide TryDecryptNote, Carries, IsHex, HexToBytesSpec, StripPrefix;
    if r.ciphertext.Some? && r.ciphertext.value != "" {
      var text := StripPrefix(r.ciphertext.value);
      if IsHex(StripPrefix(text)) {
        var note := DecodeEncryptedNote(HexToBytesSpec(text));
        if note.Some? { OpensExactly(x, note.value, viewingSk, p); }
      }
    }
  }

  lemma PayloadPassesIff(h: Hashes, p: NotePayload, r: NoteRecord, owner: OwnerKey, assets: seq<AssetInfo>,
                         note: ShieldNote)
    requires r.ciphertext.Some?
    ensures FromPayload(h, p, r, owner, assets) == Some(note) <==>
            NamesAsset(p, assets, note.asset) && Reproduces(h, p, r, owner, note.asset) && FoundAs(h, p, r, owner, note)
  {
    hide ListedLast, ToHex32, WithPrefix, BytesVal, ById;
    if p.assetId.Some? {
      var listed := ById(assets, p.assetId.value);
      if listed.Some? { ByIdExact(assets, p.assetId.value, listed.value); }
      if note.asset.Some? { ByIdExact(assets, p.assetId.value, note.asset.value); }
      if listed.Some? { BytesToBigIsValue(PublicInputs.FePrincipal(h.digest, listed.value.token)); }
    }
  }

  /** The feed, exactly: a note is returned if and only if one of the records passes as that note... */
  lemma {:induction false} FeedExact(h: Hashes, x: Primitives, records: seq<NoteRecord>, viewingSk: Bytes32,
                                     owner: OwnerKey, assets: seq<AssetInfo>, note: ShieldNote)
    ensures note in Discovered(h, x, records, viewingSk, owner, assets) <==>
            exists r, p :: && r in records && Says(x, r, viewingSk, p) && NamesAsset(p, assets, note.asset)
                           && Reproduces(h, p, r, owner, note.asset) && FoundAs(h, p, r, owner, note)
  {
    hide DiscoverOne, Says, NamesAsset, Reproduces, FoundAs;
    if records != [] {
      var n := |records| - 1;
      FeedExact(h, x, records[..n], viewingSk, owner, assets, note);
      RecordPassesIff(h, x, records[n], viewingSk, owner, assets, note);
      assert records == records[..n] + [records[n]];
    }
  }

  /** ...and the notes come in the order of their records, at most one for each. */
  lemma {:induction false} FeedInOrder(h: Hashes, x: Primitives, a: seq<NoteRecord>, b: seq<NoteRecord>,
                                       viewingSk: Bytes32, owner: OwnerKey, assets: seq<AssetInfo>)
    ensures Discovered(h, x, a + b, viewingSk, owner, assets)
         == Discovered(h, x, a, viewingSk, owner, assets) + Discovered(h, x, b, viewingSk, owner, assets)
    ensures |Discovered(h, x, b, viewingSk, owner, assets)| <= |b|
  {
    hide DiscoverOne;
    if b == [] {
      assert a + b == a;
    } else {
      var n := |b| - 1;
      FeedInOrder(h, x, a, b[..n], viewingSk, owner, assets);
      assert (a + b)[..|a + b| - 1] == a + b[..n];
    }
  }

  // ---- send, then discover ----

  /** A note made for an owner's public key, whoever made it. */
  ghost predicate MadeFor(h: Hashes, note: ShieldNote, owner: OwnerKey, asset: AssetInfo)
  {
    exists sk: nat :: note == NewNote(h, note.amount, sk, owner.pkX, owner.pkY, note.secret.blinding, asset)
  }

  /** The record of a stored note, with its commitment listed with or without prefix. */
  ghost predicate RecordOf(x: Primitives, r: NoteRecord, note: ShieldNote, leafIndex: nat, viewingPk: Bytes,
                           nonce: int, ephSk: Bytes32)
    requires IsHex(StripPrefix(note.commitment))
  {
    && r.ciphertext == Some(StoreCiphertext(x, note, leafIndex, viewingPk, nonce, ephSk))
    && WithPrefix(r.commitment) == note.commitment
  }

  lemma NewNoteIsHex(h: Hashes, note: ShieldNote, owner: OwnerKey, asset: AssetInfo)
    requires MadeFor(h, note, owner, asset)
    ensures IsHex(StripPrefix(note.commitment))
    ensures note.commitment == ToHex32(CommitmentOf(h, note.amount, owner.pkX, owner.pkY, note.secret.blinding,
                                                    AssetFieldFor(h, asset)))
    ensures note.secret.assetId == if asset.native then None else Some(asset.id)
  {
    var c := note.commitment;
    assert c[..2] == "0x" && c[2..]
           == PadStart(ToString16(CommitmentOf(h, note.amount, owner.pkX, owner.pkY, note.secret.blinding,
                                               AssetFieldFor(h, asset))), 64);
  }

  lemma OpensStored(x: Primitives, r: NoteRecord, note: ShieldNote, leafIndex: nat, viewingSk: Bytes32, nonce: int,
                    ephSk: Bytes32)
    requires Agrees(x) && Opens(x) && IsHex(StripPrefix(note.commitment))
    requires RecordOf(x, r, note, leafIndex, x.publicKey(viewingSk), nonce, ephSk)
    ensures OpenRecord(x, r, viewingSk) == Some(Normal(PayloadOf(note, leafIndex, nonce)))
  {
    hide EncryptNote, TryDecryptNote, DecodeEncryptedNote, Wire, PayloadOf, HexOf, Agrees, Opens;
    var payload := PayloadOf(note, leafIndex, nonce);
    assert payload.version == 1 by { VersionOne(note, leafIndex, nonce); }
    DecryptsOwn(x, payload, viewingSk, ephSk);
    PrefixesStripped(Wire(EncryptNote(x, payload, x.publicKey(viewingSk), ephSk)));
  }

  /** What a receiver reads from a stored note, letter by letter: everything the sender knew of it. The bytes of the
      commitment denote its number. */
  lemma ReceiverReads(x: Primitives, r: NoteRecord, note: ShieldNote, leafIndex: nat, viewingSk: Bytes32, nonce: int,
                      ephSk: Bytes32)
    requires Agrees(x) && Opens(x) && IsHex(StripPrefix(note.commitment))
    requires RecordOf(x, r, note, leafIndex, x.publicKey(viewingSk), nonce, ephSk)
    ensures exists p :: && Says(x, r, viewingSk, p) && OpenRecord(x, r, viewingSk) == Some(p)
                        && p.amount == note.amount && p.blinding == note.secret.blinding
                        && p.ownerSk == note.secret.ownerSk && p.nonce == nonce && p.treePosition == leafIndex
                        && BytesVal(p.commitment) == ParseHex(StripPrefix(note.commitment))
                        && p.assetId == if note.secret.assetId == Some(0) then None else note.secret.assetId
  {
    hide Says, OpenRecord, BytesVal, ParseHex, RecordOf, BytesOf, IsHex;
    OpensStored(x, r, note, leafIndex, viewingSk, nonce, ephSk);
    var p := Normal(PayloadOf(note, leafIndex, nonce));
    SaysWhatOpens(x, r, viewingSk, p);
    EvenKeepsValue(StripPrefix(note.commitment));
  }

  lemma EvenKeepsValue(s: string)
    requires IsHex(s)
    ensures BytesVal(BytesOf(EvenLength(s))) == ParseHex(s)
  {
    BytesOfDenotes(EvenLength(s));
    if |s| % 2 == 1 {
      LeadingZeros(1, DigitsOf(s), 16);
      assert DigitsOf("0" + s) == Zeros(1) + DigitsOf(s);
    }
  }

  lemma VersionOne(note: ShieldNote, leafIndex: nat, nonce: int)
    requires IsHex(StripPrefix(note.commitment))
    ensures PayloadOf(note, leafIndex, nonce).version == 1
  {}

  /** Round trip: a stored note for a viewing key is found by its owner with the same amount, blinding,
      commitment text, leaf and asset, and with the owner's own spending key, exactly when it is native
      or its asset is in the list. A SIP-10 asset must not have uid 0, which the payload cannot carry. */
  lemma SendThenDiscover(h: Hashes, x: Primitives, note: ShieldNote, asset: AssetInfo, owner: OwnerKey,
                         viewingSk: Bytes32,
                         leafIndex: nat, nonce: int, ephSk: Bytes32, r: NoteRecord, assets: seq<AssetInfo>)
    requires Agrees(x) && Opens(x) && MadeFor(h, note, owner, asset) && IsHex(StripPrefix(note.commitment))
    requires RecordOf(x, r, note, leafIndex, x.publicKey(viewingSk), nonce, ephSk)
    requires asset.native || asset.id != 0
    requires !asset.native && ById(assets, asset.id).Some? ==> ById(assets, asset.id).value == asset
    ensures var found := DiscoverOne(h, x, r, viewingSk, owner, assets);
            && (found.Some? <==> asset.native || ById(assets, asset.id).Some?)
            && (found.Some? ==>
                  && found.value.amount == note.amount && found.value.secret.blinding == note.secret.blinding
                  && found.value.commitment == r.commitment && found.value.spent == r.spent
                  && found.value.secret.leafIndex == Some(leafIndex) && found.value.secret.ownerSk == owner.sk
                  && found.value.secret.assetField == note.secret.assetField
                  && found.value.asset == if asset.native then None else Some(asset))
  {
    hide OpenRecord, CommitmentOf, ToHex32, RecordOf, HexToBytesSpec;
    NewNoteIsHex(h, note, owner, asset);
    OpensStored(x, r, note, leafIndex, viewingSk, nonce, ephSk);
    NormalizedRecord(x, r, note, leafIndex, x.publicKey(viewingSk), nonce, ephSk);
  }

  lemma NormalizedRecord(x: Primitives, r: NoteRecord, note: ShieldNote, leafIndex: nat, viewingPk: Bytes, nonce: int,
                         ephSk: Bytes32)
    requires IsHex(StripPrefix(note.commitment)) && RecordOf(x, r, note, leafIndex, viewingPk, nonce, ephSk)
    ensures WithPrefix(r.commitment) == note.commitment
  {}

  /** A SIP-10 asset of uid 0 is sent as native: its note is found only if its asset-bound commitment
      happens to be the native one. */
  lemma AssetZeroIsLost(h: Hashes, x: Primitives, note: ShieldNote, asset: AssetInfo, owner: OwnerKey,
                        viewingSk: Bytes32,
                        leafIndex: nat, nonce: int, ephSk: Bytes32, r: NoteRecord, assets: seq<AssetInfo>)
    requires Agrees(x) && Opens(x) && MadeFor(h, note, owner, asset) && IsHex(StripPrefix(note.commitment))
    requires RecordOf(x, r, note, leafIndex, x.publicKey(viewingSk), nonce, ephSk)
    requires !asset.native && asset.id == 0
    ensures var inner, field := h.four(note.amount, owner.pkX, owner.pkY, note.secret.blinding),
            AssetFieldOf(h, asset.token);
            DiscoverOne(h, x, r, viewingSk, owner, assets).Some? <==> field == 0 || h.two(inner, field) == inner
  {
    hide OpenRecord, ToHex32, RecordOf, HexToBytesSpec, AssetFieldOf;
    NewNoteIsHex(h, note, owner, asset);
    OpensStored(x, r, note, leafIndex, viewingSk, nonce, ephSk);
    NormalizedRecord(x, r, note, leafIndex, x.publicKey(viewingSk), nonce, ephSk);
    var inner := h.four(note.amount, owner.pkX, owner.pkY, note.secret.blinding);
    ToHex32Injective(inner, CommitmentOf(h, note.amount, owner.pkX, owner.pkY, note.secret.blinding,
                                         AssetFieldFor(h, asset)));
  }

  lemma ToHex32Injective(a: FieldElement, b: FieldElement)
    ensures ToHex32(a) == ToHex32(b) <==> a == b
  {
    hide PadStart, ToString16, ParseHex;
    ModulusFits();
    FixedWidth(a, 64);
    FixedWidth(b, 64);
    assert ToHex32(a)[2..] == PadStart(ToString16(a), 64) && ToHex32(b)[2..] == PadStart(ToString16(b), 64);
  }

  /** The store keys a discovered note by the record's own text (sdk/src/notes/index.ts:133): finding a
      note that is already held, unspent, counts it a second time exactly when the record lists the
      commitment without its prefix. */
  lemma UnprefixedRecordCountsTwice(m: Store, held: ShieldNote, found: ShieldNote, asset: nat)
    requires StoredUnspent(m, held) && WithPrefix(found.commitment) == held.commitment
    requires found.amount == held.amount && AssetIdOf(found) == AssetIdOf(held) == asset && !found.spent
    requires found.commitment != held.commitment ==> Get(m, found.commitment).None?
    ensures Balance(AddNote(m, found), asset)
            == Balance(m, asset) + (if found.commitment == held.commitment then 0 else held.amount)
    ensures found.commitment == held.commitment <==> |found.commitment| >= 2 && found.commitment[..2] == "0x"
  {
    var prev := Get(m, found.commitment);
    BalanceSet(m, found.commitment, found.(spent := found.spent || (prev.Some? && prev.value.spent)), asset);
    if !(|found.commitment| >= 2 && found.commitment[..2] == "0x") { assert |held.commitment|
                                                                    == |found.commitment| + 2; }
  }

  // ---- shield addresses ----

  datatype ShieldAddress = ShieldAddress(ownerPkX: nat, ownerPkY: nat, viewingPk: Bytes)

  datatype AddressError = NotAnAddress | Malformed

  const ADDRESS_PREFIX := "stxsh1"

  function EncodeAddress(a: ShieldAddress): string
  {
    ADDRESS_PREFIX + PadStart(ToString16(a.ownerPkX), 64) + PadStart(ToString16(a.ownerPkY), 64) + HexOf(a.viewingPk)
  }

  function DecodeAddress(s: string): Result<ShieldAddress, AddressError>
  {
    if |s| < 6 || s[..6] != ADDRESS_PREFIX then Err(NotAnAddress)
    else
      var body := s[6..];
      if |body| != 192 then Err(Malformed)
      else if !IsHex(body[..64]) || !IsHex(body[64..128]) || !IsHex(StripPrefix(body[128..])) then Err(Malformed)
      else Ok(ShieldAddress(ParseHex(body[..64]), ParseHex(body[64..128]), HexToBytesSpec(body[128..])))
  }

  lemma AddressRoundTrip(a: ShieldAddress)
    requires a.ownerPkX < Pow(16, 64) && a.ownerPkY < Pow(16, 64) && |a.viewingPk| == 32
    ensures DecodeAddress(EncodeAddress(a)) == Ok(a)
  {
    hide PadStart, ToString16, HexOf, BytesOf, ParseHex;
    FixedWidth(a.ownerPkX, 64);
    FixedWidth(a.ownerPkY, 64);
    BytesOfHexOf(a.viewingPk);
    var s := EncodeAddress(a);
    var x, y, v := PadStart(ToString16(a.ownerPkX), 64), PadStart(ToString16(a.ownerPkY), 64), HexOf(a.viewingPk);
    var body := s[6..];
    assert s[..6] == ADDRESS_PREFIX && body == x + y + v;
    assert body[..64] == x && body[64..128] == y && body[128..] == v;
    HexHasNoPrefix(v);
  }

  /** The address format, both ways: a text is an address if and only if it is the prefix, two numbers of 64 hexadecimal
      digits, and 64 characters that spell the viewing key. */
  lemma AddressFormat(s: string, a: ShieldAddress)
    ensures DecodeAddress(s) == Ok(a) <==>
            && |s| == 198 && s[..6] == "stxsh1"
            && IsHex(s[6..70]) && ParseHex(s[6..70]) == a.ownerPkX
            && IsHex(s[70..134]) && ParseHex(s[70..134]) == a.ownerPkY
            && IsHex(StripPrefix(s[134..])) && HexToBytesSpec(s[134..]) == a.viewingPk
  {
    hide ParseHex, IsHex, StripPrefix, HexToBytesSpec;
    if |s| == 198 {
      var body := s[6..];
      assert body[..64] == s[6..70] && body[64..128] == s[70..134] && body[128..] == s[134..];
    }
  }

  /** What is stored for a note carries the prefix twice, and reads as the wire bytes. */
  lemma StoredTextFormat(x: Primitives, note: ShieldNote, leafIndex: nat, viewingPk: Bytes, nonce: int, ephSk: Bytes32)
    requires IsHex(StripPrefix(note.commitment))
    ensures var text := StoreCiphertext(x, note, leafIndex, viewingPk, nonce, ephSk);
            && |text| >= 4 && text[..4] == "0x0x" && IsHex(text[4..]) && |text[4..]| % 2 == 0
            && BytesOf(text[4..]) == Wire(EncryptNote(x, PayloadOf(note, leafIndex, nonce), viewingPk, ephSk))
  {
    hide EncryptNote, PayloadOf, HexOf, BytesOf, Wire, IsHex;
    var wire := Wire(EncryptNote(x, PayloadOf(note, leafIndex, nonce), viewingPk, ephSk));
    BytesOfHexOf(wire);
    var text := StoreCiphertext(x, note, leafIndex, viewingPk, nonce, ephSk);
    assert text == "0x" + ("0x" + HexOf(wire)) == "0x0x" + HexOf(wire);
    assert text[4..] == HexOf(wire);
  }

  /** A transfer reaches its recipient: what is made for and encrypted to a decoded address is found
      by the address's owner, who holds the key to spend it. */
  lemma TransferDelivered(h: Hashes, x: Primitives, owner: OwnerKey, viewingSk: Bytes32, to: ShieldAddress,
                          amount: int, blinding: int,
                          asset: AssetInfo, leafIndex: nat, nonce: int, ephSk: Bytes32, r: NoteRecord,
                              assets: seq<AssetInfo>)
    requires Agrees(x) && Opens(x) && owner.pkX < Pow(16, 64) && owner.pkY < Pow(16, 64)
    requires DecodeAddress(EncodeAddress(ShieldAddress(owner.pkX, owner.pkY, x.publicKey(viewingSk)))) == Ok(to)
    requires asset.native || (asset.id != 0 && ById(assets, asset.id) == Some(asset))
    requires var note := NewNote(h, amount, 0, to.ownerPkX, to.ownerPkY, blinding, asset);
             IsHex(StripPrefix(note.commitment)) && RecordOf(x, r, note, leafIndex, to.viewingPk, nonce, ephSk)
    ensures var found := DiscoverOne(h, x, r, viewingSk, owner, assets);
            found.Some? && found.value.amount == amount && found.value.secret.blinding == blinding
                && found.value.secret.ownerSk == owner.sk
  {
    hide EncodeAddress, DecodeAddress, NewNote, RecordOf, DiscoverOne, Agrees, Opens;
    AddressRoundTrip(ShieldAddress(owner.pkX, owner.pkY, x.publicKey(viewingSk)));
    var note := NewNote(h, amount, 0, owner.pkX, owner.pkY, blinding, asset);
    NewNoteFields(h, amount, 0, owner.pkX, owner.pkY, blinding, asset);
    assert MadeFor(h, note, owner, asset);
    SendThenDiscover(h, x, note, asset, owner, viewingSk, leafIndex, nonce, ephSk, r, assets);
  }

  lemma NewNoteFields(h: Hashes, amount: int, sk: nat, pkX: nat, pkY: nat, blinding: int, asset: AssetInfo)
    ensures var note := NewNote(h, amount, sk, pkX, pkY, blinding, asset);
            note.amount == amount && note.secret.blinding == blinding
  {}
}
