/** Encrypted note delivery over uninterpreted primitives (sdk/encryption/index.ts). */
module Encryption {
  import opened Digits
  import opened Hex
  import opened Results

  const NOTE_PAYLOAD_VERSION: int := 1

  /** Everything the receiver needs to own and later spend a note. The sender writes what it likes:
      nothing keeps a number from being negative. */
  datatype NotePayload = NotePayload(
    version: int, amount: int, blinding: int, ownerSk: int, nonce: int, commitment: Bytes, treePosition: nat,
        assetId: Option<nat>)

  /** The JSON object of a payload; its text layout is not modelled. */
  datatype JsonRecord = JsonRecord(v: int, a: string, b: string, s: string, n: string, c: string, t: nat,
                                   i: Option<nat>)

  datatype EncryptedNote = EncryptedNote(ephemeralPublicKey: Bytes, nonce: Bytes, ciphertext: Bytes)

  /** X25519, SHA-256 and XChaCha20-Poly1305 as functions. */
  datatype Primitives = Primitives(
    publicKey: Bytes32 -> Bytes32, shared: (Bytes32, Bytes) -> Bytes, sha256: Bytes -> Bytes32,
    seal: (Bytes32, Bytes, JsonRecord) -> Bytes, open: (Bytes32, Bytes, Bytes) -> Option<JsonRecord>)

  /** Both sides of a key agreement get one secret (section 6.1 of RFC 7748). */
  ghost predicate Agrees(x: Primitives)
  {
    forall a: Bytes32, b: Bytes32 :: x.shared(a, x.publicKey(b)) == x.shared(b, x.publicKey(a))
  }

  /** Decryption undoes encryption, and a ciphertext carries at least its 16-byte tag. */
  ghost predicate Opens(x: Primitives)
  {
    forall key: Bytes32, nonce: Bytes, plain: JsonRecord ::
      x.open(key, nonce, x.seal(key, nonce, plain)) == Some(plain) && |x.seal(key, nonce, plain)| >= 16
  }

  /** "stx-shield-note" and the one byte the buffer is longer than it. */
  const KEY_LABEL: Bytes := [115, 116, 120, 45, 115, 104, 105, 101, 108, 100, 45, 110, 111, 116, 101, 0]

  function DeriveKey(x: Primitives, shared: Bytes, ephemeralPk: Bytes): Bytes32
  {
    x.sha256(shared + ephemeralPk + KEY_LABEL)
  }

  function Numeral(n: nat): (s: string)
    ensures IsNumeral(s) && Val(DigitsOf(s), 10) == n
  {
    ToDigitsDenotes(n, 10);
    TextOf(ToDigits(n, 10))
  }

  /** `n.toString()`. */
  function Decimal(n: int): (s: string)
    ensures IsDecimal(s)
  {
    hide Numeral, IsNumeral;
    assert ("-" + Numeral(if n < 0 then -n else n))[1..] == Numeral(if n < 0 then -n else n);
    if n < 0 then "-" + Numeral(-n) else Numeral(n)
  }

  predicate IsNumeral(s: string)
  {
    s != "" && forall i :: 0 <= i < |s| ==> '0' <= s[i] <= '9'
  }

  predicate IsDecimal(s: string)
  {
    IsNumeral(s) || (s != "" && s[0] == '-' && IsNumeral(s[1..]))
  }

  /** `BigInt(s)` of a decimal numeral, with or without a minus sign. */
  function ParseDecimal(s: string): int
    requires IsDecimal(s)
  {
    if s[0] == '-' then 0 - Val(DigitsOf(s[1..]), 10) else Val(DigitsOf(s), 10)
  }

  lemma DecimalRoundTrip(n: int)
    ensures ParseDecimal(Decimal(n)) == n
  {
    hide Numeral, DigitsOf;
    if n < 0 { assert ("-" + Numeral(-n))[1..] == Numeral(-n); }
  }

  /** A zero or absent asset id is omitted, so native payloads look as they always did. */
  function Serialize(p: NotePayload): JsonRecord
  {
    JsonRecord(p.version, Decimal(p.amount), Decimal(p.blinding), Decimal(p.ownerSk), Decimal(p.nonce),
               HexOf(p.commitment), p.treePosition,
               if p.assetId.Some? && p.assetId.value != 0 then p.assetId else None)
  }

  function Deserialize(o: JsonRecord): Option<NotePayload>
  {
    if !IsDecimal(o.a) || !IsDecimal(o.b) || !IsDecimal(o.s) || !IsDecimal(o.n) || !IsHex(o.c) then None
    else Some(NotePayload(o.v, ParseDecimal(o.a), ParseDecimal(o.b), ParseDecimal(o.s), ParseDecimal(o.n),
                          BytesOf(EvenLength(o.c)), o.t, o.i))
  }

  /** What a payload reads back as: itself, with a zero asset id gone. */
  function Normal(p: NotePayload): NotePayload
  {
    p.(assetId := if p.assetId == Some(0) then None else p.assetId)
  }

  lemma SerializeRoundTrip(p: NotePayload)
    ensures Deserialize(Serialize(p)) == Some(Normal(p))
  {
    hide Decimal, ParseDecimal, HexOf, BytesOf;
    DecimalRoundTrip(p.amount);
    DecimalRoundTrip(p.blinding);
    DecimalRoundTrip(p.ownerSk);
    DecimalRoundTrip(p.nonce);
    BytesOfHexOf(p.commitment);
  }

  function EncryptNote(x: Primitives, payload: NotePayload, receiverViewingPk: Bytes, ephSk: Bytes32): EncryptedNote
  {
    var ephPk := x.publicKey(ephSk);
    var key := DeriveKey(x, x.shared(ephSk, receiverViewingPk), ephPk);
    var nonce := x.sha256(ephPk)[..24];
    EncryptedNote(ephPk, nonce, x.seal(key, nonce, Serialize(payload)))
  }

  /** Trial decryption: nothing for a note that is not ours, or of another version. */
  function TryDecryptNote(x: Primitives, note: EncryptedNote, viewingSecretKey: Bytes32): Option<NotePayload>
  {
    var key := DeriveKey(x, x.shared(viewingSecretKey, note.ephemeralPublicKey), note.ephemeralPublicKey);
    var plain := x.open(key, note.nonce, note.ciphertext);
    if plain.None? then None
    else
      var payload := Deserialize(plain.value);
      if payload.None? || payload.value.version != NOTE_PAYLOAD_VERSION then None else payload
  }

  function Wire(n: EncryptedNote): Bytes
  {
    n.ephemeralPublicKey + n.nonce + n.ciphertext
  }

  /** Key, nonce and ciphertext copied into one buffer at their fixed offsets. */
  method EncodeEncryptedNote(n: EncryptedNote) returns (r: Bytes)
    requires |n.ephemeralPublicKey| == 32 && |n.nonce| == 24
    ensures r == Wire(n)
  {
    var out := new Byte[56 + |n.ciphertext|](_ => 0);
    forall i | 0 <= i < 32 { out[i] := n.ephemeralPublicKey[i]; }
    forall i | 0 <= i < 24 { out[32 + i] := n.nonce[i]; }
    forall i | 0 <= i < |n.ciphertext| { out[56 + i] := n.ciphertext[i]; }
    r := out[..];
    assert r[..32] == n.ephemeralPublicKey && r[32..56] == n.nonce && r[56..] == n.ciphertext;
    assert r == r[..32] + r[32..56] + r[56..];
  }

  function DecodeEncryptedNote(bytes: Bytes): Option<EncryptedNote>
  {
    if |bytes| < 57 then None else Some(EncryptedNote(bytes[..32], bytes[32..56], bytes[56..]))
  }

  /** The label is the text "stx-shield-note" and one zero byte. */
  lemma KeyLabelIsText()
    ensures |KEY_LABEL| == |"stx-shield-note"| + 1 && KEY_LABEL[15] == 0
    ensures forall i :: 0 <= i < 15 ==> KEY_LABEL[i] == "stx-shield-note"[i] as int
  {}

  /** What goes over the wire: the ephemeral public key, a nonce anyone can recompute from it, and the sealed payload,
      every number under its own letter. */
  lemma WireFormat(x: Primitives, payload: NotePayload, receiverViewingPk: Bytes, ephSk: Bytes32)
    ensures var w := Wire(EncryptNote(x, payload, receiverViewingPk, ephSk));
            var pk := x.publicKey(ephSk);
            && |w| >= 56 && w[..32] == pk && w[32..56] == x.sha256(pk)[..24]
            && exists json: JsonRecord ::
                 && w[56..] == x.seal(x.sha256(x.shared(ephSk, receiverViewingPk) + pk + KEY_LABEL), w[32..56], json)
                 && json.v == payload.version && json.t == payload.treePosition && json.c == HexOf(payload.commitment)
                 && Reads(json.a, payload.amount) && Reads(json.b, payload.blinding)
                 && Reads(json.s, payload.ownerSk) && Reads(json.n, payload.nonce)
                 && json.i == if payload.assetId == Some(0) then None else payload.assetId
  {
    hide Decimal, ParseDecimal, IsDecimal, HexOf;
    var note := EncryptNote(x, payload, receiverViewingPk, ephSk);
    var w := Wire(note);
    assert w[..32] == note.ephemeralPublicKey && w[32..56] == note.nonce && w[56..] == note.ciphertext;
    DecimalRoundTrip(payload.amount);
    DecimalRoundTrip(payload.blinding);
    DecimalRoundTrip(payload.ownerSk);
    DecimalRoundTrip(payload.nonce);
    var json := Serialize(payload);
    assert w[56..] == x.seal(x.sha256(x.shared(ephSk, receiverViewingPk) + x.publicKey(ephSk) + KEY_LABEL), w[32..56],
                             json);
  }

  /** A decimal text and the integer it stands for. */
  ghost predicate Reads(text: string, n: int)
  {
    IsDecimal(text) && ParseDecimal(text) == n
  }

  /** A note opens to a payload if and only if its ciphertext opens, under the key agreed with its ephemeral key, to a
      version-1 record with that payload's numbers under their letters. */
  lemma OpensExactly(x: Primitives, note: EncryptedNote, viewingSk: Bytes32, p: NotePayload)
    ensures TryDecryptNote(x, note, viewingSk) == Some(p) <==>
            var pk := note.ephemeralPublicKey;
            var plain := x.open(x.sha256(x.shared(viewingSk, pk) + pk + KEY_LABEL), note.nonce, note.ciphertext);
            plain.Some? && Carries(plain.value, p) && p.version == 1
  {
    hide IsDecimal, ParseDecimal, IsHex, BytesOf;
  }

  ghost predicate Carries(json: JsonRecord, p: NotePayload)
  {
    && json.v == p.version && json.t == p.treePosition && json.i == p.assetId
    && Reads(json.a, p.amount) && Reads(json.b, p.blinding) && Reads(json.s, p.ownerSk) && Reads(json.n, p.nonce)
    && IsHex(json.c) && p.commitment == BytesOf(EvenLength(json.c))
  }

  /** The wire form is read back exactly when there is a ciphertext at all. */
  lemma WireRoundTrip(n: EncryptedNote)
    requires |n.ephemeralPublicKey| == 32 && |n.nonce| == 24
    ensures DecodeEncryptedNote(Wire(n)) == Some(n) <==> n.ciphertext != []
  {
    var w := Wire(n);
    assert w[..32] == n.ephemeralPublicKey && w[32..56] == n.nonce && w[56..] == n.ciphertext;
  }

  /** A note sealed for a viewing key opens with its secret, to the same payload. */
  lemma DecryptsOwn(x: Primitives, payload: NotePayload, viewingSk: Bytes32, ephSk: Bytes32)
    requires Agrees(x) && Opens(x) && payload.version == NOTE_PAYLOAD_VERSION
    ensures var note := EncryptNote(x, payload, x.publicKey(viewingSk), ephSk);
            && DecodeEncryptedNote(Wire(note)) == Some(note)
            && TryDecryptNote(x, note, viewingSk) == Some(Normal(payload))
  {
    hide Serialize, Deserialize, DeriveKey, Wire, DecodeEncryptedNote;
    var note := EncryptNote(x, payload, x.publicKey(viewingSk), ephSk);
    SerializeRoundTrip(payload);
    var key := DeriveKey(x, x.shared(ephSk, x.publicKey(viewingSk)), note.ephemeralPublicKey);
    assert x.shared(ephSk, x.publicKey(viewingSk)) == x.shared(viewingSk, x.publicKey(ephSk));
    assert x.open(key, note.nonce, x.seal(key, note.nonce, Serialize(payload))) == Some(Serialize(payload));
    WireRoundTrip(note);
  }

  /** `toHex` adds a prefix of its own. */
  function ToHexText(b: Bytes): string
  {
    "0x" + HexOf(b)
  }

  /** Reading strips one prefix before decoding and `hexToBytes` strips another: none, one or two are read alike. */
  lemma PrefixesStripped(b: Bytes)
    ensures var s := HexOf(b);
            && IsHex(StripPrefix(StripPrefix(s))) && HexToBytesSpec(StripPrefix(s)) == b
            && IsHex(StripPrefix(StripPrefix("0x" + s))) && HexToBytesSpec(StripPrefix("0x" + s)) == b
            && IsHex(StripPrefix(StripPrefix("0x" + ToHexText(b))))
            && HexToBytesSpec(StripPrefix("0x" + ToHexText(b))) == b
  {
    hide HexOf, BytesOf;
    var s := HexOf(b);
    BytesOfHexOf(b);
    HexHasNoPrefix(s);
    assert StripPrefix("0x" + s) == s && StripPrefix("0x" + ToHexText(b)) == "0x" + s;
  }
}
