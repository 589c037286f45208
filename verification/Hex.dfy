/** Byte strings and their hexadecimal text (sdk/utilities/crypto.ts, sdk/src/crypto/field.ts). */
module Hex {
  import opened Digits

  type Byte = x: nat | x < 256
  type Bytes = seq<Byte>
  type Bytes32 = b: Bytes | |b| == 32 witness ZeroBytes(32)

  /** `new Uint8Array(n)`. */
  function ZeroBytes(n: nat): (b: Bytes)
    ensures |b| == n
  {
    seq(n, _ => 0)
  }

  function HexChar(d: nat): (c: char)
    requires d < 16
    ensures IsLowerHexChar(c)
  {
    if d < 10 then ('0' as int + d) as char else ('a' as int + d - 10) as char
  }

  predicate IsLowerHexChar(c: char) { '0' <= c <= '9' || 'a' <= c <= 'f' }

  predicate IsHexChar(c: char) { IsLowerHexChar(c) || 'A' <= c <= 'F' }

  predicate IsHex(s: string) { forall i :: 0 <= i < |s| ==> IsHexChar(s[i]) }

  predicate IsLowerHex(s: string) { forall i :: 0 <= i < |s| ==> IsLowerHexChar(s[i]) }

  function HexVal(c: char): (d: nat)
    requires IsHexChar(c)
    ensures d < 16
  {
    if '0' <= c <= '9' then c as int - '0' as int
    else if 'a' <= c <= 'f' then c as int - 'a' as int + 10
    else c as int - 'A' as int + 10
  }

  /** The digits in the order of their values, in lower case as they are written and in either case as they are read. */
  lemma HexDigitsInOrder(d: nat)
    requires d < 16
    ensures HexChar(d) == "0123456789abcdef"[d]
    ensures HexVal("0123456789abcdef"[d]) == d && HexVal("0123456789ABCDEF"[d]) == d
  {}

  function DigitsOf(s: string): (ds: seq<nat>)
    requires IsHex(s)
    ensures |ds| == |s| && Below(ds, 16)
  {
    seq(|s|, i requires 0 <= i < |s| => HexVal(s[i]))
  }

  function TextOf(ds: seq<nat>): (s: string)
    requires Below(ds, 16)
    ensures |s| == |ds| && IsLowerHex(s) && IsHex(s) && DigitsOf(s) == ds
  {
    assert forall d: nat | d < 16 :: HexVal(HexChar(d)) == d;
    seq(|ds|, i requires 0 <= i < |ds| => HexChar(ds[i]))
  }

  /** `BigInt("0x" + s)`. */
  function ParseHex(s: string): nat
    requires IsHex(s)
  {
    Val(DigitsOf(s), 16)
  }

  /** `n.toString(16)`. */
  function ToString16(n: nat): (s: string)
    ensures IsLowerHex(s) && IsHex(s)
  {
    ToDigitsDenotes(n, 16);
    TextOf(ToDigits(n, 16))
  }

  /** `s.padStart(width, "0")`. */
  function PadStart(s: string, width: nat): (r: string)
    requires IsLowerHex(s)
    ensures IsLowerHex(r) && IsHex(r)
    ensures |r| == if |s| < width then width else |s|
  {
    if |s| < width then TextOf(Zeros(width - |s|)) + s else s
  }

  lemma PadKeepsValue(s: string, width: nat)
    requires IsLowerHex(s)
    ensures IsHex(s) && ParseHex(PadStart(s, width)) == ParseHex(s)
  {
    if |s| < width {
      var k := width - |s|;
      assert DigitsOf(PadStart(s, width)) == Zeros(k) + DigitsOf(s);
      LeadingZeros(k, DigitsOf(s), 16);
    }
  }

  /** Fixed-width text of a number that fits: exactly `width` digits, denoting it. */
  lemma FixedWidth(n: nat, width: nat)
    requires width > 0 && n < Pow(16, width)
    ensures |PadStart(ToString16(n), width)| == width
    ensures ParseHex(PadStart(ToString16(n), width)) == n
  {
    ToDigitsDenotes(n, 16);
    ToDigitsLength(n, 16, width);
    PadKeepsValue(ToString16(n), width);
  }

  /** The byte that two digits spell. */
  function ByteOf(high: char, low: char): Byte
    requires IsHexChar(high) && IsHexChar(low)
  {
    16 * HexVal(high) + HexVal(low)
  }

  /** Two-digit text of one byte, as the loops over bytes append it. */
  function HexByte(x: Byte): (s: string)
    ensures |s| == 2 && IsLowerHex(s) && IsHex(s)
    ensures ByteOf(s[0], s[1]) == x
  {
    var s := PadStart(ToString16(x), 2);
    assert |s| == 2 && ByteOf(s[0], s[1]) == x by {
      assert Pow(16, 2) == 256 by { assert Pow(16, 0) == 1 && Pow(16, 1) == 16; }
      FixedWidth(x, 2);
      var ds := DigitsOf(s);
      assert Val(ds, 16) == (Val(ds[..1][..0], 16) * 16 + ds[0]) * 16 + ds[1];
      assert ds[..1][..0] == [];
    }
    s
  }

  function HexOf(b: Bytes): (s: string)
    ensures |s| == 2 * |b| && IsLowerHex(s) && IsHex(s)
  {
    if b == [] then "" else HexOf(b[..|b| - 1]) + HexByte(b[|b| - 1])
  }

  function BytesOf(s: string): (b: Bytes)
    requires IsHex(s) && |s| % 2 == 0
    ensures |b| == |s| / 2
  {
    if s == "" then []
    else BytesOf(s[..|s| - 2]) + [ByteOf(s[|s| - 2], s[|s| - 1])]
  }

  function BytesVal(b: Bytes): nat { Val(b, 256) }

  lemma BytesOfSnoc(s: string, last: string)
    requires IsHex(s) && |s| % 2 == 0 && IsHex(last) && |last| == 2
    ensures IsHex(s + last) && BytesOf(s + last) == BytesOf(s) + [ByteOf(last[0], last[1])]
  {
    hide ByteOf, IsHexChar;
    assert (s + last)[..|s + last| - 2] == s;
  }

  lemma HexOfSnoc(front: Bytes, last: Byte)
    ensures HexOf(front + [last]) == HexOf(front) + HexByte(last)
  {
    hide HexByte;
    assert (front + [last])[..|front|] == front;
  }

  lemma {:induction false} BytesOfHexOf(b: Bytes)
    ensures BytesOf(HexOf(b)) == b
  {
    if b == [] {
      assert HexOf(b) == "";
    } else {
      hide *;
      var front: Bytes, last: Byte := b[..|b| - 1], b[|b| - 1];
      assert b == front + [last];
      BytesOfHexOf(front);
      HexOfSnoc(front, last);
      BytesOfSnoc(HexOf(front), HexByte(last));
    }
  }

  lemma {:induction false} HexOfBytesOf(s: string)
    requires IsLowerHex(s) && |s| % 2 == 0
    ensures IsHex(s) && HexOf(BytesOf(s)) == s
  {
    if s != "" {
      var t := s[..|s| - 2];
      HexOfBytesOf(t);
      var b := BytesOf(s);
      assert b[..|b| - 1] == BytesOf(t);
      SameByteText(HexByte(b[|b| - 1]), s[|s| - 2..]);
    }
  }

  lemma SameByteText(s: string, t: string)
    requires |s| == |t| == 2 && IsLowerHex(s) && IsLowerHex(t)
    requires ByteOf(s[0], s[1]) == ByteOf(t[0], t[1])
    ensures s == t
  {
    assert HexVal(s[0]) == HexVal(t[0]) && HexVal(s[1]) == HexVal(t[1]);
    assert s[0] == t[0] && s[1] == t[1];
  }

  lemma LastTwoDigits(s: string)
    requires IsHex(s) && |s| >= 2
    ensures var n := |s|; ParseHex(s) == ParseHex(s[..n - 2]) * 256 + ByteOf(s[n - 2], s[n - 1])
  {
    var n, ds := |s|, DigitsOf(s);
    assert ds[..n - 1][..n - 2] == DigitsOf(s[..n - 2]);
    assert Val(ds, 16) == (Val(ds[..n - 1][..n - 2], 16) * 16 + ds[n - 2]) * 16 + ds[n - 1];
  }

  /** Reading two digits at a time in base 256 is reading one at a time in base 16. */
  lemma {:induction false} BytesOfDenotes(s: string)
    requires IsHex(s) && |s| % 2 == 0
    ensures BytesVal(BytesOf(s)) == ParseHex(s)
  {
    if s != "" {
      hide ParseHex, ByteOf, IsHexChar;
      BytesOfDenotes(s[..|s| - 2]);
      LastTwoDigits(s);
      var b := BytesOf(s);
      assert b[..|b| - 1] == BytesOf(s[..|s| - 2]);
    }
  }

  lemma HexOfDenotes(b: Bytes)
    ensures ParseHex(HexOf(b)) == BytesVal(b)
  {
    BytesOfHexOf(b);
    BytesOfDenotes(HexOf(b));
  }

  lemma BytesValInjective(a: Bytes, b: Bytes)
    requires |a| == |b| && BytesVal(a) == BytesVal(b)
    ensures a == b
  {
    ValInjective(a, b, 256);
  }

  /** The loop of `bytesToHex`. */
  method BytesToHex(b: Bytes) returns (s: string)
    ensures s == HexOf(b)
  {
    s := "";
    for i := 0 to |b|
      invariant s == HexOf(b[..i])
    {
      assert b[..i + 1][..i] == b[..i];
      s := s + PadStart(ToString16(b[i]), 2);
    }
    assert b[..|b|] == b;
  }

  /** `raw.length % 2 ? "0" + raw : raw`. */
  function EvenLength(s: string): (r: string)
    requires IsHex(s)
    ensures IsHex(r) && |r| % 2 == 0
  {
    if |s| % 2 == 1 then "0" + s else s
  }

  function StripPrefix(s: string): string
  {
    if |s| >= 2 && s[..2] == "0x" then s[2..] else s
  }

  function WithPrefix(s: string): string
  {
    if |s| >= 2 && s[..2] == "0x" then s else "0x" + s
  }

  /** Hexadecimal digits never look like a prefix. */
  lemma HexHasNoPrefix(s: string)
    requires IsHex(s)
    ensures StripPrefix(s) == s
  {
    if |s| >= 2 { assert s[..2][1] == s[1] && "0x"[1] == 'x'; }
  }

  /** What `hexToBytes` of sdk/src/crypto/field.ts returns. */
  function HexToBytesSpec(h: string): Bytes
    requires IsHex(StripPrefix(h))
  {
    BytesOf(EvenLength(StripPrefix(h)))
  }

  /** The buffer-filling loop of `hexToBytes`. */
  method HexToBytes(h: string) returns (b: Bytes)
    requires IsHex(StripPrefix(h))
    ensures b == HexToBytesSpec(h)
  {
    var s := EvenLength(StripPrefix(h));
    var out := new Byte[|s| / 2](_ => 0);
    for i := 0 to out.Length
      invariant out[..i] == BytesOf(s[..2 * i])
    {
      assert s[..2 * (i + 1)][..2 * i] == s[..2 * i];
      out[i] := ByteOf(s[2 * i], s[2 * i + 1]);
      assert out[..i + 1] == out[..i] + [out[i]];
    }
    assert s[..2 * out.Length] == s;
    assert out[..out.Length] == out[..];
    b := out[..];
  }

  /** `toHex32`. */
  function ToHex32(x: nat): string
  {
    "0x" + PadStart(ToString16(x), 64)
  }

  /** `bytesToBig`: the big-endian number, with empty input read as zero. */
  function BytesToBig(b: Bytes): nat
  {
    ParseHex(if HexOf(b) == "" then "0" else HexOf(b))
  }

  lemma BytesToBigIsValue(b: Bytes)
    ensures BytesToBig(b) == BytesVal(b)
  {
    HexOfDenotes(b);
    if b == [] { assert DigitsOf("0")[..0] == []; }
  }
}
