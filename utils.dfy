/** src/utils.ts: `str2ab`, which stores a string as one Uint16Array element per
    code unit, and the byte-to-character step of `arrayBufferToB64`. */
module Utils {
  import opened Bytes

  /** The two bytes a Uint16Array view stores for the element c, in host order. */
  function UnitBytes(c: CodeUnit, e: Endian): (r: Bytes)
    ensures |r| == 2
  {
    match e
    case LittleEndian => [c % 0x100, c / 0x100]
    case BigEndian => [c / 0x100, c % 0x100]
  }

  /** The element a Uint16Array view reads from its two bytes b0, b1, in host order. */
  function ReadUnit(b0: byte, b1: byte, e: Endian): CodeUnit {
    match e
    case LittleEndian => b0 + 0x100 * b1
    case BigEndian => 0x100 * b0 + b1
  }

  /** Reading back a stored element gives the element. */
  lemma ReadUnitBytes(c: CodeUnit, e: Endian)
    ensures ReadUnit(UnitBytes(c, e)[0], UnitBytes(c, e)[1], e) == c
  {
  }

  /** Every pair of bytes is what some element is stored as. */
  lemma UnitBytesRead(b0: byte, b1: byte, e: Endian)
    ensures UnitBytes(ReadUnit(b0, b1, e), e) == [b0, b1]
  {
    var lo, hi := if e == LittleEndian then b0 else b1, if e == LittleEndian then b1 else b0;
    var c := lo + 0x100 * hi;
    assert c == ReadUnit(b0, b1, e);
    assert c / 0x100 == hi && c % 0x100 == lo;
  }

  /** The bytes of the ArrayBuffer that `str2ab` returns for s. */
  function EncodeUnits(s: JsString, e: Endian): (r: Bytes)
    ensures |r| == 2 * |s|
  {
    if s == [] then [] else UnitBytes(s[0], e) + EncodeUnits(s[1..], e)
  }

  /** Element k of a Uint16Array view on buf. */
  function UnitAt(buf: Bytes, e: Endian, k: nat): CodeUnit
    requires 2 * k + 1 < |buf|
  {
    ReadUnit(buf[2 * k], buf[2 * k + 1], e)
  }

  /** Per-unit content: element i of the view on `str2ab(s)` is `s.charCodeAt(i)`,
      for every code unit, those above 255 included. */
  lemma {:induction false} EncodeUnitsAt(s: JsString, e: Endian, i: nat)
    requires i < |s|
    ensures UnitAt(EncodeUnits(s, e), e, i) == s[i]
  {
    var r := EncodeUnits(s, e);
    assert r == UnitBytes(s[0], e) + EncodeUnits(s[1..], e);
    if i == 0 {
      ReadUnitBytes(s[0], e);
    } else {
      EncodeUnitsAt(s[1..], e, i - 1);
      assert r[2 * i] == EncodeUnits(s[1..], e)[2 * (i - 1)];
      assert r[2 * i + 1] == EncodeUnits(s[1..], e)[2 * (i - 1) + 1];
    }
  }

  /** The empty string gives an empty buffer, and concatenated strings give
      concatenated buffers. */
  lemma {:induction false} EncodeUnitsAppend(a: JsString, b: JsString, e: Endian)
    ensures EncodeUnits([], e) == []
    ensures EncodeUnits(a + b, e) == EncodeUnits(a, e) + EncodeUnits(b, e)
  {
    if a != [] {
      assert (a + b)[1..] == a[1..] + b;
      EncodeUnitsAppend(a[1..], b, e);
    } else {
      assert a + b == b;
    }
  }

  /** Encoding one more code unit appends its two bytes. */
  lemma EncodeUnitsSnoc(s: JsString, i: nat, e: Endian)
    requires i < |s|
    ensures EncodeUnits(s[..i + 1], e) == EncodeUnits(s[..i], e) + UnitBytes(s[i], e)
  {
    assert s[..i + 1] == s[..i] + [s[i]];
    EncodeUnitsAppend(s[..i], [s[i]], e);
    assert EncodeUnits([s[i]], e) == UnitBytes(s[i], e) + EncodeUnits([], e);
  }

  /** `str2ab`: a zero-filled buffer of 2 * |s| bytes whose Uint16Array view gets
      element i set to `s.charCodeAt(i)` for i from 0 up to |s| - 1. */
  method Str2Ab(s: JsString, e: Endian) returns (buf: array<byte>)
    ensures fresh(buf)
    ensures buf.Length == 2 * |s|
    ensures buf[..] == EncodeUnits(s, e)
  {
    buf := new byte[2 * |s|](_ => 0);
    var i := 0;
    while i < |s|
      invariant 0 <= i <= |s|
      invariant buf.Length == 2 * |s|
      invariant buf[..2 * i] == EncodeUnits(s[..i], e)
      invariant forall j :: 2 * i <= j < buf.Length ==> buf[j] == 0
    {
      // bufView[i] = str.charCodeAt(i) writes the two bytes of element i
      var unit := UnitBytes(s[i], e);
      ghost var done := buf[..2 * i];
      buf[2 * i] := unit[0];
      buf[2 * i + 1] := unit[1];
      assert buf[..2 * (i + 1)] == done + unit;
      EncodeUnitsSnoc(s, i, e);
      i := i + 1;
    }
    assert s[..i] == s;
    assert buf[..] == buf[..2 * i];
  }

  /** The binary string `String.fromCharCode.apply(null, new Uint8Array(buf))`
      that `arrayBufferToB64` hands to `btoa`: one character per byte, whose code
      is that byte. */
  function BinaryString(buf: Bytes): (s: JsString)
    ensures |s| == |buf|
    ensures forall i :: 0 <= i < |s| ==> s[i] < 0x100 && s[i] == buf[i]
  {
    seq(|buf|, i requires 0 <= i < |buf| => buf[i] as CodeUnit)
  }

  /** `arrayBufferToB64`, with the platform's `btoa` supplied by the caller. */
  function ArrayBufferToB64(buf: Bytes, btoa: JsString -> JsString): JsString {
    btoa(BinaryString(buf))
  }
}
