/** Values shared by the whole envelope model: bytes, UTF-16 code units,
    JavaScript strings, and the clamping `slice` of an ArrayBuffer. */
module Bytes {

  /** One element of a Uint8Array. */
  type byte = x: int | 0 <= x < 0x100

  /** One element of a Uint16Array, which is also one UTF-16 code unit:
      what `String.prototype.charCodeAt` returns. */
  type CodeUnit = x: int | 0 <= x < 0x1_0000

  /** A JavaScript string is a sequence of UTF-16 code units (lone surrogates included). */
  type JsString = seq<CodeUnit>

  /** The contents of an ArrayBuffer. */
  type Bytes = seq<byte>

  datatype Option<+T> = None | Some(value: T)

  datatype Result<+T, +E> = Ok(value: T) | Err(error: E)

  /** The order in which a Uint16Array view stores the two bytes of an element:
      the byte order of the host. */
  datatype Endian = LittleEndian | BigEndian

  function Min(a: int, b: int): int {
    if a <= b then a else b
  }

  /** `ArrayBuffer.prototype.slice(start, end)` for non-negative integer arguments:
      both positions are clamped to the buffer length, and an end at or before
      the start gives an empty buffer. It never fails. */
  function Slice(buf: Bytes, start: nat, end: nat): (r: Bytes)
    ensures start <= end <= |buf| ==> r == buf[start..end]
    ensures start <= |buf| <= end ==> r == buf[start..]
    ensures |buf| <= start || end <= start ==> r == []
  {
    var first := Min(start, |buf|);
    var final := Min(end, |buf|);
    if final <= first then [] else buf[first..final]
  }

  /** A string literal made of ASCII characters, as code units. */
  function Ascii(s: string): (r: JsString)
    requires forall i :: 0 <= i < |s| ==> s[i] as int < 0x80
    ensures |r| == |s|
    ensures forall i :: 0 <= i < |s| ==> r[i] == s[i] as int
  {
    seq(|s|, i requires 0 <= i < |s| => s[i] as int)
  }
}
