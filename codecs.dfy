/** src/index.ts: the two string/buffer codecs `ab2str` and `uint8Str2Ab`. */
module Codecs {
  import opened Bytes
  import Utils

  /** `ab2str`: the string made of the elements of a Uint16Array view on buf.
      Creating that view throws a RangeError when the byte length is odd. */
  function Ab2Str(buf: Bytes, e: Endian): (r: Option<JsString>)
    ensures r.Some? <==> |buf| % 2 == 0
    ensures r.Some? ==> 2 * |r.value| == |buf|
  {
    if |buf| % 2 != 0 then None
    else Some(seq(|buf| / 2, k requires 0 <= k < |buf| / 2 => Utils.UnitAt(buf, e, k)))
  }

  /** `ab2str` undoes `str2ab`: the buffer of 2k bytes gives back the k code units. */
  lemma Ab2StrStr2Ab(s: JsString, e: Endian)
    ensures Ab2Str(Utils.EncodeUnits(s, e), e) == Some(s)
  {
    var buf := Utils.EncodeUnits(s, e);
    var r := Ab2Str(buf, e);
    assert |buf| % 2 == 0 && r.Some? && |r.value| == |s|;
    forall k | 0 <= k < |s|
      ensures r.value[k] == s[k]
    {
      Utils.EncodeUnitsAt(s, e, k);
    }
    assert r.value == s;
  }

  /** Decoding a buffer of two or more bytes: its first code unit, then what
      the rest of the buffer decodes to. */
  lemma Ab2StrTail(buf: Bytes, s: JsString, e: Endian)
    requires Ab2Str(buf, e) == Some(s) && s != []
    ensures Ab2Str(buf[2..], e) == Some(s[1..])
    ensures s[0] == Utils.UnitAt(buf, e, 0)
  {
    var rest := buf[2..];
    var tail := Ab2Str(rest, e);
    assert tail.Some?;
    forall k | 0 <= k < |tail.value|
      ensures tail.value[k] == s[1..][k]
    {
      assert Utils.UnitAt(rest, e, k) == Utils.UnitAt(buf, e, k + 1);
    }
    assert tail.value == s[1..];
  }

  /** ...and `str2ab` undoes `ab2str`: a buffer that decodes to s is the encoding of s. */
  lemma {:induction false} Str2AbAb2Str(buf: Bytes, s: JsString, e: Endian)
    requires Ab2Str(buf, e) == Some(s)
    ensures Utils.EncodeUnits(s, e) == buf
  {
    if s != [] {
      Ab2StrTail(buf, s, e);
      Str2AbAb2Str(buf[2..], s[1..], e);
      Utils.UnitBytesRead(buf[0], buf[1], e);
      assert buf == buf[..2] + buf[2..];
    }
  }

  /** The bytes `uint8Str2Ab` stores: each code unit reduced modulo 256 by the
      Uint8Array store. Nothing is lost exactly when every code unit is below 256. */
  function TruncateUnits(s: JsString): (r: Bytes)
    ensures |r| == |s|
    ensures (forall i :: 0 <= i < |s| ==> s[i] < 0x100) <==> Utils.BinaryString(r) == s
  {
    var r := seq(|s|, i requires 0 <= i < |s| => s[i] % 0x100);
    assert (exists i :: 0 <= i < |s| && s[i] >= 0x100) ==> Utils.BinaryString(r) != s by {
      if i :| 0 <= i < |s| && s[i] >= 0x100 {
        assert Utils.BinaryString(r)[i] != s[i];
      }
    }
    r
  }

  /** A binary string (every code below 256, as `atob` returns) survives
      `uint8Str2Ab` byte for byte. */
  lemma TruncateBinaryString(buf: Bytes)
    ensures TruncateUnits(Utils.BinaryString(buf)) == buf
  {
  }

  /** What `arrayBufferToB64` produces decodes back to the buffer: given an
      `atob` that undoes `btoa` on binary strings, `uint8Str2Ab(atob(b64))`
      (the decoding path `pemPublicKeyToCryptoKey` takes) gives back every byte.
      Here `atob` is taken at face value, as a map from text to the binary
      string it returns; `Pem.PemPublicKeyToCryptoKey` instead takes it as the
      bytes of that binary string, or None when it throws, because there the
      failure path matters and `TruncateBinaryString` already shows that the
      bytes and the binary string carry the same information. */
  lemma {:induction false} ArrayBufferToB64RoundTrip(buf: Bytes, btoa: JsString -> JsString, atob: JsString -> JsString)
    requires forall s: JsString :: (forall i :: 0 <= i < |s| ==> s[i] < 0x100) ==> atob(btoa(s)) == s
    ensures TruncateUnits(atob(Utils.ArrayBufferToB64(buf, btoa))) == buf
  {
    var binary := Utils.BinaryString(buf);
    assert atob(btoa(binary)) == binary;
    TruncateBinaryString(buf);
  }

  /** `uint8Str2Ab`: a zero-filled buffer of |s| bytes whose byte i gets
      `s.charCodeAt(i)`, truncated to 8 bits by the store. */
  method Uint8Str2Ab(s: JsString) returns (buf: array<byte>)
    ensures fresh(buf)
    ensures buf.Length == |s|
    ensures forall i :: 0 <= i < |s| ==> buf[i] == s[i] % 0x100
    ensures buf[..] == TruncateUnits(s)
  {
    buf := new byte[|s|](_ => 0);
    for i := 0 to |s|
      invariant forall j :: 0 <= j < i ==> buf[j] == s[j] % 0x100
    {
      buf[i] := s[i] % 0x100;
    }
  }
}
