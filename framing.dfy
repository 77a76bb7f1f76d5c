/** src/index.ts: the two-byte length prefix, the envelope that `HybridEncrypt`
    assembles, and the two slices `HybridDecrypt` cuts from it.

    Envelope layout, as the code writes it:
      offset 0      two bytes: N / 256 truncated to 8 bits, then N % 256
                    (high byte first, whatever the helpers' names say)
      offset 2      the RSA-OAEP ciphertext, N bytes
      offset 2 + N  the AES-GCM ciphertext, up to the end
    Nothing checks that N fits in 16 bits, and nothing checks the length of a
    received buffer. */
module Framing {
  import opened Bytes

  const PREFIX_SIZE := 2

  /** `numberToLEBuffer`: a Uint8Array of `[num / 256, num % 256]`. Each store
      truncates to 8 bits, so the two bytes hold num modulo 65536, high byte first. */
  function NumberToLEBuffer(num: nat): (r: Bytes)
    ensures |r| == PREFIX_SIZE
    ensures r[0] as int * 0x100 + r[1] == num % 0x1_0000
  {
    var r := [(num / 0x100) % 0x100, num % 0x100];
    PrefixValue(num);
    r
  }

  lemma PrefixValue(num: nat)
    ensures ((num / 0x100) % 0x100) * 0x100 + num % 0x100 == num % 0x1_0000
  {
    var q, lo := num / 0x100, num % 0x100;
    var hi, top := q % 0x100, q / 0x100;
    assert num == q * 0x100 + lo;
    assert q == top * 0x100 + hi;
    assert num == top * 0x1_0000 + (hi * 0x100 + lo);
    assert 0 <= hi * 0x100 + lo < 0x1_0000;
  }

  /** `numberFromLEBuffer`: the first two bytes read as `b0 * 256 + b1`. With
      fewer than two bytes one of them is `undefined` and the sum is NaN, shown
      here as None. */
  function NumberFromLEBuffer(buffer: Bytes): (r: Option<nat>)
    ensures r.Some? <==> |buffer| >= PREFIX_SIZE
    ensures r.Some? ==> r.value < 0x1_0000
  {
    var intArray := Slice(buffer, 0, PREFIX_SIZE);
    if |intArray| < PREFIX_SIZE then None else Some(intArray[0] as int * 0x100 + intArray[1])
  }

  /** Prefix round trip: decoding an encoded length gives it back modulo 65536,
      so exactly for lengths below 65536; a larger length wraps without error. */
  lemma PrefixRoundTrip(num: nat)
    ensures NumberFromLEBuffer(NumberToLEBuffer(num)) == Some(num % 0x1_0000)
    ensures num < 0x1_0000 ==> NumberFromLEBuffer(NumberToLEBuffer(num)) == Some(num)
  {
  }

  /** ...and the other way round: the first two bytes of any buffer are the
      encoding of the length they declare. */
  lemma PrefixDecodeEncode(buffer: Bytes)
    requires |buffer| >= PREFIX_SIZE
    ensures NumberToLEBuffer(NumberFromLEBuffer(buffer).value) == buffer[..PREFIX_SIZE]
  {
    var n := buffer[0] as int * 0x100 + buffer[1];
    assert n / 0x100 == buffer[0] && n % 0x100 == buffer[1];
  }

  /** The envelope built from the two ciphertexts, as a value. */
  function Frame(rsaCipherText: Bytes, aesCipherText: Bytes): (env: Bytes)
    ensures |env| == PREFIX_SIZE + |rsaCipherText| + |aesCipherText|
    ensures env[PREFIX_SIZE..PREFIX_SIZE + |rsaCipherText|] == rsaCipherText
    ensures env[PREFIX_SIZE + |rsaCipherText|..] == aesCipherText
    ensures NumberFromLEBuffer(env) == Some(|rsaCipherText| % 0x1_0000)
  {
    var prefix := NumberToLEBuffer(|rsaCipherText|);
    var env := prefix + rsaCipherText + aesCipherText;
    assert env[..PREFIX_SIZE] == prefix;
    env
  }

  /** `TypedArray.prototype.set(src, offset)` on a Uint8Array when src fits at
      offset (the only way the envelope code calls it): bytes offset up to
      offset + |src| become src, the others keep their values. */
  method SetBytes(target: array<byte>, src: Bytes, offset: nat)
    requires offset + |src| <= target.Length
    modifies target
    ensures target[..] == old(target[..offset]) + src + old(target[offset + |src|..])
  {
    forall i | 0 <= i < |src| {
      target[offset + i] := src[i];
    }
    assert target[..] == old(target[..offset]) + src + old(target[offset + |src|..]) by {
      var expected := old(target[..offset]) + src + old(target[offset + |src|..]);
      assert |target[..]| == |expected|;
      forall k | 0 <= k < target.Length
        ensures target[..][k] == expected[k]
      {
        if k < offset {
        } else if k < offset + |src| {
          assert target[k] == src[k - offset];
        } else {
        }
      }
    }
  }

  /** The assembly in `HybridEncrypt`: a zero-filled Uint8Array of the total
      length, then the prefix set at 0, the RSA ciphertext at 2 and the AES
      ciphertext right after it. Every byte is written and the result is the
      framed envelope, nothing else. */
  method BuildEnvelope(rsaCipherText: Bytes, aesCipherText: Bytes) returns (resultBuffer: array<byte>)
    ensures fresh(resultBuffer)
    ensures resultBuffer.Length == PREFIX_SIZE + |rsaCipherText| + |aesCipherText|
    ensures resultBuffer[..] == Frame(rsaCipherText, aesCipherText)
  {
    var rsaCipherLength := NumberToLEBuffer(|rsaCipherText|);
    resultBuffer := new byte[|rsaCipherLength| + |rsaCipherText| + |aesCipherText|](_ => 0);
    SetBytes(resultBuffer, rsaCipherLength, 0);
    assert resultBuffer[..PREFIX_SIZE] == rsaCipherLength;
    SetBytes(resultBuffer, rsaCipherText, |rsaCipherLength|);
    assert resultBuffer[..PREFIX_SIZE + |rsaCipherText|] == rsaCipherLength + rsaCipherText;
    SetBytes(resultBuffer, aesCipherText, |rsaCipherLength| + |rsaCipherText|);
    assert resultBuffer[..] == rsaCipherLength + rsaCipherText + aesCipherText;
  }

  /** The slices `HybridDecrypt` cuts from a received buffer: the length read from
      its first two bytes, then `slice(2, 2 + N)` and `slice(2 + N)`. When the
      length is NaN, both slice positions convert to 0. */
  function SplitEnvelope(cipherText: Bytes): (parts: (Bytes, Bytes))
    ensures |cipherText| >= PREFIX_SIZE ==>
      var cut := Min(PREFIX_SIZE + cipherText[0] as int * 0x100 + cipherText[1], |cipherText|);
      parts.0 == cipherText[PREFIX_SIZE..cut] && parts.1 == cipherText[cut..]
    ensures |cipherText| < PREFIX_SIZE ==> parts.0 == [] && parts.1 == cipherText
    ensures |cipherText| >= PREFIX_SIZE ==> cipherText == cipherText[..PREFIX_SIZE] + parts.0 + parts.1
  {
    match NumberFromLEBuffer(Slice(cipherText, 0, PREFIX_SIZE))
    case Some(rsaLength) =>
      (Slice(cipherText, PREFIX_SIZE, PREFIX_SIZE + rsaLength), Slice(cipherText, PREFIX_SIZE + rsaLength, |cipherText|))
    case None =>
      (Slice(cipherText, PREFIX_SIZE, 0), Slice(cipherText, 0, |cipherText|))
  }

  /** Framing round trip: splitting a framed envelope gives back the RSA
      ciphertext and the AES ciphertext exactly when the RSA ciphertext is shorter
      than 65536 bytes. A longer one loses its length modulo 65536: the split
      then hands the rest of it to the AES part. */
  lemma {:induction false} SplitFrame(rsaCipherText: Bytes, aesCipherText: Bytes)
    ensures var n := |rsaCipherText| % 0x1_0000;
      SplitEnvelope(Frame(rsaCipherText, aesCipherText)) == (rsaCipherText[..n], rsaCipherText[n..] + aesCipherText)
    ensures |rsaCipherText| < 0x1_0000 <==> SplitEnvelope(Frame(rsaCipherText, aesCipherText)) == (rsaCipherText, aesCipherText)
  {
    var env := Frame(rsaCipherText, aesCipherText);
    var n := |rsaCipherText| % 0x1_0000;
    assert env[0] as int * 0x100 + env[1] == n by {
      assert NumberFromLEBuffer(env) == Some(n);
    }
    var parts := SplitEnvelope(env);
    assert parts.0 == env[PREFIX_SIZE..PREFIX_SIZE + n];
    assert env[PREFIX_SIZE..PREFIX_SIZE + n] == rsaCipherText[..n] by {
      assert env[PREFIX_SIZE..PREFIX_SIZE + |rsaCipherText|] == rsaCipherText;
    }
    assert parts.1 == env[PREFIX_SIZE + n..];
    assert env[PREFIX_SIZE + n..] == rsaCipherText[n..] + aesCipherText by {
      assert env == env[..PREFIX_SIZE] + rsaCipherText + aesCipherText;
    }
    if |rsaCipherText| >= 0x1_0000 {
      assert |parts.0| < |rsaCipherText|;
    }
  }
}
