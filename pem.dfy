/** src/index.ts: `pemPublicKeyToCryptoKey`, which strips the PEM armour with
    three `String.prototype.replace` calls, base64-decodes the rest with `atob`,
    turns the binary string into bytes with `uint8Str2Ab` and imports them as
    an SPKI key. */
module Pem {
  import opened Bytes
  import Utils
  import Codecs

  const DASH: CodeUnit := 0x2D
  const NEWLINE: CodeUnit := 0x0A
  const SPACE: CodeUnit := 0x20

  const BEGIN_MARKER: JsString := Ascii("BEGIN PUBLIC KEY")
  const END_MARKER: JsString := Ascii("END PUBLIC KEY")

  /** The literal lit occurs in s at position i. */
  predicate OccursAt(s: JsString, lit: JsString, i: nat) {
    i + |lit| <= |s| && s[i..i + |lit|] == lit
  }

  /** The first position at or after `from` where lit occurs. */
  function FindFrom(s: JsString, lit: JsString, from: nat): (r: Option<nat>)
    decreases |s| - from
    ensures r.Some? ==> from <= r.value && OccursAt(s, lit, r.value)
    ensures r.Some? ==> forall j :: from <= j < r.value ==> !OccursAt(s, lit, j)
    ensures r.None? ==> forall j :: from <= j ==> !OccursAt(s, lit, j)
  {
    if from + |lit| > |s| then None
    else if OccursAt(s, lit, from) then Some(from)
    else FindFrom(s, lit, from + 1)
  }

  /** Where the run of dashes that ends at q begins. */
  function DashRunStart(s: JsString, q: nat): (p: nat)
    requires q <= |s|
    ensures p <= q
    ensures forall k :: p <= k < q ==> s[k] == DASH
    ensures p == 0 || s[p - 1] != DASH
  {
    if q > 0 && s[q - 1] == DASH then DashRunStart(s, q - 1) else q
  }

  /** Where the run of dashes that begins at i ends. */
  function DashRunEnd(s: JsString, i: nat): (e: nat)
    requires i <= |s|
    decreases |s| - i
    ensures i <= e <= |s|
    ensures forall k :: i <= k < e ==> s[k] == DASH
    ensures e == |s| || s[e] != DASH
  {
    if i < |s| && s[i] == DASH then DashRunEnd(s, i + 1) else i
  }

  /** s[p..e] matches the regular expression `-*MARKER-*`, with the marker at q. */
  predicate MarkerMatch(s: JsString, marker: JsString, p: nat, q: nat, e: nat) {
    p <= q && q + |marker| <= e <= |s| && OccursAt(s, marker, q)
    && (forall k :: p <= k < q ==> s[k] == DASH)
    && (forall k :: q + |marker| <= k < e ==> s[k] == DASH)
  }

  /** The span (start, marker position, end) of the match that `replace` with
      the regular expression `-*MARKER-*` removes: the dashes before the first
      occurrence of the marker, the marker and the dashes after it. */
  function MatchSpan(s: JsString, marker: JsString): (r: Option<(nat, nat, nat)>)
    ensures r.Some? ==> MarkerMatch(s, marker, r.value.0, r.value.1, r.value.2)
    ensures r.None? <==> forall p: nat, q: nat, e: nat :: !MarkerMatch(s, marker, p, q, e)
  {
    match FindFrom(s, marker, 0)
    case None => None
    case Some(q) =>
      var r := Some((DashRunStart(s, q), q, DashRunEnd(s, q + |marker|)));
      assert MarkerMatch(s, marker, r.value.0, r.value.1, r.value.2);
      r
  }

  /** The match found is the one a JavaScript regular expression finds: no match
      starts further left, and among those that start where it starts none is
      longer (both `-*` are greedy). */
  lemma FirstMatchIsLeftmostLongest(s: JsString, marker: JsString, p: nat, q: nat, e: nat)
    requires |marker| > 0 && marker[0] != DASH
    requires MatchSpan(s, marker) == Some((p, q, e))
    ensures forall p': nat, q': nat, e': nat :: MarkerMatch(s, marker, p', q', e') ==> p <= p'
    ensures forall q': nat, e': nat :: MarkerMatch(s, marker, p, q', e') ==> q' == q && e' <= e
  {
    assert FindFrom(s, marker, 0) == Some(q);
    assert s[q] == marker[0] by {
      assert s[q..q + |marker|] == marker;
    }
    forall p': nat, q': nat, e': nat | MarkerMatch(s, marker, p', q', e')
      ensures p <= p'
      ensures p' == p ==> q' == q && e' <= e
    {
      // a match starting further left, or a marker further right, would put a
      // dash where the first occurrence of the marker begins or where the run
      // of dashes before it stops; a longer match would put one where the run
      // after it stops
      assert q <= q';
    }
  }

  /** s[p..e], with the marker at q, is the match a JavaScript regular
      expression `-*MARKER-*` picks: no match starts further left, and among
      those that start at p none has its marker elsewhere or ends later. */
  ghost predicate FirstMatch(s: JsString, marker: JsString, p: nat, q: nat, e: nat) {
    MarkerMatch(s, marker, p, q, e)
    && forall p': nat, q': nat, e': nat :: MarkerMatch(s, marker, p', q', e') ==>
         p <= p' && (p' == p ==> q' == q && e' <= e)
  }

  /** There is only one first match. */
  lemma FirstMatchUnique(s: JsString, marker: JsString, p: nat, q: nat, e: nat, p': nat, q': nat, e': nat)
    requires FirstMatch(s, marker, p, q, e) && FirstMatch(s, marker, p', q', e')
    ensures p == p' && q == q' && e == e'
  {
    assert p <= p' && p' <= p;
  }

  /** `replace` with the regular expression `-*MARKER-*` (no `g` flag) and an
      empty replacement: the first match removed, or the string unchanged when
      there is none. */
  function ReplaceFirst(s: JsString, marker: JsString): (r: JsString)
    requires |marker| > 0 && marker[0] != DASH
    ensures (forall p: nat, q: nat, e: nat :: !MarkerMatch(s, marker, p, q, e)) ==> r == s
    ensures (exists p: nat, q: nat, e: nat :: MarkerMatch(s, marker, p, q, e)) ==>
      exists p: nat, q: nat, e: nat :: FirstMatch(s, marker, p, q, e) && r == s[..p] + s[e..]
    ensures forall p: nat, q: nat, e: nat :: FirstMatch(s, marker, p, q, e) ==> r == s[..p] + s[e..]
  {
    match MatchSpan(s, marker)
    case None => s
    case Some((p, q, e)) =>
      FirstMatchIsLeftmostLongest(s, marker, p, q, e);
      assert FirstMatch(s, marker, p, q, e);
      forall p': nat, q': nat, e': nat | FirstMatch(s, marker, p', q', e')
        ensures p' == p && e' == e
      {
        FirstMatchUnique(s, marker, p, q, e, p', q', e');
      }
      s[..p] + s[e..]
  }

  /** The replace cuts out the span `MatchSpan` finds. */
  lemma ReplaceFirstSpan(s: JsString, marker: JsString, p: nat, q: nat, e: nat)
    requires |marker| > 0 && marker[0] != DASH
    requires MatchSpan(s, marker) == Some((p, q, e))
    ensures ReplaceFirst(s, marker) == s[..p] + s[e..]
  {
  }

  /** `str.replace(/\n/g, '')`: every line feed removed; every other code unit,
      carriage returns included, kept in order. */
  function RemoveNewlines(s: JsString): (r: JsString)
    ensures forall i :: 0 <= i < |r| ==> r[i] != NEWLINE
    ensures (forall i :: 0 <= i < |s| ==> s[i] != NEWLINE) ==> r == s
  {
    if s == [] then []
    else
      var rest := RemoveNewlines(s[1..]);
      assert s == [s[0]] + s[1..];
      if s[0] == NEWLINE then rest else [s[0]] + rest
  }

  /** Newline removal drops the line feeds and nothing else: every other code
      unit keeps its number of occurrences. */
  lemma {:induction false} RemoveNewlinesKeepsOthers(s: JsString)
    ensures multiset(RemoveNewlines(s)) == multiset(s)[NEWLINE := 0]
  {
    if s != [] {
      RemoveNewlinesKeepsOthers(s[1..]);
      assert s == [s[0]] + s[1..];
      assert multiset(s) == multiset{s[0]} + multiset(s[1..]);
    }
  }

  /** Newline removal works piece by piece. */
  lemma {:induction false} RemoveNewlinesAppend(a: JsString, b: JsString)
    ensures RemoveNewlines(a + b) == RemoveNewlines(a) + RemoveNewlines(b)
  {
    if a == [] {
      assert a + b == b;
    } else {
      assert (a + b)[1..] == a[1..] + b;
      RemoveNewlinesAppend(a[1..], b);
    }
  }

  /** The text `pemPublicKeyToCryptoKey` hands to `atob`. */
  function StripPem(pemContent: JsString): (data: JsString)
    ensures forall i :: 0 <= i < |data| ==> data[i] != NEWLINE
  {
    RemoveNewlines(ReplaceFirst(ReplaceFirst(pemContent, BEGIN_MARKER), END_MARKER))
  }

  function Dashes(n: nat): (r: JsString)
    ensures |r| == n && forall i :: 0 <= i < n ==> r[i] == DASH
  {
    seq(n, _ => DASH)
  }

  /** A header or footer line without its line feed: five dashes on each side
      of the marker. */
  function ArmourLine(marker: JsString): (r: JsString)
    ensures |r| == |marker| + 10
    ensures r[5..|marker| + 5] == marker
    ensures forall k :: 0 <= k < 5 ==> r[k] == DASH
    ensures forall k :: |marker| + 5 <= k < |marker| + 10 ==> r[k] == DASH
  {
    var r := Dashes(5) + marker + Dashes(5);
    assert r[5..|marker| + 5] == marker;
    r
  }

  /** The footer line and what follows the body, once the header is gone. */
  function AfterHeader(body: JsString): JsString {
    [NEWLINE] + body + [NEWLINE] + ArmourLine(END_MARKER) + [NEWLINE]
  }

  /** A PEM block as OpenSSL writes it: the header line, the body, the footer line. */
  function PemBlock(body: JsString): JsString {
    ArmourLine(BEGIN_MARKER) + AfterHeader(body)
  }

  /** The run of dashes s[a..q], preceded by something else or by nothing,
      starts at a. */
  lemma {:induction false} DashRunStartAt(s: JsString, a: nat, q: nat)
    requires a <= q <= |s|
    requires forall k :: a <= k < q ==> s[k] == DASH
    requires a == 0 || s[a - 1] != DASH
    ensures DashRunStart(s, q) == a
  {
    if a < q {
      DashRunStartAt(s, a, q - 1);
    }
  }

  /** The run of dashes s[i..e], followed by something else or by nothing,
      ends at e. */
  lemma {:induction false} DashRunEndAt(s: JsString, i: nat, e: nat)
    requires i <= e <= |s|
    requires forall k :: i <= k < e ==> s[k] == DASH
    requires e == |s| || s[e] != DASH
    ensures DashRunEnd(s, i) == e
    decreases e - i
  {
    if i < e {
      DashRunEndAt(s, i + 1, e);
    }
  }

  /** One mismatching position rules an occurrence out. */
  lemma NotOccursAt(s: JsString, lit: JsString, j: nat, k: nat)
    requires k < |lit| && j + k < |s| && s[j + k] != lit[k]
    ensures !OccursAt(s, lit, j)
  {
    if j + |lit| <= |s| {
      assert s[j..j + |lit|][k] == s[j + k];
    }
  }

  /** The header marker first occurs right after the header's leading dashes. */
  lemma HeaderFound(body: JsString)
    ensures FindFrom(PemBlock(body), BEGIN_MARKER, 0) == Some(5)
  {
    var header := ArmourLine(BEGIN_MARKER);
    var pem := PemBlock(body);
    assert pem[..26] == header;
    assert OccursAt(pem, BEGIN_MARKER, 5) by {
      assert pem[5..21] == header[5..21];
    }
    forall j: nat | j < 5 ensures !OccursAt(pem, BEGIN_MARKER, j) {
      assert pem[j] == header[j];
      NotOccursAt(pem, BEGIN_MARKER, j, 0);
    }
  }

  /** The first replace removes the whole header line but its line feed. */
  lemma StripHeader(body: JsString)
    ensures ReplaceFirst(PemBlock(body), BEGIN_MARKER) == AfterHeader(body)
  {
    var header := ArmourLine(BEGIN_MARKER);
    var tail := AfterHeader(body);
    var pem := header + tail;
    HeaderFound(body);
    forall k | 0 <= k < 5 ensures pem[k] == DASH {
      assert pem[k] == header[k];
    }
    DashRunStartAt(pem, 0, 5);
    forall k | 21 <= k < 26 ensures pem[k] == DASH {
      assert pem[k] == header[k];
    }
    assert pem[26] == tail[0];
    DashRunEndAt(pem, 21, 26);
    ReplaceFirstSpan(pem, BEGIN_MARKER, 0, 5, 26);
    assert pem[26..] == tail;
  }

  /** What sits before the footer marker in the text after the header: no
      space anywhere, and the footer's leading dashes right before it. */
  lemma AfterHeaderAt(body: JsString, k: nat)
    requires forall i :: 0 <= i < |body| ==> body[i] != DASH && body[i] != SPACE
    requires k < |body| + 7
    ensures AfterHeader(body)[k] != SPACE
    ensures AfterHeader(body)[k] == DASH <==> |body| + 2 <= k
  {
    var head := [NEWLINE] + body + [NEWLINE];
    var footer := ArmourLine(END_MARKER);
    assert AfterHeader(body) == head + footer + [NEWLINE];
    if k < |body| + 2 {
      assert AfterHeader(body)[k] == head[k];
      if 0 < k < |body| + 1 {
        assert head[k] == body[k - 1];
      }
    } else {
      assert AfterHeader(body)[k] == footer[k - |body| - 2];
    }
  }

  /** The footer marker occurs in the footer line, after its five dashes. */
  lemma FooterOccurs(body: JsString)
    ensures OccursAt(AfterHeader(body), END_MARKER, |body| + 7)
  {
    var n := |body|;
    var footer := ArmourLine(END_MARKER);
    assert AfterHeader(body) == ([NEWLINE] + body + [NEWLINE]) + footer + [NEWLINE];
    assert AfterHeader(body)[n + 7..n + 21] == footer[5..19];
  }

  /** The footer marker does not occur before the footer line's marker. */
  lemma NoEarlierFooter(body: JsString, j: nat)
    requires forall i :: 0 <= i < |body| ==> body[i] != DASH && body[i] != SPACE
    requires j < |body| + 7
    ensures !OccursAt(AfterHeader(body), END_MARKER, j)
  {
    assert END_MARKER[0] != DASH && END_MARKER[3] == SPACE;
    if j >= |body| + 2 {
      AfterHeaderAt(body, j);
      NotOccursAt(AfterHeader(body), END_MARKER, j, 0);
    } else {
      // the marker's space would fall on the body, a line feed or a dash
      AfterHeaderAt(body, j + 3);
      NotOccursAt(AfterHeader(body), END_MARKER, j, 3);
    }
  }

  /** The footer marker first occurs in the footer line. */
  lemma FooterFound(body: JsString)
    requires forall i :: 0 <= i < |body| ==> body[i] != DASH && body[i] != SPACE
    ensures FindFrom(AfterHeader(body), END_MARKER, 0) == Some(|body| + 7)
  {
    FooterOccurs(body);
    forall j: nat | j < |body| + 7 ensures !OccursAt(AfterHeader(body), END_MARKER, j) {
      NoEarlierFooter(body, j);
    }
  }

  /** The footer match spans the dashes around the marker, up to the last line feed. */
  lemma FooterSpan(body: JsString)
    requires forall i :: 0 <= i < |body| ==> body[i] != DASH && body[i] != SPACE
    ensures MatchSpan(AfterHeader(body), END_MARKER) == Some((|body| + 2, |body| + 7, |body| + 26))
  {
    var s1 := AfterHeader(body);
    var n := |body|;
    var footer := ArmourLine(END_MARKER);
    FooterFound(body);
    assert s1 == ([NEWLINE] + body + [NEWLINE]) + footer + [NEWLINE];
    forall k | n + 2 <= k < n + 7 ensures s1[k] == DASH {
      AfterHeaderAt(body, k);
    }
    AfterHeaderAt(body, n + 1);
    DashRunStartAt(s1, n + 2, n + 7);
    forall k | n + 21 <= k < n + 26 ensures s1[k] == DASH {
      assert s1[k] == footer[k - n - 2];
    }
    DashRunEndAt(s1, n + 21, n + 26);
  }

  /** The text after the header, on either side of the footer line. */
  lemma AfterHeaderEnds(body: JsString)
    ensures |AfterHeader(body)| == |body| + 27
    ensures AfterHeader(body)[..|body| + 2] == [NEWLINE] + body + [NEWLINE]
    ensures AfterHeader(body)[|body| + 26..] == [NEWLINE]
  {
    var head := [NEWLINE] + body + [NEWLINE];
    assert AfterHeader(body) == head + ArmourLine(END_MARKER) + [NEWLINE];
  }

  /** The second replace removes the footer line but its line feed. */
  lemma StripFooter(body: JsString)
    requires forall i :: 0 <= i < |body| ==> body[i] != DASH && body[i] != SPACE
    ensures ReplaceFirst(AfterHeader(body), END_MARKER) == [NEWLINE] + body + [NEWLINE] + [NEWLINE]
  {
    var n := |body|;
    FooterSpan(body);
    ReplaceFirstSpan(AfterHeader(body), END_MARKER, n + 2, n + 7, n + 26);
    AfterHeaderEnds(body);
  }

  /** The line feeds left around the body after both replaces disappear. */
  lemma RemoveNewlinesAround(body: JsString)
    ensures RemoveNewlines([NEWLINE] + body + [NEWLINE] + [NEWLINE]) == RemoveNewlines(body)
  {
    RemoveNewlinesAppend([NEWLINE] + body + [NEWLINE], [NEWLINE]);
    RemoveNewlinesAppend([NEWLINE] + body, [NEWLINE]);
    RemoveNewlinesAppend([NEWLINE], body);
    assert RemoveNewlines([NEWLINE]) == [];
  }

  /** Stripping a PEM block whose body holds no dash and no space (a base64 body
      in lines does not) leaves exactly the body without its line feeds. */
  lemma StripPemBlock(body: JsString)
    requires forall i :: 0 <= i < |body| ==> body[i] != DASH && body[i] != SPACE
    ensures StripPem(PemBlock(body)) == RemoveNewlines(body)
  {
    var s1 := ReplaceFirst(PemBlock(body), BEGIN_MARKER);
    StripHeader(body);
    assert s1 == AfterHeader(body);
    var s2 := ReplaceFirst(s1, END_MARKER);
    StripFooter(body);
    assert s2 == [NEWLINE] + body + [NEWLINE] + [NEWLINE];
    RemoveNewlinesAround(body);
    assert StripPem(PemBlock(body)) == RemoveNewlines(s2);
  }

  /** `pemPublicKeyToCryptoKey`, with the platform's `atob` (given here as the
      bytes of the binary string it returns, or None when it throws) and
      WebCrypto's SPKI import supplied by the caller. The bytes handed to the
      import are exactly the base64-decoded body: `uint8Str2Ab` loses nothing on
      a binary string. */
  method PemPublicKeyToCryptoKey<PublicKey>(pemContent: JsString, atob: JsString -> Option<Bytes>,
                                            importSpki: Bytes -> Option<PublicKey>)
    returns (key: Option<PublicKey>)
    ensures atob(StripPem(pemContent)).None? ==> key.None?
    ensures atob(StripPem(pemContent)).Some? ==> key == importSpki(atob(StripPem(pemContent)).value)
  {
    var data := StripPem(pemContent);
    var decoded := atob(data);
    if decoded.None? {
      return None;
    }
    var binary := Utils.BinaryString(decoded.value);
    var keyBuffer := Codecs.Uint8Str2Ab(binary);
    Codecs.TruncateBinaryString(decoded.value);
    key := importSpki(keyBuffer[..]);
  }
}
