/**
 The decoder of the `attributedBody` column of the iMessage database
 (`decode_streamtyped_blob`). The column holds a "streamtyped" object
 archive; the message text is the string that follows the class name
 `NSString`, after a 5-byte preamble and a length header.

 Python's exceptions become the `Failure` values of a `Decoded` result, and
 `DecodeStreamTypedBlob` maps every failure to the fixed sentinel text, as the
 source's `except` branch does.
 */
module StreamTyped {

  import opened Wrappers
  import opened PyBytes
  import Utf8

  /** The ASCII bytes of `NSString`. */
  const MARKER: seq<byte> := [0x4E, 0x53, 0x53, 0x74, 0x72, 0x69, 0x6E, 0x67]

  /** The archive bookkeeping bytes that follow the marker and are skipped unread. */
  const PREAMBLE_LENGTH: nat := 5

  /** The header byte that announces a two-byte little-endian length. */
  const EXTENDED_LENGTH_TAG: byte := 0x81

  /** What the source returns when any step raises. */
  const SENTINEL: string := "ERROR: Can't decode message."

  /** The exception that ends a failed decode. */
  datatype Failure =
    | MarkerNotFound  // IndexError: `blob.split(b"NSString")` has no element [1]
    | EmptyHeader     // IndexError: `text[0]` on an empty slice after the preamble
    | InvalidUtf8     // UnicodeDecodeError from the strict `text.decode()`

  datatype Decoded = Ok(text: string) | Err(failure: Failure)

  /**
   `blob.split(b"NSString")[1]`, or None when the list has no second element,
   which happens exactly when the marker is absent.
   */
  function Segment(blob: seq<byte>): (r: Option<seq<byte>>)
    ensures r.None? <==> !Contains(blob, MARKER)
    ensures r.Some? ==> !Contains(r.value, MARKER)
  {
    SplitSingleIffAbsent(blob, MARKER);
    var parts := Split(blob, MARKER);
    if |parts| < 2 then None else Some(parts[1])
  }

  /** A length header: the declared payload length and the offset the payload starts at. */
  datatype Header = Header(length: nat, start: nat)

  /**
   The header at the front of `text`: after the tag 0x81, the two bytes that
   follow read little-endian (only those present); otherwise the lead byte itself.
   */
  function ReadHeader(text: seq<byte>): (h: Header)
    requires |text| > 0
    ensures text[0] == EXTENDED_LENGTH_TAG ==>
      h.start == 3 && h.length == ByteOrZero(text, 1) + 256 * ByteOrZero(text, 2)
    ensures text[0] != EXTENDED_LENGTH_TAG ==> h.start == 1 && h.length == text[0] as nat
  {
    if text[0] == EXTENDED_LENGTH_TAG then
      FromBytesLittleShort(Slice(text, 1, 3));
      Header(FromBytesLittle(Slice(text, 1, 3)), 3)
    else
      Header(text[0], 1)
  }

  /**
   The payload bytes: as many of the declared bytes as remain after the
   header. A short buffer yields a shorter payload, never an error.
   */
  function Payload(text: seq<byte>): (p: seq<byte>)
    requires |text| > 0
    ensures |p| <= ReadHeader(text).length
    ensures
      var h := ReadHeader(text);
      |p| == if h.start + h.length <= |text| then h.length
             else if h.start <= |text| then |text| - h.start
             else 0
    ensures forall k :: 0 <= k < |p| ==>
      ReadHeader(text).start + k < |text| && p[k] == text[ReadHeader(text).start + k]
  {
    var h := ReadHeader(text);
    Slice(text, h.start, h.length + h.start)
  }

  /** `payload.decode()`: the text the payload encodes, or InvalidUtf8. */
  function DecodePayload(payload: seq<byte>): (r: Decoded)
    ensures r.Ok? <==> Utf8.IsOctets(payload)
    ensures r.Ok? ==> Utf8.Encode(r.text) == payload
    ensures r.Err? ==> r.failure == InvalidUtf8
  {
    Utf8.DecodeSucceedsIffWellFormed(payload);
    match Utf8.Decode(payload)
    case None => Err(InvalidUtf8)
    case Some(s) => Utf8.EncodeDecode(payload); Ok(s)
  }

  /** Everything after the split: skip the preamble, read the header, decode the payload. */
  function DecodeSegment(segment: seq<byte>): (r: Decoded)
    ensures r == Err(EmptyHeader) <==> |segment| <= PREAMBLE_LENGTH
  {
    var text := Slice(segment, PREAMBLE_LENGTH, |segment|);
    if |text| == 0 then Err(EmptyHeader)
    else DecodePayload(Payload(text))
  }

  /** `decode_streamtyped_blob` with its exceptions as typed failures. */
  function DecodeBlob(blob: seq<byte>): (r: Decoded)
    ensures r == Err(MarkerNotFound) <==> !Contains(blob, MARKER)
  {
    match Segment(blob)
    case None => Err(MarkerNotFound)
    case Some(segment) => DecodeSegment(segment)
  }

  /**
   `decode_streamtyped_blob` as the source returns it: the text, or the
   sentinel. Any other result is a successful decode.
   */
  function DecodeStreamTypedBlob(blob: seq<byte>): (r: string)
    ensures r != SENTINEL ==> DecodeBlob(blob) == Ok(r)
    ensures DecodeBlob(blob).Ok? ==> r == DecodeBlob(blob).text
  {
    match DecodeBlob(blob)
    case Ok(s) => s
    case Err(_) => SENTINEL
  }

  /** A blob without the marker decodes to the sentinel, and only such a blob fails that way. */
  lemma NoMarkerGivesSentinel(blob: seq<byte>)
    ensures !Contains(blob, MARKER) <==> DecodeBlob(blob) == Err(MarkerNotFound)
    ensures !Contains(blob, MARKER) ==> DecodeStreamTypedBlob(blob) == SENTINEL
  {
  }

  /**
   The segment is the bytes strictly between the first marker, at `i`, and
   the next marker at or after its end, at `e` (or the end of the blob); the
   decode depends on nothing else.
   */
  lemma SegmentBetweenMarkers(blob: seq<byte>, i: nat, e: nat)
    requires OccursAt(blob, MARKER, i)
    requires forall j :: 0 <= j < i ==> !OccursAt(blob, MARKER, j)
    requires i + |MARKER| <= e <= |blob|
    requires forall j :: i + |MARKER| <= j < e ==> !OccursAt(blob, MARKER, j)
    requires e == |blob| || OccursAt(blob, MARKER, e)
    ensures Segment(blob) == Some(blob[i + |MARKER|..e])
    ensures DecodeBlob(blob) == DecodeSegment(blob[i + |MARKER|..e])
  {
    SplitSecondPiece(blob, MARKER, i, e);
  }

  /** The marker's first byte `N` appears nowhere else in the marker. */
  lemma MarkerLeadIsUnique(d: nat)
    requires 0 < d < |MARKER|
    ensures MARKER[d] != MARKER[0]
  {
  }

  /**
   No marker starts inside `x` when `x` holds none and whatever follows it
   begins with the marker's first byte: the marker cannot overlap itself.
   */
  lemma NoMarkerStartsInside(x: seq<byte>, y: seq<byte>)
    requires !Contains(x, MARKER)
    requires |y| > 0 ==> y[0] == MARKER[0]
    ensures NoMarkerStartsIn(x, y)
  {
    var s := x + y;
    forall j | 0 <= j < |x| ensures !OccursAt(s, MARKER, j) {
      if OccursAt(s, MARKER, j) {
        if j + |MARKER| <= |x| {
          assert s[j..j + |MARKER|] == x[j..j + |MARKER|];
          assert OccursAt(x, MARKER, j);
          assert false;
        } else {
          var d := |x| - j;
          assert s[j + d] == MARKER[d];
          MarkerLeadIsUnique(d);
          assert false;
        }
      }
    }
  }

  /** A sequence without the byte `N` cannot hold the marker. */
  lemma NoLeadByteNoMarker(s: seq<byte>)
    requires forall k :: 0 <= k < |s| ==> s[k] != MARKER[0]
    ensures !Contains(s, MARKER)
  {
    forall j: nat | j <= |s| ensures !OccursAt(s, MARKER, j) {
      if j + |MARKER| <= |s| {
        assert s[j..j + |MARKER|][0] == s[j];
      }
    }
  }

  /**
   Bytes before the first marker, and everything from a second marker on,
   do not affect the result: only the segment between them does.
   */
  lemma FramedBlob(prefix: seq<byte>, segment: seq<byte>, suffix: seq<byte>)
    requires !Contains(prefix, MARKER) && !Contains(segment, MARKER)
    requires suffix == [] || OccursAt(suffix, MARKER, 0)
    ensures DecodeBlob(prefix + MARKER + segment + suffix) == DecodeSegment(segment)
  {
    assert suffix != [] ==> suffix[..|MARKER|][0] == suffix[0];
    NoMarkerStartsInside(segment, suffix);
    var k := FramedBlobWithTrailer(prefix, segment, suffix);
    OccursInAppend(segment, suffix, MARKER, 0);
    assert k == 0;
    assert segment + suffix[..k] == segment;
  }

  /** No marker starts inside `segment` when `rest` follows it; one may start in `rest`. */
  predicate NoMarkerStartsIn(segment: seq<byte>, rest: seq<byte>)
  {
    forall j :: 0 <= j < |segment| ==> !OccursAt(segment + rest, MARKER, j)
  }

  /**
   For `prefix + NSString + segment + suffix`, with no marker in the prefix
   and none starting inside the segment, the decode reads the segment
   followed by the trailing bytes up to the next marker, `suffix[..k]`.
   */
  lemma FramedBlobWithTrailer(prefix: seq<byte>, segment: seq<byte>, suffix: seq<byte>) returns (k: nat)
    requires !Contains(prefix, MARKER) && NoMarkerStartsIn(segment, suffix)
    ensures k <= |suffix|
    ensures k == |suffix| || OccursAt(suffix, MARKER, k)
    ensures forall j :: 0 <= j < |segment| + k ==> !OccursAt(segment + suffix, MARKER, j)
    ensures DecodeBlob(prefix + MARKER + segment + suffix) == DecodeSegment(segment + suffix[..k])
  {
    k := FirstMarker(suffix);
    var body := segment + suffix;
    assert prefix + MARKER + segment + suffix == prefix + MARKER + body;
    NoMarkerBefore(segment, suffix, k);
    DecodeAfterFirstMarker(prefix, body, |segment| + k);
    assert body[..|segment| + k] == segment + suffix[..k];
  }

  /**
   With no marker in `prefix`, `prefix + NSString + body` decodes as
   `body[..m]` does, when `m` is the first marker position in `body` (or `|body|`).
   */
  lemma DecodeAfterFirstMarker(prefix: seq<byte>, body: seq<byte>, m: nat)
    requires !Contains(prefix, MARKER)
    requires m <= |body| && (m == |body| || OccursAt(body, MARKER, m))
    requires forall j :: 0 <= j < m ==> !OccursAt(body, MARKER, j)
    ensures DecodeBlob(prefix + MARKER + body) == DecodeSegment(body[..m])
  {
    SegmentAfterFirstMarker(prefix, body, m);
    assert prefix + MARKER + body == prefix + (MARKER + body);
  }

  /**
   The first marker of `prefix + NSString + body` is the one after `prefix`,
   and the next is where `body` has its first one, so the split's second
   piece is `body[..m]`.
   */
  lemma SegmentAfterFirstMarker(prefix: seq<byte>, body: seq<byte>, m: nat)
    requires !Contains(prefix, MARKER)
    requires m <= |body| && (m == |body| || OccursAt(body, MARKER, m))
    requires forall j :: 0 <= j < m ==> !OccursAt(body, MARKER, j)
    ensures Segment(prefix + (MARKER + body)) == Some(body[..m])
  {
    var rest := MARKER + body;
    assert rest[0] == MARKER[0];
    NoMarkerStartsInside(prefix, rest);
    SplitAroundFirst(prefix, MARKER, body, m);
  }

  /**
   No marker starts before `|segment| + k` in `segment + suffix` when none
   starts inside the segment and `k` is the first marker position in `suffix`.
   */
  lemma NoMarkerBefore(segment: seq<byte>, suffix: seq<byte>, k: nat)
    requires NoMarkerStartsIn(segment, suffix)
    requires k <= |suffix| && (k == |suffix| || OccursAt(suffix, MARKER, k))
    requires forall j :: 0 <= j < k ==> !OccursAt(suffix, MARKER, j)
    ensures forall j :: 0 <= j < |segment| + k ==> !OccursAt(segment + suffix, MARKER, j)
    ensures k == |suffix| || OccursAt(segment + suffix, MARKER, |segment| + k)
  {
    forall j | |segment| <= j < |segment| + k ensures !OccursAt(segment + suffix, MARKER, j) {
      OccursInAppend(segment, suffix, MARKER, j - |segment|);
    }
    if k < |suffix| {
      OccursInAppend(segment, suffix, MARKER, k);
    }
  }

  /** The position of the first marker in `s`, or `|s|` when there is none. */
  lemma FirstMarker(s: seq<byte>) returns (k: nat)
    ensures k <= |s|
    ensures k == |s| || OccursAt(s, MARKER, k)
    ensures forall j :: 0 <= j < k ==> !OccursAt(s, MARKER, j)
  {
    var f := FindFrom(s, MARKER, 0);
    k := if f.Some? then f.value else |s|;
  }

  /** The 5 preamble bytes are never inspected: any other 5 bytes give the same result. */
  lemma PreambleSkipped(preamble: seq<byte>, other: seq<byte>, rest: seq<byte>)
    requires |preamble| == PREAMBLE_LENGTH && |other| == PREAMBLE_LENGTH
    ensures DecodeSegment(preamble + rest) == DecodeSegment(other + rest)
  {
    SliceToEnd(preamble + rest, PREAMBLE_LENGTH);
    SliceToEnd(other + rest, PREAMBLE_LENGTH);
    assert (preamble + rest)[PREAMBLE_LENGTH..] == rest;
    assert (other + rest)[PREAMBLE_LENGTH..] == rest;
  }

  /**
   After the tag 0x81 the length is `b1 + 256 * b2` from the next two bytes
   (missing bytes count 0), and the payload is the segment from 3 bytes past
   the preamble, for at most that many bytes.
   */
  lemma ExtendedLengthHeader(segment: seq<byte>)
    requires |segment| > PREAMBLE_LENGTH && segment[PREAMBLE_LENGTH] == EXTENDED_LENGTH_TAG
    ensures
      var length := ByteOrZero(segment, 6) + 256 * ByteOrZero(segment, 7);
      DecodeSegment(segment) == DecodePayload(Slice(segment, 8, 8 + length))
  {
    var text := Slice(segment, PREAMBLE_LENGTH, |segment|);
    assert text == segment[PREAMBLE_LENGTH..];
    var h := ReadHeader(text);
    assert ByteOrZero(text, 1) == ByteOrZero(segment, 6);
    assert ByteOrZero(text, 2) == ByteOrZero(segment, 7);
    assert DecodeSegment(segment) == DecodePayload(Slice(text, 3, h.length + 3));
    SliceOfTail(segment, PREAMBLE_LENGTH, 3, h.length + 3);
  }

  /**
   Any other lead byte (0..128 or 130..255) is itself the length, and the
   payload is the segment from 1 byte past the preamble, for at most that many bytes.
   */
  lemma SingleByteLengthHeader(segment: seq<byte>)
    requires |segment| > PREAMBLE_LENGTH && segment[PREAMBLE_LENGTH] != EXTENDED_LENGTH_TAG
    ensures
      var length := segment[PREAMBLE_LENGTH] as nat;
      DecodeSegment(segment) == DecodePayload(Slice(segment, 6, 6 + length))
  {
    var text := Slice(segment, PREAMBLE_LENGTH, |segment|);
    assert text == segment[PREAMBLE_LENGTH..];
    SliceOfTail(segment, PREAMBLE_LENGTH, 1, segment[PREAMBLE_LENGTH] as nat + 1);
  }

  /**
   The result is the UTF-8 decoding of the payload exactly when the payload
   is well-formed UTF-8, and the sentinel otherwise.
   */
  lemma ResultIsPayloadText(segment: seq<byte>)
    requires |segment| > PREAMBLE_LENGTH
    ensures
      var payload := Payload(segment[PREAMBLE_LENGTH..]);
      && (Utf8.IsOctets(payload) <==> DecodeSegment(segment).Ok?)
      && (DecodeSegment(segment).Ok? ==> Utf8.Encode(DecodeSegment(segment).text) == payload)
      && (!Utf8.IsOctets(payload) <==> DecodeSegment(segment) == Err(InvalidUtf8))
  {
    assert Slice(segment, PREAMBLE_LENGTH, |segment|) == segment[PREAMBLE_LENGTH..];
  }

  /** The segment a writer produces for `payload` with a single-byte length header. */
  function SingleByteSegment(preamble: seq<byte>, payload: seq<byte>): seq<byte>
    requires |payload| < 256
  {
    preamble + [|payload|] + payload
  }

  /** The segment a writer produces for `payload` with the 0x81 two-byte length header. */
  function ExtendedSegment(preamble: seq<byte>, payload: seq<byte>): seq<byte>
    requires |payload| < Pow256(2)
  {
    preamble + [EXTENDED_LENGTH_TAG] + ToBytesLittle(|payload|, 2) + payload
  }

  /**
   Reading back a single-byte header recovers exactly the payload written,
   whatever bytes follow it.
   */
  lemma SingleByteSegmentDecodes(preamble: seq<byte>, payload: seq<byte>, rest: seq<byte>)
    requires |preamble| == PREAMBLE_LENGTH
    requires |payload| < 256 && |payload| != EXTENDED_LENGTH_TAG as int
    ensures DecodeSegment(SingleByteSegment(preamble, payload) + rest) == DecodePayload(payload)
  {
    var segment := SingleByteSegment(preamble, payload) + rest;
    assert segment[PREAMBLE_LENGTH] == |payload|;
    SingleByteLengthHeader(segment);
    assert Slice(segment, 6, 6 + |payload|) == payload;
  }

  /**
   Reading back a two-byte header recovers exactly the payload written,
   whatever bytes follow it.
   */
  lemma ExtendedSegmentDecodes(preamble: seq<byte>, payload: seq<byte>, rest: seq<byte>)
    requires |preamble| == PREAMBLE_LENGTH && |payload| < Pow256(2)
    ensures DecodeSegment(ExtendedSegment(preamble, payload) + rest) == DecodePayload(payload)
  {
    var lengthBytes := ToBytesLittle(|payload|, 2);
    var segment := ExtendedSegment(preamble, payload) + rest;
    assert segment[PREAMBLE_LENGTH] == EXTENDED_LENGTH_TAG;
    ExtendedLengthHeader(segment);
    FromToBytesLittle(|payload|, 2);
    FromBytesLittleShort(lengthBytes);
    assert segment[6] == lengthBytes[0] && segment[7] == lengthBytes[1];
    assert Slice(segment, 8, 8 + |payload|) == payload;
  }

  /**
   A blob written as marker, 5-byte preamble, single-byte length and the
   UTF-8 text decodes to that text, whatever precedes the marker and whatever
   trailing archive bytes follow, as long as no marker starts inside the
   written segment.
   */
  lemma SingleByteFrameDecodes(prefix: seq<byte>, preamble: seq<byte>, text: string, suffix: seq<byte>)
    requires |preamble| == PREAMBLE_LENGTH
    requires |Utf8.Encode(text)| < 256 && |Utf8.Encode(text)| != EXTENDED_LENGTH_TAG as int
    requires !Contains(prefix, MARKER)
    requires NoMarkerStartsIn(SingleByteSegment(preamble, Utf8.Encode(text)), suffix)
    ensures DecodeStreamTypedBlob(prefix + MARKER + SingleByteSegment(preamble, Utf8.Encode(text)) + suffix) == text
  {
    var payload := Utf8.Encode(text);
    var k := FramedBlobWithTrailer(prefix, SingleByteSegment(preamble, payload), suffix);
    SingleByteSegmentDecodes(preamble, payload, suffix[..k]);
    Utf8.DecodeIsInverse(payload, text);
  }

  /** The same with the tag 0x81 and a two-byte little-endian length, for any text under 65536 bytes. */
  lemma ExtendedFrameDecodes(prefix: seq<byte>, preamble: seq<byte>, text: string, suffix: seq<byte>)
    requires |preamble| == PREAMBLE_LENGTH && |Utf8.Encode(text)| < Pow256(2)
    requires !Contains(prefix, MARKER)
    requires NoMarkerStartsIn(ExtendedSegment(preamble, Utf8.Encode(text)), suffix)
    ensures DecodeStreamTypedBlob(prefix + MARKER + ExtendedSegment(preamble, Utf8.Encode(text)) + suffix) == text
  {
    var payload := Utf8.Encode(text);
    var k := FramedBlobWithTrailer(prefix, ExtendedSegment(preamble, payload), suffix);
    ExtendedSegmentDecodes(preamble, payload, suffix[..k]);
    Utf8.DecodeIsInverse(payload, text);
  }
}
