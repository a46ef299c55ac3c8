/** Concrete blobs for the two header forms, a short buffer and the failure paths. */
module StreamTypedExamples {

  import opened Wrappers
  import opened PyBytes
  import opened StreamTyped
  import Utf8

  /** A typical preamble, `01 94 84 01 2B`. */
  const FILLER: seq<byte> := [0x01, 0x94, 0x84, 0x01, 0x2B]

  const HELLO: seq<byte> := [0x68, 0x65, 0x6C, 0x6C, 0x6F]
  const WORLD: seq<byte> := [0x77, 0x6F, 0x72, 0x6C, 0x64]
  const HEL: seq<byte> := [0x68, 0x65, 0x6C]

  /** `NSString` + 5 filler bytes + `05` + `hello` decodes to "hello". */
  lemma HelloExample()
    ensures DecodeStreamTypedBlob(MARKER + FILLER + [0x05] + HELLO) == "hello"
  {
    assert Utf8.Encode("hello") == HELLO;
    var segment := SingleByteSegment(FILLER, HELLO);
    assert [] + MARKER + segment + [] == MARKER + FILLER + [0x05] + HELLO;
    NoLeadByteNoMarker(segment + []);
    NoLeadByteNoMarker([]);
    SingleByteFrameDecodes([], FILLER, "hello", []);
  }

  /** `NSString` + 5 filler bytes + `81 05 00` + `world` decodes to "world". */
  lemma WorldExample()
    ensures DecodeStreamTypedBlob(MARKER + FILLER + [0x81, 0x05, 0x00] + WORLD) == "world"
  {
    assert Utf8.Encode("world") == WORLD;
    assert ToBytesLittle(5, 2) == [0x05, 0x00];
    var segment := ExtendedSegment(FILLER, WORLD);
    assert [] + MARKER + segment + [] == MARKER + FILLER + [0x81, 0x05, 0x00] + WORLD;
    NoLeadByteNoMarker(segment + []);
    NoLeadByteNoMarker([]);
    ExtendedFrameDecodes([], FILLER, "world", []);
  }

  /** Archive bytes that follow the string in a real blob, `86 84 02 69 49`. */
  const TRAILER: seq<byte> := [0x86, 0x84, 0x02, 0x69, 0x49]

  /** Trailing archive bytes after the declared payload are never read. */
  lemma TrailerExample()
    ensures DecodeStreamTypedBlob(MARKER + FILLER + [0x05] + HELLO + TRAILER) == "hello"
  {
    assert Utf8.Encode("hello") == HELLO;
    var segment := SingleByteSegment(FILLER, HELLO);
    assert [] + MARKER + segment + TRAILER == MARKER + FILLER + [0x05] + HELLO + TRAILER;
    NoLeadByteNoMarker(segment + TRAILER);
    NoLeadByteNoMarker([]);
    SingleByteFrameDecodes([], FILLER, "hello", TRAILER);
  }

  /** A declared length of 5 with only `hel` left is clamped, not an error. */
  lemma ShortBufferExample()
    ensures DecodeStreamTypedBlob(MARKER + FILLER + [0x05] + HEL) == "hel"
  {
    var segment := FILLER + [0x05] + HEL;
    assert DecodeSegment(segment) == Ok("hel") by {
      SingleByteLengthHeader(segment);
      assert Slice(segment, 6, 11) == HEL;
      assert Utf8.Encode("hel") == HEL;
      Utf8.DecodeIsInverse(HEL, "hel");
    }
    assert [] + MARKER + segment + [] == MARKER + FILLER + [0x05] + HEL;
    NoLeadByteNoMarker(segment);
    NoLeadByteNoMarker([]);
    FramedBlob([], segment, []);
  }

  /** The tag 0x81 with no length bytes after it reads length 0: the empty text. */
  lemma MissingLengthBytesExample()
    ensures DecodeStreamTypedBlob(MARKER + FILLER + [0x81]) == ""
  {
    var segment := FILLER + [0x81];
    assert [] + MARKER + segment + [] == MARKER + FILLER + [0x81];
    NoLeadByteNoMarker(segment);
    NoLeadByteNoMarker([]);
    FramedBlob([], segment, []);
    ExtendedLengthHeader(segment);
    assert ByteOrZero(segment, 6) + 256 * ByteOrZero(segment, 7) == 0;
    assert Slice(segment, 8, 8) == [];
    assert Utf8.Decode([]) == Some("");
    assert DecodeSegment(segment) == Ok("");
  }

  /** The overlong encoding `C0 80` of U+0000 is rejected. */
  lemma OverlongExample()
    ensures DecodeStreamTypedBlob(MARKER + FILLER + [0x02, 0xC0, 0x80]) == SENTINEL
  {
    var segment := FILLER + [0x02, 0xC0, 0x80];
    var payload: seq<byte> := [0xC0, 0x80];
    assert [] + MARKER + segment + [] == MARKER + FILLER + [0x02, 0xC0, 0x80];
    NoLeadByteNoMarker(segment);
    NoLeadByteNoMarker([]);
    FramedBlob([], segment, []);
    SingleByteLengthHeader(segment);
    assert Slice(segment, 6, 8) == payload;
    assert Utf8.CharWidth(payload) == 0;
    assert Utf8.Decode(payload) == None;
    assert DecodeSegment(segment) == Err(InvalidUtf8);
  }

  /** The encoded surrogate `ED A0 80` (U+D800) is rejected. */
  lemma SurrogateExample()
    ensures DecodeStreamTypedBlob(MARKER + FILLER + [0x03, 0xED, 0xA0, 0x80]) == SENTINEL
  {
    var segment := FILLER + [0x03, 0xED, 0xA0, 0x80];
    var payload: seq<byte> := [0xED, 0xA0, 0x80];
    assert [] + MARKER + segment + [] == MARKER + FILLER + [0x03, 0xED, 0xA0, 0x80];
    NoLeadByteNoMarker(segment);
    NoLeadByteNoMarker([]);
    FramedBlob([], segment, []);
    SingleByteLengthHeader(segment);
    assert Slice(segment, 6, 9) == payload;
    assert Utf8.CharWidth(payload) == 0;
    assert Utf8.Decode(payload) == None;
    assert DecodeSegment(segment) == Err(InvalidUtf8);
  }

  /** A marker followed by the preamble alone fails at `text[0]`. */
  lemma PreambleOnlyExample()
    ensures DecodeStreamTypedBlob(MARKER + FILLER) == SENTINEL
  {
    NoLeadByteNoMarker(FILLER);
    NoLeadByteNoMarker([]);
    FramedBlob([], FILLER, []);
    assert [] + MARKER + FILLER + [] == MARKER + FILLER;
  }
}
