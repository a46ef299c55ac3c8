# decode_streamtyped_blob, modelled in Dafny

`wordle_sheets_loader` reads Wordle scores out of the iMessage database. Message
text is kept in the `attributedBody` column as a "streamtyped" object archive,
and `decode_streamtyped_blob` recovers the text from it:

1. it splits the blob on the ASCII marker `NSString` and keeps the piece after the first one;
2. it drops a 5-byte preamble;
3. it reads a length header. A lead byte `0x81` means the length is the next two bytes, little-endian, and the payload starts at offset 3. Any other lead byte is the length itself, and the payload starts at offset 1;
4. it slices out the payload and decodes it as strict UTF-8;
5. if any step raises, it returns the sentinel `"ERROR: Can't decode message."`.

The model is pure, like the source. It has four model modules and one module of examples.

- `Wrappers` (`wrappers.dfy`): an `Option` type, standing for a Python operation that raised.
- `PyBytes` (`py_bytes.dfy`): the parts of Python's `bytes` the decoder uses. These are `find`, `split` on a non-empty separator (with `join` as its inverse), slicing with clamped bounds, `int.from_bytes(..., "little")` and `int.to_bytes` as its inverse.
- `Utf8` (`utf8.dfy`): RFC 3629. The predicates `IsChar1`..`IsChar4`, `IsChar` and `IsOctets` follow the ABNF of section 4 of RFC 3629 rule by rule, so overlong forms, surrogates and values above U+10FFFF are rejected, as Python's strict decoder rejects them. `Decode` is the greedy decoder and `Encode` is the encoder from the table in section 3. The lemmas prove that the decoder succeeds exactly on the grammar's language and that `Decode` and `Encode` are mutually inverse.
- `StreamTyped` (`streamtyped.dfy`): the decoder itself.
  - `DecodeBlob` returns `Ok(text)` or `Err(failure)`. A failure is one of `MarkerNotFound` (the `IndexError` of `split(...)[1]`), `EmptyHeader` (the `IndexError` of `text[0]`) or `InvalidUtf8` (the `UnicodeDecodeError`).
  - `DecodeStreamTypedBlob` is the source's function: it maps every failure to the sentinel.
  - `SingleByteSegment` and `ExtendedSegment` are the writer's side of the two header forms. The frame lemmas prove that decoding reads back what a writer put in.
- `StreamTypedExamples` (`examples.dfy`): concrete blobs.

Points where the model follows the code closely:

- **Slicing never fails.** A declared length longer than the remaining bytes yields a shorter payload, not an error (`Payload`, `ShortBufferExample`). So the decoder has no "truncated buffer" failure. A tag `0x81` with fewer than two length bytes after it reads only the bytes that are there. With none, the length is 0 and the result is the empty text (`MissingLengthBytesExample`).
- **The segment ends at the next marker.** Bytes from a second `NSString` on are discarded by `split`.
- **Three ways to fail.** The decode fails only when there is no marker, when nothing is left after the preamble, or when the payload is not UTF-8.
- **The sentinel is only a string.** A message whose text is the sentinel itself cannot be told apart from a failure in `DecodeStreamTypedBlob`'s result. `DecodeBlob` keeps the two apart.

## Model

| member | source | states |
|---|---|---|
| `PyBytes.FindFrom` | wordle_sheets_loader.py:30 | the result is an occurrence of the separator at or after the start, with none between the start and it; none means there is no occurrence at all from the start on |
| `PyBytes.Split` | wordle_sheets_loader.py:30 | `split` gives at least one piece, and no piece contains the separator |
| `PyBytes.JoinSplit` | wordle_sheets_loader.py:30 | joining the pieces of `split` with the separator gives back the input |
| `PyBytes.SplitSingleIffAbsent` | wordle_sheets_loader.py:30 | `split` gives a single piece, so `[1]` raises, exactly when the marker does not occur |
| `PyBytes.SplitSecondPiece` | wordle_sheets_loader.py:30 | piece `[1]` is the bytes strictly between the first occurrence and the next occurrence after it, or the end of the input |
| `PyBytes.SplitAt` | wordle_sheets_loader.py:30 | with the first occurrence at `i`, the pieces are `s[:i]` followed by the pieces of the rest after the separator |
| `PyBytes.SplitFirstPiece` | wordle_sheets_loader.py:30 | piece `[0]` is the bytes before the first occurrence, or the whole input when there is none |
| `PyBytes.SplitAroundFirst` | wordle_sheets_loader.py:30 | for `prefix + sep + body` with no occurrence starting inside the prefix, piece `[1]` is `body` up to its first occurrence (or its end) |
| `PyBytes.Slice` | wordle_sheets_loader.py:31-40 | a slice has length `min(hi, len) - lo`, or 0 when that is not positive, and its k-th byte is byte `lo + k`; slicing never fails |
| `PyBytes.SliceOfTail` | wordle_sheets_loader.py:31-40 | slicing `s[a:]` again at `[lo:hi]` equals the single slice `s[a+lo:a+hi]` |
| `PyBytes.FromBytesLittle` | wordle_sheets_loader.py:36 | the little-endian value of `n` bytes is below `256^n` |
| `PyBytes.FromBytesLittleShort` | wordle_sheets_loader.py:36 | for at most two bytes the value is `b1 + 256*b2`, where a missing byte counts 0 |
| `PyBytes.FromToBytesLittle` | wordle_sheets_loader.py:36 | `from_bytes` undoes `to_bytes` for every value that fits the width |
| `PyBytes.ToFromBytesLittle` | wordle_sheets_loader.py:36 | `to_bytes` at the input's width undoes `from_bytes` |
| `Utf8.CharWidth` | wordle_sheets_loader.py:41 | a non-zero width marks a prefix that is a well-formed UTF8-char, and it is the only such prefix; zero means no prefix is one |
| `Utf8.CodePoint` | wordle_sheets_loader.py:41 | a well-formed char stands for a Unicode scalar value in the range its width allows, so there are no overlong forms, no surrogates and nothing above U+10FFFF |
| `Utf8.EncodeChar` | wordle_sheets_loader.py:41 | every scalar value encodes to 1 to 4 bytes |
| `Utf8.EncodeCharIsChar` | wordle_sheets_loader.py:41 | the encoding of a scalar value is a well-formed char that stands for that value |
| `Utf8.CodePointInjective` | wordle_sheets_loader.py:41 | two well-formed chars that stand for the same code point are the same bytes |
| `Utf8.Decode` | wordle_sheets_loader.py:41 | a successful decode has no more characters than bytes; `DecodeSucceedsIffWellFormed` and `DecodeIsInverse` state when it succeeds and what it yields |
| `Utf8.DecodeSucceedsIffWellFormed` | wordle_sheets_loader.py:41 | strict decoding succeeds if and only if the bytes match the RFC 3629 grammar |
| `Utf8.DecodeEncode` | wordle_sheets_loader.py:41 | decoding the encoding of a text gives back the text |
| `Utf8.EncodeDecode` | wordle_sheets_loader.py:41 | encoding a successful decoding gives back the bytes |
| `Utf8.DecodeIsInverse` | wordle_sheets_loader.py:41 | bytes decode to a text if and only if they are that text's encoding |
| `StreamTyped.Segment` | wordle_sheets_loader.py:30 | `split(...)[1]` is missing exactly when the blob holds no `NSString`, and the piece it gives holds no marker; `SegmentBetweenMarkers` says which bytes it is |
| `StreamTyped.ReadHeader` | wordle_sheets_loader.py:35-40 | after the tag 0x81 the payload starts at offset 3 and the length is `b1 + 256*b2`, where a missing byte counts 0; after any other lead byte `n` it starts at offset 1 and the length is `n` |
| `StreamTyped.Payload` | wordle_sheets_loader.py:35-40 | the payload has at most the declared length, and exactly that length when enough bytes remain after the header, otherwise whatever remains; its k-th byte is the byte at header start + k |
| `StreamTyped.DecodePayload` | wordle_sheets_loader.py:41-46 | the result is a text if and only if the payload is well-formed UTF-8, and that text encodes back to the payload; otherwise the failure is InvalidUtf8 |
| `StreamTyped.DecodeBlob` | wordle_sheets_loader.py:29-46 | the decode fails with MarkerNotFound if and only if the blob holds no `NSString` |
| `StreamTyped.DecodeStreamTypedBlob` | wordle_sheets_loader.py:14-46 | a successful decode returns its text, and any result other than the sentinel is a successful decode, so every failure returns the sentinel; `NoMarkerGivesSentinel`, `SingleByteFrameDecodes`, `ExtendedFrameDecodes` and the examples state what it returns |
| `StreamTyped.NoMarkerGivesSentinel` | wordle_sheets_loader.py:29-46 | a blob without the marker gives exactly the sentinel, and it is the only kind of blob that fails for that reason |
| `StreamTyped.SegmentBetweenMarkers` | wordle_sheets_loader.py:30 | with the first marker at i and the next one at e (or the end), the segment is `blob[i+8:e]` and the result depends on those bytes alone |
| `StreamTyped.NoMarkerStartsInside` | wordle_sheets_loader.py:30 | the marker cannot overlap itself: no occurrence starts inside a marker-free part that is followed by a byte `N` |
| `StreamTyped.NoLeadByteNoMarker` | wordle_sheets_loader.py:30 | bytes without an `N` hold no marker |
| `StreamTyped.FramedBlob` | wordle_sheets_loader.py:30 | for `prefix + NSString + segment + suffix`, with no marker in prefix or segment and a suffix that is empty or starts with a marker, the result is that of the segment alone |
| `StreamTyped.FramedBlobWithTrailer` | wordle_sheets_loader.py:30 | for `prefix + NSString + segment + suffix`, with no marker in the prefix and none starting inside the segment, the result is that of the segment followed by `suffix[:k]`, where `k` is the first marker position in the suffix (or its end) and no marker starts before it |
| `StreamTyped.DecodeAfterFirstMarker` | wordle_sheets_loader.py:30 | for `prefix + NSString + body` with no marker in the prefix, the result is that of `body[:m]`, where `m` is the first marker position in `body` (or its end) |
| `StreamTyped.SegmentAfterFirstMarker` | wordle_sheets_loader.py:30 | for the same blob, `split(...)[1]` is `body[:m]` |
| `StreamTyped.PreambleSkipped` | wordle_sheets_loader.py:31 | changing the 5 preamble bytes never changes the result |
| `StreamTyped.DecodeSegment` | wordle_sheets_loader.py:31-41 | the decode fails at `text[0]` if and only if the segment has 5 bytes or fewer; what it returns otherwise is stated by `ExtendedLengthHeader`, `SingleByteLengthHeader`, `ResultIsPayloadText` and `PreambleSkipped` |
| `StreamTyped.ExtendedLengthHeader` | wordle_sheets_loader.py:35-37 | after the tag 0x81 the payload is the segment bytes from offset 8 for `b6 + 256*b7` bytes, clamped, where missing bytes count 0 |
| `StreamTyped.SingleByteLengthHeader` | wordle_sheets_loader.py:38-40 | any other lead byte `n` makes the payload the segment bytes from offset 6 for `n` bytes, clamped |
| `StreamTyped.ResultIsPayloadText` | wordle_sheets_loader.py:41-46 | after the preamble, the result is a text exactly when the payload is well-formed UTF-8 (the text encodes back to the payload), and InvalidUtf8 exactly when it is not |
| `StreamTyped.SingleByteSegmentDecodes` | wordle_sheets_loader.py:38-41 | a segment written with a single-byte length other than 129 reads back exactly the payload written, whatever bytes follow it |
| `StreamTyped.ExtendedSegmentDecodes` | wordle_sheets_loader.py:35-41 | a segment written with 0x81 and a two-byte length reads back exactly the payload written, whatever bytes follow it |
| `StreamTyped.SingleByteFrameDecodes` | wordle_sheets_loader.py:30-41 | a blob built as prefix, marker, preamble, one length byte, the UTF-8 text and any trailing bytes returns that text, when the prefix holds no marker and no marker starts inside the written segment |
| `StreamTyped.ExtendedFrameDecodes` | wordle_sheets_loader.py:30-41 | the same with the 0x81 header, for any text under 65536 bytes |
| `StreamTypedExamples.HelloExample` | wordle_sheets_loader.py:38-41 | `NSString` + 5 filler bytes + `05` + `hello` returns "hello" |
| `StreamTypedExamples.WorldExample` | wordle_sheets_loader.py:35-41 | `NSString` + 5 filler bytes + `81 05 00` + `world` returns "world" |
| `StreamTypedExamples.TrailerExample` | wordle_sheets_loader.py:38-41 | the "hello" blob followed by the archive bytes `86 84 02 69 49` still returns "hello" |
| `StreamTypedExamples.ShortBufferExample` | wordle_sheets_loader.py:40 | a declared length of 5 with only `hel` left returns "hel", not an error |
| `StreamTypedExamples.MissingLengthBytesExample` | wordle_sheets_loader.py:36-37 | a tag 0x81 that ends the blob reads length 0 and returns the empty text |
| `StreamTypedExamples.OverlongExample` | wordle_sheets_loader.py:41-46 | the overlong `C0 80` returns the sentinel |
| `StreamTypedExamples.SurrogateExample` | wordle_sheets_loader.py:41-46 | the encoded surrogate `ED A0 80` returns the sentinel |
| `StreamTypedExamples.PreambleOnlyExample` | wordle_sheets_loader.py:31-46 | a marker followed by only the preamble returns the sentinel |

## Left out

- The `print(blob)` and `print(e)` diagnostics of the `except` branch (wordle_sheets_loader.py:44-45): these are console output. Only the returned sentinel is modelled.
- A non-`bytes` argument. The caller passes only non-NULL `attributedBody` values (the SQL filter at wordle_sheets_loader.py:76), so `blob.split` always exists.
- `bytes.split` with an empty separator, which raises `ValueError`: the decoder always splits on `NSString`.
- The rest of wordle_sheets_loader.py, which is module-level script code:
  - argument and configuration loading (lines 48-53), as file I/O;
  - the SQLite query (lines 57-81 and 156), as database I/O;
  - the pandas pipeline (lines 83-130), whose regex and NaN semantics belong to libraries outside this model;
  - the Google Sheets client (lines 133-153), as network I/O;
  - the `os.system` call that opens a browser (line 159), as process I/O.
- Determinism: every Dafny function is deterministic, so this is not stated as a lemma.
