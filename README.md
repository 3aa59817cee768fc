# gzip member decoding in libdeflate, modelled in Dafny

This project models `libdeflate_gzip_decompress_ex` and its wrapper
`libdeflate_gzip_decompress` (lib/gzip_decompress.c). Given one buffer that
holds a gzip member (RFC 1952, sections 2.3 and 2.3.1), the function:

- checks the fixed 10-byte header: ID1, ID2, CM and the reserved FLG bits;
- skips the optional extra field, file name, comment and header CRC16. Each
  step keeps the 8-byte footer (CRC-32 and ISIZE) inside the buffer;
- hands the bytes between the header and the footer to the raw DEFLATE
  decoder;
- checks the CRC-32 and the ISIZE stored right after the bytes the decoder
  consumed;
- reports the member's length through the optional `actual_in_nbytes_ret`
  slot.

The buffer is a `seq<byte>` and the cursor `in_next` is a natural-number index
into it. The raw DEFLATE decoder and `libdeflate_crc32` are parameters. The
decoder's type, `Inflater`, has one constraint: it consumes no more than it
was offered, reports no more output than there is room for, and leaves an
output buffer of the same size.

Modules:

- `GzipConstants` (gzip_constants.dfy) holds the RFC 1952 constants, the FLG
  tests and the little-endian readers.
- `GzipDecompress` (gzip_decompress.dfy) holds the specification and the code.
  - `HeaderEnd` specifies the header walk as a function.
  - `Run` specifies the whole outcome: status and the two optional count slots.
  - The methods `ScanPastNul`, `SkipHeader`, `GzipDecompressEx` and
    `GzipDecompress` follow the C statement by statement. Each method is proved
    to compute its specification function.
- `GzipHeaderLayout` (gzip_header_layout.dfy) gives the RFC 1952 header as a
  value (`Header`) with an encoding. It proves three things together. A
  well-formed header is accepted and decoded back exactly. Every header the
  code accepts is the encoding of a well-formed header. The payload offset is
  10 + (2 + XLEN) + (|name| + 1) + (|comment| + 1) + 2, summing only the
  fields that are present.
- `GzipProperties` (gzip_properties.dfy) states how `Run` behaves on each exit
  path. It covers the bytes that are never read, what happens when a trailer
  byte is corrupted, and one concrete 20-byte member.
- `GzipMember` (gzip_member.dfy) builds a whole member: an encoded header,
  the body, the trailer and any bytes after it. It proves that such a member
  decodes to Success, and that the consumed-input count is the member's
  length.
- `GzipIntended` (gzip_intended.dfy) is the corrected trailer check that the
  Findings table below refers to.

On a trailer mismatch the code returns Success. The decoder's status is
stored in `result` (lib/gzip_decompress.c:113-119), and only Success gets
past that point. The code then computes the CRC-32 and compares both trailer
fields. On a mismatch it jumps to `out` with `result` still
LIBDEFLATE_SUCCESS (:134-135, :141-143), and it writes the consumed-input
count only after both fields match (:146-147). Upstream libdeflate returns
LIBDEFLATE_BAD_DATA at these two checks. The model follows the code as
written (`Run`, `GzipDecompressEx`). It gives the intended behaviour
separately, as `GzipIntended.IntendedRun`.

## Model

| member | source | states |
|---|---|---|
| GzipConstants.HasFlag | lib/gzip_decompress.c:77-104 | the tests `flg & GZIP_FEXTRA` (:77), `flg & GZIP_FNAME` (:88), `flg & GZIP_FCOMMENT` (:96) and `flg & GZIP_FHCRC` (:104): bit log2(`bit`) of FLG; its contract says a set bit means FLG is at least that bit's weight, and the FLG byte holding that bit alone has it set |
| GzipConstants.HasReserved | lib/gzip_decompress.c:73 | the test `flg & GZIP_FRESERVED`: one of bits 5 to 7 of FLG is set, i.e. FLG shifted right by 5 is non-zero |
| GzipConstants.FlagTestsAreBitwise | lib/gzip_decompress.c:73-104 | the arithmetic FLG tests used by the model equal the C tests `flg & GZIP_FRESERVED`, `flg & GZIP_FEXTRA`, `flg & GZIP_FNAME`, `flg & GZIP_FCOMMENT`, `flg & GZIP_FHCRC` and FTEXT on the byte |
| GzipConstants.Low32 | lib/gzip_decompress.c:141 | the `(u32)` cast of the produced count: a value below 2^32 is kept unchanged |
| GzipConstants.LE16 | lib/gzip_decompress.c:78 | `get_unaligned_le16`: the value is below 2^16, its low byte is the byte at the cursor and its high byte the next one |
| GzipConstants.LE32Bytes | lib/gzip_decompress.c:134-140 | the four bytes of a 32-bit value, least significant first, whose weighted sum is that value |
| GzipConstants.LE32 | lib/gzip_decompress.c:134-140 | `get_unaligned_le32`: the value read is the one whose little-endian bytes are exactly the 4 bytes at the cursor |
| GzipConstants.LE32OfBytes | lib/gzip_decompress.c:134-140 | reading back the little-endian bytes of a 32-bit value gives that value |
| GzipDecompress.NulScanEnd | lib/gzip_decompress.c:89-90 | the zero-terminated-field loop always advances at least one byte and never past the end of the buffer |
| GzipDecompress.NulScanEndMeaning | lib/gzip_decompress.c:89-90 | the loop passes over non-zero bytes only, and stops before the end of the buffer only just past a zero byte |
| GzipDecompress.SkipExtra | lib/gzip_decompress.c:77-85 | FEXTRA step: accepted with cursor 12 + XLEN exactly when 2 + XLEN bytes plus the footer fit; otherwise rejected |
| GzipDecompress.SkipString | lib/gzip_decompress.c:87-101 | FNAME/FCOMMENT step: an accepted field ends after the cursor and leaves the footer in the buffer |
| GzipDecompress.SkipStringMeaning | lib/gzip_decompress.c:87-101 | the step is rejected exactly when no zero byte lies before the footer; when accepted, the field is the zero-free run ended by the first zero |
| GzipDecompress.SkipHeaderCrc | lib/gzip_decompress.c:103-108 | FHCRC step: accepted, with the cursor advanced by 2, exactly when the footer still fits afterwards |
| GzipDecompress.HeaderEnd | lib/gzip_decompress.c:53-108 | an accepted header has an offset of at least 10, leaves 8 bytes for the footer, and has the right ID1, ID2 and CM bytes with no reserved FLG bit |
| GzipDecompress.Payload | lib/gzip_decompress.c:113-114 | the decoder is offered exactly the bytes from the payload offset up to the footer |
| GzipDecompress.ProducedCount | lib/gzip_decompress.c:121-124 | the count used by the trailer check is what the out slot received, else `out_nbytes_avail`; it never exceeds `out_nbytes_avail` |
| GzipDecompress.CrcMatches | lib/gzip_decompress.c:132-135 | the CRC-32 compare passes exactly when the 4 bytes at the cursor are the little-endian bytes of `libdeflate_crc32(0, out, n)` |
| GzipDecompress.SizeMatches | lib/gzip_decompress.c:140-143 | the ISIZE compare passes exactly when the 4 bytes after the CRC-32 are the little-endian bytes of `(u32)n` |
| GzipDecompress.Run | lib/gzip_decompress.c:32-156 | the consumed-input count is reported only if its slot was supplied and the status is Success, and it lies within the input; the produced count is reported only if its slot was supplied, and it lies within the room given |
| GzipDecompress.ScanPastNul | lib/gzip_decompress.c:89-90 | the `while (*in_next++ != 0 && in_next != in_end)` loop leaves the cursor where `NulScanEnd` says |
| GzipDecompress.SkipHeader | lib/gzip_decompress.c:53-108 | the cursor-walking header code returns `HeaderEnd` of the input: the payload offset, or rejection on every `goto out` |
| GzipDecompress.GzipDecompressEx | lib/gzip_decompress.c:32-156 | the status and the values left in both optional slots are `Run` of the inputs; the decoder is offered `Payload` exactly when the header is accepted |
| GzipDecompress.GzipDecompress | lib/gzip_decompress.c:158-167 | the wrapper's status and produced-count slot are `Run` with no consumed-input slot |
| GzipHeaderLayout.Flags | lib/gzip_decompress.c:65-104 | the FLG byte built for a header sets no reserved bit and announces exactly the optional fields the header carries |
| GzipHeaderLayout.LE16Bytes | lib/gzip_decompress.c:78 | the two little-endian bytes of a 16-bit value are read back as that value |
| GzipHeaderLayout.BytesOfLE16 | lib/gzip_decompress.c:78 | re-encoding a read XLEN gives back the two bytes it was read from |
| GzipHeaderLayout.NulScanEndAt | lib/gzip_decompress.c:89-90 | the loop stops just past the first zero byte |
| GzipHeaderLayout.SkipOverString | lib/gzip_decompress.c:87-93 | a zero-free string stored with its terminator, followed by a footer, is skipped exactly |
| GzipHeaderLayout.HeaderEndFromSteps | lib/gzip_decompress.c:76-108 | once the fixed part is accepted, the header walk is the composition of its four optional steps in order |
| GzipHeaderLayout.EncodedSize | lib/gzip_decompress.c:53-108 | the fixed part of an encoded header is 10 bytes and the whole encoding has the RFC 1952 layout size |
| GzipHeaderLayout.EncodedFixedPart | lib/gzip_decompress.c:53-71 | an encoded header passes the length, ID1, ID2 and CM checks, and its FLG byte is the one built for it |
| GzipHeaderLayout.EncodedExtraSkipped | lib/gzip_decompress.c:77-85 | the FEXTRA step on an encoded header lands just after the extra field |
| GzipHeaderLayout.EncodedNameSkipped | lib/gzip_decompress.c:87-93 | the FNAME step on an encoded header lands just after the name's terminator |
| GzipHeaderLayout.EncodedCommentSkipped | lib/gzip_decompress.c:95-101 | the FCOMMENT step on an encoded header lands just after the comment's terminator |
| GzipHeaderLayout.EncodedHeaderCrcSkipped | lib/gzip_decompress.c:103-108 | the FHCRC step on an encoded header lands at the layout size |
| GzipHeaderLayout.EncodedHeaderParses | lib/gzip_decompress.c:53-108 | a well-formed header followed by at least 8 bytes is accepted, with the payload offset at 10 + (2 + XLEN) + (name + 1) + (comment + 1) + 2 over the present fields |
| GzipHeaderLayout.EncodedFieldEnds | lib/gzip_decompress.c:76-101 | on an encoded header the cursor after each optional step sits at that field's boundary |
| GzipHeaderLayout.DecodesFixedFields | lib/gzip_decompress.c:65-71 | decoding an encoded header gives back its FTEXT hint, MTIME, XFL and OS |
| GzipHeaderLayout.DecodesExtra | lib/gzip_decompress.c:77-85 | decoding an encoded header gives back its extra field |
| GzipHeaderLayout.DecodesName | lib/gzip_decompress.c:87-93 | decoding an encoded header gives back its file name |
| GzipHeaderLayout.DecodesComment | lib/gzip_decompress.c:95-101 | decoding an encoded header gives back its comment |
| GzipHeaderLayout.DecodesHeaderCrc | lib/gzip_decompress.c:103-108 | decoding an encoded header gives back its header CRC16 bytes |
| GzipHeaderLayout.EncodedHeaderDecodes | lib/gzip_decompress.c:53-108 | round trip: decoding the encoding of a well-formed header gives back that header |
| GzipHeaderLayout.FlagsOfByte | lib/gzip_decompress.c:65-74 | an FLG byte with no reserved bit is exactly the sum of its five meaningful bits |
| GzipHeaderLayout.FieldEnds | lib/gzip_decompress.c:76-108 | the cursor after the FEXTRA, FNAME and FCOMMENT steps of an accepted header: ordered, each step's result, and the final offset |
| GzipHeaderLayout.DecodeHeader | lib/gzip_decompress.c:53-108 | the fields read from an accepted header form a well-formed header: XLEN fits 16 bits, and the name and comment hold no zero byte |
| GzipHeaderLayout.DecodedFixedPart | lib/gzip_decompress.c:56-71 | the decoded header's fixed part is the input's first 10 bytes |
| GzipHeaderLayout.DecodedExtra | lib/gzip_decompress.c:77-85 | the decoded extra field, re-encoded, is the bytes the FEXTRA step skipped |
| GzipHeaderLayout.DecodedName | lib/gzip_decompress.c:87-93 | the decoded name, with its terminator, is the bytes the FNAME step skipped |
| GzipHeaderLayout.DecodedComment | lib/gzip_decompress.c:95-101 | the decoded comment, with its terminator, is the bytes the FCOMMENT step skipped |
| GzipHeaderLayout.DecodedHeaderCrc | lib/gzip_decompress.c:103-108 | the decoded CRC16 is the bytes the FHCRC step skipped |
| GzipHeaderLayout.ParsedHeaderEncodes | lib/gzip_decompress.c:53-108 | round trip: every accepted header, up to the payload offset, is the encoding of the well-formed header decoded from it |
| GzipHeaderLayout.PayloadOffset | lib/gzip_decompress.c:53-108 | every accepted header's payload offset is the RFC 1952 layout size of the header decoded from it |
| GzipProperties.ShortInputIsBadData | lib/gzip_decompress.c:53-54 | inputs shorter than 18 bytes are BadData, with neither slot written |
| GzipProperties.BadFixedHeaderIsBadData | lib/gzip_decompress.c:56-74 | a wrong ID1, ID2 or CM byte, or a reserved FLG bit, is BadData with neither slot written |
| GzipProperties.RejectedHeaderSkipsDecoder | lib/gzip_decompress.c:53-108 | a rejected header is BadData whatever the decoder and the CRC-32 would say: neither is consulted |
| GzipProperties.NulScanEndLocal | lib/gzip_decompress.c:89-90 | the loop's result depends only on the bytes from its start onwards |
| GzipProperties.StepsAgree | lib/gzip_decompress.c:76-101 | the optional-field steps read nothing before byte 10 |
| GzipProperties.FlagsAgree | lib/gzip_decompress.c:73-104 | two FLG bytes differing at most in FTEXT agree on every test the code makes |
| GzipProperties.UncheckedFieldsIgnored | lib/gzip_decompress.c:65-71 | MTIME, XFL, OS and the FTEXT bit are skipped unread: changing them never changes the header verdict or the payload offset |
| GzipProperties.NulScanEndPrefix | lib/gzip_decompress.c:89-90 | the loop reads only the bytes it passes over |
| GzipProperties.HeaderReadsOnlyHeader | lib/gzip_decompress.c:53-108 | header parsing reads nothing at or beyond the payload offset |
| GzipProperties.DecoderFailurePassedThrough | lib/gzip_decompress.c:113-119 | a status other than Success from the decoder is returned unchanged; the consumed-input slot is not written and the produced count is what the decoder reported |
| GzipProperties.TrailerInBounds | lib/gzip_decompress.c:127-145 | after the decoder returns, the CRC-32 and ISIZE at the advanced cursor lie inside the input |
| GzipProperties.TrailerMatchSucceeds | lib/gzip_decompress.c:130-150 | when both trailer fields match, the result is Success and the consumed-input count is the payload offset plus the bytes consumed plus 8 |
| GzipProperties.TrailerMismatchReturnsSuccess | lib/gzip_decompress.c:130-144 | as written, a CRC-32 or ISIZE mismatch returns the decoder's Success, with the consumed-input slot not written |
| GzipProperties.BadDataExactly | lib/gzip_decompress.c:32-156 | BadData comes back exactly when the header is rejected or the decoder reports BadData |
| GzipProperties.InCountWrittenExactly | lib/gzip_decompress.c:146-147 | the consumed-input slot is written exactly when it was supplied and the trailer at the cursor matches |
| GzipProperties.WrapperReportsNoInCount | lib/gzip_decompress.c:158-167 | the wrapper never reports a consumed-input count |
| GzipProperties.LE32Differs | lib/gzip_decompress.c:134-140 | changing one byte of a little-endian 32-bit trailer field changes its value |
| GzipProperties.FlippedTrailerMismatches | lib/gzip_decompress.c:130-144 | corrupting one byte of the stored CRC-32 or ISIZE of a valid member, with the decoder replying as before, leaves the header verdict unchanged and makes the trailer check fail |
| GzipProperties.FlippedFieldMismatches | lib/gzip_decompress.c:134-143 | changing one of the 8 trailer bytes after a matching trailer makes the CRC-32 or the ISIZE compare fail |
| GzipProperties.FlippedTrailerReturnsSuccess | lib/gzip_decompress.c:130-144 | as written, such a corrupted member still returns Success, with no consumed-input count |
| GzipProperties.FooterOutsidePayload | lib/gzip_decompress.c:113-114 | the last 8 bytes of the buffer are never offered to the decoder |
| GzipProperties.FlippedFooterReturnsSuccess | lib/gzip_decompress.c:113-144 | as written, corrupting one of the last 8 bytes of a valid member with no trailing bytes still returns Success with no consumed-input count, with no assumption on the decoder's reply |
| GzipMember.Trailer | lib/gzip_decompress.c:130-144 | the 8-byte trailer built for the output stores its CRC-32 and the low 32 bits of its length where the code reads them |
| GzipMember.OfferedBytes | lib/gzip_decompress.c:113-114 | in a member the decoder is offered the body, then the trailer and the bytes after it, minus the last 8 bytes of the buffer; so when bytes follow the trailer, trailer bytes are offered too |
| GzipMember.TrailerFields | lib/gzip_decompress.c:134-140 | the CRC-32 and ISIZE read right after the body are the trailer's two fields |
| GzipMember.StoredTrailerMatches | lib/gzip_decompress.c:130-143 | the trailer built for the output, stored right after the body, passes both the CRC-32 and the ISIZE compare |
| GzipMember.MemberAfterHeader | lib/gzip_decompress.c:113-150 | for any accepted header prefix, either state of the out-count slot, a body consumed entirely by the decoder and the trailer for the count the code checks (the produced count with the slot, else `out_nbytes_avail`, :121-124): Success, consumed-input count header + body + 8, and the produced count reported exactly when its slot was supplied |
| GzipMember.MemberDecodes | lib/gzip_decompress.c:32-156 | for either state of the out-count slot, a well-formed header, a body consumed entirely, the trailer for the count the code checks and any trailing bytes decode to Success; the consumed-input count is the member's length, layout size + body + 8, with trailing bytes not counted, and the produced count is reported exactly when its slot was supplied |
| GzipProperties.EmptyMemberDecodes | lib/gzip_decompress.c:32-156 | the 20-byte member of the empty string decodes to Success, consumed input 20 and produced output 0 |
| GzipProperties.EmptyMemberWrongSize | lib/gzip_decompress.c:138-144 | as written, the same member with its ISIZE byte set to 1 returns Success, with no consumed-input count |
| GzipIntended.IntendedRun | lib/gzip_decompress.c:130-150 | corrected outcome with the same count-slot guarantees as `Run` |
| GzipIntended.IntendedRejectsMismatch | lib/gzip_decompress.c:130-144 | corrected, a trailer mismatch after a successful decode is BadData, with no consumed-input count |
| GzipIntended.IntendedAgreesElsewhere | lib/gzip_decompress.c:32-156 | off the mismatch exits the corrected outcome equals the code's |
| GzipIntended.OutcomesDifferExactlyOnMismatch | lib/gzip_decompress.c:130-144 | the code and the corrected outcome differ exactly on a trailer mismatch |
| GzipIntended.IntendedSuccessExactly | lib/gzip_decompress.c:130-150 | corrected, Success comes back exactly when the header is accepted, the decoder succeeds and both trailer fields match |
| GzipIntended.IntendedFlippedTrailerIsBadData | lib/gzip_decompress.c:130-144 | corrected, corrupting one stored CRC-32 or ISIZE byte of a valid member, with the decoder replying as before, yields BadData |
| GzipIntended.IntendedFlippedFooterIsBadData | lib/gzip_decompress.c:113-144 | corrected, corrupting one of the last 8 bytes of a valid member with no trailing bytes yields BadData, with no assumption on the decoder's reply |
| GzipIntended.IntendedEmptyMemberWrongSize | lib/gzip_decompress.c:138-144 | corrected, the empty member with its ISIZE byte set to 1 is BadData |

## Left out

- The timing instrumentation (`libdeflate_timing_*` calls, lib/timing_internal.h, lib/timing_x86.h) is left out. It changes neither the result, the cursor nor the slots.
- The raw DEFLATE decoder `libdeflate_deflate_decompress_ex` is a parameter. After the call the model uses only its status, the bytes it consumed, the count it reports and the output buffer; its constraint is only what the wrapper relies on.
- `libdeflate_crc32` is a parameter. The CRC-32 algorithm is not modelled, and the call is always made with initial value 0.
- The decompressor object `d` is not modelled. It is only passed on to the decoder and the timing hooks.
- Pointer validity, `size_t` and pointer-arithmetic overflow are left out: the buffer is a sequence and the cursor an unbounded index.
- The output buffer is not modelled as memory; the decoder's reply carries its contents.
- Whether the decoder writes the out-count slot when it fails is not modelled. The model reads the decoder's reported count from that slot whenever the slot was supplied, on every status.
- GzipConstants.HasFlag: its own contract states only that a set bit means FLG is at least that bit's weight and that the byte holding the bit alone has it set. A contract stating the bit exactly as a remainder did not verify within the resource limit; the exact equivalence with C's `&` is proved once, in GzipConstants.FlagTestsAreBitwise.
- The header constants are taken from RFC 1952. The header that defines them, lib/gzip_constants.h, is not part of this model.
- The caller-visible output bytes are not tied to a DEFLATE decompression: stating that the output equals the original data would need a model of the decoder.
- The single C function is split into the methods `SkipHeader`, `ScanPastNul` and `GzipDecompressEx`. Together they perform the same steps in the same order.
- GzipProperties.FlippedTrailerMismatches, GzipProperties.FlippedTrailerReturnsSuccess, GzipIntended.IntendedFlippedTrailerIsBadData: when the decoder stopped before the footer, the trailer lies inside the bytes offered to the decoder, so corrupting it may change the decoder's reply. These lemmas assume the decoder replies as before, because the model has no DEFLATE decoder to show it. For a member with no bytes after its footer the assumption is proved instead: see GzipProperties.FlippedFooterReturnsSuccess and GzipIntended.IntendedFlippedFooterIsBadData.
- GzipMember.MemberDecodes: it assumes that the decoder, offered the body followed by the bytes after it, consumes exactly the body. A DEFLATE decoder stops at its final block; the model has no DEFLATE decoder to prove it.

## Findings

| source | as written | input that shows it | evidently intended | confidence | as-written member | corrected member |
|---|---|---|---|---|---|---|
| lib/gzip_decompress.c:134-143 | after a successful decode, a CRC-32 or ISIZE mismatch jumps to `out` with `result` still LIBDEFLATE_SUCCESS, so the call returns Success; only the consumed-input slot stays unwritten | the 20-byte gzip member of the empty string with ISIZE byte 16 changed from 0 to 1: returns Success, produced 0 | return LIBDEFLATE_BAD_DATA on either mismatch: the code computes the CRC-32 and compares both fields only to reject the member, and withholds the consumed-input count on a mismatch (:130-147); upstream libdeflate returns LIBDEFLATE_BAD_DATA at both checks | not executed; follows from the code's control flow | GzipProperties.EmptyMemberWrongSize | GzipIntended.IntendedEmptyMemberWrongSize |
