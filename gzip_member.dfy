/**
 * A whole gzip member as RFC 1952 lays it out: an encoded header, the
 * compressed body, the trailer of CRC-32 and ISIZE, and whatever the caller's
 * buffer holds after it. The member decodes to Success, and the
 * consumed-input count is the member's length.
 */
module GzipMember {
  import opened Wrappers
  import opened GzipConstants
  import opened GzipDecompress
  import opened GzipHeaderLayout
  import opened GzipProperties

  /** The 8-byte trailer for `n` bytes of output `out`. */
  function Trailer(crc32: Crc32, out: seq<byte>, n: nat): (t: seq<byte>)
    requires n <= |out|
    ensures |t| == FOOTER_SIZE
    ensures LE32(t, 0) == crc32(0, out[..n]) && LE32(t, 4) == Low32(n)
  {
    var c, z := LE32Bytes(crc32(0, out[..n])), LE32Bytes(Low32(n));
    LE32OfBytes(crc32(0, out[..n]));
    LE32OfBytes(Low32(n));
    assert (c + z)[4] == z[0] && (c + z)[5] == z[1] && (c + z)[6] == z[2] && (c + z)[7] == z[3];
    c + z
  }

  /** The decoder is offered the body, then the trailer and the bytes after
      it, minus the last 8 bytes of the buffer: when bytes follow the
      trailer, some trailer bytes are offered too. */
  lemma OfferedBytes(e: seq<byte>, body: seq<byte>, t: seq<byte>, rest: seq<byte>)
    requires |t| == FOOTER_SIZE
    ensures var s := e + (body + (t + rest));
      s[|e|..|s| - FOOTER_SIZE] == body + (t + rest)[..|rest|]
  {
    var s := e + (body + (t + rest));
    assert s[|e|..|s| - FOOTER_SIZE] == (body + (t + rest))[..|body| + |rest|];
  }

  /** The two little-endian fields of the trailer stored right after the body. */
  lemma TrailerFields(e: seq<byte>, body: seq<byte>, t: seq<byte>, rest: seq<byte>)
    requires |t| == FOOTER_SIZE
    ensures var s := e + (body + (t + rest));
      LE32(s, |e| + |body|) == LE32(t, 0) && LE32(s, |e| + |body| + 4) == LE32(t, 4)
  {
    var s := e + (body + (t + rest));
    var q := |e| + |body|;
    assert s[q] == t[0] && s[q + 1] == t[1] && s[q + 2] == t[2] && s[q + 3] == t[3];
    assert s[q + 4] == t[4] && s[q + 5] == t[5] && s[q + 6] == t[6] && s[q + 7] == t[7];
  }

  /** The trailer built for the output passes both compares after the body. */
  lemma StoredTrailerMatches(e: seq<byte>, body: seq<byte>, rest: seq<byte>, raw: Inflate, n: nat, crc32: Crc32)
    requires n <= |raw.output|
    ensures var q, s := |e| + |body|, e + (body + (Trailer(crc32, raw.output, n) + rest));
      CrcMatches(s, q, raw, n, crc32) && SizeMatches(s, q, n)
  {
    TrailerFields(e, body, Trailer(crc32, raw.output, n), rest);
  }

  /** The member argument for any accepted header prefix `e`. */
  lemma MemberAfterHeader(e: seq<byte>, body: seq<byte>, rest: seq<byte>, avail: nat, produced: nat,
                          out: seq<byte>, inCountSlot: bool, outCountSlot: bool,
                          inflate: Inflater, crc32: Crc32)
    requires produced <= avail == |out|
    requires var t := Trailer(crc32, out, if outCountSlot then produced else avail);
      HeaderEnd(e + (body + (t + rest))) == Some(|e|)
      && inflate(body + (t + rest)[..|rest|], avail, outCountSlot) == Inflate(Success, |body|, produced, out)
    ensures var s := e + (body + (Trailer(crc32, out, if outCountSlot then produced else avail) + rest));
      Run(s, avail, inCountSlot, outCountSlot, inflate, crc32)
        == Outcome(Success, if inCountSlot then Some(|e| + |body| + FOOTER_SIZE) else None,
                   if outCountSlot then Some(produced) else None)
  {
    var n := if outCountSlot then produced else avail;
    var t := Trailer(crc32, out, n);
    var s := e + (body + (t + rest));
    OfferedBytes(e, body, t, rest);
    assert Payload(s, |e|) == body + (t + rest)[..|rest|];
    var raw := inflate(Payload(s, |e|), avail, outCountSlot);
    assert raw == Inflate(Success, |body|, produced, out);
    assert ProducedCount(raw, avail, outCountSlot) == n;
    StoredTrailerMatches(e, body, rest, raw, n, crc32);
    assert TrailerMatches(s, avail, outCountSlot, inflate, crc32);
    TrailerMatchSucceeds(s, avail, inCountSlot, outCountSlot, inflate, crc32);
  }

  /** A well-formed header, a body the decoder consumes entirely, the trailer
      matching what the code checks it against (the produced count when the
      out-count slot is supplied, else `out_nbytes_avail`) and any trailing
      bytes: Success, with the consumed-input count the member's length
      (trailing bytes not counted) and the produced count the decoder's. */
  lemma MemberDecodes(h: Header, body: seq<byte>, rest: seq<byte>, avail: nat, produced: nat,
                      out: seq<byte>, inCountSlot: bool, outCountSlot: bool,
                      inflate: Inflater, crc32: Crc32)
    requires WellFormed(h) && produced <= avail == |out|
    requires var t := Trailer(crc32, out, if outCountSlot then produced else avail);
      inflate(body + (t + rest)[..|rest|], avail, outCountSlot) == Inflate(Success, |body|, produced, out)
    ensures var s := Encode(h) + (body + (Trailer(crc32, out, if outCountSlot then produced else avail) + rest));
      Run(s, avail, inCountSlot, outCountSlot, inflate, crc32)
        == Outcome(Success, if inCountSlot then Some(LayoutSize(h) + |body| + FOOTER_SIZE) else None,
                   if outCountSlot then Some(produced) else None)
  {
    var t := Trailer(crc32, out, if outCountSlot then produced else avail);
    EncodedHeaderParses(h, body + (t + rest));
    MemberAfterHeader(Encode(h), body, rest, avail, produced, out, inCountSlot, outCountSlot, inflate, crc32);
  }
}
