/**
 * The trailer check as the code evidently intends it: a member whose CRC-32
 * or ISIZE does not match what the decoder produced is rejected with BadData.
 * The code computes the CRC-32, compares both fields and withholds the
 * consumed-input count on a mismatch (lib/gzip_decompress.c:130-147), and
 * upstream libdeflate returns LIBDEFLATE_BAD_DATA at those two checks.
 * `GzipDecompress.Run` models the code as written, where those two exits
 * return the stale Success; this module states the corrected outcome and
 * proves that it differs from the as-written one on exactly those exits.
 */
module GzipIntended {
  import opened Wrappers
  import opened GzipConstants
  import opened GzipDecompress
  import opened GzipProperties

  /** The outcome of the gzip wrapper with the trailer mismatch reported as
      BadData; every other exit is as in the code. */
  function IntendedRun(s: seq<byte>, avail: nat, inCountSlot: bool, outCountSlot: bool,
                       inflate: Inflater, crc32: Crc32): (o: Outcome)
    ensures o.inCount.Some? ==> inCountSlot && o.status == Success && o.inCount.value <= |s|
    ensures o.outCount.Some? ==> outCountSlot && o.outCount.value <= avail
  {
    match HeaderEnd(s)
    case None => Outcome(BadData, None, None)
    case Some(p) =>
      var raw := inflate(Payload(s, p), avail, outCountSlot);
      var outCount := if outCountSlot then Some(raw.produced) else None;
      if raw.status != Success then Outcome(raw.status, None, outCount)
      else
        var n := ProducedCount(raw, avail, outCountSlot);
        var q := p + raw.consumed;
        if !CrcMatches(s, q, raw, n, crc32) || !SizeMatches(s, q, n) then Outcome(BadData, None, outCount)
        else Outcome(Success, if inCountSlot then Some(q + FOOTER_SIZE) else None, outCount)
  }

  /** A rejected trailer is BadData, with neither count reported beyond what
      the decoder produced. */
  lemma IntendedRejectsMismatch(s: seq<byte>, avail: nat, inCountSlot: bool, outCountSlot: bool,
                                inflate: Inflater, crc32: Crc32)
    requires TrailerRejected(s, avail, outCountSlot, inflate, crc32)
    ensures var raw := inflate(Payload(s, HeaderEnd(s).value), avail, outCountSlot);
      IntendedRun(s, avail, inCountSlot, outCountSlot, inflate, crc32)
        == Outcome(BadData, None, if outCountSlot then Some(raw.produced) else None)
  {
  }

  /** Off the trailer-mismatch exits the corrected outcome is the code's. */
  lemma IntendedAgreesElsewhere(s: seq<byte>, avail: nat, inCountSlot: bool, outCountSlot: bool,
                                inflate: Inflater, crc32: Crc32)
    requires !TrailerRejected(s, avail, outCountSlot, inflate, crc32)
    ensures IntendedRun(s, avail, inCountSlot, outCountSlot, inflate, crc32)
         == Run(s, avail, inCountSlot, outCountSlot, inflate, crc32)
  {
    if HeaderEnd(s).Some? {
      TrailerInBounds(s, avail, outCountSlot, inflate);
    }
  }

  /** The two outcomes differ exactly on a rejected trailer: there the code
      says Success and the corrected outcome says BadData. */
  lemma OutcomesDifferExactlyOnMismatch(s: seq<byte>, avail: nat, inCountSlot: bool, outCountSlot: bool,
                                        inflate: Inflater, crc32: Crc32)
    ensures IntendedRun(s, avail, inCountSlot, outCountSlot, inflate, crc32)
         != Run(s, avail, inCountSlot, outCountSlot, inflate, crc32)
        <==> TrailerRejected(s, avail, outCountSlot, inflate, crc32)
  {
    if TrailerRejected(s, avail, outCountSlot, inflate, crc32) {
      IntendedRejectsMismatch(s, avail, inCountSlot, outCountSlot, inflate, crc32);
      TrailerMismatchReturnsSuccess(s, avail, inCountSlot, outCountSlot, inflate, crc32);
    } else {
      IntendedAgreesElsewhere(s, avail, inCountSlot, outCountSlot, inflate, crc32);
    }
  }

  /** Corrected, Success means the header was accepted, the decoder
      succeeded and both trailer fields were verified. */
  lemma IntendedSuccessExactly(s: seq<byte>, avail: nat, inCountSlot: bool, outCountSlot: bool,
                               inflate: Inflater, crc32: Crc32)
    ensures IntendedRun(s, avail, inCountSlot, outCountSlot, inflate, crc32).status == Success
        <==> TrailerMatches(s, avail, outCountSlot, inflate, crc32)
  {
    if HeaderEnd(s).Some? {
      TrailerInBounds(s, avail, outCountSlot, inflate);
    }
  }

  /** Corrected, corrupting any one byte of the stored CRC-32 or ISIZE of a
      valid member (the decoder replying as before) yields BadData. */
  lemma IntendedFlippedTrailerIsBadData(s: seq<byte>, i: nat, b: byte, avail: nat,
                                        inCountSlot: bool, outCountSlot: bool,
                                        inflate: Inflater, crc32: Crc32)
    requires TrailerMatches(s, avail, outCountSlot, inflate, crc32)
    requires var p := HeaderEnd(s).value;
      var raw := inflate(Payload(s, p), avail, outCountSlot);
      p + raw.consumed <= i < p + raw.consumed + FOOTER_SIZE && b != s[i]
        && inflate(Payload(s[i := b], p), avail, outCountSlot) == raw
    ensures IntendedRun(s[i := b], avail, inCountSlot, outCountSlot, inflate, crc32).status == BadData
  {
    FlippedTrailerMismatches(s, i, b, avail, outCountSlot, inflate, crc32);
    IntendedRejectsMismatch(s[i := b], avail, inCountSlot, outCountSlot, inflate, crc32);
  }

  /** Corrected, corrupting one of the last 8 bytes of a valid member with
      no bytes after its footer yields BadData; the decoder's reply is
      unchanged because that byte is not offered to it. */
  lemma IntendedFlippedFooterIsBadData(s: seq<byte>, i: nat, b: byte, avail: nat,
                                       inCountSlot: bool, outCountSlot: bool,
                                       inflate: Inflater, crc32: Crc32)
    requires TrailerMatches(s, avail, outCountSlot, inflate, crc32)
    requires var p := HeaderEnd(s).value;
      inflate(Payload(s, p), avail, outCountSlot).consumed == |Payload(s, p)|
    requires |s| - FOOTER_SIZE <= i < |s| && b != s[i]
    ensures IntendedRun(s[i := b], avail, inCountSlot, outCountSlot, inflate, crc32).status == BadData
  {
    FooterOutsidePayload(s, HeaderEnd(s).value, i, b);
    IntendedFlippedTrailerIsBadData(s, i, b, avail, inCountSlot, outCountSlot, inflate, crc32);
  }

  /** The empty member with its ISIZE byte changed to 1 is rejected once
      corrected. */
  lemma IntendedEmptyMemberWrongSize(inflate: Inflater, crc32: Crc32)
    requires inflate([3, 0], 0, true) == Inflate(Success, 2, 0, [])
    requires crc32(0, []) == 0
    ensures IntendedRun(EMPTY_MEMBER[16 := 1], 0, true, true, inflate, crc32) == Outcome(BadData, None, Some(0))
  {
    var t := EMPTY_MEMBER[16 := 1];
    assert HeaderEnd(t) == Some(HEADER_SIZE);
    assert Payload(t, HEADER_SIZE) == [3, 0];
    assert LE32(t, 16) == 1;
  }
}
