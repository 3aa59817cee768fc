/**
 * What `libdeflate_gzip_decompress_ex` returns on each of its exit paths,
 * stated over the specification `Run` that the method is proved to compute.
 */
module GzipProperties {
  import opened Wrappers
  import opened GzipConstants
  import opened GzipDecompress
  import GzipHeaderLayout

  // ---------------------------------------------------------------------
  // Header rejections
  // ---------------------------------------------------------------------

  /** Inputs shorter than the 18-byte minimum overhead are rejected before
      any byte is looked at. */
  lemma ShortInputIsBadData(s: seq<byte>, avail: nat, inCountSlot: bool, outCountSlot: bool,
                            inflate: Inflater, crc32: Crc32)
    requires |s| < MIN_OVERHEAD
    ensures HeaderEnd(s).None?
    ensures Run(s, avail, inCountSlot, outCountSlot, inflate, crc32) == Outcome(BadData, None, None)
  {
  }

  /** A wrong ID1, ID2 or CM byte, or a reserved FLG bit, is BadData. */
  lemma BadFixedHeaderIsBadData(s: seq<byte>, avail: nat, inCountSlot: bool, outCountSlot: bool,
                                inflate: Inflater, crc32: Crc32)
    requires |s| >= MIN_OVERHEAD
    requires s[0] != ID1 || s[1] != ID2 || s[2] != CM_DEFLATE || HasReserved(s[3])
    ensures Run(s, avail, inCountSlot, outCountSlot, inflate, crc32) == Outcome(BadData, None, None)
  {
  }

  /** A rejected header is BadData whatever the decoder and the CRC-32 would
      have said: neither is consulted. */
  lemma RejectedHeaderSkipsDecoder(s: seq<byte>, avail: nat, inCountSlot: bool, outCountSlot: bool,
                                   inflate: Inflater, crc32: Crc32, inflate': Inflater, crc32': Crc32)
    requires HeaderEnd(s).None?
    ensures Run(s, avail, inCountSlot, outCountSlot, inflate, crc32) == Outcome(BadData, None, None)
    ensures Run(s, avail, inCountSlot, outCountSlot, inflate, crc32)
         == Run(s, avail, inCountSlot, outCountSlot, inflate', crc32')
  {
  }

  /** The NUL scan reads the same bytes whenever the bytes from its start on agree. */
  lemma {:induction false} NulScanEndLocal(s: seq<byte>, t: seq<byte>, i: nat)
    requires i < |s| == |t|
    requires forall k :: i <= k < |s| ==> s[k] == t[k]
    ensures NulScanEnd(s, i) == NulScanEnd(t, i)
    decreases |s| - i
  {
    if s[i] != 0 && i + 1 != |s| {
      NulScanEndLocal(s, t, i + 1);
    }
  }

  /** The optional-field steps read nothing before byte 10, so inputs that
      agree from byte 10 on take them alike. */
  lemma StepsAgree(s: seq<byte>, t: seq<byte>)
    requires |s| == |t| >= MIN_OVERHEAD
    requires forall k :: HEADER_SIZE <= k < |s| ==> s[k] == t[k]
    ensures SkipExtra(s, HEADER_SIZE) == SkipExtra(t, HEADER_SIZE)
    ensures forall p :: HEADER_SIZE <= p && p + FOOTER_SIZE <= |s| ==> SkipString(s, p) == SkipString(t, p)
  {
    assert LE16(s, HEADER_SIZE) == LE16(t, HEADER_SIZE);
    forall p | HEADER_SIZE <= p && p + FOOTER_SIZE <= |s|
      ensures SkipString(s, p) == SkipString(t, p)
    {
      NulScanEndLocal(s, t, p);
    }
  }

  /** Two FLG bytes that differ at most in FTEXT agree on every other test. */
  lemma FlagsAgree(f: byte, g: byte)
    requires f as int / 2 == g as int / 2
    ensures HasReserved(f) == HasReserved(g)
    ensures HasFlag(f, FHCRC) == HasFlag(g, FHCRC) && HasFlag(f, FEXTRA) == HasFlag(g, FEXTRA)
    ensures HasFlag(f, FNAME) == HasFlag(g, FNAME) && HasFlag(f, FCOMMENT) == HasFlag(g, FCOMMENT)
  {
    var x, y := f as int, g as int;
    assert x / 4 == (x / 2) / 2 && y / 4 == (y / 2) / 2;
    assert x / 8 == (x / 2) / 4 && y / 8 == (y / 2) / 4;
    assert x / 16 == (x / 2) / 8 && y / 16 == (y / 2) / 8;
  }

  /** MTIME, XFL and OS (bytes 4 to 9) are skipped unread, and the FTEXT bit
      of FLG is ignored: changing them never changes the header's verdict or
      the payload offset. */
  lemma UncheckedFieldsIgnored(s: seq<byte>, t: seq<byte>)
    requires |s| == |t| >= HEADER_SIZE
    requires forall k :: 0 <= k < |s| && k != 3 && !(4 <= k < HEADER_SIZE) ==> s[k] == t[k]
    requires s[3] as int / 2 == t[3] as int / 2  // FLG agrees on every bit but FTEXT
    ensures HeaderEnd(s) == HeaderEnd(t)
  {
    var f, g := s[3], t[3];
    FlagsAgree(f, g);
    if |s| >= MIN_OVERHEAD && s[0] == ID1 && s[1] == ID2 && s[2] == CM_DEFLATE && !HasReserved(f) {
      StepsAgree(s, t);
      var e := if HasFlag(f, FEXTRA) then SkipExtra(s, HEADER_SIZE) else Some(HEADER_SIZE);
      assert e == if HasFlag(g, FEXTRA) then SkipExtra(t, HEADER_SIZE) else Some(HEADER_SIZE);
      if e.Some? {
        var n := if HasFlag(f, FNAME) then SkipString(s, e.value) else e;
        assert n == if HasFlag(g, FNAME) then SkipString(t, e.value) else e;
        if n.Some? {
          var c := if HasFlag(f, FCOMMENT) then SkipString(s, n.value) else n;
          assert c == if HasFlag(g, FCOMMENT) then SkipString(t, n.value) else n;
        }
      }
    }
  }

  /** The NUL scan reads only the bytes it passes over. */
  lemma {:induction false} NulScanEndPrefix(s: seq<byte>, t: seq<byte>, i: nat)
    requires i < |s| == |t|
    requires forall k :: i <= k < NulScanEnd(s, i) ==> s[k] == t[k]
    ensures NulScanEnd(t, i) == NulScanEnd(s, i)
    decreases |s| - i
  {
    if s[i] != 0 && i + 1 != |s| {
      NulScanEndPrefix(s, t, i + 1);
    }
  }

  /** Header parsing reads nothing at or beyond the payload offset: another
      input of the same length that agrees before it is parsed alike. */
  lemma HeaderReadsOnlyHeader(s: seq<byte>, t: seq<byte>)
    requires HeaderEnd(s).Some? && |s| == |t|
    requires forall k :: 0 <= k < HeaderEnd(s).value ==> s[k] == t[k]
    ensures HeaderEnd(t) == HeaderEnd(s)
  {
    var (p1, p2, p3) := GzipHeaderLayout.FieldEnds(s);
    var f := s[3];
    assert t[..4] == s[..4];
    assert HasFlag(f, FEXTRA) ==> LE16(s, HEADER_SIZE) == LE16(t, HEADER_SIZE) by {
      if HasFlag(f, FEXTRA) {
        assert s[HEADER_SIZE] == t[HEADER_SIZE] && s[HEADER_SIZE + 1] == t[HEADER_SIZE + 1];
      }
    }
    var e := if HasFlag(f, FEXTRA) then SkipExtra(s, HEADER_SIZE) else Some(HEADER_SIZE);
    assert e == (if HasFlag(f, FEXTRA) then SkipExtra(t, HEADER_SIZE) else Some(HEADER_SIZE)) == Some(p1);
    var n := if HasFlag(f, FNAME) then SkipString(s, p1) else Some(p1);
    assert n == (if HasFlag(f, FNAME) then SkipString(t, p1) else Some(p1)) == Some(p2) by {
      if HasFlag(f, FNAME) {
        NulScanEndPrefix(s, t, p1);
      }
    }
    var c := if HasFlag(f, FCOMMENT) then SkipString(s, p2) else Some(p2);
    assert c == (if HasFlag(f, FCOMMENT) then SkipString(t, p2) else Some(p2)) == Some(p3) by {
      if HasFlag(f, FCOMMENT) {
        NulScanEndPrefix(s, t, p2);
      }
    }
    GzipHeaderLayout.HeaderEndFromSteps(s, p1, p2, p3);
    GzipHeaderLayout.HeaderEndFromSteps(t, p1, p2, p3);
  }

  // ---------------------------------------------------------------------
  // The decoder hand-off
  // ---------------------------------------------------------------------

  /** On an accepted header the decoder is offered exactly the bytes between
      the payload offset and the footer, and a failure it reports is
      returned unchanged, with the consumed-input slot left unwritten. */
  lemma DecoderFailurePassedThrough(s: seq<byte>, avail: nat, inCountSlot: bool, outCountSlot: bool,
                                    inflate: Inflater, crc32: Crc32)
    requires HeaderEnd(s).Some?
    requires inflate(Payload(s, HeaderEnd(s).value), avail, outCountSlot).status != Success
    ensures var raw := inflate(Payload(s, HeaderEnd(s).value), avail, outCountSlot);
      Run(s, avail, inCountSlot, outCountSlot, inflate, crc32)
        == Outcome(raw.status, None, if outCountSlot then Some(raw.produced) else None)
  {
  }

  /** After a successful decode both trailer fields lie inside the input:
      the decoder consumed no more than it was offered, so the cursor it
      leaves is at most 8 bytes from the end. */
  lemma TrailerInBounds(s: seq<byte>, avail: nat, outCountSlot: bool, inflate: Inflater)
    requires HeaderEnd(s).Some?
    ensures var p := HeaderEnd(s).value;
      p + inflate(Payload(s, p), avail, outCountSlot).consumed + FOOTER_SIZE <= |s|
  {
    var p := HeaderEnd(s).value;
    assert Honours(inflate(Payload(s, p), avail, outCountSlot), |Payload(s, p)|, avail);
  }

  // ---------------------------------------------------------------------
  // The trailer
  // ---------------------------------------------------------------------

  /** The trailer of a member whose CRC-32 and ISIZE match, starting at the
      cursor `q` the decoder leaves. */
  predicate TrailerMatches(s: seq<byte>, avail: nat, outCountSlot: bool, inflate: Inflater, crc32: Crc32)
  {
    && HeaderEnd(s).Some?
    && var p := HeaderEnd(s).value;
       var raw := inflate(Payload(s, p), avail, outCountSlot);
       var n := ProducedCount(raw, avail, outCountSlot);
       raw.status == Success && p + raw.consumed + FOOTER_SIZE <= |s|
         && CrcMatches(s, p + raw.consumed, raw, n, crc32) && SizeMatches(s, p + raw.consumed, n)
  }

  /** The decoder succeeded but the trailer at the cursor it leaves does
      not match what it produced. */
  predicate TrailerRejected(s: seq<byte>, avail: nat, outCountSlot: bool, inflate: Inflater, crc32: Crc32)
  {
    && HeaderEnd(s).Some?
    && var p := HeaderEnd(s).value;
       var raw := inflate(Payload(s, p), avail, outCountSlot);
       var n := ProducedCount(raw, avail, outCountSlot);
       raw.status == Success && p + raw.consumed + FOOTER_SIZE <= |s|
         && !(CrcMatches(s, p + raw.consumed, raw, n, crc32) && SizeMatches(s, p + raw.consumed, n))
  }

  /** Both trailer fields match: Success, and the consumed-input slot, if
      supplied, gets the member's length: payload offset, what the decoder
      consumed, and the 8-byte footer. Bytes after the footer are not
      counted. */
  lemma TrailerMatchSucceeds(s: seq<byte>, avail: nat, inCountSlot: bool, outCountSlot: bool,
                             inflate: Inflater, crc32: Crc32)
    requires TrailerMatches(s, avail, outCountSlot, inflate, crc32)
    ensures var p := HeaderEnd(s).value;
      var raw := inflate(Payload(s, p), avail, outCountSlot);
      Run(s, avail, inCountSlot, outCountSlot, inflate, crc32)
        == Outcome(Success, if inCountSlot then Some(p + raw.consumed + FOOTER_SIZE) else None,
                   if outCountSlot then Some(raw.produced) else None)
      && p + raw.consumed + FOOTER_SIZE <= |s|
  {
    TrailerInBounds(s, avail, outCountSlot, inflate);
  }

  /** As written, a CRC-32 or ISIZE mismatch after a successful decode
      returns the stale `result`, i.e. Success, and leaves the
      consumed-input slot unwritten. The code checks both fields only to
      reject the member, yet the `goto out` at lib/gzip_decompress.c:134-135
      and :141-143 leaves `result` as the decoder set it at :113; upstream
      libdeflate returns LIBDEFLATE_BAD_DATA there. */
  lemma TrailerMismatchReturnsSuccess(s: seq<byte>, avail: nat, inCountSlot: bool, outCountSlot: bool,
                                      inflate: Inflater, crc32: Crc32)
    requires TrailerRejected(s, avail, outCountSlot, inflate, crc32)
    ensures var raw := inflate(Payload(s, HeaderEnd(s).value), avail, outCountSlot);
      Run(s, avail, inCountSlot, outCountSlot, inflate, crc32)
        == Outcome(Success, None, if outCountSlot then Some(raw.produced) else None)
  {
  }

  // ---------------------------------------------------------------------
  // Every exit path at once
  // ---------------------------------------------------------------------

  /** BadData comes back exactly when the header is rejected or the decoder
      itself reports BadData; never from the trailer checks. */
  lemma BadDataExactly(s: seq<byte>, avail: nat, inCountSlot: bool, outCountSlot: bool,
                       inflate: Inflater, crc32: Crc32)
    ensures Run(s, avail, inCountSlot, outCountSlot, inflate, crc32).status == BadData
        <==> HeaderEnd(s).None?
             || inflate(Payload(s, HeaderEnd(s).value), avail, outCountSlot).status == BadData
  {
  }

  /** The consumed-input slot is written exactly when it was supplied, the
      header was accepted, the decoder succeeded and both trailer fields
      match. */
  lemma InCountWrittenExactly(s: seq<byte>, avail: nat, inCountSlot: bool, outCountSlot: bool,
                              inflate: Inflater, crc32: Crc32)
    ensures Run(s, avail, inCountSlot, outCountSlot, inflate, crc32).inCount.Some?
        <==> inCountSlot && TrailerMatches(s, avail, outCountSlot, inflate, crc32)
  {
    if HeaderEnd(s).Some? {
      TrailerInBounds(s, avail, outCountSlot, inflate);
    }
  }

  /** `libdeflate_gzip_decompress` supplies no consumed-input slot, so none
      is ever reported through it. */
  lemma WrapperReportsNoInCount(s: seq<byte>, avail: nat, outCountSlot: bool,
                                inflate: Inflater, crc32: Crc32)
    ensures Run(s, avail, false, outCountSlot, inflate, crc32).inCount == None
  {
  }

  /** Changing one byte of a little-endian 32-bit field changes its value. */
  lemma LE32Differs(s: seq<byte>, t: seq<byte>, q: nat, i: nat)
    requires q + 4 <= |s| == |t| && q <= i < q + 4 && s[i] != t[i]
    requires forall k :: q <= k < q + 4 && k != i ==> s[k] == t[k]
    ensures LE32(s, q) != LE32(t, q)
  {
  }

  /** Corrupting any one byte of the stored CRC-32 or ISIZE of a valid member
      (the decoder replying as before) makes the trailer check fail. */
  lemma FlippedTrailerMismatches(s: seq<byte>, i: nat, b: byte, avail: nat, outCountSlot: bool,
                                 inflate: Inflater, crc32: Crc32)
    requires TrailerMatches(s, avail, outCountSlot, inflate, crc32)
    requires var p := HeaderEnd(s).value;
      var raw := inflate(Payload(s, p), avail, outCountSlot);
      p + raw.consumed <= i < p + raw.consumed + FOOTER_SIZE && b != s[i]
        && inflate(Payload(s[i := b], p), avail, outCountSlot) == raw
    ensures HeaderEnd(s[i := b]) == HeaderEnd(s)
    ensures TrailerRejected(s[i := b], avail, outCountSlot, inflate, crc32)
  {
    var t := s[i := b];
    var p := HeaderEnd(s).value;
    var raw := inflate(Payload(s, p), avail, outCountSlot);
    var n := ProducedCount(raw, avail, outCountSlot);
    var q := p + raw.consumed;
    HeaderReadsOnlyHeader(s, t);
    assert inflate(Payload(t, p), avail, outCountSlot) == raw;
    FlippedFieldMismatches(s, i, b, q, raw, n, crc32);
  }

  /** Changing one of the 8 trailer bytes at `q` fails one of the two compares. */
  lemma FlippedFieldMismatches(s: seq<byte>, i: nat, b: byte, q: nat, raw: Inflate, n: nat, crc32: Crc32)
    requires q + FOOTER_SIZE <= |s| && n <= |raw.output| && q <= i < q + FOOTER_SIZE && b != s[i]
    requires CrcMatches(s, q, raw, n, crc32) && SizeMatches(s, q, n)
    ensures !(CrcMatches(s[i := b], q, raw, n, crc32) && SizeMatches(s[i := b], q, n))
  {
    var t := s[i := b];
    if i < q + 4 {
      LE32Differs(s, t, q, i);
    } else {
      LE32Differs(s, t, q + 4, i);
    }
  }

  /** As written, corrupting one trailer byte of a valid member does not
      make the call fail: it returns Success and only withholds the
      consumed-input count. */
  lemma FlippedTrailerReturnsSuccess(s: seq<byte>, i: nat, b: byte, avail: nat,
                                     inCountSlot: bool, outCountSlot: bool,
                                     inflate: Inflater, crc32: Crc32)
    requires TrailerMatches(s, avail, outCountSlot, inflate, crc32)
    requires var p := HeaderEnd(s).value;
      var raw := inflate(Payload(s, p), avail, outCountSlot);
      p + raw.consumed <= i < p + raw.consumed + FOOTER_SIZE && b != s[i]
        && inflate(Payload(s[i := b], p), avail, outCountSlot) == raw
    ensures var raw := inflate(Payload(s, HeaderEnd(s).value), avail, outCountSlot);
      Run(s[i := b], avail, inCountSlot, outCountSlot, inflate, crc32)
        == Outcome(Success, None, if outCountSlot then Some(raw.produced) else None)
  {
    FlippedTrailerMismatches(s, i, b, avail, outCountSlot, inflate, crc32);
    TrailerMismatchReturnsSuccess(s[i := b], avail, inCountSlot, outCountSlot, inflate, crc32);
  }

  /** A byte of the last 8 is not part of what the decoder is offered. */
  lemma FooterOutsidePayload(s: seq<byte>, p: nat, i: nat, b: byte)
    requires p + FOOTER_SIZE <= |s| && |s| - FOOTER_SIZE <= i < |s|
    ensures Payload(s[i := b], p) == Payload(s, p)
  {
  }

  /** A valid member with no bytes after its footer: the decoder consumed
      everything it was offered, so the trailer is the last 8 bytes and a
      corrupted trailer byte leaves the decoder's reply as it was. As
      written, the call still returns Success with no consumed-input count. */
  lemma FlippedFooterReturnsSuccess(s: seq<byte>, i: nat, b: byte, avail: nat,
                                    inCountSlot: bool, outCountSlot: bool,
                                    inflate: Inflater, crc32: Crc32)
    requires TrailerMatches(s, avail, outCountSlot, inflate, crc32)
    requires var p := HeaderEnd(s).value;
      inflate(Payload(s, p), avail, outCountSlot).consumed == |Payload(s, p)|
    requires |s| - FOOTER_SIZE <= i < |s| && b != s[i]
    ensures var raw := inflate(Payload(s, HeaderEnd(s).value), avail, outCountSlot);
      Run(s[i := b], avail, inCountSlot, outCountSlot, inflate, crc32)
        == Outcome(Success, None, if outCountSlot then Some(raw.produced) else None)
  {
    FooterOutsidePayload(s, HeaderEnd(s).value, i, b);
    FlippedTrailerReturnsSuccess(s, i, b, avail, inCountSlot, outCountSlot, inflate, crc32);
  }

  // ---------------------------------------------------------------------
  // A concrete member
  // ---------------------------------------------------------------------

  /** The 20-byte gzip member of the empty string: no optional fields, the
      2-byte empty DEFLATE block 03 00, CRC-32 0 and ISIZE 0. */
  const EMPTY_MEMBER: seq<byte> := [0x1F, 0x8B, 8, 0, 0, 0, 0, 0, 0, 3, 3, 0, 0, 0, 0, 0, 0, 0, 0, 0]

  /** The member of the empty string decodes to 0 bytes and is 20 bytes long,
      given a decoder that consumes the empty block and produces nothing,
      and a CRC-32 that is 0 on no bytes. */
  lemma EmptyMemberDecodes(inflate: Inflater, crc32: Crc32)
    requires inflate([3, 0], 0, true) == Inflate(Success, 2, 0, [])
    requires crc32(0, []) == 0
    ensures Run(EMPTY_MEMBER, 0, true, true, inflate, crc32) == Outcome(Success, Some(20), Some(0))
  {
    assert HeaderEnd(EMPTY_MEMBER) == Some(HEADER_SIZE);
    assert Payload(EMPTY_MEMBER, HEADER_SIZE) == [3, 0];
    assert LE32(EMPTY_MEMBER, 12) == 0 && LE32(EMPTY_MEMBER, 16) == 0;
  }

  /** The same member with its ISIZE byte changed from 0 to 1: the mismatch
      is detected, yet the call returns Success (see
      `TrailerMismatchReturnsSuccess`), with no consumed-input count. */
  lemma EmptyMemberWrongSize(inflate: Inflater, crc32: Crc32)
    requires inflate([3, 0], 0, true) == Inflate(Success, 2, 0, [])
    requires crc32(0, []) == 0
    ensures Run(EMPTY_MEMBER[16 := 1], 0, true, true, inflate, crc32) == Outcome(Success, None, Some(0))
  {
    var s := EMPTY_MEMBER[16 := 1];
    assert HeaderEnd(s) == Some(HEADER_SIZE);
    assert Payload(s, HEADER_SIZE) == [3, 0];
    assert LE32(s, 12) == 0 && LE32(s, 16) == 1;
  }
}
