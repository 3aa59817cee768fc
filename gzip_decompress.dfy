/**
 * One-shot decoding of a single gzip member (RFC 1952, sections 2.3 and
 * 2.3.1), as done by `libdeflate_gzip_decompress_ex` and its wrapper
 * `libdeflate_gzip_decompress` in lib/gzip_decompress.c.
 *
 * The input buffer `[in, in_end)` is a byte sequence and the cursor `in_next`
 * a natural-number index into it. The raw DEFLATE decoder and the CRC-32
 * routine are not part of this model: they are passed in as function values,
 * the decoder constrained only by what the wrapper relies on.
 */
module GzipDecompress {
  import opened Wrappers
  import opened GzipConstants

  /** What `libdeflate_deflate_decompress_ex` hands back: its status, the
      number of input bytes it consumed, the number of output bytes it
      reports through the out-count slot, and the output buffer afterwards. */
  datatype Inflate = Inflate(status: Status, consumed: nat, produced: nat, output: seq<byte>)

  /** The decoder's side of the bargain: it consumes no more than it was
      offered, produces no more than there is room for, and the output buffer
      keeps its size. */
  predicate Honours(r: Inflate, offered: nat, avail: nat) {
    r.consumed <= offered && r.produced <= avail && |r.output| == avail
  }

  /** The raw DEFLATE decoder: (payload, out_nbytes_avail, out-count slot
      supplied?) to its reply. */
  type Inflater = f: (seq<byte>, nat, bool) -> Inflate
    | forall payload, avail, slot :: Honours(f(payload, avail, slot), |payload|, avail)
    witness (payload: seq<byte>, avail: nat, slot: bool) => Inflate(BadData, 0, 0, seq(avail, _ => 0))

  /** `libdeflate_crc32(initial, data, len)`; the algorithm itself is not modelled. */
  type Crc32 = (u32, seq<byte>) -> u32

  /** What a call reports: its status and the values left in the caller's
      optional `actual_in_nbytes_ret` / `actual_out_nbytes_ret` slots
      (`None` when the slot was not supplied or not written). */
  datatype Outcome = Outcome(status: Status, inCount: Option<nat>, outCount: Option<nat>)

  // ---------------------------------------------------------------------
  // The header, as a specification on byte sequences
  // ---------------------------------------------------------------------

  /** Where the loop `while (*in_next++ != 0 && in_next != in_end);` leaves
      the cursor when it starts at `i`: just past the first zero byte, or at
      the end of the buffer if it meets none. */
  function NulScanEnd(s: seq<byte>, i: nat): (j: nat)
    requires i < |s|
    ensures i < j <= |s|
    decreases |s| - i
  {
    if s[i] == 0 || i + 1 == |s| then i + 1 else NulScanEnd(s, i + 1)
  }

  /** The scan passes over non-zero bytes only, and stops short of the end
      of the buffer only just past a zero byte. */
  lemma {:induction false} NulScanEndMeaning(s: seq<byte>, i: nat)
    requires i < |s|
    ensures forall k :: i <= k < NulScanEnd(s, i) - 1 ==> s[k] != 0
    ensures NulScanEnd(s, i) < |s| ==> s[NulScanEnd(s, i) - 1] == 0
    decreases |s| - i
  {
    if s[i] != 0 && i + 1 != |s| {
      NulScanEndMeaning(s, i + 1);
    }
  }

  /** FEXTRA: a 2-byte length XLEN, then XLEN bytes; the footer must still fit. */
  function SkipExtra(s: seq<byte>, p: nat): (r: Option<nat>)
    requires p + FOOTER_SIZE <= |s|
    ensures r.Some? ==> r.value == p + 2 + LE16(s, p) && r.value + FOOTER_SIZE <= |s|
    ensures r.None? ==> |s| < p + 2 + LE16(s, p) + FOOTER_SIZE
  {
    var xlen := LE16(s, p);
    if |s| - (p + 2) < xlen + FOOTER_SIZE then None else Some(p + 2 + xlen)
  }

  /** FNAME or FCOMMENT: a zero-terminated string; the footer must still fit
      after its terminator. */
  function SkipString(s: seq<byte>, p: nat): (r: Option<nat>)
    requires p + FOOTER_SIZE <= |s|
    ensures r.Some? ==> p < r.value && r.value + FOOTER_SIZE <= |s|
  {
    var j := NulScanEnd(s, p);
    if |s| - j < FOOTER_SIZE then None else Some(j)
  }

  /** A string field is accepted exactly when a zero byte occurs before the
      last 8 bytes; an unterminated string, and one whose terminator lies in
      the footer, are rejected. An accepted field ends just past its first
      zero byte. */
  lemma SkipStringMeaning(s: seq<byte>, p: nat)
    requires p + FOOTER_SIZE <= |s|
    ensures SkipString(s, p).None? <==> forall k :: p <= k < |s| - FOOTER_SIZE ==> s[k] != 0
    ensures SkipString(s, p).Some? ==>
      var q := SkipString(s, p).value;
      s[q - 1] == 0 && forall k :: p <= k < q - 1 ==> s[k] != 0
  {
    NulScanEndMeaning(s, p);
  }

  /** FHCRC: the 2-byte header CRC-16 (never checked); the footer must still fit. */
  function SkipHeaderCrc(s: seq<byte>, p: nat): (r: Option<nat>)
    requires p + FOOTER_SIZE <= |s|
    ensures r.Some? <==> p + 2 + FOOTER_SIZE <= |s|
    ensures r.Some? ==> r.value == p + 2
  {
    if |s| - (p + 2) < FOOTER_SIZE then None else Some(p + 2)
  }

  /** The offset of the compressed payload, or `None` when the header is
      rejected (every such exit returns LIBDEFLATE_BAD_DATA). */
  function HeaderEnd(s: seq<byte>): (r: Option<nat>)
    ensures r.Some? ==> HEADER_SIZE <= r.value && r.value + FOOTER_SIZE <= |s|
    ensures r.Some? ==> s[0] == ID1 && s[1] == ID2 && s[2] == CM_DEFLATE && !HasReserved(s[3])
  {
    if |s| < MIN_OVERHEAD then None
    else if s[0] != ID1 || s[1] != ID2 || s[2] != CM_DEFLATE then None
    else
      var flg := s[3];
      if HasReserved(flg) then None
      else
        var p1 :- if HasFlag(flg, FEXTRA) then SkipExtra(s, HEADER_SIZE) else Some(HEADER_SIZE);
        var p2 :- if HasFlag(flg, FNAME) then SkipString(s, p1) else Some(p1);
        var p3 :- if HasFlag(flg, FCOMMENT) then SkipString(s, p2) else Some(p2);
        if HasFlag(flg, FHCRC) then SkipHeaderCrc(s, p3) else Some(p3)
  }

  /** The bytes offered to the decoder: from the payload offset `p` up to,
      but not including, the 8-byte footer. */
  function Payload(s: seq<byte>, p: nat): (payload: seq<byte>)
    requires p + FOOTER_SIZE <= |s|
    ensures |payload| == |s| - FOOTER_SIZE - p
    ensures forall k :: 0 <= k < |payload| ==> payload[k] == s[p + k]
  {
    s[p..|s| - FOOTER_SIZE]
  }

  // ---------------------------------------------------------------------
  // The trailer and the whole call
  // ---------------------------------------------------------------------

  /** The byte count the trailer is checked against: the decoder's report
      when the caller supplied the out-count slot, the whole buffer otherwise. */
  function ProducedCount(raw: Inflate, avail: nat, outCountSlot: bool): (n: nat)
    ensures raw.produced <= avail ==> n <= avail
  {
    if outCountSlot then raw.produced else avail
  }

  /** The stored CRC-32, read at the cursor `q` the decoder left, equals the
      CRC-32 (initial value 0) of the first `n` output bytes. */
  function CrcMatches(s: seq<byte>, q: nat, raw: Inflate, n: nat, crc32: Crc32): (b: bool)
    requires q + 4 <= |s| && n <= |raw.output|
    ensures var c := LE32Bytes(crc32(0, raw.output[..n]));
      b <==> s[q] == c[0] && s[q + 1] == c[1] && s[q + 2] == c[2] && s[q + 3] == c[3]
  {
    crc32(0, raw.output[..n]) == LE32(s, q)
  }

  /** The stored ISIZE, the 4 bytes after the CRC-32, equals the low 32 bits
      of `n`. */
  function SizeMatches(s: seq<byte>, q: nat, n: nat): (b: bool)
    requires q + 8 <= |s|
    ensures var z := LE32Bytes(Low32(n));
      b <==> s[q + 4] == z[0] && s[q + 5] == z[1] && s[q + 6] == z[2] && s[q + 7] == z[3]
  {
    Low32(n) == LE32(s, q + 4)
  }

  /** The whole of `libdeflate_gzip_decompress_ex`, as written: note that a
      CRC-32 or ISIZE mismatch returns the decoder's status (which is
      Success on that path), not BadData. */
  function Run(s: seq<byte>, avail: nat, inCountSlot: bool, outCountSlot: bool,
               inflate: Inflater, crc32: Crc32): (o: Outcome)
    ensures o.inCount.Some? ==> inCountSlot && o.status == Success && o.inCount.value <= |s|
    ensures o.outCount.Some? ==> outCountSlot && o.outCount.value <= avail
  {
    match HeaderEnd(s)
    case None => Outcome(BadData, None, None)
    case Some(p) =>
      var raw := inflate(Payload(s, p), avail, outCountSlot);
      var outCount := if outCountSlot then Some(raw.produced) else None;
      if raw.status != Success then Outcome(raw.status, None, outCount)
      else
        var n := ProducedCount(raw, avail, outCountSlot);
        var q := p + raw.consumed;
        if !CrcMatches(s, q, raw, n, crc32) then Outcome(raw.status, None, outCount)
        else if !SizeMatches(s, q, n) then Outcome(raw.status, None, outCount)
        else Outcome(Success, if inCountSlot then Some(q + FOOTER_SIZE) else None, outCount)
  }

  // ---------------------------------------------------------------------
  // The two entry points
  // ---------------------------------------------------------------------

  /** The loop `while (*in_next++ != 0 && in_next != in_end);` of the FNAME
      and FCOMMENT fields, started at `start`. */
  method ScanPastNul(input: seq<byte>, start: nat) returns (inNext: nat)
    requires start < |input|
    ensures inNext == NulScanEnd(input, start)
  {
    var inEnd := |input|;
    inNext := start;
    var b := input[inNext];
    inNext := inNext + 1;
    while b != 0 && inNext != inEnd
      invariant start < inNext <= inEnd
      invariant b == input[inNext - 1]
      invariant NulScanEnd(input, start) == NulScanEnd(input, inNext - 1)
      decreases inEnd - inNext
    {
      b := input[inNext];
      inNext := inNext + 1;
    }
  }

  /** Lines 53-108 of `libdeflate_gzip_decompress_ex`: check the fixed header
      and advance the cursor past the optional fields. `None` is every
      `goto out` taken while `result` still holds LIBDEFLATE_BAD_DATA. */
  method SkipHeader(input: seq<byte>) returns (r: Option<nat>)
    ensures r == HeaderEnd(input)
  {
    var inEnd := |input|;
    var inNext: nat := 0;

    if |input| < MIN_OVERHEAD {
      return None;
    }
    var b := input[inNext];
    inNext := inNext + 1;
    if b != ID1 {
      return None;
    }
    b := input[inNext];
    inNext := inNext + 1;
    if b != ID2 {
      return None;
    }
    b := input[inNext];
    inNext := inNext + 1;
    if b != CM_DEFLATE {
      return None;
    }
    var flg := input[inNext];
    inNext := inNext + 1;
    inNext := inNext + 4;  // MTIME
    inNext := inNext + 1;  // XFL
    inNext := inNext + 1;  // OS

    if HasReserved(flg) {
      return None;
    }

    if HasFlag(flg, FEXTRA) {
      var xlen := LE16(input, inNext);
      inNext := inNext + 2;
      if inEnd - inNext < xlen + FOOTER_SIZE {
        return None;
      }
      inNext := inNext + xlen;
    }
    ghost var p1 := inNext;
    assert (if HasFlag(flg, FEXTRA) then SkipExtra(input, HEADER_SIZE) else Some(HEADER_SIZE)) == Some(p1);

    if HasFlag(flg, FNAME) {
      assert inEnd - inNext >= FOOTER_SIZE;
      inNext := ScanPastNul(input, inNext);
      if inEnd - inNext < FOOTER_SIZE {
        return None;
      }
    }
    ghost var p2 := inNext;
    assert (if HasFlag(flg, FNAME) then SkipString(input, p1) else Some(p1)) == Some(p2);

    if HasFlag(flg, FCOMMENT) {
      assert inEnd - inNext >= FOOTER_SIZE;
      inNext := ScanPastNul(input, inNext);
      if inEnd - inNext < FOOTER_SIZE {
        return None;
      }
    }
    ghost var p3 := inNext;
    assert (if HasFlag(flg, FCOMMENT) then SkipString(input, p2) else Some(p2)) == Some(p3);

    if HasFlag(flg, FHCRC) {
      inNext := inNext + 2;
      if inEnd - inNext < FOOTER_SIZE {
        return None;
      }
    }
    return Some(inNext);
  }

  /** `libdeflate_gzip_decompress_ex`: the header is skipped by `SkipHeader`,
      the payload handed to the decoder, then the trailer checked with the
      cursor advanced by what the decoder consumed. `offered` records what,
      if anything, was handed to the decoder. */
  method GzipDecompressEx(input: seq<byte>, outAvail: nat, inCountSlot: bool, outCountSlot: bool,
                          inflate: Inflater, crc32: Crc32)
    returns (result: Status, actualIn: Option<nat>, actualOut: Option<nat>, ghost offered: Option<seq<byte>>)
    ensures Outcome(result, actualIn, actualOut) == Run(input, outAvail, inCountSlot, outCountSlot, inflate, crc32)
    ensures offered == if HeaderEnd(input).Some? then Some(Payload(input, HeaderEnd(input).value)) else None
  {
    result, actualIn, actualOut, offered := BadData, None, None, None;
    var inEnd := |input|;
    var header := SkipHeader(input);
    if header.None? {
      return;
    }
    var inNext := header.value;

    // Compressed data
    var payload := input[inNext..inEnd - FOOTER_SIZE];
    assert payload == Payload(input, inNext);
    offered := Some(payload);
    var raw := inflate(payload, outAvail, outCountSlot);
    assert Honours(raw, |payload|, outAvail);
    result := raw.status;
    if outCountSlot {
      actualOut := Some(raw.produced);
    }
    if result != Success {
      return;
    }
    var actualOutNbytes := if outCountSlot then raw.produced else outAvail;
    inNext := inNext + raw.consumed;

    // CRC32
    var computedCrc := crc32(0, raw.output[..actualOutNbytes]);
    if computedCrc != LE32(input, inNext) {
      return;
    }
    inNext := inNext + 4;

    // ISIZE
    var expectedIsize := LE32(input, inNext);
    if Low32(actualOutNbytes) != expectedIsize {
      return;
    }
    inNext := inNext + 4;
    if inCountSlot {
      actualIn := Some(inNext);
    }
    result := Success;
  }

  /** `libdeflate_gzip_decompress`: the same call with no consumed-input slot. */
  method GzipDecompress(input: seq<byte>, outAvail: nat, outCountSlot: bool,
                        inflate: Inflater, crc32: Crc32)
    returns (result: Status, actualOut: Option<nat>)
    ensures Outcome(result, None, actualOut) == Run(input, outAvail, false, outCountSlot, inflate, crc32)
  {
    var actualIn;
    ghost var offered;
    result, actualIn, actualOut, offered := GzipDecompressEx(input, outAvail, false, outCountSlot, inflate, crc32);
  }
}
