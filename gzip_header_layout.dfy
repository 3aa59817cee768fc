/**
 * The gzip member header of RFC 1952, section 2.3.1, as a value, with its
 * encoding. Relates the cursor arithmetic of `HeaderEnd` to the layout it
 * skips: every well-formed header is accepted and skipped exactly, and every
 * accepted header prefix is the encoding of a well-formed header.
 */
module GzipHeaderLayout {
  import opened Wrappers
  import opened GzipConstants
  import opened GzipDecompress

  /** The header fields. `text` is the FTEXT hint; `mtime` is the 4 raw
      MTIME bytes; `headerCrc` the 2 raw bytes of the optional CRC16. */
  datatype Header = Header(text: bool, mtime: seq<byte>, xfl: byte, os: byte,
                           extra: Option<seq<byte>>, name: Option<seq<byte>>,
                           comment: Option<seq<byte>>, headerCrc: Option<seq<byte>>)

  predicate ZeroFree(b: seq<byte>) {
    forall k :: 0 <= k < |b| ==> b[k] != 0
  }

  /** What RFC 1952 asks of the fields: an extra field whose length fits
      XLEN, and a name and comment without an embedded zero byte. */
  predicate WellFormed(h: Header) {
    && |h.mtime| == 4
    && (h.extra.Some? ==> |h.extra.value| < 0x1_0000)
    && (h.name.Some? ==> ZeroFree(h.name.value))
    && (h.comment.Some? ==> ZeroFree(h.comment.value))
    && (h.headerCrc.Some? ==> |h.headerCrc.value| == 2)
  }

  function Bit(b: bool, mask: byte): nat {
    if b then mask as nat else 0
  }

  /** The FLG byte announcing the fields `h` carries. */
  function Flags(h: Header): (flg: byte)
    ensures !HasReserved(flg)
    ensures HasFlag(flg, FTEXT) == h.text
    ensures HasFlag(flg, FHCRC) == h.headerCrc.Some?
    ensures HasFlag(flg, FEXTRA) == h.extra.Some?
    ensures HasFlag(flg, FNAME) == h.name.Some?
    ensures HasFlag(flg, FCOMMENT) == h.comment.Some?
  {
    (Bit(h.text, FTEXT) + Bit(h.headerCrc.Some?, FHCRC) + Bit(h.extra.Some?, FEXTRA)
      + Bit(h.name.Some?, FNAME) + Bit(h.comment.Some?, FCOMMENT)) as byte
  }

  /** A 16-bit value as 2 little-endian bytes. */
  function LE16Bytes(n: nat): (b: seq<byte>)
    requires n < 0x1_0000
    ensures |b| == 2 && LE16(b, 0) == n
  {
    [(n % 0x100) as byte, (n / 0x100) as byte]
  }

  /** Re-encoding a 16-bit value read from `s` gives back its two bytes. */
  lemma BytesOfLE16(s: seq<byte>, i: nat)
    requires i + 2 <= |s|
    ensures LE16Bytes(LE16(s, i)) == s[i..i + 2]
  {
  }

  function ExtraField(extra: Option<seq<byte>>): seq<byte>
    requires extra.Some? ==> |extra.value| < 0x1_0000
  {
    match extra
    case None => []
    case Some(e) => LE16Bytes(|e|) + e
  }

  function Terminated(field: Option<seq<byte>>): seq<byte> {
    match field
    case None => []
    case Some(b) => b + [0]
  }

  function Present(field: Option<seq<byte>>): seq<byte> {
    match field
    case None => []
    case Some(b) => b
  }

  function FixedPart(h: Header): seq<byte> {
    [ID1, ID2, CM_DEFLATE, Flags(h)] + h.mtime + [h.xfl, h.os]
  }

  /** The bytes of the header, fields in the order RFC 1952 fixes. */
  function Encode(h: Header): (s: seq<byte>)
    requires WellFormed(h)
  {
    FixedPart(h) + ExtraField(h.extra) + Terminated(h.name) + Terminated(h.comment) + Present(h.headerCrc)
  }

  /** The payload offset of RFC 1952's layout: 10 fixed bytes, then 2 + XLEN,
      the name and the comment with their terminators, and the CRC16. */
  function LayoutSize(h: Header): nat {
    HEADER_SIZE
      + (if h.extra.Some? then 2 + |h.extra.value| else 0)
      + (if h.name.Some? then |h.name.value| + 1 else 0)
      + (if h.comment.Some? then |h.comment.value| + 1 else 0)
      + (if h.headerCrc.Some? then 2 else 0)
  }

  // ---------------------------------------------------------------------
  // Skipping one field
  // ---------------------------------------------------------------------

  /** The NUL scan stops exactly after the first zero byte. */
  lemma {:induction false} NulScanEndAt(s: seq<byte>, i: nat, j: nat)
    requires i < j <= |s| && s[j - 1] == 0
    requires forall k :: i <= k < j - 1 ==> s[k] != 0
    ensures NulScanEnd(s, i) == j
    decreases j - i
  {
    if i + 1 < j {
      NulScanEndAt(s, i + 1, j);
    }
  }

  /** A zero-free string `b`, stored with its terminator right after `pre`
      at the start of `s`, and a footer after it, is skipped exactly. */
  lemma SkipOverString(s: seq<byte>, pre: seq<byte>, b: seq<byte>)
    requires ZeroFree(b) && |pre| + |b| + 1 + FOOTER_SIZE <= |s|
    requires s[..|pre| + |b| + 1] == pre + (b + [0])
    ensures SkipString(s, |pre|) == Some(|pre| + |b| + 1)
  {
    var p := |pre|;
    forall k | p <= k < p + |b|
      ensures s[k] != 0
    {
      assert s[k] == s[..p + |b| + 1][k] == b[k - p];
    }
    assert s[p + |b|] == s[..p + |b| + 1][p + |b|] == 0;
    NulScanEndAt(s, p, p + |b| + 1);
  }

  lemma PrefixOfAppend(a: seq<byte>, b: seq<byte>, c: seq<byte>)
    ensures (a + b + c)[..|a|] == a
  {
  }

  lemma PrefixOfAppend4(a: seq<byte>, b: seq<byte>, c: seq<byte>, d: seq<byte>)
    ensures (a + b + c + d)[..|a|] == a
  {
    PrefixOfAppend(a, b, c);
    assert (a + b + c + d)[..|a + b + c|] == a + b + c;
  }

  // ---------------------------------------------------------------------
  // Encoding, then skipping
  // ---------------------------------------------------------------------

  /** `HeaderEnd` as the composition of its four optional steps, once the
      fixed part is accepted. */
  lemma HeaderEndFromSteps(s: seq<byte>, p1: nat, p2: nat, p3: nat)
    requires |s| >= MIN_OVERHEAD && s[0] == ID1 && s[1] == ID2 && s[2] == CM_DEFLATE
    requires !HasReserved(s[3])
    requires (if HasFlag(s[3], FEXTRA) then SkipExtra(s, HEADER_SIZE) else Some(HEADER_SIZE)) == Some(p1)
    requires p1 + FOOTER_SIZE <= |s|
    requires (if HasFlag(s[3], FNAME) then SkipString(s, p1) else Some(p1)) == Some(p2)
    requires p2 + FOOTER_SIZE <= |s|
    requires (if HasFlag(s[3], FCOMMENT) then SkipString(s, p2) else Some(p2)) == Some(p3)
    requires p3 + FOOTER_SIZE <= |s|
    ensures HeaderEnd(s) == if HasFlag(s[3], FHCRC) then SkipHeaderCrc(s, p3) else Some(p3)
  {
  }

  lemma EncodedSize(h: Header)
    requires WellFormed(h)
    ensures |FixedPart(h)| == HEADER_SIZE
    ensures |Encode(h)| == LayoutSize(h)
  {
  }

  lemma EncodedFixedPart(h: Header, rest: seq<byte>)
    requires WellFormed(h) && |rest| >= FOOTER_SIZE
    ensures var s := Encode(h) + rest;
      |s| >= MIN_OVERHEAD && s[0] == ID1 && s[1] == ID2 && s[2] == CM_DEFLATE && s[3] == Flags(h)
  {
    EncodedSize(h);
    var s := Encode(h) + rest;
    assert s[..HEADER_SIZE] == FixedPart(h);
  }

  lemma EncodedExtraSkipped(h: Header, rest: seq<byte>)
    requires WellFormed(h) && |rest| >= FOOTER_SIZE
    ensures var s := Encode(h) + rest;
      (if HasFlag(s[3], FEXTRA) then SkipExtra(s, HEADER_SIZE) else Some(HEADER_SIZE))
        == Some(HEADER_SIZE + |ExtraField(h.extra)|)
  {
    EncodedFixedPart(h, rest);
    EncodedSize(h);
    if h.extra.Some? {
      var s := Encode(h) + rest;
      var x := LE16Bytes(|h.extra.value|);
      assert s[HEADER_SIZE] == x[0] && s[HEADER_SIZE + 1] == x[1];
      assert LE16(s, HEADER_SIZE) == LE16(x, 0);
    }
  }

  lemma EncodedNameSkipped(h: Header, rest: seq<byte>)
    requires WellFormed(h) && |rest| >= FOOTER_SIZE
    ensures var s := Encode(h) + rest;
      var p1 := HEADER_SIZE + |ExtraField(h.extra)|;
      p1 + FOOTER_SIZE <= |s| &&
      (if HasFlag(s[3], FNAME) then SkipString(s, p1) else Some(p1)) == Some(p1 + |Terminated(h.name)|)
  {
    EncodedFixedPart(h, rest);
    EncodedSize(h);
    if h.name.Some? {
      var pre := FixedPart(h) + ExtraField(h.extra);
      var u := pre + Terminated(h.name);
      PrefixOfAppend4(u, Terminated(h.comment), Present(h.headerCrc), rest);
      SkipOverString(Encode(h) + rest, pre, h.name.value);
    }
  }

  lemma EncodedCommentSkipped(h: Header, rest: seq<byte>)
    requires WellFormed(h) && |rest| >= FOOTER_SIZE
    ensures var s := Encode(h) + rest;
      var p2 := HEADER_SIZE + |ExtraField(h.extra)| + |Terminated(h.name)|;
      p2 + FOOTER_SIZE <= |s| &&
      (if HasFlag(s[3], FCOMMENT) then SkipString(s, p2) else Some(p2)) == Some(p2 + |Terminated(h.comment)|)
  {
    EncodedFixedPart(h, rest);
    EncodedSize(h);
    if h.comment.Some? {
      var pre := FixedPart(h) + ExtraField(h.extra) + Terminated(h.name);
      var u := pre + Terminated(h.comment);
      PrefixOfAppend(u, Present(h.headerCrc), rest);
      SkipOverString(Encode(h) + rest, pre, h.comment.value);
    }
  }

  lemma EncodedHeaderCrcSkipped(h: Header, rest: seq<byte>)
    requires WellFormed(h) && |rest| >= FOOTER_SIZE
    ensures var s := Encode(h) + rest;
      var p3 := HEADER_SIZE + |ExtraField(h.extra)| + |Terminated(h.name)| + |Terminated(h.comment)|;
      p3 + FOOTER_SIZE <= |s| &&
      (if HasFlag(s[3], FHCRC) then SkipHeaderCrc(s, p3) else Some(p3)) == Some(LayoutSize(h))
  {
    EncodedFixedPart(h, rest);
    EncodedSize(h);
  }

  /** A well-formed header followed by at least a footer's worth of bytes is
      accepted, and the payload starts right after it, at the offset RFC
      1952's layout gives. */
  lemma EncodedHeaderParses(h: Header, rest: seq<byte>)
    requires WellFormed(h) && |rest| >= FOOTER_SIZE
    ensures |Encode(h)| == LayoutSize(h)
    ensures HeaderEnd(Encode(h) + rest) == Some(LayoutSize(h))
  {
    var s := Encode(h) + rest;
    EncodedSize(h);
    EncodedFixedPart(h, rest);
    var p1 := HEADER_SIZE + |ExtraField(h.extra)|;
    var p2 := p1 + |Terminated(h.name)|;
    var p3 := p2 + |Terminated(h.comment)|;
    EncodedExtraSkipped(h, rest);
    EncodedNameSkipped(h, rest);
    EncodedCommentSkipped(h, rest);
    EncodedHeaderCrcSkipped(h, rest);
    HeaderEndFromSteps(s, p1, p2, p3);
  }

  // ---------------------------------------------------------------------
  // Encoding, then decoding
  // ---------------------------------------------------------------------

  /** The bytes of a field stored right after `pre` at the start of `s`. */
  lemma Window(s: seq<byte>, pre: seq<byte>, b: seq<byte>)
    requires |pre| + |b| <= |s| && s[..|pre| + |b|] == pre + b
    ensures s[|pre|..|pre| + |b|] == b
  {
    forall k | 0 <= k < |b|
      ensures s[|pre|..|pre| + |b|][k] == b[k]
    {
      assert s[|pre| + k] == s[..|pre| + |b|][|pre| + k];
    }
  }

  /** Every left-nested prefix of an encoded header is a prefix of the input. */
  lemma EncodedPrefixes(h: Header, rest: seq<byte>)
    requires WellFormed(h)
    ensures var s := Encode(h) + rest;
      var f := FixedPart(h);
      var fx := f + ExtraField(h.extra);
      var fxn := fx + Terminated(h.name);
      var fxnc := fxn + Terminated(h.comment);
      s[..|fxnc|] == fxnc && s[..|fxn|] == fxn && s[..|fx|] == fx && s[..|f|] == f
  {
    var f := FixedPart(h);
    var fx := f + ExtraField(h.extra);
    var fxn := fx + Terminated(h.name);
    var fxnc := fxn + Terminated(h.comment);
    var s := Encode(h) + rest;
    PrefixOfAppend(fxnc, Present(h.headerCrc), rest);
    assert s[..|fxn|] == fxnc[..|fxn|];
    assert s[..|fx|] == fxn[..|fx|];
    assert s[..|f|] == fx[..|f|];
  }

  /** The cursor positions `FieldEnds` finds in an encoded header. */
  lemma EncodedFieldEnds(h: Header, rest: seq<byte>)
    requires WellFormed(h) && |rest| >= FOOTER_SIZE
    ensures HeaderEnd(Encode(h) + rest).Some?
    ensures var p1 := HEADER_SIZE + |ExtraField(h.extra)|;
      var p2 := p1 + |Terminated(h.name)|;
      FieldEnds(Encode(h) + rest) == (p1, p2, p2 + |Terminated(h.comment)|)
  {
    EncodedHeaderParses(h, rest);
    EncodedFixedPart(h, rest);
    EncodedExtraSkipped(h, rest);
    EncodedNameSkipped(h, rest);
    EncodedCommentSkipped(h, rest);
  }

  lemma DecodesFixedFields(h: Header, rest: seq<byte>)
    requires WellFormed(h) && |rest| >= FOOTER_SIZE
    ensures HeaderEnd(Encode(h) + rest).Some?
    ensures var d := DecodeHeader(Encode(h) + rest);
      d.text == h.text && d.mtime == h.mtime && d.xfl == h.xfl && d.os == h.os
  {
    var s := Encode(h) + rest;
    EncodedFieldEnds(h, rest);
    EncodedFixedPart(h, rest);
    EncodedPrefixes(h, rest);
    assert s[4..8] == FixedPart(h)[4..8];
  }

  lemma DecodesExtra(h: Header, rest: seq<byte>)
    requires WellFormed(h) && |rest| >= FOOTER_SIZE
    ensures HeaderEnd(Encode(h) + rest).Some?
    ensures DecodeHeader(Encode(h) + rest).extra == h.extra
  {
    var s := Encode(h) + rest;
    EncodedFieldEnds(h, rest);
    EncodedFixedPart(h, rest);
    if h.extra.Some? {
      EncodedPrefixes(h, rest);
      var x := ExtraField(h.extra);
      Window(s, FixedPart(h), x);
      assert s[HEADER_SIZE + 2..FieldEnds(s).0] == x[2..];
    }
  }

  lemma TerminatedInjective(a: Option<seq<byte>>, b: Option<seq<byte>>)
    requires a.Some? && b.Some? && Terminated(a) == Terminated(b)
    ensures a == b
  {
    assert a.value == Terminated(a)[..|a.value|];
  }

  lemma DecodesName(h: Header, rest: seq<byte>)
    requires WellFormed(h) && |rest| >= FOOTER_SIZE
    ensures HeaderEnd(Encode(h) + rest).Some?
    ensures DecodeHeader(Encode(h) + rest).name == h.name
  {
    var s := Encode(h) + rest;
    EncodedFieldEnds(h, rest);
    EncodedFixedPart(h, rest);
    if h.name.Some? {
      var pre := FixedPart(h) + ExtraField(h.extra);
      PrefixOfAppend4(pre + Terminated(h.name), Terminated(h.comment), Present(h.headerCrc), rest);
      Window(s, pre, Terminated(h.name));
      DecodedName(s);
      TerminatedInjective(DecodeHeader(s).name, h.name);
    }
  }

  lemma DecodesComment(h: Header, rest: seq<byte>)
    requires WellFormed(h) && |rest| >= FOOTER_SIZE
    ensures HeaderEnd(Encode(h) + rest).Some?
    ensures DecodeHeader(Encode(h) + rest).comment == h.comment
  {
    var s := Encode(h) + rest;
    EncodedFieldEnds(h, rest);
    EncodedFixedPart(h, rest);
    if h.comment.Some? {
      var pre := FixedPart(h) + ExtraField(h.extra) + Terminated(h.name);
      PrefixOfAppend(pre + Terminated(h.comment), Present(h.headerCrc), rest);
      Window(s, pre, Terminated(h.comment));
      DecodedComment(s);
      TerminatedInjective(DecodeHeader(s).comment, h.comment);
    }
  }

  lemma DecodesHeaderCrc(h: Header, rest: seq<byte>)
    requires WellFormed(h) && |rest| >= FOOTER_SIZE
    ensures HeaderEnd(Encode(h) + rest).Some?
    ensures DecodeHeader(Encode(h) + rest).headerCrc == h.headerCrc
  {
    var s := Encode(h) + rest;
    EncodedFieldEnds(h, rest);
    EncodedFixedPart(h, rest);
    if h.headerCrc.Some? {
      var u := FixedPart(h) + ExtraField(h.extra) + Terminated(h.name) + Terminated(h.comment);
      PrefixOfAppend(u, h.headerCrc.value, rest);
      Window(s, u, h.headerCrc.value);
    }
  }

  /** Decoding an encoded well-formed header gives back that header. */
  lemma EncodedHeaderDecodes(h: Header, rest: seq<byte>)
    requires WellFormed(h) && |rest| >= FOOTER_SIZE
    ensures HeaderEnd(Encode(h) + rest).Some?
    ensures DecodeHeader(Encode(h) + rest) == h
  {
    DecodesFixedFields(h, rest);
    DecodesExtra(h, rest);
    DecodesName(h, rest);
    DecodesComment(h, rest);
    DecodesHeaderCrc(h, rest);
  }

  // ---------------------------------------------------------------------
  // Skipping, then encoding
  // ---------------------------------------------------------------------

  /** The FLG byte is rebuilt from its five meaningful bits. */
  lemma FlagsOfByte(flg: byte)
    requires !HasReserved(flg)
    ensures Bit(HasFlag(flg, FTEXT), FTEXT) + Bit(HasFlag(flg, FHCRC), FHCRC) + Bit(HasFlag(flg, FEXTRA), FEXTRA)
      + Bit(HasFlag(flg, FNAME), FNAME) + Bit(HasFlag(flg, FCOMMENT), FCOMMENT) == flg as nat
  {
  }

  /** The cursor after the FEXTRA, FNAME and FCOMMENT steps of an accepted
      header. */
  function FieldEnds(s: seq<byte>): (p: (nat, nat, nat))
    requires HeaderEnd(s).Some?
    ensures HEADER_SIZE <= p.0 <= p.1 <= p.2 && p.2 + FOOTER_SIZE <= |s|
    ensures p.0 == (if HasFlag(s[3], FEXTRA) then HEADER_SIZE + 2 + LE16(s, HEADER_SIZE) else HEADER_SIZE)
    ensures HasFlag(s[3], FNAME) ==> SkipString(s, p.0) == Some(p.1)
    ensures !HasFlag(s[3], FNAME) ==> p.1 == p.0
    ensures HasFlag(s[3], FCOMMENT) ==> SkipString(s, p.1) == Some(p.2)
    ensures !HasFlag(s[3], FCOMMENT) ==> p.2 == p.1
    ensures HeaderEnd(s) == Some(if HasFlag(s[3], FHCRC) then p.2 + 2 else p.2)
  {
    var flg := s[3];
    var p1 := if HasFlag(flg, FEXTRA) then SkipExtra(s, HEADER_SIZE).value else HEADER_SIZE;
    var p2 := if HasFlag(flg, FNAME) then SkipString(s, p1).value else p1;
    var p3 := if HasFlag(flg, FCOMMENT) then SkipString(s, p2).value else p2;
    (p1, p2, p3)
  }

  /** Reads the fields of an accepted header back out of the bytes. */
  function DecodeHeader(s: seq<byte>): (h: Header)
    requires HeaderEnd(s).Some?
    ensures WellFormed(h)
  {
    var flg := s[3];
    var (p1, p2, p3) := FieldEnds(s);
    var name := if HasFlag(flg, FNAME) then Some(s[p1..p2 - 1]) else None;
    assert name.Some? ==> ZeroFree(name.value) by {
      if HasFlag(flg, FNAME) {
        SkipStringMeaning(s, p1);
      }
    }
    var comment := if HasFlag(flg, FCOMMENT) then Some(s[p2..p3 - 1]) else None;
    assert comment.Some? ==> ZeroFree(comment.value) by {
      if HasFlag(flg, FCOMMENT) {
        SkipStringMeaning(s, p2);
      }
    }
    Header(HasFlag(flg, FTEXT), s[4..8], s[8], s[9],
           if HasFlag(flg, FEXTRA) then Some(s[HEADER_SIZE + 2..p1]) else None,
           name, comment,
           if HasFlag(flg, FHCRC) then Some(s[p3..p3 + 2]) else None)
  }

  lemma DecodedFixedPart(s: seq<byte>)
    requires HeaderEnd(s).Some?
    ensures FixedPart(DecodeHeader(s)) == s[..HEADER_SIZE]
  {
    var h := DecodeHeader(s);
    FlagsOfByte(s[3]);
    assert Flags(h) == s[3];
  }

  lemma DecodedExtra(s: seq<byte>)
    requires HeaderEnd(s).Some? && HasFlag(s[3], FEXTRA)
    ensures ExtraField(DecodeHeader(s).extra) == s[HEADER_SIZE..FieldEnds(s).0]
  {
    var p1 := FieldEnds(s).0;
    var e := s[HEADER_SIZE + 2..p1];
    assert DecodeHeader(s).extra == Some(e);
    BytesOfLE16(s, HEADER_SIZE);
    assert s[HEADER_SIZE..p1] == s[HEADER_SIZE..HEADER_SIZE + 2] + e;
  }

  lemma DecodedName(s: seq<byte>)
    requires HeaderEnd(s).Some? && HasFlag(s[3], FNAME)
    ensures Terminated(DecodeHeader(s).name) == s[FieldEnds(s).0..FieldEnds(s).1]
  {
    var (p1, p2, _) := FieldEnds(s);
    SkipStringMeaning(s, p1);
    assert DecodeHeader(s).name == Some(s[p1..p2 - 1]);
    assert s[p1..p2] == s[p1..p2 - 1] + [s[p2 - 1]];
  }

  lemma DecodedComment(s: seq<byte>)
    requires HeaderEnd(s).Some? && HasFlag(s[3], FCOMMENT)
    ensures Terminated(DecodeHeader(s).comment) == s[FieldEnds(s).1..FieldEnds(s).2]
  {
    var (_, p2, p3) := FieldEnds(s);
    SkipStringMeaning(s, p2);
    assert DecodeHeader(s).comment == Some(s[p2..p3 - 1]);
    assert s[p2..p3] == s[p2..p3 - 1] + [s[p3 - 1]];
  }

  lemma DecodedHeaderCrc(s: seq<byte>)
    requires HeaderEnd(s).Some?
    ensures Present(DecodeHeader(s).headerCrc) == s[FieldEnds(s).2..HeaderEnd(s).value]
  {
  }

  lemma SliceSplit(s: seq<byte>, a: nat, b: nat, c: nat, d: nat, p: nat)
    requires a <= b <= c <= d <= p <= |s|
    ensures s[..p] == s[..a] + s[a..b] + s[b..c] + s[c..d] + s[d..p]
  {
  }

  /** Every header `HeaderEnd` accepts is, up to the payload offset, the
      encoding of a well-formed header: the one `DecodeHeader` reads. */
  lemma ParsedHeaderEncodes(s: seq<byte>)
    requires HeaderEnd(s).Some?
    ensures WellFormed(DecodeHeader(s))
    ensures Encode(DecodeHeader(s)) == s[..HeaderEnd(s).value]
  {
    var h := DecodeHeader(s);
    var (p1, p2, p3) := FieldEnds(s);
    var p := HeaderEnd(s).value;
    DecodedFixedPart(s);
    assert ExtraField(h.extra) == s[HEADER_SIZE..p1] by {
      if HasFlag(s[3], FEXTRA) {
        DecodedExtra(s);
      }
    }
    assert Terminated(h.name) == s[p1..p2] by {
      if HasFlag(s[3], FNAME) {
        DecodedName(s);
      }
    }
    assert Terminated(h.comment) == s[p2..p3] by {
      if HasFlag(s[3], FCOMMENT) {
        DecodedComment(s);
      }
    }
    DecodedHeaderCrc(s);
    SliceSplit(s, HEADER_SIZE, p1, p2, p3, p);
  }

  /** The payload offset of an accepted header, in RFC 1952's terms. */
  lemma PayloadOffset(s: seq<byte>)
    requires HeaderEnd(s).Some?
    ensures HeaderEnd(s).value == LayoutSize(DecodeHeader(s))
  {
    var p := HeaderEnd(s).value;
    ParsedHeaderEncodes(s);
    EncodedHeaderParses(DecodeHeader(s), s[p..]);
    assert s[..p] + s[p..] == s;
  }
}
