/**
 * The layout of a Lytro light-field package (`.lfp`): the file signature,
 * the primary header, and the fixed 96-byte header in front of every section.
 */
module LfpFormat {
  import opened Bytes

  /** Bytes of the magic region at the start of every header; the first four are the section type. */
  const MAGIC_LENGTH: nat := 12
  /** Bytes of the big-endian payload length that follows the magic region. */
  const LENGTH_FIELD: nat := 4
  /** Bytes of the ASCII digest string ("sha1-" and 40 hex digits) after the length. */
  const SHA1_LENGTH: nat := 45
  /** Reserved bytes after the digest, skipped unread. */
  const BLANK_LENGTH: nat := 35
  /** Bytes of the section type copied from the start of the magic region. */
  const TYPE_LENGTH: nat := 4
  /** The whole section header: 12 + 4 + 45 + 35 = 96 bytes. */
  const HEADER_LENGTH: nat := MAGIC_LENGTH + LENGTH_FIELD + SHA1_LENGTH + BLANK_LENGTH
  /** The primary header at the start of the file: a magic region and a length, no payload. */
  const PRIMARY_HEADER_LENGTH: nat := MAGIC_LENGTH + LENGTH_FIELD

  /** Header offsets of the length field, the digest and the payload. */
  const LENGTH_OFFSET: nat := MAGIC_LENGTH
  const SHA1_OFFSET: nat := MAGIC_LENGTH + LENGTH_FIELD

  /** The 8-byte file signature: 0x89 'L' 'F' 'P' CR LF 0x1A LF. */
  const Signature: seq<byte> := [0x89, 0x4C, 0x46, 0x50, 0x0D, 0x0A, 0x1A, 0x0A]

  /**
   * One parsed section: its 4-byte type, the declared payload length, the
   * 45-byte digest string (carried, never checked) and the payload itself.
   */
  datatype Section = Section(tag: seq<byte>, len: nat, sha1: seq<byte>, data: seq<byte>)

  /** The shape every parsed section has: fixed-width fields, a `uint32_t` length, and exactly that many payload bytes. */
  predicate WellFormed(s: Section)
  {
    |s.tag| == TYPE_LENGTH && |s.sha1| == SHA1_LENGTH && s.len < TWO_32 && |s.data| == s.len
  }

  /**
   * The signature check: the buffer is longer than 8 bytes and its first
   * 8 bytes are the signature.
   */
  function LfpFileCheck(buf: seq<byte>): (ok: bool)
    ensures ok <==> |buf| > |Signature| && forall i :: 0 <= i < |Signature| ==> buf[i] == Signature[i]
  {
    |buf| > 8 && buf[..8] == Signature
  }

  /**
   * The bytes of a section as a writer lays them out: the type, eight zero
   * bytes completing the magic region, the length, the digest, 35 zero
   * reserved bytes, then the payload.
   */
  function EncodeSection(s: Section): (b: seq<byte>)
    requires WellFormed(s)
    ensures |b| == HEADER_LENGTH + s.len
  {
    s.tag + Zeros(MAGIC_LENGTH - TYPE_LENGTH) + EncodeBE32(s.len) + s.sha1 + Zeros(BLANK_LENGTH) + s.data
  }

  /** Header offsets the parser never reads: the rest of the magic region after the type, and the 35 blank bytes. */
  predicate Reserved(i: nat)
  {
    TYPE_LENGTH <= i < MAGIC_LENGTH || SHA1_OFFSET + SHA1_LENGTH <= i < HEADER_LENGTH
  }

  /** Where each field of a section lies in its encoding. */
  lemma {:induction false} EncodeSectionFields(s: Section)
    requires WellFormed(s)
    ensures EncodeSection(s)[..TYPE_LENGTH] == s.tag
    ensures EncodeSection(s)[TYPE_LENGTH .. MAGIC_LENGTH] == Zeros(MAGIC_LENGTH - TYPE_LENGTH)
    ensures EncodeSection(s)[LENGTH_OFFSET .. LENGTH_OFFSET + LENGTH_FIELD] == EncodeBE32(s.len)
    ensures EncodeSection(s)[SHA1_OFFSET .. SHA1_OFFSET + SHA1_LENGTH] == s.sha1
    ensures EncodeSection(s)[SHA1_OFFSET + SHA1_LENGTH .. HEADER_LENGTH] == Zeros(BLANK_LENGTH)
    ensures EncodeSection(s)[HEADER_LENGTH ..] == s.data
  {
    var e := EncodeSection(s);
    var a := s.tag;
    var b := a + Zeros(MAGIC_LENGTH - TYPE_LENGTH);
    var c := b + EncodeBE32(s.len);
    var d := c + s.sha1;
    var f := d + Zeros(BLANK_LENGTH);
    assert e == f + s.data;
    SliceBefore(a, Zeros(MAGIC_LENGTH - TYPE_LENGTH) + EncodeBE32(s.len) + s.sha1 + Zeros(BLANK_LENGTH) + s.data, 0, 4);
    assert e == a + (Zeros(MAGIC_LENGTH - TYPE_LENGTH) + EncodeBE32(s.len) + s.sha1 + Zeros(BLANK_LENGTH) + s.data);
    assert e == b + (EncodeBE32(s.len) + s.sha1 + Zeros(BLANK_LENGTH) + s.data);
    assert e == c + (s.sha1 + Zeros(BLANK_LENGTH) + s.data);
    assert e == d + (Zeros(BLANK_LENGTH) + s.data);
    SliceAfter(a, Zeros(MAGIC_LENGTH - TYPE_LENGTH) + EncodeBE32(s.len) + s.sha1 + Zeros(BLANK_LENGTH) + s.data, 0, 8);
    SliceAfter(b, EncodeBE32(s.len) + s.sha1 + Zeros(BLANK_LENGTH) + s.data, 0, 4);
    SliceAfter(c, s.sha1 + Zeros(BLANK_LENGTH) + s.data, 0, SHA1_LENGTH);
    SliceAfter(d, Zeros(BLANK_LENGTH) + s.data, 0, BLANK_LENGTH);
    SliceAfter(f, s.data, 0, |s.data|);
  }

  /** A section a writer can place so that the parser finds it again: its first type byte is not taken for padding. */
  predicate Encodable(s: Section)
    ensures Encodable(s) ==> WellFormed(s)
  {
    WellFormed(s) && s.tag[0] != 0
  }

  /**
   * The parser needs at least one byte after the last header: the last
   * section's payload, or the `after` bytes that follow it.
   */
  predicate LastReadable(ss: seq<Section>, after: nat)
  {
    |ss| > 0 ==> ss[|ss| - 1].len + after > 0
  }

  /** What follows the first section keeps the last section readable. */
  lemma {:induction false} LastReadableTail(ss: seq<Section>, after: nat)
    requires |ss| > 0 && LastReadable(ss, after)
    ensures LastReadable(ss[1..], after)
  {
    if |ss| > 1 {
      assert ss[1..][|ss| - 2] == ss[|ss| - 1];
    }
  }

  /**
   * Behind the first section of a container whose last section is readable,
   * the first section is readable too, and so is the last section of the rest.
   */
  lemma {:induction false} HeadReadable(ss: seq<Section>, pads: seq<nat>, tail: seq<byte>)
    requires |pads| == |ss| && |ss| > 0
    requires AllEncodable(ss) && LastReadable(ss, |tail|)
    ensures AllEncodable(ss[1..]) && LastReadable(ss[1..], |tail|)
    ensures ss[0].len + |EncodeRecords(ss[1..], pads[1..]) + tail| > 0
  {
    AllEncodableTail(ss);
    LastReadableTail(ss, |tail|);
    if |ss| > 1 {
      assert |EncodeRecords(ss[1..], pads[1..])| > 0;
    }
  }

  /** Every section of `ss` can be placed by the writer. */
  predicate AllEncodable(ss: seq<Section>)
  {
    forall i :: 0 <= i < |ss| ==> WellFormed(ss[i]) && Encodable(ss[i])
  }

  /** Sections, each preceded by `pads[i]` zero bytes of padding. */
  function EncodeRecords(ss: seq<Section>, pads: seq<nat>): (b: seq<byte>)
    requires |pads| == |ss|
    requires forall i :: 0 <= i < |ss| ==> WellFormed(ss[i])
    ensures |ss| > 0 ==> |b| > 0
  {
    if ss == [] then []
    else Zeros(pads[0]) + EncodeSection(ss[0]) + EncodeRecords(ss[1..], pads[1..])
  }

  /** The encoding of the first section comes first, then the rest. */
  lemma {:induction false} EncodeRecordsCons(ss: seq<Section>, pads: seq<nat>, tail: seq<byte>)
    requires |pads| == |ss| && |ss| > 0
    requires forall i :: 0 <= i < |ss| ==> WellFormed(ss[i])
    ensures EncodeRecords(ss, pads) + tail
         == Zeros(pads[0]) + EncodeSection(ss[0]) + (EncodeRecords(ss[1..], pads[1..]) + tail)
  {
  }

  /** The encoding of the last section comes last, after the others. */
  lemma {:induction false} EncodeRecordsSnoc(ss: seq<Section>, pads: seq<nat>)
    requires |pads| == |ss| && |ss| > 0
    requires forall i :: 0 <= i < |ss| ==> WellFormed(ss[i])
    ensures var n := |ss| - 1;
            EncodeRecords(ss, pads) == EncodeRecords(ss[..n], pads[..n]) + (Zeros(pads[n]) + EncodeSection(ss[n]))
  {
    var n := |ss| - 1;
    if n > 0 {
      EncodeRecordsSnoc(ss[1..], pads[1..]);
      assert ss[1..][..n - 1] == ss[..n][1..] && pads[1..][..n - 1] == pads[..n][1..];
      assert ss[1..][n - 1] == ss[n] && pads[1..][n - 1] == pads[n];
      assert ss[..n][0] == ss[0] && pads[..n][0] == pads[0];
      Associative(Zeros(pads[0]) + EncodeSection(ss[0]), EncodeRecords(ss[..n][1..], pads[..n][1..]),
                  Zeros(pads[n]) + EncodeSection(ss[n]));
    } else {
      assert ss[..n] == [] && ss[1..] == [];
    }
  }

  /** What the writer can place, it can place without the first section too. */
  lemma {:induction false} AllEncodableTail(ss: seq<Section>)
    requires AllEncodable(ss) && |ss| > 0
    ensures AllEncodable(ss[1..])
  {
    forall i | 0 <= i < |ss| - 1
      ensures WellFormed(ss[1..][i]) && Encodable(ss[1..][i])
    {
      assert ss[1..][i] == ss[i + 1];
    }
  }

  /** A whole container: signature, the rest of the primary header, and the padded sections. */
  function EncodeContainer(ss: seq<Section>, pads: seq<nat>): (b: seq<byte>)
    requires |pads| == |ss|
    requires forall i :: 0 <= i < |ss| ==> WellFormed(ss[i])
    ensures |b| >= PRIMARY_HEADER_LENGTH
    ensures b[..PRIMARY_HEADER_LENGTH] == Signature + Zeros(PRIMARY_HEADER_LENGTH - |Signature|)
    ensures b[PRIMARY_HEADER_LENGTH..] == EncodeRecords(ss, pads)
  {
    Signature + Zeros(PRIMARY_HEADER_LENGTH - |Signature|) + EncodeRecords(ss, pads)
  }

  /** Every encoded container passes the signature check, even one without sections. */
  lemma {:induction false} EncodedContainerPassesCheck(ss: seq<Section>, pads: seq<nat>)
    requires |pads| == |ss|
    requires forall i :: 0 <= i < |ss| ==> WellFormed(ss[i])
    ensures LfpFileCheck(EncodeContainer(ss, pads))
  {
    var b := EncodeContainer(ss, pads);
    assert b[..8] == b[..PRIMARY_HEADER_LENGTH][..8];
  }

  /** Buffers of at most 8 bytes are never accepted, whatever they hold. */
  lemma {:induction false} ShortBufferRejected(buf: seq<byte>)
    requires |buf| <= 8
    ensures !LfpFileCheck(buf)
  {
  }
}
