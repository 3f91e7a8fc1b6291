/**
 * The non-I/O part of `main`: skip the primary header, collect sections
 * until the parser fails, and give the sections their roles.
 */
module Extraction {
  import opened Wrappers
  import opened Bytes
  import opened LfpFormat
  import opened SectionParser

  /**
   * The sections found in a region: parse while bytes remain and stop at
   * the first failure, keeping everything collected before it. Each section
   * consumes at least its 96-byte header.
   */
  function CollectRegion(r: seq<byte>): (ss: seq<Section>)
    ensures forall i :: 0 <= i < |ss| ==> WellFormed(ss[i])
    ensures HEADER_LENGTH * |ss| <= |r|
    decreases |r|
  {
    if |r| == 0 then []
    else
      match ParseRegion(r)
      case None => []
      case Some((s, n)) => [s] + CollectRegion(r[n..])
  }

  /** A successful parse adds its section and collection continues after the consumed bytes. */
  lemma {:induction false} CollectStep(r: seq<byte>, s: Section, n: nat)
    requires ParseRegion(r) == Some((s, n))
    ensures CollectRegion(r) == [s] + CollectRegion(r[n..])
  {
  }

  /** Nothing is collected from a region that does not parse. */
  lemma {:induction false} CollectFail(r: seq<byte>)
    requires ParseRegion(r).None?
    ensures CollectRegion(r) == []
  {
  }

  /**
   * Two regions that yield the same first section, and whose bytes after it
   * are the same, yield the same sections.
   */
  lemma {:induction false} CollectShifted(z: seq<byte>, r: seq<byte>, s: Section, d: nat, n: nat)
    requires ParseRegion(z) == Some((s, d + n))
    requires ParseRegion(r) == Some((s, n))
    requires z[d + n ..] == r[n..]
    ensures CollectRegion(z) == CollectRegion(r)
  {
    var after := CollectRegion(r[n..]);
    CollectStep(z, s, d + n);
    assert CollectRegion(z) == [s] + after;
    CollectStep(r, s, n);
  }

  /** When the cursor's region fails to parse, nothing more is collected. */
  lemma {:induction false} CollectEnd(buf: seq<byte>, pos: nat, len: nat)
    requires pos + len == |buf| && len > 0
    requires ParseRegion(buf[pos .. pos + len]).None?
    ensures CollectRegion(buf[pos..]) == []
  {
    assert buf[pos .. pos + len] == buf[pos..];
  }

  /** When the cursor's region yields a section, collection continues from the advanced cursor. */
  lemma {:induction false} CollectAdvance(buf: seq<byte>, pos: nat, len: nat, s: Section, newPos: nat)
    requires pos + len == |buf| && pos <= newPos
    requires ParseRegion(buf[pos .. pos + len]) == Some((s, newPos - pos))
    ensures CollectRegion(buf[pos..]) == [s] + CollectRegion(buf[newPos..])
  {
    assert buf[pos .. pos + len] == buf[pos..];
    CollectStep(buf[pos..], s, newPos - pos);
    assert buf[pos..][newPos - pos ..] == buf[newPos..];
  }

  /** The sections of a whole container, after its 16-byte primary header. */
  function Sections(buf: seq<byte>): (ss: seq<Section>)
    ensures forall i :: 0 <= i < |ss| ==> WellFormed(ss[i])
    ensures ss != [] ==> PRIMARY_HEADER_LENGTH + HEADER_LENGTH * |ss| <= |buf|
  {
    if |buf| <= PRIMARY_HEADER_LENGTH then [] else CollectRegion(buf[PRIMARY_HEADER_LENGTH..])
  }

  /**
   * The collection loop of `main`: the cursor starts after the primary
   * header and the loop runs while bytes remain, appending each parsed
   * section to a sequence with no fixed capacity.
   */
  method ExtractSections(buf: seq<byte>) returns (sections: seq<Section>)
    ensures sections == Sections(buf)
  {
    var pos: int := PRIMARY_HEADER_LENGTH;
    var len: int := |buf| - PRIMARY_HEADER_LENGTH;
    sections := [];
    if len <= 0 {
      return;
    }
    assert CollectRegion(buf[pos..]) == Sections(buf);
    while len > 0
      invariant pos >= PRIMARY_HEADER_LENGTH && len >= 0 && pos + len == |buf|
      invariant sections + CollectRegion(buf[pos..]) == Sections(buf)
      decreases len
    {
      var section, newPos, newLen := ParseSection(buf, pos, len);
      if section.None? {
        CollectEnd(buf, pos, len);
        assert sections + [] == sections;
        break;
      }
      CollectAdvance(buf, pos, len, section.value, newPos);
      Associative(sections, [section.value], CollectRegion(buf[newPos..]));
      sections := sections + [section.value];
      pos, len := newPos, newLen;
    }
  }

  /** A section written behind its padding is collected first, then collection goes on after it. */
  lemma {:induction false} CollectEncodedHead(m: nat, s: Section, later: seq<byte>)
    requires Encodable(s)
    requires s.len + |later| > 0
    ensures CollectRegion(Zeros(m) + EncodeSection(s) + later) == [s] + CollectRegion(later)
  {
    ParsePaddedEncoded(m, s, later);
    CollectStep(Zeros(m) + EncodeSection(s) + later, s, m + HEADER_LENGTH + s.len);
    DropPrefix(Zeros(m) + EncodeSection(s), later);
  }

  /** Collection that yields `x` and then continues where `rest` follows. */
  lemma {:induction false} CollectChain(a: seq<byte>, b: seq<byte>, x: Section, rest: seq<Section>, after: seq<Section>)
    requires CollectRegion(a) == [x] + CollectRegion(b)
    requires CollectRegion(b) == rest + after
    ensures CollectRegion(a) == [x] + rest + after
  {
  }

  /**
   * Sections written one after another, each behind its padding, are
   * collected back in order, followed by whatever the rest of the region
   * yields.
   */
  lemma {:induction false} CollectEncoded(ss: seq<Section>, pads: seq<nat>, tail: seq<byte>)
    requires |pads| == |ss|
    requires AllEncodable(ss) && LastReadable(ss, |tail|)
    ensures CollectRegion(EncodeRecords(ss, pads) + tail) == ss + CollectRegion(tail)
  {
    if ss == [] {
      assert EncodeRecords(ss, pads) == [];
      assert EncodeRecords(ss, pads) + tail == tail;
    } else {
      var later := EncodeRecords(ss[1..], pads[1..]) + tail;
      EncodeRecordsCons(ss, pads, tail);
      HeadReadable(ss, pads, tail);
      CollectEncodedHead(pads[0], ss[0], later);
      CollectEncoded(ss[1..], pads[1..], tail);
      CollectChain(EncodeRecords(ss, pads) + tail, later, ss[0], ss[1..], CollectRegion(tail));
      assert ss == [ss[0]] + ss[1..];
    }
  }

  /** Parsing stops at the first region that is not a section, and keeps every section before it. */
  lemma {:induction false} StopsAtFirstFailure(ss: seq<Section>, pads: seq<nat>, junk: seq<byte>)
    requires |pads| == |ss|
    requires AllEncodable(ss) && LastReadable(ss, |junk|)
    requires ParseRegion(junk).None?
    ensures CollectRegion(EncodeRecords(ss, pads) + junk) == ss
  {
    CollectEncoded(ss, pads, junk);
    assert CollectRegion(junk) == [];
  }

  /** Zero padding of any length in front of a region changes nothing that is collected from it. */
  lemma {:induction false} PaddingTransparent(m: nat, r: seq<byte>)
    ensures CollectRegion(Zeros(m) + r) == CollectRegion(r)
  {
    var z := Zeros(m) + r;
    if m == 0 {
      assert z == r;
    } else {
      ParsePaddingTransparent(m, r);
      match ParseRegion(r)
      case None =>
        CollectFail(r);
        CollectFail(z);
      case Some((s, n)) =>
        DropPast(Zeros(m), r, n);
        CollectShifted(z, r, s, m, n);
    }
  }

  /** A container written by the encoder is split back into exactly its sections. */
  lemma {:induction false} ContainerRoundTrip(ss: seq<Section>, pads: seq<nat>)
    requires |pads| == |ss|
    requires AllEncodable(ss) && LastReadable(ss, 0)
    ensures Sections(EncodeContainer(ss, pads)) == ss
  {
    var buf := EncodeContainer(ss, pads);
    CollectEncoded(ss, pads, []);
    assert EncodeRecords(ss, pads) + [] == EncodeRecords(ss, pads);
    if |buf| <= PRIMARY_HEADER_LENGTH {
      assert EncodeRecords(ss, pads) == [];
    }
  }

  /**
   * A zero-length section with nothing after it is lost: only 96 bytes
   * follow its padding, and the parser needs more. The sections before it
   * are collected.
   */
  lemma {:induction false} EmptyLastSectionLost(ss: seq<Section>, pads: seq<nat>)
    requires |pads| == |ss| && |ss| > 0
    requires AllEncodable(ss) && ss[|ss| - 1].len == 0
    ensures Sections(EncodeContainer(ss, pads)) == ss[..|ss| - 1]
  {
    var n := |ss| - 1;
    var last := Zeros(pads[n]) + EncodeSection(ss[n]);
    assert AllEncodable(ss[..n]) by {
      forall i | 0 <= i < n
        ensures WellFormed(ss[..n][i]) && Encodable(ss[..n][i])
      {
        assert ss[..n][i] == ss[i];
      }
    }
    EncodeRecordsSnoc(ss, pads);
    CollectEncoded(ss[..n], pads[..n], last);
    LastEncodingMissing(pads[n], ss[n]);
    assert ss[..n] + [] == ss[..n];
  }

  /** Nothing is collected from a padded zero-length section that ends the region. */
  lemma {:induction false} LastEncodingMissing(m: nat, s: Section)
    requires Encodable(s) && s.len == 0
    ensures CollectRegion(Zeros(m) + EncodeSection(s)) == []
  {
    var e := EncodeSection(s);
    EncodedSkipsNothing(s, []);
    assert e + [] == e;
    assert e[0..] == e;
    assert ParseHeader(e).None?;
    ParsePaddingTransparent(m, e);
    CollectFail(Zeros(m) + e);
  }

  /** The roles `main` gives the sections: at least three are needed for any output. */
  datatype Roles =
    | TooFew(count: nat)
    | Roles(metadata: Section, depth: Section, images: seq<Section>)

  /**
   * Section 0 is the metadata, section 1 the depth table and section `i`
   * from 2 on is image number `i - 2`; with two sections or fewer there are
   * no images.
   */
  function Classify(sections: seq<Section>): (c: Roles)
    ensures c.TooFew? <==> |sections| <= 2
    ensures c.TooFew? ==> c.count == |sections|
    ensures c.Roles? ==> sections == [c.metadata, c.depth] + c.images
    ensures c.Roles? ==> forall n :: 0 <= n < |c.images| ==> c.images[n] == sections[n + 2]
  {
    if |sections| <= 2 then TooFew(|sections|)
    else Roles(sections[0], sections[1], sections[2..])
  }

  /** A container holding a metadata record, a depth table and one image is classified as such. */
  lemma {:induction false} ThreeRecordContainer(metadata: Section, depth: Section, image: Section, pads: seq<nat>)
    requires |pads| == 3
    requires Encodable(metadata) && Encodable(depth) && Encodable(image) && image.len > 0
    ensures Classify(Sections(EncodeContainer([metadata, depth, image], pads))) == Roles(metadata, depth, [image])
  {
    ContainerRoundTrip([metadata, depth, image], pads);
  }
}
