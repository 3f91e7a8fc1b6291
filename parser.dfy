/**
 * `parse_section`: reads one section from the remaining region of the
 * container, skipping zero padding first.
 */
module SectionParser {
  import opened Wrappers
  import opened Bytes
  import opened LfpFormat

  /**
   * How many zero bytes of padding start the region: the skip stops at the
   * first non-zero byte or at the end of the region, never beyond it.
   */
  function SkipPadding(r: seq<byte>): (k: nat)
    ensures k <= |r|
  {
    if |r| == 0 || r[0] != 0 then 0 else 1 + SkipPadding(r[1..])
  }

  /** The bytes skipped are all zero, and the skip stops at a non-zero byte or at the end. */
  lemma {:induction false} SkipPaddingStops(r: seq<byte>)
    ensures var k := SkipPadding(r);
            && (forall i :: 0 <= i < k ==> r[i] == 0)
            && (k < |r| ==> r[k] != 0)
  {
    if |r| > 0 && r[0] == 0 {
      SkipPaddingStops(r[1..]);
      assert forall i :: 1 <= i < |r| ==> r[i] == r[1..][i - 1];
    }
  }

  /** The skip count is the only one with the property above. */
  lemma {:induction false} SkipPaddingUnique(r: seq<byte>, k: nat)
    requires k <= |r|
    requires forall i :: 0 <= i < k ==> r[i] == 0
    requires k < |r| ==> r[k] != 0
    ensures SkipPadding(r) == k
  {
    if k > 0 {
      assert forall i :: 0 <= i < k - 1 ==> r[1..][i] == r[i + 1];
      SkipPaddingUnique(r[1..], k - 1);
    }
  }

  /**
   * The section whose header starts the bytes `h`, and the bytes it spans
   * (header and payload); `None` when no more than 96 bytes are left or
   * the declared payload length overruns them.
   */
  function ParseHeader(h: seq<byte>): (res: Option<(Section, nat)>)
    ensures res.Some? ==> WellFormed(res.value.0)
    ensures res.Some? ==> res.value.1 == HEADER_LENGTH + res.value.0.len <= |h|
  {
    if |h| <= HEADER_LENGTH then None
    else
      var len := BE32(h[LENGTH_OFFSET .. LENGTH_OFFSET + LENGTH_FIELD]);
      if |h| - HEADER_LENGTH < len then None
      else
        var section := Section(h[..TYPE_LENGTH], len,
                               h[SHA1_OFFSET .. SHA1_OFFSET + SHA1_LENGTH],
                               h[HEADER_LENGTH .. HEADER_LENGTH + len]);
        Some((section, HEADER_LENGTH + len))
  }

  /** A parse result with `m` more bytes consumed. */
  function Padded(res: Option<(Section, nat)>, m: nat): Option<(Section, nat)>
  {
    match res
    case None => None
    case Some((s, n)) => Some((s, n + m))
  }

  /** Padding a success adds to what it consumed and keeps its section. */
  lemma {:induction false} PaddedSome(res: Option<(Section, nat)>, m: nat)
    requires res.Some?
    ensures Padded(res, m) == Some((res.value.0, res.value.1 + m))
  {
  }

  /**
   * What parsing the region `r` yields: the section and the number of bytes
   * it consumed (padding, header and payload), or `None` when fewer than
   * 97 bytes remain after the padding or the declared length overruns the
   * region. End of data and a malformed section are the same outcome.
   */
  function ParseRegion(r: seq<byte>): (res: Option<(Section, nat)>)
    ensures res.Some? ==> WellFormed(res.value.0)
    ensures res.Some? ==> res.value.1 == SkipPadding(r) + HEADER_LENGTH + res.value.0.len <= |r|
  {
    var k := SkipPadding(r);
    Padded(ParseHeader(r[k..]), k)
  }

  /** A slice of the bytes between `lo` and `hi` is the same slice of the buffer, shifted by `lo`. */
  lemma {:induction false} SliceOfRegion(buf: seq<byte>, lo: nat, hi: nat, a: nat, b: nat)
    requires lo <= hi <= |buf| && a <= b <= hi - lo
    ensures buf[lo .. hi][a .. b] == buf[lo + a .. lo + b]
  {
    var region := buf[lo .. hi];
    assert forall i :: 0 <= i < b - a ==> region[a .. b][i] == region[a + i] == buf[lo + a + i];
  }

  /** A slice of what follows the first `k` bytes is the same slice, shifted by `k`. */
  lemma {:induction false} SliceOfSuffix(r: seq<byte>, k: nat, a: nat, b: nat)
    requires a <= b && k + b <= |r|
    ensures r[k..][a .. b] == r[k + a .. k + b]
  {
    var q := r[k..][a .. b];
    assert forall i :: 0 <= i < b - a ==> q[i] == r[k + a + i];
  }

  /**
   * The header at the cursor `p`, with the region ending at `e`, read in
   * buffer positions: the fields `parse_section` copies out of the buffer.
   */
  lemma {:induction false} HeaderAtCursor(buf: seq<byte>, p: nat, e: nat)
    requires p <= e <= |buf|
    ensures e - p <= HEADER_LENGTH ==> ParseHeader(buf[p .. e]).None?
    ensures e - p > HEADER_LENGTH ==>
              var declared := BE32(buf[p + LENGTH_OFFSET .. p + LENGTH_OFFSET + LENGTH_FIELD]);
              && (e - p - HEADER_LENGTH < declared ==> ParseHeader(buf[p .. e]).None?)
              && (e - p - HEADER_LENGTH >= declared ==>
                    ParseHeader(buf[p .. e])
                    == Some((Section(buf[p .. p + TYPE_LENGTH], declared,
                                     buf[p + SHA1_OFFSET .. p + SHA1_OFFSET + SHA1_LENGTH],
                                     buf[p + HEADER_LENGTH .. p + HEADER_LENGTH + declared]),
                             HEADER_LENGTH + declared)))
  {
    var h := buf[p .. e];
    if e - p > HEADER_LENGTH {
      SliceOfRegion(buf, p, e, LENGTH_OFFSET, LENGTH_OFFSET + LENGTH_FIELD);
      var declared := BE32(buf[p + LENGTH_OFFSET .. p + LENGTH_OFFSET + LENGTH_FIELD]);
      if e - p - HEADER_LENGTH >= declared {
        SliceOfRegion(buf, p, e, 0, TYPE_LENGTH);
        assert h[..TYPE_LENGTH] == h[0 .. TYPE_LENGTH];
        SliceOfRegion(buf, p, e, SHA1_OFFSET, SHA1_OFFSET + SHA1_LENGTH);
        SliceOfRegion(buf, p, e, HEADER_LENGTH, HEADER_LENGTH + declared);
      }
    }
  }

  /**
   * ParseRegion on the cursor's region, `k` zero bytes of padding followed
   * by a non-zero byte or the end: the header is read at `pos + k`.
   */
  lemma {:induction false} RegionAtCursor(buf: seq<byte>, pos: nat, len: nat, k: nat)
    requires pos + len <= |buf| && k <= len
    requires forall i :: pos <= i < pos + k ==> buf[i] == 0
    requires k < len ==> buf[pos + k] != 0
    ensures ParseRegion(buf[pos .. pos + len]) == Padded(ParseHeader(buf[pos + k .. pos + len]), k)
  {
    var region := buf[pos .. pos + len];
    SkipPaddingUnique(region, k);
    assert region[k..] == buf[pos + k .. pos + len];
  }

  /** `k` zero bytes of padding at `pos`, followed by a non-zero byte or the end of the region. */
  predicate PaddingRun(buf: seq<byte>, pos: nat, len: nat, k: nat)
    requires pos + len <= |buf|
  {
    && k <= len
    && (forall i :: pos <= i < pos + k ==> buf[i] == 0)
    && (k < len ==> buf[pos + k] != 0)
  }

  /** The payload length declared by the header that starts at `h`. */
  function DeclaredAt(buf: seq<byte>, h: nat): nat
    requires h + HEADER_LENGTH <= |buf|
  {
    BE32(buf[h + LENGTH_OFFSET .. h + LENGTH_OFFSET + LENGTH_FIELD])
  }

  /** The cursor's region does not parse when too few bytes follow the padding or the declared length overruns them. */
  lemma {:induction false} RegionMissing(buf: seq<byte>, pos: nat, len: nat, k: nat)
    requires pos + len <= |buf| && PaddingRun(buf, pos, len, k)
    requires len - k <= HEADER_LENGTH || len - k - HEADER_LENGTH < DeclaredAt(buf, pos + k)
    ensures ParseRegion(buf[pos .. pos + len]).None?
  {
    RegionAtCursor(buf, pos, len, k);
    HeaderAtCursor(buf, pos + k, pos + len);
  }

  /** Otherwise the cursor's region yields the fields read at `pos + k`, and consumes the padding, header and payload. */
  lemma {:induction false} RegionFound(buf: seq<byte>, pos: nat, len: nat, k: nat)
    requires pos + len <= |buf| && PaddingRun(buf, pos, len, k)
    requires len - k > HEADER_LENGTH && len - k - HEADER_LENGTH >= DeclaredAt(buf, pos + k)
    ensures var h, declared := pos + k, DeclaredAt(buf, pos + k);
            ParseRegion(buf[pos .. pos + len])
            == Some((Section(buf[h .. h + TYPE_LENGTH], declared,
                             buf[h + SHA1_OFFSET .. h + SHA1_OFFSET + SHA1_LENGTH],
                             buf[h + HEADER_LENGTH .. h + HEADER_LENGTH + declared]),
                     k + HEADER_LENGTH + declared))
  {
    RegionAtCursor(buf, pos, len, k);
    HeaderAtCursor(buf, pos + k, pos + len);
    PaddedSome(ParseHeader(buf[pos + k .. pos + len]), k);
  }

  /**
   * The section parser over the cursor pair (`pos`, `len`): `buf[pos..pos+len]`
   * is the remaining region. On success it returns the section and the
   * advanced pair; on failure it returns `None` and the pair unchanged.
   */
  method ParseSection(buf: seq<byte>, pos: nat, len: nat) returns (section: Option<Section>, newPos: nat, newLen: nat)
    requires pos + len <= |buf|
    ensures newPos + newLen == pos + len
    ensures section.None? ==> ParseRegion(buf[pos .. pos + len]).None? && newPos == pos && newLen == len
    ensures section.Some? ==> ParseRegion(buf[pos .. pos + len]) == Some((section.value, newPos - pos))
  {
    var p: nat, n: nat := pos, len;
    // Zero bytes before the header are skipped; the remaining length is checked before each byte is read.
    while n > 0 && buf[p] == 0
      invariant pos <= p && p + n == pos + len
      invariant forall i :: pos <= i < p ==> buf[i] == 0
      decreases n
    {
      p, n := p + 1, n - 1;
    }
    ghost var h, left := p, n;
    assert PaddingRun(buf, pos, len, h - pos);
    if n <= HEADER_LENGTH {
      RegionMissing(buf, pos, len, h - pos);
      return None, pos, len;
    }
    var tag := buf[p .. p + TYPE_LENGTH];
    // The first four bytes of the 12-byte magic region are the type.
    p, n := p + MAGIC_LENGTH, n - MAGIC_LENGTH;
    // Payload length field, decoded most significant byte first.
    var declared := BE32(buf[p .. p + LENGTH_FIELD]);
    assert declared == DeclaredAt(buf, h);
    p, n := p + LENGTH_FIELD, n - LENGTH_FIELD;
    // A 45-byte digest string, then 35 reserved bytes that are skipped.
    var sha1 := buf[p .. p + SHA1_LENGTH];
    p, n := p + SHA1_LENGTH + BLANK_LENGTH, n - SHA1_LENGTH - BLANK_LENGTH;
    // A declared payload longer than the remaining region is rejected.
    if n < declared {
      RegionMissing(buf, pos, len, h - pos);
      return None, pos, len;
    }
    var data := buf[p .. p + declared];
    p, n := p + declared, n - declared;
    section := Some(Section(tag, declared, sha1, data));
    newPos, newLen := p, n;
    RegionFound(buf, pos, len, h - pos);
  }

  /** Zero bytes in front of a region add to the padding skipped. */
  lemma {:induction false} SkipPaddingAfterZeros(m: nat, r: seq<byte>)
    ensures SkipPadding(Zeros(m) + r) == m + SkipPadding(r)
  {
    var z := Zeros(m) + r;
    var k := SkipPadding(r);
    SkipPaddingStops(r);
    forall i | 0 <= i < m + k
      ensures z[i] == 0
    {
      if i >= m {
        assert z[i] == r[i - m];
      }
    }
    if m + k < |z| {
      assert z[m + k] == r[k];
    }
    SkipPaddingUnique(z, m + k);
  }

  /**
   * Padding is transparent: zero bytes in front of a region change neither
   * whether a section is found nor its content, only how much is consumed.
   */
  lemma {:induction false} ParsePaddingTransparent(m: nat, r: seq<byte>)
    ensures ParseRegion(Zeros(m) + r) == Padded(ParseRegion(r), m)
  {
    var z := Zeros(m) + r;
    var k := SkipPadding(r);
    SkipPaddingAfterZeros(m, r);
    var tail := z[m + k ..];
    assert forall i :: 0 <= i < |tail| ==> tail[i] == r[k + i];
    assert tail == r[k ..];
  }

  /**
   * Reading a header from what the encoder wrote gives the section back and
   * spans exactly its encoding, whatever follows it, provided at least one
   * byte follows the 96-byte header.
   */
  lemma {:induction false} HeaderEncoded(s: Section, rest: seq<byte>)
    requires WellFormed(s)
    requires s.len + |rest| > 0
    ensures ParseHeader(EncodeSection(s) + rest) == Some((s, HEADER_LENGTH + s.len))
  {
    var e := EncodeSection(s);
    var h := e + rest;
    EncodeSectionFields(s);
    SliceBefore(e, rest, 0, TYPE_LENGTH);
    assert h[..TYPE_LENGTH] == h[0 .. TYPE_LENGTH];
    SliceBefore(e, rest, LENGTH_OFFSET, LENGTH_OFFSET + LENGTH_FIELD);
    DecodeEncodeBE32(s.len);
    SliceBefore(e, rest, SHA1_OFFSET, SHA1_OFFSET + SHA1_LENGTH);
    SliceBefore(e, rest, HEADER_LENGTH, HEADER_LENGTH + s.len);
  }

  /** An encoding starts with its non-zero type byte, so no padding is skipped in front of it. */
  lemma {:induction false} EncodedSkipsNothing(s: Section, rest: seq<byte>)
    requires WellFormed(s) && s.tag[0] != 0
    ensures SkipPadding(EncodeSection(s) + rest) == 0
  {
    var e := EncodeSection(s);
    EncodeSectionFields(s);
    assert e[0] == e[..TYPE_LENGTH][0];
    SkipPaddingUnique(e + rest, 0);
  }

  /**
   * Parsing what the encoder wrote gives the section back and consumes
   * exactly its encoding, whatever follows it, provided at least one byte
   * follows the 96-byte header.
   */
  lemma {:induction false} ParseEncoded(s: Section, rest: seq<byte>)
    requires WellFormed(s) && s.tag[0] != 0
    requires s.len + |rest| > 0
    ensures ParseRegion(EncodeSection(s) + rest) == Some((s, HEADER_LENGTH + s.len))
  {
    var r := EncodeSection(s) + rest;
    EncodedSkipsNothing(s, rest);
    assert r[0..] == r;
    HeaderEncoded(s, rest);
  }

  /** Zero bytes in front of bytes that start with no padding: the header is read right after them. */
  lemma {:induction false} PaddedHeader(m: nat, x: seq<byte>)
    requires SkipPadding(x) == 0
    ensures ParseRegion(Zeros(m) + x) == Padded(ParseHeader(x), m)
  {
    SkipPaddingAfterZeros(m, x);
    DropPrefix(Zeros(m), x);
  }

  /** The same, with zero padding in front of the encoded section. */
  lemma {:induction false} ParsePaddedEncoded(m: nat, s: Section, rest: seq<byte>)
    requires WellFormed(s) && s.tag[0] != 0
    requires s.len + |rest| > 0
    ensures ParseRegion(Zeros(m) + EncodeSection(s) + rest) == Some((s, m + HEADER_LENGTH + s.len))
  {
    var x := EncodeSection(s) + rest;
    Associative(Zeros(m), EncodeSection(s), rest);
    EncodedSkipsNothing(s, rest);
    HeaderEncoded(s, rest);
    PaddedHeader(m, x);
  }

  /** Equal slices agree byte by byte: `h` matches `e` on `[a, b)`. */
  lemma {:induction false} AgreesOn(h: seq<byte>, e: seq<byte>, a: nat, b: nat)
    requires a <= b <= |h| && b <= |e|
    requires h[a .. b] == e[a .. b]
    ensures forall i :: a <= i < b ==> h[i] == e[i]
  {
    forall i | a <= i < b
      ensures h[i] == e[i]
    {
      assert h[a .. b][i - a] == e[a .. b][i - a];
    }
  }

  /** The padding skipped is a run of zero bytes. */
  lemma {:induction false} PaddingZeros(r: seq<byte>)
    ensures r[..SkipPadding(r)] == Zeros(SkipPadding(r))
  {
    var k := SkipPadding(r);
    SkipPaddingStops(r);
    assert forall i :: 0 <= i < k ==> r[..k][i] == r[i] == 0;
  }

  /** On success, each field read agrees byte by byte with its place in the section's encoding. */
  lemma {:induction false} FieldsAgree(h: seq<byte>)
    requires ParseHeader(h).Some?
    ensures var s := ParseHeader(h).value.0;
            var e := EncodeSection(s);
            && (forall i :: 0 <= i < TYPE_LENGTH ==> h[i] == e[i])
            && (forall i :: LENGTH_OFFSET <= i < LENGTH_OFFSET + LENGTH_FIELD ==> h[i] == e[i])
            && (forall i :: SHA1_OFFSET <= i < SHA1_OFFSET + SHA1_LENGTH ==> h[i] == e[i])
            && (forall i :: HEADER_LENGTH <= i < HEADER_LENGTH + s.len ==> h[i] == e[i])
  {
    var s := ParseHeader(h).value.0;
    var e := EncodeSection(s);
    EncodeSectionFields(s);
    EncodeDecodeBE32(h[LENGTH_OFFSET .. LENGTH_OFFSET + LENGTH_FIELD]);
    assert h[0 .. TYPE_LENGTH] == h[..TYPE_LENGTH] && e[0 .. TYPE_LENGTH] == e[..TYPE_LENGTH];
    AgreesOn(h, e, 0, TYPE_LENGTH);
    AgreesOn(h, e, LENGTH_OFFSET, LENGTH_OFFSET + LENGTH_FIELD);
    AgreesOn(h, e, SHA1_OFFSET, SHA1_OFFSET + SHA1_LENGTH);
    assert e[HEADER_LENGTH .. HEADER_LENGTH + s.len] == e[HEADER_LENGTH ..];
    AgreesOn(h, e, HEADER_LENGTH, HEADER_LENGTH + s.len);
  }

  /**
   * On success, the padding skipped is all zero and the bytes consumed after
   * it are the encoding of the section returned, except at reserved offsets:
   * the type, the length, the digest and the payload are exact slices.
   */
  lemma {:induction false} ParseLayout(r: seq<byte>)
    requires ParseRegion(r).Some?
    ensures var (s, n) := ParseRegion(r).value;
            var k := SkipPadding(r);
            && r[..k] == Zeros(k)
            && forall i :: 0 <= i < n - k && !Reserved(i) ==> r[k + i] == EncodeSection(s)[i]
  {
    var k := SkipPadding(r);
    var h := r[k..];
    PaddingZeros(r);
    FieldsAgree(h);
    var s := ParseHeader(h).value.0;
    assert ParseRegion(r).value == (s, k + HEADER_LENGTH + s.len);
    forall i | 0 <= i < HEADER_LENGTH + s.len && !Reserved(i)
      ensures r[k + i] == EncodeSection(s)[i]
    {
      assert r[k + i] == h[i];
    }
  }

  /** A header parse fails exactly when no payload byte follows the header or the declared length overruns. */
  lemma {:induction false} HeaderFailsExactlyWhen(h: seq<byte>)
    ensures ParseHeader(h).None? <==>
              || |h| <= HEADER_LENGTH
              || BE32(h[LENGTH_OFFSET .. LENGTH_OFFSET + LENGTH_FIELD]) > |h| - HEADER_LENGTH
  {
    if |h| > HEADER_LENGTH {
      var len := BE32(h[LENGTH_OFFSET .. LENGTH_OFFSET + LENGTH_FIELD]);
      assert ParseHeader(h).None? <==> |h| - HEADER_LENGTH < len;
    }
  }

  /**
   * Parsing fails exactly when no more than 96 bytes remain after the
   * padding, or when the declared payload length exceeds the bytes left
   * after the header.
   */
  lemma {:induction false} ParseFailsExactlyWhen(r: seq<byte>)
    ensures var k := SkipPadding(r);
            ParseRegion(r).None? <==>
              || |r| - k <= HEADER_LENGTH
              || BE32(r[k + LENGTH_OFFSET .. k + LENGTH_OFFSET + LENGTH_FIELD]) > |r| - k - HEADER_LENGTH
  {
    var k := SkipPadding(r);
    var h := r[k..];
    assert ParseRegion(r).None? <==> ParseHeader(h).None?;
    HeaderFailsExactlyWhen(h);
    if |h| > HEADER_LENGTH {
      SliceOfSuffix(r, k, LENGTH_OFFSET, LENGTH_OFFSET + LENGTH_FIELD);
      assert BE32(h[LENGTH_OFFSET .. LENGTH_OFFSET + LENGTH_FIELD])
          == BE32(r[k + LENGTH_OFFSET .. k + LENGTH_OFFSET + LENGTH_FIELD]);
    }
  }
}
