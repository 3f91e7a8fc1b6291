/**
 * The splitter's code as written where it differs from what it evidently
 * intends; the rest of the model uses the corrected behaviour.
 */
module Findings {
  import opened Bytes
  import opened LfpFormat
  import opened SectionParser
  import opened Extraction
  import opened DepthTable

  // --- The padding loop tests the byte before the remaining length. ---

  /**
   * The indices the padding loop `while (*ptr == '\0' && len)` dereferences
   * from cursor `pos` with `len` bytes remaining: `*ptr` is read first,
   * also when no byte remains.
   */
  function ProbesAsWritten(buf: seq<byte>, pos: nat, len: nat): (probes: seq<nat>)
    requires pos + len <= |buf|
    ensures |probes| > 0 && probes[0] == pos
    decreases len
  {
    [pos] + (if len > 0 && buf[pos] == 0 then ProbesAsWritten(buf, pos + 1, len - 1) else [])
  }

  /** When the padding runs to the end of the region, the last byte read is the first one past it. */
  lemma {:induction false} PaddingToEndReadsPastRegion(buf: seq<byte>, pos: nat, len: nat)
    requires pos + len <= |buf|
    requires forall i :: pos <= i < pos + len ==> buf[i] == 0
    ensures var probes := ProbesAsWritten(buf, pos, len);
            probes[|probes| - 1] == pos + len
    decreases len
  {
    if len > 0 {
      PaddingToEndReadsPastRegion(buf, pos + 1, len - 1);
    }
  }

  /** A package of 17 bytes whose only byte after the primary header is zero: the loop reads byte 17, past the buffer. */
  lemma {:induction false} ZeroTailReadsPastBuffer()
    ensures var buf := Signature + Zeros(PRIMARY_HEADER_LENGTH - |Signature| + 1);
            var probes := ProbesAsWritten(buf, PRIMARY_HEADER_LENGTH, |buf| - PRIMARY_HEADER_LENGTH);
            && LfpFileCheck(buf)
            && probes[|probes| - 1] == |buf|
  {
    var buf := Signature + Zeros(PRIMARY_HEADER_LENGTH - |Signature| + 1);
    assert buf[..8] == Signature;
    PaddingToEndReadsPastRegion(buf, PRIMARY_HEADER_LENGTH, |buf| - PRIMARY_HEADER_LENGTH);
  }

  // --- The section table has 100 slots. ---

  /** Entries of `lfp_section_p sections[100]`. */
  const SECTION_SLOTS: nat := 100

  /** Whether the store `sections[index] = section` falls inside the table. */
  predicate StoreInBounds(index: nat)
  {
    index < SECTION_SLOTS
  }

  /** A small section: type "\x01\0\0\0", an all-zero digest and a one-byte payload. */
  const Filler: Section := Section([1, 0, 0, 0], 1, Zeros(SHA1_LENGTH), [0])

  /** A package of `n` filler sections without padding. */
  function ManySections(n: nat): (buf: seq<byte>)
  {
    EncodeContainer(seq(n, _ => Filler), seq(n, _ => 0))
  }

  /**
   * A well-formed package of 101 sections: the loop's 101st store goes to
   * `sections[100]`, one past the table.
   */
  lemma {:induction false} HundredAndOneSections()
    ensures LfpFileCheck(ManySections(SECTION_SLOTS + 1))
    ensures |Sections(ManySections(SECTION_SLOTS + 1))| == SECTION_SLOTS + 1
    ensures !StoreInBounds(SECTION_SLOTS)
  {
    var ss := seq(SECTION_SLOTS + 1, _ => Filler);
    var pads := seq(SECTION_SLOTS + 1, _ => 0);
    assert AllEncodable(ss);
    ContainerRoundTrip(ss, pads);
    EncodedContainerPassesCheck(ss, pads);
  }

  // --- The depth buffer size is computed in 32-bit `int`. ---

  /**
   * A C `int` result on a build where signed overflow wraps: the value
   * reduced to 32 bits, two's complement. The C standard leaves signed
   * overflow undefined; this is what a wrapping build does.
   */
  function Int32(x: int): (v: int)
    ensures -0x8000_0000 <= v < 0x8000_0000
    ensures (v - x) % TWO_32 == 0
  {
    var m := x % TWO_32;
    if m >= 0x8000_0000 then m - TWO_32 else m
  }

  /** C's `/` on `int`: the quotient truncated toward zero. */
  function CDiv(a: int, b: int): (q: int)
    requires b > 0
    ensures 0 <= a ==> 0 <= a - b * q < b
    ensures a < 0 ==> -b < a - b * q <= 0
  {
    if a >= 0 then a / b else -((-a) / b)
  }

  /**
   * `int filelen = 20*len/4;` on a build where signed overflow wraps. The
   * product overflows `int`, which is undefined behaviour, for every
   * `len > 107374182`; below that bound it is the intended capacity.
   */
  function CapacityAsWritten(len: int): (c: int)
    ensures -0x2000_0000 <= c < 0x2000_0000
    ensures 0 <= len <= 107374182 ==> c == Capacity(len)
  {
    CDiv(Int32(LINE_BUFFER * len), SAMPLE_SIZE)
  }

  /**
   * A depth table of 214748365 bytes: `20*len` overflows `int`, which is
   * undefined behaviour; on a build that wraps it is 4, one byte is
   * allocated, and the text of its 53687091 samples does not fit.
   */
  lemma {:induction false} CapacityWrapsAround(fmt: Renderer, data: seq<byte>)
    requires |data| == 214748365
    requires forall b: seq<byte> :: |b| == SAMPLE_SIZE ==> |fmt(b)| > 0
    ensures CapacityAsWritten(|data|) == 1
    ensures CapacityAsWritten(|data|) < |DepthText(fmt, data)| <= Capacity(|data|)
  {
    LinesAtLeast(fmt, data, |data| / SAMPLE_SIZE);
  }

  // --- An empty depth table still gets its terminator. ---

  /** Whether a write at `index` falls inside an allocation of `capacity` bytes. */
  predicate WriteInBounds(index: int, capacity: int)
  {
    0 <= index < capacity
  }

  /**
   * With a depth table of length 0 the capacity is 0, so where `malloc(0)`
   * returns a non-null pointer the write `depth[0] = '\0'` falls outside
   * the allocation (where it returns NULL, the function returns first).
   */
  lemma {:induction false} EmptyDepthTableTerminator()
    ensures CapacityAsWritten(0) == 0
    ensures !WriteInBounds(0, CapacityAsWritten(0))
  {
  }
}
