/**
 * `depth_string`: the depth lookup table's payload, read as 4-byte float
 * samples, rendered as text into a buffer of `20*len/4` characters.
 */
module DepthTable {
  import opened Bytes

  /** Bytes per float sample. */
  const SAMPLE_SIZE: nat := 4
  /** The per-sample text buffer `val[20]`: at most 19 characters and a terminator. */
  const LINE_BUFFER: nat := 20

  /**
   * The rendering of one sample's four bytes as `printf("%f\n")` would
   * produce it for the host's float layout. It is a parameter of the model.
   */
  type Renderer = seq<byte> -> seq<char>

  /**
   * The text `snprintf(val, 20, ...)` leaves for one sample: the rendering,
   * cut to its first 19 characters when it is longer.
   */
  function Line(fmt: Renderer, sample: seq<byte>): (line: seq<char>)
    ensures |line| < LINE_BUFFER
    ensures line <= fmt(sample)
    ensures |fmt(sample)| < LINE_BUFFER ==> line == fmt(sample)
    ensures |fmt(sample)| >= LINE_BUFFER ==> |line| == LINE_BUFFER - 1
  {
    var text := fmt(sample);
    if |text| < LINE_BUFFER then text else text[..LINE_BUFFER - 1]
  }

  /** Sample `i` of the payload: its 4 bytes, starting at byte `4*i`. */
  function Sample(data: seq<byte>, i: nat): (b: seq<byte>)
    requires SAMPLE_SIZE * i + SAMPLE_SIZE <= |data|
    ensures |b| == SAMPLE_SIZE
  {
    data[SAMPLE_SIZE * i .. SAMPLE_SIZE * i + SAMPLE_SIZE]
  }

  /** The text of the first `n` samples, one line after another in sample order. */
  function Lines(fmt: Renderer, data: seq<byte>, n: nat): (text: seq<char>)
    requires SAMPLE_SIZE * n <= |data|
    ensures |text| <= (LINE_BUFFER - 1) * n
  {
    if n == 0 then [] else Lines(fmt, data, n - 1) + Line(fmt, Sample(data, n - 1))
  }

  /**
   * The depth text: one line per whole sample, `len/4` of them; the
   * trailing `len % 4` bytes are ignored.
   */
  function DepthText(fmt: Renderer, data: seq<byte>): (text: seq<char>)
    ensures |text| <= (LINE_BUFFER - 1) * (|data| / SAMPLE_SIZE)
  {
    Lines(fmt, data, |data| / SAMPLE_SIZE)
  }

  /** The capacity `depth_string` allocates, `20*len/4`, computed without overflow. */
  function Capacity(len: nat): (c: nat)
    ensures (LINE_BUFFER - 1) * (len / SAMPLE_SIZE) <= c
  {
    LINE_BUFFER * len / SAMPLE_SIZE
  }

  /**
   * `depth_string`: allocates `20*len/4` characters and, for each whole
   * sample, copies its line to the write position and advances it. The
   * text written is the depth text, and it stays inside the allocation.
   */
  method DepthString(data: seq<byte>, fmt: Renderer) returns (depth: array<char>, datalen: nat)
    ensures fresh(depth)
    ensures depth.Length == Capacity(|data|)
    ensures datalen <= depth.Length
    ensures depth[..datalen] == DepthText(fmt, data)
  {
    var filelen := LINE_BUFFER * |data| / SAMPLE_SIZE;
    depth := new char[filelen];
    var w: nat := 0;
    // The terminator is written only when there is room for it.
    if filelen > 0 {
      depth[0] := '\0';
    }
    var samples := |data| / SAMPLE_SIZE;
    for i := 0 to samples
      invariant w <= (LINE_BUFFER - 1) * i
      invariant depth[..w] == Lines(fmt, data, i)
    {
      var val := Line(fmt, Sample(data, i));
      assert (LINE_BUFFER - 1) * (i + 1) <= (LINE_BUFFER - 1) * samples;
      CopyLine(depth, w, val);
      w := w + |val|;
    }
    datalen := w;
  }

  /** `strncpy(depth + datalen, val, strlen(val))`: the line lands right after the text so far. */
  method CopyLine(depth: array<char>, w: nat, val: seq<char>)
    requires w + |val| <= depth.Length
    modifies depth
    ensures depth[..w + |val|] == old(depth[..w]) + val
    ensures depth[w + |val|..] == old(depth[w + |val|..])
  {
    for j := 0 to |val|
      invariant depth[..w + j] == old(depth[..w]) + val[..j]
      invariant depth[w + |val|..] == old(depth[w + |val|..])
    {
      depth[w + j] := val[j];
      assert depth[..w + j + 1] == depth[..w + j] + [val[j]];
    }
  }

  /** The lines of the first `n` samples depend only on the first `4*n` bytes. */
  lemma {:induction false} LinesOfPrefix(fmt: Renderer, a: seq<byte>, b: seq<byte>, n: nat)
    requires SAMPLE_SIZE * n <= |a|
    ensures Lines(fmt, a + b, n) == Lines(fmt, a, n)
  {
    if n > 0 {
      LinesOfPrefix(fmt, a, b, n - 1);
      assert Sample(a + b, n - 1) == Sample(a, n - 1);
    }
  }

  /** Whole samples in front add their count to the number of samples. */
  lemma {:induction false} SampleCountAdd(q: nat, x: nat)
    ensures (SAMPLE_SIZE * q + x) / SAMPLE_SIZE == q + x / SAMPLE_SIZE
  {
    var r := x % SAMPLE_SIZE;
    assert x == SAMPLE_SIZE * (x / SAMPLE_SIZE) + r;
    assert SAMPLE_SIZE * q + x == SAMPLE_SIZE * (q + x / SAMPLE_SIZE) + r;
  }

  /**
   * When the `m` samples of `y` are the samples of `x` from sample `q` on,
   * the lines of `x` up to `q + m` are its first `q` lines followed by the lines of `y`.
   */
  lemma {:induction false} LinesShift(fmt: Renderer, x: seq<byte>, y: seq<byte>, q: nat, m: nat)
    requires SAMPLE_SIZE * (q + m) <= |x| && SAMPLE_SIZE * m <= |y|
    requires forall i :: 0 <= i < m ==> Sample(x, q + i) == Sample(y, i)
    ensures Lines(fmt, x, q + m) == Lines(fmt, x, q) + Lines(fmt, y, m)
  {
    if m > 0 {
      LinesShift(fmt, x, y, q, m - 1);
      var head, prev, last := Lines(fmt, x, q), Lines(fmt, y, m - 1), Line(fmt, Sample(y, m - 1));
      assert Sample(x, q + (m - 1)) == Sample(y, m - 1);
      assert Lines(fmt, x, q + m) == Lines(fmt, x, q + (m - 1)) + last;
      assert Lines(fmt, y, m) == prev + last;
      Associative(head, prev, last);
    }
  }

  /** The samples after `q` whole samples of `a` are the samples of `b`. */
  lemma {:induction false} SamplesAfter(a: seq<byte>, b: seq<byte>, q: nat, m: nat)
    requires |a| == SAMPLE_SIZE * q && SAMPLE_SIZE * m <= |b|
    ensures forall i :: 0 <= i < m ==> Sample(a + b, q + i) == Sample(b, i)
  {
    forall i | 0 <= i < m
      ensures Sample(a + b, q + i) == Sample(b, i)
    {
      var off := SAMPLE_SIZE * i;
      assert SAMPLE_SIZE * (q + i) == |a| + off;
      SliceAfter(a, b, off, off + SAMPLE_SIZE);
    }
  }

  /** Lines for samples that lie after the `q` whole samples of `a` are the lines of those samples alone. */
  lemma {:induction false} LinesOfSuffix(fmt: Renderer, a: seq<byte>, b: seq<byte>, q: nat, m: nat)
    requires |a| == SAMPLE_SIZE * q && SAMPLE_SIZE * m <= |b|
    ensures Lines(fmt, a + b, q + m) == Lines(fmt, a, q) + Lines(fmt, b, m)
  {
    LinesOfPrefix(fmt, a, b, q);
    SamplesAfter(a, b, q, m);
    LinesShift(fmt, a + b, b, q, m);
  }

  /**
   * Samples are rendered independently and in order: the text of two runs
   * of samples is the text of the first followed by the text of the second.
   */
  lemma {:induction false} DepthTextConcat(fmt: Renderer, a: seq<byte>, b: seq<byte>)
    requires |a| % SAMPLE_SIZE == 0
    ensures DepthText(fmt, a + b) == DepthText(fmt, a) + DepthText(fmt, b)
  {
    var q := |a| / SAMPLE_SIZE;
    assert |a| == SAMPLE_SIZE * q;
    SampleCountAdd(q, |b|);
    assert |a + b| / SAMPLE_SIZE == q + |b| / SAMPLE_SIZE;
    LinesOfSuffix(fmt, a, b, q, |b| / SAMPLE_SIZE);
  }

  /** The trailing 1 to 3 bytes that do not make a whole sample add nothing to the text. */
  lemma {:induction false} DepthTextIgnoresRemainder(fmt: Renderer, data: seq<byte>, tail: seq<byte>)
    requires |data| % SAMPLE_SIZE == 0 && |tail| < SAMPLE_SIZE
    ensures DepthText(fmt, data + tail) == DepthText(fmt, data)
  {
    var q := |data| / SAMPLE_SIZE;
    assert |data| == SAMPLE_SIZE * q;
    SampleCountAdd(q, |tail|);
    assert |data + tail| / SAMPLE_SIZE == q;
    LinesOfPrefix(fmt, data, tail, q);
  }

  /** A rendering that is one newline-terminated line fitting the 20-byte buffer. */
  predicate OneLine(text: seq<char>)
  {
    0 < |text| < LINE_BUFFER && text[|text| - 1] == '\n' && '\n' !in text[..|text| - 1]
  }

  /** The number of newline characters in a text. */
  function Newlines(text: seq<char>): (k: nat)
    ensures k <= |text|
  {
    if |text| == 0 then 0
    else Newlines(text[..|text| - 1]) + (if text[|text| - 1] == '\n' then 1 else 0)
  }

  /** Newlines of two texts put together add up. */
  lemma {:induction false} NewlinesConcat(a: seq<char>, b: seq<char>)
    ensures Newlines(a + b) == Newlines(a) + Newlines(b)
  {
    if |b| == 0 {
      assert a + b == a;
    } else {
      var c := b[..|b| - 1];
      NewlinesConcat(a, c);
      assert (a + b)[..|a + b| - 1] == a + c;
    }
  }

  /** A text without a newline counts none. */
  lemma {:induction false} NoNewlines(text: seq<char>)
    requires '\n' !in text
    ensures Newlines(text) == 0
  {
    if |text| > 0 {
      var body := text[..|text| - 1];
      assert forall c :: c in body ==> c in text;
      NoNewlines(body);
    }
  }

  /** A single line holds exactly one newline. */
  lemma {:induction false} OneLineNewlines(t: seq<char>)
    requires OneLine(t)
    ensures Newlines(t) == 1
  {
    NoNewlines(t[..|t| - 1]);
  }

  /** When each of the first `n` lines holds one newline, their text holds `n`. */
  lemma {:induction false} LinesCount(fmt: Renderer, data: seq<byte>, n: nat)
    requires SAMPLE_SIZE * n <= |data|
    requires forall i :: 0 <= i < n ==> Newlines(Line(fmt, Sample(data, i))) == 1
    ensures Newlines(Lines(fmt, data, n)) == n
  {
    if n > 0 {
      LinesCount(fmt, data, n - 1);
      NewlinesConcat(Lines(fmt, data, n - 1), Line(fmt, Sample(data, n - 1)));
    }
  }

  /**
   * When every rendering is one line that fits the buffer, the depth text
   * has exactly one line per whole sample: `len/4` newlines.
   */
  lemma {:induction false} DepthTextLineCount(fmt: Renderer, data: seq<byte>)
    requires forall i :: 0 <= i < |data| / SAMPLE_SIZE ==> OneLine(fmt(Sample(data, i)))
    ensures Newlines(DepthText(fmt, data)) == |data| / SAMPLE_SIZE
  {
    var n := |data| / SAMPLE_SIZE;
    forall i | 0 <= i < n
      ensures Newlines(Line(fmt, Sample(data, i))) == 1
    {
      OneLineNewlines(fmt(Sample(data, i)));
    }
    LinesCount(fmt, data, n);
  }

  /**
   * A rendering longer than 19 characters whose only newline is its last
   * character loses that newline: the truncated line runs into the next.
   */
  lemma {:induction false} TruncationDropsNewline(fmt: Renderer, sample: seq<byte>)
    requires |fmt(sample)| >= LINE_BUFFER
    requires '\n' !in fmt(sample)[..|fmt(sample)| - 1]
    ensures '\n' !in Line(fmt, sample)
  {
    var text := fmt(sample);
    assert Line(fmt, sample) == text[..|text| - 1][..LINE_BUFFER - 1];
  }

  /** When no rendering is empty, the text has at least one character per whole sample. */
  lemma {:induction false} LinesAtLeast(fmt: Renderer, data: seq<byte>, n: nat)
    requires SAMPLE_SIZE * n <= |data|
    requires forall b: seq<byte> :: |b| == SAMPLE_SIZE ==> |fmt(b)| > 0
    ensures |Lines(fmt, data, n)| >= n
  {
    if n > 0 {
      LinesAtLeast(fmt, data, n - 1);
      assert |fmt(Sample(data, n - 1))| > 0;
    }
  }
}
