# lfpsplitter container parser, modelled in Dafny

`lfpsplitter` splits a Lytro light-field package (`.lfp`) into its parts. The
file starts with an 8-byte signature (`89 4C 46 50 0D 0A 1A 0A`) inside a
16-byte primary header. A sequence of sections follows, possibly separated by
runs of zero padding. Each section has a fixed 96-byte header:
- a 12-byte magic region, whose first four bytes are the section type;
- a big-endian 32-bit payload length;
- a 45-byte digest string;
- 35 reserved bytes.

The payload follows the header. The splitter:
1. checks the signature;
2. collects sections until the section parser fails;
3. gives the sections their roles: section 0 is the metadata, section 1 the
   depth lookup table, and every later section is a JPEG image;
4. renders the depth table, read as 4-byte float samples, as one line of text
   per sample.

The model is split into these modules:

- `Bytes` (bytes.dfy):
  - bytes as integers in `[0, 256)`;
  - the big-endian decoder `BE32` (`ntohl`) and its inverse `EncodeBE32`;
  - runs of zero bytes, and a few slice facts.
- `LfpFormat` (format.dfy):
  - the layout constants;
  - the `Section` record;
  - the signature check `LfpFileCheck`;
  - a writer (`EncodeSection`, `EncodeContainer`), the partner against which
    the parser is proved.
- `SectionParser` (parser.dfy):
  - `parse_section` as the imperative method `ParseSection` over a cursor pair
    (`pos`, `len`), with its padding loop;
  - it is proved equal to the functional specification `ParseRegion` of the
    remaining region;
  - padding transparency, exact field slices, the failure conditions and the
    round trip with the writer are proved about `ParseRegion`.
- `Extraction` (extraction.dfy):
  - the collection loop of `main` as the method `ExtractSections`, proved
    equal to `Sections`, a recursive specification;
  - a round trip: a container written by the writer is split back into
    exactly its sections;
  - stopping at the first failure;
  - the classification `Classify`.
- `DepthTable` (depth.dfy):
  - `depth_string` as the method `DepthString`, which writes into an
    `array<char>` of `20*len/4` characters;
  - it is proved to write exactly `DepthText`, one line per whole sample, and
    to stay inside the allocation.
  - The float rendering is a function parameter. `snprintf(val, 20, ...)`
    truncation to 19 characters is modelled by `Line`.
- `Splitter` (splitter.dfy): `main` without its I/O. It returns what would be
  saved: the metadata payload, the depth text and the image payloads, in
  order.
- `Findings` (findings.dfy): the code as written where it departs from what
  it evidently intends (see Findings below).

The file I/O, the output file names, the console messages and the float
formatting itself are parameters or are left out (see below). All integers
are unbounded. The one place where 32-bit `int` arithmetic matters, the
depth buffer size, overflows `int` for large lengths, which C leaves
undefined; `Findings` models it as a build that wraps would compute it, and
the rest of the model computes it without overflow.

## Model

| member | source | states |
|---|---|---|
| Bytes.BE32 | lfpsplitter.c:81 | a length decoded from 4 bytes is below 2^32, the range of the `uint32_t` that `ntohl` returns |
| Bytes.DecodeEncodeBE32 | lfpsplitter.c:80-81 | decoding the big-endian encoding of any 32-bit value gives the value back |
| Bytes.EncodeDecodeBE32 | lfpsplitter.c:80-81 | re-encoding the value decoded from any 4 bytes gives those bytes back, so `BE32` is a bijection onto `[0, 2^32)` |
| LfpFormat.LfpFileCheck | lfpsplitter.c:49-54 | the check accepts exactly the buffers longer than 8 bytes whose first 8 bytes are the signature |
| LfpFormat.ShortBufferRejected | lfpsplitter.c:52 | a buffer of 8 bytes or fewer is rejected whatever it holds |
| LfpFormat.EncodedContainerPassesCheck | lfpsplitter.c:49-54 | every container the writer produces passes the signature check, including one with no sections |
| LfpFormat.EncodeSectionFields | lfpsplitter.c:74-88 | in a section's encoding, the type is at offset 0, the length at 12, the digest at 16, the payload at 96, and the reserved bytes are zero |
| SectionParser.SkipPadding | lfpsplitter.c:63-67 | the padding skip never goes past the end of the region |
| SectionParser.SkipPaddingStops | lfpsplitter.c:63-67 | every byte skipped is zero, and the skip stops at a non-zero byte or at the end |
| SectionParser.SkipPaddingUnique | lfpsplitter.c:63-67 | the skip count is the only count with those two properties |
| SectionParser.ParseHeader | lfpsplitter.c:69-94 | a header read succeeds only with a well-formed section whose header and payload fit in the bytes left |
| SectionParser.ParseRegion | lfpsplitter.c:63-107 | a successful parse returns a well-formed section and consumes exactly padding + 96 + length bytes, never more than the region |
| SectionParser.HeaderAtCursor | lfpsplitter.c:69-102 | read at a cursor, the header fails with 96 bytes or fewer left or with an overrunning length; otherwise it yields the type, length, digest and payload at their buffer offsets |
| SectionParser.RegionAtCursor | lfpsplitter.c:63-67 | after `k` zero bytes followed by a non-zero byte or the end, the region's header is read at `pos + k` |
| SectionParser.RegionMissing | lfpsplitter.c:69-94 | the region does not parse when 96 bytes or fewer follow the padding, or when the declared length exceeds what follows the header |
| SectionParser.RegionFound | lfpsplitter.c:74-107 | otherwise the region yields the four fields read at the header's buffer offsets and consumes padding, header and payload |
| SectionParser.ParseSection | lfpsplitter.c:56-110 | the cursor method agrees with `ParseRegion`; on failure the cursor pair is unchanged; on success it advances by the bytes consumed and `pos + len` is preserved |
| SectionParser.SkipPaddingAfterZeros | lfpsplitter.c:63-67 | zero bytes in front of a region add exactly their number to the padding skipped |
| SectionParser.ParsePaddingTransparent | lfpsplitter.c:63-67 | zero padding in front of a region changes neither whether a section is found nor its content, only the count consumed |
| SectionParser.HeaderEncoded | lfpsplitter.c:69-104 | reading the header of a written section gives that section back and spans exactly its encoding, whatever follows |
| SectionParser.EncodedSkipsNothing | lfpsplitter.c:63-67 | no padding is skipped in front of a written section whose type starts with a non-zero byte |
| SectionParser.ParseEncoded | lfpsplitter.c:56-110 | parsing a written section, with at least one byte after its header, gives the section back and consumes exactly its encoding |
| SectionParser.ParsePaddedEncoded | lfpsplitter.c:56-110 | the same behind `m` zero bytes of padding, with `m` more bytes consumed |
| SectionParser.PaddingZeros | lfpsplitter.c:63-67 | the prefix skipped as padding is a run of zero bytes |
| SectionParser.FieldsAgree | lfpsplitter.c:74-102 | on success, the bytes read for type, length, digest and payload agree with the encoding of the section returned |
| SectionParser.ParseLayout | lfpsplitter.c:63-107 | on success, the padding is all zero and every byte consumed after it, except the reserved ones, is the byte of the returned section's encoding |
| SectionParser.HeaderFailsExactlyWhen | lfpsplitter.c:69-94 | a header read fails if and only if 96 bytes or fewer are left or the declared length exceeds the bytes after the header |
| SectionParser.ParseFailsExactlyWhen | lfpsplitter.c:63-94 | parsing a region fails if and only if 96 bytes or fewer follow the padding, or the declared length exceeds the bytes after the header |
| Extraction.CollectRegion | lfpsplitter.c:193-199 | every collected section is well-formed, and each accounts for at least 96 bytes of the region |
| Extraction.CollectStep | lfpsplitter.c:193-198 | after a successful parse, its section comes first and collection resumes after the consumed bytes |
| Extraction.CollectFail | lfpsplitter.c:194-195 | a region that does not parse yields no sections |
| Extraction.CollectEnd | lfpsplitter.c:194-195 | when the cursor's region fails to parse, nothing more is collected from the cursor on |
| Extraction.CollectAdvance | lfpsplitter.c:194-198 | when the cursor's region yields a section, collection from the cursor is that section followed by collection from the advanced cursor |
| Extraction.Sections | lfpsplitter.c:187-199 | every section of a container is well-formed, and `n` sections need at least `16 + 96n` bytes |
| Extraction.ExtractSections | lfpsplitter.c:187-199 | the collection loop, which starts after the 16-byte primary header, returns exactly `Sections(buf)` |
| Extraction.CollectEncodedHead | lfpsplitter.c:193-199 | a written section behind its padding, with at least one byte after its header, is collected first, then collection continues after it |
| Extraction.CollectEncoded | lfpsplitter.c:193-199 | sections written one after another with any padding are collected back in order, followed by whatever the rest yields, provided at least one byte follows the last header (`LastReadable`) |
| Extraction.StopsAtFirstFailure | lfpsplitter.c:193-199 | collection stops at the first region that does not parse and keeps every written section before it, provided at least one byte follows the last header |
| Extraction.EmptyLastSectionLost | lfpsplitter.c:69-72 | a zero-length final section with nothing after it is not collected; the sections before it are |
| Extraction.LastEncodingMissing | lfpsplitter.c:69-72 | nothing is collected from a padded zero-length section that ends the region |
| Extraction.PaddingTransparent | lfpsplitter.c:193-199 | zero padding of any length in front of a region changes nothing that is collected from it |
| Extraction.ContainerRoundTrip | lfpsplitter.c:187-199 | a container written from sections the writer can place, whose last section has a payload, is split back into exactly those sections |
| Extraction.Classify | lfpsplitter.c:201-236 | "no images" exactly with 2 sections or fewer; otherwise section 0 is the metadata, 1 the depth table, and image `n` is section `n + 2` |
| Extraction.ThreeRecordContainer | lfpsplitter.c:201-236 | a written container of metadata, depth table and one image with a payload is classified with those roles |
| DepthTable.Line | lfpsplitter.c:124-127 | a sample's text is a prefix of its rendering: the whole rendering when it has under 20 characters, otherwise its first 19 |
| DepthTable.Sample | lfpsplitter.c:126 | a sample is 4 bytes |
| DepthTable.Lines | lfpsplitter.c:123-130 | the text of `n` samples has at most 19 characters per sample |
| DepthTable.DepthText | lfpsplitter.c:123-130 | the depth text has at most `19 * (len/4)` characters |
| DepthTable.Capacity | lfpsplitter.c:115 | the allocation of `20*len/4` characters holds at least 19 characters per whole sample |
| DepthTable.DepthString | lfpsplitter.c:112-135 | allocates `20*len/4` characters and writes exactly the depth text at its start; `datalen` never exceeds the allocation |
| DepthTable.CopyLine | lfpsplitter.c:128-129 | copying a line at the write position appends it to the text written so far and leaves every character after it unchanged |
| DepthTable.LinesOfPrefix | lfpsplitter.c:123-126 | bytes appended after the first `4n` bytes do not change the first `n` lines |
| DepthTable.DepthTextConcat | lfpsplitter.c:123-130 | samples are rendered independently and in order: a payload of whole samples followed by more gives both texts in sequence |
| DepthTable.DepthTextIgnoresRemainder | lfpsplitter.c:123 | the trailing 1 to 3 bytes that make no whole sample add nothing to the text |
| DepthTable.NewlinesConcat | lfpsplitter.c:128-129 | the newlines of two texts put together add up |
| DepthTable.LinesCount | lfpsplitter.c:123-130 | when every line holds one newline, the text of `n` samples holds `n` |
| DepthTable.DepthTextLineCount | lfpsplitter.c:123-130 | when each whole sample of the payload renders as one line that fits, the depth text has exactly `len/4` lines |
| DepthTable.TruncationDropsNewline | lfpsplitter.c:124-127 | a rendering of 20 characters or more loses its final newline, so its text runs into the next line |
| DepthTable.LinesAtLeast | lfpsplitter.c:123-130 | when no rendering is empty, the text has at least one character per whole sample |
| Splitter.Split | lfpsplitter.c:173-236 | not a package exactly when the check fails; "no images" exactly with 2 sections or fewer; otherwise section 0's payload, the depth text of section 1, and each image payload in order |
| Findings.ProbesAsWritten | lfpsplitter.c:64-67 | the padding loop as written reads the byte at the cursor first, also when no byte remains |
| Findings.PaddingToEndReadsPastRegion | lfpsplitter.c:64-67 | when padding runs to the end of the region, the loop as written reads the first byte past it |
| Findings.ZeroTailReadsPastBuffer | lfpsplitter.c:64 | a 17-byte package that passes the check makes the loop as written read byte 17, past the buffer |
| Findings.HundredAndOneSections | lfpsplitter.c:161 | a well-formed package of 101 sections makes the loop store into `sections[100]`, past the 100-slot table |
| Findings.Int32 | lfpsplitter.c:115 | on a build where signed overflow wraps, an `int` result is the value reduced to 32 bits in two's complement |
| Findings.CDiv | lfpsplitter.c:115 | C's `/` truncates toward zero: the remainder has the sign of the dividend and is smaller than the divisor |
| Findings.CapacityAsWritten | lfpsplitter.c:115 | on a wrapping build `20*len/4` lies in `[-2^29, 2^29)`, and equals the intended capacity for every `len` up to 107374182 |
| Findings.CapacityWrapsAround | lfpsplitter.c:115 | with a 214748365-byte depth table, `20*len` overflows `int` (undefined behaviour); on a wrapping build `20*len/4` is 1, smaller than the text written |
| Findings.EmptyDepthTableTerminator | lfpsplitter.c:115-121 | with an empty depth table the capacity is 0, so where `malloc(0)` returns a non-null pointer the write at index 0 is outside the allocation |

## Left out

- File I/O is not part of this model: `load_file`, `save_data` and the check that a write succeeded. `Split` returns the payloads and the depth text that would be saved.
- Output file names are not modelled: the prefix built with `strdup` and `strrchr`, and the `snprintf` of the names.
- Console messages and exit codes are not modelled.
- The float rendering `snprintf("%f\n", *(float *)...)` is a parameter `fmt` of the model. It depends on the host's native float layout and on its formatting. Only the cut to 19 characters is modelled. A rendering longer than that loses its newline (`TruncationDropsNewline`).
- Allocation failures are not modelled: `calloc` and `malloc` returning NULL in `parse_section`, `depth_string`'s NULL result and the skip of the depth file that follows it (line 216). `free` and the leak of each section's payload are not modelled either.
- End of data and a malformed section are one failure outcome, as in the source: `ParseRegion` returns `None` for both.
- A zero-length section that ends the container is not parsed: the code requires more than 96 bytes after the padding (`EmptyLastSectionLost`). Zero-length sections with at least one byte after them are parsed.
- A buffer of exactly 8 bytes is rejected by the signature check, as the code's `len > 8` test does.
- The type and the digest are copied and never checked, as in the source.
- Unaligned 32-bit loads and host byte order: `ntohl(*(uint32_t *)ptr)` is modelled as the big-endian decode `BE32`.
- The section's `len` field is assumed to keep the full `uint32_t` that `ntohl` returns. `lfp_section_t` is declared in lfpsplitter.h, which is not part of this model; with a signed `int` field, a declared length of 2^31 or more would become negative, pass the check at line 91 and reach `malloc`.
- SectionParser.ParseSection: tests the remaining length before reading a padding byte, unlike line 64 (see Findings); the as-written read is `Findings.ProbesAsWritten`.
- Extraction.ExtractSections: appends to an unbounded sequence instead of the 100-slot table at line 161 (see Findings).
- DepthTable.DepthString: computes `20*len/4` without 32-bit overflow and writes the terminator only when the allocation has room for it (see Findings). Buffers of 2^31 bytes or more, which an `int` length cannot describe, are not modelled.

## Findings

| source | as written | input that shows it | evidently intended | confidence | as-written member | corrected member |
|---|---|---|---|---|---|---|
| lfpsplitter.c:64 | `while (*ptr == '\0' && len)` reads `*ptr` before testing `len` | a 17-byte package: the signature, eight zero bytes, then one zero byte; the loop reads byte 17 | test the remaining length before reading a byte | not executed | Findings.ZeroTailReadsPastBuffer | SectionParser.ParseSection |
| lfpsplitter.c:161 | sections are stored in `sections[100]` with no bound check | a well-formed package of 101 one-byte sections; the 101st store is `sections[100]` | a growable sequence of sections | not executed | Findings.HundredAndOneSections | Extraction.ExtractSections |
| lfpsplitter.c:115 | `int filelen = 20*len/4` is computed in 32-bit `int` | a depth section of 214748365 bytes: `20*len` overflows `int` (undefined behaviour) for every len > 107374182; on a build that wraps it is 4 and 1 byte is allocated | a capacity of `20*len/4` without overflow | not executed | Findings.CapacityWrapsAround | DepthTable.DepthString |
| lfpsplitter.c:121 | `depth[0] = '\0'` after `malloc(filelen)` | a depth section of length 0: where `malloc(0)` returns a non-null pointer, the write at index 0 is outside the allocation (where it returns NULL, line 120 returns first) | write the terminator only when the allocation has room | not executed | Findings.EmptyDepthTableTerminator | DepthTable.DepthString |
