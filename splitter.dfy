/**
 * The splitter's behaviour up to the storage boundary: check the signature,
 * collect the sections, and hand back what would be written out.
 */
module Splitter {
  import opened Bytes
  import opened LfpFormat
  import opened Extraction
  import opened DepthTable

  /**
   * What the splitter produces: not a package; a package with too few
   * sections ("no images found"); or the metadata bytes, the depth text and
   * the image bytes, image `n` being the one saved as `<prefix>_n.jpg`.
   */
  datatype Outcome =
    | NotAnLfp
    | NoImages(found: nat)
    | Files(metadata: seq<byte>, depth: seq<char>, images: seq<seq<byte>>)

  /**
   * `main` without its I/O: the signature check, the collection loop, the
   * classification, the depth rendering and the loop over the images.
   */
  method Split(buf: seq<byte>, fmt: Renderer) returns (o: Outcome)
    ensures o.NotAnLfp? <==> !LfpFileCheck(buf)
    ensures LfpFileCheck(buf) ==> (o.NoImages? <==> |Sections(buf)| <= 2)
    ensures o.NoImages? ==> o.found == |Sections(buf)|
    ensures o.Files? ==>
              var ss := Sections(buf);
              && |ss| > 2
              && o.metadata == ss[0].data
              && o.depth == DepthText(fmt, ss[1].data)
              && |o.images| == |ss| - 2
              && forall n :: 0 <= n < |o.images| ==> o.images[n] == ss[n + 2].data
  {
    if !LfpFileCheck(buf) {
      return NotAnLfp;
    }
    var sections := ExtractSections(buf);
    match Classify(sections)
    case TooFew(count) =>
      o := NoImages(count);
    case Roles(metadata, depthTable, _) =>
      var depth, depthlen := DepthString(depthTable.data, fmt);
      var images: seq<seq<byte>> := [];
      for i := 2 to |sections|
        invariant |images| == i - 2
        invariant forall n :: 0 <= n < |images| ==> images[n] == sections[n + 2].data
      {
        images := images + [sections[i].data];
      }
      o := Files(metadata.data, depth[..depthlen], images);
  }
}
