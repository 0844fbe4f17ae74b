/**
 * jpegheaderrepair.py: the reference file is EXIF-stripped before its last
 * FF DA pair is searched, the reference is loaded once before the folder
 * is listed, and every JPEG-named file is then repaired with that segment.
 */
module CliRepair {
  import opened JpegBytes
  import opened ExifStrip
  import opened FileNames
  import Repair

  /** `find_last_ffda_segment` of this script: strip APP1 segments, then take the header. */
  method FindLastFfdaSegment(data: Bytes) returns (r: Repair.RefSegment)
    ensures r.NoSosInReference? <==> !HasSos(Strip(data, 0))
    ensures forall k :: IsLastSos(Strip(data, 0), k) ==>
      && r == Repair.Segment(Take(Strip(data, 0), k + SosHeaderSpan))
      && IsSosAt(r.bytes, k)
  {
    var stripped := RemoveExif(data);
    r := Repair.FindLastFfdaSegment(stripped);
    forall k | IsLastSos(stripped, k)
      ensures r == Repair.Segment(Take(stripped, k + SosHeaderSpan)) && IsSosAt(r.bytes, k)
    {
    }
  }

  /** One line of this script's output per corrupted file. */
  datatype FileResult = FileResult(name: string, outcome: Repair.Outcome)

  /** `process_folder`: a reference without FF DA stops the run before the folder is listed. */
  datatype BatchResult = ReferenceRejected | Processed(results: seq<FileResult>)

  /**
   * `process_folder`: the reference segment is computed once; each
   * JPEG-named file is repaired with it independently, so a failing file
   * does not affect the others.
   */
  method ProcessFolder(reference: Bytes, listing: seq<DirEntry>) returns (b: BatchResult)
    ensures b.ReferenceRejected? <==> !HasSos(Strip(reference, 0))
    ensures forall k :: IsLastSos(Strip(reference, 0), k) ==>
      && b.Processed?
      && |b.results| == |JpegEntries(listing)|
      && forall j :: 0 <= j < |b.results| ==>
           b.results[j] == FileResult(
             JpegEntries(listing)[j].name,
             Repair.RepairCorrupted(Take(Strip(reference, 0), k + SosHeaderSpan), JpegEntries(listing)[j].contents))
  {
    var segment := FindLastFfdaSegment(reference);
    if segment.NoSosInReference? {
      return ReferenceRejected;
    }
    var files := JpegEntries(listing);
    var results := seq(|files|, j requires 0 <= j < |files| =>
      FileResult(files[j].name, Repair.RepairCorrupted(segment.bytes, files[j].contents)));
    b := Processed(results);
  }

  /**
   * End to end on a reference with an EXIF segment and a corrupted file
   * whose header is junk and whose scan data after FF DA holds no further
   * FF DA pair (FF 00 stuffing, RSTn and a closing FF D9 are all allowed):
   * the repaired file is SOI, the reference's FF DA and the next twelve
   * bytes, then the corrupted file from twelve bytes past its own FF DA.
   * The fourteen of `SosHeaderSpan` counts the two marker bytes, so only
   * `b[..12]` of the reference's scan header is kept.
   */
  lemma {:induction false} ExifExampleRepaired(b: Bytes, junk: Bytes, c: Bytes, tail: Bytes)
    requires |b| == 14 && forall t :: 0 <= t < |b| ==> b[t] != MarkerStart
    requires |c| == 14 && forall t :: !IsSosAt(c + tail, t)
    ensures var reference := [0xFF, 0xD8, 0xFF, 0xE1, 0x00, 0x06, 0x45, 0x58, 0x49, 0x46, 0xFF, 0xDA] + b;
      var corrupted := [0xFF, 0xD8] + junk + [0xFF, 0xDA] + c + tail;
      var header: Bytes := [0xFF, 0xD8, 0xFF, 0xDA] + b[..12];
      && Repair.FindLastFfdaSegment(Strip(reference, 0)) == Repair.Segment(header)
      && Repair.RepairCorrupted(header, corrupted) == Repair.Repaired(header + c[12..] + tail)
  {
    var reference := [0xFF, 0xD8, 0xFF, 0xE1, 0x00, 0x06, 0x45, 0x58, 0x49, 0x46, 0xFF, 0xDA] + b;
    var corrupted := [0xFF, 0xD8] + junk + [0xFF, 0xDA] + c + tail;
    var header: Bytes := [0xFF, 0xD8, 0xFF, 0xDA] + b[..12];
    ExifExampleStripped(b);
    var stripped := [0xFF, 0xD8, 0xFF, 0xDA] + b;
    assert IsLastSos(stripped, 2) by {
      forall j | 2 < j
        ensures !IsSosAt(stripped, j)
      {
        if j + 1 < |stripped| && j >= 4 {
          assert stripped[j] == b[j - 4];
        }
      }
    }
    assert Take(stripped, 16) == header;
    var k := 2 + |junk|;
    assert IsLastSos(corrupted, k) by {
      assert corrupted[k] == 0xFF && corrupted[k + 1] == 0xDA;
      forall j | k < j
        ensures !IsSosAt(corrupted, j)
      {
        if j + 1 < |corrupted| && j >= k + 2 {
          assert corrupted[j] == (c + tail)[j - k - 2];
          assert corrupted[j + 1] == (c + tail)[j + 1 - k - 2];
          assert !IsSosAt(c + tail, j - k - 2);
        }
      }
    }
    assert Drop(corrupted, k + 14) == c[12..] + tail;
    assert header + (c[12..] + tail) == header + c[12..] + tail;
  }
}
