/**
 * The splice that all three scripts perform: the reference file's bytes up
 * to 14 bytes past its last FF DA pair, followed by everything of the
 * corrupted file from 14 bytes past its own last FF DA pair.
 */
module Repair {
  import opened JpegBytes

  /** `find_last_ffda_segment`: the header segment, or the ValueError raised when there is no FF DA pair. */
  datatype RefSegment = NoSosInReference | Segment(bytes: Bytes)

  /** How one corrupted file ends: rejected as empty, rejected for lack of FF DA, or spliced. */
  datatype Outcome = EmptyFile | NoScanMarker | Repaired(bytes: Bytes)

  /**
   * `find_last_ffda_segment` without EXIF stripping
   * (repair_jpeg_header.py and jpegheaderrepair-gui.py): `data[:k + 14]`
   * for the last FF DA pair at `k`, clipped at the end of the data.
   */
  function FindLastFfdaSegment(data: Bytes): (r: RefSegment)
    ensures r.NoSosInReference? <==> !HasSos(data)
    ensures forall k :: IsLastSos(data, k) ==>
      && r == Segment(Take(data, k + SosHeaderSpan))
      && |r.bytes| == Min(k + SosHeaderSpan, |data|)
      && IsSosAt(r.bytes, k)
  {
    match LastFFDA(data)
    case None => NoSosInReference
    case Some(k) => Segment(Take(data, k + SosHeaderSpan))
  }

  /**
   * The byte logic of `repair_jpeg`: an empty file is rejected before the
   * marker search, a file without FF DA is rejected next, and otherwise the
   * result is the header segment followed by `corrupted[k + 14:]`.
   */
  function RepairCorrupted(segment: Bytes, corrupted: Bytes): (r: Outcome)
    ensures r == EmptyFile <==> |corrupted| == 0
    ensures r == NoScanMarker <==> |corrupted| > 0 && !HasSos(corrupted)
    ensures forall k :: IsLastSos(corrupted, k) ==>
      r == Repaired(segment + Drop(corrupted, k + SosHeaderSpan))
  {
    if |corrupted| == 0 then EmptyFile
    else
      match LastFFDA(corrupted)
      case None => NoScanMarker
      case Some(k) => Repaired(segment + Drop(corrupted, k + SosHeaderSpan))
  }

  /**
   * The repaired bytes start with the whole segment and end with exactly
   * the corrupted file's bytes from `k + 14`; past the end, they are the
   * segment alone.
   */
  lemma {:induction false} RepairedLayout(segment: Bytes, corrupted: Bytes, k: nat)
    requires IsLastSos(corrupted, k)
    ensures RepairCorrupted(segment, corrupted).Repaired?
    ensures var out := RepairCorrupted(segment, corrupted).bytes;
      && |out| == |segment| + Max(0, |corrupted| - k - SosHeaderSpan)
      && out[..|segment|] == segment
      && out[|segment|..] == corrupted[Min(k + SosHeaderSpan, |corrupted|)..]
      && (k + SosHeaderSpan >= |corrupted| ==> out == segment)
  {
    var tail := Drop(corrupted, k + SosHeaderSpan);
    assert tail == corrupted[Min(k + SosHeaderSpan, |corrupted|)..];
  }
}
