/**
 * repair_jpeg_header.py: no EXIF stripping; the reference is parsed again
 * inside every `repair_jpeg` call, and after a successful write the
 * repaired bytes are classified by their entropy. The entropy itself is a
 * floating-point computation and enters the model as a function of the
 * repaired bytes.
 */
module HeaderRepair {
  import opened JpegBytes
  import opened FileNames
  import opened Repair

  /** The four modelled entries of the printed "List of errors", in print order. */
  datatype Flag =
    | ZeroLengthSource  // "Filesize error"
    | EntropyTooLow     // "Entropy too low"
    | EntropyTooHigh    // "Entropy too high"
    | NoJpegSoi         // "No JPEG SOI", raised when no FF DA pair was found

  /**
   * The literals 7.60 and 7.99 as Python reads them: the exact values of the
   * nearest IEEE 754 doubles, slightly below 7.60 and slightly above 7.99.
   */
  const LowEntropyThreshold: real := 7.5999999999999996447286321199499070644378662109375
  const HighEntropyThreshold: real := 7.9900000000000002131628207280300557613372802734375

  /** The four checks of the error list; `lastSos` is the corrupted file's rfind result. */
  function ErrorFlags(corruptedLength: nat, entropy: real, lastSos: Option<nat>): (flags: seq<Flag>)
    ensures ZeroLengthSource in flags <==> corruptedLength == 0
    ensures EntropyTooLow in flags <==> entropy < LowEntropyThreshold
    ensures EntropyTooHigh in flags <==> entropy > HighEntropyThreshold
    ensures NoJpegSoi in flags <==> lastSos.None?
    ensures forall j, k :: 0 <= j < k < |flags| ==> flags[j] != flags[k]
  {
    (if corruptedLength == 0 then [ZeroLengthSource] else [])
    + (if entropy < LowEntropyThreshold then [EntropyTooLow] else [])
    + (if entropy > HighEntropyThreshold then [EntropyTooHigh] else [])
    + (if lastSos.None? then [NoJpegSoi] else [])
  }

  /** What one `repair_jpeg` call of this script reports. */
  datatype Report =
    | ReferenceFailed
    | Skipped(reason: Outcome)
    | Written(bytes: Bytes, entropy: real, flags: seq<Flag>)

  /**
   * `repair_jpeg(reference_path, corrupted_path, ...)`: the reference is
   * checked first, then the corrupted file is rejected as empty or as
   * lacking FF DA; otherwise the splice is written and diagnosed.
   */
  function RepairJpeg(reference: Bytes, corrupted: Bytes, entropy: Bytes -> real): (r: Report)
    ensures r.ReferenceFailed? <==> !HasSos(reference)
    ensures r == Skipped(EmptyFile) <==> HasSos(reference) && |corrupted| == 0
    ensures r == Skipped(NoScanMarker) <==> HasSos(reference) && |corrupted| > 0 && !HasSos(corrupted)
    ensures r.Skipped? ==> r.reason == EmptyFile || r.reason == NoScanMarker
    ensures r.Written? ==> r.entropy == entropy(r.bytes)
  {
    match FindLastFfdaSegment(reference)
    case NoSosInReference => ReferenceFailed
    case Segment(segment) =>
      match RepairCorrupted(segment, corrupted)
      case Repaired(bytes) =>
        var h := entropy(bytes);
        Written(bytes, h, ErrorFlags(|corrupted|, h, LastFFDA(corrupted)))
      case EmptyFile => Skipped(EmptyFile)
      case NoScanMarker => Skipped(NoScanMarker)
  }

  /**
   * The written bytes are the reference's header segment followed by the
   * corrupted file's bytes from 14 past its last FF DA pair.
   */
  lemma {:induction false} WrittenIsSplice(reference: Bytes, corrupted: Bytes, entropy: Bytes -> real, kr: nat, kc: nat)
    requires IsLastSos(reference, kr) && IsLastSos(corrupted, kc)
    ensures var r := RepairJpeg(reference, corrupted, entropy);
      && r.Written?
      && r.bytes == Take(reference, kr + SosHeaderSpan) + Drop(corrupted, kc + SosHeaderSpan)
      && (kc + SosHeaderSpan >= |corrupted| ==> r.bytes == Take(reference, kr + SosHeaderSpan))
  {
  }

  /**
   * The "0 bytes" and "No JPEG SOI" entries of the error list are dead:
   * both conditions already made `repair_jpeg` return before the write.
   */
  lemma {:induction false} DeadErrorEntries(reference: Bytes, corrupted: Bytes, entropy: Bytes -> real)
    requires RepairJpeg(reference, corrupted, entropy).Written?
    ensures var r := RepairJpeg(reference, corrupted, entropy);
      ZeroLengthSource !in r.flags && NoJpegSoi !in r.flags
  {
  }

  /**
   * The entropy entries follow the thresholds exactly and never appear
   * together, so a written file carries at most one modelled entry.
   */
  lemma {:induction false} EntropyEntries(reference: Bytes, corrupted: Bytes, entropy: Bytes -> real)
    requires RepairJpeg(reference, corrupted, entropy).Written?
    ensures var r := RepairJpeg(reference, corrupted, entropy);
      && (EntropyTooLow in r.flags <==> entropy(r.bytes) < LowEntropyThreshold)
      && (EntropyTooHigh in r.flags <==> entropy(r.bytes) > HighEntropyThreshold)
      && !(EntropyTooLow in r.flags && EntropyTooHigh in r.flags)
      && |r.flags| <= 1
  {
  }

  /**
   * `process_folder`: one `repair_jpeg` per JPEG-named entry, in listing
   * order. The reference is not checked up front.
   */
  function ProcessFolder(reference: Bytes, listing: seq<DirEntry>, entropy: Bytes -> real): (reports: seq<(string, Report)>)
    ensures |reports| == |JpegEntries(listing)|
    ensures forall j :: 0 <= j < |reports| ==> reports[j].0 == JpegEntries(listing)[j].name
    ensures forall j :: 0 <= j < |reports| ==> reports[j].1 == RepairJpeg(reference, JpegEntries(listing)[j].contents, entropy)
  {
    var files := JpegEntries(listing);
    seq(|files|, j requires 0 <= j < |files| => (files[j].name, RepairJpeg(reference, files[j].contents, entropy)))
  }

  /**
   * A reference without FF DA does not stop the batch: every selected file
   * is still visited and each one reports the reference error.
   */
  lemma {:induction false} BadReferenceReportedPerFile(reference: Bytes, listing: seq<DirEntry>, entropy: Bytes -> real)
    requires !HasSos(reference)
    ensures var reports := ProcessFolder(reference, listing, entropy);
      && |reports| == |JpegEntries(listing)|
      && forall j :: 0 <= j < |reports| ==> reports[j].1 == ReferenceFailed
  {
  }
}
