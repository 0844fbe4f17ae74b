# JPEG header repair, modelled in Dafny

The JPEG-Header-Repair-Tool repairs JPEG files whose header is damaged. It
takes the bytes of a known-good reference JPEG up to 14 bytes past its last
Start-Of-Scan pair (FF DA). It appends the bytes of the corrupted file that
follow 14 bytes past that file's own last FF DA pair. The repository holds
three variants of the same script:

- `jpegheaderrepair.py` first removes APP1 (EXIF) segments from the
  reference with `remove_exif`. It loads the reference once, then repairs
  every JPEG-named file of a folder.
- `repair_jpeg_header.py` does not strip EXIF and parses the reference again
  for every file. After writing, it classifies the result by its Shannon
  entropy.
- `jpegheaderrepair-gui.py` is a Qt front end. Its `RepairWorker.run` loop
  repairs the files one after another and emits log, progress and completion
  signals.

The model works on byte sequences (`JpegBytes.Bytes`, values 0..255):

| file | module | what it holds |
|---|---|---|
| `jpeg_bytes.dfy` | `JpegBytes` | `rfind(b'\xff\xda')` as `LastFFDA`, Python's clipping slices `Take`/`Drop`, the constant `SosHeaderSpan` = 14 |
| `exif_strip.dfy` | `ExifStrip` | `remove_exif`: the loop method `RemoveExif`, proved equal to the recursive scan `Strip`, with lemmas about `Strip` |
| `file_names.dfy` | `FileNames` | the `.jpg`/`.jpeg` filter and the filtered listing |
| `repair.dfy` | `Repair` | the unstripped `find_last_ffda_segment` and the splice that all three `repair_jpeg` functions share |
| `cli_repair.dfy` | `CliRepair` | `jpegheaderrepair.py`: stripped header, `process_folder` |
| `header_repair.dfy` | `HeaderRepair` | `repair_jpeg_header.py`: per-file reference check, error flags, `process_folder` |
| `gui_repair.dfy` | `GuiRepair` | `jpegheaderrepair-gui.py`: `RepairWorker.run` as a loop emitting a sequence of signals |

The constant 14 is 2 marker bytes plus a scan header of length
Ls = 6 + 2 * Ns with Ns = 3 (section B.2.3 of ITU-T T.81). So the header
prefix ends 12 bytes after the FF DA pair, and the tail starts 12 bytes after
the corrupted file's FF DA pair. The code comments say "+12 bytes"; the code
uses 14. The constant is only right for three-component scans.

Behaviour of the code that the model makes explicit:

- `remove_exif` deletes an APP1 segment whose declared length runs past the
  end of the buffer together with everything after it: the slice
  `data[i+segment_length:]` is empty there (`ExifStrip.OverlongApp1Truncates`).
- `data[:k+14]` keeps the FF DA pair and the 12 bytes after it, and the
  corrupted file's tail starts 12 bytes after its own FF DA pair
  (`CliRepair.ExifExampleRepaired`).
- `remove_exif` is not a marker parser. FF 00, FF FF, RSTn and SOS are all
  jumped over by their "length". SOI and EOI advance by one byte only. A
  length slice cut short by the end of the buffer reads as the 0 or 1 bytes
  that are there (`ExifStrip.SegmentLengthFromBytes`,
  `ExifStrip.SkippedRangeKept`).
- The "0 bytes" and "No JPEG SOI" entries of the error list of
  `repair_jpeg_header.py` can never be printed, because both cases return
  earlier (`HeaderRepair.DeadErrorEntries`).
- In the GUI, an empty selection divides by zero at `100 / total_files`. The
  worker thread then ends with an exception, before any completion signal
  (`GuiRepair.Run`, out-parameter `raised`).

## Model

| member | source | states |
|---|---|---|
| `JpegBytes.FindSosBefore` | repair_jpeg_header.py:8 | the backward search returns an index below the bound holding FF DA, with no FF DA between it and the bound; None only when no index below the bound holds FF DA |
| `JpegBytes.LastFFDA` | jpegheaderrepair.py:36 | `rfind`: Some(k) only when k is the last FF DA pair; None exactly when the buffer holds no FF DA pair |
| `JpegBytes.LastSosUnique` | repair_jpeg_header.py:52 | the last FF DA pair is unique: whatever index is the last pair is the index `rfind` returns |
| `JpegBytes.Take` | repair_jpeg_header.py:11 | `data[:n]` has length min(n, len) and agrees with `data` position by position |
| `JpegBytes.Drop` | repair_jpeg_header.py:58 | `data[n:]` has length max(0, len - n) and holds `data` from index n on; it is empty past the end |
| `ExifStrip.FromBytesBig` | jpegheaderrepair.py:18 | `int.from_bytes(..., 'big')` of n bytes is below 256^n |
| `ExifStrip.FromBytesBigShort` | jpegheaderrepair.py:24 | a length slice of 0, 1 or 2 bytes reads as 0, the byte itself, or high * 256 + low |
| `ExifStrip.SegmentLength` | jpegheaderrepair.py:18 | the declared segment length + 2 is between 2 and 65537, so every jump or deletion covers at least 2 bytes |
| `ExifStrip.SegmentLengthFromBytes` | jpegheaderrepair.py:18 | the length read byte by byte (high * 256 + low, or the lone byte, or 0, then + 2) equals `int.from_bytes` of the clipped slice `data[i+2:i+4]` + 2 |
| `ExifStrip.ScanStep` | jpegheaderrepair.py:13-28 | one pass of the loop body leaves what the rest of the scan produces unchanged and moves strictly closer to the end of the buffer; it either cuts bytes and stays at i, or leaves the buffer as it is and moves i forward |
| `ExifStrip.RemoveExif` | jpegheaderrepair.py:5-30 | the scan/delete loop terminates and returns `Strip(input, 0)`; the result is no longer than the input and is a subsequence of it; a buffer without FF comes back unchanged |
| `ExifStrip.Strip` | jpegheaderrepair.py:11-28 | the scan from position i (delete an APP1 segment and rescan at i, jump over another FF pair by its length + 2, otherwise step one byte) never lengthens the buffer |
| `ExifStrip.StripOnlyDeletes` | jpegheaderrepair.py:5-30 | `remove_exif` never lengthens the data, and what it returns is a subsequence of its input: bytes are removed, never altered or reordered |
| `ExifStrip.StripKeeps` | jpegheaderrepair.py:19 | the scan only deletes: every surviving byte keeps its value and relative order, and bytes before the scan position keep their index |
| `ExifStrip.StripKeepsPrefix` | jpegheaderrepair.py:19-20 | bytes before the scan position are never changed |
| `ExifStrip.KeepUntilMarker` | jpegheaderrepair.py:13-28 | a run of non-FF bytes starting at the scan position is kept as it is |
| `ExifStrip.NoMarkerAfter` | jpegheaderrepair.py:28 | once the rest of the buffer holds no FF byte, the scan returns the buffer unchanged |
| `ExifStrip.NoMarkerUnchanged` | jpegheaderrepair.py:11-28 | a buffer with no FF byte is returned unchanged |
| `ExifStrip.ShortUnchanged` | jpegheaderrepair.py:11 | a buffer shorter than 2 bytes is returned unchanged |
| `ExifStrip.App1SegmentRemoved` | jpegheaderrepair.py:17-20 | on FF E1 at i, exactly min(length + 2, len - i) >= 2 bytes from i are removed and scanning resumes at i |
| `ExifStrip.WholeApp1Removed` | jpegheaderrepair.py:17-20 | a complete APP1 segment at the scan position disappears and the rest is scanned as if it had never been there |
| `ExifStrip.ConsecutiveApp1Removed` | jpegheaderrepair.py:20 | back-to-back APP1 segments are both removed, because the scan stays at i after a deletion |
| `ExifStrip.OverlongApp1Truncates` | jpegheaderrepair.py:18-19 | an APP1 length reaching past the end deletes everything from i on |
| `ExifStrip.SkippedRangeKept` | jpegheaderrepair.py:22-26 | any other FF-prefixed pair except SOI/EOI is jumped over by its length + 2, and nothing inside that range is removed |
| `ExifStrip.App1InsideSkippedRangeKept` | jpegheaderrepair.py:22-26 | an FF E1 inside the declared range of an SOF0 segment survives |
| `ExifStrip.ExifExampleStripped` | jpegheaderrepair.py:13-28 | SOI, a 6-byte-length APP1 holding "EXIF", FF DA and 14 non-FF bytes strips to SOI, FF DA and the 14 bytes |
| `ExifStrip.StripStable` | jpegheaderrepair.py:11-28 | from any scan position, scanning the scan's own result again changes nothing |
| `ExifStrip.StripIdempotent` | jpegheaderrepair.py:5-30 | `remove_exif` is idempotent |
| `FileNames.LowerChar` | jpegheaderrepair.py:87 | `str.lower()` on one character: an upper-case ASCII letter becomes the same letter in lower case, any other character is kept, and the result is never upper case |
| `FileNames.Lower` | jpegheaderrepair.py:87 | `f.lower()` has the length of `f`, lowers each character in place and leaves no upper-case ASCII letter |
| `FileNames.IsJpegName` | jpegheaderrepair.py:87 | a name is selected exactly when its last 4 or 5 characters, lower-cased, are `.jpg` or `.jpeg` |
| `FileNames.IsJpegNameAccepts` | repair_jpeg_header.py:97 | `IMG_0001.JPG`, `scan.JpEg` and the bare `.jpg` are selected: the comparison ignores case |
| `FileNames.IsJpegNameRejects` | repair_jpeg_header.py:97 | `photo.png`, `photo.jpg.bak` and `jpg` are not selected: only the final extension counts, dot included |
| `FileNames.JpegEntries` | jpegheaderrepair-gui.py:128 | the filtered listing holds exactly the JPEG-named entries of the listing |
| `FileNames.JpegEntriesAppend` | jpegheaderrepair-gui.py:128 | the filter keeps listing order: filtering a concatenation concatenates the filtered parts |
| `Repair.FindLastFfdaSegment` | repair_jpeg_header.py:5-11 | the ValueError case happens exactly when the data has no FF DA pair; otherwise the segment is `data[:k+14]` for the last pair k, has length min(k+14, len) and holds the pair at k (same code at jpegheaderrepair-gui.py:144-150) |
| `Repair.RepairCorrupted` | jpegheaderrepair.py:50-64 | the empty-file outcome happens exactly for a 0-byte file, checked first; the no-marker outcome exactly for a non-empty file without FF DA; otherwise the repaired bytes are the segment followed by `corrupted[k+14:]` for the last pair k (same code at jpegheaderrepair-gui.py:160-172 and repair_jpeg_header.py:47-61) |
| `Repair.RepairedLayout` | jpegheaderrepair-gui.py:169-172 | the repaired bytes start with the whole segment and end with exactly the suffix from k+14; their length is len(segment) + max(0, len - k - 14); past the end they are the segment alone |
| `CliRepair.FindLastFfdaSegment` | jpegheaderrepair.py:32-39 | the reference is EXIF-stripped first; it fails exactly when the stripped buffer has no FF DA pair, else returns the stripped buffer's prefix up to k+14, which holds the pair at k |
| `CliRepair.ProcessFolder` | jpegheaderrepair.py:76-101 | a reference failure ends the run before any file; otherwise every JPEG-named file gets exactly one result, the splice of the one shared segment with that file |
| `CliRepair.ExifExampleRepaired` | jpegheaderrepair.py:35-64 | for a reference with an EXIF segment and a corrupted file with a junk header and no FF DA pair after its own (FF 00, RSTn and FF D9 may occur), the result is SOI, FF DA and the 12 reference bytes after it, then the corrupted bytes from 12 past its FF DA |
| `HeaderRepair.ErrorFlags` | repair_jpeg_header.py:80-87 | each entry of the error list appears exactly when its condition holds (0 bytes, entropy below the double 7.60, entropy above the double 7.99, no FF DA), and none twice |
| `HeaderRepair.RepairJpeg` | repair_jpeg_header.py:28-61 | the reference error comes first and exactly when the reference has no FF DA; then the empty-file and no-marker skips; a written file is diagnosed with the entropy of the written bytes |
| `HeaderRepair.WrittenIsSplice` | repair_jpeg_header.py:58-61 | the written bytes are the reference's `data[:kr+14]` followed by `corrupted[kc+14:]`; past the end they are the reference segment alone |
| `HeaderRepair.DeadErrorEntries` | repair_jpeg_header.py:80-87 | the "0 bytes" and "No JPEG SOI" entries never appear, because both cases returned at lines 47-55 |
| `HeaderRepair.EntropyEntries` | repair_jpeg_header.py:82-85 | "too low" appears exactly when the entropy is below the double 7.60 and "too high" exactly when it is above the double 7.99; never both, so at most one of the four modelled entries appears (the substring entries of lines 88-93 are not modelled) |
| `HeaderRepair.ProcessFolder` | repair_jpeg_header.py:95-104 | one report per JPEG-named entry, in listing order: the report at j is named after the j-th entry and is `repair_jpeg` of the reference path and that entry's contents |
| `HeaderRepair.BadReferenceReportedPerFile` | repair_jpeg_header.py:32-37 | a reference without FF DA does not stop the batch: every selected file reports the reference error |
| `GuiRepair.FileSignals` | jpegheaderrepair-gui.py:135-140 | one iteration emits three signals: the "Repairing" line for its file first, the progress count last, and never the completion signal |
| `GuiRepair.LoopSignals` | jpegheaderrepair-gui.py:133-140 | the loop emits exactly three signals per file |
| `GuiRepair.LoopSignalsBlock` | jpegheaderrepair-gui.py:133-140 | the signals of the file at index j are the three consecutive signals from 3j on, and their progress count is j + 1 |
| `GuiRepair.FileSignalsResult` | jpegheaderrepair-gui.py:135-140 | one iteration emits exactly its file's `repair_jpeg` result and no completion signal |
| `GuiRepair.LoopSignalsResults` | jpegheaderrepair-gui.py:133-140 | the loop emits exactly one result per file, in order, whatever the earlier outcomes, and never the completion signal |
| `GuiRepair.CompletedRun` | jpegheaderrepair-gui.py:142 | after the loop, completion is emitted last and exactly once |
| `GuiRepair.Run` | jpegheaderrepair-gui.py:121-142 | a reference error logs one line and stops before listing, with no completion; an empty selection raises before the loop, with no signals; otherwise `files_processed` ends equal to the number of files, one result per file, then completion |
| `GuiRepair.RepairEach` | jpegheaderrepair-gui.py:133-140 | the loop visits every file once, in order: `files_processed` ends at the number of files and the signals are each file's "Repairing" line, result and progress count |

## Left out

- File I/O (`open`, `read`, `write`, `os.makedirs`, `os.listdir`, `os.path.join`, `os.path.basename`): the reference and the corrupted files come in as byte sequences, and the folder as a list of name/contents entries (`FileNames.DirEntry`). The output path is not modelled.
- Read and write failures (`IOError`, the "File access error" and "File save error" branches): the model assumes every read and write succeeds.
- `calculate_entropy` (repair_jpeg_header.py:13-26) uses floating-point `log2`. The entropy enters `HeaderRepair.RepairJpeg` as a function from the repaired bytes to a real number.
- The substring checks for "Error while parsing", "Invalid Markers" and "Render Error" in the repaired bytes (repair_jpeg_header.py:88-93). They search entropy-coded data for ASCII text and carry no meaning. They append to the same error list, so a written file can print up to three more entries than `HeaderRepair.RepairJpeg` records.
- HeaderRepair.ErrorFlags: the thresholds are the exact values of the doubles nearest 7.60 and 7.99, so a comparison against them agrees with Python's for every double entropy. The entropy itself is any real number, not only a double, and floating-point error in computing it is not modelled.
- `ThreadPoolExecutor` and `as_completed` in jpegheaderrepair.py:89-101: the files are processed as a sequential map in listing order. The files share only the read-only reference segment, so no result depends on the interleaving. The order in which futures complete is not modelled.
- The Qt widgets, dialogs, message boxes, styles and signal/slot wiring of jpegheaderrepair-gui.py; `RepairWorker`'s constructor only stores the three paths.
- Message text, `print` and log formatting: outcomes are datatype values.
- GuiRepair.Run: `ProgressUpdated` carries `files_processed`. The source emits `int(files_processed * (100 / total_files))`, with `progress_step = 100 / total_files` computed once as a float (jpegheaderrepair-gui.py:131, 139). The float product and its truncation are not modelled, so the model does not capture that float rounding can make the last value emitted below 100 (for 97 files, `int(97 * (100 / 97))` is 99).
- FileNames.LowerChar: `str.lower()` is modelled on ASCII letters only. No non-ASCII character lower-cases to `.`, `j`, `p`, `e` or `g`, so `FileNames.IsJpegName` selects the same names.
- CliRepair.FindLastFfdaSegment: it does not restate that the segment is a subsequence of the unstripped reference. `ExifStrip.RemoveExif` states that of the stripped buffer, and the segment is a prefix of that buffer.
