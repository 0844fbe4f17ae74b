/**
 * jpegheaderrepair-gui.py: `RepairWorker.run`, the loop that the GUI runs
 * on a worker thread. Its Qt signals become a sequence of emitted
 * `Signal` values; the widget that receives them is not modelled.
 */
module GuiRepair {
  import opened JpegBytes
  import opened FileNames
  import opened Repair

  /** The text lines sent over `log_updated`. */
  datatype LogLine =
    | ReferenceError         // "Error with reference file ..."
    | Repairing(name: string) // "Repairing <name>..."
    | FileOutcome(outcome: Outcome) // the message `repair_jpeg` returns

  /**
   * The signals `run` emits. `progress_updated` carries
   * `int(files_processed * progress_step)` with the float
   * `progress_step = 100 / total_files`; here it carries the count
   * `files_processed` itself, and the float percentage is not modelled.
   */
  datatype Signal =
    | LogUpdated(line: LogLine)
    | ProgressUpdated(filesProcessed: nat)
    | RepairFinished

  /**
   * The three signals of one loop iteration: the "Repairing" line for the
   * file first, the progress count last, and never the completion signal.
   */
  function FileSignals(segment: Bytes, file: DirEntry, filesProcessed: nat): (r: seq<Signal>)
    ensures |r| == 3
    ensures r[0] == LogUpdated(Repairing(file.name))
    ensures r[2] == ProgressUpdated(filesProcessed)
    ensures RepairFinished !in r
  {
    [ LogUpdated(Repairing(file.name)),
      LogUpdated(FileOutcome(RepairCorrupted(segment, file.contents))),
      ProgressUpdated(filesProcessed) ]
  }

  /** The signals of the loop over `files`, three per file, one iteration per file in order. */
  function LoopSignals(segment: Bytes, files: seq<DirEntry>): (r: seq<Signal>)
    ensures |r| == 3 * |files|
    decreases |files|
  {
    if files == [] then []
    else LoopSignals(segment, files[..|files| - 1]) + FileSignals(segment, files[|files| - 1], |files|)
  }

  /** The block of the file at index j holds that file's three signals, with progress count j + 1. */
  lemma {:induction false} LoopSignalsBlock(segment: Bytes, files: seq<DirEntry>, j: nat)
    requires j < |files|
    ensures LoopSignals(segment, files)[3 * j .. 3 * j + 3] == FileSignals(segment, files[j], j + 1)
    decreases |files|
  {
    var init := files[..|files| - 1];
    var prev := LoopSignals(segment, init);
    if j < |init| {
      LoopSignalsBlock(segment, init, j);
      assert LoopSignals(segment, files) == prev + FileSignals(segment, files[|files| - 1], |files|);
      assert LoopSignals(segment, files)[3 * j .. 3 * j + 3] == prev[3 * j .. 3 * j + 3];
    }
  }

  /** The per-file results among a run's signals, in emission order. */
  function Results(signals: seq<Signal>): seq<Outcome>
    decreases |signals|
  {
    if signals == [] then []
    else
      var rest := Results(signals[..|signals| - 1]);
      match signals[|signals| - 1]
      case LogUpdated(FileOutcome(outcome)) => rest + [outcome]
      case _ => rest
  }

  lemma {:induction false} ResultsSingle(s: Signal)
    ensures Results([s]) == if s.LogUpdated? && s.line.FileOutcome? then [s.line.outcome] else []
  {
  }

  lemma {:induction false} ResultsAppend(a: seq<Signal>, b: seq<Signal>)
    ensures Results(a + b) == Results(a) + Results(b)
    decreases |b|
  {
    if b == [] {
      assert a + b == a;
    } else {
      assert (a + b)[..|a + b| - 1] == a + b[..|b| - 1];
      ResultsAppend(a, b[..|b| - 1]);
    }
  }

  /** One iteration contributes exactly its file's result and no completion signal. */
  lemma {:induction false} FileSignalsResult(segment: Bytes, file: DirEntry, filesProcessed: nat)
    ensures Results(FileSignals(segment, file, filesProcessed)) == [RepairCorrupted(segment, file.contents)]
    ensures RepairFinished !in FileSignals(segment, file, filesProcessed)
  {
    var fs := FileSignals(segment, file, filesProcessed);
    assert fs == [fs[0]] + [fs[1]] + [fs[2]];
    ResultsAppend([fs[0]] + [fs[1]], [fs[2]]);
    ResultsAppend([fs[0]], [fs[1]]);
    ResultsSingle(fs[0]);
    ResultsSingle(fs[1]);
    ResultsSingle(fs[2]);
  }

  /** The result of every file, in listing order. */
  function ExpectedResults(segment: Bytes, files: seq<DirEntry>): seq<Outcome> {
    seq(|files|, j requires 0 <= j < |files| => RepairCorrupted(segment, files[j].contents))
  }

  /**
   * Each file yields exactly one `repair_jpeg` result, in listing order,
   * whatever the outcome for the files before it; and the loop itself
   * never emits the completion signal.
   */
  lemma {:induction false} LoopSignalsResults(segment: Bytes, files: seq<DirEntry>)
    ensures Results(LoopSignals(segment, files)) == ExpectedResults(segment, files)
    ensures RepairFinished !in LoopSignals(segment, files)
    decreases |files|
  {
    if files != [] {
      var init := files[..|files| - 1];
      var last := files[|files| - 1];
      var before := LoopSignals(segment, init);
      var step := FileSignals(segment, last, |files|);
      assert LoopSignals(segment, files) == before + step;
      LoopSignalsResults(segment, init);
      ResultsAppend(before, step);
      FileSignalsResult(segment, last, |files|);
      ExpectedResultsSnoc(segment, files);
    }
  }

  /** The expected results of one more file end with that file's result. */
  lemma {:induction false} ExpectedResultsSnoc(segment: Bytes, files: seq<DirEntry>)
    requires files != []
    ensures ExpectedResults(segment, files)
         == ExpectedResults(segment, files[..|files| - 1]) + [RepairCorrupted(segment, files[|files| - 1].contents)]
  {
    var all := ExpectedResults(segment, files);
    var init := ExpectedResults(segment, files[..|files| - 1]);
    var last := [RepairCorrupted(segment, files[|files| - 1].contents)];
    assert |all| == |init + last|;
    forall k | 0 <= k < |all|
      ensures all[k] == (init + last)[k]
    {
      if k < |init| {
        assert files[..|files| - 1][k] == files[k];
      }
    }
  }

  /**
   * `RepairWorker.run`. A reference without FF DA logs one error and stops
   * before the folder is listed. An empty selection divides by zero at
   * `100 / total_files`, so the thread ends with an exception and no
   * completion signal (`raised`). Otherwise each file is repaired in turn,
   * `files_processed` is counted up, and completion is emitted last.
   */
  method Run(reference: Bytes, listing: seq<DirEntry>) returns (signals: seq<Signal>, filesProcessed: nat, raised: bool)
    ensures !HasSos(reference) ==> signals == [LogUpdated(ReferenceError)] && filesProcessed == 0 && !raised
    ensures FindLastFfdaSegment(reference).Segment? ==>
      var files := JpegEntries(listing);
      var segment := FindLastFfdaSegment(reference).bytes;
      && raised == (files == [])
      && (files == [] ==> signals == [] && filesProcessed == 0)
      && (files != [] ==>
            && filesProcessed == |files|
            && signals == LoopSignals(segment, files) + [RepairFinished]
            && Results(signals) == ExpectedResults(segment, files)
            && |signals| > 0 && signals[|signals| - 1] == RepairFinished
            && RepairFinished !in signals[..|signals| - 1])
  {
    var reference_segment := FindLastFfdaSegment(reference);
    if reference_segment.NoSosInReference? {
      signals, filesProcessed, raised := [LogUpdated(ReferenceError)], 0, false;
      return;
    }
    var segment := reference_segment.bytes;
    var files := JpegEntries(listing);
    var totalFiles := |files|;
    filesProcessed := 0;
    signals := [];
    if totalFiles == 0 {
      // `progress_step = 100 / total_files` raises ZeroDivisionError
      raised := true;
      return;
    }
    raised := false;
    signals, filesProcessed := RepairEach(segment, files);
    signals := signals + [RepairFinished];
    CompletedRun(segment, files);
  }

  /**
   * The `for corrupted_file in corrupted_files` loop of `run`: per file, the
   * "Repairing" line, the `repair_jpeg` result and the progress count.
   */
  method RepairEach(segment: Bytes, files: seq<DirEntry>) returns (signals: seq<Signal>, filesProcessed: nat)
    ensures filesProcessed == |files|
    ensures signals == LoopSignals(segment, files)
  {
    filesProcessed := 0;
    signals := [];
    for j := 0 to |files|
      invariant filesProcessed == j
      invariant signals == LoopSignals(segment, files[..j])
    {
      var file := files[j];
      signals := signals + [LogUpdated(Repairing(file.name))];
      var result := RepairCorrupted(segment, file.contents);
      signals := signals + [LogUpdated(FileOutcome(result))];
      filesProcessed := filesProcessed + 1;
      signals := signals + [ProgressUpdated(filesProcessed)];
      LoopSignalsStep(segment, files, j);
    }
    assert files[..|files|] == files;
  }

  /** One more iteration appends the signals of the next file. */
  lemma {:induction false} LoopSignalsStep(segment: Bytes, files: seq<DirEntry>, j: nat)
    requires j < |files|
    ensures LoopSignals(segment, files[..j + 1]) == LoopSignals(segment, files[..j]) + FileSignals(segment, files[j], j + 1)
  {
    assert files[..j + 1][..j] == files[..j];
  }

  /** After the loop, completion comes last and exactly once, behind one result per file. */
  lemma {:induction false} CompletedRun(segment: Bytes, files: seq<DirEntry>)
    ensures var signals := LoopSignals(segment, files) + [RepairFinished];
      && Results(signals) == ExpectedResults(segment, files)
      && signals[|signals| - 1] == RepairFinished
      && RepairFinished !in signals[..|signals| - 1]
  {
    var signals := LoopSignals(segment, files) + [RepairFinished];
    LoopSignalsResults(segment, files);
    ResultsAppend(LoopSignals(segment, files), [RepairFinished]);
    ResultsSingle(RepairFinished);
    assert signals[..|signals| - 1] == LoopSignals(segment, files);
  }
}
