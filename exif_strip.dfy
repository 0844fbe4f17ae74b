/**
 * `remove_exif` of jpegheaderrepair.py: a forward scan over a byte buffer
 * that deletes every APP1 (FF E1) segment it lands on, steps over SOI and
 * EOI one byte at a time, and jumps over every other FF-prefixed pair by
 * its declared big-endian length plus 2.
 *
 * `Strip(d, i)` is the scan from index `i` written as a recursive
 * function; `RemoveExif` is the loop itself, proved equal to `Strip(d, 0)`.
 */
module ExifStrip {
  import opened JpegBytes

  function Pow256(n: nat): (p: nat)
    ensures p >= 1
  {
    if n == 0 then 1 else 256 * Pow256(n - 1)
  }

  /** `int.from_bytes(s, byteorder='big')`; the empty slice reads as 0. */
  function FromBytesBig(s: Bytes): (v: nat)
    ensures v < Pow256(|s|)
    decreases |s|
  {
    if s == [] then 0
    else
      var high := FromBytesBig(s[..|s| - 1]);
      assert high * 256 <= (Pow256(|s| - 1) - 1) * 256;
      high * 256 + s[|s| - 1]
  }

  /** The big-endian value of a short slice is that of the bytes it holds. */
  lemma {:induction false} FromBytesBigShort(s: Bytes)
    requires |s| <= 2
    ensures |s| == 0 ==> FromBytesBig(s) == 0
    ensures |s| == 1 ==> FromBytesBig(s) == s[0]
    ensures |s| == 2 ==> FromBytesBig(s) == s[0] as int * 256 + s[1] as int
  {
  }

  /**
   * `int.from_bytes(data[i+2:i+4], 'big') + 2`: the number of bytes the
   * marker at `i` claims, counting the marker itself. The slice is clipped
   * at the end of the buffer, so it may hold 0, 1 or 2 bytes.
   */
  function SegmentLength(d: Bytes, i: nat): (n: nat)
    requires i + 2 <= |d|
    ensures 2 <= n <= 0xFFFF + 2
  {
    var field :=
      if i + 4 <= |d| then d[i + 2] as int * 256 + d[i + 3] as int
      else if i + 3 == |d| then d[i + 2] as int
      else 0;
    field + 2
  }

  /** `SegmentLength` is `int.from_bytes` of the clipped length slice, plus 2. */
  lemma {:induction false} SegmentLengthFromBytes(d: Bytes, i: nat)
    requires i + 2 <= |d|
    ensures SegmentLength(d, i) == FromBytesBig(d[i + 2 .. Min(i + 4, |d|)]) + 2
  {
  }

  /**
   * The scan of `remove_exif` from index `i` of the current buffer `d`.
   * It only deletes, so it never lengthens the buffer.
   */
  function Strip(d: Bytes, i: nat): (r: Bytes)
    ensures |r| <= |d|
    decreases |d| - i
  {
    if i + 1 >= |d| then d
    else if d[i] == MarkerStart && d[i + 1] == APP1 then
      // delete the segment (clipped at the end) and rescan at i
      Strip(d[..i] + d[Min(i + SegmentLength(d, i), |d|)..], i)
    else if d[i] == MarkerStart && d[i + 1] != SOI && d[i + 1] != EOI then
      // any other FF-prefixed pair, FF 00 and FF FF included, is jumped over
      Strip(d, i + SegmentLength(d, i))
    else
      Strip(d, i + 1)
  }

  /** `r` is `s` with some bytes left out, through the increasing index map `idx`. */
  ghost predicate SubseqVia(r: Bytes, s: Bytes, idx: seq<nat>) {
    && |idx| == |r|
    && (forall j :: 0 <= j < |idx| ==> idx[j] < |s| && r[j] == s[idx[j]])
    && (forall j, k :: 0 <= j < k < |idx| ==> idx[j] < idx[k])
  }

  /** Every byte of `r` is a byte of `s`, unaltered and in the same relative order. */
  ghost predicate IsSubsequence(r: Bytes, s: Bytes) {
    exists idx :: SubseqVia(r, s, idx)
  }

  /**
   * The scan only deletes: its result is a subsequence of the buffer, and
   * the bytes before the scan position stay where they are.
   */
  lemma {:induction false} StripKeeps(d: Bytes, i: nat) returns (idx: seq<nat>)
    ensures SubseqVia(Strip(d, i), d, idx)
    ensures |idx| >= Min(i, |d|)
    ensures forall j :: 0 <= j < Min(i, |d|) ==> idx[j] == j
    decreases |d| - i
  {
    if i + 1 >= |d| {
      idx := Identity(d);
    } else if d[i] == MarkerStart && d[i + 1] == APP1 {
      var e := Min(i + SegmentLength(d, i), |d|);
      DeleteAt(d, i);
      var idx' := StripKeeps(d[..i] + d[e..], i);
      idx := Reindex(Strip(d, i), d, i, e, idx');
    } else if d[i] == MarkerStart && d[i + 1] != SOI && d[i + 1] != EOI {
      SkipAt(d, i);
      idx := StripKeeps(d, i + SegmentLength(d, i));
    } else {
      StepAt(d, i);
      idx := StripKeeps(d, i + 1);
    }
  }

  /** Every sequence is a subsequence of itself through the identity map. */
  lemma {:induction false} Identity(d: Bytes) returns (idx: seq<nat>)
    ensures SubseqVia(d, d, idx)
    ensures forall j :: 0 <= j < |d| ==> idx[j] == j
  {
    idx := seq(|d|, j requires 0 <= j < |d| => j);
  }

  /**
   * Maps the kept indices of `d[..i] + d[e..]` back to indices of `d`:
   * indices below `i` stay, the others shift past the deleted range.
   */
  lemma {:induction false} Reindex(r: Bytes, d: Bytes, i: nat, e: nat, idx': seq<nat>) returns (idx: seq<nat>)
    requires i <= e <= |d|
    requires SubseqVia(r, d[..i] + d[e..], idx')
    requires |idx'| >= i && forall j :: 0 <= j < i ==> idx'[j] == j
    ensures SubseqVia(r, d, idx)
    ensures |idx| >= i && forall j :: 0 <= j < i ==> idx[j] == j
  {
    var d' := d[..i] + d[e..];
    assert forall t :: 0 <= t < |d'| ==> d'[t] == if t < i then d[t] else d[t + (e - i)];
    idx := seq(|idx'|, j requires 0 <= j < |idx'| => if idx'[j] < i then idx'[j] else idx'[j] + (e - i));
  }

  /** The bytes before the scan position are never touched. */
  lemma {:induction false} StripKeepsPrefix(d: Bytes, i: nat)
    ensures |Strip(d, i)| >= Min(i, |d|)
    ensures Strip(d, i)[..Min(i, |d|)] == d[..Min(i, |d|)]
  {
    var idx := StripKeeps(d, i);
  }

  /** A run of non-FF bytes from the scan position is never touched either. */
  lemma {:induction false} KeepUntilMarker(d: Bytes, j: nat, m: nat)
    requires j <= m <= |d|
    requires forall t :: j <= t < m ==> d[t] != MarkerStart
    ensures |Strip(d, j)| >= m && Strip(d, j)[..m] == d[..m]
    decreases m - j
  {
    if j == m {
      StripKeepsPrefix(d, j);
    } else if j + 1 >= |d| {
    } else {
      KeepUntilMarker(d, j + 1, m);
    }
  }

  /** A scan that reaches a stretch without FF bytes running to the end stops there, changing nothing. */
  lemma {:induction false} NoMarkerAfter(d: Bytes, j: nat)
    requires forall t :: j <= t < |d| ==> d[t] != MarkerStart
    ensures Strip(d, j) == d
  {
    if j <= |d| {
      KeepUntilMarker(d, j, |d|);
    }
  }

  /** A buffer without any FF byte comes back unchanged. */
  lemma {:induction false} NoMarkerUnchanged(d: Bytes)
    requires forall t :: 0 <= t < |d| ==> d[t] != MarkerStart
    ensures Strip(d, 0) == d
  {
    NoMarkerAfter(d, 0);
  }

  /** A buffer shorter than two bytes comes back unchanged: the loop body never runs. */
  lemma {:induction false} ShortUnchanged(d: Bytes)
    requires |d| < 2
    ensures Strip(d, 0) == d
  {
  }

  /**
   * On FF E1 at `i` the scan removes exactly min(length + 2, |d| - i) bytes
   * starting at `i` and resumes at the same `i`.
   */
  lemma {:induction false} App1SegmentRemoved(d: Bytes, i: nat)
    requires i + 1 < |d| && d[i] == MarkerStart && d[i + 1] == APP1
    ensures var n := Min(SegmentLength(d, i), |d| - i);
      && 2 <= n
      && |d[..i] + d[i + n..]| == |d| - n
      && Strip(d, i) == Strip(d[..i] + d[i + n..], i)
  {
  }

  /** A complete APP1 segment: FF E1, a big-endian length, and exactly that many bytes after the marker. */
  predicate IsApp1Segment(a: Bytes) {
    && |a| >= 4
    && a[0] == MarkerStart && a[1] == APP1
    && a[2] as int * 256 + a[3] as int + 2 == |a|
  }

  /** A complete APP1 segment under the scan position disappears and nothing else changes. */
  lemma {:induction false} WholeApp1Removed(pre: Bytes, a: Bytes, rest: Bytes)
    requires IsApp1Segment(a)
    ensures Strip(pre + a + rest, |pre|) == Strip(pre + rest, |pre|)
  {
    var d := pre + a + rest;
    var i := |pre|;
    assert d[i + 2 .. Min(i + 4, |d|)] == a[2..4];
    assert SegmentLength(d, i) == |a|;
    assert d[..i] + d[i + |a|..] == pre + rest;
  }

  /** Back-to-back APP1 segments are all removed, because the scan stays put after a deletion. */
  lemma {:induction false} ConsecutiveApp1Removed(pre: Bytes, a: Bytes, b: Bytes, rest: Bytes)
    requires IsApp1Segment(a) && IsApp1Segment(b)
    ensures Strip(pre + a + b + rest, |pre|) == Strip(pre + rest, |pre|)
  {
    assert pre + a + b + rest == pre + a + (b + rest);
    WholeApp1Removed(pre, a, b + rest);
    assert pre + (b + rest) == pre + b + rest;
    WholeApp1Removed(pre, b, rest);
  }

  /** An APP1 length reaching past the end deletes everything from `i` on. */
  lemma {:induction false} OverlongApp1Truncates(d: Bytes, i: nat)
    requires i + 1 < |d| && d[i] == MarkerStart && d[i + 1] == APP1
    requires i + SegmentLength(d, i) >= |d|
    ensures Strip(d, i) == d[..i]
  {
    assert d[..i] + d[|d|..] == d[..i];
  }

  /**
   * Any other FF-prefixed pair except SOI and EOI is jumped over: nothing
   * inside its declared range is removed, not even an FF E1.
   */
  lemma {:induction false} SkippedRangeKept(d: Bytes, i: nat)
    requires i + 1 < |d| && d[i] == MarkerStart
    requires d[i + 1] != APP1 && d[i + 1] != SOI && d[i + 1] != EOI
    ensures var e := Min(i + SegmentLength(d, i), |d|);
      |Strip(d, i)| >= e && Strip(d, i)[..e] == d[..e]
  {
    StripKeepsPrefix(d, i + SegmentLength(d, i));
  }

  /** An FF E1 inside the declared range of an SOF0 segment is jumped over and survives. */
  lemma App1InsideSkippedRangeKept()
    ensures var d: Bytes := [0xFF, 0xC0, 0x00, 0x06, 0xFF, 0xE1, 0x00, 0x02];
      Strip(d, 0) == d
  {
    var d: Bytes := [0xFF, 0xC0, 0x00, 0x06, 0xFF, 0xE1, 0x00, 0x02];
    assert SegmentLength(d, 0) == 8;
  }

  /**
   * SOI, then an APP1 segment of declared length 6 holding "EXIF", then
   * FF DA and fourteen bytes without FF: SOI advances one byte at a time,
   * the eight APP1 bytes go, and everything else stays.
   */
  lemma {:induction false} ExifExampleStripped(b: Bytes)
    requires |b| == 14 && forall t :: 0 <= t < |b| ==> b[t] != MarkerStart
    ensures Strip([0xFF, 0xD8, 0xFF, 0xE1, 0x00, 0x06, 0x45, 0x58, 0x49, 0x46, 0xFF, 0xDA] + b, 0)
         == [0xFF, 0xD8, 0xFF, 0xDA] + b
  {
    var d := [0xFF, 0xD8, 0xFF, 0xE1, 0x00, 0x06, 0x45, 0x58, 0x49, 0x46, 0xFF, 0xDA] + b;
    var s := [0xFF, 0xD8, 0xFF, 0xDA] + b;
    assert SegmentLength(d, 2) == 8;
    assert d[..2] + d[10..] == s;
    assert Strip(d, 0) == Strip(d, 1);
    assert Strip(d, 1) == Strip(d, 2);
    assert Strip(d, 2) == Strip(s, 2);
    var n := SegmentLength(s, 2);
    NoMarkerAfter(s, 2 + n);
  }

  /**
   * A jump shorter than the marker and its two length bytes lands on a
   * length byte: a declared length below 2 is written 00 00 or 00 01, so
   * neither length byte is FF.
   */
  lemma {:induction false} ShortJumpLandsOnLength(d: Bytes, i: nat)
    requires i + 4 <= |d|
    ensures SegmentLength(d, i) >= 4 || (d[i + 2] != MarkerStart && d[i + 3] != MarkerStart)
  {
  }

  /** Scanning from a length byte leaves the marker and both length bytes alone when neither is FF. */
  lemma {:induction false} LengthBytesSurvive(d: Bytes, i: nat, j: nat)
    requires i + 2 <= j <= i + 4 <= |d|
    requires d[i + 2] != MarkerStart && d[i + 3] != MarkerStart
    ensures |Strip(d, j)| >= i + 4 && Strip(d, j)[..i + 4] == d[..i + 4]
  {
    KeepUntilMarker(d, j, i + 4);
  }

  /**
   * After a jump over the marker at `i` that does not reach the end, the
   * marker and its two length bytes are still in place.
   */
  lemma {:induction false} LengthBytesKept(d: Bytes, i: nat)
    requires i + 1 < |d| && d[i] == MarkerStart
    requires i + SegmentLength(d, i) + 1 < |d|
    ensures var r := Strip(d, i + SegmentLength(d, i));
      |r| >= i + 4 && r[..i + 4] == d[..i + 4]
  {
    var j := i + SegmentLength(d, i);
    ShortJumpLandsOnLength(d, i);
    if j < i + 4 {
      LengthBytesSurvive(d, i, j);
    } else {
      LongJumpKeepsLength(d, i, j);
    }
  }

  /** A jump past the length bytes leaves everything before its target alone. */
  lemma {:induction false} LongJumpKeepsLength(d: Bytes, i: nat, j: nat)
    requires i + 4 <= j <= |d|
    ensures |Strip(d, j)| >= i + 4 && Strip(d, j)[..i + 4] == d[..i + 4]
  {
    StripKeepsPrefix(d, j);
    PrefixOfPrefix(Strip(d, j), d, j, i + 4);
  }

  /** Sequences that agree on their first `m` elements agree on their first `p <= m`. */
  lemma {:induction false} PrefixOfPrefix(r: Bytes, d: Bytes, m: nat, p: nat)
    requires p <= m <= |r| && m <= |d| && r[..m] == d[..m]
    ensures r[..p] == d[..p]
  {
  }

  /**
   * After a jump over the marker at `i`, the stripped result still holds
   * the same marker and the same length bytes at `i`, so a second scan
   * makes the same jump.
   */
  lemma {:induction false} SkipRepeats(d: Bytes, i: nat)
    requires i + 1 < |d| && d[i] == MarkerStart
    requires d[i + 1] != APP1 && d[i + 1] != SOI && d[i + 1] != EOI
    ensures var n := SegmentLength(d, i);
      Strip(Strip(d, i + n), i) == Strip(Strip(d, i + n), i + n)
  {
    var n := SegmentLength(d, i);
    var r := Strip(d, i + n);
    if i + n + 1 >= |d| {
      assert r == d;
    } else {
      LengthBytesKept(d, i);
      SameMarkerSameLength(r, d, i);
      SkipAt(r, i);
    }
  }

  /** Buffers that agree on a marker and its two length bytes declare the same length there. */
  lemma {:induction false} SameMarkerSameLength(r: Bytes, d: Bytes, i: nat)
    requires i + 4 <= |r| && i + 4 <= |d| && r[..i + 4] == d[..i + 4]
    ensures r[i] == d[i] && r[i + 1] == d[i + 1]
    ensures SegmentLength(r, i) == SegmentLength(d, i)
  {
  }

  /** At FF E1 the scan deletes the segment, clipped at the end, and stays put. */
  lemma {:induction false} DeleteAt(r: Bytes, i: nat)
    requires i + 1 < |r| && r[i] == MarkerStart && r[i + 1] == APP1
    ensures Strip(r, i) == Strip(r[..i] + r[Min(i + SegmentLength(r, i), |r|)..], i)
  {
  }

  /** At FF followed by anything but E1, D8 or D9, the scan jumps by the declared length + 2. */
  lemma {:induction false} SkipAt(r: Bytes, i: nat)
    requires i + 1 < |r| && r[i] == MarkerStart
    requires r[i + 1] != APP1 && r[i + 1] != SOI && r[i + 1] != EOI
    ensures Strip(r, i) == Strip(r, i + SegmentLength(r, i))
  {
  }

  /** After a one-byte step at `i`, a second scan takes the same step. */
  lemma {:induction false} StepRepeats(d: Bytes, i: nat)
    requires i + 1 < |d|
    requires d[i] != MarkerStart || d[i + 1] == SOI || d[i + 1] == EOI
    ensures Strip(Strip(d, i + 1), i) == Strip(Strip(d, i + 1), i + 1)
  {
    var r := Strip(d, i + 1);
    if d[i] != MarkerStart {
      StripKeepsPrefix(d, i + 1);
      assert r[..i + 1][i] == d[..i + 1][i];
    } else {
      KeepUntilMarker(d, i + 1, i + 2);
      assert r[..i + 2][i + 1] == d[..i + 2][i + 1];
    }
    StepAt(r, i);
  }

  /** At a byte that is not FF, or at FF D8 / FF D9, the scan takes a one-byte step. */
  lemma {:induction false} StepAt(r: Bytes, i: nat)
    requires i < |r|
    requires r[i] != MarkerStart || (i + 1 < |r| && (r[i + 1] == SOI || r[i + 1] == EOI))
    ensures Strip(r, i) == Strip(r, i + 1)
  {
  }

  /** Stripping a stripped buffer changes nothing, from any scan position. */
  lemma {:induction false} StripStable(d: Bytes, i: nat)
    ensures Strip(Strip(d, i), i) == Strip(d, i)
    decreases |d| - i
  {
    if i + 1 >= |d| {
    } else if d[i] == MarkerStart && d[i + 1] == APP1 {
      DeleteAt(d, i);
      StripStable(d[..i] + d[Min(i + SegmentLength(d, i), |d|)..], i);
    } else if d[i] == MarkerStart && d[i + 1] != SOI && d[i + 1] != EOI {
      SkipAt(d, i);
      StripStable(d, i + SegmentLength(d, i));
      SkipRepeats(d, i);
    } else {
      StepAt(d, i);
      StripStable(d, i + 1);
      StepRepeats(d, i);
    }
  }

  /** Stripping is idempotent. */
  lemma {:induction false} StripIdempotent(d: Bytes)
    ensures Strip(Strip(d, 0), 0) == Strip(d, 0)
  {
    StripStable(d, 0);
  }

  /** `remove_exif` only deletes bytes: it never lengthens the data nor alters or reorders what it keeps. */
  lemma {:induction false} StripOnlyDeletes(d: Bytes)
    ensures |Strip(d, 0)| <= |d| && IsSubsequence(Strip(d, 0), d)
  {
    var idx := StripKeeps(d, 0);
  }

  /**
   * One pass of the `while` body of `remove_exif` at index `i0`: on FF E1
   * the segment is cut out and the position stays (`continue`), on any
   * other FF-prefixed pair but SOI/EOI the position jumps by the declared
   * length + 2 (`continue`), otherwise it moves one byte. What the rest of
   * the scan produces is unchanged, and the distance to the end shrinks.
   */
  method ScanStep(data0: Bytes, i0: nat) returns (data: Bytes, i: nat)
    requires i0 + 1 < |data0|
    ensures Strip(data, i) == Strip(data0, i0)
    ensures |data| - i < |data0| - i0
    ensures i == i0 || data == data0
    ensures i0 <= i
  {
    data, i := data0, i0;
    if data[i] == MarkerStart {
      // the two-byte marker `data[i:i+2]`
      var second := data[i + 1];
      if second == APP1 {
        var segmentLength := SegmentLength(data, i);
        DeleteAt(data, i);
        data := data[..i] + data[Min(i + segmentLength, |data|)..];
        return;
      }
      if second != SOI && second != EOI {
        var segmentLength := SegmentLength(data, i);
        SkipAt(data, i);
        i := i + segmentLength;
        return;
      }
    }
    StepAt(data, i);
    i := i + 1;
  }

  /**
   * `remove_exif`: the loop reassigns `data` on every deletion and stays at
   * `i`; it advances by the declared length + 2 over other markers and by
   * one byte otherwise.
   */
  method RemoveExif(input: Bytes) returns (data: Bytes)
    ensures data == Strip(input, 0)
    ensures |data| <= |input| && IsSubsequence(data, input)
    ensures (forall t :: 0 <= t < |input| ==> input[t] != MarkerStart) ==> data == input
  {
    data := input;
    var i: nat := 0;
    while i < |data| - 1
      invariant Strip(data, i) == Strip(input, 0)
      decreases |data| - i
    {
      data, i := ScanStep(data, i);
    }
    StripOnlyDeletes(input);
    if forall t :: 0 <= t < |input| ==> input[t] != MarkerStart {
      NoMarkerUnchanged(input);
    }
  }
}
