/**
 * Byte-level vocabulary shared by the three repair scripts: bytes, the
 * reverse search for the last Start-Of-Scan pair (Python's
 * `bytes.rfind(b'\xff\xda')`) and Python's clipping slices.
 */
module JpegBytes {

  /** One byte of a file, as Python's `bytes` indexing yields it. */
  type Byte = b: int | 0 <= b < 256

  type Bytes = seq<Byte>

  datatype Option<+T> = None | Some(value: T)

  /** First byte of every JPEG marker. */
  const MarkerStart: Byte := 0xFF
  /** Second bytes of the markers the repair tools look at (ITU-T T.81, Table B.1). */
  const SOI: Byte := 0xD8
  const EOI: Byte := 0xD9
  const SOS: Byte := 0xDA
  const APP1: Byte := 0xE1

  /**
   * Distance from the first byte of the last FF DA pair to the first byte
   * the tools treat as entropy-coded data: the 2 marker bytes plus a scan
   * header of length Ls = 6 + 2 * Ns with Ns = 3 components (section B.2.3
   * of ITU-T T.81). It is a fixed constant in all three scripts, so it is
   * only right for three-component scans.
   */
  const SosHeaderSpan: nat := 14

  function Min(a: int, b: int): int { if a <= b then a else b }

  function Max(a: int, b: int): int { if a <= b then b else a }

  /** An FF DA byte pair starts at index `k` of `s`. */
  predicate IsSosAt(s: Bytes, k: int) {
    0 <= k && k + 1 < |s| && s[k] == MarkerStart && s[k + 1] == SOS
  }

  /** `k` is where the last FF DA pair of `s` starts. */
  ghost predicate IsLastSos(s: Bytes, k: int) {
    IsSosAt(s, k) && forall j :: k < j ==> !IsSosAt(s, j)
  }

  ghost predicate HasSos(s: Bytes) {
    exists k :: IsSosAt(s, k)
  }

  /** The last index below `n` at which an FF DA pair starts, scanning backwards. */
  function FindSosBefore(s: Bytes, n: nat): (r: Option<nat>)
    requires n < |s|
    ensures r.Some? ==> r.value < n && IsSosAt(s, r.value)
    ensures r.Some? ==> forall j :: r.value < j < n ==> !IsSosAt(s, j)
    ensures r.None? ==> forall j :: j < n ==> !IsSosAt(s, j)
  {
    if n == 0 then None
    else if IsSosAt(s, n - 1) then Some(n - 1)
    else FindSosBefore(s, n - 1)
  }

  /**
   * `data.rfind(b'\xff\xda')`: the index of the last FF DA pair, with
   * Python's -1 written as None.
   */
  function LastFFDA(s: Bytes): (r: Option<nat>)
    ensures r.Some? ==> IsLastSos(s, r.value)
    ensures r.None? <==> !HasSos(s)
  {
    if |s| < 2 then None else FindSosBefore(s, |s| - 1)
  }

  /** The last FF DA pair is unique: any index that is one is the one LastFFDA finds. */
  lemma {:induction false} LastSosUnique(s: Bytes, k: int)
    requires IsLastSos(s, k)
    ensures LastFFDA(s) == Some(k)
  {
  }

  /** Python's `s[:n]` for `n >= 0`: it clips at the end of `s`. */
  function Take(s: Bytes, n: nat): (r: Bytes)
    ensures |r| == Min(n, |s|)
    ensures forall j :: 0 <= j < |r| ==> r[j] == s[j]
  {
    if n <= |s| then s[..n] else s
  }

  /** Python's `s[n:]` for `n >= 0`: empty once `n` is past the end of `s`. */
  function Drop(s: Bytes, n: nat): (r: Bytes)
    ensures |r| == Max(0, |s| - n)
    ensures forall j :: 0 <= j < |r| ==> r[j] == s[n + j]
  {
    if n <= |s| then s[n..] else []
  }
}
