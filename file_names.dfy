/**
 * Selection of the files to repair: the directory listing is filtered to
 * the names whose lower-cased form ends with `.jpg` or `.jpeg`.
 */
module FileNames {
  import opened JpegBytes

  /**
   * One directory entry with the bytes its file holds. Listing the folder
   * and reading each file are I/O; the model receives both as values.
   */
  datatype DirEntry = DirEntry(name: string, contents: Bytes)

  /**
   * `str.lower()` on one character, for the ASCII letters: an upper-case
   * letter becomes the same letter in lower case, anything else is kept.
   */
  function LowerChar(c: char): (r: char)
    ensures !('A' <= r <= 'Z')
    ensures 'A' <= c <= 'Z' ==> 'a' <= r <= 'z' && r as int - 'a' as int == c as int - 'A' as int
    ensures !('A' <= c <= 'Z') ==> r == c
  {
    if 'A' <= c <= 'Z' then (c as int + 32) as char else c
  }

  /** `str.lower()`: same length, no upper-case letter left, each character lowered in place. */
  function Lower(s: string): (r: string)
    ensures |r| == |s|
    ensures forall j :: 0 <= j < |r| ==> !('A' <= r[j] <= 'Z')
    ensures forall j :: 0 <= j < |s| ==> r[j] == LowerChar(s[j])
  {
    seq(|s|, j requires 0 <= j < |s| => LowerChar(s[j]))
  }

  predicate EndsWith(s: string, suffix: string) {
    |suffix| <= |s| && s[|s| - |suffix|..] == suffix
  }

  /** The last `|suffix|` characters of `name` match `suffix` when case is ignored. */
  ghost predicate EndsWithIgnoringCase(name: string, suffix: string) {
    |suffix| <= |name| &&
    forall k :: 0 <= k < |suffix| ==> LowerChar(name[|name| - |suffix| + k]) == suffix[k]
  }

  /** `f.lower().endswith(('.jpg', '.jpeg'))` */
  function IsJpegName(name: string): (r: bool)
    ensures r <==> EndsWithIgnoringCase(name, ".jpg") || EndsWithIgnoringCase(name, ".jpeg")
  {
    var lower := Lower(name);
    assert forall suffix: string :: EndsWith(lower, suffix) <==> EndsWithIgnoringCase(name, suffix) by {
      forall suffix: string
        ensures EndsWith(lower, suffix) <==> EndsWithIgnoringCase(name, suffix)
      {
        if |suffix| <= |name| {
          var tail := lower[|lower| - |suffix|..];
          assert forall k :: 0 <= k < |suffix| ==> tail[k] == lower[|name| - |suffix| + k];
        }
      }
    }
    EndsWith(lower, ".jpg") || EndsWith(lower, ".jpeg")
  }

  /** Upper- and mixed-case extensions are selected, and so is a bare extension. */
  lemma IsJpegNameAccepts()
    ensures IsJpegName("IMG_0001.JPG") && IsJpegName("scan.JpEg") && IsJpegName(".jpg")
  {
    assert EndsWithIgnoringCase("IMG_0001.JPG", ".jpg");
    assert EndsWithIgnoringCase("scan.JpEg", ".jpeg");
    assert EndsWithIgnoringCase(".jpg", ".jpg");
  }

  /** Other extensions, a trailing extension after `.jpg`, and a name without the dot are not selected. */
  lemma IsJpegNameRejects()
    ensures !IsJpegName("photo.png") && !IsJpegName("photo.jpg.bak") && !IsJpegName("jpg")
  {
    assert LowerChar("photo.png"[6]) != ".jpg"[1];
    assert LowerChar("photo.png"[4]) != ".jpeg"[0];
    assert LowerChar("photo.jpg.bak"[10]) != ".jpg"[1];
    assert LowerChar("photo.jpg.bak"[8]) != ".jpeg"[0];
  }

  /** The list comprehension over the listing: the JPEG-named entries, in listing order. */
  function JpegEntries(listing: seq<DirEntry>): (files: seq<DirEntry>)
    ensures |files| <= |listing|
    ensures forall e :: e in files ==> e in listing && IsJpegName(e.name)
    ensures forall e :: e in listing && IsJpegName(e.name) ==> e in files
    decreases |listing|
  {
    if listing == [] then []
    else
      var rest := JpegEntries(listing[1..]);
      if IsJpegName(listing[0].name) then [listing[0]] + rest else rest
  }

  /** The filter works entry by entry, so it keeps the listing's order: filtering a concatenation concatenates the filtered parts. */
  lemma {:induction false} JpegEntriesAppend(a: seq<DirEntry>, b: seq<DirEntry>)
    ensures JpegEntries(a + b) == JpegEntries(a) + JpegEntries(b)
    decreases |a|
  {
    if a == [] {
      assert a + b == b;
    } else {
      assert (a + b)[1..] == a[1..] + b;
      JpegEntriesAppend(a[1..], b);
    }
  }
}
