/**
 * `encode_frames_to_json`: pick the `.jpg` images of a frame folder, keep the
 * first `max_frames` of them in order, turn each into an embedded asset and
 * hand the list to the document assembler at 24 frames per second.
 */
module FrameAssets {
  import opened Wrappers
  import opened PyText
  import opened NameOrder
  import opened LottieDocument
  import opened FrameNames

  /** The frame rate every produced document declares, whatever the video's own rate. */
  const DocumentFrameRate: int := 24

  /** Why no document is produced: `selected_files[0]` raises `IndexError` when nothing was selected. */
  datatype EncodeError = NoFrameSelected

  /** `name.endswith(".jpg")`, case-sensitive. */
  predicate IsJpgName(name: string) {
    |name| >= 4 && name[|name| - 4..] == ".jpg"
  }

  /** `[f for f in listing if f.endswith(".jpg")]`. */
  function JpgNames(listing: seq<string>): (r: seq<string>)
    ensures forall x :: multiset(r)[x] == if IsJpgName(x) then multiset(listing)[x] else 0
  {
    if listing == [] then []
    else
      assert listing == [listing[0]] + listing[1..];
      (if IsJpgName(listing[0]) then [listing[0]] else []) + JpgNames(listing[1..])
  }

  /** How many items Python's `files[:stop]` keeps of `len`; a negative `stop` counts from the end. */
  function SliceStop(len: nat, stop: int): (n: nat)
    ensures n <= len
  {
    if stop >= 0 then (if stop < len then stop else len)
    else if len + stop > 0 then len + stop
    else 0
  }

  /** `sorted(jpg names)[:max_frames]`, sorted by `o`. */
  function SelectedFiles(o: Order, listing: seq<string>, maxFrames: int): seq<string> {
    var files := Sort(o, JpgNames(listing));
    files[..SliceStop(|files|, maxFrames)]
  }

  /** A prefix of a sorted list is sorted, and none of its items is above any item left out. */
  lemma SortedPrefix(o: Order, files: seq<string>, n: nat)
    requires Sorted(o, files) && n <= |files|
    ensures Sorted(o, files[..n])
    ensures multiset(files) == multiset(files[..n]) + multiset(files[n..])
    ensures forall i, x :: 0 <= i < n && x in multiset(files[n..]) ==> Le(o, files[i], x)
  {
    assert files == files[..n] + files[n..];
    forall i, x | 0 <= i < n && x in multiset(files[n..]) ensures Le(o, files[i], x) {
      var j :| 0 <= j < |files[n..]| && files[n..][j] == x;
      assert files[n + j] == x;
    }
  }

  /**
   * The selection is the `max_frames` smallest `.jpg` names of the folder in
   * order: every `.jpg` name left out is `>=` every one kept.
   */
  lemma SelectionOrdered(o: Order, listing: seq<string>, maxFrames: int)
    ensures var sel, jpgs := SelectedFiles(o, listing, maxFrames), JpgNames(listing);
      && Sorted(o, sel)
      && multiset(sel) <= multiset(jpgs)
      && (forall i, x :: 0 <= i < |sel| && x in multiset(jpgs) - multiset(sel) ==> Le(o, sel[i], x))
  {
    var jpgs := JpgNames(listing);
    var files := Sort(o, jpgs);
    SortSortedPermutation(o, jpgs);
    var n := SliceStop(|files|, maxFrames);
    SortedPrefix(o, files, n);
    var sel, rest := files[..n], files[n..];
    assert SelectedFiles(o, listing, maxFrames) == sel;
    assert multiset(jpgs) == multiset(sel) + multiset(rest);
    assert multiset(jpgs) - multiset(sel) == multiset(rest);
  }

  /** Only `.jpg` entries of the folder are ever selected. */
  lemma SelectionOnlyJpgs(o: Order, listing: seq<string>, maxFrames: int)
    ensures var sel := SelectedFiles(o, listing, maxFrames);
      forall i :: 0 <= i < |sel| ==> IsJpgName(sel[i]) && sel[i] in listing
  {
    var jpgs := JpgNames(listing);
    var sel := SelectedFiles(o, listing, maxFrames);
    SelectionOrdered(o, listing, maxFrames);
    forall i | 0 <= i < |sel| ensures IsJpgName(sel[i]) && sel[i] in listing {
      assert sel[i] in multiset(sel);
      assert multiset(jpgs)[sel[i]] > 0;
    }
  }

  /** `min(#jpg, max_frames)` images are selected; a negative `max_frames` drops that many from the end. */
  lemma SelectionCount(o: Order, listing: seq<string>, maxFrames: int)
    ensures var sel, jpgs := SelectedFiles(o, listing, maxFrames), JpgNames(listing);
      |sel| == if maxFrames >= 0 then (if maxFrames < |jpgs| then maxFrames else |jpgs|)
               else (if |jpgs| + maxFrames > 0 then |jpgs| + maxFrames else 0)
  {
  }

  /** No document exactly when the folder has no `.jpg` image, `max_frames == 0`, or a negative `max_frames` drops them all. */
  lemma SelectionEmptyIff(o: Order, listing: seq<string>, maxFrames: int)
    ensures SelectedFiles(o, listing, maxFrames) == [] <==>
      (forall x :: x in listing ==> !IsJpgName(x)) || maxFrames == 0 || |JpgNames(listing)| + maxFrames <= 0
  {
    var jpgs := JpgNames(listing);
    SelectionCount(o, listing, maxFrames);
    if jpgs == [] {
      forall x | x in listing ensures !IsJpgName(x) {
        assert multiset(jpgs)[x] == 0;
      }
    } else {
      assert jpgs[0] in multiset(jpgs);
    }
  }

  /** `f"fr_{idx}"`. */
  function FrameId(idx: nat): string {
    "fr_" + NatToString(idx)
  }

  lemma FrameIdsDistinct(i: nat, j: nat)
    requires i != j
    ensures FrameId(i) != FrameId(j)
  {
    NatToStringInjective(i, j);
    assert FrameId(i)[3..] == NatToString(i) && FrameId(j)[3..] == NatToString(j);
  }

  /** `f"data:image/{format};base64,"`. */
  function DataUriPrefix(format: string): string {
    "data:image/" + format + ";base64,"
  }

  /** Asset `idx`: id `fr_<idx>`, size `w` by `h`, no folder, the data URI of `payload`, embedded. */
  ghost predicate IsFrameAsset(a: Asset, idx: nat, w: int, h: int, format: string, payload: string) {
    a == Asset(id := FrameId(idx), w := w, h := h, u := "", p := DataUriPrefix(format) + payload, e := 1)
  }

  /**
   * `encode_frames_to_json(frames_folder, max_frames, quality, format)`.
   * `listing` is `os.listdir(frames_folder)`; `frameSize(name)` is the
   * size PIL reports for that image; `encodeImage(name, quality, format)` is
   * the base64 text of the image re-encoded by `optimize_image`. Images are
   * ordered by `o`: `Lexicographic` is `sorted()` as the source calls it,
   * `LengthFirst` the order that keeps the extractor's names in extraction
   * order from 10000 images on (SortLengthFirstExtracted).
   */
  method EncodeFramesToJson(
    o: Order, listing: seq<string>, maxFrames: int, quality: int, format: string,
    frameSize: string -> (int, int), encodeImage: (string, int, string) -> string)
    returns (r: Result<Document, EncodeError>)
    ensures r.Failure? <==> SelectedFiles(o, listing, maxFrames) == []
    ensures r.Success? ==>
      var selected := SelectedFiles(o, listing, maxFrames);
      var (w, h) := frameSize(selected[0]);
      var doc := r.value;
      && |doc.assets| == |selected|
      && (forall idx :: 0 <= idx < |selected| ==>
            IsFrameAsset(doc.assets[idx], idx, w, h, format, encodeImage(selected[idx], quality, format)))
      && (forall i, j :: 0 <= i < j < |doc.assets| ==> doc.assets[i].id != doc.assets[j].id)
      && Assembles(doc, doc.assets, w, h, DocumentFrameRate)
  {
    var files := Sort(o, JpgNames(listing));
    var selectedFiles := files[..SliceStop(|files|, maxFrames)];
    if |selectedFiles| == 0 {
      return Failure(NoFrameSelected);
    }
    var (w, h) := frameSize(selectedFiles[0]);
    var frames: seq<Asset> := [];
    for idx := 0 to |selectedFiles|
      invariant |frames| == idx
      invariant forall k :: 0 <= k < idx ==>
        IsFrameAsset(frames[k], k, w, h, format, encodeImage(selectedFiles[k], quality, format))
    {
      var encoded := encodeImage(selectedFiles[idx], quality, format);
      frames := frames + [Asset(id := FrameId(idx), w := w, h := h, u := "", p := DataUriPrefix(format) + encoded, e := 1)];
    }
    forall i, j | 0 <= i < j < |frames| ensures frames[i].id != frames[j].id {
      FrameIdsDistinct(i, j);
    }
    var doc := CreateLottieJson(frames, w, h, DocumentFrameRate);
    r := Success(doc);
  }

  /** Every name the extractor writes passes the `.jpg` filter. */
  lemma ExtractedNameIsJpg(n: nat)
    ensures IsJpgName(ExtractedName(n))
  {
    var name := ExtractedName(n);
    assert name == ("frame_" + Pad4(n)) + ".jpg";
    assert name[|name| - 4..] == ".jpg";
  }

  lemma ExtractedNamesAreJpgs(k: nat, x: string)
    requires x in ExtractedNames(k)
    ensures IsJpgName(x)
  {
    var j :| 0 <= j < k && ExtractedNames(k)[j] == x;
    ExtractedNameIsJpg(j + 1);
  }

  /** The `.jpg` filter keeps the whole of a folder the extractor filled. */
  lemma JpgNamesOfExtracted(k: nat, listing: seq<string>)
    requires multiset(listing) == multiset(ExtractedNames(k))
    ensures multiset(JpgNames(listing)) == multiset(listing)
  {
    var names := ExtractedNames(k);
    forall x ensures multiset(JpgNames(listing))[x] == multiset(listing)[x] {
      if x in listing {
        assert x in multiset(names);
        ExtractedNamesAreJpgs(k, x);
      }
    }
    assert multiset(JpgNames(listing)) == multiset(listing);
  }

  /**
   * With 10000 extracted images and `max_frames = 5001`, `sorted()` puts
   * `frame_10000.jpg` into asset 1000, between frames 1000 and 1001.
   */
  lemma PythonSelectionOf10000(listing: seq<string>)
    requires multiset(listing) == multiset(ExtractedNames(10000))
    ensures var sel := SelectedFiles(Lexicographic, listing, 5001);
      && |sel| == 5001
      && sel[999] == ExtractedName(1000)
      && sel[1000] == ExtractedName(10000)
      && sel[1001] == ExtractedName(1001)
  {
    JpgNamesOfExtracted(10000, listing);
    SortPythonExtracted10000(JpgNames(listing));
    var e := PythonOrder10000();
    assert e[999] == ExtractedName(FrameAtTextPosition(999));
    assert e[1000] == ExtractedName(FrameAtTextPosition(1000));
    assert e[1001] == ExtractedName(FrameAtTextPosition(1001));
  }

  /** Ordered length-first, the same selection is the first 5001 frames in extraction order. */
  lemma LengthFirstSelectionOf10000(listing: seq<string>)
    requires multiset(listing) == multiset(ExtractedNames(10000))
    ensures SelectedFiles(LengthFirst, listing, 5001) == ExtractedNames(5001)
  {
    JpgNamesOfExtracted(10000, listing);
    SortLengthFirstExtracted(10000, JpgNames(listing));
    ExtractedNamesPrefix(10000, 5001);
  }
}
