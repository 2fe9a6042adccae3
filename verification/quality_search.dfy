/** The save-and-measure loops of the image scripts. The output file is tracked as the encoding
    it currently holds: which picture was saved, at which quality. The loop of
    image_resizer_free.py saves the resized picture at 95, 90, ... until the file fits or the
    quality reaches 10. The loop of the two imageMarker scripts first rewrites the output at
    quality 95 on every round, so the size it measures is always the quality-95 size. */
module QualitySearch {
  import opened Common
  import opened Geometry

  const InitialQuality: int := 95
  const Step: int := 5
  const MinQuality: int := 10

  /** A picture a script can save: the input as rendered by a resize plan, or the picture read
      back from an encoding on disk (`Image.open(self.output_path)`). */
  datatype Picture = Rendered(input: string, render: Render) | Reopened(file: Encoding)

  /** What `img.save(path, quality=q)` leaves in the file. */
  datatype Encoding = Encoding(picture: Picture, quality: int)

  /** The oracles of the image scripts: the dimensions `Image.open` reports for a path (`None`
      when it cannot open the file) and the size of the file an encoding produces. */
  datatype ImageEnv = ImageEnv(open: string -> Option<(Pixels, Pixels)>, sizeOf: Encoding -> int)

  /** `file_size <= self.target_size_bytes`. */
  predicate Fits(size: int, targetBytes: real)
  {
    size as real <= targetBytes
  }

  /** How a search ends: the reported quality, the last measured size, what the output file
      holds, every save in order, and the value of `quality` at each size check. */
  datatype Search = Search(quality: int, fileSize: int, onDisk: Encoding, saves: seq<Encoding>, checked: seq<int>)

  /** The image_resizer_free.py loop from quality `q` on: save, measure, stop when the file fits
      or the quality is at most 10, else lower it by 5. */
  function ResizeOnce(pic: Picture, sizeOf: Encoding -> int, targetBytes: real, q: int): (s: Search)
    ensures |s.checked| >= 1 && |s.saves| == |s.checked|
    ensures s.quality <= q && s.onDisk == Encoding(pic, s.quality) && s.fileSize == sizeOf(s.onDisk)
    decreases q
  {
    var e := Encoding(pic, q);
    if Fits(sizeOf(e), targetBytes) || q <= MinQuality then Search(q, sizeOf(e), e, [e], [q])
    else
      var rest := ResizeOnce(pic, sizeOf, targetBytes, q - Step);
      rest.(saves := [e] + rest.saves, checked := [q] + rest.checked)
  }

  /** The imageMarker loop from quality `q` on: `resize_image()` rewrites the output at 95, the
      size is measured, and when the loop goes on the quality is lowered and the file just
      written is reopened and saved at the new quality, only to be overwritten next round. */
  function ReResize(pic: Picture, sizeOf: Encoding -> int, targetBytes: real, q: int): (s: Search)
    ensures |s.checked| >= 1
    ensures s.quality <= q && s.onDisk == Encoding(pic, InitialQuality) && s.fileSize == sizeOf(s.onDisk)
    decreases q
  {
    var e95 := Encoding(pic, InitialQuality);
    if Fits(sizeOf(e95), targetBytes) || q <= MinQuality then Search(q, sizeOf(e95), e95, [e95], [q])
    else
      var rest := ReResize(pic, sizeOf, targetBytes, q - Step);
      rest.(saves := [e95, Encoding(Reopened(e95), q - Step)] + rest.saves, checked := [q] + rest.checked)
  }

  /** A quality the loops can reach from 95: a multiple of 5 between 10 and 95. */
  predicate OnLadder(q: int)
  {
    MinQuality <= q <= InitialQuality && q % Step == 0
  }

  /** One round of the single-resize loop that does not stop: the rest of the search, with this
      round's save and check in front. */
  lemma ResizeOnceUnfold(pic: Picture, sizeOf: Encoding -> int, targetBytes: real, q: int)
    requires !(Fits(sizeOf(Encoding(pic, q)), targetBytes) || q <= MinQuality)
    ensures var s := ResizeOnce(pic, sizeOf, targetBytes, q);
            var rest := ResizeOnce(pic, sizeOf, targetBytes, q - Step);
            && s.quality == rest.quality && s.fileSize == rest.fileSize && s.onDisk == rest.onDisk
            && s.saves == [Encoding(pic, q)] + rest.saves && s.checked == [q] + rest.checked
  {
  }

  /** The single-resize loop tries `q, q - 5, ...` in order, each a save of the same picture,
      and the file on disk is the save at the reported quality. */
  lemma {:induction false} ResizeOnceShape(pic: Picture, sizeOf: Encoding -> int, targetBytes: real, q: int)
    requires OnLadder(q)
    ensures var s := ResizeOnce(pic, sizeOf, targetBytes, q);
            && 1 <= |s.checked| <= (q - MinQuality) / Step + 1
            && |s.saves| == |s.checked|
            && (forall k :: 0 <= k < |s.checked| ==> s.checked[k] == q - Step * k)
            && (forall k :: 0 <= k < |s.saves| ==> s.saves[k] == Encoding(pic, s.checked[k]))
            && s.quality == s.checked[|s.checked| - 1]
            && OnLadder(s.quality) && s.quality <= q
            && s.onDisk == Encoding(pic, s.quality)
            && s.fileSize == sizeOf(s.onDisk)
    decreases q
  {
    if !(Fits(sizeOf(Encoding(pic, q)), targetBytes) || q <= MinQuality) {
      ResizeOnceShape(pic, sizeOf, targetBytes, q - Step);
      ResizeOnceUnfold(pic, sizeOf, targetBytes, q);
      var rest := ResizeOnce(pic, sizeOf, targetBytes, q - Step);
      var s := ResizeOnce(pic, sizeOf, targetBytes, q);
      forall k | 1 <= k < |s.checked| ensures s.checked[k] == q - Step * k {
        assert s.checked[k] == rest.checked[k - 1];
      }
      forall k | 1 <= k < |s.saves| ensures s.saves[k] == Encoding(pic, s.checked[k]) {
        assert s.saves[k] == rest.saves[k - 1] && s.checked[k] == rest.checked[k - 1];
      }
    }
  }

  /** The single-resize loop stops at the first quality whose file fits, or at 10: every
      quality it passed over on the way down was too big. */
  lemma {:induction false} ResizeOnceStops(pic: Picture, sizeOf: Encoding -> int, targetBytes: real, q: int)
    requires OnLadder(q)
    ensures var s := ResizeOnce(pic, sizeOf, targetBytes, q);
            && (forall p :: s.quality < p <= q && p % Step == 0 ==> !Fits(sizeOf(Encoding(pic, p)), targetBytes))
            && (s.quality > MinQuality ==> Fits(s.fileSize, targetBytes))
    decreases q
  {
    if !(Fits(sizeOf(Encoding(pic, q)), targetBytes) || q <= MinQuality) {
      ResizeOnceStops(pic, sizeOf, targetBytes, q - Step);
      ResizeOnceUnfold(pic, sizeOf, targetBytes, q);
      ResizeOnceShape(pic, sizeOf, targetBytes, q - Step);
    }
  }

  /** Both halves together: the tries in order, the stop at the first fit or at 10, and what
      is on disk at the end. */
  lemma ResizeOnceFacts(pic: Picture, sizeOf: Encoding -> int, targetBytes: real, q: int)
    requires OnLadder(q)
    ensures var s := ResizeOnce(pic, sizeOf, targetBytes, q);
            && 1 <= |s.checked| <= (q - MinQuality) / Step + 1
            && |s.saves| == |s.checked|
            && (forall k :: 0 <= k < |s.checked| ==> s.checked[k] == q - Step * k)
            && (forall k :: 0 <= k < |s.saves| ==> s.saves[k] == Encoding(pic, s.checked[k]))
            && (forall k :: 0 <= k < |s.checked| - 1 ==> !Fits(sizeOf(Encoding(pic, s.checked[k])), targetBytes))
            && (forall p :: s.quality < p <= q && p % Step == 0 ==> !Fits(sizeOf(Encoding(pic, p)), targetBytes))
            && s.quality == s.checked[|s.checked| - 1]
            && OnLadder(s.quality)
            && s.onDisk == Encoding(pic, s.quality)
            && s.fileSize == sizeOf(s.onDisk)
            && (s.quality > MinQuality ==> Fits(s.fileSize, targetBytes))
  {
    ResizeOnceShape(pic, sizeOf, targetBytes, q);
    ResizeOnceStops(pic, sizeOf, targetBytes, q);
    var s := ResizeOnce(pic, sizeOf, targetBytes, q);
    forall k | 0 <= k < |s.checked| - 1 ensures !Fits(sizeOf(Encoding(pic, s.checked[k])), targetBytes) {
      assert s.checked[k] == q - Step * k;
    }
  }

  /** From 95 the single-resize loop checks at most 18 qualities. */
  lemma ResizeOnceAtMost18(pic: Picture, sizeOf: Encoding -> int, targetBytes: real)
    ensures 1 <= |ResizeOnce(pic, sizeOf, targetBytes, InitialQuality).checked| <= 18
  {
    ResizeOnceFacts(pic, sizeOf, targetBytes, InitialQuality);
  }

  /** One round of the re-resize loop that does not stop: the rest of the search, with this
      round's two saves (95, then the reopened file at the lowered quality) and its check in
      front. */
  lemma ReResizeUnfold(pic: Picture, sizeOf: Encoding -> int, targetBytes: real, q: int)
    requires !(Fits(sizeOf(Encoding(pic, InitialQuality)), targetBytes) || q <= MinQuality)
    ensures var s := ReResize(pic, sizeOf, targetBytes, q);
            var rest := ReResize(pic, sizeOf, targetBytes, q - Step);
            var e95 := Encoding(pic, InitialQuality);
            && s.quality == rest.quality && s.fileSize == rest.fileSize && s.onDisk == rest.onDisk
            && s.saves == [e95, Encoding(Reopened(e95), q - Step)] + rest.saves
            && s.checked == [q] + rest.checked
  {
  }

  /** The re-resize loop measures only quality-95 saves and leaves the quality-95 save on disk:
      if that fits it stops at once, otherwise it walks all the way down and reports 10, one
      check per quality on the way. Every lower-quality save is overwritten by the next round's
      quality-95 save. */
  lemma {:induction false} ReResizeFacts(pic: Picture, sizeOf: Encoding -> int, targetBytes: real, q: int)
    requires OnLadder(q)
    ensures var s := ReResize(pic, sizeOf, targetBytes, q);
            var e95 := Encoding(pic, InitialQuality);
            && s.onDisk == e95
            && s.fileSize == sizeOf(e95)
            && s.saves[|s.saves| - 1] == e95
            && (Fits(sizeOf(e95), targetBytes) ==> s.checked == [q] && s.quality == q)
            && (!Fits(sizeOf(e95), targetBytes) ==>
                  |s.checked| == (q - MinQuality) / Step + 1 && s.quality == MinQuality)
            && |s.saves| == 2 * |s.checked| - 1
            && (forall k :: 0 <= k < |s.checked| ==> s.saves[2 * k] == e95)
    decreases q
  {
    var e95 := Encoding(pic, InitialQuality);
    if !(Fits(sizeOf(e95), targetBytes) || q <= MinQuality) {
      ReResizeFacts(pic, sizeOf, targetBytes, q - Step);
      var rest := ReResize(pic, sizeOf, targetBytes, q - Step);
      var s := ReResize(pic, sizeOf, targetBytes, q);
      assert s.saves == [e95, Encoding(Reopened(e95), q - Step)] + rest.saves;
      forall k | 1 <= k < |s.checked| ensures s.saves[2 * k] == e95 {
        assert s.saves[2 * k] == rest.saves[2 * (k - 1)];
      }
    }
  }

  /** From 95 the re-resize loop reports 95 (one check) or 10 (eighteen checks), nothing else. */
  lemma ReResizeTwoOutcomes(pic: Picture, sizeOf: Encoding -> int, targetBytes: real)
    ensures var s := ReResize(pic, sizeOf, targetBytes, InitialQuality);
            (s.quality == InitialQuality && |s.checked| == 1) || (s.quality == MinQuality && |s.checked| == 18)
  {
    ReResizeFacts(pic, sizeOf, targetBytes, InitialQuality);
  }

  /** The re-resize loop never gets a file within budget that was not within budget at
      quality 95, whatever the lower qualities would give. */
  lemma ReResizeNeverShrinks(pic: Picture, sizeOf: Encoding -> int, targetBytes: real)
    requires !Fits(sizeOf(Encoding(pic, InitialQuality)), targetBytes)
    ensures !Fits(ReResize(pic, sizeOf, targetBytes, InitialQuality).fileSize, targetBytes)
    ensures ReResize(pic, sizeOf, targetBytes, InitialQuality).quality == MinQuality
  {
    ReResizeFacts(pic, sizeOf, targetBytes, InitialQuality);
  }

  /** The single-resize loop ends within budget whenever some quality it may try fits. */
  lemma ResizeOnceFindsFit(pic: Picture, sizeOf: Encoding -> int, targetBytes: real, j: int)
    requires OnLadder(j) && Fits(sizeOf(Encoding(pic, j)), targetBytes)
    ensures Fits(ResizeOnce(pic, sizeOf, targetBytes, InitialQuality).fileSize, targetBytes)
    ensures ResizeOnce(pic, sizeOf, targetBytes, InitialQuality).quality >= j
  {
    ResizeOnceFacts(pic, sizeOf, targetBytes, InitialQuality);
  }

  /** Sizes of a picture whose quality-95 save is 2000 bytes and every other save 1000 bytes. */
  function SizesOfExample(e: Encoding): int
  {
    if e.quality == 95 then 2000 else 1000
  }

  /** Against a budget of 1500 bytes and the sizes above, the re-resize loop reports quality 10
      and leaves the 2000-byte file, while the single-resize loop stops at quality 90 with a
      1000-byte file. */
  lemma LegacyLoopMisreports(pic: Picture)
    ensures var legacy := ReResize(pic, SizesOfExample, 1500.0, InitialQuality);
            && legacy.quality == 10 && legacy.fileSize == 2000 && legacy.onDisk.quality == 95
            && !Fits(legacy.fileSize, 1500.0)
    ensures var fixed := ResizeOnce(pic, SizesOfExample, 1500.0, InitialQuality);
            && fixed.quality == 90 && fixed.fileSize == 1000 && fixed.onDisk == Encoding(pic, 90)
            && Fits(fixed.fileSize, 1500.0)
  {
    ReResizeNeverShrinks(pic, SizesOfExample, 1500.0);
    ReResizeFacts(pic, SizesOfExample, 1500.0, InitialQuality);
    assert ResizeOnce(pic, SizesOfExample, 1500.0, 90).quality == 90;
  }

  /** A search with `saves` and `checked` already behind it: what the whole loop reports once
      the rounds still to come have run. */
  function Resume(saves: seq<Encoding>, checked: seq<int>, rest: Search): Search
  {
    rest.(saves := saves + rest.saves, checked := checked + rest.checked)
  }

  /** A round of the single-resize loop that does not stop moves its save and its check
      behind. */
  lemma ResizeOnceStep(pic: Picture, sizeOf: Encoding -> int, targetBytes: real, q: int,
                       saves: seq<Encoding>, checked: seq<int>)
    requires !(Fits(sizeOf(Encoding(pic, q)), targetBytes) || q <= MinQuality)
    ensures Resume(saves, checked, ResizeOnce(pic, sizeOf, targetBytes, q))
            == Resume(saves + [Encoding(pic, q)], checked + [q], ResizeOnce(pic, sizeOf, targetBytes, q - Step))
  {
    var rest := ResizeOnce(pic, sizeOf, targetBytes, q - Step);
    ResizeOnceUnfold(pic, sizeOf, targetBytes, q);
    assert saves + ([Encoding(pic, q)] + rest.saves) == (saves + [Encoding(pic, q)]) + rest.saves;
    assert checked + ([q] + rest.checked) == (checked + [q]) + rest.checked;
  }

  /** A round of the re-resize loop that does not stop moves its two saves and its check
      behind. */
  lemma ReResizeStep(pic: Picture, sizeOf: Encoding -> int, targetBytes: real, q: int,
                     saves: seq<Encoding>, checked: seq<int>)
    requires !(Fits(sizeOf(Encoding(pic, InitialQuality)), targetBytes) || q <= MinQuality)
    ensures var e95 := Encoding(pic, InitialQuality);
            Resume(saves, checked, ReResize(pic, sizeOf, targetBytes, q))
            == Resume(saves + [e95] + [Encoding(Reopened(e95), q - Step)], checked + [q],
                      ReResize(pic, sizeOf, targetBytes, q - Step))
  {
    var e95 := Encoding(pic, InitialQuality);
    var round := [e95, Encoding(Reopened(e95), q - Step)];
    var rest := ReResize(pic, sizeOf, targetBytes, q - Step);
    ReResizeUnfold(pic, sizeOf, targetBytes, q);
    assert saves + [e95] + [Encoding(Reopened(e95), q - Step)] == saves + round;
    assert saves + (round + rest.saves) == (saves + round) + rest.saves;
    assert checked + ([q] + rest.checked) == (checked + [q]) + rest.checked;
  }

  /** `compress_image` of image_resizer_free.py: the `while True` loop over a picture resized
      once beforehand. */
  method ResizeOnceSearch(pic: Picture, sizeOf: Encoding -> int, targetBytes: real) returns (search: Search)
    ensures search == ResizeOnce(pic, sizeOf, targetBytes, InitialQuality)
  {
    var quality, fileSize, onDisk := InitialQuality, 0, Encoding(pic, InitialQuality);
    var saves: seq<Encoding>, checked: seq<int> := [], [];
    ghost var whole := ResizeOnce(pic, sizeOf, targetBytes, InitialQuality);
    assert Resume(saves, checked, whole) == whole;
    while true
      invariant OnLadder(quality)
      invariant Resume(saves, checked, ResizeOnce(pic, sizeOf, targetBytes, quality)) == whole
      decreases quality
    {
      ghost var savesBefore, checkedBefore := saves, checked;
      onDisk := Encoding(pic, quality);
      saves := saves + [onDisk];
      fileSize := sizeOf(onDisk);
      checked := checked + [quality];
      if Fits(fileSize, targetBytes) || quality <= MinQuality {
        break;
      }
      ResizeOnceStep(pic, sizeOf, targetBytes, quality, savesBefore, checkedBefore);
      quality := quality - Step;
    }
    search := Search(quality, fileSize, onDisk, saves, checked);
  }

  /** `compress_image` of the imageMarker scripts: every round starts with `resize_image()`,
      which rewrites the output at quality 95; when the loop goes on, the file just written is
      reopened and saved at the lowered quality. */
  method ReResizeSearch(pic: Picture, sizeOf: Encoding -> int, targetBytes: real) returns (search: Search)
    ensures search == ReResize(pic, sizeOf, targetBytes, InitialQuality)
  {
    var quality, fileSize, onDisk := InitialQuality, 0, Encoding(pic, InitialQuality);
    var saves: seq<Encoding>, checked: seq<int> := [], [];
    ghost var whole := ReResize(pic, sizeOf, targetBytes, InitialQuality);
    assert Resume(saves, checked, whole) == whole;
    while true
      invariant OnLadder(quality)
      invariant Resume(saves, checked, ReResize(pic, sizeOf, targetBytes, quality)) == whole
      decreases quality
    {
      ghost var savesBefore, checkedBefore := saves, checked;
      onDisk := Encoding(pic, InitialQuality);
      saves := saves + [onDisk];
      fileSize := sizeOf(onDisk);
      checked := checked + [quality];
      if Fits(fileSize, targetBytes) || quality <= MinQuality {
        break;
      }
      ReResizeStep(pic, sizeOf, targetBytes, quality, savesBefore, checkedBefore);
      quality := quality - Step;
      var img := Reopened(onDisk);
      onDisk := Encoding(img, quality);
      saves := saves + [onDisk];
    }
    search := Search(quality, fileSize, onDisk, saves, checked);
  }
}
