/** image_resizer_free.py: every image of an input directory is fitted once into the bounding
    box, then saved into the output directory under its own name at falling qualities until the
    file is within the byte budget. */
module ImageResizerFree {
  import opened Common
  import opened Text
  import opened Paths
  import opened Geometry
  import opened QualitySearch
  import BatchLoop

  /** The extensions handled, compared with the lower-cased name. */
  const ImageExtensions: seq<string> := [".png", ".jpg", ".jpeg"]

  /** The fields `__init__` sets once: the directories, the byte budget and the bounding box. */
  datatype Resizer = Resizer(inputDir: string, outputDir: string, targetBytes: real, maxWidth: Pixels, maxHeight: Pixels)

  /** `ImageResizer.__init__`. */
  function New(inputDir: string, outputDir: string, targetMb: real, maxWidth: Pixels, maxHeight: Pixels): (r: Resizer)
    ensures r.inputDir == inputDir && r.outputDir == outputDir
    ensures r.targetBytes == targetMb * 1048576.0
    ensures r.maxWidth == maxWidth && r.maxHeight == maxHeight
  {
    Resizer(inputDir, outputDir, TargetBytes(targetMb), maxWidth, maxHeight)
  }

  /** What the directory walk sees: the regular files, and the entries `os.listdir` gives in its
      order. */
  datatype Dir = Dir(files: set<string>, listing: seq<string>)

  /** `resize_image(img_path)`: the opened image, fitted into the box when it does not lie
      within it. */
  function ResizeImage(r: Resizer, env: ImageEnv, imgPath: string): (pic: Result<Picture, Error>)
    ensures pic.Failure? <==> env.open(imgPath).None?
    ensures pic.Failure? ==> pic.error == DecodeError
    ensures pic.Success? ==>
              var (w, h) := env.open(imgPath).value;
              && pic.value.Rendered? && pic.value.input == imgPath
              && (pic.value.render.AsIs? <==> w <= r.maxWidth && h <= r.maxHeight)
              && RenderSize(w, h, pic.value.render) == FreeFit(w, h, r.maxWidth, r.maxHeight)
  {
    match env.open(imgPath)
    case None => Failure(DecodeError)
    case Some((w, h)) => Success(Rendered(imgPath, FreeFitRender(w, h, r.maxWidth, r.maxHeight)))
  }

  /** `os.path.join(self.output_dir, os.path.basename(img_path))`. */
  function OutputFor(r: Resizer, imgPath: string): string
  {
    Join(r.outputDir, Basename(imgPath))
  }

  /** A directory entry is written to the output directory under its own name. */
  lemma OutputKeepsName(r: Resizer, name: string)
    requires Sep !in name
    ensures OutputFor(r, Join(r.inputDir, name)) == Join(r.outputDir, name)
    ensures Basename(OutputFor(r, Join(r.inputDir, name))) == name
  {
    BasenameJoin(r.inputDir, name);
    BasenameJoin(r.outputDir, name);
  }

  /** What `compress_image` leaves: the output path and how the quality search ended there. */
  datatype Written = Written(path: string, search: Search)

  /** `compress_image(img, img_path)`: the quality loop over the picture resized once. */
  method CompressImage(r: Resizer, env: ImageEnv, pic: Picture, imgPath: string) returns (written: Written)
    ensures written == Written(OutputFor(r, imgPath), ResizeOnce(pic, env.sizeOf, r.targetBytes, InitialQuality))
  {
    var fileName := Basename(imgPath);
    var outputPath := Join(r.outputDir, fileName);
    var search := ResizeOnceSearch(pic, env.sizeOf, r.targetBytes);
    written := Written(outputPath, search);
  }

  /** `filename.lower().endswith(('.png', '.jpg', '.jpeg'))`. */
  predicate IsImageName(name: string)
  {
    EndsWithAny(Lower(name), ImageExtensions)
  }

  /** The extension test ignores case: it looks at the last four or five characters, lower-cased. */
  lemma IsImageNameCaseInsensitive(name: string)
    ensures IsImageName(name) <==>
              (|name| >= 4 && (Lower(name[|name| - 4..]) == ".png" || Lower(name[|name| - 4..]) == ".jpg")) ||
              (|name| >= 5 && Lower(name[|name| - 5..]) == ".jpeg")
  {
    EndsWithAnyOfThree(Lower(name), ".png", ".jpg", ".jpeg");
    if |name| >= 4 {
      EndsWithLower(name, ".png");
      EndsWithLower(name, ".jpg");
    }
    if |name| >= 5 {
      EndsWithLower(name, ".jpeg");
    }
  }

  /** One processed entry: its name, and where its output went or the exception it raised. */
  datatype Item = Item(name: string, outcome: Result<Written, Error>)

  /** Whether the walk picks the entry: a regular file with an image extension. */
  predicate Picked(r: Resizer, dir: Dir, name: string)
  {
    Join(r.inputDir, name) in dir.files && IsImageName(name)
  }

  /** The item the walk makes of a picked entry: resize once, then search the quality. */
  function ItemFor(r: Resizer, env: ImageEnv, name: string): Item
  {
    var filePath := Join(r.inputDir, name);
    match ResizeImage(r, env, filePath)
    case Failure(e) => Item(name, Failure(e))
    case Success(pic) =>
      Item(name, Success(Written(OutputFor(r, filePath), ResizeOnce(pic, env.sizeOf, r.targetBytes, InitialQuality))))
  }

  /** Nothing in `process_images` catches an exception: an image that cannot be opened ends the walk. */
  predicate Escaped(item: Item) { item.outcome.Failure? }

  function PickTest(r: Resizer, dir: Dir): string -> bool { n => Picked(r, dir, n) }
  function Processor(r: Resizer, env: ImageEnv): string -> Item { n => ItemFor(r, env, n) }

  /** The entries the walk picks, in listing order. */
  function Selected(r: Resizer, dir: Dir, names: seq<string>): seq<string>
  {
    BatchLoop.Filter(names, PickTest(r, dir))
  }

  /** `process_images` over `names`: picked entries in order, up to the first that raises. */
  function DirItems(r: Resizer, env: ImageEnv, dir: Dir, names: seq<string>): seq<Item>
  {
    BatchLoop.RunUntil(names, PickTest(r, dir), Processor(r, env), Escaped)
  }

  /** One step of the walk: an entry that is not picked is skipped; a picked entry's item comes
      next, and ends the walk when it escapes. */
  lemma DirItemsAt(r: Resizer, env: ImageEnv, dir: Dir, names: seq<string>, i: nat)
    requires i < |names|
    ensures var item := ItemFor(r, env, names[i]);
            DirItems(r, env, dir, names[i..]) ==
              if !Picked(r, dir, names[i]) then DirItems(r, env, dir, names[i + 1..])
              else if Escaped(item) then [item]
              else [item] + DirItems(r, env, dir, names[i + 1..])
  {
    assert names[i..][0] == names[i] && names[i..][1..] == names[i + 1..];
    assert PickTest(r, dir)(names[i]) == Picked(r, dir, names[i]);
    assert Processor(r, env)(names[i]) == ItemFor(r, env, names[i]);
  }

  /** The walk handles exactly the listed regular files with an image extension, in listing
      order, each resized once and searched on its own. */
  lemma DirItemsFollowSelection(r: Resizer, env: ImageEnv, dir: Dir, names: seq<string>)
    ensures var items := DirItems(r, env, dir, names);
            var picked := Selected(r, dir, names);
            && |items| <= |picked|
            && (forall n :: n in picked <==> n in names && Picked(r, dir, n))
            && (forall k :: 0 <= k < |items| ==> items[k] == ItemFor(r, env, picked[k]))
  {
    var pick, proc := PickTest(r, dir), Processor(r, env);
    var items := BatchLoop.RunUntil(names, pick, proc, Escaped);
    var picked := BatchLoop.Filter(names, pick);
    BatchLoop.RunFollowsFilter(names, pick, proc, Escaped);
    forall n ensures n in picked <==> n in names && Picked(r, dir, n) {
      assert pick(n) == Picked(r, dir, n);
    }
    forall k | 0 <= k < |items| ensures items[k] == ItemFor(r, env, picked[k]) {
      assert items[k] == proc(picked[k]);
    }
  }

  /** Every opened image ends in its own output file holding the save at the reported quality,
      and its size is within budget unless the quality fell to 10. */
  lemma ItemWritten(r: Resizer, env: ImageEnv, name: string)
    requires Sep !in name
    requires env.open(Join(r.inputDir, name)).Some?
    ensures var item := ItemFor(r, env, name);
            && item.outcome.Success?
            && item.outcome.value.path == Join(r.outputDir, name)
            && item.outcome.value.search.onDisk.quality == item.outcome.value.search.quality
            && item.outcome.value.search.onDisk.picture.Rendered?
            && item.outcome.value.search.fileSize == env.sizeOf(item.outcome.value.search.onDisk)
            && (item.outcome.value.search.quality > MinQuality ==>
                  Fits(item.outcome.value.search.fileSize, r.targetBytes))
  {
    var pic := ResizeImage(r, env, Join(r.inputDir, name)).value;
    ResizeOnceFacts(pic, env.sizeOf, r.targetBytes, InitialQuality);
    OutputKeepsName(r, name);
  }

  /** The body of the walk for a picked entry: `resize_image`, then `compress_image`; an image
      that cannot be opened raises before anything is written. */
  method ProcessEntry(r: Resizer, env: ImageEnv, filename: string) returns (item: Item)
    ensures item == ItemFor(r, env, filename)
  {
    var filePath := Join(r.inputDir, filename);
    var img := ResizeImage(r, env, filePath);
    if img.Failure? {
      return Item(filename, Failure(img.error));
    }
    var written := CompressImage(r, env, img.value, filePath);
    item := Item(filename, Success(written));
  }

  /** The body of the walk for the entry at position `i`: a picked entry is resized and
      searched, and its item appended; `stop` says it raised, which ends the walk. */
  method VisitEntry(r: Resizer, env: ImageEnv, dir: Dir, names: seq<string>, i: nat, items: seq<Item>)
    returns (next: seq<Item>, stop: bool)
    requires i < |names|
    ensures stop ==> next == items + DirItems(r, env, dir, names[i..])
    ensures !stop ==> next + DirItems(r, env, dir, names[i + 1..]) == items + DirItems(r, env, dir, names[i..])
  {
    DirItemsAt(r, env, dir, names, i);
    var filename := names[i];
    ghost var later := DirItems(r, env, dir, names[i + 1..]);
    if !Picked(r, dir, filename) {
      assert DirItems(r, env, dir, names[i..]) == later;
      return items, false;
    }
    var item := ProcessEntry(r, env, filename);
    next := items + [item];
    stop := item.outcome.Failure?;
    if stop {
      assert DirItems(r, env, dir, names[i..]) == [item];
    } else {
      assert DirItems(r, env, dir, names[i..]) == [item] + later;
      assert next + later == items + ([item] + later);
    }
  }

  /** `process_images`: the loop over `os.listdir`, stopping when an exception escapes. */
  method ProcessImages(r: Resizer, env: ImageEnv, dir: Dir) returns (items: seq<Item>)
    ensures items == DirItems(r, env, dir, dir.listing)
  {
    var names := dir.listing;
    items := [];
    for i := 0 to |names|
      invariant items + DirItems(r, env, dir, names[i..]) == DirItems(r, env, dir, names)
    {
      var stop;
      items, stop := VisitEntry(r, env, dir, names, i, items);
      if stop {
        return;
      }
    }
    assert names[|names|..] == [];
  }
}
