/** imageMarker_Fixed16-9.py: one image is brought to 16:9 and 1920x1080 (resized directly, or
    stretched and centre-cropped) and saved, then the quality loop runs; each round of that loop
    starts by redoing the rendering and the quality-95 save. */
module ImageMarkerFixed {
  import opened Common
  import opened Geometry
  import opened QualitySearch

  /** The fields `__init__` sets once: the paths and the byte budget. */
  datatype Resizer = Resizer(inputPath: string, outputPath: string, targetBytes: real)

  /** `ImageResizer.__init__`. */
  function New(inputPath: string, outputPath: string, targetMb: real): (r: Resizer)
    ensures r.inputPath == inputPath && r.outputPath == outputPath
    ensures r.targetBytes == targetMb * 1048576.0
  {
    Resizer(inputPath, outputPath, TargetBytes(targetMb))
  }

  /** The picture `resize_image()` renders before its quality-95 save: always 1920x1080; a file
      that cannot be opened raises. */
  function ResizeImage(r: Resizer, env: ImageEnv): (pic: Result<Picture, Error>)
    ensures pic.Failure? <==> env.open(r.inputPath).None?
    ensures pic.Failure? ==> pic.error == DecodeError
    ensures pic.Success? ==>
              var (w, h) := env.open(r.inputPath).value;
              && pic.value.Rendered? && pic.value.input == r.inputPath
              && RenderSize(w, h, pic.value.render) == (TargetWidth, TargetHeight)
              && (pic.value.render.Resize? <==> Is16x9(w, h))
  {
    match env.open(r.inputPath)
    case None => Failure(DecodeError)
    case Some((w, h)) =>
      Fixed16x9Output(w, h);
      Success(Rendered(r.inputPath, Fixed16x9(w, h)))
  }

  /** `compress_image()` as written: the re-resize loop. */
  function CompressSpec(r: Resizer, env: ImageEnv): (res: Result<Search, Error>)
    ensures res.Failure? <==> env.open(r.inputPath).None?
    ensures res.Success? ==>
      res.value.onDisk.quality == InitialQuality && res.value.fileSize == env.sizeOf(res.value.onDisk)
  {
    match ResizeImage(r, env)
    case Failure(e) => Failure(e)
    case Success(pic) => Success(ReResize(pic, env.sizeOf, r.targetBytes, InitialQuality))
  }

  /** `compress_image()`: the first `resize_image()` either raises or renders the picture that
      every round re-saves at quality 95. */
  method CompressImage(r: Resizer, env: ImageEnv) returns (result: Result<Search, Error>)
    ensures result == CompressSpec(r, env)
  {
    var pic := ResizeImage(r, env);
    if pic.Failure? {
      return Failure(pic.error);
    }
    var search := ReResizeSearch(pic.value, env.sizeOf, r.targetBytes);
    return Success(search);
  }

  /** What `compress_image()` as written ends with: the output holds the quality-95 save of the
      1920x1080 rendering, the reported size is that file's size, and the reported quality is 95
      or 10; it names the file's quality only when that file fits. */
  lemma CompressOutcome(r: Resizer, env: ImageEnv)
    requires env.open(r.inputPath).Some?
    ensures var result := CompressSpec(r, env);
            var (w, h) := env.open(r.inputPath).value;
            var e95 := Encoding(Rendered(r.inputPath, Fixed16x9(w, h)), InitialQuality);
            && result.Success?
            && result.value.onDisk == e95
            && RenderSize(w, h, result.value.onDisk.picture.render) == (TargetWidth, TargetHeight)
            && result.value.fileSize == env.sizeOf(e95)
            && (result.value.quality == InitialQuality || result.value.quality == MinQuality)
            && (result.value.quality == result.value.onDisk.quality <==> Fits(env.sizeOf(e95), r.targetBytes))
  {
    var pic := ResizeImage(r, env).value;
    ReResizeFacts(pic, env.sizeOf, r.targetBytes, InitialQuality);
  }

  /** An input that cannot be opened raises before anything is saved. */
  lemma OpenFailureRaises(r: Resizer, env: ImageEnv)
    requires env.open(r.inputPath).None?
    ensures CompressSpec(r, env) == Failure(DecodeError)
  {
  }

  /** `compress_image()` as evidently intended: render once, then lower the quality of what is
      saved until the file fits. */
  function IntendedSpec(r: Resizer, env: ImageEnv): (res: Result<Search, Error>)
    ensures res.Failure? <==> env.open(r.inputPath).None?
    ensures res.Success? ==>
      res.value.onDisk.quality == res.value.quality && res.value.fileSize == env.sizeOf(res.value.onDisk)
  {
    match ResizeImage(r, env)
    case Failure(e) => Failure(e)
    case Success(pic) => Success(ResizeOnce(pic, env.sizeOf, r.targetBytes, InitialQuality))
  }

  /** The intended loop, as image_resizer_free.py runs it. */
  method CompressImageIntended(r: Resizer, env: ImageEnv) returns (result: Result<Search, Error>)
    ensures result == IntendedSpec(r, env)
  {
    var pic := ResizeImage(r, env);
    if pic.Failure? {
      return Failure(pic.error);
    }
    var search := ResizeOnceSearch(pic.value, env.sizeOf, r.targetBytes);
    return Success(search);
  }

  /** With the intended loop the output holds the save at the reported quality, and it is within
      budget whenever some quality on the way down gives a file within budget. */
  lemma IntendedOutcome(r: Resizer, env: ImageEnv, j: int)
    requires env.open(r.inputPath).Some?
    ensures var result := IntendedSpec(r, env);
            && result.Success?
            && result.value.onDisk.quality == result.value.quality
            && result.value.fileSize == env.sizeOf(result.value.onDisk)
            && (OnLadder(j) && Fits(env.sizeOf(Encoding(ResizeImage(r, env).value, j)), r.targetBytes) ==>
                  Fits(result.value.fileSize, r.targetBytes))
  {
    var pic := ResizeImage(r, env).value;
    ResizeOnceFacts(pic, env.sizeOf, r.targetBytes, InitialQuality);
    if OnLadder(j) && Fits(env.sizeOf(Encoding(pic, j)), r.targetBytes) {
      ResizeOnceFindsFit(pic, env.sizeOf, r.targetBytes, j);
    }
  }
}
