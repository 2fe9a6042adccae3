/** Wrappers, error kinds and the megabyte conversion shared by every script. */
module Common {

  datatype Option<+T> = None | Some(value: T)

  datatype Result<+T, +E> = Success(value: T) | Failure(error: E)

  /** Exceptions that escape an item and propagate to whoever called it. */
  datatype Error =
    | ProbeError           // ffprobe failed, or float() rejected what it printed
    | ZeroDuration         // the probed duration is 0.0: float division by zero
    | SpawnError(pass: int) // the encoder of this pass could not be started
    | LinkError            // os.link refused: the destination already exists
    | DecodeError          // the image could not be opened

  /** Image dimensions: an opened raster image is at least one pixel wide and high. */
  type Pixels = n: int | n >= 1 witness 1

  const BytesPerMb: int := 1024 * 1024

  /** `target_size_mb * 1024 * 1024`, the byte budget every script derives from its MB argument. */
  function TargetBytes(mb: real): (bytes: real)
    ensures bytes == mb * 1048576.0
    ensures bytes / 1048576.0 == mb
    ensures mb >= 0.0 ==> bytes >= mb
  {
    mb * (BytesPerMb as real)
  }
}
