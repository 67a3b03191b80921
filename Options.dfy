/**
 * The checks `parse_args` makes on the parsed command line. Parsing itself
 * (argparse) is not modelled: the parsed values arrive as `Args`.
 */
module Options {
  import opened Wrappers

  /** The parsed command line, without the two directory paths. */
  datatype Args = Args(
    width: int,
    height: int,
    quality: int,
    keepAspectRatio: bool,
    noUpscale: bool,
    lossless: bool,
    overwrite: bool)

  /** The two rejections `parse_args` reports through `parser.error`. */
  datatype ArgError = NonPositiveSize | QualityOutOfRange

  /** Exit status of `parser.error`, which ends the process before any directory is looked at. */
  const UsageExitCode := 2

  /**
   * The checks in order: a non-positive width or height is reported first;
   * only then is the quality range checked.
   */
  function Validate(a: Args): (r: Result<Args, ArgError>)
    ensures r.Success? <==> a.width > 0 && a.height > 0 && 0 <= a.quality <= 100
    ensures r.Success? ==> r.value == a
    ensures r == Failure(NonPositiveSize) <==> a.width <= 0 || a.height <= 0
    ensures r == Failure(QualityOutOfRange) <==> a.width > 0 && a.height > 0 && !(0 <= a.quality <= 100)
  {
    if a.width <= 0 || a.height <= 0 then Failure(NonPositiveSize)
    else if !(0 <= a.quality <= 100) then Failure(QualityOutOfRange)
    else Success(a)
  }
}
