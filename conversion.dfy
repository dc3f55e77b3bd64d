/**
 * The argument vector handed to ImageMagick's `convert` for one size: read
 * the uploaded scratch copy, make a thumbnail of the size's geometry,
 * centre it, pad it to the extent when the size has one, and write the
 * size's file.
 */
module Conversion {
  import opened Outcomes
  import opened SizeTables

  const Convert := "convert"

  /** The options between the input and the output file. */
  function Options(g: Geometry): seq<string> {
    ["-thumbnail", g.resize, "-gravity", "center"] +
    match g.extent
    case None => []
    case Some(e) => ["-extent", e]
  }

  /** Model#cmd as an argument vector, before shell quoting. */
  function CommandLine(tmp: string, g: Geometry, target: string): seq<string> {
    [Convert, tmp] + Options(g) + [target]
  }

  /**
   * The vector reads `tmp`, names the geometry after -thumbnail, centres,
   * carries -extent and the extent exactly when the geometry has one, and
   * ends with the target file.
   */
  lemma CommandLineLayout(tmp: string, g: Geometry, target: string)
    ensures var argv := CommandLine(tmp, g, target);
      && |argv| == (if g.extent.Some? then 9 else 7)
      && argv[..6] == [Convert, tmp, "-thumbnail", g.resize, "-gravity", "center"]
      && (g.extent.Some? ==> argv[6..8] == ["-extent", g.extent.value])
      && argv[|argv| - 1] == target
  {
  }

  /**
   * The vector built push by push, as Model#cmd does: `convert` and the
   * input, the thumbnail geometry, the gravity, the extent when there is
   * one, and the output last.
   */
  method BuildCommand(tmp: string, g: Geometry, target: string) returns (argv: seq<string>)
    ensures argv == CommandLine(tmp, g, target)
  {
    argv := [];
    argv := argv + [Convert, tmp];
    argv := argv + ["-thumbnail", g.resize];
    argv := argv + ["-gravity", "center"];
    if g.extent.Some? {
      argv := argv + ["-extent", g.extent.value];
    }
    argv := argv + [target];
  }
}
