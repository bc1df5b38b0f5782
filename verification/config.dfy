/** The typed view of one configured transformation, as the command reads it. */
module Config {
  import opened Options

  /**
   * A transformation entry of the settings.
   * - `scope`: the `scope` table, selector to pandoc input format, in iteration order;
   * - `arguments`: the `pandoc-arguments` tokens;
   * - `outExt`: the `out-ext` setting (absent or null is `None`);
   * - `outLocal`: whether `out-local` is set to a true value.
   */
  datatype Transformation = Transformation(
    scope: seq<(string, string)>,
    arguments: seq<string>,
    outExt: Option<string>,
    outLocal: bool)
}
