/**
 * The `key=value` line format shared by `ServerConfig` and `ClientConfig`:
 * empty lines and lines starting with '#' are skipped, any other line is
 * split at its first '='; a line without '=' is ignored as well.
 */
module ConfigFile {
  import opened Wrappers
  import opened Text

  /** The key and value of one line, or `None` for a line `load` skips. */
  function SplitEntry(line: string): (r: Option<(string, string)>)
    ensures r.Some? <==> line != [] && line[0] != '#' && '=' in line
    ensures r.Some? ==> line == r.value.0 + "=" + r.value.1 && '=' !in r.value.0
  {
    if line == [] || line[0] == '#' then None
    else match FindChar(line, '=', 0)
      case None => None
      case Some(eq) =>
        assert line == line[..eq] + "=" + line[eq + 1..];
        Some((line[..eq], line[eq + 1..]))
  }

  /** A line written as `key=value` reads back as that pair. */
  lemma SplitEntryOf(key: string, value: string)
    requires key != [] && key[0] != '#' && '=' !in key
    ensures SplitEntry(key + "=" + value) == Some((key, value))
  {
    var line := key + "=" + value;
    FindCharIn(key, '=', value);
    assert line[0] == key[0];
    assert line[..|key|] == key;
    assert line[|key| + 1..] == value;
  }

  /** `value == "true"`: only that exact spelling turns a flag on. */
  function ParseFlag(value: string): bool
  {
    value == "true"
  }

  /** `(flag ? "true" : "false")` */
  function FlagText(flag: bool): (r: string)
    ensures ParseFlag(r) == flag
  {
    if flag then "true" else "false"
  }
}
