/**
 * The missing-asset overlay: while the record has no existing file name,
 * its URL is a fixed placeholder under /missing, whatever the root or the
 * size table say.
 */
module Missing {
  import opened Outcomes
  import opened RubyStrings
  import opened Paths

  /** existing.to_s.empty?: nil and the empty string both count as missing. */
  predicate IsMissing(existing: Option<string>) {
    existing.None? || existing.value == ""
  }

  /** ['', 'missing', namespace, filename(size)].join('/'). */
  function MissingPath(ns: string, size: string): string {
    ArrayJoin(["", "missing", ns, Filename(size)], "/")
  }

  lemma MissingPathLayout(ns: string, size: string)
    ensures MissingPath(ns, size) == "/missing/" + ns + "/" + size + ".png"
  {
    ArrayJoinFour("", "missing", ns, Filename(size), "/");
    assert "" + "/" + "missing" + "/" + ns + "/" + Filename(size) == "/missing/" + ns + "/" + size + ".png";
  }

  /**
   * Missing#url over the URL it overrides: the placeholder while the record
   * is missing, which needs neither a root nor a known size; otherwise
   * whatever the overridden URL gives, errors included.
   */
  function MissingUrl(existing: Option<string>, ns: string, size: string, base: Result<string>): (r: Result<string>)
    ensures IsMissing(existing) ==> r == Ok("/missing/" + ns + "/" + size + ".png")
    ensures !IsMissing(existing) ==> r == base
  {
    MissingPathLayout(ns, size);
    if IsMissing(existing) then Ok(MissingPath(ns, size)) else base
  }
}
