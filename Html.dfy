/**
 * The parsed-HTML vocabulary the scraper relies on, after the parser is abstracted away:
 * an anchor element carries an `href` attribute or not, and hrefs are tested by
 * prefix and suffix (Python's str.startswith and str.endswith).
 */
module Html {
  import opened Wrappers

  /** An `<a>` element; `href` is None when the element has no such attribute
      (indexing `a['href']` then raises KeyError). */
  datatype Anchor = Anchor(href: Option<string>)

  predicate StartsWith(s: string, prefix: string) {
    |prefix| <= |s| && s[..|prefix|] == prefix
  }

  predicate EndsWith(s: string, suffix: string) {
    |suffix| <= |s| && s[|s| - |suffix|..] == suffix
  }

  /** str.startswith holds exactly when `s` is `prefix` followed by something. */
  lemma StartsWithIff(s: string, prefix: string)
    ensures StartsWith(s, prefix) <==> exists rest :: s == prefix + rest
  {
    if StartsWith(s, prefix) {
      assert s == prefix + s[|prefix|..];
    }
  }

  /** str.endswith holds exactly when `s` is something followed by `suffix`. */
  lemma EndsWithIff(s: string, suffix: string)
    ensures EndsWith(s, suffix) <==> exists front :: s == front + suffix
  {
    if EndsWith(s, suffix) {
      assert s == s[..|s| - |suffix|] + suffix;
    }
  }
}
