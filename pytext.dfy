/** How Python treats the `str`-or-`None` values the updater passes around. */
module PyText {
  import opened Wrappers

  /** The text `$` is tried against: Python's `$` matches at the very end
      and also just before one final line break, so a pattern ending in `$`
      matches `t` exactly when its body matches `t` without that break. */
  function StripFinalNewline(t: string): (r: string)
    ensures r == t || t == r + "\n"
    ensures |t| > 0 && t[|t| - 1] != '\n' ==> r == t
  {
    if |t| > 0 && t[|t| - 1] == '\n' then t[..|t| - 1] else t
  }

  /** Truthiness of a `str` or `None`: present and non-empty. */
  predicate Truthy(v: Option<string>) {
    v.Some? && v.value != []
  }

  /** `str(v)` as an f-string renders it: `None` becomes the text "None". */
  function Str(v: Option<string>): string {
    v.GetOr("None")
  }
}
