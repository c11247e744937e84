/** The regular-expression engine, which the model does not interpret.

    Every property proved about the pipeline holds for every engine value, so the
    statements are about the filtering and counting logic and not about regex
    semantics. */
module Regex {
  import opened Wrappers

  /** What `Regex::captures` followed by `caps[1]` can observe on one haystack:
      no match at all, or a match whose capture group 1 either took part (`Some`)
      or is absent or did not participate (`None`). */
  datatype Captures = NoMatch | Match(group1: Option<string>)

  /** An abstract regex engine:
      - `compiles(p)`: `Regex::new(p)` succeeds;
      - `captures(p, s)`: the captures of compiled pattern `p` on `s`;
      - `isMatch(p, s)`: `is_match` of compiled pattern `p` on `s`. */
  datatype Engine = Engine(
    compiles: string -> bool,
    captures: (string, string) -> Captures,
    isMatch: (string, string) -> bool
  )
}
