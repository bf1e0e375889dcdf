/**
 * Go's package `regexp`, seen through the three things the handlers ask
 * of a user-supplied pattern: whether it compiles, whether it matches
 * somewhere in a string, and what `ReplaceAllString` makes of a string.
 * The engine itself (RE2 syntax and semantics) is not modelled; it is a
 * value of the datatype below, passed to the operations that use it.
 */
module GoRegexp {
  import opened Outcomes

  /**
   * A regular-expression engine:
   *  - `compileError(pattern)` is the message of the error `regexp.Compile`
   *    reports, `None` when the pattern compiles;
   *  - `matches(pattern, s)` is `MatchString(s)` of the compiled pattern;
   *  - `replaceAll(pattern, src, repl)` is `ReplaceAllString(src, repl)`
   *    of the compiled pattern.
   */
  datatype Engine = Engine(
    compileError: string -> Option<string>,
    matches: (string, string) -> bool,
    replaceAll: (string, string, string) -> string)

  /**
   * `regexp.MatchString(pattern, s)`: compile the pattern, then search
   * `s`. Its only error is the compile error; it never panics.
   */
  function MatchString(e: Engine, pattern: string, s: string): (r: Outcome<bool>)
    ensures !r.Panic?
    ensures r.Err? <==> e.compileError(pattern).Some?
  {
    match e.compileError(pattern)
    case Some(msg) => Err(msg)
    case None => Ok(e.matches(pattern, s))
  }
}
