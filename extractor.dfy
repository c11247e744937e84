/** `extract_password`: capture group 1 of the line pattern, reject it if an
    unwanted pattern matches it (checked in list order, stopping at the first
    hit), reject it if its byte length is below the minimum, accept it otherwise. */
module Extractor {
  import opened Wrappers
  import opened Regex
  import opened Rules

  /** The panics of the worker, each ending that worker's thread. */
  datatype Fault =
    | BadPattern(pattern: string)          // `Regex::new(&file_config.pattern)` fails
    | MissingGroup                         // `caps[1]` with no participating group 1
    | BadUnwantedPattern(pattern: string)  // `Regex::new(unwanted)` fails
    | UnreadableLine                       // `line.expect("Unable to read line")`

  /** What became of one line; the two rejection kinds are the two reasons the
      verbose mode reports, the first applicable one in this order. */
  datatype Verdict =
    | NotFound
    | Unwanted(candidate: string, pattern: string)
    | TooShort(candidate: string)
    | Accepted(password: string)
  {
    /** The `Option<String>` that `extract_password` returns for this verdict. */
    function Password(): Option<string> {
      if Accepted? then Some(password) else None
    }
  }

  /** Bytes taken by one Unicode scalar value in UTF-8. */
  function Utf8Width(c: char): nat {
    if c as int < 0x80 then 1
    else if c as int < 0x800 then 2
    else if c as int < 0x1_0000 then 3
    else 4
  }

  /** `String::len`: the length in UTF-8 bytes, between one and four bytes per character. */
  function ByteLen(s: string): (n: nat)
    ensures |s| <= n <= 4 * |s|
  {
    if s == [] then 0 else Utf8Width(s[0]) + ByteLen(s[1..])
  }

  /** For ASCII text the byte length is the character count. */
  lemma {:induction false} ByteLenAscii(s: string)
    requires forall i :: 0 <= i < |s| ==> s[i] as int < 0x80
    ensures ByteLen(s) == |s|
  {
    if s != [] {
      ByteLenAscii(s[1..]);
    }
  }

  /** The first `k` unwanted patterns all compile and none matches `candidate`. */
  predicate CleanUpTo(e: Engine, unwanted: seq<string>, k: int, candidate: string)
    requires 0 <= k <= |unwanted|
  {
    forall j :: 0 <= j < k ==> e.compiles(unwanted[j]) && !e.isMatch(unwanted[j], candidate)
  }

  /** Every unwanted pattern compiles and none matches `candidate`. */
  predicate PassesUnwanted(e: Engine, unwanted: seq<string>, candidate: string) {
    CleanUpTo(e, unwanted, |unwanted|, candidate)
  }

  /** Some unwanted pattern matches `candidate`, and every pattern before it compiles
      and does not match: the loop stops there with a rejection. */
  predicate MatchesUnwanted(e: Engine, unwanted: seq<string>, candidate: string) {
    exists i :: 0 <= i < |unwanted| && CleanUpTo(e, unwanted, i, candidate) &&
      e.compiles(unwanted[i]) && e.isMatch(unwanted[i], candidate)
  }

  /** Some unwanted pattern does not compile, and every pattern before it compiles and
      does not match: the loop reaches it and panics. */
  predicate ReachesBadPattern(e: Engine, unwanted: seq<string>, candidate: string) {
    exists i :: 0 <= i < |unwanted| && CleanUpTo(e, unwanted, i, candidate) && !e.compiles(unwanted[i])
  }

  /** The `for unwanted in &config.unwanted_strings` loop, from position `from` on:
      each pattern is compiled (a panic if it does not compile) and tried in list
      order; the result is the index of the first one that matches, or `None`. */
  function FirstUnwanted(e: Engine, unwanted: seq<string>, candidate: string, from: nat): (r: Result<Option<nat>, Fault>)
    requires from <= |unwanted| && CleanUpTo(e, unwanted, from, candidate)
    ensures r == Ok(None) <==> PassesUnwanted(e, unwanted, candidate)
    ensures r.Ok? && r.value.Some? <==> MatchesUnwanted(e, unwanted, candidate)
    ensures r.Err? <==> ReachesBadPattern(e, unwanted, candidate)
    ensures r.Ok? && r.value.Some? ==>
      from <= r.value.value < |unwanted| && CleanUpTo(e, unwanted, r.value.value, candidate) &&
      e.compiles(unwanted[r.value.value]) && e.isMatch(unwanted[r.value.value], candidate)
    ensures r.Err? ==>
      exists i :: from <= i < |unwanted| && CleanUpTo(e, unwanted, i, candidate) &&
        !e.compiles(unwanted[i]) && r.error == BadUnwantedPattern(unwanted[i])
    decreases |unwanted| - from
  {
    if from == |unwanted| then Ok(None)
    else if !e.compiles(unwanted[from]) then Err(BadUnwantedPattern(unwanted[from]))
    else if e.isMatch(unwanted[from], candidate) then Ok(Some(from))
    else FirstUnwanted(e, unwanted, candidate, from + 1)
  }

  /** The panics of `extract_password` on a line: a match without group 1, or a
      candidate for which the unwanted loop reaches a pattern that does not compile. */
  predicate Panics(e: Engine, line: string, rules: FileConfig) {
    var caps := e.captures(rules.pattern, line);
    || caps == Match(None)
    || (caps.Match? && caps.group1.Some? && ReachesBadPattern(e, rules.unwantedStrings, caps.group1.value))
  }

  /** `extract_password` on one line, given that the rule set's line pattern compiled
      (which `process_file` makes sure of before reading any line). */
  function ExtractPassword(e: Engine, line: string, rules: FileConfig): (r: Result<Verdict, Fault>)
    requires e.compiles(rules.pattern)
    ensures r == Ok(NotFound) <==> e.captures(rules.pattern, line).NoMatch?
    ensures e.captures(rules.pattern, line) == Match(None) ==> r == Err(MissingGroup)
    ensures r.Err? <==> Panics(e, line, rules)
    ensures r.Ok? && r.value.Unwanted? <==>
      e.captures(rules.pattern, line).Match? && e.captures(rules.pattern, line).group1.Some? &&
      MatchesUnwanted(e, rules.unwantedStrings, e.captures(rules.pattern, line).group1.value)
    ensures r.Ok? && r.value.Unwanted? ==>
      e.captures(rules.pattern, line) == Match(Some(r.value.candidate)) &&
      exists i :: 0 <= i < |rules.unwantedStrings| && rules.unwantedStrings[i] == r.value.pattern &&
        CleanUpTo(e, rules.unwantedStrings, i, r.value.candidate) && e.isMatch(r.value.pattern, r.value.candidate)
    ensures r.Ok? && r.value.TooShort? <==>
      e.captures(rules.pattern, line).Match? && e.captures(rules.pattern, line).group1.Some? &&
      PassesUnwanted(e, rules.unwantedStrings, e.captures(rules.pattern, line).group1.value) &&
      ByteLen(e.captures(rules.pattern, line).group1.value) < rules.minLength
    ensures r.Ok? && r.value.TooShort? ==> e.captures(rules.pattern, line) == Match(Some(r.value.candidate))
    ensures r.Ok? && r.value.Accepted? <==>
      e.captures(rules.pattern, line).Match? && e.captures(rules.pattern, line).group1.Some? &&
      PassesUnwanted(e, rules.unwantedStrings, e.captures(rules.pattern, line).group1.value) &&
      ByteLen(e.captures(rules.pattern, line).group1.value) >= rules.minLength
    ensures r.Ok? && r.value.Accepted? ==> e.captures(rules.pattern, line) == Match(Some(r.value.password))
  {
    match e.captures(rules.pattern, line)
    case NoMatch => Ok(NotFound)
    case Match(None) => Err(MissingGroup)
    case Match(Some(password)) =>
      match FirstUnwanted(e, rules.unwantedStrings, password, 0)
      case Err(f) => Err(f)
      case Ok(Some(i)) => Ok(Unwanted(password, rules.unwantedStrings[i]))
      case Ok(None) =>
        if ByteLen(password) < rules.minLength then Ok(TooShort(password)) else Ok(Accepted(password))
  }

  /** A candidate that an unwanted pattern matches is rejected as unwanted whatever
      its length, provided the patterns before that one compile (a pattern that does
      not compile and comes first panics instead). */
  lemma UnwantedRejectsRegardlessOfLength(e: Engine, line: string, rules: FileConfig, i: nat)
    requires e.compiles(rules.pattern)
    requires e.captures(rules.pattern, line).Match? && e.captures(rules.pattern, line).group1.Some?
    requires i < |rules.unwantedStrings| && CleanUpTo(e, rules.unwantedStrings, i, e.captures(rules.pattern, line).group1.value)
    requires e.compiles(rules.unwantedStrings[i]) && e.isMatch(rules.unwantedStrings[i], e.captures(rules.pattern, line).group1.value)
    ensures ExtractPassword(e, line, rules).Ok? && ExtractPassword(e, line, rules).value.Unwanted?
  {
  }

  /** A candidate shorter than the minimum byte length is never accepted, whatever
      the unwanted patterns say. */
  lemma ShortIsNeverAccepted(e: Engine, line: string, rules: FileConfig)
    requires e.compiles(rules.pattern)
    requires e.captures(rules.pattern, line).Match? && e.captures(rules.pattern, line).group1.Some?
    requires ByteLen(e.captures(rules.pattern, line).group1.value) < rules.minLength
    ensures !(ExtractPassword(e, line, rules).Ok? && ExtractPassword(e, line, rules).value.Accepted?)
  {
  }

  /** When every unwanted pattern compiles, whether the candidate is accepted does not
      depend on the order of the unwanted list (nor on which pattern matched first). */
  lemma UnwantedOrderIrrelevant(e: Engine, line: string, rules: FileConfig, reordered: seq<string>)
    requires e.compiles(rules.pattern)
    requires multiset(reordered) == multiset(rules.unwantedStrings)
    requires forall j :: 0 <= j < |rules.unwantedStrings| ==> e.compiles(rules.unwantedStrings[j])
    ensures ExtractPassword(e, line, rules.(unwantedStrings := reordered)).Ok? == ExtractPassword(e, line, rules).Ok?
    ensures ExtractPassword(e, line, rules).Ok? ==>
      ExtractPassword(e, line, rules.(unwantedStrings := reordered)).value.Password()
      == ExtractPassword(e, line, rules).value.Password()
  {
    var rules' := rules.(unwantedStrings := reordered);
    var u, u' := rules.unwantedStrings, reordered;
    assert forall p :: p in u <==> p in u' by {
      forall p ensures p in u <==> p in u' {
        assert p in u <==> p in multiset(u);
        assert p in u' <==> p in multiset(u');
      }
    }
    assert forall j :: 0 <= j < |u'| ==> e.compiles(u'[j]) by {
      forall j | 0 <= j < |u'| ensures e.compiles(u'[j]) {
        assert u'[j] in u;
      }
    }
    match e.captures(rules.pattern, line)
    case NoMatch =>
    case Match(None) =>
    case Match(Some(t)) =>
      assert PassesUnwanted(e, u, t) <==> PassesUnwanted(e, u', t) by {
        if PassesUnwanted(e, u, t) {
          forall j | 0 <= j < |u'| ensures !e.isMatch(u'[j], t) {
            assert u'[j] in u;
            var k :| 0 <= k < |u| && u[k] == u'[j];
          }
        }
        if PassesUnwanted(e, u', t) {
          forall j | 0 <= j < |u| ensures !e.isMatch(u[j], t) {
            assert u[j] in u';
            var k :| 0 <= k < |u'| && u'[k] == u[j];
          }
        }
      }
      NoFaultWhenAllCompile(e, u, t);
      NoFaultWhenAllCompile(e, u', t);
  }

  /** With every unwanted pattern compiling, the unwanted check cannot panic. */
  lemma NoFaultWhenAllCompile(e: Engine, unwanted: seq<string>, candidate: string)
    requires forall j :: 0 <= j < |unwanted| ==> e.compiles(unwanted[j])
    ensures FirstUnwanted(e, unwanted, candidate, 0).Ok?
  {
  }
}
