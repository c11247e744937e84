/** `process_file`: resolve the rule set, compile its pattern, and count every
    accepted password of the file's lines into the table handed in by `&mut`. */
module Counting {
  import opened Wrappers
  import opened Regex
  import opened Rules
  import opened Extractor

  /** One item of `reader.lines()`: a decoded line, or a read/decode error. */
  datatype ReadLine = Line(text: string) | Unreadable

  /** The count of `t` in a frequency table, zero when absent. */
  function Count(table: map<string, nat>, t: string): nat {
    if t in table then table[t] else 0
  }

  /** The table update for one accepted token: the count of `t` grows
      by one (from zero when absent) and nothing else changes. */
  function Bump(table: map<string, nat>, t: string): (r: map<string, nat>)
    ensures r.Keys == table.Keys + {t}
    ensures forall u :: Count(r, u) == Count(table, u) + (if u == t then 1 else 0)
  {
    table[t := Count(table, t) + 1]
  }

  /** The line loop of `process_file` from some point on, with the table reached
      so far: a line that cannot be read, or whose extraction panics, ends the run
      with that fault. */
  function CountLines(e: Engine, rules: FileConfig, lines: seq<ReadLine>, table: map<string, nat>): (r: Result<map<string, nat>, Fault>)
    requires e.compiles(rules.pattern)
    ensures r.Err? ==> !r.error.BadPattern?
    ensures r.Ok? ==> table.Keys <= r.value.Keys && forall t :: Count(table, t) <= Count(r.value, t)
  {
    if lines == [] then Ok(table)
    else match lines[0]
      case Unreadable => Err(UnreadableLine)
      case Line(text) =>
        match ExtractPassword(e, text, rules)
        case Err(f) => Err(f)
        case Ok(v) => CountLines(e, rules, lines[1..], if v.Accepted? then Bump(table, v.password) else table)
  }

  /** The whole of `process_file` on a file with base name `fileName`. */
  function ProcessFileSpec(e: Engine, config: Config, fileName: string, lines: seq<ReadLine>, table: map<string, nat>): (r: Result<map<string, nat>, Fault>)
    ensures r.Err? && r.error.BadPattern? <==> !e.compiles(ResolveRules(config, fileName).pattern)
    ensures r.Ok? ==> table.Keys <= r.value.Keys && forall t :: Count(table, t) <= Count(r.value, t)
  {
    var rules := ResolveRules(config, fileName);
    if !e.compiles(rules.pattern) then Err(BadPattern(rules.pattern))
    else CountLines(e, rules, lines, table)
  }

  /** The number of lines whose extraction accepts exactly `t`. */
  function Hits(e: Engine, rules: FileConfig, lines: seq<ReadLine>, t: string): nat
    requires e.compiles(rules.pattern)
  {
    if lines == [] then 0
    else (if lines[0].Line? && ExtractPassword(e, lines[0].text, rules) == Ok(Accepted(t)) then 1 else 0)
         + Hits(e, rules, lines[1..], t)
  }

  /** Every line can be read and its extraction does not panic. */
  predicate Faultless(e: Engine, rules: FileConfig, lines: seq<ReadLine>)
    requires e.compiles(rules.pattern)
  {
    forall i :: 0 <= i < |lines| ==> lines[i].Line? && ExtractPassword(e, lines[i].text, rules).Ok?
  }

  /** Count-equals-occurrences: the loop runs to the end exactly when no line faults,
      and then the count of every token has grown by the number of lines that yielded
      it; a token never accepted keeps its prior count or stays absent. */
  lemma {:induction false} CountLinesTally(e: Engine, rules: FileConfig, lines: seq<ReadLine>, table: map<string, nat>)
    requires e.compiles(rules.pattern)
    ensures CountLines(e, rules, lines, table).Ok? <==> Faultless(e, rules, lines)
    ensures CountLines(e, rules, lines, table).Ok? ==>
      forall t :: Count(CountLines(e, rules, lines, table).value, t) == Count(table, t) + Hits(e, rules, lines, t)
    ensures CountLines(e, rules, lines, table).Ok? ==>
      forall t :: t in CountLines(e, rules, lines, table).value <==> t in table || Hits(e, rules, lines, t) > 0
    decreases |lines|
  {
    if lines != [] {
      assert Faultless(e, rules, lines) <==>
        lines[0].Line? && ExtractPassword(e, lines[0].text, rules).Ok? && Faultless(e, rules, lines[1..]) by {
        if lines[0].Line? && ExtractPassword(e, lines[0].text, rules).Ok? && Faultless(e, rules, lines[1..]) {
          forall i | 0 <= i < |lines| ensures lines[i].Line? && ExtractPassword(e, lines[i].text, rules).Ok? {
            if i > 0 { assert lines[i] == lines[1..][i - 1]; }
          }
        }
      }
      match lines[0]
      case Unreadable =>
      case Line(text) =>
        match ExtractPassword(e, text, rules)
        case Err(f) =>
        case Ok(v) =>
          var next := if v.Accepted? then Bump(table, v.password) else table;
          CountLinesTally(e, rules, lines[1..], next);
    }
  }

  /** A token with a positive number of hits was accepted from some line. */
  lemma {:induction false} HitsWitness(e: Engine, rules: FileConfig, lines: seq<ReadLine>, t: string)
    requires e.compiles(rules.pattern)
    requires Hits(e, rules, lines, t) > 0
    ensures exists i :: 0 <= i < |lines| && lines[i].Line? && ExtractPassword(e, lines[i].text, rules) == Ok(Accepted(t))
    decreases |lines|
  {
    if !(lines[0].Line? && ExtractPassword(e, lines[0].text, rules) == Ok(Accepted(t))) {
      HitsWitness(e, rules, lines[1..], t);
      var i :| 0 <= i < |lines[1..]| && lines[1..][i].Line? && ExtractPassword(e, lines[1..][i].text, rules) == Ok(Accepted(t));
      assert lines[i + 1] == lines[1..][i];
    }
  }

  /** What passing the filters of a rule set means for a token taken from `line`. */
  predicate AcceptedFrom(e: Engine, rules: FileConfig, line: string, t: string) {
    && e.captures(rules.pattern, line) == Match(Some(t))
    && PassesUnwanted(e, rules.unwantedStrings, t)
    && ByteLen(t) >= rules.minLength
  }

  /** Filtering correctness of a local table: started empty, every token in it has a
      count of at least one, is capture group 1 of one of the file's lines, matches no
      unwanted pattern and is at least the minimum byte length, all under the rule set
      the file name resolves to. */
  lemma LocalTableFiltered(e: Engine, config: Config, fileName: string, lines: seq<ReadLine>)
    requires ProcessFileSpec(e, config, fileName, lines, map[]).Ok?
    ensures var rules := ResolveRules(config, fileName);
      var table := ProcessFileSpec(e, config, fileName, lines, map[]).value;
      forall t :: t in table ==>
        && table[t] >= 1
        && exists i :: 0 <= i < |lines| && lines[i].Line? && AcceptedFrom(e, rules, lines[i].text, t)
  {
    var rules := ResolveRules(config, fileName);
    var table := ProcessFileSpec(e, config, fileName, lines, map[]).value;
    CountLinesTally(e, rules, lines, map[]);
    forall t | t in table
      ensures table[t] >= 1
      ensures exists i :: 0 <= i < |lines| && lines[i].Line? && AcceptedFrom(e, rules, lines[i].text, t)
    {
      assert Count(table, t) == Hits(e, rules, lines, t);
      HitsWitness(e, rules, lines, t);
      var i :| 0 <= i < |lines| && lines[i].Line? && ExtractPassword(e, lines[i].text, rules) == Ok(Accepted(t));
      assert AcceptedFrom(e, rules, lines[i].text, t);
    }
  }

  /** `process_file` itself: `counts` is the table passed in by `&mut`, and the result
      is that table after the loop, or the panic that ended the worker. */
  method ProcessFile(e: Engine, config: Config, fileName: string, lines: seq<ReadLine>, counts: map<string, nat>)
    returns (r: Result<map<string, nat>, Fault>)
    ensures r == ProcessFileSpec(e, config, fileName, lines, counts)
    ensures r.Ok? ==> forall t ::
      Count(r.value, t) == Count(counts, t) + Hits(e, ResolveRules(config, fileName), lines, t)
  {
    var rules := ResolveRules(config, fileName);
    if !e.compiles(rules.pattern) {
      return Err(BadPattern(rules.pattern));
    }
    var current := counts;
    var i := 0;
    while i < |lines|
      invariant 0 <= i <= |lines|
      invariant CountLines(e, rules, lines, counts) == CountLines(e, rules, lines[i..], current)
    {
      assert lines[i..][1..] == lines[i + 1..];
      match lines[i]
      case Unreadable =>
        return Err(UnreadableLine);
      case Line(text) =>
        var extracted := ExtractPassword(e, text, rules);
        if extracted.Err? {
          return Err(extracted.error);
        }
        if extracted.value.Accepted? {
          current := Bump(current, extracted.value.password);
        }
      i := i + 1;
    }
    r := Ok(current);
    CountLinesTally(e, rules, lines, counts);
  }
}
