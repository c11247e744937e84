/** The worked examples of the tool's behaviour, checked against the model. The
    engine below stands in for `password=(\S+)` and `^admin$` on the lines used here. */
module Scenarios {
  import opened Wrappers
  import opened Regex
  import opened Rules
  import opened Extractor
  import opened Counting
  import opened Merge
  import opened Ranking
  import opened Pipeline

  const Key: string := "password="

  /** `password=(\S+)` captures what follows `password=`; `^admin$` matches `admin` only. */
  function ExampleEngine(): Engine {
    Engine(
      p => true,
      (p, line) => if |line| > |Key| && line[..|Key|] == Key then Match(Some(line[|Key|..])) else NoMatch,
      (p, s) => s == "admin")
  }

  function ExampleRules(): FileConfig {
    FileConfig("password=(\\S+)", ["^admin$"], 4)
  }

  /** `admin` is unwanted, `abc` too short, `hunter2` counted twice. */
  lemma ExampleLocalTable()
    ensures ProcessFileSpec(ExampleEngine(), Config(ExampleRules(), None), "a.txt",
      [Line("password=admin"), Line("password=hunter2"), Line("password=abc"), Line("password=hunter2")], map[])
      == Ok(map["hunter2" := 2])
  {
    var l1, l2, l3 := Line("password=admin"), Line("password=hunter2"), Line("password=abc");
    ExampleAdmin();
    ExampleAfterAdmin();
    CountLinesStep(ExampleEngine(), ExampleRules(), l1, [l2, l3, l2], map[]);
  }

  /** The three lines after `password=admin`. */
  lemma ExampleAfterAdmin()
    ensures CountLines(ExampleEngine(), ExampleRules(),
      [Line("password=hunter2"), Line("password=abc"), Line("password=hunter2")], map[])
      == Ok(map["hunter2" := 2])
  {
    var e, rules := ExampleEngine(), ExampleRules();
    var l2, l3 := Line("password=hunter2"), Line("password=abc");
    ExampleHunter();
    ExampleAbc();
    var one := map["hunter2" := 1];
    ExampleBumps();
    CountLinesStep(e, rules, l2, [], one);
    CountLinesStep(e, rules, l3, [l2], one);
    CountLinesStep(e, rules, l2, [l3, l2], map[]);
  }

  lemma ExampleBumps()
    ensures Bump(map[], "hunter2") == map["hunter2" := 1]
    ensures Bump(map["hunter2" := 1], "hunter2") == map["hunter2" := 2]
  {
  }

  /** One unfolding of the line loop. */
  lemma CountLinesStep(e: Engine, rules: FileConfig, l: ReadLine, rest: seq<ReadLine>, table: map<string, nat>)
    requires e.compiles(rules.pattern) && l.Line? && ExtractPassword(e, l.text, rules).Ok?
    ensures var v := ExtractPassword(e, l.text, rules).value;
      CountLines(e, rules, [l] + rest, table)
      == CountLines(e, rules, rest, if v.Accepted? then Bump(table, v.password) else table)
  {
    assert ([l] + rest)[1..] == rest;
  }

  lemma ExampleAdmin()
    ensures ExtractPassword(ExampleEngine(), "password=admin", ExampleRules()) == Ok(Unwanted("admin", "^admin$"))
  {
    assert "password=admin"[..9] == Key && "password=admin"[9..] == "admin";
  }

  lemma ExampleHunter()
    ensures ExtractPassword(ExampleEngine(), "password=hunter2", ExampleRules()) == Ok(Accepted("hunter2"))
  {
    ExampleHunterCaptured();
    ByteLenAscii("hunter2");
    assert FirstUnwanted(ExampleEngine(), ["^admin$"], "hunter2", 0) == Ok(None);
  }

  lemma ExampleHunterCaptured()
    ensures ExampleEngine().captures(ExampleRules().pattern, "password=hunter2") == Match(Some("hunter2"))
  {
    assert "password=hunter2"[..9] == Key && "password=hunter2"[9..] == "hunter2";
  }

  lemma ExampleAbc()
    ensures ExtractPassword(ExampleEngine(), "password=abc", ExampleRules()) == Ok(TooShort("abc"))
  {
    assert "password=abc"[..9] == Key && "password=abc"[9..] == "abc";
    ByteLenAscii("abc");
  }

  /** `{"hunter2": 2}` and `{"hunter2": 1, "letmein": 3}` merge to
      `{"hunter2": 3, "letmein": 3}`. */
  lemma ExampleMerge()
    ensures MergeTables([map["hunter2" := 2], map["hunter2" := 1, "letmein" := 3]])
      == map["hunter2" := 3, "letmein" := 3]
  {
    var a, b := map["hunter2" := 2], map["hunter2" := 1, "letmein" := 3];
    var none: seq<map<string, nat>> := [];
    assert [a, b][..1] == [a] && [a][..0] == none;
    var first := AddTable(map[], a);
    assert first.Keys == a.Keys && Count(first, "hunter2") == 2;
    assert MergeTables([a]) == a;
    var m := AddTable(a, b);
    assert "hunter2" != "letmein";
    assert m.Keys == {"hunter2", "letmein"};
    assert Count(m, "hunter2") == 3 && Count(m, "letmein") == 3;
  }

  /** With tied counts, the ranking is one of the two orders and nothing else. */
  lemma ExampleRankingTie(ranked: seq<Entry>)
    requires ListsEntriesOf(ranked, map["hunter2" := 3, "letmein" := 3])
    ensures ranked == [("hunter2", 3), ("letmein", 3)] || ranked == [("letmein", 3), ("hunter2", 3)]
  {
    var table := map["hunter2" := 3, "letmein" := 3];
    assert table.Keys == {"hunter2", "letmein"};
    assert "hunter2" != "letmein";
    assert |ranked| == 2;
    assert ("hunter2", 3) in ranked && ("letmein", 3) in ranked;
    assert ranked[0] == ("hunter2", 3) || ranked[0] == ("letmein", 3);
    assert ranked[1] == ("hunter2", 3) || ranked[1] == ("letmein", 3);
  }
}
