/** `main` without its plumbing: pick the eligible directory entries, run one worker
    per entry, merge the local tables that reach the channel, rank, and lay out the
    two output files. */
module Pipeline {
  import opened Wrappers
  import opened Strings
  import opened Rules
  import opened Regex
  import opened Extractor
  import opened Counting
  import opened Merge
  import opened Ranking
  import opened Output

  /** `Path::extension` of a base name: what follows the last dot, unless there is no
      dot, the only dot starts the name, or the name is `..`. */
  function Extension(name: string): (r: Option<string>)
    ensures r.None? <==> name == ".." || forall i :: 0 < i < |name| ==> name[i] != '.'
    ensures r.Some? ==>
      |r.value| + 1 < |name| && name[|name| - |r.value| - 1] == '.' &&
      name[|name| - |r.value|..] == r.value && '.' !in r.value
  {
    if name == ".." then None
    else match LastIndexOf(name, '.')
      case None => None
      case Some(i) => if i == 0 then None else Some(name[i + 1..])
  }

  /** `Some("txt") | Some("csv")`: the only entries that get a worker. */
  predicate IsEligible(name: string) {
    Extension(name) == Some("txt") || Extension(name) == Some("csv")
  }

  /** Eligibility is exactly a case-sensitive `.txt` or `.csv` suffix after at least
      one other character (`.txt` alone is a hidden file without an extension). */
  lemma EligibleBySuffix(name: string)
    ensures IsEligible(name) <==> HasDataSuffix(name)
  {
    if IsEligible(name) {
      EligibleHasSuffix(name);
    }
    if HasDataSuffix(name) {
      SuffixIsEligible(name);
    }
  }

  /** The name ends in `.txt` or `.csv` after at least one other character. */
  predicate HasDataSuffix(name: string) {
    |name| > 4 && (name[|name| - 4..] == ".txt" || name[|name| - 4..] == ".csv")
  }

  lemma EligibleHasSuffix(name: string)
    requires IsEligible(name)
    ensures HasDataSuffix(name)
  {
    var i := LastIndexOf(name, '.').value;
    assert name[i + 1..] == "txt" || name[i + 1..] == "csv";
    assert |name| == i + 4 && i > 0 && name[i] == '.';
    assert name[|name| - 4..] == name[i..] == [name[i]] + name[i + 1..];
  }

  lemma SuffixIsEligible(name: string)
    requires HasDataSuffix(name)
    ensures IsEligible(name)
  {
    var r := LastIndexOf(name, '.');
    var k := |name| - 4;
    assert name[k] == '.';
    assert name[k + 1] != '.' && name[k + 2] != '.' && name[k + 3] != '.';
    assert r.Some?;
    assert r.value == k;
    assert name[k + 1..] == name[|name| - 4..][1..];
  }

  /** A directory entry: its base name and what reading it line by line yields. */
  datatype DirEntry = DirEntry(name: string, lines: seq<ReadLine>)

  /** What one worker thread produces: its file processed into a fresh table. */
  function WorkerResult(e: Engine, config: Config, d: DirEntry): (r: Result<map<string, nat>, Fault>)
    ensures r.Ok? ==> forall t :: t in r.value ==>
      && r.value[t] >= 1
      && exists i :: 0 <= i < |d.lines| && d.lines[i].Line? && AcceptedFrom(e, ResolveRules(config, d.name), d.lines[i].text, t)
  {
    var r := ProcessFileSpec(e, config, d.name, d.lines, map[]);
    if r.Ok? then LocalTableFiltered(e, config, d.name, d.lines); r else r
  }

  /** The local tables sent over the channel, in directory order: one per eligible
      entry whose worker did not panic (a panicking thread sends nothing). */
  function ReceivedTables(e: Engine, config: Config, entries: seq<DirEntry>): (r: seq<map<string, nat>>)
    ensures |r| <= |entries|
    ensures forall k :: 0 <= k < |r| ==>
      exists j :: 0 <= j < |entries| && IsEligible(entries[j].name) && WorkerResult(e, config, entries[j]) == Ok(r[k])
  {
    if entries == [] then []
    else
      var d := entries[|entries| - 1];
      ReceivedTables(e, config, entries[..|entries| - 1]) +
        (if IsEligible(d.name) && WorkerResult(e, config, d).Ok? then [WorkerResult(e, config, d).value] else [])
  }

  /** The number of lines of one entry that yield `t`, counting only an entry whose
      table reaches the merge. */
  function FileHits(e: Engine, config: Config, d: DirEntry, t: string): nat {
    var rules := ResolveRules(config, d.name);
    if IsEligible(d.name) && e.compiles(rules.pattern) && CountLines(e, rules, d.lines, map[]).Ok?
    then Hits(e, rules, d.lines, t) else 0
  }

  /** The number of lines, over all entries, that yield `t`. */
  function TotalHits(e: Engine, config: Config, entries: seq<DirEntry>, t: string): nat {
    if entries == [] then 0
    else TotalHits(e, config, entries[..|entries| - 1], t) + FileHits(e, config, entries[|entries| - 1], t)
  }

  /** The sum of one entry's contribution to the merge is its number of hits. */
  lemma {:induction false} ReceivedSumsHits(e: Engine, config: Config, entries: seq<DirEntry>, t: string)
    ensures SumCounts(ReceivedTables(e, config, entries), t) == TotalHits(e, config, entries, t)
    decreases |entries|
  {
    if entries != [] {
      var front, d := entries[..|entries| - 1], entries[|entries| - 1];
      ReceivedSumsHits(e, config, front, t);
      var mine: seq<map<string, nat>> :=
        if IsEligible(d.name) && WorkerResult(e, config, d).Ok? then [WorkerResult(e, config, d).value] else [];
      SumCountsAppend(ReceivedTables(e, config, front), mine, t);
      var rules := ResolveRules(config, d.name);
      if mine != [] {
        CountLinesTally(e, rules, d.lines, map[]);
        var none: seq<map<string, nat>> := [];
        assert mine[..0] == none;
      }
    }
  }

  /** Every global count is the number of lines, over all eligible files whose worker
      finished, whose extraction under that file's resolved rule set yields the token. */
  lemma GlobalCountIsTotalHits(e: Engine, config: Config, entries: seq<DirEntry>, t: string)
    ensures Count(MergeTables(ReceivedTables(e, config, entries)), t) == TotalHits(e, config, entries, t)
  {
    MergeTablesSums(ReceivedTables(e, config, entries));
    ReceivedSumsHits(e, config, entries, t);
  }

  /** The tables received from two stretches of the directory are those of the first
      followed by those of the second. */
  lemma {:induction false} ReceivedTablesAppend(e: Engine, config: Config, a: seq<DirEntry>, b: seq<DirEntry>)
    ensures ReceivedTables(e, config, a + b) == ReceivedTables(e, config, a) + ReceivedTables(e, config, b)
    decreases |b|
  {
    if b != [] {
      var b' := b[..|b| - 1];
      assert (a + b)[..|a + b| - 1] == a + b';
      assert (a + b)[|a + b| - 1] == b[|b| - 1];
      ReceivedTablesAppend(e, config, a, b');
    } else {
      assert a + b == a;
    }
  }

  /** The hits over two stretches of the directory add up. */
  lemma {:induction false} TotalHitsAppend(e: Engine, config: Config, a: seq<DirEntry>, b: seq<DirEntry>, t: string)
    ensures TotalHits(e, config, a + b, t) == TotalHits(e, config, a, t) + TotalHits(e, config, b, t)
    decreases |b|
  {
    if b != [] {
      var b' := b[..|b| - 1];
      assert (a + b)[..|a + b| - 1] == a + b';
      assert (a + b)[|a + b| - 1] == b[|b| - 1];
      TotalHitsAppend(e, config, a, b', t);
    } else {
      assert a + b == a;
    }
  }

  /** An ineligible entry gets no worker, so it sends no table. */
  lemma IneligibleSendsNothing(e: Engine, config: Config, d: DirEntry)
    requires !IsEligible(d.name)
    ensures ReceivedTables(e, config, [d]) == []
    ensures forall t :: TotalHits(e, config, [d], t) == 0
  {
    var none: seq<DirEntry> := [];
    assert [d][..0] == none;
  }

  /** An entry that is not a `.txt` or `.csv` file adds nothing, wherever it stands in
      the directory order. */
  lemma IneligibleAddsNothing(e: Engine, config: Config, before: seq<DirEntry>, d: DirEntry, after: seq<DirEntry>)
    requires !IsEligible(d.name)
    ensures ReceivedTables(e, config, before + [d] + after) == ReceivedTables(e, config, before + after)
    ensures forall t :: TotalHits(e, config, before + [d] + after, t) == TotalHits(e, config, before + after, t)
  {
    IneligibleSendsNothing(e, config, d);
    var front := before + [d];
    ReceivedTablesAppend(e, config, front, after);
    ReceivedTablesAppend(e, config, before, [d]);
    ReceivedTablesAppend(e, config, before, after);
    assert ReceivedTables(e, config, front) == ReceivedTables(e, config, before);
    forall t ensures TotalHits(e, config, before + [d] + after, t) == TotalHits(e, config, before + after, t) {
      TotalHitsAppend(e, config, before + [d], after, t);
      TotalHitsAppend(e, config, before, [d], t);
      TotalHitsAppend(e, config, before, after, t);
    }
  }

  /** One run: the global table, the ranked vector and the lines of the two output
      files. The workers run one after another and their tables are merged in
      directory order; `MergeTablesPermutation` says any other arrival order gives the
      same table. */
  method Run(e: Engine, config: Config, entries: seq<DirEntry>)
    returns (table: map<string, nat>, ranked: seq<Entry>, passwords: seq<string>, stats: seq<string>)
    ensures table == MergeTables(ReceivedTables(e, config, entries))
    ensures forall t :: Count(table, t) == TotalHits(e, config, entries, t)
    ensures NonIncreasing(ranked) && ListsEntriesOf(ranked, table)
    ensures |passwords| == |ranked| && |stats| == |ranked| + 1 && stats[0] == StatsHeader
    ensures forall i :: 0 <= i < |ranked| ==> passwords[i] == ranked[i].0 && stats[i + 1] == StatsLine(ranked[i])
  {
    var received: seq<map<string, nat>> := [];
    for i := 0 to |entries|
      invariant received == ReceivedTables(e, config, entries[..i])
    {
      var d := entries[i];
      assert entries[..i + 1][..i] == entries[..i];
      if IsEligible(d.name) {
        var local := ProcessFile(e, config, d.name, d.lines, map[]);
        if local.Ok? {
          received := received + [local.value];
        }
      }
    }
    assert entries[..|entries|] == entries;
    table := MergeAll(received);
    ranked := Rank(table);
    passwords, stats := WriteOutput(ranked);
    forall t ensures Count(table, t) == TotalHits(e, config, entries, t) {
      GlobalCountIsTotalHits(e, config, entries, t);
    }
  }
}
