# leakh password extractor: a verified model of its core

leakh scans a directory and extracts a candidate password from each line of every
`.txt` or `.csv` file with a regular expression. It drops candidates that match an
unwanted pattern or are too short, counts the survivors per file and merges the
per-file tables into one global table. It then ranks the tokens by descending count
and writes two artifacts:
- a listing of the tokens;
- a `Password,Count` stats file.

This project models that pipeline in Dafny and proves its contracts. The pipeline is
all of `src/main.rs` except the command line, the TOML loading and the file system.

Modules, one per component of `src/main.rs`:

- `Rules` holds the `Config` and `FileConfig` shapes and resolves which rule set a
  file name gets.
- `Regex` is the regex engine, left uninterpreted. An `Engine` value gives three
  functions: which patterns compile, the group-1 capture of a pattern on a line, and
  whether a pattern matches a string. Every lemma outside `Scenarios` holds for every
  engine; the `Scenarios` lemmas fix one example engine.
- `Extractor` models `extract_password`. It covers the in-order unwanted check with
  its early exit, the UTF-8 byte length used by `String::len`, and the panics.
- `Counting` models `process_file`: the line loop that bumps the table handed in by
  `&mut`.
- `Merge` models the nested loop in `main` that adds every local table into the
  global one.
- `Ranking` models `into_iter().collect()` and the stable, in-place
  `sort_by(|a, b| b.1.cmp(&a.1))`.
- `Output` models the line layout of `write_output`, with a read-back function for
  stats lines.
- `Pipeline` models the extension filter and `main` as a whole.
- `Scenarios` checks the tool's worked examples. The first is a file whose lines give
  `admin`, `hunter2`, `abc` and `hunter2`, which yields `{"hunter2": 2}`. The second is
  a merge that gives two tied counts and so two admissible rankings.
- `Wrappers` and `Strings` are small helpers: `Option`/`Result`, and the last index
  of a character in a string.

A panic is modelled as a `Result` whose `Err` carries a `Fault`. Faults come from:
- an invalid line pattern;
- `caps[1]` when group 1 is absent or did not take part in the match;
- an invalid unwanted pattern that the loop reaches;
- an unreadable line.

A worker runs in a detached thread, so its panic ends only that thread. The thread
never sends its table, and `main` still merges the other tables and writes the
output. The run as a whole is not aborted, and the model follows this code behaviour
(this assumes Rust's default unwinding panics).

A line whose match lacks group 1 does not simply yield no token. `caps[1]` panics on
it, and the model records that panic as `MissingGroup`.

## Model

| member | source | states |
|---|---|---|
| `Rules.ResolveRules` | src/main.rs:131-134 | the file's override when its base name is a key of the present `files` map, otherwise `default`; exactly one of the two, never a mixture |
| `Rules.ResolveAbsentMapIsEmptyMap` | src/main.rs:132-134 | an absent `files` map and an empty one both resolve every name to `default` |
| `Rules.ResolveOverrideIsLocal` | src/main.rs:132-134 | an override for one name gives that name exactly the override and leaves every other name's resolution unchanged |
| `Extractor.ByteLen` | src/main.rs:166 | `String::len` is the UTF-8 byte length, between one and four bytes per character |
| `Extractor.ByteLenAscii` | src/main.rs:166 | for ASCII text the byte length equals the character count |
| `Extractor.FirstUnwanted` | src/main.rs:155-163 | the unwanted loop returns the index of the first pattern, in list order, that matches; every earlier pattern compiled and missed; `None` exactly when every pattern compiles and none matches; a panic names the first pattern that failed to compile, reached before any hit |
| `Extractor.ExtractPassword` | src/main.rs:150-176 | no token exactly when the line does not match; a panic exactly when group 1 is missing or the unwanted loop reaches a pattern that does not compile before any hit; an unwanted rejection, naming the first matching pattern, exactly when such a hit comes first; a too-short rejection exactly when the candidate passes every unwanted pattern but has fewer than `min_length` bytes; acceptance exactly when it passes both, and every verdict's token is the line's group 1 |
| `Extractor.UnwantedRejectsRegardlessOfLength` | src/main.rs:155-162 | a candidate matched by an unwanted pattern, with all earlier patterns compiling, is rejected as unwanted whatever its length |
| `Extractor.ShortIsNeverAccepted` | src/main.rs:166-171 | a candidate below `min_length` bytes is never accepted, whatever the unwanted patterns say |
| `Extractor.UnwantedOrderIrrelevant` | src/main.rs:155-162 | when all unwanted patterns compile, reordering the list changes neither whether extraction panics nor the token it yields |
| `Extractor.NoFaultWhenAllCompile` | src/main.rs:155-157 | when every unwanted pattern compiles, the unwanted check cannot panic |
| `Counting.CountLines` | src/main.rs:141-146 | the line loop from some point on: it only ever adds keys and raises counts, and it never reports an invalid line pattern (that is checked before the loop) |
| `Counting.ProcessFileSpec` | src/main.rs:130-147 | the whole of `process_file`: it panics with an invalid-pattern fault exactly when the resolved rule set's pattern does not compile, and otherwise only adds keys and raises counts |
| `Counting.Bump` | src/main.rs:144 | `entry(t).or_insert(0) += 1` raises the count of `t` by one from zero and changes no other count |
| `Counting.CountLinesTally` | src/main.rs:141-146 | the line loop finishes exactly when no line faults; then each count has grown by the number of lines whose extraction returned that token, and a token never returned keeps its prior count or stays absent |
| `Counting.HitsWitness` | src/main.rs:141-146 | a token with a positive count of hits was accepted from some line of the file |
| `Counting.LocalTableFiltered` | src/main.rs:141-146 | in a table built from empty, every count is at least 1, and every token is group 1 of some line, matches no unwanted pattern and meets `min_length`, under the rule set the file name resolves to |
| `Counting.ProcessFile` | src/main.rs:130-147 | `process_file` on the table passed by `&mut`: an invalid line pattern panics before any line is read; otherwise the result is the line loop's, and each count grows by that token's number of hits |
| `Merge.AddTable` | src/main.rs:110-112 | adding one local table: the keys become the union, and each count becomes the global count plus the local count, a missing key counting as zero |
| `Merge.MergeTables` | src/main.rs:108-113 | the global table after the local tables arrived in the given order, the last one added last; `MergeTablesSums` and `MergeTablesPermutation` state what it is |
| `Merge.MergeTablesSums` | src/main.rs:108-113 | each global count is the sum of the token's counts over all local tables, and the global keys are exactly the tokens some local table has |
| `Merge.SumCountsPermutation` | src/main.rs:108-113 | a token's summed count does not depend on the order of the tables |
| `Merge.MergeTablesPermutation` | src/main.rs:108-113 | any permutation of the arrival order yields the same global table |
| `Merge.MergeInto` | src/main.rs:110-112 | the inner loop, visiting the local entries in any order, adds every local count into the global table |
| `Merge.MergeAll` | src/main.rs:108-113 | the outer loop's result: global count equals the sum of local counts, keys the union of local keys |
| `Ranking.InsertByCount` | src/main.rs:117 | one insertion step: the new entry goes after every entry whose count is at least its own, giving a sequence one longer that holds it; the lemmas below state stability, order and permutation |
| `Ranking.StableRank` | src/main.rs:117 | the reference stable sort by descending count, inserting left to right, of the same length as its input; `StableRankCorrect` and `StableSortIsStableRank` say it is the result of `sort_by` |
| `Ranking.InsertByCountMultiset` | src/main.rs:117 | one insertion step keeps every element |
| `Ranking.InsertByCountStable` | src/main.rs:117 | one insertion step keeps the order among entries of equal count |
| `Ranking.InsertByCountSorted` | src/main.rs:117 | one insertion step keeps a non-increasing sequence non-increasing |
| `Ranking.StableRankCorrect` | src/main.rs:117 | the ranking is non-increasing in count, a permutation of its input, and stable within each count |
| `Ranking.SortedByCountUnique` | src/main.rs:117 | two count-descending sequences with the same per-count subsequences are equal |
| `Ranking.StableSortIsStableRank` | src/main.rs:117 | any stable descending sort by count, as `sort_by` is, produces exactly the model's ranking |
| `Ranking.SortByCountDesc` | src/main.rs:117 | the vector is reordered in place into the stable descending ranking of its old contents |
| `Ranking.InsertLast` | src/main.rs:117 | one in-place step inserts the element at `i` into the already ranked prefix and leaves the rest alone |
| `Ranking.OpenSlot` | src/main.rs:117 | the shifting loop moves each smaller-count entry one slot right and stops after an entry whose count is at least the key's |
| `Ranking.ListsEntriesPermutation` | src/main.rs:116-117 | reordering a listing of a table's entries still lists each entry once |
| `Ranking.CollectEntries` | src/main.rs:116 | `into_iter().collect()` lists every (token, count) entry of the table once, in some order |
| `Ranking.Rank` | src/main.rs:116-117 | the ranked vector is a permutation of the table's entries and non-increasing in count |
| `Output.Decimal` | src/main.rs:188 | a count is printed as decimal digits with no leading zero |
| `Output.DecimalRoundTrip` | src/main.rs:188 | reading a printed count back gives the count |
| `Output.StatsLine` | src/main.rs:188 | a stats line starts with the token, and its last comma is the one right after the token, since the count has only digits |
| `Output.StatsLineRoundTrip` | src/main.rs:188 | a `token,count` line reads back, split at its last comma, as the entry it was written from, even when the token contains commas |
| `Output.StatsHeaderIsNotAnEntry` | src/main.rs:184 | the `Password,Count` header does not read back as an entry |
| `Output.WriteOutput` | src/main.rs:179-190 | the listing holds the ranked tokens in order; the stats file holds the header followed by one `token,count` line per ranked entry, each readable back |
| `Pipeline.Extension` | src/main.rs:82 | `Path::extension` of a base name: none exactly when the name is `..` or has no dot after its first character (so `.txt` alone has none); otherwise the text after the last dot, which has no dot and is preceded by at least one other character; a trailing dot gives the empty extension |
| `Pipeline.IsEligible` | src/main.rs:82-84 | an entry gets a worker exactly when its extension is `txt` or `csv`; `EligibleBySuffix` states it as a suffix test |
| `Pipeline.EligibleBySuffix` | src/main.rs:82-84 | an entry gets a worker exactly when its name ends in `.txt` or `.csv` (case-sensitive) after at least one other character |
| `Pipeline.WorkerResult` | src/main.rs:91-95 | one worker: its file processed into a fresh table; a table it sends has only counts of at least 1, each for a token accepted from some line under the file's resolved rule set |
| `Pipeline.ReceivedTables` | src/main.rs:87-109 | the tables that reach the receiver in directory order: no more than there are entries, each the result of a worker of an eligible entry that did not panic |
| `Pipeline.ReceivedSumsHits` | src/main.rs:87-113 | the summed counts of the tables that reach the merge equal the total hits over the eligible files whose worker finished |
| `Pipeline.GlobalCountIsTotalHits` | src/main.rs:87-113 | each global count is the number of lines, over all eligible files whose worker finished, that yield the token under the file's own rule set |
| `Pipeline.IneligibleAddsNothing` | src/main.rs:82-99 | a file without a `txt` or `csv` extension, wherever it stands in the directory order, spawns no worker and changes neither the received tables nor any total |
| `Pipeline.Run` | src/main.rs:76-118 | one run: the global table is the merge of the finished workers' tables, each count is the token's total hits, the ranking lists the table's entries by descending count, and the output lines follow it |
| `Scenarios.ExampleLocalTable` | src/main.rs:141-146 | the lines `password=admin`, `password=hunter2`, `password=abc`, `password=hunter2` under `^admin$` and minimum 4 give `{"hunter2": 2}` |
| `Scenarios.ExampleMerge` | src/main.rs:108-113 | `{"hunter2": 2}` and `{"hunter2": 1, "letmein": 3}` merge to `{"hunter2": 3, "letmein": 3}` |
| `Scenarios.ExampleRankingTie` | src/main.rs:116-117 | with that tie, the ranking is one of the two orders of the entries |

## Left out

- Command-line parsing with clap (src/main.rs:25-67). It is argument plumbing.
- TOML loading (src/main.rs:124-127). A foreign library does the deserialisation; the
  model starts from a parsed `Config`.
- The regex engine (`Regex::new`, `captures`, `is_match`). It is foreign code,
  modelled only as the abstract `Engine`. No property relies on what a pattern means.
- Directory listing, file opening and line splitting. They are I/O.
  - A directory entry is its base name and its lines.
  - An undecodable line is the `Unreadable` item.
  - Errors opening a file or reading the directory are not modelled.
  - Non-UTF-8 file names are not modelled.
- Threads and the crossbeam channel. The point there is concurrency.
  - `Run` executes the workers one after another and merges in directory order.
  - `MergeTablesPermutation` shows that every other arrival order gives the same table.
- Verbose and progress `println!` output. It is console output only. The reason class
  of a rejection (unwanted or too short, in that order) is kept in `Verdict`; the
  messages are not.
- File creation and byte-level writes in `write_output`, and their possible panics.
  They are I/O; the two files are modelled as sequences of lines.
- `usize` bounds: counts and `min_length` are unbounded naturals. An overflow of a
  count would need more than 2^64 lines.
- `Ranking.SortByCountDesc`: Rust's own stable sort algorithm is replaced by an
  insertion sort. `StableSortIsStableRank` shows that every stable sort by this key
  gives the same sequence, so the result is the one Rust produces.
- `HashMap` iteration order is unspecified. The model picks entries in an arbitrary
  order (`:|`), and properties hold up to that order.
- Repeated compilation of the same unwanted pattern on every line is not modelled.
  Compilation is deterministic, so `compiles` is a single predicate.
