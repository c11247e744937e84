/** Ranking: the global table collected into a vector of entries, then sorted in
    place by the standard library's stable sort on descending count. */
module Ranking {

  /** One `(String, usize)` element of the ranked vector. */
  type Entry = (string, nat)

  /** Counts never increase along the sequence. */
  predicate NonIncreasing(s: seq<Entry>) {
    forall i, j :: 0 <= i < j < |s| ==> s[i].1 >= s[j].1
  }

  /** The entries of `s` whose count is `c`, in the order of `s`. */
  function WithCount(s: seq<Entry>, c: nat): seq<Entry> {
    if s == [] then [] else (if s[0].1 == c then [s[0]] else []) + WithCount(s[1..], c)
  }

  /** What `WithCount` keeps comes from `s` and has count `c`. */
  lemma {:induction false} WithCountMember(s: seq<Entry>, c: nat, x: Entry)
    requires x in WithCount(s, c)
    ensures x in s && x.1 == c
    decreases |s|
  {
    if !(s[0].1 == c && x == s[0]) {
      WithCountMember(s[1..], c, x);
    }
  }

  /** `x` placed after every entry whose count is at least its own: the step of a
      stable insertion sort by descending count. */
  function InsertByCount(r: seq<Entry>, x: Entry): (s: seq<Entry>)
    ensures |s| == |r| + 1 && x in s
    decreases |r|
  {
    if r == [] || r[|r| - 1].1 >= x.1 then r + [x]
    else InsertByCount(r[..|r| - 1], x) + [r[|r| - 1]]
  }

  /** The stable sort by descending count, inserting the elements left to right. */
  function StableRank(s: seq<Entry>): (r: seq<Entry>)
    ensures |r| == |s|
  {
    if s == [] then [] else InsertByCount(StableRank(s[..|s| - 1]), s[|s| - 1])
  }

  lemma {:induction false} WithCountAppend(a: seq<Entry>, b: seq<Entry>, c: nat)
    ensures WithCount(a + b, c) == WithCount(a, c) + WithCount(b, c)
    decreases |a|
  {
    if a == [] {
      assert a + b == b;
    } else {
      assert (a + b)[1..] == a[1..] + b;
      WithCountAppend(a[1..], b, c);
    }
  }

  /** Where `InsertByCount` puts `x`: after a prefix ending in a count at least
      `x`'s, and before a suffix of strictly smaller counts. */
  lemma {:induction false} InsertByCountSplit(r: seq<Entry>, x: Entry) returns (k: nat)
    ensures k <= |r| && InsertByCount(r, x) == r[..k] + [x] + r[k..]
    ensures k == 0 || r[k - 1].1 >= x.1
    ensures forall j :: k <= j < |r| ==> r[j].1 < x.1
    decreases |r|
  {
    if r == [] || r[|r| - 1].1 >= x.1 {
      k := |r|;
      assert r[..k] == r && r[k..] == [];
    } else {
      var front := r[..|r| - 1];
      k := InsertByCountSplit(front, x);
      assert front[..k] == r[..k];
      assert front[k..] + [r[|r| - 1]] == r[k..];
    }
  }

  /** Inserting keeps the elements. */
  lemma {:induction false} InsertByCountMultiset(r: seq<Entry>, x: Entry)
    ensures multiset(InsertByCount(r, x)) == multiset(r) + multiset{x}
  {
    var k := InsertByCountSplit(r, x);
    assert r == r[..k] + r[k..];
  }

  /** Inserting keeps the order within every count: `x` comes after the entries that
      share its count. */
  lemma {:induction false} InsertByCountStable(r: seq<Entry>, x: Entry, c: nat)
    ensures WithCount(InsertByCount(r, x), c) == WithCount(r + [x], c)
  {
    var k := InsertByCountSplit(r, x);
    assert r == r[..k] + r[k..];
    WithCountAppend(r[..k] + [x], r[k..], c);
    WithCountAppend(r[..k], [x], c);
    WithCountAppend(r[..k], r[k..], c);
    WithCountAppend(r, [x], c);
    if x.1 == c {
      WithCountBelow(r[k..], c);
    }
  }

  /** Inserting keeps a non-increasing sequence non-increasing. */
  lemma {:induction false} InsertByCountSorted(r: seq<Entry>, x: Entry)
    requires NonIncreasing(r)
    ensures NonIncreasing(InsertByCount(r, x))
  {
    var k := InsertByCountSplit(r, x);
    var s := InsertByCount(r, x);
    assert |s| == |r| + 1;
    forall i | 0 <= i < |s| ensures s[i] == if i < k then r[i] else if i == k then x else r[i - 1] {
    }
    forall i | 0 <= i < k ensures r[i].1 >= x.1 {
      assert r[i].1 >= r[k - 1].1;
    }
  }

  /** A sequence whose counts are all below `c` has nothing with count `c`. */
  lemma {:induction false} WithCountBelow(s: seq<Entry>, c: nat)
    requires forall j :: 0 <= j < |s| ==> s[j].1 < c
    ensures WithCount(s, c) == []
    decreases |s|
  {
    if s != [] {
      WithCountBelow(s[1..], c);
    }
  }

  /** The ranking is sorted by descending count, is a permutation of its input, and
      is stable: within every count the entries keep their input order. */
  lemma {:induction false} StableRankCorrect(s: seq<Entry>)
    ensures NonIncreasing(StableRank(s))
    ensures multiset(StableRank(s)) == multiset(s)
    ensures forall c :: WithCount(StableRank(s), c) == WithCount(s, c)
    decreases |s|
  {
    if s != [] {
      var front, x := s[..|s| - 1], s[|s| - 1];
      assert s == front + [x];
      StableRankCorrect(front);
      InsertByCountMultiset(StableRank(front), x);
      InsertByCountSorted(StableRank(front), x);
      forall c ensures WithCount(StableRank(s), c) == WithCount(s, c) {
        InsertByCountStable(StableRank(front), x, c);
        WithCountAppend(StableRank(front), [x], c);
        WithCountAppend(front, [x], c);
      }
    }
  }

  /** The per-count subsequence for the count of the first entry starts with it. */
  lemma WithCountHead(s: seq<Entry>)
    requires s != []
    ensures WithCount(s, s[0].1) == [s[0]] + WithCount(s[1..], s[0].1)
  {
  }

  /** Two sequences sorted by descending count that agree on every per-count
      subsequence are equal. */
  lemma {:induction false} SortedByCountUnique(a: seq<Entry>, b: seq<Entry>)
    requires NonIncreasing(a) && NonIncreasing(b)
    requires forall c :: WithCount(a, c) == WithCount(b, c)
    ensures a == b
    decreases |a|
  {
    if a == [] && b != [] {
      WithCountHead(b);
      assert false;
    } else if a != [] && b == [] {
      WithCountHead(a);
      assert false;
    } else if a != [] {
      if a[0].1 > b[0].1 {
        assert a[0] in WithCount(b, a[0].1);
        WithCountMember(b, a[0].1, a[0]);
        assert false;
      }
      if b[0].1 > a[0].1 {
        assert b[0] in WithCount(a, b[0].1);
        WithCountMember(a, b[0].1, b[0]);
        assert false;
      }
      var c := a[0].1;
      assert WithCount(a, c) == [a[0]] + WithCount(a[1..], c);
      assert WithCount(b, c) == [b[0]] + WithCount(b[1..], c);
      assert a[0] == b[0];
      forall c' ensures WithCount(a[1..], c') == WithCount(b[1..], c') {
        if c' != c {
          assert WithCount(a, c') == WithCount(a[1..], c');
          assert WithCount(b, c') == WithCount(b[1..], c');
        } else {
          assert WithCount(a[1..], c) == WithCount(a, c)[1..];
          assert WithCount(b[1..], c) == WithCount(b, c)[1..];
        }
      }
      SortedByCountUnique(a[1..], b[1..]);
    }
  }

  /** Any stable sort by descending count, as `sort_by` is, gives exactly `StableRank`. */
  lemma StableSortIsStableRank(s: seq<Entry>, sorted: seq<Entry>)
    requires NonIncreasing(sorted)
    requires forall c :: WithCount(sorted, c) == WithCount(s, c)
    ensures sorted == StableRank(s)
  {
    StableRankCorrect(s);
    SortedByCountUnique(sorted, StableRank(s));
  }

  /** The in-place stable sort of the ranked vector by descending count. */
  method SortByCountDesc(a: array<Entry>)
    modifies a
    ensures a[..] == StableRank(old(a[..]))
  {
    ghost var input := a[..];
    for i := 0 to a.Length
      invariant a[..i] == StableRank(input[..i])
      invariant a[i..] == input[i..]
    {
      assert a[i] == input[i];
      InsertLast(a, i);
      assert input[..i + 1][..i] == input[..i];
    }
    assert input[..a.Length] == input;
  }

  /** One step of the sort: the element at `i` moves left past the entries of smaller
      count, so that the first `i + 1` slots hold it inserted into the first `i`. */
  method InsertLast(a: array<Entry>, i: nat)
    requires i < a.Length
    modifies a
    ensures a[..i + 1] == InsertByCount(old(a[..i]), old(a[i]))
    ensures a[i + 1..] == old(a[i + 1..])
  {
    ghost var prefix := a[..i];
    var x := a[i];
    var j := OpenSlot(a, i, x);
    a[j] := x;
    InsertByCountAt(prefix, x, j);
    ghost var expected := prefix[..j] + [x] + prefix[j..];
    assert forall k :: 0 <= k <= i ==> a[k] == expected[k];
    assert a[..i + 1] == expected;
    assert a[i + 1..] == old(a[i + 1..]);
  }

  /** The shifting loop of the insertion step: entries before `i` whose count is below
      `x`'s move one slot right, leaving slot `j` free. */
  method OpenSlot(a: array<Entry>, i: nat, x: Entry) returns (j: nat)
    requires i < a.Length
    modifies a
    ensures j <= i
    ensures forall k :: 0 <= k < j ==> a[k] == old(a[k])
    ensures forall k :: j < k <= i ==> a[k] == old(a[k - 1])
    ensures forall k :: i < k < a.Length ==> a[k] == old(a[k])
    ensures j == 0 || old(a[j - 1]).1 >= x.1
    ensures forall k :: j <= k < i ==> old(a[k]).1 < x.1
  {
    j := i;
    while j > 0 && a[j - 1].1 < x.1
      invariant 0 <= j <= i
      invariant forall k :: 0 <= k < j ==> a[k] == old(a[k])
      invariant forall k :: j < k <= i ==> a[k] == old(a[k - 1])
      invariant forall k :: i < k < a.Length ==> a[k] == old(a[k])
      invariant forall k :: j <= k < i ==> old(a[k]).1 < x.1
    {
      a[j] := a[j - 1];
      j := j - 1;
    }
  }

  /** Where `InsertByCount` puts `x`, read from the counts around slot `j`. */
  lemma {:induction false} InsertByCountAt(p: seq<Entry>, x: Entry, j: nat)
    requires j <= |p| && (j == 0 || p[j - 1].1 >= x.1)
    requires forall k :: j <= k < |p| ==> p[k].1 < x.1
    ensures InsertByCount(p, x) == p[..j] + [x] + p[j..]
    decreases |p|
  {
    if j == |p| {
      assert p[..j] == p && p[j..] == [];
    } else {
      var front := p[..|p| - 1];
      InsertByCountAt(front, x, j);
      assert front[..j] == p[..j];
      assert front[j..] + [p[|p| - 1]] == p[j..];
    }
  }

  /** `v` lists each entry of `table` exactly once, in some order: every element is an
      entry of the table, every entry is an element, and there are as many elements
      as entries. */
  predicate ListsEntriesOf(v: seq<Entry>, table: map<string, nat>) {
    && |v| == |table|
    && (forall i :: 0 <= i < |v| ==> v[i].0 in table && table[v[i].0] == v[i].1)
    && (forall t :: t in table ==> (t, table[t]) in v)
  }

  /** Reordering a listing of the table's entries is still a listing of them. */
  lemma ListsEntriesPermutation(v: seq<Entry>, w: seq<Entry>, table: map<string, nat>)
    requires ListsEntriesOf(v, table) && multiset(v) == multiset(w)
    ensures ListsEntriesOf(w, table)
  {
    assert |w| == |multiset(w)| == |multiset(v)| == |v|;
    forall i | 0 <= i < |w| ensures w[i].0 in table && table[w[i].0] == w[i].1 {
      assert w[i] in multiset(v);
    }
    forall t | t in table ensures (t, table[t]) in w {
      assert (t, table[t]) in multiset(v);
    }
  }

  /** Draining the table into a vector: its entries in an arbitrary order. */
  method CollectEntries(table: map<string, nat>) returns (v: seq<Entry>)
    ensures ListsEntriesOf(v, table)
  {
    v := [];
    var pending := table.Keys;
    while pending != {}
      invariant pending <= table.Keys
      invariant |v| + |pending| == |table|
      invariant forall i :: 0 <= i < |v| ==> v[i].0 in table && v[i].0 !in pending && table[v[i].0] == v[i].1
      invariant forall t :: t in table && t !in pending ==> (t, table[t]) in v
      decreases pending
    {
      var t :| t in pending;
      v := v + [(t, table[t])];
      pending := pending - {t};
    }
  }

  /** Collect then sort: the ranked vector lists the table's entries, each once, by
      descending count. */
  method Rank(table: map<string, nat>) returns (ranked: seq<Entry>)
    ensures NonIncreasing(ranked)
    ensures ListsEntriesOf(ranked, table)
  {
    var v := CollectEntries(table);
    var a := new Entry[|v|](i requires 0 <= i < |v| => v[i]);
    assert a[..] == v;
    SortByCountDesc(a);
    ranked := a[..];
    StableRankCorrect(v);
    ListsEntriesPermutation(v, ranked, table);
  }
}
