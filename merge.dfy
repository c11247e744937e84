/** The merge in `main`: every local table that arrives over the channel is added,
    entry by entry, into one global table. */
module Merge {
  import opened Counting

  /** One local table added into the global one: counts add, and a token new to the
      global table starts from the local count. */
  function AddTable(global: map<string, nat>, local: map<string, nat>): (r: map<string, nat>)
    ensures r.Keys == global.Keys + local.Keys
    ensures forall t :: Count(r, t) == Count(global, t) + Count(local, t)
  {
    map t | t in global.Keys + local.Keys :: Count(global, t) + Count(local, t)
  }

  /** The global table after the given local tables arrived, in this order. */
  function MergeTables(locals: seq<map<string, nat>>): map<string, nat> {
    if locals == [] then map[]
    else AddTable(MergeTables(locals[..|locals| - 1]), locals[|locals| - 1])
  }

  /** The sum of the counts of `t` over all the tables. */
  function SumCounts(locals: seq<map<string, nat>>, t: string): nat {
    if locals == [] then 0
    else SumCounts(locals[..|locals| - 1], t) + Count(locals[|locals| - 1], t)
  }

  /** Some table has `t` as a key. */
  predicate InSome(locals: seq<map<string, nat>>, t: string) {
    exists i :: 0 <= i < |locals| && t in locals[i]
  }

  /** Each global count is the sum of that token's counts over all local tables, and
      the global keys are exactly the tokens some local table has. */
  lemma {:induction false} MergeTablesSums(locals: seq<map<string, nat>>)
    ensures forall t :: Count(MergeTables(locals), t) == SumCounts(locals, t)
    ensures forall t :: t in MergeTables(locals) <==> InSome(locals, t)
  {
    if locals != [] {
      var front := locals[..|locals| - 1];
      MergeTablesSums(front);
      forall t ensures t in MergeTables(locals) <==> InSome(locals, t) {
        if InSome(front, t) {
          var i :| 0 <= i < |front| && t in front[i];
          assert locals[i] == front[i];
        }
        if InSome(locals, t) && t !in locals[|locals| - 1] {
          var i :| 0 <= i < |locals| && t in locals[i];
          assert front[i] == locals[i];
        }
      }
    }
  }

  /** Summing over two runs of tables one after the other. */
  lemma {:induction false} SumCountsAppend(a: seq<map<string, nat>>, b: seq<map<string, nat>>, t: string)
    ensures SumCounts(a + b, t) == SumCounts(a, t) + SumCounts(b, t)
    decreases |b|
  {
    if b == [] {
      assert a + b == a;
    } else {
      assert (a + b)[..|a + b| - 1] == a + b[..|b| - 1];
      assert (a + b)[|a + b| - 1] == b[|b| - 1];
      SumCountsAppend(a, b[..|b| - 1], t);
    }
  }

  /** The sum does not depend on the order of the tables. */
  lemma {:induction false} SumCountsPermutation(a: seq<map<string, nat>>, b: seq<map<string, nat>>, t: string)
    requires multiset(a) == multiset(b)
    ensures SumCounts(a, t) == SumCounts(b, t)
    decreases |a|
  {
    if a != [] {
      var last := a[|a| - 1];
      var front := a[..|a| - 1];
      assert a == front + [last];
      assert last in multiset(b);
      var j :| 0 <= j < |b| && b[j] == last;
      var rest := b[..j] + b[j + 1..];
      assert b == b[..j] + [last] + b[j + 1..];
      assert multiset(rest) == multiset(front) by {
        assert multiset(rest) == multiset(b[..j]) + multiset(b[j + 1..]);
        assert multiset(b) == multiset(b[..j]) + multiset{last} + multiset(b[j + 1..]);
        assert multiset(a) == multiset(front) + multiset{last};
        assert multiset(rest) + multiset{last} == multiset(front) + multiset{last};
        assert multiset(rest) == multiset(rest) + multiset{last} - multiset{last};
        assert multiset(front) == multiset(front) + multiset{last} - multiset{last};
      }
      SumCountsPermutation(front, rest, t);
      SumCountsAppend(b[..j] + [last], b[j + 1..], t);
      SumCountsAppend(b[..j], [last], t);
      SumCountsAppend(b[..j], b[j + 1..], t);
      assert SumCounts([last], t) == Count(last, t) by {
        var none: seq<map<string, nat>> := [];
        assert [last][..0] == none;
      }
    }
  }

  /** Merge commutativity: any arrival order of the local tables yields the same
      global table. */
  lemma MergeTablesPermutation(a: seq<map<string, nat>>, b: seq<map<string, nat>>)
    requires multiset(a) == multiset(b)
    ensures MergeTables(a) == MergeTables(b)
  {
    MergeTablesSums(a);
    MergeTablesSums(b);
    forall t ensures InSome(a, t) <==> InSome(b, t) {
      if InSome(a, t) {
        var i :| 0 <= i < |a| && t in a[i];
        assert a[i] in multiset(b);
        var j :| 0 <= j < |b| && b[j] == a[i];
      }
      if InSome(b, t) {
        var i :| 0 <= i < |b| && t in b[i];
        assert b[i] in multiset(a);
        var j :| 0 <= j < |a| && a[j] == b[i];
      }
    }
    forall t | t in MergeTables(a) ensures MergeTables(a)[t] == MergeTables(b)[t] {
      SumCountsPermutation(a, b, t);
      assert Count(MergeTables(a), t) == Count(MergeTables(b), t);
    }
  }

  /** The inner loop `for (password, count) in local_counts`, visiting the local
      table's entries in an arbitrary order. */
  method MergeInto(global: map<string, nat>, local: map<string, nat>) returns (merged: map<string, nat>)
    ensures merged == AddTable(global, local)
  {
    merged := global;
    var pending := local.Keys;
    while pending != {}
      invariant pending <= local.Keys
      invariant merged.Keys == global.Keys + (local.Keys - pending)
      invariant forall t :: Count(merged, t) == Count(global, t) + (if t in pending then 0 else Count(local, t))
      decreases pending
    {
      var t :| t in pending;
      merged := merged[t := Count(merged, t) + local[t]];
      pending := pending - {t};
    }
    assert merged.Keys == AddTable(global, local).Keys;
    forall t | t in merged ensures merged[t] == AddTable(global, local)[t] {
      assert Count(merged, t) == Count(global, t) + Count(local, t);
    }
  }

  /** The outer loop `for local_counts in receiver`, with the arrivals as a sequence:
      every global count is the sum of the local counts. */
  method MergeAll(locals: seq<map<string, nat>>) returns (global: map<string, nat>)
    ensures global == MergeTables(locals)
    ensures forall t :: Count(global, t) == SumCounts(locals, t)
    ensures forall t :: t in global <==> InSome(locals, t)
  {
    global := map[];
    for i := 0 to |locals|
      invariant global == MergeTables(locals[..i])
    {
      global := MergeInto(global, locals[i]);
      assert locals[..i + 1][..i] == locals[..i];
    }
    assert locals[..|locals|] == locals;
    MergeTablesSums(locals);
  }
}
