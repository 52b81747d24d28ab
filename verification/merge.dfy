/** The end of `main`: one worker per identifier appends its records to the
    shared buffer, and the buffer is sorted by line index. The workers are
    run one after another, in any order of the identifiers. */
module Merge {
  import opened Trace
  import opened IsoTp

  /** Non-decreasing index order. */
  predicate Sorted(rs: seq<Record>) {
    forall i, j :: 0 <= i < j < |rs| ==> rs[i].index <= rs[j].index
  }

  /** No two records share a line index. */
  predicate DistinctIndices(rs: seq<Record>) {
    forall i, j :: 0 <= i < j < |rs| ==> rs[i].index != rs[j].index
  }

  /** Puts a record in front of the first record with a larger index. */
  function Insert(r: Record, rs: seq<Record>): (out: seq<Record>)
    requires Sorted(rs)
    ensures Sorted(out)
    ensures multiset(out) == multiset(rs) + multiset{r}
  {
    if |rs| == 0 then [r]
    else if r.index <= rs[0].index then [r] + rs
    else
      SortedTail(rs);
      var later := Insert(r, rs[1..]);
      assert rs == [rs[0]] + rs[1..];
      LeastInFront(rs[0], rs[1..], r, later);
      [rs[0]] + later
  }

  lemma SortedTail(rs: seq<Record>)
    requires Sorted(rs)
    requires |rs| > 0
    ensures Sorted(rs[1..])
    ensures forall k :: 0 <= k < |rs[1..]| ==> rs[0].index <= rs[1..][k].index
  {
    var tail := rs[1..];
    forall i, j | 0 <= i < j < |tail| ensures tail[i].index <= tail[j].index {
      assert tail[i] == rs[i + 1] && tail[j] == rs[j + 1];
    }
    forall k | 0 <= k < |tail| ensures rs[0].index <= tail[k].index {
      assert tail[k] == rs[k + 1];
    }
  }

  /** A record no later than every record of a sorted sequence can go in front. */
  lemma LeastInFront(first: Record, tail: seq<Record>, r: Record, later: seq<Record>)
    requires forall k :: 0 <= k < |tail| ==> first.index <= tail[k].index
    requires first.index <= r.index
    requires Sorted(later)
    requires multiset(later) == multiset(tail) + multiset{r}
    ensures Sorted([first] + later)
  {
    var out := [first] + later;
    forall k | 0 <= k < |later| ensures first.index <= later[k].index {
      assert later[k] in multiset(later);
      if later[k] != r {
        assert later[k] in multiset(tail);
        var m :| 0 <= m < |tail| && tail[m] == later[k];
      }
    }
    forall i, j | 0 <= i < j < |out| ensures out[i].index <= out[j].index {
      assert out[j] == later[j - 1];
      if i > 0 {
        assert out[i] == later[i - 1];
      }
    }
  }

  /** `std::sort` over the buffer: the tuples compare by index first, and the
      indices are distinct, so this is a sort by index. */
  function SortByIndex(rs: seq<Record>): (out: seq<Record>)
    ensures Sorted(out)
    ensures multiset(out) == multiset(rs)
  {
    if |rs| == 0 then []
    else
      assert rs == [rs[0]] + rs[1..];
      Insert(rs[0], SortByIndex(rs[1..]))
  }

  /** Inserting a record whose index is new into a strictly ascending
      sequence keeps it strictly ascending. */
  lemma {:induction false} InsertStrict(r: Record, rs: seq<Record>)
    requires StrictlyAscending(rs)
    requires forall k :: 0 <= k < |rs| ==> rs[k].index != r.index
    ensures Sorted(rs)
    ensures StrictlyAscending(Insert(r, rs))
  {
    if |rs| > 0 && r.index > rs[0].index {
      var tail := rs[1..];
      StrictTail(rs);
      SortedTail(rs);
      assert forall k :: 0 <= k < |tail| ==> tail[k].index != r.index by {
        forall k | 0 <= k < |tail| ensures tail[k].index != r.index {
          assert tail[k] == rs[k + 1];
        }
      }
      assert forall k :: 0 <= k < |tail| ==> rs[0].index < tail[k].index by {
        forall k | 0 <= k < |tail| ensures rs[0].index < tail[k].index {
          assert tail[k] == rs[k + 1];
        }
      }
      InsertStrict(r, tail);
      LessInFront(rs[0], tail, r, Insert(r, tail));
    }
  }

  /** A record earlier than every record of a strictly ascending sequence can go in front. */
  lemma LessInFront(first: Record, tail: seq<Record>, r: Record, later: seq<Record>)
    requires forall k :: 0 <= k < |tail| ==> first.index < tail[k].index
    requires first.index < r.index
    requires StrictlyAscending(later)
    requires multiset(later) == multiset(tail) + multiset{r}
    ensures StrictlyAscending([first] + later)
  {
    var out := [first] + later;
    forall k | 0 <= k < |later| ensures first.index < later[k].index {
      assert later[k] in multiset(later);
      if later[k] != r {
        assert later[k] in multiset(tail);
        var m :| 0 <= m < |tail| && tail[m] == later[k];
      }
    }
    forall i, j | 0 <= i < j < |out| ensures out[i].index < out[j].index {
      assert out[j] == later[j - 1];
      if i > 0 {
        assert out[i] == later[i - 1];
      }
    }
  }

  /** Sorting records whose indices are distinct orders them strictly. */
  lemma {:induction false} SortStrict(rs: seq<Record>)
    requires DistinctIndices(rs)
    ensures StrictlyAscending(SortByIndex(rs))
  {
    if |rs| > 0 {
      var tail := rs[1..];
      assert DistinctIndices(tail) by {
        forall i, j | 0 <= i < j < |tail| ensures tail[i].index != tail[j].index {
          assert tail[i] == rs[i + 1] && tail[j] == rs[j + 1];
        }
      }
      SortStrict(tail);
      var sorted := SortByIndex(tail);
      forall k | 0 <= k < |sorted| ensures sorted[k].index != rs[0].index {
        assert sorted[k] in multiset(tail);
        var m :| 0 <= m < |tail| && tail[m] == sorted[k];
        assert tail[m] == rs[m + 1];
      }
      InsertStrict(rs[0], sorted);
    }
  }

  /** A sorted permutation of a strictly ascending sequence is that sequence:
      when the indices are distinct, the sorted order is unique. */
  lemma {:induction false} SortedIsUnique(a: seq<Record>, b: seq<Record>)
    requires Sorted(a)
    requires StrictlyAscending(b)
    requires multiset(a) == multiset(b)
    ensures a == b
    decreases |a|
  {
    assert |a| == |multiset(a)| == |multiset(b)| == |b|;
    if |a| > 0 {
      SortedSameFirst(a, b);
      assert multiset(a[1..]) == multiset(b[1..]) by {
        assert a == [a[0]] + a[1..] && b == [b[0]] + b[1..];
        assert multiset(a[1..]) == multiset(a) - multiset{a[0]};
        assert multiset(b[1..]) == multiset(b) - multiset{b[0]};
      }
      SortedTail(a);
      StrictTail(b);
      SortedIsUnique(a[1..], b[1..]);
      assert a == [a[0]] + a[1..] && b == [b[0]] + b[1..];
    }
  }

  /** The first record of a sorted permutation of a strictly ascending
      sequence is that sequence's first record. */
  lemma SortedSameFirst(a: seq<Record>, b: seq<Record>)
    requires Sorted(a)
    requires StrictlyAscending(b)
    requires multiset(a) == multiset(b)
    requires |a| > 0 && |b| > 0
    ensures a[0] == b[0]
  {
    assert a[0] in multiset(b) && b[0] in multiset(a);
    var j :| 0 <= j < |b| && b[j] == a[0];
    var i :| 0 <= i < |a| && a[i] == b[0];
    assert a[0].index <= a[i].index;
    assert j == 0;
  }

  /** Two strictly ascending sequences with the same members are equal. */
  lemma {:induction false} AscendingIsUnique(a: seq<Record>, b: seq<Record>)
    requires StrictlyAscending(a)
    requires StrictlyAscending(b)
    requires forall x :: x in a <==> x in b
    ensures a == b
    decreases |a|
  {
    assert FirstIsMember(a) && FirstIsMember(b);
    if |a| > 0 && |b| > 0 {
      SameFirst(a, b);
      var ta, tb := a[1..], b[1..];
      TailInTail(a, b);
      TailInTail(b, a);
      StrictTail(a);
      StrictTail(b);
      AscendingIsUnique(ta, tb);
      assert a == [a[0]] + ta && b == [b[0]] + tb;
    }
  }

  /** With the same members, the first records are the same: each is the one
      with the least index. */
  lemma SameFirst(a: seq<Record>, b: seq<Record>)
    requires StrictlyAscending(a) && StrictlyAscending(b)
    requires forall x :: x in a <==> x in b
    requires |a| > 0 && |b| > 0
    ensures a[0] == b[0]
  {
    assert a[0] in a && b[0] in b;
    var j :| 0 <= j < |b| && b[j] == a[0];
    var i :| 0 <= i < |a| && a[i] == b[0];
    assert a[0].index <= a[i].index;
    assert j == 0;
  }

  lemma TailInTail(a: seq<Record>, b: seq<Record>)
    requires StrictlyAscending(a)
    requires forall x :: x in a ==> x in b
    requires |a| > 0 && |b| > 0 && a[0] == b[0]
    ensures forall x :: x in a[1..] ==> x in b[1..]
  {
    forall x | x in a[1..] ensures x in b[1..] {
      var m :| 0 <= m < |a[1..]| && a[1..][m] == x;
      assert x == a[m + 1] && x.index > a[0].index && x in a;
      var p :| 0 <= p < |b| && b[p] == x;
      assert p != 0;
      assert b[1..][p - 1] == x;
    }
  }

  /** A non-empty sequence has a member (stated so that it can be asserted
      whether or not the sequence is empty). */
  predicate FirstIsMember(s: seq<Record>) {
    |s| > 0 ==> s[0] in s
  }

  lemma StrictTail(rs: seq<Record>)
    requires StrictlyAscending(rs)
    ensures |rs| > 0 ==> StrictlyAscending(rs[1..])
  {
    if |rs| > 0 {
      var tail := rs[1..];
      forall i, j | 0 <= i < j < |tail| ensures tail[i].index < tail[j].index {
        assert tail[i] == rs[i + 1] && tail[j] == rs[j + 1];
      }
    }
  }

  /** No identifier is listed twice. */
  predicate DistinctIds(order: seq<nat>) {
    forall i, j :: 0 <= i < j < |order| ==> order[i] != order[j]
  }

  /** `order` lists every identifier of `ids` exactly once: one possible order
      in which the workers' records reach the buffer. */
  predicate Enumerates(order: seq<nat>, ids: set<nat>) {
    && DistinctIds(order)
    && (forall i :: 0 <= i < |order| ==> order[i] in ids)
    && (forall id :: id in ids ==> id in order)
  }

  /** The records each worker emits, by identifier. */
  type Outputs = map<nat, seq<Record>>

  predicate Covers(outputs: Outputs, order: seq<nat>) {
    forall i :: 0 <= i < |order| ==> order[i] in outputs
  }

  /** The buffer after the workers for `order` ran, one after another. */
  function Collect(outputs: Outputs, order: seq<nat>): (rs: seq<Record>)
    requires Covers(outputs, order)
    ensures |order| > 0 ==> |rs| >= |outputs[order[|order| - 1]]|
  {
    if |order| == 0 then []
    else
      var n := |order| - 1;
      assert forall i :: 0 <= i < n ==> order[..n][i] == order[i];
      Collect(outputs, order[..n]) + outputs[order[n]]
  }

  /** The next worker's records go after those already in the buffer. */
  lemma CollectAppend(outputs: Outputs, order: seq<nat>, id: nat)
    requires Covers(outputs, order)
    requires id in outputs
    ensures Covers(outputs, order + [id])
    ensures Collect(outputs, order + [id]) == Collect(outputs, order) + outputs[id]
  {
    assert (order + [id])[..|order|] == order;
  }

  /** One of the workers for `order` emitted `x`. */
  predicate EmittedBy(outputs: Outputs, order: seq<nat>, x: Record)
    requires Covers(outputs, order)
  {
    exists i :: 0 <= i < |order| && x in outputs[order[i]]
  }

  /** A record is in the buffer exactly when one of the workers emitted it. */
  lemma {:induction false} CollectMembers(outputs: Outputs, order: seq<nat>, x: Record)
    requires Covers(outputs, order)
    ensures x in Collect(outputs, order) <==> EmittedBy(outputs, order, x)
  {
    if |order| > 0 {
      var n := |order| - 1;
      var prefix := order[..n];
      assert forall i :: 0 <= i < n ==> prefix[i] == order[i];
      CollectMembers(outputs, prefix, x);
      assert Collect(outputs, order) == Collect(outputs, prefix) + outputs[order[n]];
      EmittedByLast(outputs, order, x);
    }
  }

  lemma EmittedByLast(outputs: Outputs, order: seq<nat>, x: Record)
    requires Covers(outputs, order)
    requires |order| > 0
    ensures var n := |order| - 1;
      && Covers(outputs, order[..n])
      && (EmittedBy(outputs, order, x) <==> EmittedBy(outputs, order[..n], x) || x in outputs[order[n]])
  {
    var n := |order| - 1;
    var prefix := order[..n];
    assert forall i :: 0 <= i < n ==> prefix[i] == order[i];
    if EmittedBy(outputs, order, x) {
      var i :| 0 <= i < |order| && x in outputs[order[i]];
      if i < n {
        assert x in outputs[prefix[i]];
      }
    }
    if EmittedBy(outputs, prefix, x) {
      var i :| 0 <= i < n && x in outputs[prefix[i]];
      assert x in outputs[order[i]];
    }
  }

  lemma EmittedByOthers(outputs: Outputs, o1: seq<nat>, o2: seq<nat>, x: Record)
    requires Covers(outputs, o1) && Covers(outputs, o2)
    requires forall id :: id in o1 ==> id in o2
    ensures EmittedBy(outputs, o1, x) ==> EmittedBy(outputs, o2, x)
  {
    if EmittedBy(outputs, o1, x) {
      var i :| 0 <= i < |o1| && x in outputs[o1[i]];
      assert o1[i] in o1;
      var j :| 0 <= j < |o2| && o2[j] == o1[i];
      assert x in outputs[o2[j]];
    }
  }

  /** Workers over the same identifiers, in whatever order, fill the buffer
      with the same records. */
  lemma SameWorkersSameRecords(outputs: Outputs, o1: seq<nat>, o2: seq<nat>)
    requires Covers(outputs, o1) && Covers(outputs, o2)
    requires forall id :: id in o1 <==> id in o2
    ensures forall x :: x in Collect(outputs, o1) <==> x in Collect(outputs, o2)
  {
    forall x ensures x in Collect(outputs, o1) <==> x in Collect(outputs, o2) {
      CollectMembers(outputs, o1, x);
      CollectMembers(outputs, o2, x);
      EmittedByOthers(outputs, o1, o2, x);
      EmittedByOthers(outputs, o2, o1, x);
    }
  }

  /** Two different workers never report the same line index. */
  predicate Separated(outputs: Outputs) {
    forall a, b, x, y :: a in outputs && b in outputs && x in outputs[a] && y in outputs[b] && a != b ==> x.index != y.index
  }

  /** Every worker reports its records in strictly increasing index order. */
  predicate EachAscending(outputs: Outputs) {
    forall id :: id in outputs ==> StrictlyAscending(outputs[id])
  }

  /** The buffer's records have pairwise distinct indices when each worker's
      records ascend strictly and no two workers share a line. */
  lemma {:induction false} CollectDistinct(outputs: Outputs, order: seq<nat>)
    requires Covers(outputs, order)
    requires DistinctIds(order)
    requires EachAscending(outputs)
    requires Separated(outputs)
    ensures DistinctIndices(Collect(outputs, order))
  {
    if |order| > 0 {
      var n := |order| - 1;
      var prefix := order[..n];
      assert forall i :: 0 <= i < n ==> prefix[i] == order[i];
      CollectDistinct(outputs, prefix);
      var earlier := Collect(outputs, prefix);
      var id := order[n];
      var worker := outputs[id];
      var all := earlier + worker;
      assert Collect(outputs, order) == all;
      forall p, q | 0 <= p < q < |all| ensures all[p].index != all[q].index {
        if q >= |earlier| {
          var y := worker[q - |earlier|];
          assert all[q] == y && y in outputs[id];
          if p >= |earlier| {
            assert all[p] == worker[p - |earlier|];
          } else {
            var x := earlier[p];
            assert all[p] == x;
            CollectMembers(outputs, prefix, x);
            var i :| 0 <= i < n && x in outputs[prefix[i]];
            assert prefix[i] != id;
          }
        }
      }
    }
  }

  /** What the workers emit: `processCanFrames` on every group. */
  function Spawn(groups: map<nat, seq<Entry>>): (outputs: Outputs)
    ensures outputs.Keys == groups.Keys
  {
    map id | id in groups :: ProcessCanFrames(id, groups[id])
  }

  /** What the workers emit for the groups of the trace. */
  function Workers(lines: seq<string>): (outputs: Outputs)
    ensures outputs.Keys == TraceGroups(lines).Keys
  {
    Spawn(TraceGroups(lines))
  }

  /** A record a worker emits reports a line of the trace under that line's
      own identifier, which is the worker's. */
  lemma WorkerProvenance(lines: seq<string>)
    ensures forall id, x | id in Workers(lines) && x in Workers(lines)[id] ::
      && x.canId == id
      && x.index < |Numbered(lines)|
      && CanId(Numbered(lines)[x.index].line) == id
  {
    forall id, x | id in Workers(lines) && x in Workers(lines)[id]
      ensures x.canId == id && x.index < |Numbered(lines)| && CanId(Numbered(lines)[x.index].line) == id
    {
      var g := TraceGroups(lines)[id];
      var out := ProcessCanFrames(id, g);
      assert Workers(lines)[id] == out;
      var m :| 0 <= m < |out| && out[m] == x;
      GroupsAreFaithful(lines, id);
      var k :| 0 <= k < |g| && g[k].index == x.index;
    }
  }

  lemma WorkersAscending(lines: seq<string>)
    ensures EachAscending(Workers(lines))
  {
    forall id | id in Workers(lines) ensures StrictlyAscending(Workers(lines)[id]) {
      GroupsAreFaithful(lines, id);
      assert Workers(lines)[id] == ProcessCanFrames(id, TraceGroups(lines)[id]);
    }
  }

  lemma WorkersSeparated(lines: seq<string>)
    ensures Separated(Workers(lines))
  {
    var outputs := Workers(lines);
    forall a: nat, b: nat, x: Record, y: Record | a in outputs && b in outputs && x in outputs[a] && y in outputs[b] && a != b
      ensures x.index != y.index
    {
      WorkerProvenance(lines);
    }
  }

  /** The decoder's output for the workers run in `order`: the buffer sorted
      by line index. */
  function Decode(lines: seq<string>, order: seq<nat>): (out: seq<Record>)
    requires Enumerates(order, TraceGroups(lines).Keys)
    ensures StrictlyAscending(out)
    ensures multiset(out) == multiset(Collect(Workers(lines), order))
  {
    var outputs := Workers(lines);
    var buffer := Collect(outputs, order);
    WorkersAscending(lines);
    WorkersSeparated(lines);
    CollectDistinct(outputs, order);
    SortStrict(buffer);
    SortByIndex(buffer)
  }

  /** A permutation has the same members. */
  lemma SameMembers(a: seq<Record>, b: seq<Record>)
    requires multiset(a) == multiset(b)
    ensures forall x :: x in a <==> x in b
  {
    forall x ensures x in a <==> x in b {
      assert x in a <==> x in multiset(a);
      assert x in b <==> x in multiset(b);
    }
  }

  /** Every output record reports a line of the trace, under that line's own
      identifier. */
  lemma DecodeProvenance(lines: seq<string>, order: seq<nat>)
    requires Enumerates(order, TraceGroups(lines).Keys)
    ensures forall r | r in Decode(lines, order) ::
      r.index < |Numbered(lines)| && CanId(Numbered(lines)[r.index].line) == r.canId
  {
    var outputs := Workers(lines);
    SameMembers(Decode(lines, order), Collect(outputs, order));
    WorkerProvenance(lines);
    forall r | r in Decode(lines, order)
      ensures r.index < |Numbered(lines)| && CanId(Numbered(lines)[r.index].line) == r.canId
    {
      CollectMembers(outputs, order, r);
      var i :| 0 <= i < |order| && r in outputs[order[i]];
    }
  }

  /** The output does not depend on the order in which the workers ran. */
  lemma DecodeIndependentOfOrder(lines: seq<string>, o1: seq<nat>, o2: seq<nat>)
    requires Enumerates(o1, TraceGroups(lines).Keys)
    requires Enumerates(o2, TraceGroups(lines).Keys)
    ensures Decode(lines, o1) == Decode(lines, o2)
  {
    var outputs := Workers(lines);
    var d1, d2 := Decode(lines, o1), Decode(lines, o2);
    SameWorkersSameRecords(outputs, o1, o2);
    SameMembers(d1, Collect(outputs, o1));
    SameMembers(d2, Collect(outputs, o2));
    AscendingIsUnique(d1, d2);
  }

  /** However the workers' appends interleave, the buffer holds the same
      records, and sorting it gives the same output. */
  lemma InterleavingIrrelevant(lines: seq<string>, order: seq<nat>, buffer: seq<Record>)
    requires Enumerates(order, TraceGroups(lines).Keys)
    requires multiset(buffer) == multiset(Collect(Workers(lines), order))
    ensures SortByIndex(buffer) == Decode(lines, order)
  {
    SortedIsUnique(SortByIndex(buffer), Decode(lines, order));
  }

  /** A Single Frame of length 1 to 7 or a Flow Control frame anywhere in the
      trace is reported in the output, with its own line index and identifier. */
  lemma PassthroughDecoded(lines: seq<string>, order: seq<nat>, k: nat)
    requires Enumerates(order, TraceGroups(lines).Keys)
    requires k < |Numbered(lines)|
    requires Passthrough(Numbered(lines)[k]).Some?
    ensures var e := Numbered(lines)[k];
      Record(k, CanId(e.line), Passthrough(e).value) in Decode(lines, order)
  {
    var n := Numbered(lines);
    var e := n[k];
    var id := CanId(e.line);
    var groups := TraceGroups(lines);
    var outputs := Workers(lines);
    assert id in Ids(n);
    var g := groups[id];
    GroupsAreFaithful(lines, id);
    var j :| 0 <= j < |g| && g[j] == e;
    PassthroughReported(id, Idle, g, j);
    var rec := Record(k, id, Passthrough(e).value);
    assert rec in outputs[id];
    var i :| 0 <= i < |order| && order[i] == id;
    CollectMembers(outputs, order, rec);
    SameMembers(Decode(lines, order), Collect(outputs, order));
  }

  /** The identifiers already run, in the order they ran, and those still to run. */
  predicate Progress(keys: set<nat>, remaining: set<nat>, done: seq<nat>) {
    && remaining <= keys
    && DistinctIds(done)
    && (forall i :: 0 <= i < |done| ==> done[i] in keys && done[i] !in remaining)
    && (forall id :: id in keys ==> id in remaining || id in done)
  }

  lemma ProgressStep(keys: set<nat>, remaining: set<nat>, done: seq<nat>, id: nat)
    requires Progress(keys, remaining, done)
    requires id in remaining
    ensures Progress(keys, remaining - {id}, done + [id])
  {
    var next := done + [id];
    forall i | 0 <= i < |next| ensures next[i] in keys && next[i] !in remaining - {id} {
      if i < |done| {
        assert next[i] == done[i];
      }
    }
    forall k | k in keys ensures k in remaining - {id} || k in next {
      if k in done {
        var i :| 0 <= i < |done| && done[i] == k;
        assert next[i] == k;
      }
      if k == id {
        assert next[|done|] == k;
      }
    }
  }

  /** The spawn and join loops of `main`, run one worker at a time: the
      identifiers are taken from the map in an arbitrary order, and each
      worker's records are appended to the buffer. */
  method RunWorkers(groups: map<nat, seq<Entry>>) returns (done: seq<nat>, buffer: seq<Record>)
    ensures Enumerates(done, groups.Keys)
    ensures Covers(Spawn(groups), done)
    ensures buffer == Collect(Spawn(groups), done)
  {
    var outputs := Spawn(groups);
    var remaining := groups.Keys;
    done, buffer := [], [];
    while remaining != {}
      invariant Progress(groups.Keys, remaining, done)
      invariant Covers(outputs, done)
      invariant buffer == Collect(outputs, done)
      decreases remaining
    {
      var id :| id in remaining;
      assert outputs[id] == ProcessCanFrames(id, groups[id]);
      CollectAppend(outputs, done, id);
      ProgressStep(groups.Keys, remaining, done, id);
      buffer := buffer + ProcessCanFrames(id, groups[id]);
      done := done + [id];
      remaining := remaining - {id};
    }
    assert Enumerates(done, groups.Keys);
  }

  /** The whole decoder: partition the trace, run one worker per identifier in
      an arbitrary order of the map's keys, and sort the buffer. */
  method DecodeTrace(lines: seq<string>) returns (out: seq<Record>)
    ensures StrictlyAscending(out)
    ensures forall order :: Enumerates(order, TraceGroups(lines).Keys) ==> out == Decode(lines, order)
  {
    var groups, count := PartitionTrace(lines);
    var done, buffer := RunWorkers(groups);
    out := SortByIndex(buffer);
    InterleavingIrrelevant(lines, done, buffer);
    forall order | Enumerates(order, TraceGroups(lines).Keys) ensures out == Decode(lines, order) {
      DecodeIndependentOfOrder(lines, done, order);
    }
  }
}
