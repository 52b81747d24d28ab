/** The trace side of `main`: which lines are accepted, the index each accepted
    line receives, and the partition of the numbered lines by CAN identifier. */
module Trace {
  import opened Hex

  /** Three identifier digits followed by sixteen payload digits. */
  const LineLength: nat := 19
  const IdLength: nat := 3

  /** A numbered trace line as `main` hands it to a worker: `(lineIndex, line)`. */
  datatype Entry = Entry(index: nat, line: string)

  /** The only test `main` applies before numbering a line: its length and
      its identifier digits. The payload digits are not looked at here. */
  predicate Accepted(line: string) {
    |line| == LineLength && IsHexString(line[..IdLength])
  }

  /** The identifier `std::stoul(idStr, nullptr, 16)` reads from the first three digits. */
  function CanId(line: string): (id: nat)
    requires Accepted(line)
    ensures id < 0x1000
  {
    256 * DigitValue(line[0]) + 16 * DigitValue(line[1]) + DigitValue(line[2])
  }

  /** The identifier printed as three lower-case digits is the line's
      identifier field up to the case of its letters. */
  lemma CanIdDigits(line: string)
    requires Accepted(line)
    ensures var id := CanId(line);
      [LowerDigit(id / 256), LowerDigit(id / 16 % 16), LowerDigit(id % 16)] == Lowercase(line[..IdLength])
  {
    ThreeDigits(DigitValue(line[0]), DigitValue(line[1]), DigitValue(line[2]));
    LowerDigitOfValue(line[0]);
    LowerDigitOfValue(line[1]);
    LowerDigitOfValue(line[2]);
  }

  /** Three hex digits read high digit first are recovered by division. */
  lemma ThreeDigits(d0: nat, d1: nat, d2: nat)
    requires d0 < 16 && d1 < 16 && d2 < 16
    ensures var v := 256 * d0 + 16 * d1 + d2;
      v < 0x1000 && v / 256 == d0 && v / 16 % 16 == d1 && v % 16 == d2
  {
    var v := 256 * d0 + 16 * d1 + d2;
    assert v == 16 * (16 * d0 + d1) + d2;
    assert v / 16 == 16 * d0 + d1;
    assert v == 256 * d0 + (16 * d1 + d2);
  }

  /** Reference definition: the accepted lines, in trace order. */
  function AcceptedLines(lines: seq<string>): (r: seq<string>)
    ensures |r| <= |lines|
    ensures forall i :: 0 <= i < |r| ==> Accepted(r[i])
  {
    if |lines| == 0 then []
    else (if Accepted(lines[0]) then [lines[0]] else []) + AcceptedLines(lines[1..])
  }

  lemma {:induction false} AcceptedLinesAppend(a: seq<string>, b: seq<string>)
    ensures AcceptedLines(a + b) == AcceptedLines(a) + AcceptedLines(b)
  {
    if |a| > 0 {
      assert (a + b)[1..] == a[1..] + b;
      AcceptedLinesAppend(a[1..], b);
    } else {
      assert a + b == b;
    }
  }

  /** The numbering of `main`'s read loop: every accepted line receives the
      counter's current value, which then advances; other lines are skipped. */
  function Numbered(lines: seq<string>): (r: seq<Entry>)
    ensures |r| == |AcceptedLines(lines)|
    ensures forall i :: 0 <= i < |r| ==> r[i] == Entry(i, AcceptedLines(lines)[i])
    decreases |lines|
  {
    if |lines| == 0 then []
    else
      var n := |lines| - 1;
      var earlier := Numbered(lines[..n]);
      var line := lines[n];
      assert AcceptedLines(lines) == AcceptedLines(lines[..n]) + (if Accepted(line) then [line] else []) by {
        assert lines == lines[..n] + [line];
        AcceptedLinesAppend(lines[..n], [line]);
      }
      if Accepted(line) then earlier + [Entry(|earlier|, line)] else earlier
  }

  /** The numbering is determined by the accepted lines alone. */
  lemma NumberedOfSameLines(a: seq<string>, b: seq<string>)
    requires AcceptedLines(a) == AcceptedLines(b)
    ensures Numbered(a) == Numbered(b)
  {
    var na, nb := Numbered(a), Numbered(b);
    assert |na| == |nb|;
    forall i | 0 <= i < |na| ensures na[i] == nb[i] {
    }
  }

  /** A line that is not accepted neither receives an index nor shifts the
      indices of the accepted lines around it. */
  lemma RejectedLineLeavesNumbering(a: seq<string>, x: string, b: seq<string>)
    requires !Accepted(x)
    ensures Numbered(a + [x] + b) == Numbered(a + b)
  {
    AcceptedLinesAppend(a + [x], b);
    AcceptedLinesAppend(a, [x]);
    AcceptedLinesAppend(a, b);
    assert AcceptedLines([x]) == [] by {
      assert [x][1..] == [];
    }
    NumberedOfSameLines(a + [x] + b, a + b);
  }

  /** Reading further lines never changes the indices already given out. */
  lemma NumberingIsStable(a: seq<string>, b: seq<string>)
    ensures |Numbered(a)| <= |Numbered(a + b)|
    ensures Numbered(a) == Numbered(a + b)[..|Numbered(a)|]
  {
    AcceptedLinesAppend(a, b);
    var na, nab := Numbered(a), Numbered(a + b);
    forall i | 0 <= i < |na| ensures na[i] == nab[i] {
      assert AcceptedLines(a + b)[i] == AcceptedLines(a)[i];
    }
  }

  /** The entries are numbered in strictly increasing order. */
  predicate Ascending(entries: seq<Entry>) {
    forall i, j :: 0 <= i < j < |entries| ==> entries[i].index < entries[j].index
  }

  predicate AllAccepted(entries: seq<Entry>) {
    forall k :: 0 <= k < |entries| ==> Accepted(entries[k].line)
  }

  /** The entries `main` appends to `canMap[id]`, in the order it appends them. */
  function GroupOf(entries: seq<Entry>, id: nat): (g: seq<Entry>)
    requires AllAccepted(entries)
    ensures AllAccepted(g)
    ensures forall k :: 0 <= k < |g| ==> g[k] in entries && CanId(g[k].line) == id
    ensures Ascending(entries) ==> Ascending(g)
  {
    if |entries| == 0 then []
    else
      var n := |entries| - 1;
      var last := entries[n];
      var earlier := GroupOf(entries[..n], id);
      assert forall k :: 0 <= k < |earlier| ==> earlier[k] in entries;
      assert Ascending(entries) ==> forall k :: 0 <= k < |earlier| ==> earlier[k].index < last.index;
      if CanId(last.line) == id then earlier + [last] else earlier
  }

  /** Every entry of the identifier is in its group. */
  lemma {:induction false} GroupOfComplete(entries: seq<Entry>, id: nat, k: nat)
    requires AllAccepted(entries)
    requires k < |entries| && CanId(entries[k].line) == id
    ensures entries[k] in GroupOf(entries, id)
  {
    var n := |entries| - 1;
    var pre, last := entries[..n], entries[n];
    assert AllAccepted(pre) by {
      forall i | 0 <= i < n ensures Accepted(pre[i].line) {
        assert pre[i] == entries[i];
      }
    }
    assert pre + [last] == entries;
    GroupOfAppend(pre, last, id);
    if k < n {
      assert pre[k] == entries[k];
      GroupOfComplete(pre, id, k);
    }
  }

  function Ids(entries: seq<Entry>): set<nat>
    requires AllAccepted(entries)
  {
    set k | 0 <= k < |entries| :: CanId(entries[k].line)
  }

  /** Reference definition of `canMap`: one group per identifier that occurs. */
  function Groups(entries: seq<Entry>): map<nat, seq<Entry>>
    requires AllAccepted(entries)
  {
    map id | id in Ids(entries) :: GroupOf(entries, id)
  }

  /** `canMap` after reading the whole trace. */
  function TraceGroups(lines: seq<string>): map<nat, seq<Entry>> {
    Groups(Numbered(lines))
  }

  lemma GroupOfAppend(entries: seq<Entry>, e: Entry, id: nat)
    requires AllAccepted(entries)
    requires Accepted(e.line)
    ensures AllAccepted(entries + [e])
    ensures GroupOf(entries + [e], id) == GroupOf(entries, id) + (if CanId(e.line) == id then [e] else [])
  {
    assert (entries + [e])[..|entries|] == entries;
  }

  lemma {:induction false} GroupOfAbsent(entries: seq<Entry>, id: nat)
    requires AllAccepted(entries)
    requires id !in Ids(entries)
    ensures GroupOf(entries, id) == []
  {
    if |entries| > 0 {
      var n := |entries| - 1;
      assert CanId(entries[n].line) in Ids(entries);
      assert Ids(entries[..n]) <= Ids(entries) by {
        forall x | x in Ids(entries[..n]) ensures x in Ids(entries) {
          var k :| 0 <= k < n && CanId(entries[..n][k].line) == x;
          assert entries[..n][k] == entries[k];
        }
      }
      GroupOfAbsent(entries[..n], id);
    }
  }

  lemma IdsAppend(entries: seq<Entry>, e: Entry)
    requires AllAccepted(entries)
    requires Accepted(e.line)
    ensures AllAccepted(entries + [e])
    ensures Ids(entries + [e]) == Ids(entries) + {CanId(e.line)}
  {
    var all := entries + [e];
    forall x | x in Ids(all) ensures x in Ids(entries) + {CanId(e.line)} {
      var k :| 0 <= k < |all| && CanId(all[k].line) == x;
      if k < |entries| {
        assert all[k] == entries[k];
      }
    }
    forall x | x in Ids(entries) ensures x in Ids(all) {
      var k :| 0 <= k < |entries| && CanId(entries[k].line) == x;
      assert all[k] == entries[k];
    }
    assert CanId(all[|entries|].line) in Ids(all);
  }

  /** What one `canMap[canId].emplace_back(...)` does to the group of `k`. */
  lemma GroupsAppendAt(entries: seq<Entry>, e: Entry, k: nat)
    requires AllAccepted(entries)
    requires Accepted(e.line)
    requires k in Ids(entries) || k == CanId(e.line)
    ensures AllAccepted(entries + [e])
    ensures GroupOf(entries + [e], k) ==
      (if k in Ids(entries) then GroupOf(entries, k) else []) + (if k == CanId(e.line) then [e] else [])
  {
    GroupOfAppend(entries, e, k);
    if k !in Ids(entries) {
      GroupOfAbsent(entries, k);
    }
  }

  /** What one `canMap[canId].emplace_back(...)` does to the reference partition. */
  lemma GroupsAppend(entries: seq<Entry>, e: Entry)
    requires AllAccepted(entries)
    requires Accepted(e.line)
    ensures AllAccepted(entries + [e])
    ensures var id := CanId(e.line);
      Groups(entries + [e]) ==
        Groups(entries)[id := (if id in Groups(entries) then Groups(entries)[id] else []) + [e]]
  {
    var id := CanId(e.line);
    IdsAppend(entries, e);
    var before, after := Groups(entries), Groups(entries + [e]);
    var expected := before[id := (if id in before then before[id] else []) + [e]];
    assert after.Keys == expected.Keys;
    forall k | k in after.Keys
      ensures after[k] == expected[k]
    {
      GroupsAppendAt(entries, e, k);
    }
  }

  /** Reading one more line: the numbering grows by that line alone, if accepted. */
  lemma NumberedPrefix(lines: seq<string>, k: nat)
    requires k < |lines|
    ensures Numbered(lines[..k + 1]) ==
      Numbered(lines[..k]) + (if Accepted(lines[k]) then [Entry(|Numbered(lines[..k])|, lines[k])] else [])
  {
    assert lines[..k + 1][..k] == lines[..k];
  }

  /** `main`'s read loop: number the accepted lines and append each one to the
      group of its identifier. It computes the reference partition. */
  method PartitionTrace(lines: seq<string>) returns (groups: map<nat, seq<Entry>>, count: nat)
    ensures count == |AcceptedLines(lines)|
    ensures groups == TraceGroups(lines)
  {
    groups := map[];
    count := 0;
    var k := 0;
    assert lines[..0] == [];
    assert Ids([]) == {};
    while k < |lines|
      invariant 0 <= k <= |lines|
      invariant count == |Numbered(lines[..k])|
      invariant groups == Groups(Numbered(lines[..k]))
    {
      var line := lines[k];
      NumberedPrefix(lines, k);
      if |line| == LineLength && IsHexString(line[..IdLength]) {
        var id := CanId(line);
        var group := if id in groups then groups[id] else [];
        GroupsAppend(Numbered(lines[..k]), Entry(count, line));
        groups := groups[id := group + [Entry(count, line)]];
        count := count + 1;
        assert groups == Groups(Numbered(lines[..k + 1]));
      } else {
        assert Numbered(lines[..k + 1]) == Numbered(lines[..k]);
      }
      k := k + 1;
    }
    assert lines[..k] == lines;
  }

  /** Each group holds exactly the numbered lines of its identifier, each one
      at the position its index names, with indices strictly increasing. */
  lemma GroupsAreFaithful(lines: seq<string>, id: nat)
    requires id in TraceGroups(lines)
    ensures var n := Numbered(lines);
      var g := TraceGroups(lines)[id];
      && g != []
      && Ascending(g)
      && (forall k :: 0 <= k < |g| ==> g[k].index < |n| && n[g[k].index] == g[k] && CanId(g[k].line) == id)
      && (forall i :: 0 <= i < |n| && CanId(n[i].line) == id ==> n[i] in g)
  {
    var n := Numbered(lines);
    var g := GroupOf(n, id);
    assert Ascending(n);
    forall k | 0 <= k < |g|
      ensures g[k].index < |n| && n[g[k].index] == g[k]
    {
      assert g[k] in n;
      var j :| 0 <= j < |n| && n[j] == g[k];
    }
    forall i | 0 <= i < |n| && CanId(n[i].line) == id
      ensures n[i] in g
    {
      GroupOfComplete(n, id, i);
    }
    var i :| 0 <= i < |n| && CanId(n[i].line) == id;
    assert n[i] in g;
  }
}
