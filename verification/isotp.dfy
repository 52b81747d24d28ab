/** The per-identifier worker `processCanFrames`: the ISO 15765-2 reassembly
    state machine, stated as a pure step over the session record and folded
    over one identifier's entries. */
module IsoTp {
  import opened Optional
  import opened Hex
  import opened Trace

  /** `IsoTpMessage`: the one in-flight reassembly of an identifier. */
  datatype Session = Session(assembling: bool, expectedLen: int, receivedLen: int, lastSN: int, data: seq<Byte>)

  /** A default-constructed `IsoTpMessage`. */
  const Idle := Session(false, 0, 0, -1, [])

  /** The largest length a First Frame can declare: twelve bits. */
  const MaxMessageLength := 0xFFF

  /** The sessions the worker can reach: an idle session is exactly the default
      one; an assembling one declares a twelve-bit length, counts exactly the
      bytes it holds and remembers a four-bit sequence number. */
  predicate Valid(s: Session) {
    if s.assembling then
      && 0 <= s.expectedLen <= MaxMessageLength
      && s.receivedLen == |s.data|
      && 0 <= s.lastSN < 16
    else s == Idle
  }

  /** The flow status a Flow Control frame reports. */
  datatype FlowStatus = ClearToSend | Wait | Overflow | Reserved

  /** The text the source prints for each status. */
  function Label(fs: FlowStatus): string {
    match fs
    case ClearToSend => "CTS"
    case Wait => "WT"
    case Overflow => "OVFLW"
    case Reserved => "RES"
  }

  /** The status selected by the low nibble of a Flow Control PCI byte. */
  function FlowStatusOf(nibble: nat): (fs: FlowStatus)
    requires nibble < 16
    ensures fs == ClearToSend <==> nibble == 0
    ensures fs == Wait <==> nibble == 1
    ensures fs == Overflow <==> nibble == 2
    ensures fs == Reserved <==> 3 <= nibble
  {
    if nibble == 0 then ClearToSend
    else if nibble == 1 then Wait
    else if nibble == 2 then Overflow
    else Reserved
  }

  /** The status text printed for a Flow Control frame, chosen by the low
      nibble of its PCI byte; each text belongs to exactly one nibble range. */
  lemma FlowStatusText(nibble: nat)
    requires nibble < 16
    ensures Label(FlowStatusOf(nibble)) == "CTS" <==> nibble == 0
    ensures Label(FlowStatusOf(nibble)) == "WT" <==> nibble == 1
    ensures Label(FlowStatusOf(nibble)) == "OVFLW" <==> nibble == 2
    ensures Label(FlowStatusOf(nibble)) == "RES" <==> 3 <= nibble
  {
  }

  /** What a record carries: the hex text of a reassembled payload, or the
      fields of a Flow Control frame. */
  datatype Body = Data(hex: string) | FlowControl(status: FlowStatus, blockSize: Byte, stMin: Byte)

  /** One `outputBuffer` tuple: the line index, the identifier and the body. */
  datatype Record = Record(index: nat, canId: nat, body: Body)

  /** The records are in strictly increasing index order. */
  predicate StrictlyAscending(rs: seq<Record>) {
    forall i, j :: 0 <= i < j < |rs| ==> rs[i].index < rs[j].index
  }

  /** Frame type, `(pci >> 4) & 0x0F`. */
  function FrameType(pci: Byte): nat {
    pci / 16
  }

  /** `pci & 0x0F`. */
  function LowNibble(pci: Byte): nat {
    pci % 16
  }

  /** The message length a First Frame declares: `((pci & 0x0F) << 8) | payload[1]`. */
  function DeclaredLength(payload: seq<Byte>): (n: nat)
    requires |payload| >= 2
    ensures n < 0x1000
  {
    LowNibble(payload[0]) * 256 + payload[1]
  }

  /** `std::vector::resize`: truncate, or pad with zero bytes. */
  function Resize(data: seq<Byte>, n: nat): (r: seq<Byte>)
    ensures |r| == n
    ensures n <= |data| ==> r == data[..n]
    ensures n > |data| ==> r[..|data|] == data
  {
    if n <= |data| then data[..n] else data + seq(n - |data|, _ => 0)
  }

  /** The outcome of one frame: the next session and the body it emits, if any. */
  datatype Transition = Transition(session: Session, output: Option<Body>)

  /** One pass of the frame `switch`, on an already decoded payload. A Flow
      Control frame reads two bytes after the PCI byte without a bounds check,
      so it needs at least three bytes. */
  function StepPayload(msg: Session, payload: seq<Byte>): (t: Transition)
    requires Valid(msg)
    requires |payload| >= 1
    requires FrameType(payload[0]) == 3 ==> |payload| >= 3
    ensures Valid(t.session)
    // Single Frame: a pass-through that never touches the session.
    ensures FrameType(payload[0]) == 0 ==>
      var len := LowNibble(payload[0]);
      && t.session == msg
      && (t.output.Some? <==> 1 <= len <= 7 && len < |payload|)
      && (t.output.Some? ==> t.output.value == Data(BytesToHexString(payload[1..1 + len])))
    // First Frame: discards any earlier session and starts a new one.
    ensures FrameType(payload[0]) == 1 ==>
      && t.output.None?
      && (|payload| < 2 ==> t.session == msg)
      && (|payload| >= 2 ==>
            && t.session.assembling
            && t.session.expectedLen == DeclaredLength(payload)
            && t.session.lastSN == 0
            && t.session.data == payload[2..])
    // Consecutive Frame out of turn: dropped, and the session is kept as it was.
    ensures FrameType(payload[0]) == 2 && !(msg.assembling && LowNibble(payload[0]) == (msg.lastSN + 1) % 16) ==>
      t == Transition(msg, None)
    // Consecutive Frame in turn: its bytes are appended; once the declared
    // length is covered, exactly that many bytes are emitted and the session ends.
    ensures FrameType(payload[0]) == 2 && msg.assembling && LowNibble(payload[0]) == (msg.lastSN + 1) % 16 ==>
      var data := msg.data + payload[1..];
      if msg.expectedLen <= |data| then
        t == Transition(Idle, Some(Data(BytesToHexString(data[..msg.expectedLen]))))
      else
        && t.output.None?
        && t.session == Session(true, msg.expectedLen, |data|, LowNibble(payload[0]), data)
    // Flow Control: reported, never part of the reassembly.
    ensures FrameType(payload[0]) == 3 ==>
      t == Transition(msg, Some(FlowControl(FlowStatusOf(LowNibble(payload[0])), payload[1], payload[2])))
    // Frame types 4 to 15: ignored.
    ensures FrameType(payload[0]) >= 4 ==> t == Transition(msg, None)
  {
    var pci := payload[0];
    var low := LowNibble(pci);
    match FrameType(pci)
    case 0 =>
      if low <= 0 || low > 7 || |payload| < low + 1 then Transition(msg, None)
      else Transition(msg, Some(Data(BytesToHexString(payload[1..1 + low]))))
    case 1 =>
      if |payload| < 2 then Transition(msg, None)
      else Transition(Session(true, DeclaredLength(payload), |payload| - 2, 0, payload[2..]), None)
    case 2 =>
      // `(lastSN + 1) & 0x0F` is the Euclidean remainder modulo 16 for every int.
      if !msg.assembling || low != (msg.lastSN + 1) % 16 then Transition(msg, None)
      else
        var data := msg.data + payload[1..];
        var received := msg.receivedLen + (|payload| - 1);
        if received >= msg.expectedLen then
          Transition(Idle, Some(Data(BytesToHexString(Resize(data, msg.expectedLen)))))
        else
          Transition(Session(true, msg.expectedLen, received, low, data), None)
    case 3 =>
      Transition(msg, Some(FlowControl(FlowStatusOf(low), payload[1], payload[2])))
    case _ =>
      Transition(msg, None)
  }

  /** The worker's line checks: a 19-character line whose 16 payload digits are
      hex decodes to its 8 payload bytes (so the empty-payload test never fires). */
  function Payload(line: string): (p: Option<seq<Byte>>)
    ensures p.Some? <==> |line| == LineLength && IsHexString(line[IdLength..])
    ensures p.Some? ==> |p.value| == 8
  {
    if |line| != LineLength then None
    else if !IsHexString(line[IdLength..]) then None
    else
      PayloadHasEightBytes(line[IdLength..]);
      var bytes := HexStringToBytes(line[IdLength..]);
      if |bytes| == 0 then None else Some(bytes)
  }

  /** The payload bytes are the ones the line's payload digits spell. */
  lemma PayloadDigits(line: string)
    requires Payload(line).Some?
    ensures BytesToHexString(Payload(line).value) == Lowercase(line[IdLength..])
  {
    HexRoundTrip(line[IdLength..]);
  }

  /** One iteration of the worker's loop over its entries: the session after
      the entry, and the record the entry emits, tagged with its own index. */
  function Step(canId: nat, msg: Session, e: Entry): (r: (Session, Option<Record>))
    requires Valid(msg)
    ensures Valid(r.0)
    ensures r.1.Some? ==> r.1.value.index == e.index && r.1.value.canId == canId
    ensures Payload(e.line).None? ==> r == (msg, None)
  {
    match Payload(e.line)
    case None => (msg, None)
    case Some(payload) =>
      var t := StepPayload(msg, payload);
      match t.output
      case None => (t.session, None)
      case Some(body) => (t.session, Some(Record(e.index, canId, body)))
  }

  function IndexSet(entries: seq<Entry>): set<nat> {
    set k | 0 <= k < |entries| :: entries[k].index
  }

  lemma IndexSetTail(entries: seq<Entry>)
    requires |entries| > 0
    ensures IndexSet(entries) == {entries[0].index} + IndexSet(entries[1..])
    ensures Ascending(entries) ==> forall x :: x in IndexSet(entries[1..]) ==> entries[0].index < x
  {
    var tail := entries[1..];
    forall x | x in IndexSet(entries) ensures x in {entries[0].index} + IndexSet(tail) {
      var k :| 0 <= k < |entries| && entries[k].index == x;
      if k > 0 {
        assert tail[k - 1] == entries[k];
      }
    }
    forall x | x in IndexSet(tail) ensures x in IndexSet(entries) && (Ascending(entries) ==> entries[0].index < x) {
      var k :| 0 <= k < |tail| && tail[k].index == x;
      assert tail[k] == entries[k + 1];
    }
    assert entries[0].index in IndexSet(entries);
  }

  /** The worker's loop: `Step` folded over the entries in trace order,
      collecting the records in the order they are emitted. */
  function Run(canId: nat, msg: Session, entries: seq<Entry>): (r: (Session, seq<Record>))
    requires Valid(msg)
    ensures Valid(r.0)
    ensures |r.1| <= |entries|
    decreases |entries|
  {
    if |entries| == 0 then (msg, [])
    else
      var (next, out) := Step(canId, msg, entries[0]);
      var (last, rest) := Run(canId, next, entries[1..]);
      (last, (if out.Some? then [out.value] else []) + rest)
  }

  /** Every record the loop emits carries the worker's identifier and the index
      of one of its entries. */
  lemma {:induction false} RunTagged(canId: nat, msg: Session, entries: seq<Entry>)
    requires Valid(msg)
    ensures Tagged(Run(canId, msg, entries).1, canId, IndexSet(entries))
    decreases |entries|
  {
    if |entries| > 0 {
      var st := Step(canId, msg, entries[0]);
      var next, out := st.0, st.1;
      var rest := Run(canId, next, entries[1..]).1;
      RunTagged(canId, next, entries[1..]);
      var head := if out.Some? then [out.value] else [];
      var all := head + rest;
      assert Run(canId, msg, entries).1 == all;
      IndexSetTail(entries);
      forall k | 0 <= k < |all| ensures all[k].canId == canId && all[k].index in IndexSet(entries) {
        if k < |head| {
          assert all[k] == out.value && out.value.index == entries[0].index;
        } else {
          assert all[k] == rest[k - |head|];
          assert rest[k - |head|].index in IndexSet(entries[1..]);
        }
      }
    }
  }

  /** Entries in trace order give records in strictly increasing index order. */
  lemma {:induction false} RunAscending(canId: nat, msg: Session, entries: seq<Entry>)
    requires Valid(msg)
    ensures Ascending(entries) ==> StrictlyAscending(Run(canId, msg, entries).1)
    decreases |entries|
  {
    if |entries| > 0 && Ascending(entries) {
      var st := Step(canId, msg, entries[0]);
      var next, out := st.0, st.1;
      var rest := Run(canId, next, entries[1..]).1;
      AscendingTail(entries);
      RunAscending(canId, next, entries[1..]);
      var head := if out.Some? then [out.value] else [];
      assert Run(canId, msg, entries).1 == head + rest;
      if out.Some? {
        assert forall k :: 0 <= k < |rest| ==> out.value.index < rest[k].index by {
          RunTagged(canId, next, entries[1..]);
          IndexSetTail(entries);
        }
        PrependAscending(out.value, rest);
      } else {
        assert head + rest == rest;
      }
    }
  }

  /** Every record carries this identifier and one of these indices. */
  predicate Tagged(records: seq<Record>, canId: nat, indices: set<nat>) {
    forall k :: 0 <= k < |records| ==> records[k].canId == canId && records[k].index in indices
  }

  lemma AscendingTail(entries: seq<Entry>)
    requires |entries| > 0
    requires Ascending(entries)
    ensures Ascending(entries[1..])
  {
    forall i, j | 0 <= i < j < |entries| - 1 ensures entries[1..][i].index < entries[1..][j].index {
      assert entries[1..][i] == entries[i + 1] && entries[1..][j] == entries[j + 1];
    }
  }

  lemma PrependAscending(rec: Record, rest: seq<Record>)
    requires StrictlyAscending(rest)
    requires forall k :: 0 <= k < |rest| ==> rec.index < rest[k].index
    ensures StrictlyAscending([rec] + rest)
  {
  }

  /** `processCanFrames(canId, entries)`: a fresh session per worker. */
  function ProcessCanFrames(canId: nat, entries: seq<Entry>): (records: seq<Record>)
    ensures |records| <= |entries|
    ensures Tagged(records, canId, IndexSet(entries))
    ensures Ascending(entries) ==> StrictlyAscending(records)
  {
    RunTagged(canId, Idle, entries);
    RunAscending(canId, Idle, entries);
    Run(canId, Idle, entries).1
  }

  /** The entry's line decodes to a payload whose PCI byte has this frame type. */
  predicate IsFrame(e: Entry, frameType: nat) {
    Payload(e.line).Some? && FrameType(Payload(e.line).value[0]) == frameType
  }

  /** A Consecutive Frame carrying sequence number `sn`. */
  predicate IsConsecutive(e: Entry, sn: nat) {
    IsFrame(e, 2) && LowNibble(Payload(e.line).value[0]) == sn
  }

  predicate AllDecode(entries: seq<Entry>) {
    forall k :: 0 <= k < |entries| ==> Payload(entries[k].line).Some?
  }

  /** The bytes a run of Consecutive Frames carries after their PCI bytes. */
  function CarriedBytes(entries: seq<Entry>): (bytes: seq<Byte>)
    requires AllDecode(entries)
    ensures |bytes| == 7 * |entries|
  {
    if |entries| == 0 then []
    else Payload(entries[0].line).value[1..] + CarriedBytes(entries[1..])
  }

  /** One Consecutive Frame that continues the sequence. */
  lemma StepInTurn(canId: nat, msg: Session, e: Entry)
    requires Valid(msg) && msg.assembling
    requires IsConsecutive(e, (msg.lastSN + 1) % 16)
    ensures var p := Payload(e.line).value;
      var data := msg.data + p[1..];
      Step(canId, msg, e) ==
        if msg.expectedLen <= |data| then (Idle, Some(Record(e.index, canId, Data(BytesToHexString(data[..msg.expectedLen])))))
        else (Session(true, msg.expectedLen, |data|, LowNibble(p[0]), data), None)
  {
  }

  /** One Consecutive Frame that does not continue the sequence, or arrives while idle. */
  lemma StepOutOfTurn(canId: nat, msg: Session, e: Entry)
    requires Valid(msg)
    requires IsFrame(e, 2)
    requires !(msg.assembling && LowNibble(Payload(e.line).value[0]) == (msg.lastSN + 1) % 16)
    ensures Step(canId, msg, e) == (msg, None)
  {
  }

  /** One unfolding of the worker's loop. */
  lemma RunFirst(canId: nat, msg: Session, entries: seq<Entry>)
    requires Valid(msg)
    requires |entries| > 0
    ensures var r := Step(canId, msg, entries[0]);
      var later := Run(canId, r.0, entries[1..]);
      Run(canId, msg, entries) == (later.0, (if r.1.Some? then [r.1.value] else []) + later.1)
  {
  }

  /** The session after a Consecutive Frame in turn that does not complete the message. */
  function Continued(msg: Session, e: Entry): (next: Session)
    requires Valid(msg) && msg.assembling
    requires IsConsecutive(e, (msg.lastSN + 1) % 16)
    requires |msg.data| + 7 < msg.expectedLen
    ensures Valid(next) && next.assembling
    ensures next.expectedLen == msg.expectedLen
    ensures next.lastSN == (msg.lastSN + 1) % 16
    ensures next.data == msg.data + Payload(e.line).value[1..]
  {
    var p := Payload(e.line).value;
    Session(true, msg.expectedLen, |msg.data| + 7, LowNibble(p[0]), msg.data + p[1..])
  }

  /** The Consecutive Frame that covers the declared length completes the message. */
  lemma CompletingFrame(canId: nat, msg: Session, e: Entry)
    requires Valid(msg) && msg.assembling
    requires IsConsecutive(e, (msg.lastSN + 1) % 16)
    requires msg.expectedLen <= |msg.data| + 7
    ensures var data := msg.data + Payload(e.line).value[1..];
      Run(canId, msg, [e]) == (Idle, [Record(e.index, canId, Data(BytesToHexString(data[..msg.expectedLen])))])
  {
    var data := msg.data + Payload(e.line).value[1..];
    var rec := Record(e.index, canId, Data(BytesToHexString(data[..msg.expectedLen])));
    StepInTurn(canId, msg, e);
    assert Step(canId, msg, e) == (Idle, Some(rec));
    RunFirst(canId, msg, [e]);
    assert [e][1..] == [];
    assert [rec] + [] == [rec];
  }

  /** A Consecutive Frame in turn that does not yet cover the declared length. */
  lemma ContinuingFrame(canId: nat, msg: Session, entries: seq<Entry>)
    requires Valid(msg) && msg.assembling
    requires |entries| > 1
    requires IsConsecutive(entries[0], (msg.lastSN + 1) % 16)
    requires |msg.data| + 7 < msg.expectedLen
    ensures Run(canId, msg, entries) == Run(canId, Continued(msg, entries[0]), entries[1..])
  {
    var next := Continued(msg, entries[0]);
    StepInTurn(canId, msg, entries[0]);
    assert Step(canId, msg, entries[0]) == (next, None);
    RunFirst(canId, msg, entries);
    var later := Run(canId, next, entries[1..]);
    assert [] + later.1 == later.1;
  }

  /** The frames after the first continue the sequence from the first's number. */
  lemma ConsecutiveTail(entries: seq<Entry>, sn: int, next: int)
    requires |entries| >= 1
    requires forall k :: 0 <= k < |entries| ==> IsConsecutive(entries[k], (sn + 1 + k) % 16)
    requires next == (sn + 1) % 16
    ensures IsConsecutive(entries[0], next)
    ensures forall k :: 0 <= k < |entries[1..]| ==> IsConsecutive(entries[1..][k], (next + 1 + k) % 16)
  {
    assert IsConsecutive(entries[0], (sn + 1 + 0) % 16);
    forall k | 0 <= k < |entries| - 1
      ensures IsConsecutive(entries[1..][k], (next + 1 + k) % 16)
    {
      assert IsConsecutive(entries[k + 1], (sn + 1 + (k + 1)) % 16);
      ModuloShift(sn + 1, k + 1);
    }
  }

  lemma ConsecutiveDecode(entries: seq<Entry>, sn: int)
    requires forall k :: 0 <= k < |entries| ==> IsConsecutive(entries[k], (sn + 1 + k) % 16)
    ensures AllDecode(entries)
  {
    forall k | 0 <= k < |entries| ensures Payload(entries[k].line).Some? {
      assert IsConsecutive(entries[k], (sn + 1 + k) % 16);
    }
  }

  lemma CarriedBytesFirst(prefix: seq<Byte>, entries: seq<Entry>)
    requires AllDecode(entries)
    requires |entries| >= 1
    ensures AllDecode(entries[1..])
    ensures prefix + CarriedBytes(entries) == (prefix + Payload(entries[0].line).value[1..]) + CarriedBytes(entries[1..])
  {
    var tail := entries[1..];
    assert AllDecode(tail) by {
      forall k | 0 <= k < |tail| ensures Payload(tail[k].line).Some? {
        assert tail[k] == entries[k + 1];
      }
    }
    var head := Payload(entries[0].line).value[1..];
    assert CarriedBytes(entries) == head + CarriedBytes(tail);
    Associate(prefix, head, CarriedBytes(tail));
  }

  /** Concatenation is associative. */
  lemma Associate<T>(a: seq<T>, b: seq<T>, c: seq<T>)
    ensures a + (b + c) == (a + b) + c
  {
  }

  /** Consecutive Frames that arrive in turn while a message is being assembled
      complete it on the first frame that covers the declared length: exactly
      `expectedLen` bytes are emitted, the accumulated bytes followed by the
      frames' bytes, tagged with the completing frame's index, and the session
      returns to idle. The padding of the last frame is cut off. */
  lemma {:induction false} ConsecutiveFramesComplete(canId: nat, msg: Session, entries: seq<Entry>)
    requires Valid(msg) && msg.assembling
    requires |entries| >= 1
    requires forall k :: 0 <= k < |entries| ==> IsConsecutive(entries[k], (msg.lastSN + 1 + k) % 16)
    requires |entries| == 1 || |msg.data| + 7 * (|entries| - 1) < msg.expectedLen
    requires msg.expectedLen <= |msg.data| + 7 * |entries|
    ensures AllDecode(entries)
    ensures Run(canId, msg, entries) ==
      (Idle, [Record(entries[|entries| - 1].index, canId,
                     Data(BytesToHexString((msg.data + CarriedBytes(entries))[..msg.expectedLen])))])
    decreases |entries|
  {
    ConsecutiveDecode(entries, msg.lastSN);
    if |entries| == 1 {
      LastConsecutiveFrame(canId, msg, entries);
    } else {
      var next := NextConsecutiveFrame(canId, msg, entries);
      ConsecutiveFramesComplete(canId, next, entries[1..]);
    }
  }

  /** The base case: one Consecutive Frame in turn that covers the declared length. */
  lemma LastConsecutiveFrame(canId: nat, msg: Session, entries: seq<Entry>)
    requires Valid(msg) && msg.assembling
    requires |entries| == 1
    requires IsConsecutive(entries[0], (msg.lastSN + 1 + 0) % 16)
    requires msg.expectedLen <= |msg.data| + 7
    requires AllDecode(entries)
    ensures Run(canId, msg, entries) ==
      (Idle, [Record(entries[0].index, canId,
                     Data(BytesToHexString((msg.data + CarriedBytes(entries))[..msg.expectedLen])))])
  {
    var data := msg.data + Payload(entries[0].line).value[1..];
    assert entries == [entries[0]];
    assert msg.data + CarriedBytes(entries) == data by {
      assert CarriedBytes(entries[1..]) == [];
      assert data + [] == data;
    }
    CompletingFrame(canId, msg, entries[0]);
  }

  /** The inductive step: a Consecutive Frame in turn that does not cover the
      declared length hands the remaining frames a session one number further. */
  lemma NextConsecutiveFrame(canId: nat, msg: Session, entries: seq<Entry>) returns (next: Session)
    requires Valid(msg) && msg.assembling
    requires |entries| > 1
    requires forall k :: 0 <= k < |entries| ==> IsConsecutive(entries[k], (msg.lastSN + 1 + k) % 16)
    requires |msg.data| + 7 * (|entries| - 1) < msg.expectedLen
    requires msg.expectedLen <= |msg.data| + 7 * |entries|
    requires AllDecode(entries)
    ensures Valid(next) && next.assembling
    ensures forall k :: 0 <= k < |entries[1..]| ==> IsConsecutive(entries[1..][k], (next.lastSN + 1 + k) % 16)
    ensures |entries[1..]| == 1 || |next.data| + 7 * (|entries[1..]| - 1) < next.expectedLen
    ensures next.expectedLen <= |next.data| + 7 * |entries[1..]|
    ensures next.expectedLen == msg.expectedLen
    ensures AllDecode(entries[1..])
    ensures msg.data + CarriedBytes(entries) == next.data + CarriedBytes(entries[1..])
    ensures Run(canId, msg, entries) == Run(canId, next, entries[1..])
    ensures entries[1..][|entries[1..]| - 1] == entries[|entries| - 1]
  {
    assert IsConsecutive(entries[0], (msg.lastSN + 1 + 0) % 16);
    next := Continued(msg, entries[0]);
    var rest := entries[1..];
    assert forall k :: 0 <= k < |rest| ==> IsConsecutive(rest[k], (next.lastSN + 1 + k) % 16) by {
      ConsecutiveTail(entries, msg.lastSN, next.lastSN);
    }
    assert AllDecode(rest) && msg.data + CarriedBytes(entries) == next.data + CarriedBytes(rest) by {
      CarriedBytesFirst(msg.data, entries);
    }
    assert Run(canId, msg, entries) == Run(canId, next, rest) by {
      ContinuingFrame(canId, msg, entries);
    }
    var m := |entries| - 1;
    assert |rest| == m && |next.data| == |msg.data| + 7;
    assert 7 * (m - 1) + 7 == 7 * m && 7 * m + 7 == 7 * |entries|;
  }

  /** Adding after reducing modulo 16 is adding before it. */
  lemma ModuloShift(a: int, b: int)
    ensures (a % 16 + b) % 16 == (a + b) % 16
  {
    var q := a / 16;
    assert a == 16 * q + a % 16;
    assert a + b == (a % 16 + b) + 16 * q;
  }

  /** The message length a First Frame line declares. */
  function FirstFrameLength(first: Entry): nat
    requires IsFrame(first, 1)
  {
    DeclaredLength(Payload(first.line).value)
  }

  /** The six data bytes a First Frame line carries after its two header bytes. */
  function FirstFrameData(first: Entry): (data: seq<Byte>)
    requires IsFrame(first, 1)
    ensures |data| == 6
  {
    Payload(first.line).value[2..]
  }

  /** The session a First Frame starts. */
  lemma StepFirstFrame(canId: nat, msg: Session, e: Entry)
    requires Valid(msg)
    requires IsFrame(e, 1)
    ensures Step(canId, msg, e) == (Session(true, FirstFrameLength(e), 6, 0, FirstFrameData(e)), None)
  {
  }

  /** A First Frame declaring `n` bytes, followed by Consecutive Frames numbered
      1, 2, 3, ... (modulo 16) that cover `n` bytes only with their last frame,
      yields exactly one record: the first `n` of the bytes after the First
      Frame's two header bytes and the Consecutive Frames' PCI bytes. Whatever
      session was in progress before is abandoned. */
  lemma MultiFrameMessage(canId: nat, msg: Session, first: Entry, rest: seq<Entry>)
    requires Valid(msg)
    requires IsFrame(first, 1)
    requires |rest| >= 1
    requires forall k :: 0 <= k < |rest| ==> IsConsecutive(rest[k], (1 + k) % 16)
    requires |rest| == 1 || 6 + 7 * (|rest| - 1) < FirstFrameLength(first)
    requires FirstFrameLength(first) <= 6 + 7 * |rest|
    ensures AllDecode(rest)
    ensures Run(canId, msg, [first] + rest) ==
      (Idle, [Record(rest[|rest| - 1].index, canId,
                     Data(BytesToHexString((FirstFrameData(first) + CarriedBytes(rest))[..FirstFrameLength(first)])))])
  {
    var n := FirstFrameLength(first);
    var started := Session(true, n, 6, 0, FirstFrameData(first));
    var entries := [first] + rest;
    assert Run(canId, msg, entries) == Run(canId, started, rest) by {
      StepFirstFrame(canId, msg, first);
      assert entries[0] == first && entries[1..] == rest;
      RunFirst(canId, msg, entries);
      assert Step(canId, msg, first) == (started, None);
      var later := Run(canId, started, rest);
      assert [] + later.1 == later.1;
    }
    assert AllDecode(rest) by {
      forall k | 0 <= k < |rest| ensures Payload(rest[k].line).Some? {
        assert IsConsecutive(rest[k], (1 + k) % 16);
      }
    }
    var last := Record(rest[|rest| - 1].index, canId, Data(BytesToHexString((FirstFrameData(first) + CarriedBytes(rest))[..n])));
    assert Run(canId, started, rest) == (Idle, [last]) by {
      assert |started.data| == 6 && Valid(started);
      assert forall k :: 0 <= k < |rest| ==> IsConsecutive(rest[k], (started.lastSN + 1 + k) % 16) by {
        forall k | 0 <= k < |rest| ensures IsConsecutive(rest[k], (started.lastSN + 1 + k) % 16) {
          assert started.lastSN + 1 + k == 1 + k;
        }
      }
      ConsecutiveFramesComplete(canId, started, rest);
    }
    assert Run(canId, msg, entries) == (Idle, [last]);
  }

  /** A First Frame declaring at most six bytes already holds them all, yet it
      emits nothing: the session waits for a Consecutive Frame. */
  lemma ShortFirstFrameWaits(canId: nat, msg: Session, first: Entry)
    requires Valid(msg)
    requires IsFrame(first, 1)
    requires FirstFrameLength(first) <= 6
    ensures var r := Run(canId, msg, [first]);
      r.0.assembling && r.0.lastSN == 0 && r.1 == []
  {
    StepFirstFrame(canId, msg, first);
    RunFirst(canId, msg, [first]);
    assert [first][1..] == [];
  }

  /** The Consecutive Frame numbered 1 that follows such a First Frame
      completes the message with the First Frame's first bytes only; the
      Consecutive Frame's own bytes are cut off. */
  lemma ShortFirstFrameCompletes(canId: nat, msg: Session, first: Entry, next: Entry)
    requires Valid(msg)
    requires IsFrame(first, 1)
    requires IsConsecutive(next, 1)
    requires FirstFrameLength(first) <= 6
    ensures Run(canId, msg, [first, next]) ==
      (Idle, [Record(next.index, canId, Data(BytesToHexString(FirstFrameData(first)[..FirstFrameLength(first)])))])
  {
    var n := FirstFrameLength(first);
    var bytes := (FirstFrameData(first) + CarriedBytes([next]))[..n];
    assert Run(canId, msg, [first] + [next]) == (Idle, [Record(next.index, canId, Data(BytesToHexString(bytes)))]) by {
      assert IsConsecutive([next][0], (1 + 0) % 16);
      MultiFrameMessage(canId, msg, first, [next]);
    }
    assert bytes == FirstFrameData(first)[..n] by {
      PrefixOfConcat(FirstFrameData(first), CarriedBytes([next]), n);
    }
    assert [first, next] == [first] + [next];
  }

  /** A prefix no longer than `a` of `a + b` is a prefix of `a`. */
  lemma PrefixOfConcat<T>(a: seq<T>, b: seq<T>, n: nat)
    requires n <= |a|
    ensures (a + b)[..n] == a[..n]
  {
  }

  /** After a sequence-number mismatch the session is not reset: every further
      Consecutive Frame that does not continue the stale sequence number is
      dropped as well, and the session stays exactly as it was. */
  lemma {:induction false} DesynchronisedFramesDropped(canId: nat, msg: Session, entries: seq<Entry>)
    requires Valid(msg) && msg.assembling
    requires forall k :: 0 <= k < |entries| ==>
      IsFrame(entries[k], 2) && LowNibble(Payload(entries[k].line).value[0]) != (msg.lastSN + 1) % 16
    ensures Run(canId, msg, entries) == (msg, [])
  {
    if |entries| > 0 {
      StepOutOfTurn(canId, msg, entries[0]);
      assert forall k :: 0 <= k < |entries[1..]| ==> entries[1..][k] == entries[k + 1];
      DesynchronisedFramesDropped(canId, msg, entries[1..]);
    }
  }

  /** What a Single Frame of length 1 to 7 or a Flow Control frame reports,
      whatever the state of the session; `None` for every other line. */
  function Passthrough(e: Entry): Option<Body> {
    match Payload(e.line)
    case None => None
    case Some(p) =>
      var low := LowNibble(p[0]);
      if FrameType(p[0]) == 0 && 1 <= low <= 7 then Some(Data(BytesToHexString(p[1..1 + low])))
      else if FrameType(p[0]) == 3 then Some(FlowControl(FlowStatusOf(low), p[1], p[2]))
      else None
  }

  /** A Single Frame or Flow Control line emits its report and leaves the session alone. */
  lemma StepPassthrough(canId: nat, msg: Session, e: Entry)
    requires Valid(msg)
    requires Passthrough(e).Some?
    ensures Step(canId, msg, e) == (msg, Some(Record(e.index, canId, Passthrough(e).value)))
  {
  }

  /** Single Frames and Flow Control frames are reported, with their own index,
      however they interleave with a multi-frame message on the same identifier. */
  lemma {:induction false} PassthroughReported(canId: nat, msg: Session, entries: seq<Entry>, k: nat)
    requires Valid(msg)
    requires k < |entries|
    requires Passthrough(entries[k]).Some?
    ensures Record(entries[k].index, canId, Passthrough(entries[k]).value) in Run(canId, msg, entries).1
    decreases |entries|
  {
    if k == 0 {
      StepPassthrough(canId, msg, entries[0]);
    } else {
      var next := Step(canId, msg, entries[0]).0;
      assert entries[1..][k - 1] == entries[k];
      PassthroughReported(canId, next, entries[1..], k - 1);
    }
  }
}
