# ISO-TP trace decoder, modelled in Dafny

`par.cpp` is an offline decoder for ISO-TP (ISO 15765-2) traffic. It reads a
CAN trace, one frame per line: three hex digits of CAN identifier, then sixteen
hex digits of payload. It numbers the lines it accepts, groups them by
identifier and runs one worker thread per identifier. Each worker reassembles
Single, First and Consecutive Frames and reports Flow Control frames. The
workers append their records to a shared buffer. `main` then sorts the buffer
by line index and prints it.

This project models that core as pure functions over immutable data:

- `Hex` (`hex.dfy`): `isHexString`, `hexStringToBytes` and `bytesToHexString`,
  with their round trips.
- `Trace` (`trace.dfy`): line acceptance, the line counter and the partition
  into `canMap`. It has a reference definition (`Numbered`, `Groups`) and the
  loop of `main` (`PartitionTrace`), proved equal to it.
- `IsoTp` (`isotp.dfy`): the session record `IsoTpMessage` (`Session`), one
  pass of the frame `switch` (`StepPayload`, `Step`) and the worker's loop
  folded over a group (`Run`, `ProcessCanFrames`). It also holds the lemmas
  about multi-frame reassembly, sequence-number mismatches and pass-through
  frames.
- `Merge` (`merge.dfy`): the workers run one after another in an arbitrary
  order of the identifiers (`RunWorkers`), then the buffer is sorted by index
  (`SortByIndex`). The lemmas show the output does not depend on that order or
  on how the appends interleave.
- `Optional` (`optional.dfy`): the `Option` type.

A record is `Record(index, canId, body)`. The body is either the hex text of a
reassembled payload or the three fields of a Flow Control frame.

Behaviour of the code worth knowing:

- A line gets an index as soon as it is 19 characters long with a hex
  identifier. Its payload is checked later, by the worker, so a line with a
  malformed payload uses up an index and yields no record.
- A Consecutive Frame with the wrong sequence number is dropped, and the
  session is not reset.
- The Flow Control branch reads `payload[1]` and `payload[2]` without a bounds
  check. No check is added: the model proves every decoded payload has 8 bytes.
- The text of a Single Frame is the `length` bytes after the PCI byte. For
  example, in `7DF0203AABBCC000000` the PCI byte `02` is followed by `03 AA`,
  so the text is `03aa`.

## Model

| member | source | states |
|---|---|---|
| Hex.HexStringToBytes | par.cpp:32-39 | One byte per pair of digits, high digit first: byte `i` is `16 * digit(2i) + digit(2i+1)`. A trailing odd digit is ignored, so the result has `|s| / 2` bytes. |
| Hex.BytesToHexString | par.cpp:41-48 | Exactly two lower-case hex digits per byte, zero-padded: digit `2i` is `data[i] / 16` and digit `2i+1` is `data[i] % 16`. |
| Hex.BytesRoundTrip | par.cpp:32-48 | Decoding the rendering of any byte string gives the bytes back. |
| Hex.BytesToHexStringInjective | par.cpp:41-48 | Distinct byte strings render to distinct text. |
| Hex.HexRoundTrip | par.cpp:32-48 | On an even-length hex string, rendering the decoded bytes gives the string back in lower case. |
| Hex.PayloadHasEightBytes | par.cpp:54-57 | The sixteen payload digits of a line decode to exactly eight bytes, so the `payload.empty()` test never fires. |
| Trace.CanId | par.cpp:124-126 | The identifier is the value of the line's first three hex digits, below `0x1000`. |
| Trace.CanIdDigits | par.cpp:124-126 | Printing the identifier as three lower-case digits gives back the line's first three digits, in lower case. |
| Trace.Numbered | par.cpp:121-127 | Only accepted lines get an entry (19 characters, hex id). Entry `i` carries index `i` and the `i`-th accepted line, so indices are 0, 1, 2, ... in trace order. |
| Trace.RejectedLineLeavesNumbering | par.cpp:123-125 | A line that fails the length or id check uses up no index: removing it changes no entry. |
| Trace.NumberingIsStable | par.cpp:121-127 | Reading more lines never renumbers the entries already made. |
| Trace.GroupOf | par.cpp:127 | A group holds only entries of its identifier, all accepted. It keeps trace order, so its indices ascend. |
| Trace.GroupOfComplete | par.cpp:127 | Every entry of an identifier is in that identifier's group. |
| Trace.PartitionTrace | par.cpp:119-128 | The loop of `main` counts the accepted lines and builds exactly the reference partition `TraceGroups`. |
| Trace.GroupsAreFaithful | par.cpp:119-128 | Each group is non-empty and strictly ascending. Its entries are the numbered lines with that identifier, each at its own index, and it contains all of them. |
| IsoTp.FlowStatusOf | par.cpp:99 | Low nibble 0 gives clear-to-send, 1 wait, 2 overflow, and every other value reserved. Each is stated in both directions. |
| IsoTp.FlowStatusText | par.cpp:99 | The printed status text is `CTS` exactly for low nibble 0, `WT` exactly for 1, `OVFLW` exactly for 2, and `RES` exactly for 3 to 15. |
| IsoTp.Resize | par.cpp:91 | `vector::resize` gives exactly `n` bytes. It truncates a longer vector to its first `n` bytes and keeps a shorter one as a prefix. |
| IsoTp.StepPayload | par.cpp:59-108 | The transition table; it preserves the reachable-session invariant `Valid`. A Single Frame leaves the session alone, and emits payload bytes 1..L exactly when its length nibble `L` is 1..7 and the payload has `L + 1` bytes. A First Frame emits nothing and abandons any earlier session. Its new session declares `(low << 8) \| payload[1]` bytes, at most 4095, and starts at sequence number 0 holding `payload[2..]`. A Consecutive Frame while idle or out of turn changes nothing. One in turn appends its bytes: once the declared length is covered it emits exactly that many bytes and goes idle, otherwise it keeps assembling with the new sequence number. A Flow Control frame reports its status, `payload[1]` and `payload[2]`, and leaves the session alone. Frame types 4 to 15 are ignored. |
| IsoTp.Payload | par.cpp:53-57 | A line decodes exactly when it is 19 characters long with a hex payload, and then it gives 8 bytes. |
| IsoTp.PayloadDigits | par.cpp:54-56 | The payload bytes are the ones the payload digits spell. |
| IsoTp.Step | par.cpp:52-108 | One iteration of the worker's loop preserves `Valid` and emits at most one record, tagged with the entry's own index and the worker's identifier. A line that fails the checks changes nothing. The Flow Control reads are in bounds because the decoded payload has 8 bytes. |
| IsoTp.Run | par.cpp:51-109 | Folding the step over a group keeps the session valid and emits at most one record per entry. |
| IsoTp.RunTagged | par.cpp:52-109 | Every record carries the worker's identifier and the index of one of its entries. |
| IsoTp.RunAscending | par.cpp:52-109 | Entries in trace order give records in strictly increasing index order. |
| IsoTp.ProcessCanFrames | par.cpp:50-110 | The worker starts from a default session and emits at most one record per entry. Each record is tagged with the worker's identifier and an entry index, and the records ascend strictly when the group does. |
| IsoTp.StepOutOfTurn | par.cpp:84-86 | A Consecutive Frame while idle, or with the wrong sequence number, leaves the session exactly as it was and emits nothing. |
| IsoTp.StepFirstFrame | par.cpp:72-82 | On a decoded line, a First Frame starts the session `(true, n, 6, 0, payload[2..])`. |
| IsoTp.CompletingFrame | par.cpp:87-95 | The Consecutive Frame that covers the declared length emits the first `expectedLen` accumulated bytes and ends the session. |
| IsoTp.ConsecutiveFramesComplete | par.cpp:83-97 | Consecutive Frames in turn complete the message on the first frame that covers the declared length. The one record holds the first `expectedLen` bytes of the accumulated data followed by the frames' bytes, and is tagged with the completing frame's index. |
| IsoTp.MultiFrameMessage | par.cpp:72-97 | A First Frame declaring `n` bytes, followed by Consecutive Frames numbered 1, 2, ... modulo 16 whose last frame covers `n`, yields exactly one record. It holds the first `n` of the First Frame's six data bytes followed by the Consecutive Frames' seven bytes each. |
| IsoTp.ShortFirstFrameWaits | par.cpp:72-82 | A First Frame declaring at most six bytes emits nothing and leaves the session assembling. |
| IsoTp.ShortFirstFrameCompletes | par.cpp:72-95 | Such a First Frame is completed by the next Consecutive Frame numbered 1, whose own bytes are all cut off. |
| IsoTp.DesynchronisedFramesDropped | par.cpp:83-86 | After a sequence-number mismatch the session is not reset. Further Consecutive Frames that do not continue the stale number are all dropped, and the session stays exactly as it was. |
| IsoTp.StepPassthrough | par.cpp:63-105 | A Single Frame of length 1..7 or a Flow Control frame emits its report and leaves the session alone, whatever the session is. |
| IsoTp.PassthroughReported | par.cpp:63-105 | Every such frame in a group is reported with its own index, however it interleaves with a multi-frame message. |
| Merge.Insert | par.cpp:139 | Inserting into a sorted sequence keeps it sorted and adds exactly the one record. |
| Merge.SortByIndex | par.cpp:139 | The sorted buffer is a permutation of the buffer in non-decreasing index order. |
| Merge.InsertStrict | par.cpp:139 | Inserting a record with a new index into a strictly ascending sequence keeps it strictly ascending. |
| Merge.SortStrict | par.cpp:139 | Sorting records with distinct indices orders them strictly. |
| Merge.SortedIsUnique | par.cpp:139 | A sorted permutation of a strictly ascending sequence is that sequence. |
| Merge.AscendingIsUnique | par.cpp:139 | Two strictly ascending sequences with the same members are equal. |
| Merge.CollectMembers | par.cpp:130-137 | A record is in the buffer exactly when one of the workers that ran emitted it. |
| Merge.SameWorkersSameRecords | par.cpp:131-137 | Running the same workers in any order fills the buffer with the same records. |
| Merge.CollectDistinct | par.cpp:130-137 | No two records in the buffer share an index, given two conditions: each worker's records ascend strictly, and two workers never report the same line. |
| Merge.WorkerProvenance | par.cpp:127-132 | A record a worker emits names a numbered line. That line carries the worker's identifier, which is also the record's. |
| Merge.Decode | par.cpp:130-139 | The output is strictly ascending by index and is a permutation of the buffer. |
| Merge.DecodeProvenance | par.cpp:119-139 | Every output record reports a numbered line, under that line's own identifier. |
| Merge.DecodeIndependentOfOrder | par.cpp:131-139 | The output is the same whichever order the workers ran in. |
| Merge.InterleavingIrrelevant | par.cpp:130-139 | Any buffer holding the same records, in whatever interleaving the threads produced, sorts to the same output. |
| Merge.PassthroughDecoded | par.cpp:119-139 | Each Single Frame of length 1..7 and each Flow Control frame in the trace appears in the output with its own line index and identifier. |
| Merge.RunWorkers | par.cpp:130-137 | The spawn and join loops take every identifier of `canMap` exactly once, in an arbitrary order. They leave the buffer as the concatenation of the workers' records in that order. |
| Merge.DecodeTrace | par.cpp:119-139 | The whole decoder yields a strictly ascending output. It equals `Decode` for every order of the identifiers. |

## Left out

- File and console I/O: opening `transcript.txt`, `getline`, and the print loop (par.cpp:113-117, 122, 140-142). The trace is a parameter `lines: seq<string>`. The output is the sorted record sequence, not its printed text.
- Threads and the mutex (par.cpp:22-23, 68, 92, 102, 130-137). The workers run one after another, in an order picked arbitrarily from the map's keys. `InterleavingIrrelevant` covers every interleaving of the appends.
- Text formatting of Flow Control reports (par.cpp:99-101): a Flow Control record holds the status, BlockSize and STmin as values. `Label` gives the status text, and `FlowStatusText` ties it to the nibble. The `ostringstream` text, which begins with the identifier again so that the printed line repeats it, is not modelled.
- `std::stoul` is replaced by a digit-value function. On a pair that is not two hex digits, `stoul` would read some other value (`"1g"` gives 1, `"-1"` wraps) or throw when it reads nothing. `HexStringToBytes` therefore requires a hex string. That requirement rests on its only caller, which checks `isHexString` first (par.cpp:55).
- Byte-oriented lines: each `char` of a line in `lines` stands for one byte of the file, so `|line|` is `line.size()` (par.cpp:53, 123). Text that takes several bytes per character in the file's encoding is not modelled. For such a line the model's length test, and hence its indices, would differ from the program's.
- `std::sort` compares whole tuples `(index, canId, text)`. It is modelled as a sort by index alone: the indices in the buffer are proved distinct, so the later tuple fields are never compared.
- Integer widths: `lineIndex`, `expectedLen` and `receivedLen` are unbounded integers. The session counters stay below 4096 + 8. Overflowing `lineIndex` would need more than 2^31 lines, which is not modelled.
- IsoTp.Run: states only the session invariant and the count of records. What the records carry is stated by `RunTagged` and `RunAscending`.
