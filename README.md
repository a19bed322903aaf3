# NOPSelection, modelled in Dafny

`NOPSelection.java` is a Ghidra script. It overwrites the bytes of the current selection
with the x86 no-operation byte `0x90`. It then re-disassembles every instruction the
selection touched, so the listing is left without stale instructions.

The script runs in five steps, and the model has each of them:

1. **Collect spans.** Walk the code units over `[min, max]` of the selection in ascending
   order. For every unit address `a` that lies inside an instruction, put
   `a ↦ [a, a + length - 1]` into a `TreeMap`. A unit outside every instruction ends the walk
   when it sits at the selection's last address.
2. **Clear the listing** over `[min, max]`.
3. **Build the filler:** as many `0x90` bytes as the selection's *first range* holds.
4. **Write the filler** at the selection's first address. If memory refuses the write, stop
   there: nothing is re-disassembled.
5. **Re-disassemble:** one `DisassembleCommand(key, span, true)` per map entry, in ascending
   key order.

Files:

- `host.dfy` (module `Host`) is the Ghidra side the script talks to. It holds bytes,
  address ranges and the selection as an `AddressSet` of ascending ranges. It holds
  instructions, `getInstructionContaining`, `clearCodeUnits` and the byte store. The class
  `Program` has the state the script changes: memory, the set of writable addresses, the
  instruction listing, and the log of disassembly commands applied.
- `tree_map.dfy` (module `TreeMap`) is the address-keyed `TreeMap`. It is the sequence of
  its entries in iteration order, with a verified `put`.
- `nop_selection.dfy` (module `NopSelection`) is the script. The collection loop, the NOP
  fill loop and the re-disassembly loop are methods with loop invariants. `Run` is the whole
  `run()`. The lemmas state what the steps guarantee.

The model keeps two behaviours of the code that look unintended:

- **Spans are keyed by the visited unit, not by the instruction's start**
  (`NOPSelection.java:59-61`). If a visited unit lies inside an instruction but after its
  first byte, the recorded span starts at that unit and runs `length - 1` bytes further.
  That goes past the instruction's real end (`MidInstructionSpanOvershoots`). When every
  such unit is an instruction's first byte, each span is exactly the instruction's extent
  (`SpansExactAtInstructionStarts`). That is what a code-unit iterator yields.
- **The fill length comes from the first range** (`NOPSelection.java:74`). The cleared and
  scanned range runs from the selection's minimum to its maximum (`NOPSelection.java:43-44`).
  `FillWithinSelection` proves the NOPs never run past the selection's maximum. They cover
  the whole span exactly when the selection is one contiguous range. A selection of several
  ranges therefore leaves its later ranges cleared in the listing but not overwritten.

Two further facts about the code:

- The third argument of `DisassembleCommand` (`NOPSelection.java:91`) is `followFlow`. The
  script passes `true`, and the model records `followFlow == true`.
- With several ranges in a selection, the fill can only fall short of `[min, max]`. It can
  never overrun it, because an `AddressSet` keeps its ranges ascending and apart.

## Model

| member | source | states |
|---|---|---|
| `Host.Selection.MinAddress` | NOPSelection.java:43 | The selection's minimum is the start of one of its ranges, and at or below the start of every one of them. |
| `Host.Selection.MaxAddress` | NOPSelection.java:44 | The selection's maximum is the end of one of its ranges, and at or above the end of every one of them. |
| `Host.Selection.FirstRange` | NOPSelection.java:74 | The first range is one of the selection's ranges and starts at its minimum. It lies wholly below every other range, with a gap between them. |
| `Host.InstructionContaining` | NOPSelection.java:57 | The result lies in the listing and holds the address. `None` means that no instruction in the listing holds it. |
| `Host.ContainingIsUnique` | NOPSelection.java:57 | In a well-formed listing (ascending, non-overlapping), the instruction found is the one that holds the address. |
| `Host.ClearRange` | NOPSelection.java:71 | Clearing `[lo, hi]` keeps exactly the instructions that share no byte with the range. The listing stays well-formed. |
| `Host.Program.ClearListing` | NOPSelection.java:71 | The listing becomes the cleared listing. Nothing else changes, and the program stays valid. |
| `Host.Overwrite` | NOPSelection.java:83 | After the write, each address in the window holds its buffer byte. Every other address keeps its old byte. The domain grows by the window only. |
| `Host.Program.SetBytes` | NOPSelection.java:82-87 | The write succeeds iff every target byte is initialized and no instruction of the listing covers a target byte. On success memory is the overwritten map. On failure memory is unchanged. |
| `Host.Program.Disassemble` | NOPSelection.java:91-92 | Applying a command appends exactly that command to the log. The program stays valid. |
| `TreeMap.KeysAreUnique` | NOPSelection.java:52 | Two entries of the ordered map with the same key are the same entry. |
| `TreeMap.Put` | NOPSelection.java:61 | After `put(k, v)`, `k ↦ v` is present. Every entry with another key is kept, nothing else is added, and the order stays ascending. |
| `TreeMap.PutAbove` | NOPSelection.java:54-61 | Putting a key above every present key appends the entry at the end. |
| `NopSelection.UnitSpanMeaning` | NOPSelection.java:57-60 | A unit gets a span iff some instruction of the listing holds it. The span starts at the unit, is non-empty, and has the length of an instruction that holds the unit. |
| `NopSelection.UnitSpanOfInstruction` | NOPSelection.java:57-60 | In a well-formed listing, a unit inside an instruction gets the span `[a, a + length - 1]` of that very instruction. |
| `NopSelection.SpanMapCharacterized` | NOPSelection.java:54-68 | The span map is in ascending key order. An entry `a ↦ s` is present iff `a` was visited, an instruction holds `a`, and `s = [a, a + length - 1]`. Units outside every instruction add nothing. The span's end depends only on `a` and the length, never on the scanned range. |
| `NopSelection.SpanMapStep` | NOPSelection.java:57-61 | Visiting one more unit puts its span into the map when an instruction holds it, and leaves the map as it was otherwise. |
| `NopSelection.LastUnitAtEnd` | NOPSelection.java:65-67 | A unit at the selection's last address is the last unit visited, so the `break` skips no unit. |
| `NopSelection.SpanKeysWithin` | NOPSelection.java:48-55 | Every key of the span map lies inside `[min, max]`. |
| `NopSelection.SpanEndNotClamped` | NOPSelection.java:59-61 | A span is not clipped to the scanned range. With the range `[5, 5]` and a 4-byte instruction at 5, the unit at 5 is recorded as `[5, 8]`. |
| `NopSelection.CollectSpans` | NOPSelection.java:48-68 | The collection loop, with its `continue` and its `break`, builds exactly the span map of all visited units. It changes nothing in the program. |
| `NopSelection.FillNops` | NOPSelection.java:76-80 | The buffer has exactly `length` entries, and each one is `0x90`. |
| `NopSelection.Calls` | NOPSelection.java:90-92 | One command per map entry, in entry order. Command `i` starts at entry `i`'s key, takes its span as the restricted set, and follows flow. |
| `NopSelection.ResyncOrder` | NOPSelection.java:90-93 | The commands issued match the map's entries one for one. Each call takes the entry's key as start and its span as the restricted set, with `followFlow` true. Starts are strictly ascending. |
| `NopSelection.Redisassemble` | NOPSelection.java:90-93 | The loop appends exactly those commands to the log, in the map's order. The program stays valid. |
| `NopSelection.Run` | NOPSelection.java:34-94 | The listing is cleared over `[min, max]` in every case. The run succeeds iff the first range's bytes starting at `min` are writable. On failure, memory and the command log are unchanged. On success, memory is overwritten with that many NOPs. The log then grows by exactly the commands for the span map collected from the original listing. |
| `NopSelection.FillWithinSelection` | NOPSelection.java:74 | The fill length is between 1 and `max - min + 1`. It equals `max - min + 1` iff the selection is one range. |
| `NopSelection.SelectedBytesAreNops` | NOPSelection.java:74-83 | After the write, over a one-range selection every byte of `[min, max]` is `0x90`. Over any selection, bytes outside the first range keep their values. |
| `NopSelection.OverwriteIdempotent` | NOPSelection.java:83 | Writing the same NOPs a second time leaves the same bytes. |
| `NopSelection.ClearedSelectionHasNoSpans` | NOPSelection.java:71 | Right after the clear, collecting spans over units inside the selection gives an empty map, since no instruction touches the selection any more. |
| `NopSelection.ClearedWindowHoldsNoInstruction` | NOPSelection.java:71-83 | After the clear over `[min, max]`, no instruction shares a byte with the window the NOPs are written to. `SetBytes` refuses a window that an instruction still covers, so `Run` needs the clear first. Its outcome then depends on initialized memory alone. |
| `NopSelection.SpansExactAtInstructionStarts` | NOPSelection.java:59-61 | Suppose each visited unit inside an instruction is that instruction's first byte. Then every recorded span is the instruction's exact extent. |
| `NopSelection.InstructionStartsRecorded` | NOPSelection.java:54-61 | In a well-formed listing, every instruction whose first byte is a visited unit is recorded under that address with its exact extent. |
| `NopSelection.MidInstructionSpanOvershoots` | NOPSelection.java:59-61 | Take the 4-byte instruction at `0xFFE` and a visited unit `0x1000`. The recorded span is `[0x1000, 0x1003]`, which runs past the instruction's end at `0x1001`. |
| `NopSelection.TwoInstructionExample` | NOPSelection.java:54-93 | Two 3-byte instructions at `0x1000` and `0x1003` give two map entries. Re-disassembly replays `0x1000` first, then `0x1003`. |

## Left out

- GhidraScript plumbing is not modelled. The implicit `currentProgram`, `currentSelection`
  and the code units visited are explicit parameters of `Run`. The task monitor is not
  modelled.
- `print` and `popup` are user feedback only. The memory-access failure is the
  `MemoryUnavailable` outcome.
- The disassembler is not modelled. `DisassembleCommand.applyTo` is an external decoder, so
  each command is only recorded in a log. After `Run` the listing is the cleared listing,
  and no re-decoded instructions are added back. In the real program the decoder puts
  instructions back on the new NOP bytes, so a second run would collect spans again.
- Ghidra's `CodeUnitIterator` is taken as a given input: the unit addresses it yields,
  strictly ascending and inside `[min, max]`. Which of them are data or undefined bytes is
  not modelled. Only instructions are in the listing, so clearing defined data is not
  modelled.
- The listing is an ascending sequence of non-overlapping instructions rather than Ghidra's
  database. `getInstructionContaining` becomes a search over that sequence.
- Addresses are unbounded integers. Address-space wraparound and overflow of `add` are not
  modelled.
- The `long` to `int` cast of the fill length is not modelled. `Run` requires the first
  range to hold at most `0x7FFF_FFFF` bytes.
- An empty or missing selection is excluded by `requires`. The source would throw a
  `NullPointerException`.
- `setBytes` is all-or-nothing over the window. A write whose failure shows up only in a
  later memory block, after earlier blocks were written, is not modelled. The script catches
  every `MemoryAccessException` (`NOPSelection.java:84`). The model raises one for two
  causes: a target byte that is not initialized (`writable` stands for the initialized
  addresses), and a target byte that a defined instruction still covers. Other causes of
  that exception are not modelled. A block's write flag does not stop `setBytes`.
- Transactions and undo are managed by the host outside the script and are not modelled.
