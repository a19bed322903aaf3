/**
 The host side of the NOP-selection script: the pieces of a Ghidra program that the
 script reads and changes. Addresses are unbounded integers (one per byte), memory is a
 map from address to byte, the instruction listing is the ascending sequence of decoded
 instructions, and the disassembler is an appended log of the commands issued to it.
 */
module Host {

  /** One byte of program memory. */
  newtype byte = b: int | 0 <= b < 256

  /** The x86 one-byte no-operation, the filler the script writes. */
  const NOP: byte := 0x90

  datatype Option<T> = None | Some(value: T)

  /** An inclusive address range [min, max], i.e. an AddressSet of one range. */
  datatype AddrRange = AddrRange(min: int, max: int) {
    /** Number of bytes in the range (AddressRange.getLength). */
    function Length(): int { max - min + 1 }
  }

  /**
   A program selection, as an AddressSet holds it: its ranges in ascending order, each
   non-empty, and two neighbours separated by at least one unselected address (the set
   merges ranges that touch).
   */
  datatype Selection = Selection(ranges: seq<AddrRange>) {
    predicate Valid() {
      && |ranges| >= 1
      && (forall i :: 0 <= i < |ranges| ==> ranges[i].min <= ranges[i].max)
      && (forall i :: 1 <= i < |ranges| ==> ranges[i - 1].max + 1 < ranges[i].min)
    }

    /** Two ranges of a selection lie apart, the earlier one wholly below the later one. */
    lemma {:induction false} RangesApart(i: int, j: int)
      requires Valid() && 0 <= i < j < |ranges|
      ensures ranges[i].max + 1 < ranges[j].min
      decreases j - i
    {
      if j > i + 1 {
        RangesApart(i, j - 1);
      }
    }

    lemma AllRangesApart()
      ensures Valid() ==> forall i, j :: 0 <= i < j < |ranges| ==> ranges[i].max + 1 < ranges[j].min
    {
      if Valid() {
        forall i, j | 0 <= i < j < |ranges| ensures ranges[i].max + 1 < ranges[j].min {
          RangesApart(i, j);
        }
      }
    }

    /** getMinAddress: the lowest selected address. */
    function MinAddress(): (r: int)
      requires |ranges| >= 1
      ensures exists i :: 0 <= i < |ranges| && r == ranges[i].min
      ensures Valid() ==> forall i :: 0 <= i < |ranges| ==> r <= ranges[i].min
    {
      AllRangesApart();
      ranges[0].min
    }

    /** getMaxAddress: the highest selected address. */
    function MaxAddress(): (r: int)
      requires |ranges| >= 1
      ensures exists i :: 0 <= i < |ranges| && r == ranges[i].max
      ensures Valid() ==> forall i :: 0 <= i < |ranges| ==> ranges[i].max <= r
    {
      AllRangesApart();
      ranges[|ranges| - 1].max
    }

    /** getFirstRange: the selected range holding the lowest addresses, below every other. */
    function FirstRange(): (r: AddrRange)
      requires |ranges| >= 1
      ensures r in ranges && r.min == MinAddress()
      ensures Valid() ==> forall i :: 1 <= i < |ranges| ==> r.max + 1 < ranges[i].min
    {
      AllRangesApart();
      ranges[0]
    }
  }

  /** A decoded instruction: where it starts and how many bytes it occupies. */
  datatype Instruction = Instruction(start: int, length: nat) {
    predicate Contains(a: int) { start <= a < start + length }

    /** The instruction shares at least one byte with [lo, hi]. */
    predicate Intersects(lo: int, hi: int) { start <= hi && lo < start + length }
  }

  /**
   A listing as Ghidra keeps it: instructions in ascending address order, each at least
   one byte long, no two sharing a byte.
   */
  ghost predicate WellFormed(listing: seq<Instruction>) {
    && (forall i :: 0 <= i < |listing| ==> listing[i].length >= 1)
    && (forall i, j :: 0 <= i < j < |listing| ==> listing[i].start + listing[i].length <= listing[j].start)
  }

  /** Listing.getInstructionContaining: the instruction that holds the byte at `a`, if any. */
  function InstructionContaining(listing: seq<Instruction>, a: int): (r: Option<Instruction>)
    ensures r.Some? ==> r.value in listing && r.value.Contains(a)
    ensures r.None? ==> forall ins :: ins in listing ==> !ins.Contains(a)
  {
    if listing == [] then None
    else if listing[0].Contains(a) then Some(listing[0])
    else InstructionContaining(listing[1..], a)
  }

  /** In a well-formed listing the instruction holding a byte is unique. */
  lemma ContainingIsUnique(listing: seq<Instruction>, ins: Instruction, a: int)
    requires WellFormed(listing)
    requires ins in listing && ins.Contains(a)
    ensures InstructionContaining(listing, a) == Some(ins)
  {
    var r := InstructionContaining(listing, a);
    var i :| 0 <= i < |listing| && listing[i] == ins;
    var j :| 0 <= j < |listing| && listing[j] == r.value;
  }

  /**
   Listing.clearCodeUnits over [lo, hi]: every instruction that shares a byte with the
   range is removed, whole, and the others stay in their order.
   */
  function ClearRange(listing: seq<Instruction>, lo: int, hi: int): (r: seq<Instruction>)
    ensures forall ins :: ins in r <==> ins in listing && !ins.Intersects(lo, hi)
    ensures WellFormed(listing) ==> WellFormed(r)
  {
    if listing == [] then []
    else
      var rest := ClearRange(listing[1..], lo, hi);
      if listing[0].Intersects(lo, hi) then rest
      else
        assert WellFormed(listing) ==> forall k :: 0 <= k < |rest| ==> listing[0].start + listing[0].length <= rest[k].start by {
          if WellFormed(listing) {
            forall k | 0 <= k < |rest| ensures listing[0].start + listing[0].length <= rest[k].start {
              assert rest[k] in listing[1..];
              var j :| 0 <= j < |listing[1..]| && listing[1..][j] == rest[k];
              assert listing[j + 1] == rest[k];
            }
          }
        }
        [listing[0]] + rest
  }

  /** Every address in [start, start + n) is writable, i.e. lies in initialized memory. */
  predicate CanWrite(writable: set<int>, start: int, n: nat) {
    forall a :: start <= a < start + n ==> a in writable
  }

  /** No instruction of the listing shares a byte with [start, start + n). */
  predicate Unoccupied(listing: seq<Instruction>, start: int, n: nat) {
    forall ins :: ins in listing ==> !ins.Intersects(start, start + n - 1)
  }

  /** Memory after `buf` is stored byte by byte from `start` on. */
  function Overwrite(mem: map<int, byte>, start: int, buf: seq<byte>): (m: map<int, byte>)
    ensures forall a :: a in m <==> a in mem || start <= a < start + |buf|
    ensures forall a :: start <= a < start + |buf| ==> m[a] == buf[a - start]
    ensures forall a :: a in mem && !(start <= a < start + |buf|) ==> m[a] == mem[a]
    decreases |buf|
  {
    if buf == [] then mem
    else Overwrite(mem[start := buf[0]], start + 1, buf[1..])
  }

  /** One DisassembleCommand(start, restrictedSet, followFlow) applied to the program. */
  datatype DisassembleCall = DisassembleCall(start: int, restrictedSet: AddrRange, followFlow: bool)

  /**
   The state of the current program that the script touches: its memory, the addresses
   that may be written (the initialized ones), its instruction listing, and the
   disassembly commands applied to it so far.
   */
  class Program {
    var memory: map<int, byte>
    var writable: set<int>
    var instructions: seq<Instruction>
    var disassembled: seq<DisassembleCall>

    ghost predicate Valid()
      reads this
    {
      writable <= memory.Keys && WellFormed(instructions)
    }

    /** clearListing(lo, hi): removes the instructions that touch [lo, hi]. */
    method ClearListing(lo: int, hi: int)
      requires Valid()
      modifies this`instructions
      ensures Valid()
      ensures instructions == ClearRange(old(instructions), lo, hi)
    {
      instructions := ClearRange(instructions, lo, hi);
    }

    /**
     setBytes(start, buf): stores the whole buffer, or raises a memory-access failure
     (ok == false) and stores nothing. It fails when some target byte is not initialized,
     and when some target byte still belongs to a defined instruction.
     */
    method SetBytes(start: int, buf: seq<byte>) returns (ok: bool)
      requires Valid()
      modifies this`memory
      ensures Valid()
      ensures ok == (CanWrite(writable, start, |buf|) && Unoccupied(instructions, start, |buf|))
      ensures memory == if ok then Overwrite(old(memory), start, buf) else old(memory)
      ensures memory.Keys == old(memory.Keys)
    {
      ok := (forall a :: start <= a < start + |buf| ==> a in writable)
            && (forall ins :: ins in instructions ==> !ins.Intersects(start, start + |buf| - 1));
      if ok {
        memory := Overwrite(memory, start, buf);
      }
    }

    /** Applies one DisassembleCommand; the decoder itself is not modelled, only the call. */
    method Disassemble(start: int, restrictedSet: AddrRange, followFlow: bool)
      requires Valid()
      modifies this`disassembled
      ensures Valid()
      ensures disassembled == old(disassembled) + [DisassembleCall(start, restrictedSet, followFlow)]
    {
      disassembled := disassembled + [DisassembleCall(start, restrictedSet, followFlow)];
    }
  }
}
