/**
 The NOP-selection script: overwrite the selected bytes with NOP (0x90) and re-disassemble
 every instruction that the selection touched.

 The script runs in five steps: collect the spans of the instructions under the selected
 code units into a TreeMap, clear the listing over the selection, build a buffer of NOPs as
 long as the selection's first range, store it at the selection's start (giving up if the
 memory cannot be written), and issue one DisassembleCommand per collected span in ascending
 address order.
 */
module NopSelection {
  import opened Host
  import opened TreeMap

  /** How the script ends: every span handed back to the disassembler, or the write refused. */
  datatype Outcome = Resynced | MemoryUnavailable

  ghost predicate StrictlyAscending(s: seq<int>) {
    forall i, j :: 0 <= i < j < |s| ==> s[i] < s[j]
  }

  /**
   The code-unit addresses that iterating the listing forward over [lo, hi] yields: strictly
   ascending and inside the range.
   */
  ghost predicate UnitsWithin(units: seq<int>, lo: int, hi: int) {
    StrictlyAscending(units) && forall i :: 0 <= i < |units| ==> lo <= units[i] <= hi
  }

  /**
   The span the script records for a code unit at `a`: from `a` itself (not from the start of
   the instruction that holds it) to `a` plus that instruction's length minus one.
   */
  function UnitSpan(listing: seq<Instruction>, a: int): Option<AddrRange> {
    match InstructionContaining(listing, a)
    case None => None
    case Some(ins) => Some(AddrRange(a, a + ins.length - 1))
  }

  /**
   A unit gets a span exactly when some instruction holds it; the span starts at the unit,
   is non-empty and is as long as that instruction.
   */
  lemma UnitSpanMeaning(listing: seq<Instruction>, a: int)
    ensures UnitSpan(listing, a).None? <==> forall ins :: ins in listing ==> !ins.Contains(a)
    ensures UnitSpan(listing, a).Some? ==>
              && UnitSpan(listing, a).value.min == a <= UnitSpan(listing, a).value.max
              && exists ins :: ins in listing && ins.Contains(a) && UnitSpan(listing, a).value.Length() == ins.length
  {
    var r := InstructionContaining(listing, a);
    if r.Some? {
      assert r.value in listing && r.value.Contains(a);
    }
  }

  /**
   In a well-formed listing, a unit inside an instruction gets the span from the unit on, as
   long as that instruction is.
   */
  lemma UnitSpanOfInstruction(listing: seq<Instruction>, ins: Instruction, a: int)
    requires WellFormed(listing)
    requires ins in listing && ins.Contains(a)
    ensures UnitSpan(listing, a) == Some(AddrRange(a, a + ins.length - 1))
  {
    ContainingIsUnique(listing, ins, a);
  }

  /** The TreeMap the collection loop builds from the units visited so far. */
  ghost function SpanMap(listing: seq<Instruction>, units: seq<int>): seq<Entry<AddrRange>> {
    if units == [] then []
    else
      var a := units[|units| - 1];
      var earlier := SpanMap(listing, units[..|units| - 1]);
      if UnitSpan(listing, a).None? then earlier else earlier + [Entry(a, UnitSpan(listing, a).value)]
  }

  /**
   What the span map holds: exactly one entry per visited unit that lies inside an
   instruction, keyed by that unit's address and holding its recorded span, in ascending order.
   */
  lemma {:induction false} SpanMapCharacterized(listing: seq<Instruction>, units: seq<int>)
    requires StrictlyAscending(units)
    ensures Ordered(SpanMap(listing, units))
    ensures forall e :: e in SpanMap(listing, units) <==> e.key in units && UnitSpan(listing, e.key) == Some(e.value)
  {
    if units != [] {
      var n := |units| - 1;
      var a := units[n];
      var prefix := units[..n];
      assert units == prefix + [a];
      SpanMapCharacterized(listing, prefix);
      var earlier := SpanMap(listing, prefix);
      assert SpanMap(listing, units)
             == if UnitSpan(listing, a).None? then earlier else earlier + [Entry(a, UnitSpan(listing, a).value)];
      forall e | e in earlier ensures e.key < a {
        var j :| 0 <= j < n && prefix[j] == e.key;
      }
      forall e: Entry<AddrRange> | e.key in units && UnitSpan(listing, e.key) == Some(e.value)
        ensures e in SpanMap(listing, units)
      {
        if e.key != a {
          assert e.key in prefix;
        }
      }
    }
  }

  /** Every key of the span map is a visited unit, so it lies in the scanned range. */
  lemma SpanKeysWithin(listing: seq<Instruction>, units: seq<int>, lo: int, hi: int)
    requires UnitsWithin(units, lo, hi)
    ensures forall e :: e in SpanMap(listing, units) ==> lo <= e.key <= hi
  {
    SpanMapCharacterized(listing, units);
    forall e | e in SpanMap(listing, units) ensures lo <= e.key <= hi {
      var j :| 0 <= j < |units| && units[j] == e.key;
    }
  }

  /** No unit can follow one at the range's last address, so stopping there skips nothing. */
  lemma LastUnitAtEnd(units: seq<int>, lo: int, hi: int, k: nat)
    requires UnitsWithin(units, lo, hi)
    requires k < |units| && units[k] == hi
    ensures k == |units| - 1 && units[..k + 1] == units
  {
    var last := units[|units| - 1];
    assert last <= hi;
    assert k < |units| - 1 ==> hi < last;
  }

  /** One step of the collection loop: putting the next unit's span extends the map by it. */
  lemma SpanMapStep(listing: seq<Instruction>, units: seq<int>, n: nat)
    requires StrictlyAscending(units) && n < |units|
    ensures Ordered(SpanMap(listing, units[..n]))
    ensures SpanMap(listing, units[..n + 1])
            == if UnitSpan(listing, units[n]).None? then SpanMap(listing, units[..n])
               else Put(SpanMap(listing, units[..n]), units[n], UnitSpan(listing, units[n]).value)
  {
    var prefix := units[..n];
    assert units[..n + 1][..n] == prefix;
    SpanMapCharacterized(listing, prefix);
    if UnitSpan(listing, units[n]).Some? {
      forall e | e in SpanMap(listing, prefix) ensures e.key < units[n] {
        var j :| 0 <= j < |prefix| && prefix[j] == e.key;
      }
      PutAbove(SpanMap(listing, prefix), units[n], UnitSpan(listing, units[n]).value);
    }
  }

  /**
   Span collection: walks the code units in ascending order and, for each one that lies in
   an instruction, puts its span into the map; a unit outside every instruction stops the
   walk when it is the selection's last address.
   */
  method CollectSpans(p: Program, units: seq<int>, startAddr: int, endAddr: int)
    returns (spans: seq<Entry<AddrRange>>)
    requires UnitsWithin(units, startAddr, endAddr)
    ensures spans == SpanMap(p.instructions, units)
  {
    spans := [];
    var n := 0;
    while n < |units|
      invariant 0 <= n <= |units|
      invariant spans == SpanMap(p.instructions, units[..n])
    {
      var activeAddr := units[n];
      SpanMapStep(p.instructions, units, n);
      n := n + 1;
      var code := InstructionContaining(p.instructions, activeAddr);
      if code.Some? {
        var codeEnd := activeAddr + code.value.length - 1;
        spans := Put(spans, activeAddr, AddrRange(activeAddr, codeEnd));
        continue;
      }
      if activeAddr == endAddr {
        LastUnitAtEnd(units, startAddr, endAddr, n - 1);
        break;
      }
    }
    assert units[..n] == units;
  }

  /** The NOP buffer: `length` bytes, every one of them 0x90. */
  method FillNops(length: nat) returns (nops: array<byte>)
    ensures nops.Length == length
    ensures forall i :: 0 <= i < length ==> nops[i] == NOP
  {
    nops := new byte[length];
    for i := 0 to length
      invariant forall k :: 0 <= k < i ==> nops[k] == NOP
    {
      nops[i] := NOP;
    }
  }

  /** The bytes the script stores: `n` NOPs. */
  function Nops(n: nat): seq<byte> {
    seq(n, _ => NOP)
  }

  /** The commands the re-disassembly loop issues, one per span-map entry in entry order. */
  ghost function Calls(spans: seq<Entry<AddrRange>>): (r: seq<DisassembleCall>)
    ensures |r| == |spans|
    ensures forall i :: 0 <= i < |r| ==> r[i].followFlow && Entry(r[i].start, r[i].restrictedSet) == spans[i]
  {
    seq(|spans|, i requires 0 <= i < |spans| => DisassembleCall(spans[i].key, spans[i].value, true))
  }

  /**
   Re-disassembly replays the span map exactly: one call per entry, at the entry's key and
   over the entry's span, with flow following on, in strictly ascending address order.
   */
  lemma ResyncOrder(spans: seq<Entry<AddrRange>>)
    requires Ordered(spans)
    ensures |Calls(spans)| == |spans|
    ensures forall i, j :: 0 <= i < j < |spans| ==> Calls(spans)[i].start < Calls(spans)[j].start
    ensures forall e :: e in spans ==> DisassembleCall(e.key, e.value, true) in Calls(spans)
    ensures forall c :: c in Calls(spans) ==> c.followFlow && Entry(c.start, c.restrictedSet) in spans
  {
    var calls := Calls(spans);
    forall e | e in spans ensures DisassembleCall(e.key, e.value, true) in calls {
      var i :| 0 <= i < |spans| && spans[i] == e;
      assert calls[i] == DisassembleCall(e.key, e.value, true);
    }
    forall c | c in calls ensures c.followFlow && Entry(c.start, c.restrictedSet) in spans {
      var i :| 0 <= i < |calls| && calls[i] == c;
      assert spans[i] == Entry(c.start, c.restrictedSet);
    }
  }

  /** The re-disassembly loop: one DisassembleCommand per entry, in the map's order. */
  method Redisassemble(p: Program, spans: seq<Entry<AddrRange>>)
    requires p.Valid()
    modifies p`disassembled
    ensures p.Valid()
    ensures p.disassembled == old(p.disassembled) + Calls(spans)
  {
    for i := 0 to |spans|
      invariant p.Valid()
      invariant p.disassembled == old(p.disassembled) + Calls(spans[..i])
    {
      assert Calls(spans[..i + 1]) == Calls(spans[..i]) + [DisassembleCall(spans[i].key, spans[i].value, true)];
      p.Disassemble(spans[i].key, spans[i].value, true);
    }
    assert spans[..|spans|] == spans;
  }

  /**
   The whole script. The listing is cleared over the selection in every case; when the
   first range's bytes can all be written they become NOPs and every collected span is
   re-disassembled, otherwise memory and the disassembler are left untouched.
   */
  method Run(p: Program, selection: Selection, units: seq<int>) returns (outcome: Outcome)
    requires p.Valid()
    requires selection.Valid()
    requires selection.FirstRange().Length() <= 0x7FFF_FFFF
    requires UnitsWithin(units, selection.MinAddress(), selection.MaxAddress())
    modifies p
    ensures p.Valid()
    ensures p.writable == old(p.writable)
    ensures p.instructions == ClearRange(old(p.instructions), selection.MinAddress(), selection.MaxAddress())
    ensures outcome == if CanWrite(old(p.writable), selection.MinAddress(), selection.FirstRange().Length())
                       then Resynced else MemoryUnavailable
    ensures outcome == MemoryUnavailable ==> p.memory == old(p.memory) && p.disassembled == old(p.disassembled)
    ensures outcome == Resynced ==>
              && p.memory == Overwrite(old(p.memory), selection.MinAddress(), Nops(selection.FirstRange().Length()))
              && p.disassembled == old(p.disassembled) + Calls(SpanMap(old(p.instructions), units))
  {
    var startAddr := selection.MinAddress();
    var endAddr := selection.MaxAddress();
    var spans := CollectSpans(p, units, startAddr, endAddr);

    p.ClearListing(startAddr, endAddr);

    var length := selection.FirstRange().Length();
    var nops := FillNops(length);
    assert nops[..] == Nops(length);

    ClearedWindowHoldsNoInstruction(old(p.instructions), selection);
    var ok := p.SetBytes(startAddr, nops[..]);
    if !ok {
      return MemoryUnavailable;
    }

    Redisassemble(p, spans);
    return Resynced;
  }

  // ---------------------------------------------------------------------------------------
  // The fill length comes from the selection's first range, the scan from its min and max.

  /**
   The NOPs never run past the selection's last address, and they cover the whole span from
   its first to its last address exactly when the selection is one contiguous range.
   */
  lemma FillWithinSelection(selection: Selection)
    requires selection.Valid()
    ensures 1 <= selection.FirstRange().Length() <= selection.MaxAddress() - selection.MinAddress() + 1
    ensures selection.FirstRange().Length() == selection.MaxAddress() - selection.MinAddress() + 1
            <==> |selection.ranges| == 1
  {
    var last := |selection.ranges| - 1;
    if last > 0 {
      selection.RangesApart(0, last);
    }
  }

  /**
   After a successful run over a one-range selection every selected byte is a NOP; over any
   selection, the bytes outside the first range keep their values.
   */
  lemma SelectedBytesAreNops(mem: map<int, byte>, selection: Selection, a: int)
    requires selection.Valid()
    ensures var after := Overwrite(mem, selection.MinAddress(), Nops(selection.FirstRange().Length()));
            && (|selection.ranges| == 1 && selection.MinAddress() <= a <= selection.MaxAddress() ==> after[a] == NOP)
            && (a in mem && !(selection.FirstRange().min <= a <= selection.FirstRange().max) ==> after[a] == mem[a])
  {
    FillWithinSelection(selection);
  }

  /** Writing the same NOPs again changes nothing: a second run leaves the same bytes. */
  lemma OverwriteIdempotent(mem: map<int, byte>, start: int, buf: seq<byte>)
    ensures Overwrite(Overwrite(mem, start, buf), start, buf) == Overwrite(mem, start, buf)
  {
    var once := Overwrite(mem, start, buf);
    var twice := Overwrite(once, start, buf);
    assert forall a :: a in twice <==> a in once;
    assert forall a :: a in twice ==> twice[a] == once[a];
  }

  // ---------------------------------------------------------------------------------------
  // What the span map says about the listing.

  /**
   Right after the clear, no instruction touches the selection, so collecting spans over
   units inside it finds nothing. (Only the decoder, which this model does not run, puts
   instructions back on the new bytes.)
   */
  lemma {:induction false} ClearedSelectionHasNoSpans(listing: seq<Instruction>, units: seq<int>, lo: int, hi: int)
    requires forall i :: 0 <= i < |units| ==> lo <= units[i] <= hi
    ensures SpanMap(ClearRange(listing, lo, hi), units) == []
  {
    if units != [] {
      var a := units[|units| - 1];
      var cleared := ClearRange(listing, lo, hi);
      assert InstructionContaining(cleared, a).None? by {
        if InstructionContaining(cleared, a).Some? {
          var ins := InstructionContaining(cleared, a).value;
          assert ins.Intersects(lo, hi);
        }
      }
      ClearedSelectionHasNoSpans(listing, units[..|units| - 1], lo, hi);
    }
  }

  /**
   When every visited unit that lies inside an instruction is that instruction's first byte,
   as a code-unit iterator yields them, each recorded span is exactly the instruction's extent.
   */
  lemma SpansExactAtInstructionStarts(listing: seq<Instruction>, units: seq<int>)
    requires WellFormed(listing) && StrictlyAscending(units)
    requires forall a, ins :: a in units && ins in listing && ins.Contains(a) ==> a == ins.start
    ensures forall e :: e in SpanMap(listing, units) ==>
              exists ins :: ins in listing && e.key == ins.start && e.value == AddrRange(ins.start, ins.start + ins.length - 1)
  {
    SpanMapCharacterized(listing, units);
    forall e | e in SpanMap(listing, units)
      ensures exists ins :: ins in listing && e.key == ins.start && e.value == AddrRange(ins.start, ins.start + ins.length - 1)
    {
      var ins := InstructionContaining(listing, e.key).value;
      assert ins in listing && e.key == ins.start;
    }
  }

  /**
   Conversely, every instruction whose first byte is a visited unit gets its exact extent
   recorded under that address.
   */
  lemma InstructionStartsRecorded(listing: seq<Instruction>, units: seq<int>, ins: Instruction)
    requires WellFormed(listing) && StrictlyAscending(units)
    requires ins in listing && ins.start in units
    ensures Entry(ins.start, AddrRange(ins.start, ins.start + ins.length - 1)) in SpanMap(listing, units)
  {
    SpanMapCharacterized(listing, units);
    UnitSpanOfInstruction(listing, ins, ins.start);
  }

  /**
   A recorded span is not clipped to the scanned range: the unit at 5, the range's last
   address, lies in a 4-byte instruction and is recorded as [5, 8].
   */
  lemma SpanEndNotClamped()
    ensures UnitsWithin([5], 5, 5)
    ensures SpanMap([Instruction(5, 4)], [5]) == [Entry(5, AddrRange(5, 8))]
  {
    assert [5][..0] == [];
  }

  /**
   Clearing comes before writing because setBytes refuses bytes under a defined instruction:
   after the clear over [min, max], no instruction shares a byte with the window the NOPs
   are written to, so only uninitialized memory can make the write fail.
   */
  lemma ClearedWindowHoldsNoInstruction(listing: seq<Instruction>, selection: Selection)
    requires selection.Valid()
    ensures Unoccupied(ClearRange(listing, selection.MinAddress(), selection.MaxAddress()),
                       selection.MinAddress(), selection.FirstRange().Length())
  {
    FillWithinSelection(selection);
  }

  /**
   A unit that lies inside an instruction but after its first byte gets a span that runs past
   the instruction's end: the 4-byte instruction at 0xFFE ends at 0x1001, yet the unit at 0x1000
   is recorded as [0x1000, 0x1003].
   */
  lemma MidInstructionSpanOvershoots()
    ensures SpanMap([Instruction(0xFFE, 4)], [0x1000]) == [Entry(0x1000, AddrRange(0x1000, 0x1003))]
  {
    assert [0x1000][..0] == [];
  }

  /**
   An example: two 3-byte instructions filling [0x1000, 0x1005] give two entries, and
   re-disassembly replays them at 0x1000 and then 0x1003.
   */
  lemma TwoInstructionExample()
    ensures SpanMap([Instruction(0x1000, 3), Instruction(0x1003, 3)], [0x1000, 0x1003])
            == [Entry(0x1000, AddrRange(0x1000, 0x1002)), Entry(0x1003, AddrRange(0x1003, 0x1005))]
    ensures Calls(SpanMap([Instruction(0x1000, 3), Instruction(0x1003, 3)], [0x1000, 0x1003]))
            == [DisassembleCall(0x1000, AddrRange(0x1000, 0x1002), true), DisassembleCall(0x1003, AddrRange(0x1003, 0x1005), true)]
  {
    var listing := [Instruction(0x1000, 3), Instruction(0x1003, 3)];
    var first := Entry(0x1000, AddrRange(0x1000, 0x1002));
    var second := Entry(0x1003, AddrRange(0x1003, 0x1005));
    assert InstructionContaining(listing, 0x1003) == Some(Instruction(0x1003, 3)) by {
      assert listing[1..] == [Instruction(0x1003, 3)];
    }
    assert SpanMap(listing, [0x1000]) == [first] by {
      assert [0x1000][..0] == [];
    }
    assert SpanMap(listing, [0x1000, 0x1003]) == [first, second] by {
      assert [0x1000, 0x1003][..1] == [0x1000];
    }
    var calls := Calls([first, second]);
    assert calls[0] == DisassembleCall(0x1000, AddrRange(0x1000, 0x1002), true);
    assert calls[1] == DisassembleCall(0x1003, AddrRange(0x1003, 0x1005), true);
  }
}
