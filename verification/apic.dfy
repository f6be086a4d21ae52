/** APIC bring-up (kernel/src/interrupts/mod.rs, `init_apic` and the
    functions it calls) as a sequence of abstract hardware events. The
    local APIC handle `LOCAL_APIC` is the only state; register writes,
    port I/O and page mapping are events, not effects. */
module Apic {
  import opened Common
  import opened Vectors
  import opened Idt
  import opened Redirection
  import opened Events

  /** Offsets `disable_legacy_pic` gives the two 8259 controllers before
      masking them. */
  const PIC1_OFFSET: nat := 0x20
  const PIC2_OFFSET: nat := 0x28
  /** Local APIC timer divisor (`TimerDivide::Div128`). */
  const TIMER_DIVIDE: nat := 128

  /** The initialised local APIC, with the value of its ID register. */
  datatype LocalApic = LocalApic(id: nat)

  /** `LOCAL_APIC`: unset until `init_local_apic`. */
  datatype State = State(localApic: Option<LocalApic>)

  const BOOT: State := State(None)

  datatype Step = Step(state: State, run: Run)

  /** One I/O APIC as the firmware tables describe it. */
  datatype IoApicInfo = IoApicInfo(id: nat, address: nat)

  /** The APIC part of the platform description. */
  datatype ApicInfo = ApicInfo(localApicAddress: nat, ioApics: seq<IoApicInfo>)

  /** The local APIC settings: timer on `Timer`, divisor 128, errors on
      `ApicError`, spurious interrupts on 0xFF, registers at `address`. */
  function LocalApicSettings(address: nat): LocalApicConfig {
    LocalApicConfig(Vector(Timer), TIMER_DIVIDE, Vector(ApicError), SPURIOUS_VECTOR, address)
  }

  /** `init_local_apic`: map the registers, configure and enable the local
      APIC, then store the handle with `init_once`, which does nothing when
      a handle is already stored: a second call reprograms the hardware and
      keeps the first handle. */
  function InitLocalApic(s: State, address: nat, id: nat): (r: Step)
    ensures r.run.events ==
      [IdentityMap(address), ConfigureLocalApic(LocalApicConfig(0x91, 128, 0x90, 0xFF, address)), EnableLocalApic]
    ensures r.run.end == Returned
    ensures s.localApic.None? ==> r.state.localApic == Some(LocalApic(id))
    ensures s.localApic.Some? ==> r.state == s
  {
    VectorNumbers();
    var events := [IdentityMap(address), ConfigureLocalApic(LocalApicSettings(address)), EnableLocalApic];
    if s.localApic.Some? then Step(s, Run(events, Returned))
    else Step(State(Some(LocalApic(id))), Run(events, Returned))
  }

  /** `local_apic.id() as u8`: the ID register truncated to a byte. */
  function DestinationOf(lapic: LocalApic): bv8 {
    (lapic.id % 256) as bv8
  }

  /** `register_io_apic_entry`: write the device entry for `line`, then
      enable the line. */
  function RegisterEntry(address: nat, lapicId: bv8, vector: nat, line: nat): seq<Event>
    requires vector < 256
  {
    [WriteEntry(address, line, DeviceEntry(lapicId, vector as bv8)), EnableLine(address, line)]
  }

  /** `init_io_apic`: map the registers; without a local APIC, panic;
      otherwise initialise the I/O APIC at the I/O APIC offset and route
      the keyboard line, then the mouse line, to the local APIC. */
  function InitIoApicAt(s: State, address: nat): Run {
    if s.localApic.None? then Run([IdentityMap(address)], Panicked)
    else
      var dest := DestinationOf(s.localApic.value);
      Run([IdentityMap(address), InitIoApic(address, IOAPIC_INTERRUPT_INDEX_OFFSET)]
          + RegisterEntry(address, dest, Vector(Keyboard), Line(KeyboardLine))
          + RegisterEntry(address, dest, Vector(Mouse), Line(MouseLine)),
          Returned)
  }

  /** The loop over the I/O APICs, in list order, each announced first by
      a `println!` while the console prints `prints` more lines: the first
      announcement the console cannot print panics (`_print` unwraps the
      writer cell and the write). */
  function InitIoApics(s: State, ioApics: seq<IoApicInfo>, prints: nat): Run
    decreases |ioApics|
  {
    if ioApics == [] then Run([], Returned)
    else if prints == 0 then Run([], Panicked)
    else
      var first := InitIoApicAt(s, ioApics[0].address);
      var head := [AnnounceIoApic(ioApics[0].id)] + first.events;
      if first.end != Returned then Run(head, first.end)
      else
        var rest := InitIoApics(s, ioApics[1..], prints - 1);
        Run(head + rest.events, rest.end)
  }

  /** `init_apic`: interrupts off, legacy PICs masked, the table loaded,
      the local APIC and then every I/O APIC initialised, interrupts on;
      the console prints `prints` more lines. */
  function InitApic(s: State, info: ApicInfo, id: nat, prints: nat): Step {
    var prefix := [DisableInterrupts, MaskLegacyPics(PIC1_OFFSET, PIC2_OFFSET)];
    if BuildIdt().Err? then Step(s, Run(prefix, Panicked))
    else
      var loaded := prefix + [LoadIdt];
      var local := InitLocalApic(s, info.localApicAddress, id);
      var io := InitIoApics(local.state, info.ioApics, prints);
      if io.end != Returned then Step(local.state, Run(loaded + local.run.events + io.events, io.end))
      else Step(local.state, Run(loaded + local.run.events + io.events + [EnableInterrupts], Returned))
  }

  /** The events one I/O APIC contributes to a successful bring-up. */
  function IoApicEvents(dest: bv8, io: IoApicInfo): seq<Event> {
    [AnnounceIoApic(io.id), IdentityMap(io.address), InitIoApic(io.address, 0x28),
     WriteEntry(io.address, 1, DeviceEntry(dest, 0x29)), EnableLine(io.address, 1),
     WriteEntry(io.address, 12, DeviceEntry(dest, 0x34)), EnableLine(io.address, 12)]
  }

  function ConcatIoApicEvents(dest: bv8, ioApics: seq<IoApicInfo>): seq<Event>
    decreases |ioApics|
  {
    if ioApics == [] then [] else IoApicEvents(dest, ioApics[0]) + ConcatIoApicEvents(dest, ioApics[1..])
  }

  /** `init_io_apic` with a local APIC routes line 1 to vector 0x29 and line
      12 to vector 0x34, each with a fixed, level-triggered, active-low,
      masked entry aimed at the local APIC, then enables the line; without
      one it panics right after mapping the registers. */
  lemma InitIoApicRoutes(s: State, address: nat)
    ensures s.localApic.None? ==> InitIoApicAt(s, address) == Run([IdentityMap(address)], Panicked)
    ensures s.localApic.Some? ==>
      var dest := DestinationOf(s.localApic.value);
      InitIoApicAt(s, address) == Run(
        [IdentityMap(address), InitIoApic(address, 0x28),
         WriteEntry(address, 1, DeviceEntry(dest, 0x29)), EnableLine(address, 1),
         WriteEntry(address, 12, DeviceEntry(dest, 0x34)), EnableLine(address, 12)],
        Returned)
  {
    VectorNumbers();
  }

  /** One announced and routed I/O APIC, then the rest of the loop. */
  lemma InitIoApicsStep(s: State, ioApics: seq<IoApicInfo>, prints: nat)
    requires s.localApic.Some? && ioApics != [] && prints > 0
    ensures var rest := InitIoApics(s, ioApics[1..], prints - 1);
      InitIoApics(s, ioApics, prints) ==
        Run(IoApicEvents(DestinationOf(s.localApic.value), ioApics[0]) + rest.events, rest.end)
  {
    InitIoApicRoutes(s, ioApics[0].address);
  }

  /** With a local APIC and every announcement printed, the I/O APIC loop
      produces each controller's events in list order and returns. */
  lemma {:induction false} InitIoApicsInOrder(s: State, ioApics: seq<IoApicInfo>, prints: nat)
    requires s.localApic.Some?
    ensures |ioApics| <= prints ==>
      InitIoApics(s, ioApics, prints) == Run(ConcatIoApicEvents(DestinationOf(s.localApic.value), ioApics), Returned)
    decreases |ioApics|
  {
    if ioApics != [] && |ioApics| <= prints {
      InitIoApicsStep(s, ioApics, prints);
      InitIoApicsInOrder(s, ioApics[1..], prints - 1);
    }
  }

  /** With a local APIC, the I/O APIC loop panics at the first announcement
      the console cannot print, after setting up the controllers announced
      before it. */
  lemma {:induction false} InitIoApicsPanicsAtAnnouncement(s: State, ioApics: seq<IoApicInfo>, prints: nat)
    requires s.localApic.Some?
    ensures |ioApics| > prints ==>
      InitIoApics(s, ioApics, prints) == Run(ConcatIoApicEvents(DestinationOf(s.localApic.value), ioApics[.. prints]), Panicked)
    decreases |ioApics|
  {
    if |ioApics| > prints > 0 {
      InitIoApicsStep(s, ioApics, prints);
      InitIoApicsPanicsAtAnnouncement(s, ioApics[1..], prints - 1);
      assert ioApics[.. prints][0] == ioApics[0];
      assert ioApics[.. prints][1..] == ioApics[1..][.. prints - 1];
    }
  }

  /** Every entry written during bring-up routes line `n` to vector
      `0x28 + n`, the vector `io_apic.init` gave that line. */
  lemma {:induction false} EntriesAgreeWithOffset(dest: bv8, ioApics: seq<IoApicInfo>)
    ensures forall k | 0 <= k < |ConcatIoApicEvents(dest, ioApics)| ::
      var e := ConcatIoApicEvents(dest, ioApics)[k];
      e.WriteEntry? ==> e.entry.vector as nat == InitialLineVector(e.line)
    ensures EnableInterrupts !in ConcatIoApicEvents(dest, ioApics)
    ensures DisableInterrupts !in ConcatIoApicEvents(dest, ioApics)
    decreases |ioApics|
  {
    if ioApics != [] {
      EntriesAgreeWithOffset(dest, ioApics[1..]);
      var head := IoApicEvents(dest, ioApics[0]);
      var all := ConcatIoApicEvents(dest, ioApics);
      assert all == head + ConcatIoApicEvents(dest, ioApics[1..]);
      forall k | 0 <= k < |all|
        ensures all[k].WriteEntry? ==> all[k].entry.vector as nat == InitialLineVector(all[k].line)
      {
        if k >= |head| {
          assert all[k] == ConcatIoApicEvents(dest, ioApics[1..])[k - |head|];
        }
      }
    }
  }

  /** The events `init_apic` emits before the I/O APICs when the local
      APIC at `address` is set up. */
  function BringUpPrefix(address: nat): seq<Event> {
    [DisableInterrupts, MaskLegacyPics(0x20, 0x28), LoadIdt,
     IdentityMap(address),
     ConfigureLocalApic(LocalApicConfig(0x91, 128, 0x90, 0xFF, address)),
     EnableLocalApic]
  }

  /** Bring-up from boot runs in this fixed order: interrupts off, legacy
      PICs masked, table loaded, local APIC mapped, configured, enabled and
      stored, each I/O APIC in list order, and interrupts back on. When the
      console cannot print every announcement, it panics at the first one
      it cannot print, with interrupts still off. */
  lemma InitApicFromBoot(info: ApicInfo, id: nat, prints: nat)
    ensures var step := InitApic(BOOT, info, id, prints);
      && step.state.localApic == Some(LocalApic(id))
      && (|info.ioApics| <= prints ==>
            && step.run.end == Returned
            && step.run.events ==
                 BringUpPrefix(info.localApicAddress)
                 + ConcatIoApicEvents(DestinationOf(LocalApic(id)), info.ioApics)
                 + [EnableInterrupts])
      && (|info.ioApics| > prints ==>
            && step.run.end == Panicked
            && step.run.events ==
                 BringUpPrefix(info.localApicAddress)
                 + ConcatIoApicEvents(DestinationOf(LocalApic(id)), info.ioApics[.. prints]))
  {
    var local := State(Some(LocalApic(id)));
    InitApicThroughLoop(BOOT, info, id, prints);
    InitIoApicsInOrder(local, info.ioApics, prints);
    InitIoApicsPanicsAtAnnouncement(local, info.ioApics, prints);
  }

  /** Bring-up is the fixed prefix, then the I/O APIC loop with the local
      APIC handle stored (the one already there, else the new one), then,
      if the loop returned, interrupts on. */
  lemma InitApicThroughLoop(s: State, info: ApicInfo, id: nat, prints: nat)
    ensures var lapic := if s.localApic.Some? then s.localApic.value else LocalApic(id);
      var io := InitIoApics(State(Some(lapic)), info.ioApics, prints);
      var step := InitApic(s, info, id, prints);
      && step.state.localApic == Some(lapic)
      && step.run.end == io.end
      && step.run.events ==
           if io.end == Returned then BringUpPrefix(info.localApicAddress) + io.events + [EnableInterrupts]
           else BringUpPrefix(info.localApicAddress) + io.events
  {
    BuildIdtBindings();
  }

  /** Interrupts are re-enabled as the last step of a bring-up that
      returns and nowhere before it; a bring-up that panics never
      re-enables them. */
  lemma InitApicEnablesLast(info: ApicInfo, id: nat, prints: nat)
    ensures var step := InitApic(BOOT, info, id, prints);
      step.run.end == Returned ==>
        && |step.run.events| > 0
        && step.run.events[|step.run.events| - 1] == EnableInterrupts
        && forall k | 0 <= k < |step.run.events| - 1 :: step.run.events[k] != EnableInterrupts
    ensures var step := InitApic(BOOT, info, id, prints);
      step.run.end != Returned ==> EnableInterrupts !in step.run.events
  {
    InitApicFromBoot(info, id, prints);
    var dest := DestinationOf(LocalApic(id));
    var announced := if |info.ioApics| <= prints then info.ioApics else info.ioApics[.. prints];
    var head := BringUpPrefix(info.localApicAddress) + ConcatIoApicEvents(dest, announced);
    NoEnableBeforeLoopEnds(info.localApicAddress, dest, announced);
    if |info.ioApics| <= prints {
      var events := head + [EnableInterrupts];
      forall k | 0 <= k < |events| - 1
        ensures events[k] != EnableInterrupts
      {
        assert events[k] == head[k];
      }
    }
  }

  /** Neither the fixed prefix nor the I/O APIC loop enables interrupts. */
  lemma NoEnableBeforeLoopEnds(address: nat, dest: bv8, ioApics: seq<IoApicInfo>)
    ensures EnableInterrupts !in BringUpPrefix(address) + ConcatIoApicEvents(dest, ioApics)
  {
    EntriesAgreeWithOffset(dest, ioApics);
  }

  /** A second bring-up does not panic at the local APIC: it reprograms
      it, keeps the first handle, routes every I/O APIC to the first
      handle's ID, and ends like a first bring-up would. */
  lemma InitApicTwiceKeepsFirstHandle(info: ApicInfo, id: nat, prints: nat, info2: ApicInfo, id2: nat, prints2: nat)
    ensures var first := InitApic(BOOT, info, id, prints);
      var second := InitApic(first.state, info2, id2, prints2);
      && second.state == first.state
      && (|info2.ioApics| <= prints2 ==>
            && second.run.end == Returned
            && second.run.events ==
                 BringUpPrefix(info2.localApicAddress)
                 + ConcatIoApicEvents(DestinationOf(LocalApic(id)), info2.ioApics)
                 + [EnableInterrupts])
      && (|info2.ioApics| > prints2 ==>
            && second.run.end == Panicked
            && second.run.events ==
                 BringUpPrefix(info2.localApicAddress)
                 + ConcatIoApicEvents(DestinationOf(LocalApic(id)), info2.ioApics[.. prints2]))
  {
    InitApicFromBoot(info, id, prints);
    var s := State(Some(LocalApic(id)));
    InitApicThroughLoop(s, info2, id2, prints2);
    InitIoApicsInOrder(s, info2.ioApics, prints2);
    InitIoApicsPanicsAtAnnouncement(s, info2.ioApics, prints2);
  }

  /** One event's effect on the redirection table of the I/O APIC at
      `address` with `lines` entries (`None` before `io_apic.init`).
      `init` gives line `n` vector `offset + n`, masked; an entry write
      replaces a line; enabling a line clears its mask. */
  function ApplyEvent(e: Event, address: nat, lines: nat, table: Option<seq<Entry>>): (r: Option<seq<Entry>>)
    requires table.Some? ==> |table.value| == lines
    ensures r.Some? ==> |r.value| == lines
  {
    match e
    case InitIoApic(a, offset) =>
      if a == address then Some(InitialTable(offset, lines)) else table
    case WriteEntry(a, line, entry) =>
      if a == address && table.Some? && line < lines then Some(table.value[line := entry]) else table
    case EnableLine(a, line) =>
      if a == address && table.Some? && line < lines
      then Some(table.value[line := Unmasked(table.value[line])])
      else table
    case _ => table
  }

  /** The redirection table as a run of events leaves it. */
  function IoApicTable(events: seq<Event>, address: nat, lines: nat, table: Option<seq<Entry>>): (r: Option<seq<Entry>>)
    requires table.Some? ==> |table.value| == lines
    ensures r.Some? ==> |r.value| == lines
    decreases |events|
  {
    if events == [] then table
    else IoApicTable(events[1..], address, lines, ApplyEvent(events[0], address, lines, table))
  }

  /** The table `io_apic.init(offset)` leaves: line `n` on vector
      `offset + n` (as a byte), masked. */
  function InitialTable(offset: nat, lines: nat): (t: seq<Entry>)
    ensures |t| == lines
  {
    seq(lines, n => DEFAULT.(vector := ToByte(offset + n), masked := true))
  }

  /** `v as u8`: the low byte. */
  function ToByte(v: int): bv8 {
    (v % 256) as bv8
  }

  /** The table after the keyboard and mouse lines are routed to `dest`. */
  function RoutedTable(dest: bv8): seq<Entry> {
    InitialTable(IOAPIC_INTERRUPT_INDEX_OFFSET, IO_APIC_LINES)
      [1 := Unmasked(DeviceEntry(dest, 0x29))]
      [12 := Unmasked(DeviceEntry(dest, 0x34))]
  }

  /** The events `init_io_apic` emits for the I/O APIC at `address` when
      the local APIC's destination byte is `dest`. */
  function RoutingEvents(address: nat, dest: bv8): seq<Event> {
    [IdentityMap(address), InitIoApic(address, 0x28),
     WriteEntry(address, 1, DeviceEntry(dest, 0x29)), EnableLine(address, 1),
     WriteEntry(address, 12, DeviceEntry(dest, 0x34)), EnableLine(address, 12)]
  }

  lemma ReplayRouting(address: nat, dest: bv8)
    ensures IoApicTable(RoutingEvents(address, dest), address, IO_APIC_LINES, None) == Some(RoutedTable(dest))
  {
    var e0 := IdentityMap(address);
    var e1 := InitIoApic(address, 0x28);
    var e2 := WriteEntry(address, 1, DeviceEntry(dest, 0x29));
    var e3 := EnableLine(address, 1);
    var e4 := WriteEntry(address, 12, DeviceEntry(dest, 0x34));
    var e5 := EnableLine(address, 12);
    var t0 := InitialTable(0x28, IO_APIC_LINES);
    var t1 := t0[1 := DeviceEntry(dest, 0x29)];
    var t2 := t1[1 := Unmasked(t1[1])];
    var t3 := t2[12 := DeviceEntry(dest, 0x34)];
    var t4 := t3[12 := Unmasked(t3[12])];
    var L := IO_APIC_LINES;
    assert t4 == RoutedTable(dest) by {
      assert t2 == t0[1 := Unmasked(DeviceEntry(dest, 0x29))];
    }
    assert IoApicTable([e5], address, L, Some(t3)) == Some(t4) by {
      assert ApplyEvent(e5, address, L, Some(t3)) == Some(t4);
      assert [e5][1..] == [];
    }
    assert IoApicTable([e4, e5], address, L, Some(t2)) == Some(t4) by {
      assert ApplyEvent(e4, address, L, Some(t2)) == Some(t3);
      assert [e4, e5][1..] == [e5];
    }
    assert IoApicTable([e3, e4, e5], address, L, Some(t1)) == Some(t4) by {
      assert ApplyEvent(e3, address, L, Some(t1)) == Some(t2);
      assert [e3, e4, e5][1..] == [e4, e5];
    }
    assert IoApicTable([e2, e3, e4, e5], address, L, Some(t0)) == Some(t4) by {
      assert ApplyEvent(e2, address, L, Some(t0)) == Some(t1);
      assert [e2, e3, e4, e5][1..] == [e3, e4, e5];
    }
    assert IoApicTable([e1, e2, e3, e4, e5], address, L, None) == Some(t4) by {
      assert ApplyEvent(e1, address, L, None) == Some(t0);
      assert [e1, e2, e3, e4, e5][1..] == [e2, e3, e4, e5];
    }
    assert IoApicTable([e0, e1, e2, e3, e4, e5], address, L, None) == Some(t4) by {
      assert ApplyEvent(e0, address, L, None) == None;
      assert [e0, e1, e2, e3, e4, e5][1..] == [e1, e2, e3, e4, e5];
    }
  }

  /** Replaying `init_io_apic`'s events on its I/O APIC yields the routed
      table. */
  lemma IoApicTableReplay(s: State, address: nat)
    requires s.localApic.Some?
    ensures IoApicTable(InitIoApicAt(s, address).events, address, IO_APIC_LINES, None)
      == Some(RoutedTable(DestinationOf(s.localApic.value)))
  {
    InitIoApicRoutes(s, address);
    ReplayRouting(address, DestinationOf(s.localApic.value));
  }

  /** After `init_io_apic` on a 24-line I/O APIC, only the keyboard and
      mouse lines are unmasked; they deliver vectors 0x29 and 0x34 to the
      local APIC, and every line keeps the vector `0x28 + line`. */
  lemma IoApicTableAfterInit(s: State, address: nat)
    requires s.localApic.Some?
    ensures var t := IoApicTable(InitIoApicAt(s, address).events, address, IO_APIC_LINES, None);
      && t.Some?
      && (forall n | 0 <= n < IO_APIC_LINES :: t.value[n].vector == ToByte(InitialLineVector(n)))
      && (forall n | 0 <= n < IO_APIC_LINES :: !t.value[n].masked <==> n == 1 || n == 12)
      && t.value[1] == Unmasked(DeviceEntry(DestinationOf(s.localApic.value), 0x29))
      && t.value[12] == Unmasked(DeviceEntry(DestinationOf(s.localApic.value), 0x34))
  {
    IoApicTableReplay(s, address);
    RoutedTableShape(DestinationOf(s.localApic.value));
  }

  lemma RoutedTableShape(dest: bv8)
    ensures var t := RoutedTable(dest);
      && |t| == IO_APIC_LINES
      && (forall n | 0 <= n < IO_APIC_LINES :: t[n].vector == ToByte(InitialLineVector(n)))
      && (forall n | 0 <= n < IO_APIC_LINES :: !t[n].masked <==> n == 1 || n == 12)
      && t[1] == Unmasked(DeviceEntry(dest, 0x29))
      && t[12] == Unmasked(DeviceEntry(dest, 0x34))
  {
    var t := RoutedTable(dest);
    var t0 := InitialTable(IOAPIC_INTERRUPT_INDEX_OFFSET, IO_APIC_LINES);
    forall n | 0 <= n < IO_APIC_LINES
      ensures t[n].vector == ToByte(InitialLineVector(n))
      ensures !t[n].masked <==> n == 1 || n == 12
    {
      if n == 1 {
        assert t[n] == Unmasked(DeviceEntry(dest, 0x29));
        assert ToByte(0x29) == 0x29;
      } else if n == 12 {
        assert t[n] == Unmasked(DeviceEntry(dest, 0x34));
        assert ToByte(0x34) == 0x34;
      } else {
        assert t[n] == t0[n];
      }
    }
  }
}
