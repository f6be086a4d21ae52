/** The handlers bound in the interrupt descriptor table
    (kernel/src/interrupts/handlers.rs) as abstract effect traces, and
    dispatch through the table the kernel builds. */
module Handlers {
  import opened Common
  import opened Vectors
  import opened Idt
  import opened Apic
  import opened Events

  /** Data port of the PS/2 controller. */
  const PS2_DATA_PORT: nat := 0x60

  /** `end_of_interrupt`: signal the local APIC, or panic when it has not
      been initialised. */
  function EndOfInterruptRun(s: State): (r: Run)
    ensures s.localApic.Some? <==> r.end == Returned
    ensures r.end == Returned ==> r.events == [EndOfInterrupt]
    ensures r.end != Returned ==> r.end == Panicked && r.events == []
  {
    if s.localApic.Some? then Run([EndOfInterrupt], Returned) else Run([], Panicked)
  }

  /** A trace that runs `first` and, if it returned, continues with `rest`. */
  function AndThen(first: seq<Event>, rest: Run): Run {
    Run(first + rest.events, rest.end)
  }

  /** Runs `events` when the console prints `prints` more lines before a
      print panics: each `Log` prints one line, and the first `Log` the
      console cannot print ends the run in a panic (`println!` unwraps the
      writer cell and the write, so an unset `WRITER` or a faulting writer
      panics). */
  function Logged(events: seq<Event>, prints: nat, end: End): Run
    decreases |events|
  {
    if events == [] then Run([], end)
    else if events[0] == Log && prints == 0 then Run([], Panicked)
    else
      var rest := Logged(events[1..], if events[0] == Log then prints - 1 else prints, end);
      Run([events[0]] + rest.events, rest.end)
  }

  /** A run continued by `end_of_interrupt` if it returned. */
  function Acknowledged(r: Run, s: State): Run {
    if r.end == Returned then AndThen(r.events, EndOfInterruptRun(s)) else r
  }

  /** What handler `h` does when the local APIC is in state `s`, the PS/2
      data port holds `portValue` and the console prints `prints` more
      lines before a print panics. */
  function Handle(h: Handler, s: State, portValue: bv8, prints: nat): Run {
    match h
    case BreakpointHandler => Logged([Log], prints, Returned)
    case DoubleFaultHandler => Run([], Panicked)
    case PageFaultHandler => Logged([Log, ReadFaultAddress, Log, Log, Log], prints, Halted)
    case ApicErrorHandler =>
      if s.localApic.Some? then Run([ReadErrorFlags], Panicked) else Run([], Panicked)
    case TimerHandler => EndOfInterruptRun(s)
    case KeyboardHandler =>
      AndThen([ReadPort(PS2_DATA_PORT, portValue), AddScancode(portValue)], EndOfInterruptRun(s))
    case MouseHandler =>
      Acknowledged(Logged([ReadPort(PS2_DATA_PORT, portValue), Log], prints, Returned), s)
  }

  /** The handlers of external interrupts, which must acknowledge them. */
  predicate IsDeviceHandler(h: Handler) {
    h == TimerHandler || h == KeyboardHandler || h == MouseHandler
  }

  /** Occurrences of `e` in `events`. */
  function Count(events: seq<Event>, e: Event): (n: nat)
    ensures n <= |events|
    ensures n == 0 <==> e !in events
    decreases |events|
  {
    if events == [] then 0 else (if events[0] == e then 1 else 0) + Count(events[1..], e)
  }

  lemma {:induction false} CountAppend(a: seq<Event>, b: seq<Event>, e: Event)
    ensures Count(a + b, e) == Count(a, e) + Count(b, e)
    decreases |a|
  {
    if a == [] {
      assert a + b == b;
    } else {
      assert (a + b)[1..] == a[1..] + b;
      CountAppend(a[1..], b, e);
    }
  }

  /** When the console prints every log line, a logged run is the run
      itself. */
  lemma {:induction false} LoggedAllPrinted(events: seq<Event>, prints: nat, end: End)
    requires Count(events, Log) <= prints
    ensures Logged(events, prints, end) == Run(events, end)
    decreases |events|
  {
    if events != [] {
      var e := events[0];
      var p := if e == Log then prints - 1 else prints;
      LoggedAllPrinted(events[1..], p, end);
      assert [e] + events[1..] == events;
    }
  }

  /** When the console runs out, a logged run panics before it reaches
      the end: it has done a strict prefix of the events, and the next one
      is the log line it could not print. */
  lemma {:induction false} LoggedPanics(events: seq<Event>, prints: nat, end: End)
    requires Count(events, Log) > prints
    ensures var r := Logged(events, prints, end);
      && r.end == Panicked
      && |r.events| < |events|
      && r.events == events[.. |r.events|]
      && events[|r.events|] == Log
    decreases |events|
  {
    var e := events[0];
    if !(e == Log && prints == 0) {
      var p := if e == Log then prints - 1 else prints;
      LoggedPanics(events[1..], p, end);
      LoggedCons(events, prints, end);
      PrefixCons(events, |Logged(events[1..], p, end).events|);
    }
  }

  /** The log lines a run does before it panics are exactly the ones the
      console printed. */
  lemma {:induction false} LoggedPanicsAfterPrinted(events: seq<Event>, prints: nat, end: End)
    requires Count(events, Log) > prints
    ensures Count(Logged(events, prints, end).events, Log) == prints
    decreases |events|
  {
    var e := events[0];
    if !(e == Log && prints == 0) {
      var p := if e == Log then prints - 1 else prints;
      LoggedPanicsAfterPrinted(events[1..], p, end);
      LoggedCons(events, prints, end);
      CountCons(e, Logged(events[1..], p, end).events, Log);
    }
  }

  /** A logged run that does not stop at its first event does that event,
      then the rest. */
  lemma LoggedCons(events: seq<Event>, prints: nat, end: End)
    requires events != [] && !(events[0] == Log && prints == 0)
    ensures var rest := Logged(events[1..], if events[0] == Log then prints - 1 else prints, end);
      Logged(events, prints, end) == Run([events[0]] + rest.events, rest.end)
  {
  }

  lemma PrefixCons<T>(xs: seq<T>, k: nat)
    requires k < |xs|
    ensures [xs[0]] + xs[1..][.. k] == xs[.. k + 1]
    ensures xs[k + 1 ..] == xs[1..][k ..]
  {
  }

  lemma CountCons(e: Event, events: seq<Event>, x: Event)
    ensures Count([e] + events, x) == (if e == x then 1 else 0) + Count(events, x)
  {
    assert ([e] + events)[1..] == events;
  }

  /** One log line: printed, or a panic before it. */
  lemma LoggedLine(prints: nat)
    ensures Logged([Log], prints, Returned) ==
      if prints >= 1 then Run([Log], Returned) else Run([], Panicked)
  {
    assert [Log][1..] == [];
  }

  /** A port read, then one log line. */
  lemma LoggedAfterRead(read: Event, prints: nat)
    requires read != Log
    ensures Logged([read, Log], prints, Returned) ==
      if prints >= 1 then Run([read, Log], Returned) else Run([read], Panicked)
  {
    assert [read, Log][1..] == [Log];
    LoggedLine(prints);
  }

  /** The page-fault report: four log lines around the fault-address read. */
  lemma LoggedPageFault(prints: nat)
    ensures Logged([Log, ReadFaultAddress, Log, Log, Log], prints, Halted).end ==
      if prints >= 4 then Halted else Panicked
  {
    var pageFault := [Log, ReadFaultAddress, Log, Log, Log];
    assert pageFault[1..] == [ReadFaultAddress, Log, Log, Log];
    assert pageFault[1..][1..] == [Log, Log, Log];
    assert pageFault[1..][1..][1..] == [Log, Log];
    assert pageFault[1..][1..][1..][1..] == [Log];
  }

  /** The mouse handler's run: the read, then its log line and
      `end_of_interrupt`, or a panic at the log line. */
  lemma MouseHandlerRun(s: State, portValue: bv8, prints: nat)
    ensures var read := ReadPort(PS2_DATA_PORT, portValue);
      Handle(MouseHandler, s, portValue, prints) ==
        if prints >= 1 then AndThen([read, Log], EndOfInterruptRun(s)) else Run([read], Panicked)
  {
    LoggedAfterRead(ReadPort(PS2_DATA_PORT, portValue), prints);
  }

  /** Every device handler that returns has signalled end-of-interrupt
      exactly once, as its last action. It returns exactly when the local
      APIC is initialised and, for the mouse handler, its one log line
      prints; otherwise it panics without signalling. */
  lemma DeviceHandlersAcknowledgeOnce(h: Handler, s: State, portValue: bv8, prints: nat)
    requires IsDeviceHandler(h)
    ensures var r := Handle(h, s, portValue, prints);
      && (r.end == Returned <==> s.localApic.Some? && (h == MouseHandler ==> prints >= 1))
      && (r.end != Returned ==> r.end == Panicked && EndOfInterrupt !in r.events)
      && (r.end == Returned ==>
            |r.events| > 0
            && r.events[|r.events| - 1] == EndOfInterrupt
            && Count(r.events, EndOfInterrupt) == 1)
  {
    var read := ReadPort(PS2_DATA_PORT, portValue);
    MouseHandlerRun(s, portValue, prints);
    if h == MouseHandler && prints == 0 {
      assert Handle(h, s, portValue, prints) == Run([read], Panicked);
    } else {
      var prefix :=
        if h == TimerHandler then []
        else if h == KeyboardHandler then [read, AddScancode(portValue)]
        else [read, Log];
      AcknowledgeAfter(prefix, s);
      assert Handle(h, s, portValue, prints) == AndThen(prefix, EndOfInterruptRun(s));
    }
  }

  /** Running `prefix`, which does not acknowledge, then `end_of_interrupt`
      acknowledges exactly once, last, or panics without acknowledging. */
  lemma AcknowledgeAfter(prefix: seq<Event>, s: State)
    requires EndOfInterrupt !in prefix
    ensures var r := AndThen(prefix, EndOfInterruptRun(s));
      && (r.end == Returned <==> s.localApic.Some?)
      && (r.end != Returned ==> r.end == Panicked && EndOfInterrupt !in r.events)
      && (r.end == Returned ==>
            |r.events| > 0
            && r.events[|r.events| - 1] == EndOfInterrupt
            && Count(r.events, EndOfInterrupt) == 1)
  {
    var eoi := EndOfInterruptRun(s);
    CountAppend(prefix, eoi.events, EndOfInterrupt);
    if s.localApic.Some? {
      assert Count([EndOfInterrupt], EndOfInterrupt) == 1;
    } else {
      assert prefix + eoi.events == prefix;
    }
  }

  /** A handler that returns is the breakpoint handler or a device handler
      with the local APIC initialised. The breakpoint handler logs and
      returns, or panics when its line does not print; the double-fault and
      APIC-error handlers always panic; the page-fault handler halts when its
      four lines print and panics otherwise. */
  lemma ReturningHandlers(h: Handler, s: State, portValue: bv8, prints: nat)
    ensures Handle(h, s, portValue, prints).end == Returned ==>
      h == BreakpointHandler || (IsDeviceHandler(h) && s.localApic.Some?)
    ensures Handle(BreakpointHandler, s, portValue, prints) ==
      if prints >= 1 then Run([Log], Returned) else Run([], Panicked)
    ensures Handle(DoubleFaultHandler, s, portValue, prints).end == Panicked
    ensures Handle(PageFaultHandler, s, portValue, prints).end == (if prints >= 4 then Halted else Panicked)
    ensures Handle(ApicErrorHandler, s, portValue, prints).end == Panicked
  {
    LoggedLine(prints);
    LoggedPageFault(prints);
    MouseHandlerRun(s, portValue, prints);
  }

  /** The APIC-error handler reads the error flags when it can, and never
      signals end-of-interrupt. */
  lemma ApicErrorNeverAcknowledges(s: State, portValue: bv8, prints: nat)
    ensures var r := Handle(ApicErrorHandler, s, portValue, prints);
      EndOfInterrupt !in r.events
      && (s.localApic.Some? <==> ReadErrorFlags in r.events)
  {
  }

  /** The keyboard handler reads the data port, hands the byte to the
      keyboard queue, then signals end-of-interrupt, in that order. */
  lemma KeyboardHandlerOrder(s: State, portValue: bv8, prints: nat)
    requires s.localApic.Some?
    ensures Handle(KeyboardHandler, s, portValue, prints) ==
      Run([ReadPort(0x60, portValue), AddScancode(portValue), EndOfInterrupt], Returned)
  {
  }

  /** The mouse handler reads the data port first, logs the byte and
      signals end-of-interrupt; it never hands the byte to the mouse queue.
      When its line does not print, it panics after the read. */
  lemma MouseHandlerDropsPacket(s: State, portValue: bv8, prints: nat)
    ensures var r := Handle(MouseHandler, s, portValue, prints);
      (forall k | 0 <= k < |r.events| :: !r.events[k].AddPacket? && !r.events[k].AddScancode?)
      && |r.events| > 0 && r.events[0] == ReadPort(0x60, portValue)
    ensures s.localApic.Some? && prints >= 1 ==>
      Handle(MouseHandler, s, portValue, prints) == Run([ReadPort(0x60, portValue), Log, EndOfInterrupt], Returned)
    ensures prints == 0 ==> Handle(MouseHandler, s, portValue, prints) == Run([ReadPort(0x60, portValue)], Panicked)
  {
    MouseHandlerRun(s, portValue, prints);
  }

  /** Delivering `vector`: the bound handler's trace, or `None` for an
      empty slot. */
  function Dispatch(table: seq<Option<Gate>>, vector: nat, s: State, portValue: bv8, prints: nat): Option<Run>
    requires IsTable(table) && vector < VECTOR_COUNT
  {
    match table[vector]
    case None => None
    case Some(gate) => Some(Handle(gate.handler, s, portValue, prints))
  }

  /** Through the kernel's table, the four device vectors reach their
      handlers: after bring-up, timer and keyboard interrupts are
      acknowledged exactly once, last; a mouse interrupt too when its line
      prints, and otherwise it panics unacknowledged; an error reported by
      the local APIC panics without acknowledging. */
  lemma DispatchAfterBringUp(s: State, portValue: bv8, prints: nat)
    requires s.localApic.Some?
    ensures BuildIdt().Ok?
    ensures forall vector | 0 <= vector < VECTOR_COUNT ::
      Dispatch(BuildIdt().value, vector, s, portValue, prints).Some? <==> Binding(vector).Some?
    ensures var r := Dispatch(BuildIdt().value, 0x91, s, portValue, prints);
      r == Some(Run([EndOfInterrupt], Returned))
    ensures var r := Dispatch(BuildIdt().value, 0x29, s, portValue, prints);
      r == Some(Run([ReadPort(0x60, portValue), AddScancode(portValue), EndOfInterrupt], Returned))
    ensures var r := Dispatch(BuildIdt().value, 0x34, s, portValue, prints);
      r == Some(if prints >= 1 then Run([ReadPort(0x60, portValue), Log, EndOfInterrupt], Returned)
                else Run([ReadPort(0x60, portValue)], Panicked))
    ensures var r := Dispatch(BuildIdt().value, 0x90, s, portValue, prints);
      r.Some? && r.value.end == Panicked && EndOfInterrupt !in r.value.events
  {
    BuildIdtBindings();
    KeyboardHandlerOrder(s, portValue, prints);
    MouseHandlerDropsPacket(s, portValue, prints);
  }
}
