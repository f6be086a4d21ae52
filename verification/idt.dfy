/** The interrupt descriptor table the kernel builds once
    (kernel/src/interrupts/mod.rs, `IDT`): 256 slots, each empty or bound
    to one handler. */
module Idt {
  import opened Common
  import opened Vectors

  /** The handlers of kernel/src/interrupts/handlers.rs. */
  datatype Handler =
    | BreakpointHandler
    | PageFaultHandler
    | DoubleFaultHandler
    | ApicErrorHandler
    | TimerHandler
    | KeyboardHandler
    | MouseHandler

  /** A bound slot: its handler and, if set, the interrupt stack table index
      it switches to. */
  datatype Gate = Gate(handler: Handler, stackIndex: Option<nat>)

  /** Processor exception vectors (Intel 64 and IA-32 Architectures Software
      Developer's Manual, Volume 3A, section 6.15). */
  const BREAKPOINT_VECTOR: nat := 3
  const DOUBLE_FAULT_VECTOR: nat := 8
  const PAGE_FAULT_VECTOR: nat := 14

  /** Interrupt stack table slot of the double-fault stack (kernel/src/gdt.rs). */
  const DOUBLE_FAULT_IST_INDEX: nat := 0

  /** Indexing the table by number reaches only the non-exception slots
      through this path; other numbers panic. */
  datatype Fault = ReservedEntry(vector: nat)

  predicate IsTable(t: seq<Option<Gate>>) {
    |t| == VECTOR_COUNT
  }

  /** `InterruptDescriptorTable::new()`: every slot empty. */
  function EmptyTable(): (t: seq<Option<Gate>>)
    ensures IsTable(t)
    ensures forall v | 0 <= v < |t| :: t[v].None?
  {
    seq(VECTOR_COUNT, _ => None)
  }

  /** `idt[v].set_handler_fn(h)` for a device vector. */
  function SetInterrupt(t: seq<Option<Gate>>, v: nat, h: Handler): (r: Result<seq<Option<Gate>>, Fault>)
    requires IsTable(t)
    ensures r.Ok? <==> FIRST_NON_EXCEPTION_VECTOR <= v < VECTOR_COUNT
    ensures r.Ok? ==> IsTable(r.value) && r.value[v] == Some(Gate(h, None))
    ensures r.Ok? ==> forall u | 0 <= u < VECTOR_COUNT && u != v :: r.value[u] == t[u]
  {
    if FIRST_NON_EXCEPTION_VECTOR <= v < VECTOR_COUNT then Ok(t[v := Some(Gate(h, None))])
    else Err(ReservedEntry(v))
  }

  /** The table as the kernel builds it: the three exception handlers, the
      double fault on its own stack, then the four device handlers. */
  function BuildIdt(): Result<seq<Option<Gate>>, Fault> {
    var t := EmptyTable()
      [BREAKPOINT_VECTOR := Some(Gate(BreakpointHandler, None))]
      [PAGE_FAULT_VECTOR := Some(Gate(PageFaultHandler, None))]
      [DOUBLE_FAULT_VECTOR := Some(Gate(DoubleFaultHandler, Some(DOUBLE_FAULT_IST_INDEX)))];
    var t1 :- SetInterrupt(t, Vector(ApicError), ApicErrorHandler);
    var t2 :- SetInterrupt(t1, Vector(Timer), TimerHandler);
    var t3 :- SetInterrupt(t2, Vector(Keyboard), KeyboardHandler);
    SetInterrupt(t3, Vector(Mouse), MouseHandler)
  }

  /** The intended bindings, by vector number. */
  function Binding(v: nat): Option<Gate> {
    if v == 3 then Some(Gate(BreakpointHandler, None))
    else if v == 8 then Some(Gate(DoubleFaultHandler, Some(0)))
    else if v == 14 then Some(Gate(PageFaultHandler, None))
    else if v == 0x29 then Some(Gate(KeyboardHandler, None))
    else if v == 0x34 then Some(Gate(MouseHandler, None))
    else if v == 0x90 then Some(Gate(ApicErrorHandler, None))
    else if v == 0x91 then Some(Gate(TimerHandler, None))
    else None
  }

  /** Building the table succeeds and binds exactly breakpoint, page fault,
      double fault (on interrupt stack 0) and the four device vectors; every
      other slot stays empty. */
  lemma BuildIdtBindings()
    ensures BuildIdt().Ok?
    ensures IsTable(BuildIdt().value)
    ensures forall v | 0 <= v < VECTOR_COUNT :: BuildIdt().value[v] == Binding(v)
  {
    VectorNumbers();
  }

  /** Only the double-fault gate switches stacks. */
  lemma OnlyDoubleFaultSwitchesStack()
    ensures BuildIdt().Ok?
    ensures forall v | 0 <= v < VECTOR_COUNT && BuildIdt().value[v].Some? ::
      BuildIdt().value[v].value.stackIndex.Some? <==> v == DOUBLE_FAULT_VECTOR
  {
    BuildIdtBindings();
  }
}
