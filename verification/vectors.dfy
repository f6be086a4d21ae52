/** Interrupt vector numbering (kernel/src/interrupts/mod.rs): the
    `#[repr(u8)]` enums `InterruptIndex` and `IoApicTableIndex`, whose
    values follow Rust's discriminant rule, and the constants they use. */
module Vectors {
  import opened Common

  const IOAPIC_INTERRUPT_INDEX_OFFSET: nat := 0x28
  const LAPIC_INTERRUPT_INDEX_OFFSET: nat := 0x90
  /** The local APIC's spurious-interrupt vector. */
  const SPURIOUS_VECTOR: nat := 0xFF
  /** Vectors 0 to 31 are reserved for processor exceptions (Intel 64 and
      IA-32 Architectures Software Developer's Manual, Volume 3A, section 6.2). */
  const FIRST_NON_EXCEPTION_VECTOR: nat := 32
  /** Number of vectors. */
  const VECTOR_COUNT: nat := 256
  /** Redirection entries of an 82093AA I/O APIC. */
  const IO_APIC_LINES: nat := 24

  /** Values of an enum's variants in declaration order: an explicit
      discriminant is taken as written, an implicit one is one more than
      its predecessor's value, or `next` for the first variant. */
  function Assign(decl: seq<Option<int>>, next: int): (r: seq<int>)
    ensures |r| == |decl|
    ensures forall i | 0 <= i < |decl| && decl[i].Some? :: r[i] == decl[i].value
    ensures |decl| > 0 && decl[0].None? ==> r[0] == next
    ensures forall i | 0 < i < |decl| && decl[i].None? :: r[i] == r[i - 1] + 1
    decreases |decl|
  {
    if decl == [] then []
    else
      var v := if decl[0].Some? then decl[0].value else next;
      [v] + Assign(decl[1..], v + 1)
  }

  /** No two values coincide. */
  predicate Distinct(vs: seq<int>) {
    forall i, j | 0 <= i < j < |vs| :: vs[i] != vs[j]
  }

  /** Every value fits in a `u8`. */
  predicate FitsU8(vs: seq<int>) {
    forall i | 0 <= i < |vs| :: 0 <= vs[i] < 256
  }

  /** The discriminants of a `#[repr(u8)]` enum, starting from 0; `None`
      when one leaves the `u8` range or two coincide, which Rust rejects at
      compile time. */
  function Discriminants(decl: seq<Option<int>>): (r: Option<seq<int>>)
    ensures r.Some? <==> FitsU8(Assign(decl, 0)) && Distinct(Assign(decl, 0))
    ensures r.Some? ==> r.value == Assign(decl, 0)
  {
    var vs := Assign(decl, 0);
    if FitsU8(vs) && Distinct(vs) then Some(vs) else None
  }

  /** Variants of `InterruptIndex`, in declaration order. */
  datatype InterruptIndex = IoApicReserved | Keyboard | Mouse | ApicError | Timer

  function InterruptOrdinal(i: InterruptIndex): nat {
    match i
    case IoApicReserved => 0
    case Keyboard => 1
    case Mouse => 2
    case ApicError => 3
    case Timer => 4
  }

  /** Discriminants as declared: `_IoApic` at the I/O APIC offset, `Keyboard`
      implicit, `Mouse` at offset + 12, `ApicError` at the local APIC offset,
      `Timer` implicit. */
  const INTERRUPT_INDEX_DECL: seq<Option<int>> := [
    Some(IOAPIC_INTERRUPT_INDEX_OFFSET as int),
    None,
    Some(IOAPIC_INTERRUPT_INDEX_OFFSET as int + 12),
    Some(LAPIC_INTERRUPT_INDEX_OFFSET as int),
    None
  ]

  /** Variants of `IoApicTableIndex`: the I/O APIC input lines. */
  datatype IoApicTableIndex = KeyboardLine | MouseLine

  function LineOrdinal(l: IoApicTableIndex): nat {
    match l
    case KeyboardLine => 0
    case MouseLine => 1
  }

  const IO_APIC_TABLE_INDEX_DECL: seq<Option<int>> := [Some(1), Some(12)]

  /** The values of `InterruptIndex`'s variants, in declaration order. */
  const INTERRUPT_VECTORS: seq<nat> := [0x28, 0x29, 0x34, 0x90, 0x91]

  /** The values of `IoApicTableIndex`'s variants, in declaration order. */
  const IO_APIC_LINE_NUMBERS: seq<nat> := [1, 12]

  /** Both enums compile, and the discriminant rule gives their variants
      exactly these values. */
  lemma DiscriminantValues()
    ensures Discriminants(INTERRUPT_INDEX_DECL) == Some(INTERRUPT_VECTORS)
    ensures Discriminants(IO_APIC_TABLE_INDEX_DECL) == Some(IO_APIC_LINE_NUMBERS)
  {
    var vs := Assign(INTERRUPT_INDEX_DECL, 0);
    assert vs[0] == 0x28 && vs[1] == 0x29 && vs[2] == 0x34 && vs[3] == 0x90 && vs[4] == 0x91;
    assert vs == INTERRUPT_VECTORS;
    var ls := Assign(IO_APIC_TABLE_INDEX_DECL, 0);
    assert ls == IO_APIC_LINE_NUMBERS;
  }

  /** `InterruptIndex::X as u8`. */
  function Vector(i: InterruptIndex): (v: nat)
    ensures v < VECTOR_COUNT
  {
    INTERRUPT_VECTORS[InterruptOrdinal(i)]
  }

  /** `IoApicTableIndex::X as u8`. */
  function Line(l: IoApicTableIndex): (n: nat)
    ensures n < 256
  {
    IO_APIC_LINE_NUMBERS[LineOrdinal(l)]
  }

  /** The vector `io_apic.init(IOAPIC_INTERRUPT_INDEX_OFFSET)` assigns to
      input line `line`. */
  function InitialLineVector(line: nat): nat {
    IOAPIC_INTERRUPT_INDEX_OFFSET + line
  }

  /** `Keyboard` is 0x29 and `Mouse` 0x34: each is the I/O APIC offset plus
      its input line, the vector `io_apic.init(IOAPIC_INTERRUPT_INDEX_OFFSET)`
      gives that line. `ApicError` is 0x90 and `Timer`, its implicit
      successor, 0x91. These are the values the discriminant rule assigns
      to the declarations. */
  lemma VectorNumbers()
    ensures Discriminants(INTERRUPT_INDEX_DECL).Some?
    ensures forall i: InterruptIndex ::
      Vector(i) == Discriminants(INTERRUPT_INDEX_DECL).value[InterruptOrdinal(i)]
    ensures Discriminants(IO_APIC_TABLE_INDEX_DECL).Some?
    ensures forall l: IoApicTableIndex ::
      Line(l) == Discriminants(IO_APIC_TABLE_INDEX_DECL).value[LineOrdinal(l)]
    ensures Vector(Keyboard) == 0x29 == InitialLineVector(Line(KeyboardLine))
    ensures Vector(Mouse) == 0x34 == InitialLineVector(Line(MouseLine))
    ensures Vector(ApicError) == 0x90 == LAPIC_INTERRUPT_INDEX_OFFSET
    ensures Vector(Timer) == Vector(ApicError) + 1 == 0x91
  {
    DiscriminantValues();
  }

  /** The four device and controller vectors lie outside the exception
      range, are pairwise distinct, differ from the spurious vector, and the
      local APIC ones lie outside the range `io_apic.init` assigns to the
      I/O APIC lines. */
  lemma DeviceVectorsUsable()
    ensures forall i: InterruptIndex | i != IoApicReserved ::
      FIRST_NON_EXCEPTION_VECTOR <= Vector(i) < VECTOR_COUNT && Vector(i) != SPURIOUS_VECTOR
    ensures forall i: InterruptIndex, j: InterruptIndex | i != j :: Vector(i) != Vector(j)
    ensures forall line: nat | line < IO_APIC_LINES ::
      InitialLineVector(line) != Vector(ApicError)
      && InitialLineVector(line) != Vector(Timer)
      && InitialLineVector(line) != SPURIOUS_VECTOR
  {
  }
}
