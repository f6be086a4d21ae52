/** I/O APIC redirection-table entries (82093AA I/O APIC datasheet,
    section 3.2.4) and the entry `register_io_apic_entry` builds
    (kernel/src/interrupts/mod.rs). */
module Redirection {
  import opened Common

  /** Delivery modes, bits 10:8 of the entry. */
  datatype DeliveryMode = Fixed | LowestPriority | Smi | Nmi | Init | ExtInt

  /** The writable fields of an entry. */
  datatype Entry = Entry(
    vector: bv8,
    mode: DeliveryMode,
    logicalDestination: bool,
    lowActive: bool,
    levelTriggered: bool,
    masked: bool,
    destination: bv8)

  /** The all-zero entry (`RedirectionTableEntry::default()`). */
  const DEFAULT: Entry := Entry(0, Fixed, false, false, false, false, 0)

  function ModeBits(m: DeliveryMode): bv32 {
    match m
    case Fixed => 0
    case LowestPriority => 1
    case Smi => 2
    case Nmi => 4
    case Init => 5
    case ExtInt => 7
  }

  function Flag(b: bool, bit: bv32): bv32
    requires bit < 32
  {
    if b then (1 as bv32) << bit else 0
  }

  /** The two 32-bit registers holding an entry. */
  datatype Registers = Registers(low: bv32, high: bv32)

  /** The entry as its two 32-bit registers: vector in bits 7:0, delivery
      mode in 10:8, destination mode in 11, polarity in 13, trigger mode in
      15, mask in 16 of the low register; destination in bits 31:24 of the
      high register (entry bits 63:56). The read-only delivery-status and
      remote-IRR bits are written as zero. */
  function Encode(e: Entry): Registers {
    Registers(
      (e.vector as bv32)
        | (ModeBits(e.mode) << 8)
        | Flag(e.logicalDestination, 11)
        | Flag(e.lowActive, 13)
        | Flag(e.levelTriggered, 15)
        | Flag(e.masked, 16),
      (e.destination as bv32) << 24
    )
  }

  /** Reads the fields back; reserved delivery-mode encodings decode to
      `None`. */
  function Decode(regs: Registers): Option<Entry> {
    var low, high := regs.low, regs.high;
    var modeBits := (low >> 8) & 7;
    var mode :-
      if modeBits == 0 then Some(Fixed)
      else if modeBits == 1 then Some(LowestPriority)
      else if modeBits == 2 then Some(Smi)
      else if modeBits == 4 then Some(Nmi)
      else if modeBits == 5 then Some(Init)
      else if modeBits == 7 then Some(ExtInt)
      else None;
    Some(Entry(
      (low & 0xFF) as bv8,
      mode,
      low & 0x800 != 0,
      low & 0x2000 != 0,
      low & 0x8000 != 0,
      low & 0x1_0000 != 0,
      (high >> 24) as bv8))
  }

  /** Every entry survives encoding into the register layout. */
  lemma DecodeEncode(e: Entry)
    ensures Decode(Encode(e)) == Some(e)
  {
  }

  /** `register_io_apic_entry`'s entry: fixed delivery to `lapicId` on
      `vector`, level-triggered, active-low and masked; everything else as
      in the default entry. */
  function DeviceEntry(lapicId: bv8, vector: bv8): (e: Entry)
    ensures e.mode == Fixed && e.destination == lapicId && e.vector == vector
    ensures e.levelTriggered && e.lowActive && e.masked && !e.logicalDestination
  {
    DEFAULT.(mode := Fixed, destination := lapicId, vector := vector,
             levelTriggered := true, lowActive := true, masked := true)
  }

  /** `enable_irq`: the entry with its mask bit cleared. */
  function Unmasked(e: Entry): (r: Entry)
    ensures !r.masked
    ensures r.(masked := e.masked) == e
  {
    e.(masked := false)
  }

  /** The device entry's low register sets exactly the vector, polarity,
      trigger-mode and mask bits. */
  lemma DeviceEntryBits(lapicId: bv8, vector: bv8)
    ensures Encode(DeviceEntry(lapicId, vector)).low == (vector as bv32) | 0x1_A000
    ensures Encode(DeviceEntry(lapicId, vector)).high == (lapicId as bv32) << 24
  {
  }
}
