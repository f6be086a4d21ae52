/** The trace alphabet shared by interrupt bring-up
    (kernel/src/interrupts/mod.rs) and the handlers
    (kernel/src/interrupts/handlers.rs): abstract hardware and collaborator
    events, and how a run of them ends. */
module Events {
  import opened Redirection

  /** What `LocalApicBuilder` is given. */
  datatype LocalApicConfig = LocalApicConfig(
    timerVector: nat,
    timerDivide: nat,
    errorVector: nat,
    spuriousVector: nat,
    base: nat)

  /** Abstract hardware and collaborator events: what bring-up does to
      the interrupt controllers, and what the handlers do to ports, queues
      and the console. */
  datatype Event =
    | DisableInterrupts
    | EnableInterrupts
    | MaskLegacyPics(masterOffset: nat, slaveOffset: nat)
    | LoadIdt
    | IdentityMap(address: nat)
    | ConfigureLocalApic(config: LocalApicConfig)
    | EnableLocalApic
    | AnnounceIoApic(id: nat)
    | InitIoApic(address: nat, offset: nat)
    | WriteEntry(address: nat, line: nat, entry: Entry)
    | EnableLine(address: nat, line: nat)
    | EndOfInterrupt
    | ReadPort(port: nat, value: bv8)
    | AddScancode(scancode: bv8)
    | AddPacket(packet: bv8)
    | ReadFaultAddress
    | ReadErrorFlags
    | Log

  /** How a run of code ends: it returns, halts forever, or panics. */
  datatype End = Returned | Halted | Panicked

  /** The events a run did, in order, and how it ended. */
  datatype Run = Run(events: seq<Event>, end: End)
}
