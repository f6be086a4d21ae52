# Hexand kernel core: text console, mouse queue and interrupt bring-up

A Dafny model of the parts of the Hexand x86_64 kernel that sit between the
hardware and the rest of the system:

- **Font** — the PSF1 (PC Screen Font version 1) constants the kernel derives
  from the font bytes at compile time, the unicode-table lookup
  `get_char_position` and glyph slicing `get_glyph_data`. The font bytes are a
  parameter.
- **FrameBuffer** — the text writer: a cursor `(xPos, yPos)` over a byte
  framebuffer that draws glyphs pixel by pixel (`write_pixel`, `render_char`),
  wraps at the right edge, clears at the bottom edge and handles line feed and
  carriage return (`write_char`, `write_str`).
- **Mouse** — the bounded packet queue filled by the mouse interrupt
  (`add_packet`), its one-time creation (`PacketStream::new`), and the
  register-then-recheck protocol of `poll_next` that rules out lost wakeups.
- **Vectors** — the numbering of the `#[repr(u8)]` enums `InterruptIndex` and
  `IoApicTableIndex` by Rust's discriminant rule.
- **Idt** — the interrupt descriptor table built once: three exception gates
  (the double fault on its own interrupt stack) and four device gates.
- **Redirection** — I/O APIC redirection-table entries and their two-register
  encoding (82093AA I/O APIC datasheet, section 3.2.4), and the entry
  `register_io_apic_entry` builds.
- **Events** — the trace alphabet that bring-up and the handlers share:
  abstract hardware and collaborator events, and how a run ends (return,
  halt or panic).
- **Apic** — `init_apic` and what it calls, as a trace of abstract hardware
  events (interrupts off, legacy 8259 PICs masked, table loaded, local APIC
  configured and enabled, every I/O APIC initialised and routed, interrupts
  on), with the `LOCAL_APIC` one-time cell as state, and the redirection table
  that replaying those events leaves.
- **Handlers** — each interrupt handler as an effect trace ending in return,
  halt or panic, `end_of_interrupt`, and dispatch through the kernel's table.

Panics are modelled as an error result (`Result.Err`, or a run that ends
`Panicked`). Hardware effects, logging and calls into other kernel modules
are abstract events whose order the proofs constrain. Port reads and the
local APIC ID register are parameters.

## Model

| member | source | states |
|---|---|---|
| Font.LayoutOf | kernel/src/frame_buffer.rs:8-13 | The constants evaluate exactly when every index and slice is in range. The header size is byte 1 and the glyph size is header byte 3. The glyph data is cut at `512 * CHAR_SIZE` as written, and the unicode table is everything after it. |
| Font.LayoutPartition | kernel/src/frame_buffer.rs:10-13 | Header, glyph data and unicode table, concatenated in that order, are the whole font. |
| Font.IntendedLayoutOf | kernel/src/frame_buffer.rs:12-13 | The PSF1 layout: the glyph data is the `512 * CHAR_SIZE` bytes after the header and the unicode table follows it. The layout exists exactly when the header and 512 glyphs fit in the font. |
| Font.IntendedGlyphsAvailable | kernel/src/frame_buffer.rs:12-13 | Under the intended layout, each of the 512 glyphs lies wholly inside the glyph data, after `k` whole glyphs. It equals the `k`-th glyph of the file. |
| Font.AsWrittenShiftsTable | kernel/src/frame_buffer.rs:12-13 | The layout as written is the intended one with the cut `HEADER_SIZE` bytes earlier. The glyph data loses exactly those bytes and the unicode table gains them at its front. |
| Font.ShiftedTableMisplacesGlyph | kernel/src/frame_buffer.rs:12-13 | On a concrete font whose last glyph bytes are 0xFF, the lookup as written places 'A' at glyph 2. The intended layout places it at glyph 0. |
| Font.LastGlyphUnavailable | kernel/src/frame_buffer.rs:12-13 | Under the layout as written, a returned glyph ends at least `HEADER_SIZE` bytes before the end of glyph 511, so the last glyph is never returned. |
| Font.TableStartsInsideLastGlyph | kernel/src/frame_buffer.rs:12-13 | Under the layout as written, the first `HEADER_SIZE` bytes of the unicode table are the tail of glyph 511's bitmap. |
| Font.CharPositionSpec | kernel/src/frame_buffer.rs:73-93 | The lookup returns `None` exactly when no non-terminator entry equals `c as u16`, the character's low 16 bits. Otherwise it returns `k * CHAR_SIZE`, where `k` counts the 0xFFFF group terminators before the first matching entry. |
| Font.ScanFromSome | kernel/src/frame_buffer.rs:84-91 | A scan from any entry that returns a position found the first matching entry at or after it. The position is the running group count plus the terminators passed, times the glyph size. |
| Font.ScanFromNone | kernel/src/frame_buffer.rs:84-92 | A scan from any entry returns `None` exactly when no later entry matches. |
| Font.TerminatorCodeNeverFound | kernel/src/frame_buffer.rs:86-88 | A character whose low 16 bits are 0xFFFF is never found, because the terminator test comes first. |
| Font.GetCharPosition | kernel/src/frame_buffer.rs:73-93 | The loop over entry pairs returns the same result as the first-match characterisation. |
| Font.GlyphData | kernel/src/frame_buffer.rs:94-102 | A glyph is returned exactly when the character is found and its `CHAR_SIZE` bytes end within the glyph data. It is those bytes. |
| FrameBuffer.CarriageReturn | kernel/src/frame_buffer.rs:65-67 | The cursor goes back to the left padding. Row, pixels and description are unchanged. |
| FrameBuffer.Newline | kernel/src/frame_buffer.rs:60-63 | The cursor moves one text line (glyph height plus 3) down and back to the left padding. Pixels are unchanged. |
| FrameBuffer.Clear | kernel/src/frame_buffer.rs:68-72 | The cursor goes to the top-left padding and every framebuffer byte becomes zero. The size is unchanged. |
| FrameBuffer.NewWriter | kernel/src/frame_buffer.rs:43-52 | A new writer starts on a cleared screen at the top-left padding. |
| FrameBuffer.WritePixel | kernel/src/frame_buffer.rs:103-120 | Writing a pixel completes exactly when the format is RGB or BGR, the bytes per pixel are at most 4 and the pixel lies in the buffer. It then overwrites exactly that pixel's bytes, with the colour in that format's order. Any other format panics. |
| FrameBuffer.Glyph | kernel/src/frame_buffer.rs:122 | The glyph of the character if it has one, otherwise the glyph of '?'. It panics exactly when neither exists. |
| FrameBuffer.PaintFromSpec | kernel/src/frame_buffer.rs:123-131 | The glyph loops complete exactly when every pixel whose bit is set is writable. Set-bit pixels get the colour; every other byte is unchanged. |
| FrameBuffer.PaintFromCompletes | kernel/src/frame_buffer.rs:123-131 | The loops complete exactly when every set-bit pixel from the given bit on is writable. They leave the cursor, description and buffer size unchanged. |
| FrameBuffer.RenderCharSpec | kernel/src/frame_buffer.rs:121-134 | The pixel at `(x + col, y + row)` is set exactly when bit `7 - index % 8` of glyph byte `index / 8` is set. Rendering completes exactly when a glyph exists and all those pixels are writable. It then moves the cursor right by 9. |
| FrameBuffer.ControlCharsDrawNothing | kernel/src/frame_buffer.rs:136-138 | Line feed and carriage return never fail and draw nothing. Line feed moves one line down; both return to the left padding. |
| FrameBuffer.WriteCharPlacement | kernel/src/frame_buffer.rs:135-151 | A printable character is drawn at the cursor, at the start of the next line (wrap at the right edge), or at the top-left of a cleared screen when the wrapped line reaches the bottom edge. After a clear, every byte the glyph does not paint is zero. |
| FrameBuffer.WriteCharCursor | kernel/src/frame_buffer.rs:135-151 | A printable character leaves the cursor one cell right of where it was drawn: the cursor, the next line or the top-left. |
| FrameBuffer.WrapThenClear | kernel/src/frame_buffer.rs:140-147 | The bottom-edge test uses the row after wrapping. A character that wraps onto a line that reaches the bottom edge ends up at the top-left of a cleared screen. |
| FrameBuffer.WriteStrAppend | kernel/src/frame_buffer.rs:175-180 | Writing `s + t` is writing `s`, then `t`. A panic in `s` stops the writing. |
| FrameBuffer.PrintableKeepsGrid | kernel/src/frame_buffer.rs:135-151 | A printable character keeps the cursor on the text grid: whole 9-pixel cells right of the padding, and whole text lines below it. |
| FrameBuffer.GridStep | kernel/src/frame_buffer.rs:140-147 | Advancing a cell, wrapping to the next line, or resetting to the padding keeps grid coordinates on the grid. |
| FrameBuffer.WriteCharKeepsGrid | kernel/src/frame_buffer.rs:135-151 | Every character keeps the cursor on the grid and keeps the framebuffer description and size. |
| FrameBuffer.WriteStrKeepsGrid | kernel/src/frame_buffer.rs:175-180 | A whole string keeps the cursor on the grid and keeps the framebuffer description and size. |
| FrameBuffer.NewWriterOnGrid | kernel/src/frame_buffer.rs:43-52 | A new writer starts on the grid. |
| Mouse.AddPacket | kernel/src/task/mouse.rs:12-22 | Without a queue, it warns and changes nothing. On a full queue (200 packets), it warns and drops the packet. Otherwise it appends the packet and wakes the registered waker, taking it out of the slot. |
| Mouse.NewPacketStream | kernel/src/task/mouse.rs:28-33 | The first call creates the empty queue. A second call panics. |
| Mouse.AddPackets | kernel/src/task/mouse.rs:12-22 | A run of interrupts keeps the queue present and within capacity. |
| Mouse.AddPacketsKeepsPrefix | kernel/src/task/mouse.rs:12-22 | The queue becomes the old queue followed by the first arriving packets, up to capacity; the rest are dropped. |
| Mouse.AddPacketsWakesRegistered | kernel/src/task/mouse.rs:14-18 | The first stored packet wakes the registered waker, if any, and no later packet wakes anyone. |
| Mouse.AddPacketsWakeNothing | kernel/src/task/mouse.rs:14-18 | With no waker registered, arriving packets wake nobody. |
| Mouse.PollNext | kernel/src/task/mouse.rs:37-50 | Polling without a queue panics. A non-empty queue yields its oldest packet without registering, and with no interrupt during the poll nothing else changes. Otherwise the poll registers the waker and re-checks. |
| Mouse.PollPendingRegisters | kernel/src/task/mouse.rs:42-48 | A poll that finds the queue empty before and after registering returns `Pending` and leaves the task's waker registered. |
| Mouse.PollSeesInterleavedPacket | kernel/src/task/mouse.rs:37-50 | No lost wakeup: the first packet that arrives during a poll on an empty queue is returned by that poll, and the slot ends empty. When every such packet came after registration, the polling task is woken. |
| Mouse.PendingThenPacketWakes | kernel/src/task/mouse.rs:12-22 | No lost wakeup: after a `Pending` poll the queue is empty and the task is registered, so the next packet wakes it. |
| Mouse.PollConserves | kernel/src/task/mouse.rs:37-50 | A poll with interrupts arriving before and after registration loses and invents nothing. The old queue plus the packets stored during the poll (`PollStored`) equal the packet handed out plus the new queue, which stays within capacity. |
| Mouse.PollWakes | kernel/src/task/mouse.rs:14-18 | A poll on an empty queue wakes the previously registered waker if an early packet arrives. It wakes the polling task if a late packet still fits. It wakes nobody else. |
| Mouse.AddPacketsFullWakesNothing | kernel/src/task/mouse.rs:14-20 | Packets arriving at a full queue are dropped and wake nobody. |
| Mouse.Run | kernel/src/task/mouse.rs:12-50 | Over any run of interrupts and polls, including interrupts that arrive during a poll, the initial queue plus the accepted packets equal the delivered packets plus the final queue. So packets come out in arrival order. The queue stays within capacity. |
| Mouse.PollPendingIfEmpty | kernel/src/task/mouse.rs:37-50 | A poll without interrupts returns `Pending` exactly when the queue is empty. Otherwise it removes exactly the oldest packet and returns it. |
| Mouse.OverflowDropsLast | kernel/src/task/mouse.rs:10-22 | Pushing 201 packets into a new queue keeps the first 200 and drops the last. |
| Vectors.Assign | kernel/src/interrupts/mod.rs:21-36 | An explicit discriminant takes its value. An implicit one is the previous value plus one, or the start value for the first variant. |
| Vectors.Discriminants | kernel/src/interrupts/mod.rs:21-36 | A `#[repr(u8)]` enum compiles exactly when its values fit in a byte and are distinct. The values are then the assigned ones. |
| Vectors.DiscriminantValues | kernel/src/interrupts/mod.rs:16-36 | Both enums compile. `InterruptIndex` is 0x28, 0x29, 0x34, 0x90, 0x91 and `IoApicTableIndex` is 1, 12. |
| Vectors.VectorNumbers | kernel/src/interrupts/mod.rs:16-36 | Each variant's number is its discriminant. The keyboard and mouse vectors are the I/O APIC offset plus their input line. Timer follows the APIC-error vector 0x90. |
| Vectors.DeviceVectorsUsable | kernel/src/interrupts/mod.rs:16-36 | The four device vectors lie outside the 32 exception vectors, are pairwise distinct and differ from the spurious vector 0xFF. No I/O APIC line is assigned the APIC-error, timer or spurious vector. |
| Idt.EmptyTable | kernel/src/interrupts/mod.rs:40 | A new table has 256 empty slots. |
| Idt.SetInterrupt | kernel/src/interrupts/mod.rs:50-53 | Binding a vector succeeds exactly for vectors 32 to 255. It binds that slot without a stack switch and leaves every other slot unchanged. |
| Idt.BuildIdtBindings | kernel/src/interrupts/mod.rs:38-57 | Building the table succeeds. It binds exactly breakpoint (3), double fault (8, interrupt stack 0), page fault (14), keyboard (0x29), mouse (0x34), APIC error (0x90) and timer (0x91); every other slot stays empty. |
| Idt.OnlyDoubleFaultSwitchesStack | kernel/src/interrupts/mod.rs:45-47 | Of the bound gates, only the double-fault gate switches stacks. |
| Redirection.DecodeEncode | kernel/src/interrupts/mod.rs:89-94 | Every entry survives encoding into the two redirection registers and decoding back. |
| Redirection.DeviceEntry | kernel/src/interrupts/mod.rs:88-93 | The device entry uses fixed delivery to the local APIC ID on the given vector. It is level-triggered, active-low, masked and in physical destination mode. |
| Redirection.Unmasked | kernel/src/interrupts/mod.rs:95 | Enabling a line clears exactly the mask bit. |
| Redirection.DeviceEntryBits | kernel/src/interrupts/mod.rs:88-93 | The device entry's low register is the vector with bits 13, 15 and 16 set. The high register holds the destination in bits 31:24. |
| Apic.InitLocalApic | kernel/src/interrupts/mod.rs:59-74 | Maps the registers, configures timer 0x91, divisor 128, error 0x90 and spurious 0xFF, then enables the local APIC. It always returns. The first call stores the handle. A later call reprograms the hardware the same way and keeps the stored handle, because `init_once` does nothing on a set cell. |
| Apic.InitIoApicRoutes | kernel/src/interrupts/mod.rs:76-96 | Without a local APIC, it maps the registers and panics. Otherwise it initialises with offset 0x28, then writes and enables line 1 on 0x29 and line 12 on 0x34, each routed to the local APIC ID truncated to a byte. |
| Apic.InitIoApicsInOrder | kernel/src/interrupts/mod.rs:108-113 | With a local APIC and every announcement printed, each I/O APIC is announced and initialised in list order, and the loop returns. |
| Apic.InitIoApicsPanicsAtAnnouncement | kernel/src/interrupts/mod.rs:108-113 | With a local APIC, when the console cannot print every announcement, the loop sets up the I/O APICs whose announcements printed, in order, then panics at the first announcement that does not print. |
| Apic.EntriesAgreeWithOffset | kernel/src/interrupts/mod.rs:81-84 | Every entry written routes its line to the vector the initialisation offset gives that line. The I/O APIC loop never toggles interrupts. |
| Apic.InitApicThroughLoop | kernel/src/interrupts/mod.rs:98-115 | Bring-up runs the fixed prefix, then the I/O APIC loop with the local APIC handle stored (the one already set, else the new one). It enables interrupts exactly when the loop returns, and ends as the loop ends. |
| Apic.InitApicFromBoot | kernel/src/interrupts/mod.rs:98-115 | From boot, bring-up stores the local APIC handle. When every I/O APIC announcement prints, it returns after this fixed order: interrupts off, legacy PICs masked at 0x20 and 0x28, table loaded, local APIC, each I/O APIC, interrupts on. Otherwise it panics at the first announcement that does not print, with interrupts still off. |
| Apic.InitApicEnablesLast | kernel/src/interrupts/mod.rs:98-115 | A bring-up that returns enables interrupts at its last event and at no earlier one. A bring-up that panics never enables them. |
| Apic.InitApicTwiceKeepsFirstHandle | kernel/src/interrupts/mod.rs:59-115 | A second bring-up does not panic at the local APIC and keeps the first handle. It routes every I/O APIC to the first handle's ID and ends like a first bring-up: interrupts on last when every announcement prints, otherwise a panic at the first one that does not. |
| Apic.IoApicTableReplay | kernel/src/interrupts/mod.rs:76-96 | Replaying `init_io_apic`'s events on its I/O APIC yields the routed table. |
| Apic.IoApicTableAfterInit | kernel/src/interrupts/mod.rs:76-96 | After `init_io_apic` on a 24-line I/O APIC, every line carries its offset vector, and only lines 1 and 12 are unmasked, holding the keyboard and mouse entries routed to the local APIC ID. |
| Apic.RoutedTableShape | kernel/src/interrupts/mod.rs:81-95 | In the routed table every line keeps its offset vector and stays masked, except lines 1 and 12. Those hold the unmasked keyboard and mouse device entries. |
| Handlers.EndOfInterruptRun | kernel/src/interrupts/mod.rs:117-119 | `end_of_interrupt` signals the local APIC exactly when it is initialised, and panics otherwise. |
| Handlers.LoggedAllPrinted | kernel/src/frame_buffer.rs:189-203 | When the console can print every log line of a run, logging changes nothing: the run does all its events and reaches its end. |
| Handlers.LoggedPanics | kernel/src/frame_buffer.rs:200-203 | When the console cannot print every log line, the run panics partway: it does a strict prefix of its events, and the next event is the line that failed. |
| Handlers.LoggedPanicsAfterPrinted | kernel/src/frame_buffer.rs:200-203 | A run that panics while logging has printed exactly as many lines as the console allowed. |
| Handlers.MouseHandlerRun | kernel/src/interrupts/handlers.rs:50-55 | The mouse handler reads the port, then logs and runs `end_of_interrupt` if its line prints; otherwise it panics right after the read. |
| Handlers.DeviceHandlersAcknowledgeOnce | kernel/src/interrupts/handlers.rs:39-55 | Timer, keyboard and mouse handlers return exactly when the local APIC is initialised and, for the mouse handler, its log line prints. They then signal end-of-interrupt exactly once, as the last action; otherwise they panic without signalling. |
| Handlers.AcknowledgeAfter | kernel/src/interrupts/mod.rs:117-119 | Work that does not acknowledge, followed by `end_of_interrupt`, acknowledges exactly once and last, or panics without acknowledging. |
| Handlers.ReturningHandlers | kernel/src/interrupts/handlers.rs:12-37 | Only the breakpoint handler and the device handlers (with a local APIC) return. The breakpoint handler returns exactly when its line prints. Double fault and APIC error always panic. Page fault halts when its four lines print and panics otherwise. |
| Handlers.ApicErrorNeverAcknowledges | kernel/src/interrupts/handlers.rs:31-37 | The APIC-error handler never signals end-of-interrupt. It reads the error flags exactly when the local APIC exists. |
| Handlers.KeyboardHandlerOrder | kernel/src/interrupts/handlers.rs:43-48 | The keyboard handler reads port 0x60, hands the byte to the keyboard queue, then signals end-of-interrupt. |
| Handlers.MouseHandlerDropsPacket | kernel/src/interrupts/handlers.rs:50-55 | The mouse handler reads port 0x60 first and never hands the byte to the mouse or keyboard queue. If its line cannot print, it panics right after the read. |
| Handlers.DispatchAfterBringUp | kernel/src/interrupts/handlers.rs:31-55 | Through the kernel's table, exactly the bound vectors reach a handler. After bring-up, timer and keyboard interrupts are acknowledged exactly once and last. A mouse interrupt is too when its line prints, and otherwise panics unacknowledged. An APIC error panics unacknowledged. |

## Left out

- `print_mouse_position` (kernel/src/task/mouse.rs:53-71): packet decoding belongs to the external `ps2_mouse` crate, and the handler body is a TODO that does nothing. Only the queue it drains is modelled.
- kernel/src/interrupts/exception_handlers.rs: no module declaration includes it, so it is not compiled.
- kernel/src/acpi.rs, kernel/src/allocator.rs, kernel/src/main.rs, and kernel/src/gdt.rs beyond `DOUBLE_FAULT_IST_INDEX` are not part of this model. The APIC description that ACPI parsing produces is a parameter (`ApicInfo`).
- `memory::identity_map` and `keyboard::add_scancode` are not part of this model. They appear only as the events `IdentityMap` and `AddScancode`, and are assumed not to panic.
- Mouse.AddPacket: its two warnings are returned as a value and assumed to print. A panic inside that `println!` is not modelled, because the kernel's mouse handler never calls `add_packet`.
- Logging (`println!`, `print!`) is the abstract event `Log` or a warning value. Message text and formatting are not modelled. Whether a line prints is abstracted by `prints`, the number of lines the console can still print. `_print` panics when `WRITER` was never set (kernel/src/frame_buffer.rs:200-203), and main.rs is not part of this model, so the bring-up announcements and the handlers' lines are modelled both ways: printed, or a panic at the line.
- The 8259 PIC programming inside `ChainedPics::disable`, and the register writes of `LocalApicBuilder::build`, `LocalApic::enable` and `IoApic::init`, are events with their arguments. The builder is assumed not to fail, because every setting it is given is valid.
- Apic.IoApicTableAfterInit: assumes an I/O APIC with 24 redirection entries (82093AA); the real count comes from the chip's version register.
- Machine-word arithmetic: cursor and offset arithmetic on `usize` is unbounded (overflow in debug builds is not modelled). The `u16` cast of a character and the `u8` casts of the local APIC ID and of I/O APIC vectors are modelled explicitly.
- Locking (`Spinlock`), `OnceCell` and `AtomicWaker` races: interrupts are modelled as interleaving between the steps of `poll_next`, not as true concurrency. The waker is identified by the task it wakes.
- The volatile read in `write_pixel` contributes only its bounds check.
- `hlt_loop` is the run end `Halted`.
- Idt.SetInterrupt: rejects every binding to a vector below 32. `x86_64`'s `idt[i]` rejects only some of them (8, 10–14, 17, 18, 30 and the reserved slots), and the kernel indexes `idt[i]` only with device vectors of 32 and above (kernel/src/interrupts/mod.rs:50-53), so the difference never shows.
- The frame buffer writer's static `WRITER` and `init` are not modelled: they only wrap one writer in a lock.
- The font bytes of `Uni2-Fixed16.psf` are not modelled; every font is a parameter.

## Findings

| source | as written | input that shows it | evidently intended | confidence | as-written member | corrected member |
|---|---|---|---|---|---|---|
| kernel/src/frame_buffer.rs:12-13 | `CHARS_DATA` is `FONT[HEADER_SIZE..512 * CHAR_SIZE]`, which ends `HEADER_SIZE` bytes before the last glyph ends. `UNICODE_TABLE` then starts inside glyph 511. | A PSF1 font with a 4-byte header, 1-byte glyphs whose last four bytes are 0xFF, and a table listing 'A' for glyph 0. The four glyph bytes read as two group terminators, so 'A' is placed at glyph 2. | `FONT[HEADER_SIZE..HEADER_SIZE + 512 * CHAR_SIZE]`, with the unicode table right after the 512 glyphs. | medium; not executed (with the bundled font the misread bytes are likely the zero tail of glyph 511, which maps U+0000 and cuts off glyph 511) | Font.LayoutOf, Font.ShiftedTableMisplacesGlyph, Font.AsWrittenShiftsTable | Font.IntendedLayoutOf, Font.IntendedGlyphsAvailable |

The text writer takes a `Layout` as a parameter, so every writer property
holds for the intended layout as well as for the layout as written.
