/** The mouse packet queue and its stream (kernel/src/task/mouse.rs),
    modelled sequentially: the once-initialised bounded queue `MOUSE_QUEUE`
    and the single waker slot `WAKER` form one record, and an interrupt that
    arrives while the consumer is being polled is an explicit argument of
    the poll. */
module Mouse {
  import opened Common

  /** Capacity of the queue. */
  const MOUSE_QUEUE_SIZE: nat := 200

  /** A task's waker, identified by the task it wakes. */
  datatype Waker = Waker(task: nat)

  /** The queue (absent until initialised; packets oldest first) and the
      waker slot. */
  datatype Stream = Stream(queue: Option<seq<bv8>>, waker: Option<Waker>)

  /** State at boot: no queue, no waker. */
  const BOOT: Stream := Stream(None, None)

  /** The queue never holds more than its capacity. */
  predicate Bounded(s: Stream) {
    s.queue.Some? ==> |s.queue.value| <= MOUSE_QUEUE_SIZE
  }

  /** The warnings `add_packet` prints. */
  datatype Warning = QueueFull | QueueNotInitialized

  /** The panics of this module. */
  datatype Fault = AlreadyInitialized | NotInitialized

  /** Outcome of `add_packet`: new state, warning printed, waker woken. */
  datatype Push = Push(stream: Stream, warning: Option<Warning>, woken: Option<Waker>)

  /** `add_packet`: without a queue, warn; on a full queue, drop the packet
      and warn; otherwise append it and wake (take) the registered waker. */
  function AddPacket(s: Stream, packet: bv8): (r: Push)
    ensures s.queue.None? ==> r == Push(s, Some(QueueNotInitialized), None)
    ensures s.queue.Some? && |s.queue.value| >= MOUSE_QUEUE_SIZE ==> r == Push(s, Some(QueueFull), None)
    ensures s.queue.Some? && |s.queue.value| < MOUSE_QUEUE_SIZE ==>
      && r.stream.queue == Some(s.queue.value + [packet])
      && r.warning == None
      && r.woken == s.waker
      && r.stream.waker == None
    ensures Bounded(s) ==> Bounded(r.stream)
  {
    match s.queue
    case None => Push(s, Some(QueueNotInitialized), None)
    case Some(q) =>
      if |q| >= MOUSE_QUEUE_SIZE then Push(s, Some(QueueFull), None)
      else Push(Stream(Some(q + [packet]), None), None, s.waker)
  }

  /** `PacketStream::new`: creates the empty queue once; a second call panics. */
  function NewPacketStream(s: Stream): (r: Result<Stream, Fault>)
    ensures s.queue.None? ==> r == Ok(s.(queue := Some([])))
    ensures s.queue.Some? ==> r == Err(AlreadyInitialized)
  {
    if s.queue.Some? then Err(AlreadyInitialized) else Ok(s.(queue := Some([])))
  }

  /** `Poll<Option<u8>>` as the stream produces it: it never ends, so a
      ready poll always carries a packet. */
  datatype Poll = Ready(packet: bv8) | Pending

  /** Outcome of a poll: new state, the poll result, and the wakers woken
      by packets that arrived during it. */
  datatype Polled = Polled(stream: Stream, poll: Poll, woken: seq<Waker>)

  /** Packets `add_packet` stores in turn, with the wakers those pushes woke. */
  datatype Arrivals = Arrivals(stream: Stream, woken: seq<Waker>)

  function AddPackets(s: Stream, packets: seq<bv8>): (r: Arrivals)
    ensures s.queue.Some? ==> r.stream.queue.Some?
    ensures Bounded(s) ==> Bounded(r.stream)
    decreases |packets|
  {
    if packets == [] then Arrivals(s, [])
    else
      var p := AddPacket(s, packets[0]);
      var rest := AddPackets(p.stream, packets[1..]);
      var woken := if p.woken.Some? then [p.woken.value] else [];
      Arrivals(rest.stream, woken + rest.woken)
  }

  /** Interrupts on an initialised queue keep the oldest packets up to the
      capacity and drop the rest, in order. */
  lemma {:induction false} AddPacketsKeepsPrefix(s: Stream, packets: seq<bv8>)
    requires s.queue.Some? && |s.queue.value| <= MOUSE_QUEUE_SIZE
    ensures var q := s.queue.value;
      AddPackets(s, packets).stream.queue ==
        Some(q + packets[.. Min(|packets|, MOUSE_QUEUE_SIZE - |q|)])
    ensures packets != [] && |s.queue.value| < MOUSE_QUEUE_SIZE ==>
      AddPackets(s, packets).stream.waker == None
    ensures packets == [] ==> AddPackets(s, packets).stream == s
    decreases |packets|
  {
    if packets != [] {
      var q := s.queue.value;
      var p := AddPacket(s, packets[0]);
      AddPacketsKeepsPrefix(p.stream, packets[1..]);
      assert AddPackets(s, packets).stream == AddPackets(p.stream, packets[1..]).stream;
      if |q| < MOUSE_QUEUE_SIZE {
        var tail := packets[1..][.. Min(|packets| - 1, MOUSE_QUEUE_SIZE - |q| - 1)];
        assert packets[.. Min(|packets|, MOUSE_QUEUE_SIZE - |q|)] == [packets[0]] + tail;
        assert (q + [packets[0]]) + tail == q + ([packets[0]] + tail);
        assert p.stream.queue == Some(q + [packets[0]]);
        assert |packets[1..]| == |packets| - 1;
        assert AddPackets(p.stream, packets[1..]).stream.queue == Some((q + [packets[0]]) + tail);
        AddPacketsWakeNothing(p.stream, packets[1..]);
      } else {
        assert p.stream == s;
        assert packets[1..][.. Min(|packets| - 1, MOUSE_QUEUE_SIZE - |q|)] == [];
        assert packets[.. Min(|packets|, MOUSE_QUEUE_SIZE - |q|)] == [];
        assert q + [] == q;
      }
    } else {
      assert s.queue.value + packets[.. 0] == s.queue.value;
    }
  }

  /** The first of `packets` to be stored wakes the registered waker; later
      ones find the slot empty. */
  lemma {:induction false} AddPacketsWakesRegistered(s: Stream, packets: seq<bv8>)
    requires s.queue.Some? && |s.queue.value| < MOUSE_QUEUE_SIZE
    requires packets != []
    ensures AddPackets(s, packets).woken == (if s.waker.Some? then [s.waker.value] else [])
  {
    var p := AddPacket(s, packets[0]);
    AddPacketsWakeNothing(p.stream, packets[1..]);
  }

  /** With the waker slot empty, arriving packets wake nobody. */
  lemma {:induction false} AddPacketsWakeNothing(s: Stream, packets: seq<bv8>)
    requires s.waker.None?
    ensures AddPackets(s, packets).woken == []
    ensures AddPackets(s, packets).stream.waker.None?
    decreases |packets|
  {
    if packets != [] {
      AddPacketsWakeNothing(AddPacket(s, packets[0]).stream, packets[1..]);
    }
  }

  /** On a full queue, arriving packets are all dropped and wake nobody. */
  lemma {:induction false} AddPacketsFullWakesNothing(s: Stream, packets: seq<bv8>)
    requires s.queue.Some? && |s.queue.value| >= MOUSE_QUEUE_SIZE
    ensures AddPackets(s, packets).woken == []
    decreases |packets|
  {
    if packets != [] {
      AddPacketsFullWakesNothing(AddPacket(s, packets[0]).stream, packets[1..]);
    }
  }

  /** `poll_next` with interleaved interrupts: pop; if the queue was empty,
      the packets `early` arrive, the waker `cx` is registered, the packets
      `late` arrive, and the queue is popped again; a packet found by the
      second pop takes the waker back out of the slot. If the first pop
      found a packet, the poll returns it at once and `early` and `late`
      arrive after it. Without a queue it panics. */
  function PollNext(s: Stream, cx: Waker, early: seq<bv8>, late: seq<bv8>): (r: Result<Polled, Fault>)
    ensures s.queue.None? <==> r == Err(NotInitialized)
    ensures s.queue.Some? && s.queue.value != [] ==> r.Ok? && r.value.poll == Ready(s.queue.value[0])
    ensures s.queue.Some? && s.queue.value != [] && early + late == [] ==>
      r == Ok(Polled(s.(queue := Some(s.queue.value[1..])), Ready(s.queue.value[0]), []))
  {
    match s.queue
    case None => Err(NotInitialized)
    case Some(q) =>
      if q != [] then
        var after := AddPackets(s.(queue := Some(q[1..])), early + late);
        Ok(Polled(after.stream, Ready(q[0]), after.woken))
      else
        var before := AddPackets(s, early);
        var registered := before.stream.(waker := Some(cx));
        var after := AddPackets(registered, late);
        var q' := after.stream.queue.value;
        if q' != [] then
          Ok(Polled(Stream(Some(q'[1..]), None), Ready(q'[0]), before.woken + after.woken))
        else
          Ok(Polled(after.stream, Pending, before.woken + after.woken))
  }

  /** A poll that finds nothing and sees no interrupt returns `Pending`,
      leaves the queue empty and leaves `cx` registered. */
  lemma PollPendingRegisters(s: Stream, cx: Waker)
    requires s.queue == Some([])
    ensures PollNext(s, cx, [], []) == Ok(Polled(Stream(Some([]), Some(cx)), Pending, []))
  {
    AddPacketsKeepsPrefix(s, []);
    AddPacketsKeepsPrefix(s.(waker := Some(cx)), []);
  }

  /** No lost wakeup, first half: a packet that arrives anywhere between the
      first pop and the re-check is returned by this very poll, the waker
      slot ends empty, and if it arrived after registration it also woke `cx`. */
  lemma PollSeesInterleavedPacket(s: Stream, cx: Waker, early: seq<bv8>, late: seq<bv8>)
    requires s.queue == Some([])
    requires early + late != []
    ensures var r := PollNext(s, cx, early, late);
      && r.Ok?
      && r.value.poll == Ready((early + late)[0])
      && r.value.stream.waker == None
      && r.value.stream.queue ==
           Some((early + late)[1 .. Min(|early + late|, MOUSE_QUEUE_SIZE)])
      && (early == [] ==> r.value.woken == [cx])
  {
    var before := AddPackets(s, early);
    AddPacketsKeepsPrefix(s, early);
    var registered := before.stream.(waker := Some(cx));
    AddPacketsKeepsPrefix(registered, late);
    var stored := (early + late)[.. Min(|early + late|, MOUSE_QUEUE_SIZE)];
    if early == [] {
      assert early + late == late;
      assert before.stream == s;
      assert [] + stored == stored;
      assert AddPackets(registered, late).stream.queue == Some(stored);
      AddPacketsWakesRegistered(registered, late);
    } else {
      var e := early[.. Min(|early|, MOUSE_QUEUE_SIZE)];
      assert before.stream.queue == Some([] + e);
      assert [] + e == e;
      var l := late[.. Min(|late|, MOUSE_QUEUE_SIZE - |e|)];
      assert e + l == stored;
      assert AddPackets(registered, late).stream.queue == Some(stored);
    }
  }

  /** Who a poll on an empty queue wakes: the first early packet wakes the
      waker registered before the poll, and the first late packet that
      still fits wakes `cx`; nobody else is woken. */
  lemma PollWakes(s: Stream, cx: Waker, early: seq<bv8>, late: seq<bv8>)
    requires s.queue == Some([])
    ensures PollNext(s, cx, early, late).Ok?
    ensures PollNext(s, cx, early, late).value.woken ==
      (if early != [] && s.waker.Some? then [s.waker.value] else []) +
      (if late != [] && |early| < MOUSE_QUEUE_SIZE then [cx] else [])
  {
    var before := AddPackets(s, early);
    AddPacketsKeepsPrefix(s, early);
    var registered := before.stream.(waker := Some(cx));
    if early != [] {
      AddPacketsWakesRegistered(s, early);
    }
    assert |registered.queue.value| == Min(|early|, MOUSE_QUEUE_SIZE);
    if late == [] {
      assert AddPackets(registered, late).woken == [];
    } else if |early| < MOUSE_QUEUE_SIZE {
      AddPacketsWakesRegistered(registered, late);
    } else {
      AddPacketsFullWakesNothing(registered, late);
    }
  }

  /** No lost wakeup, second half: after a `Pending` poll the queue is empty
      and `cx` is registered, so the next packet is stored and wakes `cx`. */
  lemma PendingThenPacketWakes(s: Stream, cx: Waker, early: seq<bv8>, late: seq<bv8>, packet: bv8)
    requires s.queue.Some? && Bounded(s)
    requires PollNext(s, cx, early, late).Ok?
    requires PollNext(s, cx, early, late).value.poll == Pending
    ensures var s' := PollNext(s, cx, early, late).value.stream;
      && s'.queue == Some([])
      && s'.waker == Some(cx)
      && AddPacket(s', packet).woken == Some(cx)
      && AddPacket(s', packet).stream.queue == Some([packet])
  {
    AddPacketsKeepsPrefix(s, early);
    var before := AddPackets(s, early);
    var registered := before.stream.(waker := Some(cx));
    AddPacketsKeepsPrefix(registered, late);
    if early + late != [] {
      PollSeesInterleavedPacket(s, cx, early, late);
    } else {
      assert early == [] && late == [];
      assert s.queue.value == [];
      assert AddPackets(registered, late).stream == registered;
      assert [] + [packet] == [packet];
    }
  }

  /** A consumer-visible step: an interrupt delivering a packet, or a poll
      with the interrupts that arrive before (`early`) and after (`late`)
      the waker is registered; when the first pop finds a packet, both
      arrive after it. */
  datatype Op = Arrive(packet: bv8) | Consume(cx: Waker, early: seq<bv8>, late: seq<bv8>)

  /** Reference for what a poll stores: the early and late packets in
      arrival order, as many as fit once the poll's packet has left the
      queue (the whole capacity when the queue was empty). */
  function PollStored(s: Stream, early: seq<bv8>, late: seq<bv8>): seq<bv8>
    requires s.queue.Some? && Bounded(s)
  {
    var room := if s.queue.value == [] then MOUSE_QUEUE_SIZE else MOUSE_QUEUE_SIZE - |s.queue.value| + 1;
    (early + late)[.. Min(|early + late|, room)]
  }

  /** The packet a poll hands to the consumer, if any. */
  function Handed(p: Poll): seq<bv8> {
    if p.Ready? then [p.packet] else []
  }

  /** A poll loses and invents nothing: the old queue plus the packets stored
      during the poll equal the packet handed out plus the new queue. */
  lemma PollConserves(s: Stream, cx: Waker, early: seq<bv8>, late: seq<bv8>)
    requires s.queue.Some? && Bounded(s)
    ensures var r := PollNext(s, cx, early, late);
      && r.Ok?
      && r.value.stream.queue.Some?
      && Bounded(r.value.stream)
      && s.queue.value + PollStored(s, early, late) == Handed(r.value.poll) + r.value.stream.queue.value
  {
    var r := PollNext(s, cx, early, late);
    if s.queue.value != [] {
      var q := s.queue.value;
      AddPacketsKeepsPrefix(s.(queue := Some(q[1..])), early + late);
      var stored := PollStored(s, early, late);
      assert q + stored == [q[0]] + (q[1..] + stored);
    } else if early + late != [] {
      PollSeesInterleavedPacket(s, cx, early, late);
      var stored := (early + late)[.. Min(|early + late|, MOUSE_QUEUE_SIZE)];
      assert [] + stored == [stored[0]] + stored[1..];
    } else {
      assert early == [] && late == [];
      PollPendingIfEmpty(s, cx);
    }
  }

  /** Result of a run of steps: final state, the packets the queue accepted
      and the packets the consumer received, each in order. */
  datatype Trace = Trace(stream: Stream, accepted: seq<bv8>, delivered: seq<bv8>)

  /** Runs steps on an initialised queue; accepted packets are exactly the
      delivered ones followed by those still queued, in push order, and the
      queue stays within its capacity. */
  function Run(s: Stream, ops: seq<Op>): (r: Trace)
    requires s.queue.Some? && Bounded(s)
    ensures r.stream.queue.Some? && Bounded(r.stream)
    ensures s.queue.value + r.accepted == r.delivered + r.stream.queue.value
    decreases |ops|
  {
    if ops == [] then Trace(s, [], [])
    else
      match ops[0]
      case Arrive(p) =>
        var push := AddPacket(s, p);
        var rest := Run(push.stream, ops[1..]);
        var accepted := if push.warning.None? then [p] else [];
        Trace(rest.stream, accepted + rest.accepted, rest.delivered)
      case Consume(cx, early, late) =>
        PollConserves(s, cx, early, late);
        var polled := PollNext(s, cx, early, late).value;
        var rest := Run(polled.stream, ops[1..]);
        var stored := PollStored(s, early, late);
        var delivered := Handed(polled.poll);
        Regroup(s.queue.value, stored, rest.accepted, delivered, polled.stream.queue.value,
                rest.delivered + rest.stream.queue.value);
        Trace(rest.stream, stored + rest.accepted, delivered + rest.delivered)
  }

  /** Conservation carries across two consecutive steps. */
  lemma Regroup(q: seq<bv8>, stored: seq<bv8>, later: seq<bv8>, handed: seq<bv8>, q': seq<bv8>, out: seq<bv8>)
    requires q + stored == handed + q'
    requires q' + later == out
    ensures q + (stored + later) == handed + out
  {
    calc {
      q + (stored + later);
      (q + stored) + later;
      (handed + q') + later;
      handed + (q' + later);
    }
  }

  /** A poll without interrupts on an initialised queue removes exactly the
      packet it returns, or returns `Pending` with the queue unchanged. */
  lemma PollPendingIfEmpty(s: Stream, cx: Waker)
    requires s.queue.Some?
    ensures var r := PollNext(s, cx, [], []);
      && r.Ok?
      && r.value.stream.queue.Some?
      && (r.value.poll.Ready? ==> s.queue.value == [r.value.poll.packet] + r.value.stream.queue.value)
      && (r.value.poll.Pending? ==> r.value.stream.queue == s.queue == Some([]))
  {
    if s.queue.value == [] {
      PollPendingRegisters(s, cx);
    }
  }

  /** Pushing one packet more than the capacity into a fresh
      queue keeps the first 200 and drops the last. */
  lemma OverflowDropsLast(packets: seq<bv8>)
    requires |packets| == MOUSE_QUEUE_SIZE + 1
    ensures var s := NewPacketStream(BOOT).value;
      AddPackets(s, packets).stream.queue == Some(packets[.. MOUSE_QUEUE_SIZE])
  {
    AddPacketsKeepsPrefix(NewPacketStream(BOOT).value, packets);
    assert [] + packets[.. MOUSE_QUEUE_SIZE] == packets[.. MOUSE_QUEUE_SIZE];
  }
}
