/**
 The sender and the receiver run together over the two FIFO queues of the
 simulation: the data queue (frames and the final end-of-stream marker) and
 the ack queue. Each thread step is one atomic event; any interleaving of
 enabled events is a possible run. The invariant below shows that whatever
 the interleaving, losses and timeouts, the receiver writes out exactly the
 sender's text.
 */
module Protocol {
  import opened Bits
  import opened Optional
  import opened Codec
  import opened Sender
  import opened Receiver

  datatype System = System(
    cfg: Config,
    text: string,
    sender: SenderState,
    receiver: ReceiverState,
    dataChan: seq<Msg>,   // send_queue, oldest first
    ackChan: seq<int>,    // ack_queue, oldest first
    finished: bool,       // the sender has put the end-of-stream marker
    output: Option<string>)

  /** A timer check of the sender's main loop at tick `now`; the ack listener
      taking the oldest ack at tick `now`; the receiver taking the oldest
      message; the sender's final enqueue of the end-of-stream marker. */
  datatype Event = Tick(now: nat) | AckArrives(now: nat) | FrameArrives | Finish

  /** The frames of the given slots, in order, as they go on the data queue. */
  function Enqueue(packets: seq<Bits>, slots: seq<nat>): (msgs: seq<Msg>)
    requires forall j :: j in slots ==> j < |packets|
    ensures |msgs| == |slots|
    ensures forall k :: 0 <= k < |slots| ==> slots[k] < |packets| && msgs[k] == Data(packets[slots[k]])
  {
    assert forall k :: 0 <= k < |slots| ==> slots[k] in slots;
    seq(|slots|, k requires 0 <= k < |slots| => Data(packets[slots[k]]))
  }

  predicate WellFormed(sys: System)
  {
    && ValidConfig(sys.cfg)
    && Sender.Valid(sys.cfg, sys.sender)
    && Receiver.Valid(sys.receiver)
  }

  /** `GBN_sender.run` starts by sending the first window: the data queue
      holds, in slot order, the frames of the slots `[0, min(window_size, n))`
      that are not drop slots. The receiver starts with an empty cursor, the
      ack queue is empty and nothing is finished or written. */
  function Init(cfg: Config, text: string, now: nat): (sys: System)
    requires ValidConfig(cfg)
    requires Encode(text, cfg.packetLen).Some?
    ensures WellFormed(sys)
    ensures sys.cfg == cfg && sys.text == text
    ensures sys.sender.packets == Encode(text, cfg.packetLen).value
    ensures sys.sender.base == 0
    ensures sys.dataChan ==
              Enqueue(sys.sender.packets, Unwithheld(cfg, [], 0, Min(cfg.windowSize, |sys.sender.packets|)))
    ensures sys.receiver == Receiver.Init()
    ensures sys.ackChan == [] && !sys.finished && sys.output.None?
  {
    var s0 := Sender.Init(cfg, text);
    var s := SendPackets(cfg, s0, now);
    assert s.sent == Unwithheld(cfg, [], 0, Min(cfg.windowSize, |s0.packets|));
    System(cfg, text, s.state, Receiver.Init(), Enqueue(s.state.packets, s.sent), [], false, None)
  }

  predicate Enabled(sys: System, e: Event)
  {
    match e
    case Tick(_) => !sys.finished && sys.sender.base < |sys.sender.packets|
    case AckArrives(_) => |sys.ackChan| > 0 && sys.sender.base < |sys.sender.packets|
    case FrameArrives => |sys.dataChan| > 0 && sys.output.None?
    case Finish => !sys.finished && sys.sender.base == |sys.sender.packets|
  }

  /** One atomic step. The sender's window only ever moves forward, and only
      by one slot, and only on an ack. */
  function Next(sys: System, e: Event): (next: System)
    requires WellFormed(sys) && Enabled(sys, e)
    ensures WellFormed(next)
    ensures next.cfg == sys.cfg && next.text == sys.text
    ensures next.sender.packets == sys.sender.packets
    ensures next.sender.base == sys.sender.base ||
            (e.AckArrives? && next.sender.base == sys.sender.base + 1)
    ensures sys.sender.dropped <= next.sender.dropped
  {
    match e
    case Tick(now) =>
      var r := RunStep(sys.cfg, sys.sender, now);
      sys.(sender := r.state, dataChan := sys.dataChan + Enqueue(r.state.packets, r.sent))
    case AckArrives(now) =>
      var r := OnAck(sys.cfg, sys.sender, sys.ackChan[0], now);
      sys.(sender := r.state, ackChan := sys.ackChan[1..],
           dataChan := sys.dataChan + Enqueue(r.state.packets, r.sent))
    case FrameArrives =>
      (match sys.dataChan[0]
       case EndOfStream =>
         sys.(dataChan := sys.dataChan[1..], output := Some(Output(sys.receiver)))
       case Data(bits) =>
         var p := ProcessPacket(sys.receiver, bits);
         sys.(receiver := p.state, dataChan := sys.dataChan[1..], ackChan := sys.ackChan + p.acks))
    case Finish =>
      sys.(dataChan := sys.dataChan + [EndOfStream], finished := true)
  }

  /** A run: the events are applied in order, each one only if it is enabled. */
  function Execute(sys: System, events: seq<Event>): (last: System)
    requires WellFormed(sys)
    ensures WellFormed(last)
    ensures last.cfg == sys.cfg && last.text == sys.text && last.sender.packets == sys.sender.packets
    ensures sys.sender.base <= last.sender.base
    ensures sys.sender.dropped <= last.sender.dropped
    decreases |events|
  {
    if |events| == 0 then sys
    else
      var next := if Enabled(sys, events[0]) then Next(sys, events[0]) else sys;
      Execute(next, events[1..])
  }

  /** A message on the data queue is either the end-of-stream marker or one of
      the prepared frames, whose sequence number is below the far edge of the
      current window. */
  predicate FrameOk(sys: System, m: Msg)
  {
    m.Data? ==>
      var parsed := ParsePacket(m.bits);
      && parsed.Some?
      && parsed.value.seqNum < |sys.sender.packets|
      && parsed.value.seqNum < sys.sender.base + sys.cfg.windowSize
      && m.bits == sys.sender.packets[parsed.value.seqNum]
  }

  /** What the invariant needs to know of the prepared frames: frame `i`
      parses as number `i` with its payload, and the payloads regroup into
      the text. */
  predicate Framed(packets: seq<Bits>, text: string)
  {
    && (forall i :: 0 <= i < |packets| ==> ParsePacket(packets[i]) == Some(Parsed(i, PayloadOf(packets[i]))))
    && Regroup(Flatten(Payloads(packets))) == text
  }

  /** The invariant of every reachable system. */
  predicate Inv(sys: System)
  {
    && WellFormed(sys)
    && Framed(sys.sender.packets, sys.text)
    && sys.sender.base <= sys.receiver.expected <= |sys.sender.packets|
    && (forall j :: 0 <= j < sys.receiver.expected ==>
          sys.receiver.packetList[j] == PayloadOf(sys.sender.packets[j]))
    && (forall k :: 0 <= k < |sys.dataChan| ==> FrameOk(sys, sys.dataChan[k]))
    && (forall k :: 0 <= k < |sys.ackChan| ==> -1 <= sys.ackChan[k] < sys.receiver.expected)
    && (sys.finished ==> sys.sender.base == |sys.sender.packets|)
    && (EndOfStream in sys.dataChan ==> sys.finished)
    && (sys.output.Some? ==> sys.output.value == sys.text)
  }

  /** Frames just put on the queue satisfy `FrameOk`. */
  lemma EnqueuedFramesOk(sys: System, slots: seq<nat>)
    requires Framed(sys.sender.packets, sys.text)
    requires forall j :: j in slots ==> j < |sys.sender.packets| && j < sys.sender.base + sys.cfg.windowSize
    ensures forall k :: 0 <= k < |slots| ==> FrameOk(sys, Enqueue(sys.sender.packets, slots)[k])
  {
    forall k | 0 <= k < |slots| ensures FrameOk(sys, Enqueue(sys.sender.packets, slots)[k]) {
      assert slots[k] in slots;
    }
  }

  /** The frames the corrected encoder returns for a byte text are
      `Framed`. */
  lemma EncodedFramed(text: string, packetLen: nat)
    requires packetLen > SeqWidth
    requires ByteChars(text)
    requires Encode(text, packetLen).Some?
    ensures Framed(Encode(text, packetLen).value, text)
  {
  }

  /** The first window's frames are prepared frames of that window. */
  lemma InitFramesOk(cfg: Config, text: string, now: nat)
    requires ValidConfig(cfg)
    requires ByteChars(text)
    requires Encode(text, cfg.packetLen).Some?
    ensures var sys := Init(cfg, text, now);
            && Framed(sys.sender.packets, text)
            && EndOfStream !in sys.dataChan
            && forall k :: 0 <= k < |sys.dataChan| ==> FrameOk(sys, sys.dataChan[k])
  {
    var sys := Init(cfg, text, now);
    var slots := Unwithheld(cfg, [], 0, Min(cfg.windowSize, |sys.sender.packets|));
    EncodedFramed(text, cfg.packetLen);
    assert forall j :: j in slots ==> j < |sys.sender.packets| && j < sys.sender.base + cfg.windowSize;
    EnqueuedFramesOk(sys, slots);
  }

  lemma InitInv(cfg: Config, text: string, now: nat)
    requires ValidConfig(cfg)
    requires ByteChars(text)
    requires Encode(text, cfg.packetLen).Some?
    ensures Inv(Init(cfg, text, now))
  {
    InitFramesOk(cfg, text, now);
  }



  /** Taking the oldest message off the data queue leaves the rest in order,
      with no marker the queue did not hold before. */
  lemma PopData(sys: System, next: System)
    requires |sys.dataChan| > 0 && next.dataChan == sys.dataChan[1..]
    ensures forall k :: 0 <= k < |next.dataChan| ==> next.dataChan[k] == sys.dataChan[k + 1]
    ensures EndOfStream in next.dataChan ==> EndOfStream in sys.dataChan
  {
    if EndOfStream in next.dataChan {
      var k :| 0 <= k < |next.dataChan| && next.dataChan[k] == EndOfStream;
      assert sys.dataChan[k + 1] == EndOfStream;
    }
  }

  /** The end-of-stream marker arrives only once every frame was accepted, so
      the receiver writes out the whole text. */
  lemma EndOfStreamInv(sys: System)
    requires Inv(sys) && Enabled(sys, FrameArrives) && sys.dataChan[0] == EndOfStream
    ensures Inv(Next(sys, FrameArrives))
  {
    var next := Next(sys, FrameArrives);
    PopData(sys, next);
    assert sys.finished;
    assert sys.receiver.packetList == Payloads(sys.sender.packets);
  }

  /** A frame arrives: accepted, it is the next prepared frame in order. */
  lemma DataArrivesInv(sys: System)
    requires Inv(sys) && Enabled(sys, FrameArrives) && sys.dataChan[0].Data?
    ensures Inv(Next(sys, FrameArrives))
  {
    var next := Next(sys, FrameArrives);
    PopData(sys, next);
    var bits := sys.dataChan[0].bits;
    assert FrameOk(sys, sys.dataChan[0]);
    var i := ParsePacket(bits).value.seqNum;
    var p := ProcessPacket(sys.receiver, bits);
    if p.verdict == Accepted {
      assert i == sys.receiver.expected;
      assert forall j :: 0 <= j < next.receiver.expected ==>
               next.receiver.packetList[j] == PayloadOf(sys.sender.packets[j]);
    }
  }

  /** A message from the data queue is processed against the invariant. */
  lemma FrameArrivesInv(sys: System)
    requires Inv(sys) && Enabled(sys, FrameArrives)
    ensures Inv(Next(sys, FrameArrives))
  {
    if sys.dataChan[0].Data? {
      DataArrivesInv(sys);
    } else {
      EndOfStreamInv(sys);
    }
  }

  /** A sender step keeps the invariant when it leaves the receiver's side
      alone, keeps the base at most the receiver's cursor, and appends to the
      data queue only frames below the far edge of its window. */
  lemma SenderStepInv(sys: System, next: System, slots: seq<nat>)
    requires Inv(sys) && WellFormed(next) && !sys.finished
    requires next.cfg == sys.cfg && next.text == sys.text && next.receiver == sys.receiver
    requires next.finished == sys.finished && next.output == sys.output
    requires next.sender.packets == sys.sender.packets
    requires sys.sender.base <= next.sender.base <= next.receiver.expected
    requires forall j :: j in slots ==> j < |next.sender.packets| && j < next.sender.base + next.cfg.windowSize
    requires next.dataChan == sys.dataChan + Enqueue(next.sender.packets, slots)
    requires forall k :: 0 <= k < |next.ackChan| ==> -1 <= next.ackChan[k] < next.receiver.expected
    ensures Inv(next)
  {
    EnqueuedFramesOk(next, slots);
    var added := Enqueue(next.sender.packets, slots);
    forall k | 0 <= k < |next.dataChan| ensures FrameOk(next, next.dataChan[k]) {
      if k < |sys.dataChan| {
        assert FrameOk(sys, sys.dataChan[k]);
      } else {
        assert next.dataChan[k] == added[k - |sys.dataChan|];
      }
    }
    assert EndOfStream !in added;
  }

  /** An ack from the ack queue is handled against the invariant. */
  lemma AckArrivesInv(sys: System, now: nat)
    requires Inv(sys) && Enabled(sys, AckArrives(now))
    ensures Inv(Next(sys, AckArrives(now)))
  {
    var next := Next(sys, AckArrives(now));
    var r := OnAck(sys.cfg, sys.sender, sys.ackChan[0], now);
    assert sys.ackChan[0] < sys.receiver.expected;
    assert forall k :: 0 <= k < |next.ackChan| ==> next.ackChan[k] == sys.ackChan[k + 1];
    SenderStepInv(sys, next, r.sent);
  }

  /** A timer check of the sender keeps the invariant. */
  lemma TickInv(sys: System, now: nat)
    requires Inv(sys) && Enabled(sys, Tick(now))
    ensures Inv(Next(sys, Tick(now)))
  {
    var r := RunStep(sys.cfg, sys.sender, now);
    SenderStepInv(sys, Next(sys, Tick(now)), r.sent);
  }

  /** Every enabled step keeps the invariant. */
  lemma NextInv(sys: System, e: Event)
    requires Inv(sys) && Enabled(sys, e)
    ensures Inv(Next(sys, e))
  {
    match e
    case Tick(now) => TickInv(sys, now);
    case AckArrives(now) => AckArrivesInv(sys, now);
    case FrameArrives => FrameArrivesInv(sys);
    case Finish =>
      var next := Next(sys, e);
      forall k | 0 <= k < |next.dataChan| ensures FrameOk(next, next.dataChan[k]) {
        if k < |sys.dataChan| {
          assert FrameOk(sys, sys.dataChan[k]);
        }
      }
  }

  lemma {:induction false} ExecuteInv(sys: System, events: seq<Event>)
    requires Inv(sys)
    ensures Inv(Execute(sys, events))
    decreases |events|
  {
    if |events| > 0 {
      var next := if Enabled(sys, events[0]) then Next(sys, events[0]) else sys;
      if Enabled(sys, events[0]) {
        NextInv(sys, events[0]);
      }
      ExecuteInv(next, events[1..]);
    }
  }

  /** End-to-end delivery: in every run over the two queues, whatever the
      interleaving of timer checks, acks and frame arrivals, and however many
      frames the loss rule withholds, the text the receiver writes out is the
      sender's text. It needs every character to fit in a byte and at most
      2^16 frames. */
  lemma TransferDeliversText(cfg: Config, text: string, now: nat, events: seq<Event>)
    requires ValidConfig(cfg)
    requires ByteChars(text)
    requires Encode(text, cfg.packetLen).Some?
    ensures var last := Execute(Init(cfg, text, now), events);
            last.output.Some? ==> last.output.value == text
  {
    InitInv(cfg, text, now);
    ExecuteInv(Init(cfg, text, now), events);
  }

  /** In a system satisfying the invariant the receiver's cursor is never
      behind the sender's window base, every ack in flight is below the
      cursor, and every frame in flight is a prepared frame below the far
      edge of the window. */
  lemma InvBounds(sys: System)
    requires Inv(sys)
    ensures sys.sender.base <= sys.receiver.expected
    ensures forall k :: 0 <= k < |sys.ackChan| ==> sys.ackChan[k] < sys.receiver.expected
    ensures forall k :: 0 <= k < |sys.dataChan| && sys.dataChan[k].Data? ==>
              exists i :: 0 <= i < sys.sender.base + sys.cfg.windowSize &&
                          i < |sys.sender.packets| && sys.dataChan[k].bits == sys.sender.packets[i]
  {
    forall k | 0 <= k < |sys.dataChan| && sys.dataChan[k].Data?
      ensures exists i :: 0 <= i < sys.sender.base + sys.cfg.windowSize &&
                          i < |sys.sender.packets| && sys.dataChan[k].bits == sys.sender.packets[i]
    {
      assert FrameOk(sys, sys.dataChan[k]);
      var i := ParsePacket(sys.dataChan[k].bits).value.seqNum;
      assert sys.dataChan[k].bits == sys.sender.packets[i];
    }
  }

  /** The bounds of `InvBounds` hold in every run from the initial system:
      acks never run ahead of the receiver, so the window base never passes
      the receiver's cursor, and no frame beyond the window is ever in
      flight. */
  lemma WindowBound(cfg: Config, text: string, now: nat, events: seq<Event>)
    requires ValidConfig(cfg)
    requires ByteChars(text)
    requires Encode(text, cfg.packetLen).Some?
    ensures var last := Execute(Init(cfg, text, now), events);
            && last.sender.base <= last.receiver.expected
            && (forall k :: 0 <= k < |last.ackChan| ==> last.ackChan[k] < last.receiver.expected)
            && (forall k :: 0 <= k < |last.dataChan| && last.dataChan[k].Data? ==>
                  ParsePacket(last.dataChan[k].bits).Some? &&
                  ParsePacket(last.dataChan[k].bits).value.seqNum < last.sender.base + cfg.windowSize)
  {
    var init := Init(cfg, text, now);
    InitInv(cfg, text, now);
    ExecuteInv(init, events);
    var last := Execute(init, events);
    forall k | 0 <= k < |last.dataChan| && last.dataChan[k].Data?
      ensures ParsePacket(last.dataChan[k].bits).Some? &&
              ParsePacket(last.dataChan[k].bits).value.seqNum < last.sender.base + cfg.windowSize
    {
      assert FrameOk(last, last.dataChan[k]);
    }
  }

  /** The worked example of the simulation: "Hello World", or any other text
      of 11 single-byte characters, in 32-bit frames is six frames of 16
      payload bits, few enough for the 16-bit sequence field. */
  lemma HelloWorldFrames(text: string)
    requires ByteChars(text) && |text| == 11
    ensures |PreparePackets(text, 32)| == 6
    ensures Encode(text, 32).Some?
  {
    PacketCount(text, 32);
    var n := |PreparePackets(text, 32)|;
    assert (n - 1) * 16 < 88 <= n * 16;
    assert n == 6;
  }

  /** In that example, with a drop period of 4, slot 3 is the only slot the
      loss rule ever withholds. */
  lemma HelloWorldDrops(cfg: Config)
    requires ValidConfig(cfg) && cfg.nthPacket == 4
    ensures forall i :: 0 <= i < 6 ==> (DropSlot(cfg, i) <==> i == 3)
  {
    forall i | 0 <= i < 6 ensures DropSlot(cfg, i) <==> i == 3 {
      assert i + 1 == 1 || i + 1 == 2 || i + 1 == 3 || i + 1 == 4 || i + 1 == 5 || i + 1 == 6;
    }
  }
}
