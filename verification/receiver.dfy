/**
 The Go-Back-N receiver (`GBN_receiver`): the expected-sequence cursor, the
 accept/discard rule of `process_packet`, the stop-on-end-of-stream loop of
 `run`, and the final regrouping of `write_to_file`. Acks are returned
 instead of being put on the ack queue.
 */
module Receiver {
  import opened Bits
  import opened Optional
  import Codec

  /** What travels on the data queue: a frame, or the `None` the sender puts
      there once every slot is acknowledged. */
  datatype Msg = Data(bits: Bits) | EndOfStream

  datatype ReceiverState = ReceiverState(packetList: seq<Bits>, expected: nat)

  /** The receiver's invariant: one accepted payload per sequence number
      below the cursor. */
  predicate Valid(r: ReceiverState)
  {
    |r.packetList| == r.expected
  }

  function Init(): (r: ReceiverState)
    ensures Valid(r) && r.expected == 0
  {
    ReceiverState([], 0)
  }

  /** `True`, `False`, and the `None` of a frame whose parse raised. */
  datatype Verdict = Accepted | OutOfOrder | Malformed

  datatype Processed = Processed(state: ReceiverState, acks: seq<int>, verdict: Verdict)

  /** `process_packet`: the frame is accepted exactly when its sequence number
      is the expected one; then its payload is appended, that number is acked
      and the cursor advances by one. Any other frame, behind or ahead, leaves
      the state alone and re-acks `expected - 1` (-1 before the first accept).
      The empty frame cannot be parsed and produces nothing. */
  function ProcessPacket(r: ReceiverState, packet: Bits): (p: Processed)
    ensures Valid(r) ==> Valid(p.state)
    ensures p.verdict == Accepted <==>
              Codec.ParsePacket(packet).Some? && Codec.ParsePacket(packet).value.seqNum == r.expected
    ensures p.verdict == Accepted ==>
              && p.state.expected == r.expected + 1
              && p.state.packetList == r.packetList + [Codec.PayloadOf(packet)]
              && p.acks == [r.expected]
    ensures p.verdict == OutOfOrder ==> p.state == r && p.acks == [r.expected - 1]
    ensures p.verdict == Malformed <==> |packet| == 0
    ensures p.verdict == Malformed ==> p.state == r && p.acks == []
    ensures forall k :: 0 <= k < |p.acks| ==> -1 <= p.acks[k] < p.state.expected
  {
    match Codec.ParsePacket(packet)
    case None => Processed(r, [], Malformed)
    case Some(parsed) =>
      if parsed.seqNum == r.expected then
        Processed(ReceiverState(r.packetList + [parsed.data], r.expected + 1), [parsed.seqNum], Accepted)
      else
        Processed(r, [r.expected - 1], OutOfOrder)
  }

  /** `write_to_file`: the accepted payloads joined and regrouped into
      characters. */
  function Output(r: ReceiverState): (text: string)
  {
    Codec.Regroup(Codec.Flatten(r.packetList))
  }

  datatype RunResult = RunResult(state: ReceiverState, acks: seq<int>, output: Option<string>, consumed: nat)

  /** The loop of `run`: frames are processed in queue order until the
      end-of-stream marker, which stops the loop and writes the output;
      nothing after the marker is taken from the queue. Without a marker the
      loop is still waiting when the queue runs dry. */
  function Run(r: ReceiverState, msgs: seq<Msg>): (res: RunResult)
    ensures Valid(r) ==> Valid(res.state)
    ensures res.consumed <= |msgs|
    ensures res.output.Some? <==> EndOfStream in msgs
    ensures res.output.Some? ==>
              && res.consumed >= 1
              && msgs[res.consumed - 1] == EndOfStream
              && EndOfStream !in msgs[..res.consumed - 1]
              && res.output.value == Output(res.state)
    ensures res.output.None? ==> res.consumed == |msgs|
    ensures r.expected <= res.state.expected
    ensures res.state.expected - r.expected <= res.consumed
    ensures r.packetList <= res.state.packetList
    decreases |msgs|
  {
    if |msgs| == 0 then
      RunResult(r, [], None, 0)
    else
      match msgs[0]
      case EndOfStream => RunResult(r, [], Some(Output(r)), 1)
      case Data(bits) =>
        var p := ProcessPacket(r, bits);
        assert r.packetList <= p.state.packetList;
        var rest := Run(p.state, msgs[1..]);
        assert msgs == [msgs[0]] + msgs[1..];
        assert EndOfStream in msgs <==> EndOfStream in msgs[1..];
        assert rest.output.Some? ==> msgs[..rest.consumed] == [msgs[0]] + msgs[1..][..rest.consumed - 1];
        RunResult(rest.state, p.acks + rest.acks, rest.output, rest.consumed + 1)
  }

  /** The data queue as a loss-free channel leaves it: every frame, in order. */
  function DataMsgs(frames: seq<Bits>): (msgs: seq<Msg>)
    ensures |msgs| == |frames|
    ensures forall i :: 0 <= i < |frames| ==> msgs[i] == Data(frames[i])
  {
    seq(|frames|, i requires 0 <= i < |frames| => Data(frames[i]))
  }

  /** Frames numbered `0 .. n-1` in order, each with its payload. */
  predicate Numbered(frames: seq<Bits>)
  {
    forall i :: 0 <= i < |frames| ==> Codec.ParsePacket(frames[i]) == Some(Codec.Parsed(i, Codec.PayloadOf(frames[i])))
  }

  /** The frame after the first `k` is accepted and acked with number `k`. */
  lemma AcceptNext(frames: seq<Bits>, k: nat)
    requires k < |frames| && Numbered(frames)
    ensures ProcessPacket(ReceiverState(Codec.Payloads(frames[..k]), k), frames[k]) ==
              Processed(ReceiverState(Codec.Payloads(frames[..k + 1]), k + 1), [k], Accepted)
  {
    assert frames[..k + 1] == frames[..k] + [frames[k]];
    assert Codec.Payloads(frames[..k + 1]) == Codec.Payloads(frames[..k]) + [Codec.PayloadOf(frames[k])];
  }

  /** `run` takes one frame off the queue, processes it and goes on. */
  lemma RunData(r: ReceiverState, bits: Bits, tail: seq<Msg>)
    ensures var p := ProcessPacket(r, bits);
            var rest := Run(p.state, tail);
            Run(r, [Data(bits)] + tail) == RunResult(rest.state, p.acks + rest.acks, rest.output, rest.consumed + 1)
  {
    assert ([Data(bits)] + tail)[1..] == tail;
  }

  /** The `n` numbers from `lo` on, in increasing order. */
  function Counting(lo: int, n: nat): (xs: seq<int>)
    ensures |xs| == n
    ensures forall i :: 0 <= i < n ==> xs[i] == lo + i
    decreases n
  {
    if n == 0 then [] else [lo] + Counting(lo + 1, n - 1)
  }

  /** Once every frame is accepted, the marker writes the output. */
  lemma RunEnd(frames: seq<Bits>)
    ensures var r := ReceiverState(Codec.Payloads(frames[..|frames|]), |frames|);
            Run(r, DataMsgs(frames)[|frames|..] + [EndOfStream]) ==
              RunResult(ReceiverState(Codec.Payloads(frames), |frames|), [], Some(Output(r)), 1)
  {
    assert frames[..|frames|] == frames;
    assert DataMsgs(frames)[|frames|..] + [EndOfStream] == [EndOfStream];
  }

  /** With the first `k` frames already accepted, the rest of the frames in
      order followed by the end-of-stream marker are each accepted and acked
      with their own number, and the output is written from all payloads. */
  lemma {:induction false} RunAccepts(frames: seq<Bits>, k: nat)
    requires k <= |frames| && Numbered(frames)
    ensures var res := Run(ReceiverState(Codec.Payloads(frames[..k]), k), DataMsgs(frames)[k..] + [EndOfStream]);
            && res.state == ReceiverState(Codec.Payloads(frames), |frames|)
            && res.acks == Counting(k, |frames| - k)
            && res.output == Some(Output(res.state))
    decreases |frames| - k
  {
    var r := ReceiverState(Codec.Payloads(frames[..k]), k);
    var msgs := DataMsgs(frames)[k..] + [EndOfStream];
    if k == |frames| {
      RunEnd(frames);
    } else {
      var tail := DataMsgs(frames)[k + 1..] + [EndOfStream];
      assert msgs == [Data(frames[k])] + tail;
      AcceptNext(frames, k);
      RunAccepts(frames, k + 1);
      RunData(r, frames[k], tail);
      assert [k] + Counting(k + 1, |frames| - (k + 1)) == Counting(k, |frames| - k);
    }
  }

  /** Over a channel that loses and reorders nothing, the receiver started
      fresh accepts every frame of the encoded text, acks `0 .. n-1` in
      order, and writes the text back out when the marker arrives. */
  lemma InOrderDelivery(text: string, packetLen: nat)
    requires packetLen > Codec.SeqWidth && Codec.ByteChars(text)
    requires Codec.Encode(text, packetLen).Some?
    ensures var frames := Codec.Encode(text, packetLen).value;
            var res := Run(Init(), DataMsgs(frames) + [EndOfStream]);
            && res.output == Some(text)
            && |res.acks| == |frames|
            && (forall i :: 0 <= i < |frames| ==> res.acks[i] == i)
            && res.state.expected == |frames|
  {
    var frames := Codec.Encode(text, packetLen).value;
    RunAccepts(frames, 0);
    assert frames[..0] == [];
    assert DataMsgs(frames)[0..] == DataMsgs(frames);
    assert Codec.Payloads(frames[..0]) == [];
  }
}
