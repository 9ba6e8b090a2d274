/**
 The Go-Back-N sender (`GBN_sender`): the sliding window over the prepared
 frames, the per-slot timers, the acknowledgement rule and the deterministic
 "drop every nth slot once" loss rule. Every operation is one atomic step;
 instead of putting frames on the data queue it reports, in order, the slot
 numbers of the frames it enqueued. Time is an integer tick passed in.
 */
module Sender {
  import opened Bits
  import Codec

  datatype Config = Config(windowSize: nat, packetLen: nat, nthPacket: nat, timeoutInterval: nat)

  /** A window of at least one frame, frames with room for a payload after the
      16-bit sequence number, and a non-zero drop period. */
  predicate ValidConfig(cfg: Config)
  {
    cfg.windowSize >= 1 && cfg.packetLen > Codec.SeqWidth && cfg.nthPacket >= 1
  }

  datatype SenderState = SenderState(
    packets: seq<Bits>,
    base: nat,          // oldest unacknowledged slot
    acked: seq<bool>,   // acks_list
    timers: seq<nat>,   // packet_timers: tick of the last transmission attempt
    dropped: seq<nat>)  // dropped_list, in the order the slots were withheld

  /** The invariant every sender state keeps: per-slot lists as long as the
      frame list, exactly the slots below `base` acknowledged, and every
      withheld slot a drop slot listed once. */
  predicate Valid(cfg: Config, s: SenderState)
    requires ValidConfig(cfg)
  {
    && |s.acked| == |s.packets|
    && |s.timers| == |s.packets|
    && s.base <= |s.packets|
    && (forall j :: 0 <= j < |s.acked| ==> (s.acked[j] <==> j < s.base))
    && (forall k :: 0 <= k < |s.dropped| ==> s.dropped[k] < |s.packets| && DropSlot(cfg, s.dropped[k]))
    && (forall a, b :: 0 <= a < b < |s.dropped| ==> s.dropped[a] != s.dropped[b])
  }

  /** The constructor: the prepared frames (refused when there are more than
      the 16-bit field can number), `base` 0, nothing acknowledged, all timers
      0 and nothing dropped yet. */
  function Init(cfg: Config, text: string): (s: SenderState)
    requires ValidConfig(cfg)
    requires Codec.Encode(text, cfg.packetLen).Some?
    ensures Valid(cfg, s)
    ensures s.packets == Codec.Encode(text, cfg.packetLen).value
    ensures s.base == 0 && s.dropped == []
    ensures forall j :: 0 <= j < |s.packets| ==> !s.acked[j] && s.timers[j] == 0
  {
    var packets := Codec.Encode(text, cfg.packetLen).value;
    SenderState(packets, 0, seq(|packets|, _ => false), seq(|packets|, _ => 0), [])
  }

  /** Slots the loss rule picks: every `nthPacket`-th slot, never slot 0. */
  predicate DropSlot(cfg: Config, i: nat)
    requires cfg.nthPacket >= 1
  {
    i != 0 && (i + 1) % cfg.nthPacket == 0
  }

  /** Whether a transmission of slot `i` now would be withheld: a drop slot
      that has not been withheld before. */
  predicate Withheld(cfg: Config, s: SenderState, i: nat)
    requires cfg.nthPacket >= 1
  {
    DropSlot(cfg, i) && i !in s.dropped
  }

  /** The slots of the active window, `[base, min(base + windowSize, n))`. */
  predicate InWindow(cfg: Config, s: SenderState, j: int)
  {
    s.base <= j < Codec.Min(s.base + cfg.windowSize, |s.packets|)
  }

  /** A new sender state and the slots whose frames it put on the data queue,
      in the order it put them there. */
  datatype Sent = Sent(state: SenderState, sent: seq<nat>)

  /** One transmission attempt of slot `i`: withheld (and recorded as dropped)
      or enqueued, and in either case its timer restamped. */
  function Transmit(cfg: Config, s: SenderState, i: nat, now: nat): (r: Sent)
    requires ValidConfig(cfg)
    requires |s.timers| == |s.packets| && i < |s.packets|
    ensures Valid(cfg, s) ==> Valid(cfg, r.state)
    ensures r.state == s.(timers := r.state.timers, dropped := r.state.dropped)
    ensures r.state.timers == s.timers[i := now]
    ensures r.sent == [] <==> Withheld(cfg, s, i)
    ensures r.sent == [] || r.sent == [i]
    ensures r.state.dropped == if r.sent == [] then s.dropped + [i] else s.dropped
  {
    if Withheld(cfg, s, i) then
      Sent(s.(dropped := s.dropped + [i], timers := s.timers[i := now]), [])
    else
      Sent(s.(timers := s.timers[i := now]), [i])
  }

  /** A slot is withheld on its first attempt only: once withheld, it stays
      in the dropped list, so every later transmission of it, from any state
      whose dropped list extends the one that attempt left, is enqueued. */
  lemma SecondAttemptDelivered(cfg: Config, s: SenderState, i: nat, t1: nat, s2: SenderState, t2: nat)
    requires ValidConfig(cfg)
    requires |s.timers| == |s.packets| && i < |s.packets|
    requires Transmit(cfg, s, i, t1).state.dropped <= s2.dropped
    requires |s2.timers| == |s2.packets| && i < |s2.packets|
    ensures Transmit(cfg, s, i, t1).sent == [] <==> DropSlot(cfg, i) && i !in s.dropped
    ensures Transmit(cfg, s2, i, t2).sent == [i]
  {
    var d := Transmit(cfg, s, i, t1).state.dropped;
    if DropSlot(cfg, i) {
      assert i in d;
      assert d == s2.dropped[..|d|];
      assert i in s2.dropped;
    }
  }

  /** Slot numbers listed in strictly increasing order. */
  predicate Increasing(xs: seq<nat>)
  {
    forall a, b :: 0 <= a < b < |xs| ==> xs[a] < xs[b]
  }

  lemma IncreasingPrepend(x: seq<nat>, i: nat, xs: seq<nat>)
    requires x == [] || x == [i]
    requires Increasing(xs)
    requires forall j :: j in xs ==> i < j
    ensures Increasing(x + xs)
  {
    if x == [i] {
      forall a, b | 0 <= a < b < |x + xs| ensures (x + xs)[a] < (x + xs)[b] {
        assert (x + xs)[b] == xs[b - 1];
        assert xs[b - 1] in xs;
        if a > 0 {
          assert (x + xs)[a] == xs[a - 1];
        }
      }
    }
  }

  /** The loop of `send_packets` from slot `i` up to (excluding) `hi`. It
      only touches the timers and the dropped list; what it does to them is
      stated by the three lemmas below. */
  function SendRange(cfg: Config, s: SenderState, i: nat, hi: nat, now: nat): (r: Sent)
    requires ValidConfig(cfg) && |s.timers| == |s.packets|
    requires hi <= |s.packets|
    ensures Valid(cfg, s) ==> Valid(cfg, r.state)
    ensures r.state.packets == s.packets && r.state.base == s.base && r.state.acked == s.acked
    ensures |r.state.timers| == |s.timers|
    decreases hi - i
  {
    if i >= hi then
      Sent(s, [])
    else
      var t := Transmit(cfg, s, i, now);
      var rest := SendRange(cfg, t.state, i + 1, hi, now);
      Sent(rest.state, t.sent + rest.sent)
  }

  /** The loop stamps the timers of exactly the slots from `i` to `hi`. */
  lemma {:induction false} SendRangeTimers(cfg: Config, s: SenderState, i: nat, hi: nat, now: nat)
    requires ValidConfig(cfg) && |s.timers| == |s.packets|
    requires hi <= |s.packets|
    ensures var r := SendRange(cfg, s, i, hi, now);
            forall j :: 0 <= j < |s.timers| ==> r.state.timers[j] == if i <= j < hi then now else s.timers[j]
    decreases hi - i
  {
    if i < hi {
      var t := Transmit(cfg, s, i, now);
      var rest := SendRange(cfg, t.state, i + 1, hi, now);
      assert SendRange(cfg, s, i, hi, now) == Sent(rest.state, t.sent + rest.sent);
      SendRangeTimers(cfg, t.state, i + 1, hi, now);
      forall j | 0 <= j < |s.timers|
        ensures rest.state.timers[j] == if i <= j < hi then now else s.timers[j]
      {
        assert t.state.timers[j] == if j == i then now else s.timers[j];
      }
    }
  }

  /** The loop enqueues, in increasing order, exactly the slots from `i` to
      `hi` that are not withheld. */
  lemma {:induction false} SendRangeSent(cfg: Config, s: SenderState, i: nat, hi: nat, now: nat)
    requires ValidConfig(cfg) && |s.timers| == |s.packets|
    requires hi <= |s.packets|
    ensures var r := SendRange(cfg, s, i, hi, now);
            && Increasing(r.sent)
            && forall j :: j in r.sent <==> i <= j < hi && !Withheld(cfg, s, j)
    decreases hi - i
  {
    if i < hi {
      var t := Transmit(cfg, s, i, now);
      var rest := SendRange(cfg, t.state, i + 1, hi, now);
      assert SendRange(cfg, s, i, hi, now) == Sent(rest.state, t.sent + rest.sent);
      SendRangeSent(cfg, t.state, i + 1, hi, now);
      IncreasingPrepend(t.sent, i, rest.sent);
      assert forall j :: j in t.sent + rest.sent <==> j in t.sent || j in rest.sent;
    }
  }

  /** The loop only appends to the dropped list, and what it appends is
      exactly the drop slots from `i` to `hi` not dropped before. */
  lemma {:induction false} SendRangeDropped(cfg: Config, s: SenderState, i: nat, hi: nat, now: nat)
    requires ValidConfig(cfg) && |s.timers| == |s.packets|
    requires hi <= |s.packets|
    ensures var r := SendRange(cfg, s, i, hi, now);
            && s.dropped <= r.state.dropped
            && forall j :: j in r.state.dropped <==> j in s.dropped || (i <= j < hi && DropSlot(cfg, j))
    decreases hi - i
  {
    if i < hi {
      var t := Transmit(cfg, s, i, now);
      var rest := SendRange(cfg, t.state, i + 1, hi, now);
      assert SendRange(cfg, s, i, hi, now) == Sent(rest.state, t.sent + rest.sent);
      SendRangeDropped(cfg, t.state, i + 1, hi, now);
      assert forall j :: j in t.state.dropped <==> j in s.dropped || (j == i && DropSlot(cfg, j));
    }
  }

  /** The slots of `[lo, hi)` a pass over them enqueues when the dropped list
      is `dropped`: all of them, in order, except drop slots not dropped yet. */
  function Unwithheld(cfg: Config, dropped: seq<nat>, lo: nat, hi: nat): (slots: seq<nat>)
    requires cfg.nthPacket >= 1
    ensures Increasing(slots)
    ensures forall j :: j in slots <==> lo <= j < hi && !(DropSlot(cfg, j) && j !in dropped)
    decreases hi - lo
  {
    if lo >= hi then []
    else
      var x: seq<nat> := if DropSlot(cfg, lo) && lo !in dropped then [] else [lo];
      var rest := Unwithheld(cfg, dropped, lo + 1, hi);
      IncreasingPrepend(x, lo, rest);
      assert forall j :: j in x + rest <==> j in x || j in rest;
      x + rest
  }

  /** Dropping a slot below the range changes nothing in it. */
  lemma {:induction false} UnwithheldSkip(cfg: Config, dropped: seq<nat>, x: nat, lo: nat, hi: nat)
    requires cfg.nthPacket >= 1
    requires x < lo
    ensures Unwithheld(cfg, dropped + [x], lo, hi) == Unwithheld(cfg, dropped, lo, hi)
    decreases hi - lo
  {
    if lo < hi {
      assert lo in dropped + [x] <==> lo in dropped;
      UnwithheldSkip(cfg, dropped, x, lo + 1, hi);
    }
  }

  /** The loop enqueues exactly the list `Unwithheld` gives for the dropped
      list it starts from. */
  lemma {:induction false} SendRangeSlots(cfg: Config, s: SenderState, i: nat, hi: nat, now: nat)
    requires ValidConfig(cfg) && |s.timers| == |s.packets|
    requires hi <= |s.packets|
    ensures SendRange(cfg, s, i, hi, now).sent == Unwithheld(cfg, s.dropped, i, hi)
    decreases hi - i
  {
    if i < hi {
      var t := Transmit(cfg, s, i, now);
      var rest := SendRange(cfg, t.state, i + 1, hi, now);
      assert SendRange(cfg, s, i, hi, now) == Sent(rest.state, t.sent + rest.sent);
      SendRangeSlots(cfg, t.state, i + 1, hi, now);
      if t.sent == [] {
        UnwithheldSkip(cfg, s.dropped, i, i + 1, hi);
      }
    }
  }

  /** `send_packets`: every slot of the active window gets a transmission
      attempt, in slot order. */
  function SendPackets(cfg: Config, s: SenderState, now: nat): (r: Sent)
    requires ValidConfig(cfg) && Valid(cfg, s)
    ensures Valid(cfg, r.state)
    ensures r.state.packets == s.packets && r.state.base == s.base && r.state.acked == s.acked
    ensures forall j :: 0 <= j < |s.timers| ==>
              r.state.timers[j] == if InWindow(cfg, s, j) then now else s.timers[j]
    ensures Increasing(r.sent)
    ensures forall j :: j in r.sent <==> InWindow(cfg, s, j) && !Withheld(cfg, s, j)
    ensures r.sent == Unwithheld(cfg, s.dropped, s.base, Codec.Min(s.base + cfg.windowSize, |s.packets|))
    ensures s.dropped <= r.state.dropped
    ensures forall j :: j in r.state.dropped <==> j in s.dropped || (InWindow(cfg, s, j) && DropSlot(cfg, j))
  {
    var hi := Codec.Min(s.base + cfg.windowSize, |s.packets|);
    SendRangeTimers(cfg, s, s.base, hi, now);
    SendRangeSent(cfg, s, s.base, hi, now);
    SendRangeSlots(cfg, s, s.base, hi, now);
    SendRangeDropped(cfg, s, s.base, hi, now);
    SendRange(cfg, s, s.base, hi, now)
  }

  /** `send_next_packet`: the window slides by one and the slot that enters
      at its far edge, if there is one, gets a transmission attempt: enqueued
      unless it is a drop slot not dropped before, in which case it is added
      to the dropped list instead. Nothing else changes. */
  function SendNextPacket(cfg: Config, s: SenderState, now: nat): (r: Sent)
    requires ValidConfig(cfg)
    requires |s.timers| == |s.packets|
    ensures r.state == s.(base := s.base + 1, timers := r.state.timers, dropped := r.state.dropped)
    ensures |r.state.timers| == |s.timers|
    ensures var edge := s.base + cfg.windowSize;
            r.sent == if edge < |s.packets| && !Withheld(cfg, s, edge) then [edge] else []
    ensures var edge := s.base + cfg.windowSize;
            r.state.dropped == if edge < |s.packets| && Withheld(cfg, s, edge) then s.dropped + [edge] else s.dropped
    ensures forall j :: 0 <= j < |s.timers| ==>
              r.state.timers[j] == if j == s.base + cfg.windowSize then now else s.timers[j]
  {
    var s1 := s.(base := s.base + 1);
    var edge := s1.base + cfg.windowSize - 1;
    if edge < |s.packets| then Transmit(cfg, s1, edge, now) else Sent(s1, [])
  }

  /** The acknowledgement rule of `receive_acks`: an ack for the window's base
      slot that has not been acknowledged yet is accepted, marks the slot,
      and slides the window by one; any other ack (a duplicate, one ahead of
      the base, the -1 sentinel) changes nothing and sends nothing. The
      listener runs only while some slot is unacknowledged. */
  function OnAck(cfg: Config, s: SenderState, ack: int, now: nat): (r: Sent)
    requires ValidConfig(cfg) && Valid(cfg, s)
    requires s.base < |s.packets|
    ensures Valid(cfg, r.state)
    ensures r.state.packets == s.packets
    ensures ack == s.base ==> r.state.base == s.base + 1 && r.state.acked == s.acked[s.base := true]
    ensures ack == s.base ==>
              var edge := s.base + cfg.windowSize;
              && r.sent == (if edge < |s.packets| && !Withheld(cfg, s, edge) then [edge] else [])
              && r.state.dropped == (if edge < |s.packets| && Withheld(cfg, s, edge) then s.dropped + [edge] else s.dropped)
    ensures ack != s.base ==> r == Sent(s, [])
    ensures |r.sent| <= 1
    ensures forall j :: j in r.sent ==> InWindow(cfg, r.state, j)
    ensures s.dropped <= r.state.dropped
  {
    if ack == s.base && !s.acked[ack] then
      var r := SendNextPacket(cfg, s.(acked := s.acked[ack := true]), now);
      assert forall j :: 0 <= j < |r.state.acked| ==> (r.state.acked[j] <==> j < r.state.base);
      r
    else
      Sent(s, [])
  }

  /** The stop rule of the ack listener: it returns once the last slot is
      acknowledged, which is exactly when the window has passed every slot. */
  lemma ListenerStops(cfg: Config, s: SenderState)
    requires ValidConfig(cfg) && Valid(cfg, s)
    requires |s.packets| > 0
    ensures s.acked[|s.packets| - 1] <==> s.base == |s.packets|
  {
  }

  /** Whether some slot of the active window was last sent more than
      `timeoutInterval` ticks before `now`. */
  predicate TimedOut(cfg: Config, s: SenderState, now: nat)
    requires |s.timers| == |s.packets|
  {
    exists j :: s.base <= j < Codec.Min(s.base + cfg.windowSize, |s.packets|) && now - s.timers[j] > cfg.timeoutInterval
  }

  /** `check_timers`: scans the active window in slot order and reports a
      timeout at the first slot whose timer is strictly older than the
      interval. */
  method CheckTimers(cfg: Config, s: SenderState, now: nat) returns (timedOut: bool)
    requires |s.timers| == |s.packets|
    ensures timedOut <==> TimedOut(cfg, s, now)
  {
    var hi := Codec.Min(s.base + cfg.windowSize, |s.packets|);
    var i := s.base;
    while i < hi
      invariant s.base <= i
      invariant forall j :: s.base <= j < i && j < hi ==> now - s.timers[j] <= cfg.timeoutInterval
    {
      if now - s.timers[i] > cfg.timeoutInterval {
        return true;
      }
      i := i + 1;
    }
    return false;
  }

  /** One pass of the main loop of `run` while some slot is unacknowledged:
      on a timeout the whole active window is sent again, otherwise nothing
      happens. */
  function RunStep(cfg: Config, s: SenderState, now: nat): (r: Sent)
    requires ValidConfig(cfg) && Valid(cfg, s)
    ensures Valid(cfg, r.state)
    ensures r.state.packets == s.packets && r.state.base == s.base && r.state.acked == s.acked
    ensures !TimedOut(cfg, s, now) ==> r == Sent(s, [])
    ensures TimedOut(cfg, s, now) ==>
              forall j :: InWindow(cfg, s, j) && !Withheld(cfg, s, j) ==> j in r.sent
    ensures forall j :: j in r.sent ==> InWindow(cfg, s, j)
    ensures s.dropped <= r.state.dropped
  {
    if TimedOut(cfg, s, now) then SendPackets(cfg, s, now) else Sent(s, [])
  }
}
