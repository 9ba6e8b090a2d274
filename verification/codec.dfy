/**
 The Go-Back-N frame codec: the sender's `prepare_packets` (text to 8-bit
 character codes, sliced into payloads, each followed by a 16-bit sequence
 number), the receiver's split of a frame into sequence number and payload,
 and the regrouping of the accepted payload bits into characters that
 `write_to_file` performs.
 */
module Codec {
  import opened Bits
  import opened Optional
  import opened Arith

  /** Width of the sequence-number field appended to every frame. */
  const SeqWidth: nat := 16
  /** The number of frames the 16-bit sequence field can tell apart. */
  const MaxFrames: nat := 65536
  /** Width of one character code. */
  const CharWidth: nat := 8

  /** Every character fits in one byte, the width the codec writes per character. */
  predicate ByteChars(text: string)
  {
    forall k :: 0 <= k < |text| ==> text[k] as int < 256
  }

  /** `format(ord(c), '08b')`: eight bits for a byte-sized code, more otherwise. */
  function CharBits(c: char): (r: Bits)
    ensures Value(r) == c as int
    ensures |r| == CharWidth <==> c as int < 256
  {
    Pow2Constants();
    FormatWidth(c as int, CharWidth);
    Format(c as int, CharWidth)
  }

  /** The bit string `prepare_packets` builds from the whole text. */
  function TextBits(text: string): (r: Bits)
    ensures |r| >= CharWidth * |text|
    ensures ByteChars(text) ==> |r| == CharWidth * |text|
  {
    if |text| == 0 then [] else CharBits(text[0]) + TextBits(text[1..])
  }

  function Min(a: int, b: int): (m: int)
    ensures m <= a && m <= b && (m == a || m == b)
  {
    if a < b then a else b
  }

  /** The payloads the slicing loop of `prepare_packets` cuts from position
      `first` on: each takes the next `k` bits, the last one possibly fewer. */
  function Slices(bits: Bits, k: nat, first: nat): (r: seq<Bits>)
    requires k > 0
    decreases |bits| - first
  {
    if first >= |bits| then [] else [bits[first .. Min(first + k, |bits|)]] + Slices(bits, k, first + k)
  }

  /** There are just enough slices to cover the bits from `first` on. */
  lemma {:induction false} SlicesCount(bits: Bits, k: nat, first: nat)
    requires k > 0
    ensures var c := |Slices(bits, k, first)|;
            && (first >= |bits| <==> c == 0)
            && (first < |bits| ==> (c - 1) * k < |bits| - first <= c * k)
    decreases |bits| - first
  {
    if first < |bits| {
      SlicesCount(bits, k, first + k);
      var c := |Slices(bits, k, first + k)|;
      assert |Slices(bits, k, first)| == c + 1;
      MulSucc(c, k);
      if first + k < |bits| {
        MulSucc(c - 1, k);
      }
    }
  }

  /** Slice `i` from position `first` starts at `first + i * k`. */
  lemma {:induction false} SliceAt(bits: Bits, k: nat, first: nat, i: nat)
    requires k > 0
    requires i < |Slices(bits, k, first)|
    ensures first + i * k < |bits|
    ensures Slices(bits, k, first)[i] == bits[first + i * k .. Min(first + i * k + k, |bits|)]
    decreases i
  {
    var r := Slices(bits, k, first);
    var rest := Slices(bits, k, first + k);
    assert r == [bits[first .. Min(first + k, |bits|)]] + rest;
    if i == 0 {
      assert i * k == 0;
    } else {
      SliceAt(bits, k, first + k, i - 1);
      MulSucc(i - 1, k);
      var j := (first + k) + (i - 1) * k;
      assert j == first + i * k;
      assert r[i] == rest[i - 1];
    }
  }

  /** The slices from `first` on concatenate to the rest of the bit string. */
  lemma {:induction false} SlicesConcatenate(bits: Bits, k: nat, first: nat)
    requires k > 0
    requires first <= |bits|
    ensures Flatten(Slices(bits, k, first)) == bits[first..]
    decreases |bits| - first
  {
    if first < |bits| {
      var next := Min(first + k, |bits|);
      var rest := Slices(bits, k, first + k);
      assert Slices(bits, k, first) == [bits[first..next]] + rest;
      if first + k <= |bits| {
        SlicesConcatenate(bits, k, first + k);
        assert bits[first..] == bits[first..next] + bits[first + k..];
      } else {
        assert rest == [];
      }
    }
  }

  /** Every slice is non-empty and at most `k` bits long, and every slice
      but the last is exactly `k` bits long. */
  lemma SliceSizes(bits: Bits, k: nat, i: nat)
    requires k > 0
    requires i < |Slices(bits, k, 0)|
    ensures 0 < |Slices(bits, k, 0)[i]| <= k
    ensures i < |Slices(bits, k, 0)| - 1 ==> |Slices(bits, k, 0)[i]| == k
  {
    var c := |Slices(bits, k, 0)|;
    SliceAt(bits, k, 0, i);
    SlicesCount(bits, k, 0);
    if i < c - 1 {
      MulSucc(i, k);
      MulMonotone(i + 1, c - 1, k);
    }
  }

  /** `prepare_packets`: the text's encoding cut into slices of
      `packetLen - 16` bits, slice `i` followed by `i` as a 16-bit big-endian
      numeral. A `packetLen` of 16 or less makes the source loop forever, so
      it is excluded. */
  function PreparePackets(text: string, packetLen: nat): (packets: seq<Bits>)
    requires packetLen > SeqWidth
    ensures |packets| == 0 <==> |text| == 0
    ensures forall i :: 0 <= i < |packets| ==> |packets[i]| > SeqWidth
  {
    var bits := TextBits(text);
    var k := packetLen - SeqWidth;
    var slices := Slices(bits, k, 0);
    SlicesCount(bits, k, 0);
    assert forall i :: 0 <= i < |slices| ==> |slices[i]| > 0 by {
      forall i | 0 <= i < |slices| ensures |slices[i]| > 0 {
        SliceSizes(bits, k, i);
      }
    }
    Number(slices)
  }

  /** Each payload followed by its index, written at width 16. */
  function Number(slices: seq<Bits>): (packets: seq<Bits>)
    ensures |packets| == |slices|
    ensures forall i :: 0 <= i < |slices| ==> packets[i] == slices[i] + Format(i, SeqWidth)
  {
    seq(|slices|, i requires 0 <= i < |slices| => slices[i] + Format(i, SeqWidth))
  }

  /** Frame `i` is the `i`-th run of `packetLen - 16` bits of the text's
      encoding (shorter at the end) followed by `i` in the 16-bit field. */
  lemma PacketLayout(text: string, packetLen: nat, i: nat)
    requires packetLen > SeqWidth
    requires i < |PreparePackets(text, packetLen)|
    ensures var bits := TextBits(text);
            var k := packetLen - SeqWidth;
            && i * k < |bits|
            && PreparePackets(text, packetLen)[i] == bits[i * k .. Min(i * k + k, |bits|)] + Format(i, SeqWidth)
  {
    SliceAt(TextBits(text), packetLen - SeqWidth, 0, i);
  }

  /** There are just enough frames to carry the whole encoding: the number of
      frames is the encoding's length divided by `packetLen - 16`, rounded up. */
  lemma PacketCount(text: string, packetLen: nat)
    requires packetLen > SeqWidth
    ensures var n := |PreparePackets(text, packetLen)|;
            var k := packetLen - SeqWidth;
            |text| > 0 ==> (n - 1) * k < |TextBits(text)| <= n * k
  {
    SlicesCount(TextBits(text), packetLen - SeqWidth, 0);
  }

  /** The payload part of a frame: everything but the last 16 bits (`packet[:-16]`). */
  function PayloadOf(packet: Bits): (data: Bits)
    ensures |packet| >= SeqWidth ==> packet == data + packet[|packet| - SeqWidth..]
    ensures |packet| < SeqWidth ==> data == []
  {
    if |packet| >= SeqWidth then packet[..|packet| - SeqWidth] else []
  }

  datatype Parsed = Parsed(seqNum: nat, data: Bits)

  /** The receiver's split of a frame: `int(packet[-16:], 2)` and
      `packet[:-16]`. A frame shorter than 16 bits is read whole as its
      sequence number with an empty payload; the empty frame makes
      `int('', 2)` fail, which is `None` here. */
  function ParsePacket(packet: Bits): (r: Option<Parsed>)
    ensures r.None? <==> |packet| == 0
    ensures r.Some? ==> r.value.seqNum < MaxFrames
    ensures r.Some? && |packet| >= SeqWidth ==> packet == r.value.data + packet[|packet| - SeqWidth..]
    ensures r.Some? ==> r.value.seqNum == Value(if |packet| >= SeqWidth then packet[|packet| - SeqWidth..] else packet)
    ensures r.Some? && |packet| < SeqWidth ==> r.value.data == []
  {
    if |packet| == 0 then
      None
    else
      var tail := if |packet| >= SeqWidth then packet[|packet| - SeqWidth..] else packet;
      ValueBound(tail);
      Pow2Constants();
      Pow2Monotone(|tail|, SeqWidth);
      Some(Parsed(Value(tail), PayloadOf(packet)))
  }

  /** The receiver's parse inverts the sender's frame layout for every
      sequence number the 16-bit field can hold. */
  lemma ParseInvertsFrame(data: Bits, i: nat)
    requires i < MaxFrames
    ensures ParsePacket(data + Format(i, SeqWidth)) == Some(Parsed(i, data))
  {
    Pow2Constants();
    FormatWidth(i, SeqWidth);
    var p := data + Format(i, SeqWidth);
    assert p[|p| - SeqWidth..] == Format(i, SeqWidth);
    assert p[..|p| - SeqWidth] == data;
  }

  /** Sequence numbers are exactly `0 .. n-1` in order: as long as there are at
      most 2^16 frames, the receiver reads frame `i` as number `i` with its
      payload intact. */
  lemma FrameNumbers(text: string, packetLen: nat, i: nat)
    requires packetLen > SeqWidth
    requires i < |PreparePackets(text, packetLen)| <= MaxFrames
    ensures var packet := PreparePackets(text, packetLen)[i];
            ParsePacket(packet) == Some(Parsed(i, PayloadOf(packet)))
  {
    var packet := PreparePackets(text, packetLen)[i];
    var data := Slices(TextBits(text), packetLen - SeqWidth, 0)[i];
    assert packet == data + Format(i, SeqWidth);
    ParseInvertsFrame(data, i);
    FramePayload(data, i);
  }

  /** Concatenation of a sequence of bit strings (`''.join(...)`). */
  function Flatten(parts: seq<Bits>): (r: Bits)
  {
    if |parts| == 0 then [] else parts[0] + Flatten(parts[1..])
  }

  function Payloads(packets: seq<Bits>): (r: seq<Bits>)
    ensures |r| == |packets|
    ensures forall i :: 0 <= i < |r| ==> r[i] == PayloadOf(packets[i])
  {
    seq(|packets|, i requires 0 <= i < |packets| => PayloadOf(packets[i]))
  }

  /** A frame whose sequence number fits the 16-bit field keeps exactly its
      slice as payload. */
  lemma FramePayload(data: Bits, i: nat)
    requires i < MaxFrames
    ensures PayloadOf(data + Format(i, SeqWidth)) == data
  {
    Pow2Constants();
    FormatWidth(i, SeqWidth);
    var p := data + Format(i, SeqWidth);
    assert p[..|p| - SeqWidth] == data;
  }

  /** Concatenating the payloads of all frames gives back the text's
      encoding, as long as there are at most 2^16 frames. */
  lemma PayloadsConcatenate(text: string, packetLen: nat)
    requires packetLen > SeqWidth
    requires |PreparePackets(text, packetLen)| <= MaxFrames
    ensures Flatten(Payloads(PreparePackets(text, packetLen))) == TextBits(text)
  {
    var bits := TextBits(text);
    var k := packetLen - SeqWidth;
    var packets := PreparePackets(text, packetLen);
    var slices := Slices(bits, k, 0);
    assert Payloads(packets) == slices by {
      forall i | 0 <= i < |packets| ensures Payloads(packets)[i] == slices[i] {
        FramePayload(slices[i], i);
      }
    }
    SlicesConcatenate(bits, k, 0);
  }

  /** Every payload but the last carries exactly `packetLen - 16` bits; the
      last carries between one and `packetLen - 16`. */
  lemma PayloadSizes(text: string, packetLen: nat, i: nat)
    requires packetLen > SeqWidth
    requires i < |PreparePackets(text, packetLen)| <= MaxFrames
    ensures var n := |PayloadOf(PreparePackets(text, packetLen)[i])|;
            && 0 < n <= packetLen - SeqWidth
            && (i < |PreparePackets(text, packetLen)| - 1 ==> n == packetLen - SeqWidth)
  {
    var k := packetLen - SeqWidth;
    var slices := Slices(TextBits(text), k, 0);
    assert PreparePackets(text, packetLen)[i] == slices[i] + Format(i, SeqWidth);
    FramePayload(slices[i], i);
    SliceSizes(TextBits(text), k, i);
  }

  /** `chr` of an at most 8-bit code. */
  function ByteChar(chunk: Bits): (c: char)
    requires |chunk| <= CharWidth
    ensures c as int == Value(chunk)
    ensures c as int < 256
  {
    ValueBound(chunk);
    Pow2Monotone(|chunk|, CharWidth);
    Pow2Constants();
    Value(chunk) as char
  }

  /** The regrouping of `write_to_file`: the bits are cut into chunks of 8
      (the last one possibly shorter) and each chunk becomes the character
      with that code. */
  function Regroup(bits: Bits): (r: string)
    ensures ByteChars(r)
    decreases |bits|
  {
    if |bits| == 0 then
      ""
    else
      var n := Min(CharWidth, |bits|);
      var r := [ByteChar(bits[..n])] + Regroup(bits[n..]);
      assert forall j :: 1 <= j < |r| ==> r[j] == Regroup(bits[n..])[j - 1];
      r
  }

  /** Text round trip: regrouping the encoding of a text whose every
      character fits in a byte gives back that text. */
  lemma {:induction false} TextRoundTrip(text: string)
    requires ByteChars(text)
    ensures Regroup(TextBits(text)) == text
  {
    if |text| > 0 {
      var b := TextBits(text);
      var head := CharBits(text[0]);
      assert b == head + TextBits(text[1..]);
      assert b[..CharWidth] == head;
      assert b[CharWidth..] == TextBits(text[1..]);
      assert ByteChars(text[1..]) by {
        forall k | 0 <= k < |text[1..]| ensures text[1..][k] as int < 256 {
          assert text[1..][k] == text[k + 1];
        }
      }
      TextRoundTrip(text[1..]);
      assert ByteChar(head) == text[0];
    }
  }

  // ---------------------------------------------------------------------
  // More frames than the sequence field can number

  /** As written, frame 65536 carries its number in 17 bits; the receiver
      reads the last 16 of them as sequence number 0 and keeps the leading
      one as an extra payload bit. Since the receiver expects 65536 at that
      point, the frame is never accepted and the transfer never completes. */
  lemma SequenceAliasing(text: string, packetLen: nat)
    requires packetLen > SeqWidth
    requires |PreparePackets(text, packetLen)| > MaxFrames
    ensures var packet := PreparePackets(text, packetLen)[MaxFrames];
            var data := Slices(TextBits(text), packetLen - SeqWidth, 0)[MaxFrames];
            && ParsePacket(packet) == Some(Parsed(0, data + [true]))
            && ParsePacket(PreparePackets(text, packetLen)[0]).value.seqNum == 0
  {
    var slices := Slices(TextBits(text), packetLen - SeqWidth, 0);
    assert PreparePackets(text, packetLen)[MaxFrames] == slices[MaxFrames] + Format(MaxFrames, SeqWidth);
    AliasedFrame(slices[MaxFrames]);
    assert PreparePackets(text, packetLen)[0] == slices[0] + Format(0, SeqWidth);
    ParseInvertsFrame(slices[0], 0);
  }

  /** Whatever its payload, the frame numbered 2^16 reads as number 0. */
  lemma AliasedFrame(data: Bits)
    ensures ParsePacket(data + Format(MaxFrames, SeqWidth)) == Some(Parsed(0, data + [true]))
  {
    FormatOverflow();
    assert data + Format(MaxFrames, SeqWidth) == (data + [true]) + Zeros(SeqWidth);
    ParseZeroField(data + [true]);
  }

  /** 2^16 written at width 16 is a one followed by sixteen zeros. */
  lemma FormatOverflow()
    ensures Format(MaxFrames, SeqWidth) == [true] + Zeros(SeqWidth)
  {
    Pow2Constants();
    DigitsPow2(SeqWidth);
  }

  /** A frame ending in sixteen zeros reads as number 0. */
  lemma ParseZeroField(data: Bits)
    ensures ParsePacket(data + Zeros(SeqWidth)) == Some(Parsed(0, data))
  {
    var p := data + Zeros(SeqWidth);
    assert p[|p| - SeqWidth..] == Zeros(SeqWidth);
    assert p[..|p| - SeqWidth] == data;
    ZerosValue(SeqWidth);
  }

  /** The encoder with the check the 16-bit field needs: it refuses a text
      that takes more than 2^16 frames instead of letting two frames share a
      number. Whatever it returns numbers frame `i` as `i` with its payload
      intact, and the payloads regroup into the text when every character
      fits in a byte. */
  function Encode(text: string, packetLen: nat): (r: Option<seq<Bits>>)
    requires packetLen > SeqWidth
    ensures r.None? <==> |PreparePackets(text, packetLen)| > MaxFrames
    ensures r.Some? ==> (|r.value| == 0 <==> |text| == 0)
    ensures r.Some? ==> forall i :: 0 <= i < |r.value| ==>
              ParsePacket(r.value[i]) == Some(Parsed(i, PayloadOf(r.value[i])))
    ensures r.Some? && ByteChars(text) ==> Regroup(Flatten(Payloads(r.value))) == text
  {
    var packets := PreparePackets(text, packetLen);
    if |packets| > MaxFrames then
      None
    else
      assert forall i :: 0 <= i < |packets| ==> ParsePacket(packets[i]) == Some(Parsed(i, PayloadOf(packets[i]))) by {
        forall i | 0 <= i < |packets| ensures ParsePacket(packets[i]) == Some(Parsed(i, PayloadOf(packets[i]))) {
          FrameNumbers(text, packetLen, i);
        }
      }
      PayloadsConcatenate(text, packetLen);
      assert ByteChars(text) ==> Regroup(TextBits(text)) == text by {
        if ByteChars(text) {
          TextRoundTrip(text);
        }
      }
      Some(packets)
  }
}
