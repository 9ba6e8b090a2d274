# Go-Back-N ARQ and Bellman-Ford, modelled in Dafny

This project models the two algorithmic parts of a small networking
coursework repository:

* the **Go-Back-N ARQ simulation** (`go_back_n.py`): the frame codec that
  turns a text into 8-bit character codes, cuts them into payloads and
  appends a 16-bit sequence number to each; the sender's sliding window
  with per-slot timers, its "drop every nth slot once" loss rule, its
  acknowledgement rule and its timeout-driven full-window resend; the
  receiver's in-order cursor with its re-ack of `expected - 1`; and the
  reassembly of the accepted payloads into text. Sender and receiver are
  also run together over the two FIFO queues of the simulation, in any
  interleaving of their atomic steps;
* the **Bellman-Ford calculator** (`distance_vector.py`): `n - 1` in-place
  relaxation rounds over an adjacency matrix of integer weights and "no
  edge", the final negative-cycle check, and the parse of the matrix from
  the input lines.

Everything is pure: states are immutable records, every operation returns
the new state and what it put on a queue, time is a natural-number tick
passed in, bit strings are `seq<bool>`, and infinity is a constructor of
`Dist = Fin(int) | Inf`, not a float.

Modules, leaves first: `Optional`, `Arith` (two multiplication facts), `Bits` (big-endian numerals,
`format(n, '0wb')` and `int(s, 2)`), `Codec`, `Sender`, `Receiver`,
`Protocol` (the composed system); `Distance`, `Graph` (walks and their
weights), `BellmanFord`, `Decimal` (`int(token)`), `MatrixInput`.

The module globals `num_nodes` and `matrix` that `calc_bellman_ford`
reads are parameters here: the node count is the matrix's size.

## Model

| member | source | states |
|---|---|---|
| Bits.FormatWidth | go_back_n.py:47 | a number written with `format(n, '016b')` is exactly 16 bits long if and only if it is below 2^16; larger numbers are written in full, never truncated |
| Codec.CharBits | go_back_n.py:40 | a character's code is written as a numeral with that value, exactly 8 bits long if and only if the code is below 256 |
| Codec.TextBits | go_back_n.py:40 | the encoding of a text has at least 8 bits per character, and exactly 8 per character when every code fits in a byte |
| Codec.PreparePackets | go_back_n.py:36-57 | a payload size of `packet_len - 16` gives no frames for the empty text and at least one otherwise, and every frame is longer than its 16-bit sequence field |
| Codec.PacketLayout | go_back_n.py:46-54 | frame `i` is the `i`-th run of `packet_len - 16` bits of the encoding (cut short at the end), followed by `i` in the 16-bit field |
| Codec.PacketCount | go_back_n.py:46-54 | the number of frames is the encoding's length divided by the payload size, rounded up |
| Codec.PayloadSizes | go_back_n.py:41-54 | every payload except the last is exactly `packet_len - 16` bits long; the last is between 1 and that many bits long |
| Codec.ParsePacket | go_back_n.py:189-190 | the receiver reads as sequence number the value of the last 16 bits (of the whole frame when it is shorter), which is below 2^16, and as payload what precedes those 16 bits, empty for a frame shorter than 16 bits; the empty frame has no parse |
| Codec.ParseInvertsFrame | go_back_n.py:189-190 | for any payload and any number below 2^16, splitting the frame built from them gives back exactly that number and that payload |
| Codec.FrameNumbers | go_back_n.py:47-49 | with at most 2^16 frames, the receiver reads frame `i` as sequence number `i`, so the numbers are exactly `0 .. n-1` in order |
| Codec.PayloadsConcatenate | go_back_n.py:40-54 | with at most 2^16 frames, concatenating the payloads of all frames gives back the text's encoding |
| Codec.Regroup | go_back_n.py:212-213 | every character the receiver writes is one built from at most 8 bits, so its code is below 256 |
| Codec.TextRoundTrip | go_back_n.py:212-213 | regrouping the encoding of a text whose codes are all below 256 into 8-bit chunks gives back that text |
| Codec.SequenceAliasing | go_back_n.py:47 | as written, frame 65536 is read back as sequence number 0 with an extra `1` bit on its payload, the same number frame 0 carries |
| Codec.Encode | go_back_n.py:40-54 | the corrected encoder refuses a text needing more than 2^16 frames; whatever it returns numbers frame `i` as `i` with its payload intact, and its payloads regroup into the text when every code fits in a byte |
| Sender.Init | go_back_n.py:23-32 | the sender starts with the encoded frames, base 0, no slot acknowledged, every timer 0 and nothing dropped, which satisfies the sender invariant |
| Sender.Transmit | go_back_n.py:69-74 | one transmission attempt withholds the frame if and only if the slot is a drop slot not yet in the dropped list, records it there when withheld, enqueues it otherwise, and restamps the slot's timer either way |
| Sender.SecondAttemptDelivered | go_back_n.py:69-74 | a slot is withheld on its first attempt only if it is a drop slot not yet dropped, and any later attempt, from any state whose dropped list extends the one the first attempt left, enqueues it |
| Sender.SendPackets | go_back_n.py:63-75 | `send_packets` stamps exactly the slots in `[base, min(base + window_size, n))`, leaves every other timer alone, enqueues exactly those slots, in increasing order, that are not drop slots missing from the dropped list, and adds to the dropped list exactly the drop slots of the window |
| Sender.SendNextPacket | go_back_n.py:89-104 | `send_next_packet` moves the base up by one and makes one attempt at the slot `base + window_size` it brings into the window, when that slot exists: it enqueues that slot unless it is a drop slot not dropped yet, in which case it appends it to the dropped list instead; it restamps only that slot's timer and changes nothing else |
| Sender.OnAck | go_back_n.py:133-138 | an ack equal to the base is accepted: it marks that slot acknowledged, moves the base up by exactly one and either enqueues or drops the slot entering the window, as `send_next_packet` does; any other ack, including -1, changes nothing and sends nothing; the invariant "slot `j` is acknowledged if and only if `j < base`" is kept |
| Sender.ListenerStops | go_back_n.py:141-142 | the ack listener's stop test, "last slot acknowledged", holds exactly when the base has reached the number of frames |
| Sender.CheckTimers | go_back_n.py:109-119 | `check_timers(now)` reports a timeout if and only if some slot of the active window was last stamped strictly more than `timeout_interval` ticks before `now` |
| Sender.RunStep | go_back_n.py:160-162 | one pass of the sender's main loop changes nothing without a timeout; after a timeout it resends every slot of the window that is not withheld, and only slots of the window |
| Receiver.Init | go_back_n.py:179-181 | the receiver starts with no payloads and expects sequence number 0 |
| Receiver.ProcessPacket | go_back_n.py:186-200 | a frame is accepted if and only if its number equals `expected_seq_num`; then its payload is appended, its number is acked and the cursor moves up by one; otherwise nothing changes and `expected_seq_num - 1` (-1 before the first accept) is acked; the invariant "one payload per number below the cursor" is kept |
| Receiver.Run | go_back_n.py:228-237 | the receiver takes messages in queue order, never loses a payload it has accepted, and writes its output if and only if the end-of-stream marker comes, stopping at the first marker |
| Receiver.InOrderDelivery | go_back_n.py:186-237 | over a queue that loses and reorders nothing, a fresh receiver given every frame of an encoded byte text in order and then the marker accepts each frame, acks `0 .. n-1` in order and writes back exactly the text |
| Protocol.Init | go_back_n.py:148-157 | a transfer starts with the base at 0 and the data queue holding, in slot order, the frames of the slots in `[0, min(window_size, n))` that are not drop slots, with an empty receiver, an empty ack queue, no end-of-stream marker and no output |
| Protocol.Next | go_back_n.py:148-166 | every atomic step of the sender's loop, the ack listener or the receiver keeps the sender and receiver invariants, never lowers the base, and moves it by exactly one only on an ack |
| Protocol.Execute | go_back_n.py:148-166 | over any run the base never decreases and a slot once dropped stays in the dropped list |
| Protocol.NextInv | go_back_n.py:123-200 | every step keeps the system invariant: frames in flight are prepared frames below the window's far edge, acks in flight are below the receiver's cursor, the base is at most the cursor, and accepted payloads are the sent ones |
| Protocol.TransferDeliversText | go_back_n.py:148-237 | in every run, whatever the interleaving, losses and timeouts, any text the receiver writes equals the sender's text |
| Protocol.InvBounds | go_back_n.py:133-138 | under the invariant every ack in flight is below the receiver's cursor and the base never passes the cursor |
| Protocol.WindowBound | go_back_n.py:63-75 | in every run no frame in flight has a sequence number at or beyond `base + window_size`, and the base is at most the receiver's cursor |
| Protocol.HelloWorldFrames | go_back_n.py:40-54 | "Hello World", or any text of 11 single-byte characters, in 32-bit frames makes six frames, few enough for the 16-bit field |
| Protocol.HelloWorldDrops | go_back_n.py:69 | with `nth_packet` 4, slot 3 is the only drop slot among six frames |
| Distance.OrderFacts | distance_vector.py:13-15 | `<` with infinity is the negation of `<=` with the arguments swapped, `<=` is a total preorder, and adding the same value keeps `<=` |
| BellmanFord.Initial | distance_vector.py:6-7 | the starting list has one entry per node, 0 at the source and infinity everywhere else |
| BellmanFord.RelaxEdge | distance_vector.py:12-19 | relaxing an edge changes only the target's distance, never raises any distance, fires only through a finite edge, and leaves the target at most the source's distance plus the edge weight |
| BellmanFord.ScanSources | distance_vector.py:21-28 | the check pass finds an edge if and only if some finite edge still passes the relaxation test |
| BellmanFord.RoundsSound | distance_vector.py:9-19 | after any number of rounds every finite distance is the weight of some walk from the source, so a node no walk reaches stays infinite |
| BellmanFord.RoundsMonotone | distance_vector.py:9-19 | no distance rises from one round to the next, and the source stays at most 0 |
| BellmanFord.RoundsBounded | distance_vector.py:9-19 | after `k` rounds the distance of every node is at most the weight of every walk from the source to it with at most `k` edges |
| BellmanFord.CalcBellmanFord | distance_vector.py:5-30 | a returned distance list has one entry per node, with the source at most 0 |
| BellmanFord.DistancesAreShortest | distance_vector.py:21-30 | when the distances come back, each is the weight of the lightest walk from the source (infinity when there is none) and no negative cycle is reachable |
| BellmanFord.BellmanFordCorrect | distance_vector.py:5-30 | `[None] * num_nodes` comes back if and only if a negative cycle is reachable from the source; otherwise the distances of the `n - 1` rounds come back unchanged by the check, and they are the shortest ones |
| Decimal.ParseInt | distance_vector.py:55 | `int(token)` succeeds exactly on an optionally signed run of decimal digits, with a sign that matches the token's |
| Decimal.ParseShow | distance_vector.py:55 | every integer written in decimal is read back as itself |
| MatrixInput.ParseEntry | distance_vector.py:52-55 | the token `f` is infinity, and every other token is a finite weight exactly when `int` accepts it |
| MatrixInput.ParseMatrix | distance_vector.py:44-55 | the parse succeeds if and only if the first line is an integer and every entry line it needs exists and is `f` or an integer; then the matrix is square with one row per node, and entry `(r, c)` is the one read from line `1 + r * n + c` |
| MatrixInput.RenderParses | distance_vector.py:44-55 | writing a square matrix out as a node count and row-major entries puts every entry where the parse reads it, so the parse gives that matrix back |

## Left out

- chatroom.py and the HTTP server: socket servers and clients driven by `select`, threads and terminal input, with no protocol logic separable from the I/O.
- Concurrency: the ack-listening thread and the sender's main loop share `base`, `acks_list` and the timers without a lock. Each ack, timer check, frame arrival and the final end-of-stream enqueue is modelled as one atomic step, in any interleaving; races inside a step are not modelled.
- Queue polling with `get(timeout=0.1)`, `time.sleep` and `join`: an empty queue is simply a step that is not enabled.
- Wall-clock time: `time.time()` floats become a natural-number tick passed to each step.
- File I/O and logging: the input file's content goes in as a `string`, the output file's content comes out as one, and the `logger.info` and `print` calls are dropped.
- Exceptions that every method catches and prints become preconditions: a window of at least one slot, `packet_len > 16` (with 16 or less the slicing loop never advances), `nth_packet >= 1` (0 raises on `%`). The sender is built only from an encoding of at most 2^16 frames; see Findings.
- Sender.OnAck: requires `base` below the number of frames; the listener thread has already returned once the last slot is acknowledged, and an ack equal to the number of frames would raise on `acks_list[ack]`.
- Receiver.ProcessPacket: the empty frame, on which `int('', 2)` raises, is a separate `Malformed` verdict with no state change and no ack; the sender never builds one.
- Liveness: the model proves no bound on the number of timeout cycles and no termination of the threaded `run` loops.
- `print_bellman_ford` and reading standard input: the input comes in as the list of lines that `splitlines` produces, and the per-source results are not printed.
- Decimal.ParseInt: accepts only ASCII digits, so it does not accept the surrounding whitespace, the digit-group underscores or the non-ASCII Unicode decimal digits (such as `'٣'` or `'１２'`) that Python's `int` also allows, and it does not refuse numerals longer than 4300 digits, which Python 3.11 and later reject by default.
- Codec.PreparePackets follows the code, which does not refuse more frames than the 16-bit field can number; `Codec.Encode` refuses them (see Findings).

## Findings

| source | as written | input that shows it | evidently intended | confidence | as-written member | corrected member |
|---|---|---|---|---|---|---|
| go_back_n.py:47 | `format(sequence_num, '016b')` writes frame 65536's number in 17 bits, and the receiver reads only the last 16 of them, as 0 | `packet_len = 17` and any text of 8193 single-byte characters (65544 frames) | refuse to build more frames than the 16-bit field can number, so that no two frames share a number | high, not executed | Codec.SequenceAliasing | Codec.Encode |
