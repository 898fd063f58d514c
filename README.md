# TFA 433 MHz pulse-train decoder, modelled in Dafny

The TFA application receives a 433 MHz weather-sensor signal on a GPIO pin. Each
interval between two signal edges is sent from the interrupt handler to the main
loop. The main loop stores the interval in a ring of `BUFLEN` = 1700 samples. An
interval longer than `SENSOR_THRESHOLD` = 100000 µs is the gap after a
transmission, and it triggers a decode of the whole ring.

The decode (`_decode_plain2`) reads the ring in rotational order from the slot just
written. It classifies every interval against two thresholds (380 and 580) as
Low, Mid or High:

- High is a sync. It resets the word under construction and sets the bit position
  `shift` to 63.
- Two consecutive non-sync symbols form a pair. The pair (Mid, Low) sets bit `shift`.
  Every pair lowers `shift` by one.
- When `shift` reaches 0 with a non-zero word, the word is written to an output
  buffer of `DCBLEN` = 16 words.

The main loop then scans the words written, newest first. It keeps the newest word
and the latest earlier word that differs from it. Two distinct words make a sensor
reading.

The model has four modules:

- `Pulse` (`pulse.dfy`) is the functional specification of the decode.
  - `Classify` classifies one interval.
  - `Pair` is the pairing step on the locals `u64`, `last` and `shift`.
  - `Emit` writes a finished word.
  - `Feed` processes one sample, and `Run` folds `Feed` over a window.
  - `Window` is the rotational reading order.
  - The lemmas state what a decode does.
- `Decode` (`decode.dfy`) is `_decode_plain2` itself: an imperative loop over an
  input array, writing into an output array. It is proved equal to `Run` over
  `Window`.
- `Extract` (`extract.dfy`) is the two-distinct-word extraction loop. It is proved
  against the predicate `IsLatestPair`.
- `Receiver` (`receiver.dfy`) is the main loop's state as a class. Its fields are
  the interval ring, the output buffer and the wrapping `unsigned` counter. It has
  one method for the push and one for a whole iteration of the receive loop.

Some behaviours of the code are kept exactly as written:

- After a word is written, `shift` is set to 0, not back to 63. So the next pair
  wraps the 32-bit `shift` round to 2^32 - 1. The model proves that no second word
  follows before the next sync (`OneWordPerFrame`).
- A frame of 63 pairs after a sync ends with `shift` at 0, and its word is written
  if it is non-zero and the output has room (`FrameEmits`). The pairs may be any
  intervals that are not syncs: (Low, Low), (Low, Mid) and (Mid, Mid) all give a 0. Bit 63 - j of that word
  is set exactly when pair j is (Mid, Low) (`FrameWordBits`). Because the word is
  written before a 64th pair, bit 0 of every word is clear (`StartWords`).
- `shift` is a 32-bit `unsigned`. After 64 pairs without a sync it wraps below 0, and
  the next (Mid, Low) pair would evaluate `1ULL << shift` with `shift` ≥ 64. That is
  undefined behaviour in C.
  - The model does not pick a value for it. It flags the decode as `undefined` and
    stops there.
  - `ShiftWrapHazard` proves that 130 samples reach this case.
- The ring counter is an `unsigned`, and 2^32 is not a multiple of 1700. So at the
  counter wrap the write position jumps from slot 595 to slot 0 (`CounterWrapJump`).
- The window 700, 200, 600, 200, 600, 700 looks like a frame with two (Mid, Low)
  pairs that should decode to one word.
  - With the thresholds 380 and 580 the code classifies 600 as High (a sync), so
    the window writes nothing.
  - Even with a Mid value in place of 600 the pairs are (Low, Mid), which set no
    bit, and the bit position never reaches 0.
  - The model follows the code (`ShortWindowsEmitNothing`).

## Model

| member | source | states |
|---|---|---|
| Pulse.Classify | tfa/main.c:85-93 | an interval is High iff it exceeds `t2`, Mid iff it exceeds `t1` but not `t2`, Low iff it exceeds neither |
| Pulse.Dec | tfa/main.c:99 | `--shift` on a 32-bit unsigned is subtraction modulo 2^32 |
| Pulse.ClassifyMonotone | tfa/main.c:85-93 | a longer interval never gets a lower class |
| Pulse.PairSync | tfa/main.c:89-93 | a sync resets the word to 0 and the bit position to 63 and leaves nothing pending, whatever the state before |
| Pulse.PairPending | tfa/main.c:101-103 | a non-sync symbol with no pending half becomes the pending half; word and bit position are unchanged |
| Pulse.Pair | tfa/main.c:89-103 | the pairing step is undefined exactly for a (Mid, Low) pair at a bit position of 64 or more; when defined, nothing is left pending exactly when the symbol is a sync or completes a pair |
| Pulse.Emit | tfa/main.c:106-111 | the emission check never makes the decode undefined; it either leaves the output alone or appends the word, and it appends exactly when the bit position is 0, the word is non-zero and the output has room |
| Pulse.Feed | tfa/main.c:84-111 | once the decode is undefined a sample changes nothing; otherwise one sample appends at most one word |
| Pulse.Run | tfa/main.c:83-112 | a decode that has become undefined stays exactly as it is for the rest of the window |
| Pulse.Window | tfa/main.c:83-84 | the decode reads as many samples as the buffer holds |
| Pulse.PairStep | tfa/main.c:94-100 | a pair of non-sync symbols clears the pending half and lowers the bit position by one modulo 2^32; it is undefined exactly for a (Mid, Low) pair at a bit position of 64 or more |
| Pulse.PairBit | tfa/main.c:94-97 | a (Mid, Low) pair sets bit `shift` of the word and no other bit; any other pair leaves the word unchanged |
| Pulse.MidLowBit | tfa/main.c:94-97 | the pair (Mid, Low) at a bit position below 64 sets bit `shift` and keeps every other bit |
| Pulse.SetBit | tfa/main.c:96 | or-ing in `1 << s` sets bit `s` and keeps every other bit |
| Pulse.FeedEmission | tfa/main.c:106-111 | one sample appends at most one word, and it appends the word exactly when the pairing step is defined and leaves the bit position at 0 with a non-zero word and the output has room; afterwards word and bit position are both 0 |
| Pulse.RunOutput | tfa/main.c:106-108 | during a decode the output only grows by appending and never exceeds its capacity |
| Pulse.RunWords | tfa/main.c:94-111 | from a well-formed state, every word written is non-zero and has bit 0 clear |
| Pulse.StartWords | tfa/main.c:79-111 | every word of a decode from the initial locals (`u64` 0, nothing pending, `shift` 63) is non-zero with bit 0 clear |
| Pulse.OneWordPerFrame | tfa/main.c:106-111 | after a word is written (`shift` left at 0), no further word is written until the next sync |
| Pulse.BuildBits | tfa/main.c:94-99 | pairs closing bit positions `s` down to `s - n + 1` leave bit `p` set exactly when it was set before or `p` is the position of a (Mid, Low) pair |
| Pulse.FrameWordBits | tfa/main.c:94-99 | in the word of a frame, bit 63 - j is set exactly when pair j is (Mid, Low), and the bits below the frame's last position are clear |
| Pulse.FrameWordNonZero | tfa/main.c:94-97 | a frame with a (Mid, Low) pair builds a non-zero word |
| Pulse.BuildZero | tfa/main.c:94-99 | pairs without a (Mid, Low) pair leave the word unchanged |
| Pulse.FramePair | tfa/main.c:94-100 | any pair of non-sync samples, with nothing pending at a bit position from 2 to 63, ors in bit `shift` when it is (Mid, Low) and leaves the word otherwise, lowers the bit position by one and writes nothing |
| Pulse.FrameLastPair | tfa/main.c:94-111 | any pair of non-sync samples at bit position 1 ors in bit 1 when it is (Mid, Low) and leaves the word otherwise, brings the bit position to 0 and runs the emission check on the word |
| Pulse.FrameRun | tfa/main.c:83-111 | `s` pairs of non-sync samples, from bit position `s` with nothing pending, build their bits into the word from bit `s` down to bit 1 (a 1 for each (Mid, Low) pair, a 0 for any other pair), and then the emission check runs on that word at bit position 0 |
| Pulse.FrameEmits | tfa/main.c:79-111 | from the locals after a sync, a frame of 63 pairs of non-sync samples writes its word when some pair is (Mid, Low) and the output has room, and writes nothing when no pair is (Mid, Low); the decode stays defined |
| Pulse.ZeroPairs | tfa/main.c:94-100 | from a zero word with nothing pending, `2k` Low samples lower the bit position by `k` modulo 2^32 and write nothing |
| Pulse.ShiftWrapHazard | tfa/main.c:94-99 | 128 Low samples followed by a (Mid, Low) pair reach the undefined 64-bit shift |
| Pulse.SyncForgets | tfa/main.c:89-93 | after a sync, the rest of a decode depends only on the words already written |
| Pulse.WindowRotation | tfa/main.c:83-84 | the decode reads the buffer rotated at `inpos`, each sample exactly once |
| Decode.DecodePlain2 | tfa/main.c:73-115 | the returned count and the words written are those of `Run` over the rotated window; the count is at most `outlen` and 0 without an output buffer; slots past the count are unchanged; a decode reaching the undefined shift is reported |
| Decode.PairLocals | tfa/main.c:86-103 | the loop body's update of `u64`, `last` and `shift` is the pairing step `Pair`, and it reports the undefined shift |
| Decode.EmitWord | tfa/main.c:106-111 | the emission block is the emission check `Emit`: it writes the word at `outpos` and clears it exactly when `Emit` appends, leaves the other slots alone and keeps `outpos` equal to the number of words written |
| Decode.Put | tfa/main.c:108 | `outbuf[outpos++] = u64` appends the word after the words written so far and changes no later slot |
| Extract.LatestPair | tfa/main.c:199-210 | scanning the words newest first keeps the newest word and the latest earlier word that differs from it; a reading exists only when such a word exists |
| Extract.LatestPairUnique | tfa/main.c:199-210 | the extracted reading is determined by the words |
| Extract.ReadingIffTwoValues | tfa/main.c:207-209 | a reading is produced iff the words hold at least two distinct values |
| Receiver.Slot | tfa/main.c:190 | the ring slot of a counter value is below BUFLEN |
| Receiver.Next | tfa/main.c:192 | `counter++` on an `unsigned` is addition modulo 2^32 |
| Receiver.Fill | tfa/main.c:190-192 | the ring has BUFLEN slots, and the newest interval pushed is in the slot its counter value selects |
| Receiver.FillRecent | tfa/main.c:190-192 | each of the last BUFLEN intervals pushed is still in its slot |
| Receiver.DecodeOrder | tfa/main.c:190-195 | once the ring is full, a decode reads the trigger interval first and then the other 1699 intervals from oldest to newest |
| Receiver.CounterWrapJump | tfa/main.c:190-192 | at the counter wrap the write position jumps from slot 595 to slot 0 |
| Receiver.ShortWindowsEmitNothing | tfa/main.c:85-111 | with thresholds 380/580, the window 700, 200, 600, 200, 600, 700 is all syncs and Low halves, and neither it nor its Mid variant writes a word |
| Receiver.Receiver.constructor | tfa/main.c:70-71 | the ring and the output buffer start zeroed and the counter at 0 |
| Receiver.Receiver.Push | tfa/main.c:189-193 | the interval is stored at `counter % BUFLEN`, the counter advances with wrap-around, no other slot changes, and the slot is returned as the decode anchor iff the interval exceeds SENSOR_THRESHOLD |
| Receiver.Receiver.OnInterval | tfa/main.c:186-213 | one receive-loop iteration: below the threshold only the push happens; above it the outcome reports the decode of the ring from the slot just written (the undefined shift, or the words written and the reading extracted from them), and once the ring is full that window is the trigger interval followed by the previous 1699 intervals in order |

## Left out

- The interrupt handler `_recv_cb` is left out. It timestamps edges with the microsecond clock and sends the interval through the thread message queue. Intervals are parameters of `Receiver.Receiver.OnInterval` instead.
- The GPIO set-up, the thread and message-queue plumbing and the start-up sleeps are not modelled.
- `print_ipv6_addresses`, `send_data` (the CoAP/UDP transmission of a reading), the hexadecimal printing of the words and the DEBUG output are I/O. `OnInterval` returns the reading that would be sent.
- The other applications of the repository (fs1000a, fs1000a2coap, saul2coap, ping-probe) are not part of this model.
- `memset(buffer, 0, BUFLEN)` and `memset(outbuf, 0, DCBLEN)` clear bytes, not elements. Both arrays are static and start zeroed. Only words below the returned count are ever read, so the model does not model these partial clears.
- Decode.DecodePlain2: does not model the `size_t` overflow of `inpos + i`. Indices are unbounded naturals, and the receive loop passes `inpos` < 1700.
- Decode.DecodePlain2: where the source shifts a 64-bit one by `shift` ≥ 64, which is undefined behaviour in C, the model reports `undefined` and stops the decode at that sample. It does not predict what compiled code would do.
- Pulse.RunWords, Pulse.StartWords, Pulse.OneWordPerFrame: proved for windows of at most 2^32 - 64 samples. A longer window could wrap `shift` all the way round; the receive loop's windows have 1700 samples.
- Receiver.Receiver.OnInterval: the chronological order of the window is stated only while at most 2^32 intervals have been pushed. After the counter wrap the ring's slot order is discontinuous (`CounterWrapJump`).
