/**
 * The receive loop of the TFA application: every interval between two edges of the
 * radio signal is pushed into a ring of BUFLEN samples at `counter % BUFLEN`; an
 * interval above SENSOR_THRESHOLD (the long gap that ends a transmission) triggers a
 * decode of the whole ring starting at the slot just written, and the decoded words
 * are reduced to a reading of two distinct values.
 */
module Receiver {
  import opened Wrappers
  import opened Pulse
  import opened Decode
  import opened Extract

  const BUFLEN: nat := 1700
  const DCBLEN: nat := 16
  const SENSOR_THRESHOLD: uint32 := 100000
  /** The classification thresholds the receive loop passes to the decoder. */
  const T1: uint32 := 380
  const T2: uint32 := 580

  /** The ring slot a counter value writes to. */
  function Slot(counter: uint32): (slot: nat)
    ensures slot < BUFLEN
  {
    counter as int % BUFLEN
  }

  /** The counter is an `unsigned` and wraps to 0 after 2^32 - 1. */
  function Next(counter: uint32): (c: uint32)
    ensures c as int == (counter as int + 1) % 0x1_0000_0000
  {
    if counter == 0xFFFF_FFFF then 0 else counter + 1
  }

  /** The ring after pushing `vs` into a zeroed ring, push `k` writing slot
      `k % BUFLEN`. */
  function Fill(vs: seq<uint32>): (ring: seq<uint32>)
    ensures |ring| == BUFLEN
    ensures vs != [] ==> ring[(|vs| - 1) % BUFLEN] == vs[|vs| - 1]
    decreases |vs|
  {
    if vs == [] then seq(BUFLEN, _ => 0)
    else Fill(vs[..|vs| - 1])[(|vs| - 1) % BUFLEN := vs[|vs| - 1]]
  }

  /** Two numbers less than `n` apart fall into different residues. */
  lemma ModDistinct(a: nat, b: nat, n: nat)
    requires a < b < a + n
    ensures a % n != b % n
  {
    var r, d := a % n, b - a;
    ModShift(a, d, n);
    if r + d < n {
      ModSmall(r + d, n);
    } else {
      ModWrap(r + d, n);
      ModSmall(r + d - n, n);
    }
  }

  /** Each of the last BUFLEN pushed samples is still in its slot. */
  lemma {:induction false} FillRecent(vs: seq<uint32>, i: nat)
    requires |vs| - BUFLEN <= i < |vs|
    ensures Fill(vs)[i % BUFLEN] == vs[i]
  {
    var n := |vs|;
    var pre := vs[..n - 1];
    assert Fill(vs) == Fill(pre)[(n - 1) % BUFLEN := vs[n - 1]];
    if i < n - 1 {
      ModDistinct(i, n - 1, BUFLEN);
      FillRecent(pre, i);
    }
  }

  /** Once the ring is full, the decode window anchored at the slot just written is
      the newest sample followed by the other BUFLEN - 1 samples from oldest to
      newest: the trigger gap is classified first, as a sync. */
  lemma DecodeOrder(vs: seq<uint32>)
    requires |vs| >= BUFLEN
    ensures Window(Fill(vs), (|vs| - 1) % BUFLEN) == [vs[|vs| - 1]] + vs[|vs| - BUFLEN..|vs| - 1]
  {
    forall m | |vs| - BUFLEN <= m < |vs|
      ensures Fill(vs)[m % BUFLEN] == vs[m]
    {
      FillRecent(vs, m);
    }
    WindowOrder(Fill(vs), vs);
  }

  /** DecodeOrder at the slot of the counter value that wrote the newest push. */
  lemma PushedWindow(pushed: seq<uint32>, c: uint32)
    requires BUFLEN <= |pushed| <= 0x1_0000_0000 && c as int == |pushed| - 1
    ensures Window(Fill(pushed), Slot(c)) == [pushed[|pushed| - 1]] + pushed[|pushed| - BUFLEN..|pushed| - 1]
  {
    DecodeOrder(pushed);
  }

  /** DecodeOrder for any ring that holds each of the last BUFLEN pushes in its
      slot. */
  lemma WindowOrder(ring: seq<uint32>, vs: seq<uint32>)
    requires |ring| == BUFLEN && |vs| >= BUFLEN
    requires forall m | |vs| - BUFLEN <= m < |vs| :: ring[m % BUFLEN] == vs[m]
    ensures Window(ring, (|vs| - 1) % BUFLEN) == [vs[|vs| - 1]] + vs[|vs| - BUFLEN..|vs| - 1]
  {
    var lhs, rhs := Window(ring, (|vs| - 1) % BUFLEN), [vs[|vs| - 1]] + vs[|vs| - BUFLEN..|vs| - 1];
    forall i | 0 <= i < BUFLEN
      ensures lhs[i] == rhs[i]
    {
      var m := if i == 0 then |vs| - 1 else |vs| - BUFLEN + i - 1;
      RingIndex(ring, |vs|, i, m);
    }
  }

  /** Position `i` of the window anchored at the slot of push `n - 1` is the slot
      of push `m`: that push itself for `i` = 0, else push `n - 1 - BUFLEN + i`. */
  lemma RingIndex(ring: seq<uint32>, n: nat, i: nat, m: nat)
    requires |ring| == BUFLEN && n >= BUFLEN && i < BUFLEN
    requires m == if i == 0 then n - 1 else n - BUFLEN + i - 1
    ensures Window(ring, (n - 1) % BUFLEN)[i] == ring[m % BUFLEN]
  {
    WindowAt(ring, (n - 1) % BUFLEN, i);
    ModShift(n - 1, i, BUFLEN);
    if i > 0 {
      ModWrap(n - 1 + i, BUFLEN);
    }
  }

  /** At the counter wrap the ring write position jumps from slot 595 to slot 0,
      because 2^32 is not a multiple of BUFLEN. */
  lemma CounterWrapJump()
    ensures Slot(0xFFFF_FFFF) == 595 && Slot(Next(0xFFFF_FFFF)) == 0
    ensures Slot(Next(0xFFFF_FFFF)) != (Slot(0xFFFF_FFFF) + 1) % BUFLEN
  {
  }

  /** With the receive loop's thresholds, the window 700, 200, 600, 200, 600, 700
      holds only syncs and Low halves (600 is above T2), and even with 500 in place of
      600 the pairs (Low, Mid) add no bit: neither window emits a word. */
  lemma ShortWindowsEmitNothing()
    ensures Classify(600, T1, T2) == High && Classify(500, T1, T2) == Mid
    ensures Run(Start, [700, 200, 600, 200, 600, 700], T1, T2, DCBLEN) == Start
    ensures Run(Start, [700, 200, 500, 200, 500, 700], T1, T2, DCBLEN).out == []
  {
  }

  /** What one iteration of the receive loop did. */
  datatype Outcome =
    | NoTrigger                                  // the interval was only stored
    | ShiftOverflow                              // the decode reached the 64-bit shift hazard
    | Decoded(count: nat, reading: Option<Reading>)

  /** `o` reports the decode `d`, whose words are the first ones of `written`. */
  ghost predicate Reports(d: Decoder, written: seq<bv64>, o: Outcome)
  {
    if d.undefined then o == ShiftOverflow
    else
      o.Decoded? && o.count == |d.out| && |d.out| <= |written| &&
      written[..|d.out|] == d.out && IsLatestPair(d.out, o.reading)
  }

  /** The receiver's static state: the interval ring, the decoder output buffer and
      the free-running sample counter. */
  class Receiver {
    const buffer: array<uint32>
    const outbuf: array<bv64>
    var counter: uint32
    /** Every interval pushed so far, oldest first. */
    ghost var pushed: seq<uint32>

    ghost predicate Valid()
      reads this, buffer
    {
      buffer.Length == BUFLEN && outbuf.Length == DCBLEN &&
      buffer as object != outbuf as object &&
      counter as int == |pushed| % 0x1_0000_0000 &&
      (|pushed| <= 0x1_0000_0000 ==> buffer[..] == Fill(pushed))
    }

    /** Zeroed static buffers and a counter starting at 0. */
    constructor ()
      ensures Valid() && pushed == [] && counter == 0
      ensures outbuf[..] == seq(DCBLEN, _ => 0)
      ensures fresh(buffer) && fresh(outbuf)
    {
      buffer := new uint32[BUFLEN](_ => 0);
      outbuf := new bv64[DCBLEN](_ => 0);
      counter := 0;
      pushed := [];
      new;
      assert buffer[..] == Fill([]);
      assert outbuf[..] == seq(DCBLEN, _ => 0);
    }

    /** Stores `val` at `counter % BUFLEN`, advances the counter with wrap-around and
        returns that slot as the decode anchor when `val` exceeds SENSOR_THRESHOLD. */
    method Push(val: uint32) returns (anchor: Option<nat>)
      requires Valid()
      modifies this, buffer
      ensures Valid()
      ensures pushed == old(pushed) + [val] && counter == Next(old(counter))
      ensures buffer[..] == old(buffer[..])[Slot(old(counter)) := val]
      ensures anchor == if val > SENSOR_THRESHOLD then Some(Slot(old(counter))) else None
    {
      var pos := counter as int % BUFLEN;
      buffer[pos] := val;
      counter := Next(counter);
      pushed := pushed + [val];
      if |pushed| <= 0x1_0000_0000 {
        assert pushed[..|pushed| - 1] == old(pushed);
      }
      anchor := if val > SENSOR_THRESHOLD then Some(pos) else None;
    }

    /** One iteration of the receive loop on the interval `val`: push it and, on a
        trigger, decode the ring from the slot just written into `outbuf` and extract
        the reading from the words decoded. */
    method OnInterval(val: uint32) returns (outcome: Outcome)
      requires Valid()
      modifies this, buffer, outbuf
      ensures Valid()
      ensures pushed == old(pushed) + [val] && counter == Next(old(counter))
      ensures buffer[..] == old(buffer[..])[Slot(old(counter)) := val]
      ensures val <= SENSOR_THRESHOLD ==> outcome == NoTrigger && outbuf[..] == old(outbuf[..])
      ensures val > SENSOR_THRESHOLD ==>
        Reports(Run(Start, Window(buffer[..], Slot(old(counter))), T1, T2, DCBLEN), outbuf[..], outcome)
      ensures val > SENSOR_THRESHOLD && BUFLEN <= |pushed| <= 0x1_0000_0000 ==>
        Window(buffer[..], Slot(old(counter))) == [val] + pushed[|pushed| - BUFLEN..|pushed| - 1]
    {
      ghost var n := |pushed|;
      var anchor := Push(val);
      ghost var ring := buffer[..];
      if BUFLEN <= |pushed| <= 0x1_0000_0000 {
        assert old(counter) as int == n;
        PushedWindow(pushed, old(counter));
      }
      if anchor.None? {
        outcome := NoTrigger;
      } else {
        assert buffer[..BUFLEN] == ring;
        var ret, undefined := DecodePlain2(T1, T2, anchor.value, buffer, BUFLEN, outbuf, DCBLEN);
        if undefined {
          outcome := ShiftOverflow;
        } else {
          var reading := None;
          if ret > 0 {
            reading := LatestPair(outbuf, ret);
          }
          outcome := Decoded(ret, reading);
        }
      }
      assert buffer[..] == ring;
    }
  }
}
