/**
 * The pulse decoder of the TFA receiver, as pure functions: classification of an
 * interval into a ternary symbol, the edge-pairing step on the decoder's locals,
 * the emission of a finished 64-bit word, and the run of the decoder over a whole
 * decode window. The imperative decoder in module Decode is proved against `Run`.
 */
module Pulse {
  import opened Wrappers

  /** An interval between two edges in microseconds, as the 32-bit unsigned value
      the edge interrupt delivers. */
  newtype uint32 = x: int | 0 <= x < 0x1_0000_0000

  /** The ternary symbol of an interval: 0, 1 and 2 in the source. `High` is the
      sync symbol; as the pending half of a pair it also means "nothing pending". */
  datatype Symbol = Low | Mid | High

  /** Numeric code of a symbol, as the source stores it in `val` and `last`. */
  function Code(s: Symbol): nat
  {
    match s
    case Low => 0
    case Mid => 1
    case High => 2
  }

  /** Classification against the two thresholds; a value equal to a threshold
      falls into the lower class. */
  function Classify(x: uint32, t1: uint32, t2: uint32): (s: Symbol)
    ensures s == High <==> x > t2
    ensures s == Mid <==> t1 < x <= t2
    ensures s == Low <==> x <= t1 && x <= t2
  {
    if x > t2 then High else if x > t1 then Mid else Low
  }

  /** The decoder's locals: the word under construction `u64`, the pending half of
      a pair `last`, and the bit position `shift`, an `unsigned` that wraps. */
  datatype Acc = Acc(u64: bv64, last: Symbol, shift: uint32)

  /** `--shift` on a 32-bit `unsigned`: 0 wraps round to 2^32 - 1. */
  function Dec(s: uint32): (r: uint32)
    ensures r as int == (s as int - 1) % 0x1_0000_0000
  {
    if s == 0 then 0xFFFF_FFFF else s - 1
  }

  /** The locals at the start of a decode, and again after every sync symbol. */
  const Fresh := Acc(0, High, 63)

  /** Bit `k` of a 64-bit word. */
  predicate Bit(w: bv64, k: bv64)
    requires k < 64
  {
    (w >> k) & 1 == 1
  }

  /** `w | (1ULL << s)`: bit `s` of `w` set. */
  function SetAt(w: bv64, s: uint32): bv64
    requires s < 64
  {
    w | (1 << (s as bv64))
  }

  /** One classified sample applied to the locals: a sync resets them, two
      consecutive non-sync symbols close a bit position (bit 1 for the pair
      (Mid, Low), bit 0 otherwise), any other symbol becomes the pending half.
      `None` stands for the undefined C shift `1ULL << shift` with shift >= 64. */
  function Pair(a: Acc, v: Symbol): (r: Option<Acc>)
    ensures r.None? <==> v == Low && a.last == Mid && a.shift >= 64
    ensures r.Some? ==> (r.value.last == High <==> v == High || a.last != High)
  {
    var a := if v == High then Acc(0, a.last, 63) else a;
    if v != High && a.last != High then
      if a.last == Mid && v == Low then
        if a.shift < 64 then Some(Acc(SetAt(a.u64, a.shift), High, Dec(a.shift))) else None
      else
        Some(Acc(a.u64, High, Dec(a.shift)))
    else
      Some(Acc(a.u64, v, a.shift))
  }

  /** The state of one decode: the locals, the words written to the output buffer so
      far, and whether an undefined shift has been reached (after which the C
      program's behaviour is not defined and the model stops). */
  datatype Decoder = Decoder(acc: Acc, out: seq<bv64>, undefined: bool)

  const Start := Decoder(Fresh, [], false)

  /** Emission after the pairing step: a non-zero word is written when the bit
      position is 0 and a slot of the `cap` slots is free; `shift` then stays 0. */
  function Emit(a: Acc, out: seq<bv64>, cap: nat): (r: Decoder)
    ensures !r.undefined
    ensures r.out == out || r.out == out + [a.u64]
    ensures r.out == out + [a.u64] <==> a.shift == 0 && a.u64 != 0 && |out| < cap
  {
    if a.shift == 0 && a.u64 > 0 && |out| < cap then
      Decoder(Acc(0, a.last, 0), out + [a.u64], false)
    else
      Decoder(a, out, false)
  }

  /** One loop iteration of the decoder on sample `x`. */
  function Feed(d: Decoder, x: uint32, t1: uint32, t2: uint32, cap: nat): (r: Decoder)
    ensures d.undefined ==> r == d
    ensures |d.out| <= |r.out| <= |d.out| + 1
  {
    if d.undefined then d
    else
      match Pair(d.acc, Classify(x, t1, t2))
      case None => d.(undefined := true)
      case Some(a) => Emit(a, d.out, cap)
  }

  /** The decoder run over the samples `xs` in order. */
  function Run(d: Decoder, xs: seq<uint32>, t1: uint32, t2: uint32, cap: nat): (r: Decoder)
    ensures d.undefined ==> r == d
    decreases |xs|
  {
    if xs == [] then d else Run(Feed(d, xs[0], t1, t2, cap), xs[1..], t1, t2, cap)
  }

  /** The samples of `s` in the order the decoder reads them: index (p + i) % |s|
      for i = 0 .. |s| - 1. */
  function Window(s: seq<uint32>, p: nat): (w: seq<uint32>)
    ensures |w| == |s|
  {
    seq(|s|, i requires 0 <= i < |s| => s[(p + i) % |s|])
  }

  /** The number of usable output slots: none when the output buffer is absent. */
  function Capacity(present: bool, outlen: nat): nat
  {
    if present then outlen else 0
  }

  // ---------------------------------------------------------------------------
  // Classification

  /** Classification is monotone in the interval. */
  lemma ClassifyMonotone(x: uint32, y: uint32, t1: uint32, t2: uint32)
    requires x <= y
    ensures Code(Classify(x, t1, t2)) <= Code(Classify(y, t1, t2))
  {
  }

  // ---------------------------------------------------------------------------
  // The pairing step

  /** A sync symbol resets the locals whatever they were. */
  lemma PairSync(a: Acc)
    ensures Pair(a, High) == Some(Fresh)
  {
  }

  /** A pending half with no partner yet: the symbol becomes the pending half and
      the word and the bit position do not change. */
  lemma PairPending(a: Acc, v: Symbol)
    requires v != High && a.last == High
    ensures Pair(a, v) == Some(a.(last := v))
  {
  }

  /** Two consecutive non-sync symbols: the step is undefined exactly when it would
      set a bit at a position of 64 or more; otherwise it consumes the pending half
      and lowers the bit position by one, wrapping 0 round to 2^32 - 1. */
  lemma PairStep(a: Acc, v: Symbol)
    requires v != High && a.last != High
    ensures Pair(a, v).None? <==> (a.last == Mid && v == Low && a.shift >= 64)
    ensures Pair(a, v).Some? ==> Pair(a, v).value.last == High && Pair(a, v).value.shift == Dec(a.shift)
  {
  }

  /** Two consecutive non-sync symbols set bit `shift` -- and no other bit -- for
      the pair (Mid, Low); any other pair leaves the word as it was. */
  lemma PairBit(a: Acc, v: Symbol, k: bv64)
    requires v != High && a.last != High && Pair(a, v).Some?
    requires k < 64
    ensures a.last == Mid && v == Low ==>
      (Bit(Pair(a, v).value.u64, k) <==> Bit(a.u64, k) || k == a.shift as bv64)
    ensures !(a.last == Mid && v == Low) ==> Pair(a, v).value.u64 == a.u64
  {
    if a.last == Mid && v == Low {
      MidLowBit(a, k);
    }
  }

  /** Or-ing in bit `s` sets bit `s` and leaves every other bit as it was. */
  lemma SetBit(w: bv64, s: uint32, k: bv64)
    requires s < 64 && k < 64
    ensures Bit(SetAt(w, s), k) <==> Bit(w, k) || k == s as bv64
  {
    var sb := s as bv64;
    assert sb < 64;
    SetBitBv(w, sb, k);
    assert SetAt(w, s) == w | (1 << sb);
  }

  /** The pair (Mid, Low) sets bit `shift` and keeps every other bit. */
  lemma MidLowBit(a: Acc, k: bv64)
    requires a.last == Mid && a.shift < 64 && k < 64
    ensures Bit(Pair(a, Low).value.u64, k) <==> Bit(a.u64, k) || k == a.shift as bv64
  {
    SetBit(a.u64, a.shift, k);
  }

  lemma SetBitBv(w: bv64, s: bv64, k: bv64)
    requires s < 64 && k < 64
    ensures Bit(w | (1 << s), k) <==> Bit(w, k) || k == s
  {
  }

  // ---------------------------------------------------------------------------
  // Emission

  /** A sample either leaves the output as it is or appends one word; a word is
      appended exactly when the pairing step is defined, the bit position after it
      is 0, the word is non-zero and the output has room, and right after that
      `u64` is 0 and `shift` is 0, not 63. */
  lemma FeedEmission(d: Decoder, x: uint32, t1: uint32, t2: uint32, cap: nat)
    requires !d.undefined
    ensures var e := Feed(d, x, t1, t2, cap);
      e.out == d.out ||
      (Pair(d.acc, Classify(x, t1, t2)).Some? &&
       var a := Pair(d.acc, Classify(x, t1, t2)).value;
       |d.out| < cap && a.shift == 0 && a.u64 != 0 &&
       e.out == d.out + [a.u64] && e.acc == Acc(0, a.last, 0) && !e.undefined)
    ensures var p := Pair(d.acc, Classify(x, t1, t2));
      p.Some? && p.value.shift == 0 && p.value.u64 != 0 && |d.out| < cap ==>
        Feed(d, x, t1, t2, cap).out == d.out + [p.value.u64]
  {
  }

  /** One sample on a defined state: the outcome of the pairing step decides it. */
  lemma FeedBy(d: Decoder, x: uint32, t1: uint32, t2: uint32, cap: nat)
    requires !d.undefined
    ensures Pair(d.acc, Classify(x, t1, t2)).None? ==> Feed(d, x, t1, t2, cap) == d.(undefined := true)
    ensures Pair(d.acc, Classify(x, t1, t2)).Some? ==>
      Feed(d, x, t1, t2, cap) == Emit(Pair(d.acc, Classify(x, t1, t2)).value, d.out, cap)
  {
  }

  // ---------------------------------------------------------------------------
  // Runs

  /** Running over `xs + [x]` is running over `xs` and then feeding `x`. */
  lemma {:induction false} RunSnoc(d: Decoder, xs: seq<uint32>, x: uint32, t1: uint32, t2: uint32, cap: nat)
    ensures Run(d, xs + [x], t1, t2, cap) == Feed(Run(d, xs, t1, t2, cap), x, t1, t2, cap)
    decreases |xs|
  {
    if xs == [] {
      assert xs + [x] == [x];
    } else {
      assert (xs + [x])[1..] == xs[1..] + [x];
      RunSnoc(Feed(d, xs[0], t1, t2, cap), xs[1..], x, t1, t2, cap);
    }
  }

  /** Running over `xs + ys` is running over `xs` and then over `ys`. */
  lemma {:induction false} RunAppend(d: Decoder, xs: seq<uint32>, ys: seq<uint32>, t1: uint32, t2: uint32, cap: nat)
    ensures Run(d, xs + ys, t1, t2, cap) == Run(Run(d, xs, t1, t2, cap), ys, t1, t2, cap)
    decreases |xs|
  {
    if xs != [] {
      assert (xs + ys)[1..] == xs[1..] + ys;
      RunAppend(Feed(d, xs[0], t1, t2, cap), xs[1..], ys, t1, t2, cap);
    } else {
      assert xs + ys == ys;
    }
  }

  /** The run over the first `i + 1` samples feeds sample `i` to the run over the
      first `i`. */
  lemma RunNext(d: Decoder, xs: seq<uint32>, i: nat, t1: uint32, t2: uint32, cap: nat)
    requires i < |xs|
    ensures Run(d, xs[..i + 1], t1, t2, cap) == Feed(Run(d, xs[..i], t1, t2, cap), xs[i], t1, t2, cap)
  {
    assert xs[..i + 1] == xs[..i] + [xs[i]];
    RunSnoc(d, xs[..i], xs[i], t1, t2, cap);
  }

  /** A run that becomes undefined at sample `j` ends as it was there. */
  lemma RunStops(d: Decoder, xs: seq<uint32>, j: nat, t1: uint32, t2: uint32, cap: nat)
    requires j < |xs| && Run(d, xs[..j + 1], t1, t2, cap).undefined
    ensures Run(d, xs, t1, t2, cap) == Run(d, xs[..j + 1], t1, t2, cap)
  {
    var head, tail := xs[..j + 1], xs[j + 1..];
    SplitAt(xs, j + 1);
    RunAppend(d, head, tail, t1, t2, cap);
  }

  lemma SplitAt(xs: seq<uint32>, i: nat)
    requires i <= |xs|
    ensures xs[..i] + xs[i..] == xs
  {
  }

  /** Words are only ever appended, and never more than the capacity: with a
      capacity of 0 (no output buffer, or a length of 0) nothing is written. */
  lemma {:induction false} RunOutput(d: Decoder, xs: seq<uint32>, t1: uint32, t2: uint32, cap: nat)
    requires |d.out| <= cap
    ensures var e := Run(d, xs, t1, t2, cap);
      |d.out| <= |e.out| <= cap && e.out[..|d.out|] == d.out
    decreases |xs|
  {
    if xs != [] {
      var f := Feed(d, xs[0], t1, t2, cap);
      if !d.undefined {
        FeedEmission(d, xs[0], t1, t2, cap);
      }
      RunOutput(f, xs[1..], t1, t2, cap);
      var e := Run(f, xs[1..], t1, t2, cap);
      assert e.out[..|d.out|] == e.out[..|f.out|][..|d.out|];
    }
  }

  /** The invariant of a decoder state with `n` samples still to come: bit 0 of the
      word under construction is set only after the bit position has wrapped below
      0, too far from 0 to come back within `n` samples; and every word written so
      far is non-zero with bit 0 clear. */
  ghost predicate WellFormed(d: Decoder, n: nat)
  {
    (Bit(d.acc.u64, 0) ==> d.acc.shift as int >= 64 + n) &&
    forall j :: 0 <= j < |d.out| ==> d.out[j] != 0 && !Bit(d.out[j], 0)
  }

  /** The pairing step keeps the condition on bit 0. */
  lemma PairBitZero(a: Acc, v: Symbol, n: nat)
    requires n < 0xFFFF_FFC0
    requires Bit(a.u64, 0) ==> a.shift as int >= 64 + n + 1
    requires Pair(a, v).Some?
    ensures var b := Pair(a, v).value; Bit(b.u64, 0) ==> b.shift as int >= 64 + n
  {
    if v != High && a.last != High {
      if a.last == Mid && v == Low && a.shift > 0 {
        SetBit(a.u64, a.shift, 0);
      }
    }
  }

  lemma FeedWellFormed(d: Decoder, x: uint32, t1: uint32, t2: uint32, cap: nat, n: nat)
    requires n < 0xFFFF_FFC0
    requires WellFormed(d, n + 1)
    ensures WellFormed(Feed(d, x, t1, t2, cap), n)
  {
    if !d.undefined {
      var p := Pair(d.acc, Classify(x, t1, t2));
      if p.Some? {
        PairBitZero(d.acc, Classify(x, t1, t2), n);
        var a := p.value;
        if a.shift == 0 && a.u64 > 0 && |d.out| < cap {
          assert !Bit(a.u64, 0);
          assert !Bit(0, 0);
        }
      }
    }
  }

  /** Every word a decode of at most 2^32 - 64 samples writes is non-zero and has
      bit 0 clear: a word is written as soon as the bit position reaches 0, before
      the pair for bit 0 is decoded, so a word carries the 63 bits 63 down to 1. */
  lemma {:induction false} RunWords(d: Decoder, xs: seq<uint32>, t1: uint32, t2: uint32, cap: nat)
    requires |xs| <= 0xFFFF_FFC0
    requires WellFormed(d, |xs|)
    ensures var e := Run(d, xs, t1, t2, cap);
      forall j :: 0 <= j < |e.out| ==> e.out[j] != 0 && !Bit(e.out[j], 0)
    decreases |xs|
  {
    if xs != [] {
      FeedWellFormed(d, xs[0], t1, t2, cap, |xs| - 1);
      RunWords(Feed(d, xs[0], t1, t2, cap), xs[1..], t1, t2, cap);
      assert Run(d, xs, t1, t2, cap) == Run(Feed(d, xs[0], t1, t2, cap), xs[1..], t1, t2, cap);
    }
  }

  /** The words of a decode from the start. */
  lemma StartWords(xs: seq<uint32>, t1: uint32, t2: uint32, cap: nat)
    requires |xs| <= 0xFFFF_FFC0
    ensures var e := Run(Start, xs, t1, t2, cap);
      forall j :: 0 <= j < |e.out| ==> e.out[j] != 0 && !Bit(e.out[j], 0)
  {
    assert !Bit(0, 0);
    RunWords(Start, xs, t1, t2, cap);
  }

  /** After a word has been written (`u64` and `shift` both 0), no further word is
      written before the next sync symbol: the next bit pair wraps `shift` round to
      2^32 - 1, far from 0. So one sync-delimited frame yields at most one word. */
  lemma OneWordPerFrame(d: Decoder, xs: seq<uint32>, t1: uint32, t2: uint32, cap: nat)
    requires d.acc.shift == 0 && d.acc.u64 == 0
    requires |xs| <= 0xFFFF_FFC0
    requires forall i :: 0 <= i < |xs| ==> xs[i] <= t2
    ensures Run(d, xs, t1, t2, cap).out == d.out
  {
    AfterEmission(d, xs, t1, t2, cap);
  }

  /** The states after an emission: spent, or zero word at bit position 0, or a bit
      position that cannot come back to 0 within the `n` samples to come. */
  ghost predicate Spent(d: Decoder, n: nat)
  {
    d.undefined || (d.acc.shift == 0 && d.acc.u64 == 0) || d.acc.shift as int >= 64 + n
  }

  lemma FeedSpent(d: Decoder, x: uint32, t1: uint32, t2: uint32, cap: nat, n: nat)
    requires n < 0xFFFF_FFC0
    requires Spent(d, n + 1) && x <= t2
    ensures Spent(Feed(d, x, t1, t2, cap), n) && Feed(d, x, t1, t2, cap).out == d.out
  {
    if !d.undefined {
      var v := Classify(x, t1, t2);
      var p := Pair(d.acc, v);
      if p.Some? {
        var a := p.value;
        if v != High && d.acc.last != High {
          assert a.shift == Dec(d.acc.shift);
        } else {
          assert a.shift == d.acc.shift && a.u64 == d.acc.u64;
        }
      }
    }
  }

  lemma {:induction false} AfterEmission(d: Decoder, xs: seq<uint32>, t1: uint32, t2: uint32, cap: nat)
    requires Spent(d, |xs|)
    requires |xs| <= 0xFFFF_FFC0
    requires forall i :: 0 <= i < |xs| ==> xs[i] <= t2
    ensures Run(d, xs, t1, t2, cap).out == d.out
    decreases |xs|
  {
    if xs != [] {
      FeedSpent(d, xs[0], t1, t2, cap, |xs| - 1);
      AfterEmission(Feed(d, xs[0], t1, t2, cap), xs[1..], t1, t2, cap);
    }
  }

  // ---------------------------------------------------------------------------
  // A full frame writes its word

  /** The samples of the pairs `ps`, first sample of each pair first. */
  function FrameSamples(ps: seq<(uint32, uint32)>): (xs: seq<uint32>)
    ensures |xs| == 2 * |ps|
    decreases |ps|
  {
    if ps == [] then [] else [ps[0].0, ps[0].1] + FrameSamples(ps[1..])
  }

  /** The pair `p` closes a bit position with a 1: it is (Mid, Low). Every other
      pair of non-sync symbols closes it with a 0. */
  predicate OneBit(p: (uint32, uint32), t1: uint32, t2: uint32)
  {
    Classify(p.0, t1, t2) == Mid && Classify(p.1, t1, t2) == Low
  }

  /** The bits the pairs `ps` stand for, most significant first. */
  function Bits(ps: seq<(uint32, uint32)>, t1: uint32, t2: uint32): (bs: seq<bool>)
    ensures |bs| == |ps|
  {
    seq(|ps|, j requires 0 <= j < |ps| => OneBit(ps[j], t1, t2))
  }

  /** No sample of the pairs `ps` is a sync. */
  predicate NoSync(ps: seq<(uint32, uint32)>, t2: uint32)
  {
    forall j :: 0 <= j < |ps| ==> ps[j].0 <= t2 && ps[j].1 <= t2
  }

  /** The word the pairs `bs` build on `w` from bit position `s` down, one position
      per pair, or-ing in the bit for each 1 as the decoder does. */
  function Build(w: bv64, bs: seq<bool>, s: uint32): bv64
    requires |bs| <= s as int <= 63
    decreases |bs|
  {
    if bs == [] then w else Build(if bs[0] then SetAt(w, s) else w, bs[1..], s - 1)
  }

  /** The word of a frame: bits 63 down to 64 - |bs|. */
  function FrameWord(bs: seq<bool>): bv64
    requires |bs| <= 63
  {
    Build(0, bs, 63)
  }

  /** Bit `p` of the built word is set exactly when it was set in `w` or it is the
      position `s - i` of a 1 at `bs[i]`. */
  lemma {:induction false} BuildBits(w: bv64, bs: seq<bool>, s: uint32, p: nat)
    requires |bs| <= s as int <= 63 && p < 64
    ensures Bit(Build(w, bs, s), p as bv64) <==>
      Bit(w, p as bv64) || (s as int - |bs| < p <= s as int && bs[s as int - p])
    decreases |bs|
  {
    if bs != [] {
      var w' := if bs[0] then SetAt(w, s) else w;
      BuildBits(w', bs[1..], s - 1, p);
      if bs[0] {
        SetBit(w, s, p as bv64);
        BvInjective(p, s as int);
      }
      if s as int - |bs| < p < s as int {
        assert bs[1..][s as int - 1 - p] == bs[s as int - p];
      }
    }
  }

  /** Bit `p` of the frame word is set exactly when `p` is the position 63 - j of a
      1 at `bs[j]`; the bits below the frame's last position are clear. */
  lemma FrameWordBits(bs: seq<bool>, p: nat)
    requires |bs| <= 63 && p < 64
    ensures Bit(FrameWord(bs), p as bv64) <==> 63 - |bs| < p && bs[63 - p]
  {
    BuildBits(0, bs, 63, p);
    BitZero(p as bv64);
  }

  /** A frame with a 1 builds a non-zero word. */
  lemma FrameWordNonZero(bs: seq<bool>, p: nat)
    requires |bs| <= 63 && 63 - |bs| < p < 64 && bs[63 - p]
    ensures FrameWord(bs) != 0
  {
    FrameWordBits(bs, p);
    BitZero(p as bv64);
  }

  /** Distinct bit positions are distinct bit-vectors. */
  lemma BvInjective(p: int, q: int)
    requires 0 <= p < 64 && 0 <= q < 64
    ensures p as bv64 == q as bv64 <==> p == q
  {
    SmallBv(p);
    SmallBv(q);
  }

  lemma SmallBv(p: int)
    requires 0 <= p < 64
    ensures p as bv64 == (p as bv8) as bv64 && (p as bv8) as int == p
  {
  }

  /** The zero word has no bit set. */
  lemma BitZero(k: bv64)
    requires k < 64
    ensures !Bit(0, k)
  {
  }

  /** Pairs with no 1 build nothing. */
  lemma {:induction false} BuildZero(w: bv64, bs: seq<bool>, s: uint32)
    requires |bs| <= s as int <= 63
    requires forall j :: 0 <= j < |bs| ==> !bs[j]
    ensures Build(w, bs, s) == w
    decreases |bs|
  {
    if bs != [] {
      BuildZero(w, bs[1..], s - 1);
    }
  }

  /** Two samples in a row. */
  lemma RunTwo(d: Decoder, x: uint32, y: uint32, t1: uint32, t2: uint32, cap: nat)
    ensures Run(d, [x, y], t1, t2, cap) == Feed(Feed(d, x, t1, t2, cap), y, t1, t2, cap)
  {
    assert [x, y][1..] == [y] && [y][1..] == [];
    assert Run(d, [x, y], t1, t2, cap) == Run(Feed(d, x, t1, t2, cap), [y], t1, t2, cap);
  }

  /** One pair of a frame, with nothing pending and a bit position `s` of 2 to 63:
      a (Mid, Low) pair or-s in bit `s`, any other pair of non-sync samples leaves
      the word; the bit position drops to `s - 1` and nothing is written. */
  lemma FramePair(d: Decoder, x: uint32, y: uint32, t1: uint32, t2: uint32, cap: nat)
    requires !d.undefined && d.acc.last == High && 1 < d.acc.shift <= 63
    requires x <= t2 && y <= t2
    ensures Run(d, [x, y], t1, t2, cap) ==
      Decoder(Acc(if OneBit((x, y), t1, t2) then SetAt(d.acc.u64, d.acc.shift) else d.acc.u64,
                  High, d.acc.shift - 1), d.out, false)
  {
    RunTwo(d, x, y, t1, t2, cap);
  }

  /** The last pair of a frame, at bit position 1: a (Mid, Low) pair or-s in bit 1,
      the bit position reaches 0 and the emission check runs on the word. */
  lemma FrameLastPair(d: Decoder, x: uint32, y: uint32, t1: uint32, t2: uint32, cap: nat)
    requires !d.undefined && d.acc.last == High && d.acc.shift == 1
    requires x <= t2 && y <= t2
    ensures Run(d, [x, y], t1, t2, cap) ==
      Emit(Acc(if OneBit((x, y), t1, t2) then SetAt(d.acc.u64, 1) else d.acc.u64, High, 0), d.out, cap)
  {
    RunTwo(d, x, y, t1, t2, cap);
  }

  /** The pairs of a frame, with no sync among them, nothing pending and a bit
      position `s` equal to their number, build their bits into the word from
      position `s` down to 1; the bit position reaches 0 with the last pair, and the
      emission check decides whether the word is written. */
  lemma {:induction false} FrameRun(d: Decoder, ps: seq<(uint32, uint32)>, t1: uint32, t2: uint32, cap: nat)
    requires !d.undefined && d.acc.last == High
    requires NoSync(ps, t2)
    requires 0 < |ps| == d.acc.shift as int <= 63
    ensures Run(d, FrameSamples(ps), t1, t2, cap) ==
      Emit(Acc(Build(d.acc.u64, Bits(ps, t1, t2), d.acc.shift), High, 0), d.out, cap)
    decreases |ps|
  {
    var s, x, y := d.acc.shift, ps[0].0, ps[0].1;
    var w' := if OneBit((x, y), t1, t2) then SetAt(d.acc.u64, s) else d.acc.u64;
    var rest := FrameSamples(ps[1..]);
    FrameFront(ps, t1, t2);
    RunAppend(d, [x, y], rest, t1, t2, cap);
    if |ps| == 1 {
      FrameLastPair(d, x, y, t1, t2, cap);
    } else {
      FramePair(d, x, y, t1, t2, cap);
      FrameRun(Decoder(Acc(w', High, s - 1), d.out, false), ps[1..], t1, t2, cap);
    }
  }

  /** A frame is its first pair followed by the rest, in samples, in bits and in
      the absence of syncs. */
  lemma FrameFront(ps: seq<(uint32, uint32)>, t1: uint32, t2: uint32)
    requires ps != []
    ensures FrameSamples(ps) == [ps[0].0, ps[0].1] + FrameSamples(ps[1..])
    ensures Bits(ps, t1, t2)[0] == OneBit(ps[0], t1, t2)
    ensures Bits(ps, t1, t2)[1..] == Bits(ps[1..], t1, t2)
    ensures NoSync(ps, t2) ==> NoSync(ps[1..], t2) && ps[0].0 <= t2 && ps[0].1 <= t2
    ensures |ps| == 1 ==> FrameSamples(ps[1..]) == []
  {
    BitsFront(ps, t1, t2);
    if NoSync(ps, t2) {
      NoSyncFront(ps, t2);
    }
  }

  lemma BitsFront(ps: seq<(uint32, uint32)>, t1: uint32, t2: uint32)
    requires ps != []
    ensures Bits(ps, t1, t2)[1..] == Bits(ps[1..], t1, t2)
  {
    var bs, tail := Bits(ps, t1, t2), Bits(ps[1..], t1, t2);
    forall k | 0 <= k < |tail|
      ensures bs[1..][k] == tail[k]
    {
      assert ps[1..][k] == ps[k + 1];
    }
  }

  lemma NoSyncFront(ps: seq<(uint32, uint32)>, t2: uint32)
    requires ps != [] && NoSync(ps, t2)
    ensures NoSync(ps[1..], t2) && ps[0].0 <= t2 && ps[0].1 <= t2
  {
    forall k | 0 <= k < |ps| - 1
      ensures ps[1..][k].0 <= t2 && ps[1..][k].1 <= t2
    {
      assert ps[1..][k] == ps[k + 1];
    }
  }

  /** A frame of 63 pairs after a sync, with no sync among them, writes its word
      when some pair is (Mid, Low) and the output has room, and writes nothing when
      no pair is (Mid, Low). */
  lemma FrameEmits(d: Decoder, ps: seq<(uint32, uint32)>, t1: uint32, t2: uint32, cap: nat)
    requires !d.undefined && d.acc == Fresh
    requires NoSync(ps, t2)
    requires |ps| == 63
    ensures var e := Run(d, FrameSamples(ps), t1, t2, cap);
      !e.undefined &&
      ((exists j :: 0 <= j < 63 && OneBit(ps[j], t1, t2)) && |d.out| < cap ==>
        e.out == d.out + [FrameWord(Bits(ps, t1, t2))]) &&
      ((forall j :: 0 <= j < 63 ==> !OneBit(ps[j], t1, t2)) ==> e.out == d.out)
  {
    var bs := Bits(ps, t1, t2);
    FrameRun(d, ps, t1, t2, cap);
    if j :| 0 <= j < 63 && OneBit(ps[j], t1, t2) {
      assert bs[j];
      FrameWordNonZero(bs, 63 - j);
    } else {
      BuildZero(0, bs, 63);
    }
  }

  // ---------------------------------------------------------------------------
  // The undefined shift is reachable

  /** `2k` short intervals from a state with nothing pending and a zero word lower
      the bit position by `k`, modulo 2^32, and write nothing. */
  lemma {:induction false} ZeroPairs(d: Decoder, x: uint32, k: nat, t1: uint32, t2: uint32, cap: nat)
    requires !d.undefined && d.acc.last == High && d.acc.u64 == 0
    requires x <= t1 && x <= t2
    requires k < 0x1_0000_0000
    ensures Run(d, seq(2 * k, _ => x), t1, t2, cap) ==
            Decoder(Acc(0, High, Sub(d.acc.shift, k)), d.out, false)
    decreases k
  {
    if k > 0 {
      var xs := seq(2 * k, _ => x);
      var d1 := Feed(d, x, t1, t2, cap);
      assert d1 == Decoder(Acc(0, Low, d.acc.shift), d.out, false);
      var d2 := Feed(d1, x, t1, t2, cap);
      assert d2 == Decoder(Acc(0, High, Dec(d.acc.shift)), d.out, false);
      assert xs == [x, x] + seq(2 * (k - 1), _ => x);
      RunAppend(d, [x, x], seq(2 * (k - 1), _ => x), t1, t2, cap);
      assert [x, x][1..] == [x] && [x][1..] == [];
      assert Run(d1, [x], t1, t2, cap) == Run(d2, [], t1, t2, cap);
      assert Run(d, [x, x], t1, t2, cap) == d2;
      ZeroPairs(d2, x, k - 1, t1, t2, cap);
      assert Sub(Dec(d.acc.shift), k - 1) == Sub(d.acc.shift, k);
    }
  }

  /** `k` decrements of a 32-bit `unsigned`. */
  function Sub(s: uint32, k: nat): uint32
  {
    ((s as int - k) % 0x1_0000_0000) as uint32
  }

  /** A window of 128 short intervals followed by one (Mid, Low) pair makes the
      source shift a 64-bit one by 2^32 - 1: after 64 zero bits the bit position has
      wrapped below 0, and the next 1 bit is the undefined `1ULL << shift`. */
  lemma ShiftWrapHazard(lo: uint32, mid: uint32, t1: uint32, t2: uint32, cap: nat)
    requires lo <= t1 && lo <= t2
    requires t1 < mid <= t2
    ensures Run(Start, seq(128, _ => lo) + [mid, lo], t1, t2, cap).undefined
  {
    ZeroPairs(Start, lo, 64, t1, t2, cap);
    var d := Run(Start, seq(128, _ => lo), t1, t2, cap);
    assert d == Decoder(Acc(0, High, 0xFFFF_FFFF), [], false);
    RunAppend(Start, seq(128, _ => lo), [mid, lo], t1, t2, cap);
    var d1 := Feed(d, mid, t1, t2, cap);
    assert d1 == Decoder(Acc(0, Mid, 0xFFFF_FFFF), [], false);
    assert [mid, lo][1..] == [lo] && [lo][1..] == [];
    assert Run(d1, [lo], t1, t2, cap) == Run(Feed(d1, lo, t1, t2, cap), [], t1, t2, cap);
    assert Run(d, [mid, lo], t1, t2, cap) == Feed(d1, lo, t1, t2, cap);
  }

  // ---------------------------------------------------------------------------
  // History is forgotten at a sync

  /** The decode after a sync symbol depends only on the words already written, not
      on the locals before the sync. */
  lemma SyncForgets(d1: Decoder, d2: Decoder, x: uint32, xs: seq<uint32>, t1: uint32, t2: uint32, cap: nat)
    requires !d1.undefined && !d2.undefined && d1.out == d2.out
    requires x > t2
    ensures Run(d1, [x] + xs, t1, t2, cap) == Run(d2, [x] + xs, t1, t2, cap)
  {
    assert Feed(d1, x, t1, t2, cap) == Feed(d2, x, t1, t2, cap);
    assert ([x] + xs)[1..] == xs;
  }

  // ---------------------------------------------------------------------------
  // The decode window

  /** Sample `i` of the window is sample (p + i) % |s| of the buffer. */
  lemma WindowAt(s: seq<uint32>, p: nat, i: nat)
    requires i < |s|
    ensures Window(s, p)[i] == s[(p + i) % |s|]
  {
  }

  /** The window starting at `p` is the rotation of the buffer at `p % |s|`, so it
      reads each sample exactly once. */
  lemma WindowRotation(s: seq<uint32>, p: nat)
    requires |s| > 0
    ensures Window(s, p) == s[p % |s|..] + s[..p % |s|]
    ensures multiset(Window(s, p)) == multiset(s)
  {
    var n := |s|;
    var q := p % n;
    var r := s[q..] + s[..q];
    forall i | 0 <= i < n
      ensures Window(s, p)[i] == r[i]
    {
      ModShift(p, i, n);
      if i < n - q {
        ModSmall(q + i, n);
      } else {
        ModSmall(q + i - n, n);
        ModWrap(q + i, n);
      }
    }
    assert s == s[..q] + s[q..];
  }

  lemma ModShift(p: nat, i: nat, n: nat)
    requires n > 0
    ensures (p + i) % n == (p % n + i) % n
  {
    var k := p / n;
    assert p == k * n + p % n;
    ModMultiple(p % n + i, k, n);
  }

  lemma {:induction false} ModMultiple(a: nat, k: nat, n: nat)
    requires n > 0
    ensures (k * n + a) % n == a % n
    decreases k
  {
    if k > 0 {
      ModMultiple(a, k - 1, n);
      assert k * n + a == (k - 1) * n + a + n;
      ModWrap((k - 1) * n + a + n, n);
    }
  }

  lemma ModWrap(a: nat, n: nat)
    requires n > 0 && a >= n
    ensures a % n == (a - n) % n
  {
    DivMod(a, n, (a - n) / n + 1, (a - n) % n);
  }

  lemma ModSmall(a: nat, n: nat)
    requires a < n
    ensures a % n == a
  {
    DivMod(a, n, 0, a);
  }

  /** Quotient and remainder are unique. */
  lemma DivMod(a: int, n: int, q: int, r: int)
    requires n > 0 && 0 <= r < n && a == q * n + r
    ensures a / n == q && a % n == r
  {
    var q', r' := a / n, a % n;
    assert (q' - q) * n == r - r';
    if q' > q { MulAtLeast(q' - q, n); }
    if q > q' { MulAtLeast(q - q', n); }
  }

  lemma MulAtLeast(x: int, n: int)
    requires x >= 1 && n > 0
    ensures x * n >= n
  {
  }
}
