/**
 * `_decode_plain2`: one pass over a buffer of intervals in rotational order from a
 * start position, classifying each interval, pairing the symbols into bits and
 * writing finished non-zero 64-bit words into a bounded output buffer.
 */
module Decode {
  import opened Wrappers
  import opened Pulse

  /** Decodes the `inlen` intervals of `inbuf`, read from index `inpos` round to
      `inpos - 1`, with the classification thresholds `t1` and `t2`, into at most
      `outlen` words of `outbuf` (which may be absent). Returns the number of words
      written; `undefined` reports that the source would have shifted a 64-bit
      value by 64 or more, in which case the decode stops there. */
  method DecodePlain2(t1: uint32, t2: uint32, inpos: nat, inbuf: array<uint32>, inlen: nat,
                      outbuf: array?<bv64>, outlen: nat)
    returns (outpos: nat, undefined: bool)
    requires inlen <= inbuf.Length
    requires inbuf as object? != outbuf as object?  // a read-only input, a separate output
    requires outbuf != null ==> outlen <= outbuf.Length
    modifies outbuf
    ensures outpos <= outlen
    ensures outbuf == null || outlen == 0 ==> outpos == 0
    ensures var d := Run(Start, Window(inbuf[..inlen], inpos), t1, t2, Capacity(outbuf != null, outlen));
      outpos == |d.out| && undefined == d.undefined && (outbuf != null ==> outbuf[..outpos] == d.out)
    ensures outbuf != null ==> outbuf[outpos..] == old(outbuf[outpos..])
  {
    ghost var w := Window(inbuf[..inlen], inpos);
    ghost var cap := Capacity(outbuf != null, outlen);
    ghost var out: seq<bv64> := [];
    ghost var entry: seq<bv64> := if outbuf == null then [] else outbuf[..];
    var u64: bv64 := 0;
    var last: Symbol := High;
    var shift: uint32 := 63;
    outpos, undefined := 0, false;
    var i := 0;
    while i < inlen
      invariant 0 <= i <= inlen
      invariant outpos == |out| <= cap
      invariant outbuf != null ==> |entry| == outbuf.Length && outbuf[..outpos] == out
      invariant outbuf != null ==> outbuf[outpos..] == entry[outpos..]
      invariant Run(Start, w[..i], t1, t2, cap) == Decoder(Acc(u64, last, shift), out, undefined)
      invariant !undefined
    {
      ghost var before := Decoder(Acc(u64, last, shift), out, false);
      var pos := (inpos + i) % inlen;
      WindowAt(inbuf[..inlen], inpos, i);
      var val := Classify(inbuf[pos], t1, t2);
      var ok;
      u64, last, shift, ok := PairLocals(u64, last, shift, val);
      FeedBy(before, w[i], t1, t2, cap);
      if !ok {
        undefined := true;
        RunNext(Start, w, i, t1, t2, cap);
        break;
      }
      ghost var paired := Acc(u64, last, shift);
      u64, shift, outpos, out := EmitWord(outbuf, outlen, outpos, u64, last, shift, out, entry);
      RunNext(Start, w, i, t1, t2, cap);
      i := i + 1;
    }
    if undefined {
      RunStops(Start, w, i, t1, t2, cap);
    } else {
      assert w[..i] == w;
    }
    assert outbuf != null ==> old(outbuf[outpos..]) == entry[outpos..];
  }

  /** Lines 106-111 of the loop body: when the bit position has reached 0 with a
      non-zero word and the output buffer has room, the word is written at `outpos`
      and `u64` is cleared; `shift` stays 0. */
  method EmitWord(outbuf: array?<bv64>, outlen: nat, outpos: nat, u64: bv64, last: Symbol, shift: uint32,
                  ghost out: seq<bv64>, ghost entry: seq<bv64>)
    returns (u64': bv64, shift': uint32, outpos': nat, ghost out': seq<bv64>)
    requires outpos == |out| <= Capacity(outbuf != null, outlen)
    requires outbuf != null ==>
      outlen <= outbuf.Length == |entry| && outbuf[..outpos] == out && outbuf[outpos..] == entry[outpos..]
    modifies outbuf
    ensures Emit(Acc(u64, last, shift), out, Capacity(outbuf != null, outlen)) == Decoder(Acc(u64', last, shift'), out', false)
    ensures outpos' == |out'| <= Capacity(outbuf != null, outlen)
    ensures outbuf != null ==> outbuf[..outpos'] == out' && outbuf[outpos'..] == entry[outpos'..]
  {
    u64', shift', outpos', out' := u64, shift, outpos, out;
    if shift == 0 && u64 > 0 && outbuf != null && outlen > 0 && outpos < outlen {
      Put(outbuf, outpos, u64, out, entry);
      outpos' := outpos + 1;
      out' := out + [u64];
      shift' := 0;
      u64' := 0;
    }
  }

  /** `outbuf[outpos++] = u64` on an output buffer that holds the words `out`
      before position `outpos` and the entry contents `entry` from it on. */
  method Put(outbuf: array<bv64>, outpos: nat, word: bv64, ghost out: seq<bv64>, ghost entry: seq<bv64>)
    requires outpos < outbuf.Length == |entry|
    requires outbuf[..outpos] == out && outbuf[outpos..] == entry[outpos..]
    modifies outbuf
    ensures outbuf[..outpos + 1] == out + [word]
    ensures outbuf[outpos + 1..] == entry[outpos + 1..]
  {
    outbuf[outpos] := word;
    assert outbuf[..outpos + 1] == outbuf[..outpos] + [word];
    assert forall k :: outpos + 1 <= k < outbuf.Length ==> outbuf[k] == old(outbuf[outpos..])[k - outpos];
  }

  /** Lines 89-103 of the loop body on the symbol `val` of the current sample: a
      sync resets the word and the bit position; two consecutive non-sync symbols
      close a bit position (or-ing in bit `shift` for the pair (Mid, Low)); any other
      symbol becomes the pending half. `ok` is false, and nothing is changed, when
      the source would shift a 64-bit 1 by `shift` >= 64. */
  method PairLocals(u64: bv64, last: Symbol, shift: uint32, val: Symbol)
    returns (u64': bv64, last': Symbol, shift': uint32, ok: bool)
    ensures ok <==> Pair(Acc(u64, last, shift), val).Some?
    ensures ok ==> Pair(Acc(u64, last, shift), val) == Some(Acc(u64', last', shift'))
    ensures !ok ==> u64' == u64 && last' == last && shift' == shift
  {
    u64', last', shift', ok := u64, last, shift, true;
    if val == High {
      u64' := 0;
      shift' := 63;
    }
    if val != High && last' != High {
      if last' == Mid && val == Low {
        if shift' >= 64 {
          ok := false;
          return;
        }
        u64' := SetAt(u64', shift');
      }
      last' := High;
      shift' := Dec(shift');
    } else {
      last' := val;
    }
  }
}
