/**
 * Word extraction after a decode: the decoded words are scanned from the most
 * recently written one backwards, and at most two values are kept, the second only
 * if it differs from the first. A reading exists only when two values were kept.
 */
module Extract {
  import opened Wrappers

  /** The two values of a sensor reading (`values[0]` and `values[1]` of the
      source's sensor data): the most recent word and the latest word before it
      that differs from it. */
  datatype Reading = Reading(first: bv64, second: bv64)

  /** `r` is what scanning `ws` from its end keeps: nothing when all words are equal
      (or there are none); otherwise the last word and the latest earlier word that
      differs from it. */
  ghost predicate IsLatestPair(ws: seq<bv64>, r: Option<Reading>)
  {
    match r
    case None => forall k :: 0 <= k < |ws| ==> ws[k] == ws[|ws| - 1]
    case Some(rd) =>
      |ws| >= 2 && rd.first == ws[|ws| - 1] && rd.second != rd.first &&
      exists j :: 0 <= j < |ws| - 1 && ws[j] == rd.second &&
        forall k :: j < k < |ws| ==> ws[k] == rd.first
  }

  /** The extraction loop over `outbuf[0..ret)`, scanning `outbuf[ret - 1]` down to
      `outbuf[0]` and filling the two value slots through a moving position. */
  method LatestPair(outbuf: array<bv64>, ret: nat) returns (reading: Option<Reading>)
    requires ret <= outbuf.Length
    ensures IsLatestPair(outbuf[..ret], reading)
  {
    var values := new bv64[2];
    var pos := 0;
    var i := 1;
    while i <= ret
      invariant 1 <= i <= ret + 1
      invariant 0 <= pos <= 2
      invariant pos == 0 <==> i == 1
      invariant pos > 0 ==> values[0] == outbuf[ret - 1]
      invariant pos == 1 ==> forall k :: ret - i < k < ret ==> outbuf[k] == values[0]
      invariant pos == 2 ==>
        values[1] != values[0] &&
        exists j :: ret - i < j < ret - 1 && outbuf[j] == values[1] &&
          forall k :: j < k < ret ==> outbuf[k] == values[0]
    {
      if pos == 0 || (pos < 2 && values[pos - 1] != outbuf[ret - i]) {
        values[pos] := outbuf[ret - i];
        pos := pos + 1;
      }
      i := i + 1;
    }
    if pos == 2 {
      reading := Some(Reading(values[0], values[1]));
    } else {
      reading := None;
    }
  }

  /** A scan result is determined by the words: there is only one. */
  lemma LatestPairUnique(ws: seq<bv64>, r1: Option<Reading>, r2: Option<Reading>)
    requires IsLatestPair(ws, r1) && IsLatestPair(ws, r2)
    ensures r1 == r2
  {
    if r1.Some? && r2.Some? {
      var j1 :| 0 <= j1 < |ws| - 1 && ws[j1] == r1.value.second &&
        forall k :: j1 < k < |ws| ==> ws[k] == r1.value.first;
      var j2 :| 0 <= j2 < |ws| - 1 && ws[j2] == r2.value.second &&
        forall k :: j2 < k < |ws| ==> ws[k] == r2.value.first;
      LastOtherAt(ws, r1.value.first, j1, |ws|);
      LastOtherAt(ws, r2.value.first, j2, |ws|);
    }
  }

  /** The last index below `n` whose word differs from `x`, or -1. */
  function LastOther(ws: seq<bv64>, x: bv64, n: nat): int
    requires n <= |ws|
  {
    if n == 0 then -1 else if ws[n - 1] != x then n - 1 else LastOther(ws, x, n - 1)
  }

  /** The index a reading's second value is taken from is the last one whose word
      differs from the first value. */
  lemma LastOtherAt(ws: seq<bv64>, x: bv64, j: nat, n: nat)
    requires j < n <= |ws| && ws[j] != x
    requires forall k :: j < k < n ==> ws[k] == x
    ensures LastOther(ws, x, n) == j
    decreases n
  {
    if j < n - 1 {
      LastOtherAt(ws, x, j, n - 1);
    }
  }

  /** A reading is produced exactly when the words hold at least two distinct
      values. */
  lemma ReadingIffTwoValues(ws: seq<bv64>, r: Option<Reading>)
    requires IsLatestPair(ws, r)
    ensures r.Some? <==> exists a, b :: 0 <= a < |ws| && 0 <= b < |ws| && ws[a] != ws[b]
  {
    if r.Some? {
      var j :| 0 <= j < |ws| - 1 && ws[j] == r.value.second &&
        forall k :: j < k < |ws| ==> ws[k] == r.value.first;
      assert ws[j] != ws[|ws| - 1];
    } else {
      forall a, b | 0 <= a < |ws| && 0 <= b < |ws|
        ensures ws[a] == ws[b]
      {
        assert ws[a] == ws[|ws| - 1] && ws[b] == ws[|ws| - 1];
      }
    }
  }
}
