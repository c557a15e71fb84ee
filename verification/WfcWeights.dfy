/**
  The arithmetic of the weighted-frequency ranking of WFC_Ari.c.

  Every past occurrence of a byte, counted in runs, adds a weight that decays with its distance at
  twelve fixed distances.  The encoder never adds these weights up: it keeps running totals and
  subtracts the twelve decay constants.  Here is the closed form, and the bounds that follow.
 */
module WfcWeights {
  import opened Bytes

  const VAL0 := 131072
  const VALS: seq<nat> := [114688, 7272, 4240, 2364, 1263, 649, 320, 153, 70, 31, 14, 8]
  const DISTS: seq<nat> := [1, 2, 4, 8, 16, 32, 64, 128, 256, 512, 1024, 2048]

  /** What an occurrence loses when its distance becomes d. */
  function Drop(d: nat): nat {
    if d == 1 then 114688 else if d == 2 then 7272 else if d == 4 then 4240 else if d == 8 then 2364
    else if d == 16 then 1263 else if d == 32 then 649 else if d == 64 then 320 else if d == 128 then 153
    else if d == 256 then 70 else if d == 512 then 31 else if d == 1024 then 14 else if d == 2048 then 8
    else 0
  }

  /** What an occurrence at distance d weighs: the constants of all smaller distances are gone. */
  function Worth(d: nat): int {
    if d < 1 then 131072 else if d < 2 then 16384 else if d < 4 then 9112 else if d < 8 then 4872
    else if d < 16 then 2508 else if d < 32 then 1245 else if d < 64 then 596 else if d < 128 then 276
    else if d < 256 then 123 else if d < 512 then 53 else if d < 1024 then 22 else if d < 2048 then 8
    else 0
  }

  lemma WorthDrops(d: nat)
    ensures Worth(d + 1) == Worth(d) - Drop(d + 1)
    ensures 0 <= Worth(d + 1) <= Worth(d) && Worth(0) == VAL0
  {
  }

  /** Is the byte at distance d from the end of the history c? */
  predicate At(h: seq<byte>, c: int, d: nat) {
    d < |h| && h[|h| - 1 - d] == c
  }

  /** The total weight of c's occurrences at distance d or more. */
  function WeightFrom(h: seq<byte>, c: int, d: nat): (w: int)
    ensures w >= 0
    decreases |h| - d
  {
    if d >= |h| then 0 else (if At(h, c, d) then Worth(d) else 0) + WeightFrom(h, c, d + 1)
  }

  /** The total weight of c after the history h, one entry per run, last entry most recent. */
  function Weight(h: seq<byte>, c: int): int {
    WeightFrom(h, c, 0)
  }

  /** The constants subtracted from c's weight at distances d and more, once the history is h. */
  function Decay(h: seq<byte>, c: int, d: nat): (w: nat)
    decreases |h| - d
  {
    if d >= |h| then 0 else (if At(h, c, d) then Drop(d) else 0) + Decay(h, c, d + 1)
  }

  /** Growing the history by one moves every occurrence one step away. */
  lemma {:induction false} WeightShift(h: seq<byte>, x: byte, c: int, d: nat)
    ensures WeightFrom(h + [x], c, d + 1) == WeightFrom(h, c, d) - Decay(h + [x], c, d + 1)
    decreases |h| - d
  {
    if d < |h| {
      WeightShift(h, x, c, d + 1);
      WorthDrops(d);
      assert (h + [x])[|h + [x]| - 1 - (d + 1)] == h[|h| - 1 - d];
    }
  }

  lemma WeightStep(h: seq<byte>, x: byte, c: int)
    ensures Weight(h + [x], c) == Weight(h, c) + (if c == x then VAL0 else 0) - Decay(h + [x], c, 1)
  {
    WeightShift(h, x, c, 0);
  }

  /** Distances at which nothing decays can be skipped. */
  lemma {:induction false} DecaySkip(h: seq<byte>, c: int, d: nat, e: nat)
    requires d <= e && forall i :: d <= i < e ==> Drop(i) == 0
    ensures Decay(h, c, d) == Decay(h, c, e)
    decreases e - d
  {
    if d < e {
      DecaySkip(h, c, d + 1, e);
    }
  }

  /** What the decay constants numbered k and up take from c. */
  function DecayList(h: seq<byte>, c: int, k: nat): (w: nat)
    requires k <= 12
    decreases 12 - k
  {
    if k == 12 then 0 else (if At(h, c, DISTS[k]) then VALS[k] else 0) + DecayList(h, c, k + 1)
  }

  /** The twelve explicit subtractions are all there is. */
  lemma {:induction false} DecayListIsDecay(h: seq<byte>, c: int, k: nat)
    requires k < 12
    ensures DecayList(h, c, k) == Decay(h, c, DISTS[k])
    decreases 12 - k
  {
    var d := DISTS[k];
    assert VALS[k] == Drop(d);
    if k == 11 {
      DecayTail(h, c, d + 1);
    } else {
      DecayListIsDecay(h, c, k + 1);
      DecaySkip(h, c, d + 1, DISTS[k + 1]);
    }
  }

  lemma {:induction false} DecayTail(h: seq<byte>, c: int, d: nat)
    requires d > 2048
    ensures Decay(h, c, d) == 0
    decreases |h| - d
  {
    if d < |h| {
      DecayTail(h, c, d + 1);
    }
  }

  // ------------------------------------------------------------------ no other byte comes near the last one

  /** Equal bytes never follow each other in a history of runs. */
  predicate Alternating(h: seq<byte>) {
    forall i :: 0 < i < |h| ==> h[i - 1] != h[i]
  }

  /** The most that occurrences at distances d, d + 2, d + 4, ... can weigh. */
  function Most(d: nat): (m: int)
    ensures m >= 0
    decreases 2048 - d
  {
    if d >= 2048 then 0 else Worth(d) + Most(d + 2)
  }

  lemma {:induction false} MostFalls(d: nat)
    ensures Most(d + 1) <= Most(d)
    decreases 2048 - d
  {
    if d < 2048 {
      MostFalls(d + 2);
      WorthDrops(d);
    }
  }

  lemma {:induction false} FarIsNothing(h: seq<byte>, c: int, d: nat)
    requires d >= 2048
    ensures WeightFrom(h, c, d) == 0
    decreases |h| - d
  {
    if d < |h| {
      FarIsNothing(h, c, d + 1);
    }
  }

  lemma {:induction false} WeightAtMost(h: seq<byte>, c: int, d: nat)
    requires Alternating(h)
    ensures WeightFrom(h, c, d) <= Most(d)
    decreases |h| - d
  {
    if d >= 2048 {
      FarIsNothing(h, c, d);
    } else if d < |h| {
      if At(h, c, d) {
        WeightAtMost(h, c, d + 2);
        assert d + 1 < |h| ==> h[|h| - 2 - d] != h[|h| - 1 - d];
        assert WeightFrom(h, c, d + 1) == WeightFrom(h, c, d + 2);
      } else {
        WeightAtMost(h, c, d + 1);
        MostFalls(d);
      }
    }
  }

  lemma MostNext(d: nat)
    requires d < 2048
    ensures Most(d) == Worth(d) + Most(d + 2)
  {
  }

  lemma {:induction false} Stretch(d: nat, n: nat, v: int)
    requires d + 2 * n <= 2049 && forall i :: d <= i < d + 2 * n - 1 ==> Worth(i) == v
    ensures Most(d) == n * v + Most(d + 2 * n)
    decreases n
  {
    if n > 0 {
      assert Worth(d) == v;
      MostNext(d);
      hide Worth, Most;
      Stretch(d + 2, n - 1, v);
      assert n * v == v + (n - 1) * v;
    }
  }

  lemma MostEnds()
    ensures Most(2049) == 0
  {
  }

  lemma MostIs()
    ensures Most(1) == 97984
  {
    hide Most;
    Stretch(1, 1, 16384);
    Stretch(3, 1, 9112);
    Stretch(5, 2, 4872);
    Stretch(9, 4, 2508);
    Stretch(17, 8, 1245);
    Stretch(33, 16, 596);
    Stretch(65, 32, 276);
    Stretch(129, 64, 123);
    Stretch(257, 128, 53);
    Stretch(513, 256, 22);
    Stretch(1025, 512, 8);
    MostEnds();
  }

  /** The byte of the last run outweighs every other byte, and nothing comes near 2^31. */
  lemma LastOutweighs(h: seq<byte>, c: int)
    requires Alternating(h) && h != []
    ensures c != h[|h| - 1] ==> Weight(h, c) <= 97984 < VAL0 <= Weight(h, h[|h| - 1])
    ensures Weight(h, c) <= VAL0 + 97984
  {
    WeightAtMost(h, c, 1);
    MostIs();
    WeightAtMost(h, h[|h| - 1], 1);
  }
}
