/**
  How long the code of a block can get.  A step makes the coder shift out two bytes at most, and a run takes a
  bounded number of steps; so what an accepted block can add behind the last test of its size is known.
 */
module CodeSize {
  import opened Bytes
  import opened RangeCoder
  import opened RankModel
  import opened RankedRuns

  const RUN_STEPS: nat := 59
  const END_STEPS: nat := 14

  /** No step divides the range by more than the largest total of the models. */
  predicate Coarse(steps: seq<Step>) {
    forall i :: 0 <= i < |steps| ==> ValidStep(steps[i]) && steps[i].tot <= MAXFREQ
  }

  lemma TwoShifts(iv: Interval, s: Step)
    requires ValidStep(s) && s.tot <= MAXFREQ && TOP <= iv.range < WORD
    ensures Renorm(Narrow(iv, s)).shifts <= iv.shifts + 2
  {
    hide Renorm;
    var unit := iv.range / s.tot;
    UnitAtLeast(iv.range, s.tot);
    NarrowBounds(iv.range, unit, s);
    MulMono(1, s.freq, unit);
    RenormTwice(Narrow(iv, s));
  }

  lemma RenormTwice(iv: Interval)
    requires 8192 <= iv.range < WORD
    ensures Renorm(iv).shifts <= iv.shifts + 2
  {
    if iv.range < TOP {
      var one := Interval(256 * iv.low, 256 * iv.range, iv.shifts + 1);
      if one.range < TOP {
        var two := Interval(256 * one.low, 256 * one.range, one.shifts + 1);
        assert Renorm(one) == Renorm(two) == two;
      }
    }
  }

  lemma UnitAtLeast(range: nat, tot: nat)
    requires TOP <= range && 0 < tot <= MAXFREQ
    ensures 8192 <= range / tot
  {
    var q := range / tot;
    assert range == q * tot + range % tot;
    if q < 8192 {
      MulMono(q + 1, 8192, tot);
    }
  }

  /** Steps take at most two bytes each. */
  lemma {:induction false} ShiftsAtMost(a: seq<Step>, b: seq<Step>)
    requires ValidSteps(a + b) && Coarse(b)
    ensures ValidSteps(a) && After(a + b).shifts <= After(a).shifts + 2 * |b|
  {
    assert forall i :: 0 <= i < |a| ==> a[i] == (a + b)[i];
    if b == [] {
      assert a + b == a;
    } else {
      var k := |b| - 1;
      assert (a + b)[..|a + b| - 1] == a + b[..k] && (a + b)[|a + b| - 1] == b[k];
      ShiftsAtMost(a, b[..k]);
      TwoShifts(After(a + b[..k]), b[k]);
    }
  }

  lemma {:induction false} UnaryCoarse(r: Rows, i: nat, n: nat, limit: nat, dv: nat, du: nat)
    requires i <= n <= limit <= |r.v| && limit <= |r.u| && dv >= 2 && du >= 2
    ensures Coarse(UnarySteps(r, i, n, limit, dv, du))
    ensures |UnarySteps(r, i, n, limit, dv, du)| == n - i + if n < limit then 1 else 0
    decreases limit - i
  {
    if i < n {
      UnaryCoarse(AdaptRows(r, i, true, dv, du), i + 1, n, limit, dv, du);
    }
  }

  lemma {:induction false} TreeCoarse(row: seq<Prob>, ctx: nat, x: nat, bits: nat)
    requires |row| == 128 && Fits(ctx, bits)
    ensures Coarse(TreeSteps(row, ctx, x, bits)) && |TreeSteps(row, ctx, x, bits)| == bits
    decreases bits
  {
    if bits > 0 {
      var bit := Bit(x, bits - 1);
      TreeCoarse(row[ctx := Adapt(row[ctx], bit, 128)], Child(ctx, bit), x, bits - 1);
    }
  }

  lemma {:induction false} TailCoarse(row: seq<Prob>, i: nat, n: nat, x: nat)
    requires i <= n <= |row|
    ensures Coarse(TailSteps(row, i, n, x)) && |TailSteps(row, i, n, x)| == n - i
    decreases n - i
  {
    if i < n {
      TailCoarse(row[i := Adapt(row[i], Bit(x, n - 1 - i), 64)], i + 1, n, x);
    }
  }

  lemma GroupCoarse(t: Tables, rank: nat)
    requires t.Shape() && 3 <= rank <= 256
    ensures Coarse(CodeGroup(t, rank).steps) && |CodeGroup(t, rank).steps| <= 13
  {
    hide UnarySteps, UnaryRows, TreeSteps, TreeRow, Fits, Pow2;
    var g := Group(rank);
    TreeRoot(g);
    UnaryCoarse(Rows(t.l10, t.l11[t.ctxL1]), 0, g, 6, 16, 64);
    TreeCoarse(t.l20[g], 1, rank - GROUP_BEGIN[g], g + 1);
  }

  /** A rank, or the end marker. */
  lemma RankCoarse(t: Tables, pred: byte, rank: nat)
    requires t.Shape() && rank <= 256
    ensures Coarse(CodeRank(t, pred, rank).steps) && |CodeRank(t, pred, rank).steps| <= END_STEPS
  {
    hide CodeGroup, BumpMain, BumpSide;
    var j := 4 * t.ctxL0 + t.ctxRLE % 4;
    CumTotal(t.l0, t.l01[pred], t.l02[j]);
    var a := CodeSymbol(t, pred, Symbol(rank));
    assert Coarse(a.steps) && |a.steps| == 1;
    if rank >= 3 {
      GroupCoarse(a.after, rank);
    }
  }

  lemma LengthCoarse(t: Tables, ch: byte, s: nat, n: nat)
    requires t.Shape() && s < 4 && 0 < n < MAXRUN
    ensures Coarse(CodeLength(t, ch, s, n).steps) && |CodeLength(t, ch, s, n).steps| <= 45
  {
    hide UnarySteps, UnaryRows, TailSteps, TailRow, Log2, Pow2, NextRunContext;
    LogBound(n);
    var l := Log2(n);
    UnaryCoarse(Rows(t.rle0[t.ctxRLE + 16 * s], t.rle1[ch]), 0, l, 24, 64, 8);
    TailCoarse(t.rle2[l], 0, l, n);
  }

  /** A run. */
  lemma RunCoarse(t: Tables, pred: byte, rank: nat, ch: byte, n: nat)
    requires t.Shape() && rank < 256 && 0 < n < MAXRUN
    ensures Coarse(CodeRun(t, pred, rank, ch, n).steps) && |CodeRun(t, pred, rank, ch, n).steps| <= RUN_STEPS
  {
    hide CodeRank, CodeLength, Tables.Shape;
    RunHalves(t, pred, rank, ch, n);
    RankCoarse(t, pred, rank);
    LengthCoarse(BetweenHalves(t, pred, rank), ch, Symbol(rank), n);
  }

  /** What the encoder has written and what it withholds are what it has shifted out. */
  lemma Settled(enc: RangeEncoder)
    requires enc.Valid()
    ensures ValidSteps(enc.steps) && |enc.output| + enc.ffNum == After(enc.steps).shifts
  {
  }

  lemma RunShifts(steps: seq<Step>, t: Tables, pred: byte, rank: nat, ch: byte, n: nat)
    requires t.Shape() && rank < 256 && 0 < n < MAXRUN && ValidSteps(steps + CodeRun(t, pred, rank, ch, n).steps)
    ensures
      ValidSteps(steps) && After(steps + CodeRun(t, pred, rank, ch, n).steps).shifts <= After(steps).shifts + 2 * RUN_STEPS
  {
    hide CodeRun, Tables.Shape;
    RunCoarse(t, pred, rank, ch, n);
    ShiftsAtMost(steps, CodeRun(t, pred, rank, ch, n).steps);
  }

  lemma EndShifts(steps: seq<Step>, t: Tables, pred: byte)
    requires t.Shape() && ValidSteps(steps + CodeRank(t, pred, 256).steps)
    ensures ValidSteps(steps) && |CodeBytes(steps + CodeRank(t, pred, 256).steps)| <= After(steps).shifts + 2 * END_STEPS + 5
  {
    hide CodeRank, Tables.Shape;
    RankCoarse(t, pred, 256);
    ShiftsAtMost(steps, CodeRank(t, pred, 256).steps);
  }

  // ------------------------------------------------------------------ what was withheld

  /** The f bytes behind byte k are all 255 or all 0. */
  predicate Stuck(code: seq<byte>, k: nat, f: nat) {
    && k + 1 + f <= |code|
    && ((forall i :: k < i <= k + f ==> code[i] == 255) || (forall i :: k < i <= k + f ==> code[i] == 0))
  }

  lemma SameNumber(a: seq<byte>, b: seq<byte>)
    requires |a| == |b| && Num(a) == Num(b)
    ensures a == b
  {
    BigEndianNum(a);
    BigEndianNum(b);
  }

  /** The last four of m + 4 bytes make less than 2^32 of their number. */
  lemma FourMore(bytes: seq<byte>, m: nat) returns (r: nat)
    requires m + 4 <= |bytes|
    ensures r < WORD && Num(bytes[..m + 4]) == Num(bytes[..m]) * WORD + r
  {
    NumPrefix(bytes, m);
    NumPrefix(bytes, m + 1);
    NumPrefix(bytes, m + 2);
    NumPrefix(bytes, m + 3);
    var a: nat, b: nat, c: nat, d: nat := bytes[m], bytes[m + 1], bytes[m + 2], bytes[m + 3];
    r := ((a * 256 + b) * 256 + c) * 256 + d;
  }

  /** A number within less than two words of p words starts with p or p + 1. */
  lemma Leading(q: nat, r: nat, p: nat, low: nat, range: nat)
    requires r < WORD && p * WORD + low <= q * WORD + r < p * WORD + low + range && low + range <= 2 * WORD
    ensures p <= q <= p + 1 && (low + range <= WORD ==> q == p)
  {
  }

  /** The bytes pending in the coder are in the final code, as they are or after a carry. */
  lemma PendingInCode(enc: RangeEncoder, rest: seq<Step>)
    requires enc.Valid() && ValidSteps(enc.steps + rest)
    ensures Stuck(CodeBytes(enc.steps + rest), |enc.output|, enc.ffNum)
  {
    hide After, CodeBytes, Num;
    var total := enc.steps + rest;
    var code, m := CodeBytes(total), |enc.output| + enc.ffNum + 1;
    assert total[..|enc.steps|] == enc.steps;
    StepWindow(total, |enc.steps|, code);
    var r := FourMore(code, m);
    var p, q := Pending(enc.output, enc.cache, enc.ffNum), Num(code[..m]);
    Leading(q, r, p, enc.low, enc.range);
    if q == p {
      SameNumber(code[..m], enc.output + [enc.cache] + Repeat(255, enc.ffNum));
      StuckAt(code, enc.output, enc.cache, 255, enc.ffNum);
    } else {
      EmitCarry(enc.output, enc.cache, enc.ffNum, 1);
      SameNumber(code[..m], enc.output + [enc.cache + 1] + Repeat(0, enc.ffNum));
      StuckAt(code, enc.output, enc.cache + 1, 0, enc.ffNum);
    }
  }

  lemma StuckAt(code: seq<byte>, out: seq<byte>, c: byte, d: byte, f: nat)
    requires |out| + 1 + f <= |code| && code[..|out| + 1 + f] == out + [c] + Repeat(d, f) && (d == 255 || d == 0)
    ensures Stuck(code, |out|, f)
  {
    forall i | |out| < i <= |out| + f
      ensures code[i] == d
    {
      assert code[i] == code[..|out| + 1 + f][i];
    }
  }

  /**
    How long the accepted code of a block of n bytes is: k bytes had been written at the last test, f bytes were
    withheld, and at most 151 came behind them.
   */
  ghost predicate Margin(n: nat, code: seq<byte>) {
    exists k: nat, f: nat :: k + 24 < n && Stuck(code, k, f) && k + f + 5 <= |code| <= k + f + 151
  }

  /** The last test was passed with k bytes written and f withheld; at most one run has been coded since. */
  ghost predicate Passed(n: nat, code: seq<byte>, shifts: nat) {
    exists k: nat, f: nat :: k + 24 < n && Stuck(code, k, f) && k + f + 5 <= |code| && shifts <= k + f + 2 * RUN_STEPS
  }

  lemma PassedNow(n: nat, code: seq<byte>, k: nat, f: nat, shifts: nat)
    requires k + 24 < n && Stuck(code, k, f) && k + f + 5 <= |code| && shifts <= k + f + 2 * RUN_STEPS
    ensures Passed(n, code, shifts)
  {
  }

  lemma MarginEnds(n: nat, code: seq<byte>, shifts: nat)
    requires Passed(n, code, shifts) && |code| <= shifts + 2 * END_STEPS + 5
    ensures Margin(n, code)
  {
    var k: nat, f: nat :| k + 24 < n && Stuck(code, k, f) && k + f + 5 <= |code| && shifts <= k + f + 2 * RUN_STEPS;
    assert |code| <= k + f + 151;
  }

  /** Without m equal bytes 255 or 0 in a row the code is at most 125 + m bytes longer than the block. */
  lemma MarginWithout(n: nat, code: seq<byte>, m: nat)
    requires Margin(n, code) && forall k: nat :: !Stuck(code, k, m)
    ensures |code| < n + 126 + m
  {
    var k: nat, f: nat :| k + 24 < n && Stuck(code, k, f) && k + f + 5 <= |code| <= k + f + 151;
    if f >= m {
      assert Stuck(code, k, m);
    }
  }

  /** At a test of the encoder: what it has written and withheld is part of the code. */
  lemma TestPassed(enc: RangeEncoder, rest: seq<Step>)
    requires enc.Valid() && ValidSteps(enc.steps + rest)
    ensures
      var code := CodeBytes(enc.steps + rest);
      Stuck(code, |enc.output|, enc.ffNum) && |enc.output| + enc.ffNum + 5 <= |code|
  {
    PendingInCode(enc, rest);
    ShiftsMono(enc.steps, rest);
  }
}
