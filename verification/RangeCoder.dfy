/**
  The carry-propagating range coder shared by MTF_Ari.c and WFC_Ari.c.

  The reference semantics is exact interval arithmetic: coding a sequence of steps narrows an interval
  of numbers, and the coded bytes are the base-256 digits of one number in the final interval.  The
  encoder class (with its pending byte and its count of pending 0xFF bytes) and the decoder class
  (which only knows a 32-bit difference) are both proved against that reference.
 */
module RangeCoder {
  import opened Bytes

  const TOP := 0x100_0000         // 2^24
  const WORD := 0x1_0000_0000     // 2^32

  /** One coded symbol: its cumulative frequency, its frequency and the total. */
  datatype Step = Step(cum: nat, freq: nat, tot: nat)

  predicate ValidStep(s: Step) {
    0 < s.freq && s.cum + s.freq <= s.tot <= TOP
  }

  predicate ValidSteps(steps: seq<Step>) {
    forall i :: 0 <= i < |steps| ==> ValidStep(steps[i])
  }

  /** All numbers from low (inclusive) to low + range (exclusive), in units of 256^-shifts. */
  datatype Interval = Interval(low: nat, range: nat, shifts: nat)

  function Narrow(iv: Interval, s: Step): (r: Interval)
    requires ValidStep(s) && iv.range >= TOP
    ensures 0 < r.range <= iv.range
  {
    var unit := iv.range / s.tot;
    NarrowBounds(iv.range, unit, s);
    Interval(iv.low + s.cum * unit, s.freq * unit, iv.shifts)
  }

  lemma NarrowBounds(range: nat, unit: nat, s: Step)
    requires ValidStep(s) && range >= TOP && unit == range / s.tot
    ensures unit > 0 && s.freq * unit > 0 && s.cum * unit >= 0
    ensures s.cum * unit + s.freq * unit <= range
  {
    UnitBounds(range, s.tot);
    MulMono(1, s.freq, unit);
    Distribute(s.cum, s.freq, unit);
    MulMono(s.cum + s.freq, s.tot, unit);
  }

  lemma UnitBounds(range: nat, tot: nat)
    requires 0 < tot <= range
    ensures 0 < range / tot && tot * (range / tot) <= range
  {
  }

  lemma Distribute(a: nat, b: nat, u: nat)
    ensures a * u + b * u == (a + b) * u
  {
  }

  function Renorm(iv: Interval): (r: Interval)
    requires 0 < iv.range < WORD
    ensures TOP <= r.range < WORD && iv.shifts <= r.shifts
    decreases TOP - iv.range
  {
    if iv.range < TOP then Renorm(Interval(256 * iv.low, 256 * iv.range, iv.shifts + 1)) else iv
  }

  /** The interval left after coding all the steps. */
  function After(steps: seq<Step>): (iv: Interval)
    requires ValidSteps(steps)
    ensures TOP <= iv.range < WORD
  {
    if steps == [] then Interval(0, WORD - 1, 0)
    else Renorm(Narrow(After(steps[..|steps| - 1]), steps[|steps| - 1]))
  }

  /** The byte string a complete run of steps is coded to. */
  function CodeBytes(steps: seq<Step>): seq<byte>
    requires ValidSteps(steps)
  {
    var iv := After(steps);
    BigEndian(iv.low + iv.range / 2, iv.shifts + 5)
  }

  lemma CodeBytesUnique(steps: seq<Step>, out: seq<byte>)
    requires ValidSteps(steps)
    requires Num(out) == After(steps).low + After(steps).range / 2 && |out| == After(steps).shifts + 5
    ensures out == CodeBytes(steps)
  {
    BigEndianNum(out);
  }

  lemma AfterSnoc(steps: seq<Step>, s: Step)
    requires ValidSteps(steps) && ValidStep(s)
    ensures ValidSteps(steps + [s])
    ensures After(steps + [s]) == Renorm(Narrow(After(steps), s))
  {
    assert (steps + [s])[..|steps|] == steps;
  }

  // ------------------------------------------------------------------ the encoder

  /** Emitting the pending bytes with a carry adds exactly that carry to the number they spell. */
  lemma {:induction false} EmitCarry(out: seq<byte>, c: byte, n: nat, carry: nat)
    requires carry <= 1 && c + carry <= 255
    ensures Num(out + [c + carry] + Repeat((255 + carry) % 256, n)) == Num(out + [c] + Repeat(255, n)) + carry
  {
    hide Num;
    if n == 0 {
      assert out + [c + carry] + Repeat((255 + carry) % 256, 0) == out + [c + carry];
      assert out + [c] + Repeat(255, 0) == out + [c];
      NumSnoc(out, c);
      NumSnoc(out, c + carry);
    } else {
      var d := (255 + carry) % 256;
      assert out + [c + carry] + Repeat(d, n) == (out + [c + carry] + Repeat(d, n - 1)) + [d];
      assert out + [c] + Repeat(255, n) == (out + [c] + Repeat(255, n - 1)) + [255];
      EmitCarry(out, c, n - 1, carry);
      NumSnoc(out + [c + carry] + Repeat(d, n - 1), d);
      NumSnoc(out + [c] + Repeat(255, n - 1), 255);
      assert carry == 0 || carry == 1;
    }
  }

  /** The number spelt by the emitted, cached and withheld bytes. */
  ghost function Pending(output: seq<byte>, cache: byte, ffNum: nat): nat {
    Num(output + [cache] + Repeat(255, ffNum))
  }

  lemma PendingExtend(output: seq<byte>, cache: byte, ffNum: nat)
    ensures Pending(output, cache, ffNum + 1) == 256 * Pending(output, cache, ffNum) + 255
  {
    var p := output + [cache] + Repeat(255, ffNum);
    assert output + [cache] + Repeat(255, ffNum + 1) == p + [255];
    NumSnoc(p, 255);
  }

  lemma PendingFresh(output: seq<byte>, cache: byte)
    ensures Pending(output, cache, 0) == 256 * Num(output) + cache
  {
    assert output + [cache] + Repeat(255, 0) == output + [cache];
    NumSnoc(output, cache);
  }

  class RangeEncoder {
    var low: nat
    var range: nat
    var cache: byte
    var ffNum: nat
    var output: seq<byte>
    ghost var steps: seq<Step>

    /** The exact lower end of the interval, carries not yet propagated. */
    ghost function Exact(): nat
      reads this
    {
      Pending(output, cache, ffNum) * WORD + low
    }

    /** A carry out of low can always be absorbed by the pending bytes. */
    ghost predicate CarryFits(span: nat)
      reads this
    {
      && low + span <= 2 * WORD
      && (cache == 255 ==> low + span <= WORD)
    }

    ghost predicate Valid()
      reads this
    {
      && ValidSteps(steps)
      && var iv := After(steps);
      && range == iv.range
      && Exact() == iv.low
      && |output| + ffNum == iv.shifts
      && CarryFits(range)
    }

    constructor ()
      ensures Valid() && steps == [] && output == []
    {
      low, range, cache, ffNum, output, steps := 0, WORD - 1, 0, 0, [], [];
      new;
      PendingFresh([], 0);
    }

    /** Moves the top byte of low towards the output: multiplies the exact value by 256. */
    method ShiftLow(ghost span: nat)
      requires 0 < span && CarryFits(span)
      requires span < TOP || low + span <= 0xFF00_0000
      modifies `low, `cache, `ffNum, `output
      ensures Exact() == 256 * old(Exact())
      ensures low == old(low) % TOP * 256
      ensures |output| + ffNum == old(|output| + ffNum) + 1 && |output| >= old(|output|)
      ensures span < TOP ==> CarryFits(256 * span)
      ensures old(low) == 0 ==> ffNum == 0 && cache == 0
    {
      var carry, top, rest := low / WORD, low % WORD / TOP, low % TOP;
      assert low == carry * WORD + top * TOP + rest;
      if low < 0xFF00_0000 || low > 0xFFFF_FFFF {
        Emit(carry);
        cache := top;
        PendingFresh(output, cache);
      } else {
        PendingExtend(output, cache, ffNum);
        ffNum := ffNum + 1;
      }
      low := rest * 256;
    }

    /** Writes the cached byte and all withheld bytes, adding the carry. */
    method Emit(carry: nat)
      requires carry <= 1 && cache + carry <= 255
      modifies `ffNum, `output
      ensures ffNum == 0 && |output| == old(|output| + ffNum) + 1
      ensures Num(output) == old(Pending(output, cache, ffNum)) + carry
    {
      hide Num;
      ghost var ff := ffNum;
      var first := (cache + carry) % 256;
      var fill := (255 + carry) % 256;
      output := output + [first];
      while ffNum > 0
        invariant ffNum <= ff
        invariant output == old(output) + [first] + Repeat(fill, ff - ffNum)
      {
        output := output + [fill];
        ffNum := ffNum - 1;
      }
      EmitCarry(old(output), cache, ff, carry);
    }

    /** Narrows the interval to one symbol, then shifts bytes out until the range is large again. */
    method Encode(freq: nat, cum: nat, tot: nat)
      requires Valid() && ValidStep(Step(cum, freq, tot))
      modifies this
      ensures Valid() && steps == old(steps) + [Step(cum, freq, tot)]
      ensures |old(output)| <= |output|
    {
      ghost var s := Step(cum, freq, tot);
      ghost var cur := Narrow(After(steps), s);
      AfterSnoc(steps, s);
      NarrowBounds(range, range / tot, s);
      ghost var all := steps + [s];
      var unit := range / tot;
      var skipped, kept := cum * unit, freq * unit;
      assert cur == Interval(After(steps).low + skipped, kept, After(steps).shifts);
      low := low + skipped;
      range := kept;
      steps := all;
      Normalize(cur);
    }

    method Normalize(ghost iv: Interval)
      requires ValidSteps(steps) && 0 < iv.range < WORD && Renorm(iv) == After(steps)
      requires range == iv.range && Exact() == iv.low && |output| + ffNum == iv.shifts
      requires CarryFits(range)
      modifies `low, `cache, `ffNum, `output, `range
      ensures Valid() && |old(output)| <= |output|
    {
      ghost var cur := iv;
      while range < TOP
        invariant 0 < range == cur.range < WORD && Renorm(cur) == After(steps)
        invariant Exact() == cur.low && |output| + ffNum == cur.shifts
        invariant CarryFits(range) && |old(output)| <= |output|
        decreases TOP - range
      {
        ShiftLow(range);
        range := range * 256;
        cur := Interval(256 * cur.low, 256 * cur.range, cur.shifts + 1);
      }
    }

    /** Flushes the coder: the output becomes the digits of a number inside the final interval. */
    method Finish()
      requires Valid()
      modifies this
      ensures steps == old(steps) && output == CodeBytes(steps)
    {
      range := range / 2;
      low := low + range;
      ghost var iv := After(steps);
      assert Exact() == iv.low + iv.range / 2;
      Flush();
      CodeBytesUnique(steps, output);
    }

    /** Five shifts write every pending byte: the output spells the exact value. */
    method Flush()
      requires CarryFits(1)
      modifies `low, `cache, `ffNum, `output
      ensures Num(output) == old(Exact()) && |output| == old(|output| + ffNum) + 5
    {
      FourShiftsClear(low);
      ShiftLow(1);
      ShiftLow(1);
      ShiftLow(1);
      ShiftLow(1);
      ShiftLow(1);
      PendingFresh(output, 0);
    }
  }

  /** Four shifts push every byte of low out. */
  lemma FourShiftsClear(low: nat)
    ensures
      var a := low % TOP * 256;
      var b := a % TOP * 256;
      var c := b % TOP * 256;
      a % TOP * 256 == b && b % TOP * 256 == c && c % TOP * 256 == 0
  {
    var q, d2, d1, d0 := Digits(low);
    LowDigits(q, 65536 * d2 + 256 * d1 + d0);
    LowDigits(d2, 65536 * d1 + 256 * d0);
    LowDigits(d1, 65536 * d0);
    LowDigits(d0, 0);
  }

  lemma Digits(v: nat) returns (q: nat, d2: nat, d1: nat, d0: nat)
    ensures d2 < 256 && d1 < 256 && d0 < 256 && v == TOP * q + 65536 * d2 + 256 * d1 + d0
  {
    d0, d1, d2, q := v % 256, v / 256 % 256, v / 256 / 256 % 256, v / 256 / 256 / 256;
  }

  lemma LowDigits(q: nat, r: nat)
    requires r < TOP
    ensures (TOP * q + r) % TOP == r
  {
  }

  // ------------------------------------------------------------------ the decoder

  /** Before renormalisation the decoder's window lies in the interval if it does afterwards. */
  lemma {:induction false} RenormWindow(iv: Interval, bytes: seq<byte>)
    requires 0 < iv.range < WORD && Renorm(iv).shifts + 5 <= |bytes|
    requires InWindow(Renorm(iv), bytes)
    ensures InWindow(iv, bytes)
    decreases TOP - iv.range
  {
    if iv.range < TOP {
      var next := Interval(256 * iv.low, 256 * iv.range, iv.shifts + 1);
      RenormWindow(next, bytes);
      NumPrefix(bytes, iv.shifts + 5);
    }
  }

  /** The bytes the decoder has read by now spell a number inside the interval. */
  predicate InWindow(iv: Interval, bytes: seq<byte>) {
    && iv.shifts + 5 <= |bytes|
    && iv.low <= Num(bytes[..iv.shifts + 5]) < iv.low + iv.range
  }

  lemma NumPrefix(bytes: seq<byte>, n: nat)
    requires n < |bytes|
    ensures Num(bytes[..n + 1]) == 256 * Num(bytes[..n]) + bytes[n]
  {
    assert bytes[..n + 1] == bytes[..n] + [bytes[n]];
    NumSnoc(bytes[..n], bytes[n]);
  }

  /** At every step, the bytes read so far lie in the interval of that very step. */
  lemma {:induction false} StepWindow(steps: seq<Step>, k: nat, bytes: seq<byte>)
    requires ValidSteps(steps) && k <= |steps| && CodeBytes(steps) <= bytes
    ensures InWindow(After(steps[..k]), bytes)
    ensures k < |steps| ==> InWindow(Narrow(After(steps[..k]), steps[k]), bytes)
    decreases |steps| - k
  {
    if k == |steps| {
      FinalWindow(steps, bytes);
    } else {
      StepWindow(steps, k + 1, bytes);
      var s := steps[k];
      var iv := After(steps[..k]);
      assert steps[..k + 1] == steps[..k] + [s];
      AfterSnoc(steps[..k], s);
      RenormWindow(Narrow(iv, s), bytes);
      NarrowWindow(iv, s, bytes);
    }
  }

  lemma NarrowWindow(iv: Interval, s: Step, bytes: seq<byte>)
    requires ValidStep(s) && iv.range >= TOP && InWindow(Narrow(iv, s), bytes)
    ensures InWindow(iv, bytes)
  {
    NarrowBounds(iv.range, iv.range / s.tot, s);
  }

  lemma FinalWindow(steps: seq<Step>, bytes: seq<byte>)
    requires ValidSteps(steps) && CodeBytes(steps) <= bytes
    ensures InWindow(After(steps[..|steps|]), bytes)
  {
    assert steps[..|steps|] == steps;
    var iv := After(steps);
    var n := iv.low + iv.range / 2;
    AfterFits(steps);
    assert bytes[..iv.shifts + 5] == CodeBytes(steps);
    NumBigEndian(n, iv.shifts + 5);
  }

  /** The final interval fits the bytes written: nothing is cut off at the front. */
  lemma {:induction false} AfterFits(steps: seq<Step>)
    requires ValidSteps(steps)
    ensures After(steps).low + After(steps).range <= Pow256(After(steps).shifts + 4)
    ensures Pow256(After(steps).shifts + 4) < Pow256(After(steps).shifts + 5)
  {
    if steps == [] {
      assert Pow256(4) == 256 * (256 * (256 * (256 * Pow256(0))));
    } else {
      var init, s := steps[..|steps| - 1], steps[|steps| - 1];
      AfterFits(init);
      var iv := After(init);
      NarrowBounds(iv.range, iv.range / s.tot, s);
      RenormFits(Narrow(iv, s));
    }
  }

  lemma {:induction false} RenormFits(iv: Interval)
    requires 0 < iv.range < WORD && iv.low + iv.range <= Pow256(iv.shifts + 4)
    ensures Renorm(iv).low + Renorm(iv).range <= Pow256(Renorm(iv).shifts + 4)
    decreases TOP - iv.range
  {
    if iv.range < TOP {
      RenormFits(Interval(256 * iv.low, 256 * iv.range, iv.shifts + 1));
    }
  }

  class RangeDecoder {
    const input: seq<byte>
    var pos: nat
    var code: nat
    var range: nat
    ghost const steps: seq<Step>     // what the input was coded from
    ghost var done: nat              // how many of those steps have been decoded

    /** The decoder holds the difference between the bytes read and the interval's lower end. */
    ghost predicate Tracks(iv: Interval)
      reads this
    {
      && pos == iv.shifts + 5 <= |input|
      && range == iv.range
      && code == Num(input[..pos]) - iv.low
    }

    ghost predicate Valid()
      reads this
    {
      && ValidSteps(steps) && done <= |steps| && CodeBytes(steps) <= input
      && Tracks(After(steps[..done]))
    }

    /** The range has been divided by the total of the step about to be decoded. */
    ghost predicate Divided(tot: nat)
      reads this
    {
      && ValidSteps(steps) && done < |steps| && CodeBytes(steps) <= input
      && steps[done].tot == tot
      && var iv := After(steps[..done]);
      && pos == iv.shifts + 5 <= |input|
      && range == iv.range / tot
      && code == Num(input[..pos]) - iv.low
    }

    /** The steps still to be decoded. */
    ghost function Rest(): seq<Step>
      reads this
    {
      if done <= |steps| then steps[done..] else []
    }

    constructor (input: seq<byte>, ghost steps: seq<Step>)
      requires ValidSteps(steps) && CodeBytes(steps) <= input
      ensures Valid() && Rest() == steps && this.input == input && this.steps == steps
      ensures input[0] == 0 && code < WORD
    {
      this.input, this.steps, done := input, steps, 0;
      pos, range := 5, WORD - 1;
      StepWindow(steps, 0, input);
      var read: nat := input[0];
      read := read * 256 + input[1];
      read := read * 256 + input[2];
      read := read * 256 + input[3];
      read := read * 256 + input[4];
      code := read;
      new;
      assert steps[..0] == [];
      FirstFive(input);
    }

    /** Which of the tot equal parts of the interval the code value falls in. */
    method GetFreq(tot: nat) returns (f: nat)
      requires Valid() && Rest() != [] && Rest()[0].tot == tot
      modifies `range
      ensures Divided(tot) && Rest() == old(Rest())
      ensures Rest()[0].cum <= f < Rest()[0].cum + Rest()[0].freq
    {
      hide CodeBytes, Num, After;
      ghost var iv, s := After(steps[..done]), steps[done];
      StepWindow(steps, done, input);
      UnitBounds(range, tot);
      range := range / tot;
      PartOf(code, range, s.cum, s.freq);
      f := code / range;
    }

    method Decode(freq: nat, cum: nat, tot: nat)
      requires Divided(tot) && Rest()[0] == Step(cum, freq, tot)
      modifies this
      ensures Valid() && Rest() == old(Rest())[1..]
      ensures code < range < WORD
    {
      hide CodeBytes, Num, After;
      ghost var s := steps[done];
      ghost var iv := After(steps[..done]);
      ghost var cur := Narrow(iv, s);
      StepWindow(steps, done, input);
      StepWindow(steps, done + 1, input);
      assert steps[..done + 1] == steps[..done] + [s];
      AfterSnoc(steps[..done], s);
      NarrowBounds(iv.range, range, s);
      var skipped, kept := cum * range, freq * range;
      assert cur == Interval(iv.low + skipped, kept, iv.shifts);
      code := code - skipped;
      range := kept;
      done := done + 1;
      Normalize(cur);
    }

    method Normalize(ghost iv: Interval)
      requires ValidSteps(steps) && done <= |steps| && CodeBytes(steps) <= input
      requires 0 < iv.range < WORD && Renorm(iv) == After(steps[..done]) && Tracks(iv)
      requires InWindow(After(steps[..done]), input)
      modifies `code, `pos, `range
      ensures Valid() && code < range
    {
      hide CodeBytes, Num, After;
      ghost var cur := iv;
      while range < TOP
        invariant 0 < cur.range < WORD && Renorm(cur) == After(steps[..done])
        invariant Tracks(cur)
        decreases TOP - range
      {
        NumPrefix(input, pos);
        code := code * 256 + input[pos];
        pos := pos + 1;
        range := range * 256;
        cur := Interval(256 * cur.low, 256 * cur.range, cur.shifts + 1);
      }
    }
  }

  lemma FirstFive(b: seq<byte>)
    requires |b| >= 5
    ensures
      var n: nat := b[0];
      Num(b[..5]) == (((n * 256 + b[1]) * 256 + b[2]) * 256 + b[3]) * 256 + b[4]
  {
    assert b[..0] == [];
    NumPrefix(b, 0);
    NumPrefix(b, 1);
    NumPrefix(b, 2);
    NumPrefix(b, 3);
    NumPrefix(b, 4);
  }

  lemma PartOf(code: nat, unit: nat, cum: nat, freq: nat)
    requires unit > 0 && cum * unit <= code < cum * unit + freq * unit
    ensures cum <= code / unit < cum + freq
  {
    var q := code / unit;
    assert code == q * unit + code % unit;
    if q < cum {
      MulMono(q + 1, cum, unit);
    }
    if q >= cum + freq {
      MulMono(cum + freq, q, unit);
    }
  }
}
