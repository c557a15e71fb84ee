/** Encoding and decoding the pieces of RankModel through the range coder, tables updated as they go. */
module RankCoder {
  import opened Bytes
  import opened RangeCoder
  import opened RankModel

  // ------------------------------------------------------------------ encoding the pieces

  method EncodeBit(enc: RangeEncoder, p: Prob, bit: bool)
    requires enc.Valid()
    modifies enc
    ensures enc.Valid() && enc.steps == old(enc.steps) + [BitStep(p, bit)]
    ensures |old(enc.output)| <= |enc.output|
  {
    if bit {
      enc.Encode(MAXFREQ - p, p, MAXFREQ);
    } else {
      enc.Encode(p, 0, MAXFREQ);
    }
  }

  method EncodeUnary(enc: RangeEncoder, r: Rows, n: nat, limit: nat, dv: nat, du: nat) returns (r': Rows)
    requires enc.Valid()
    requires n <= limit <= |r.v| && limit <= |r.u| && dv >= 2 && du >= 2
    modifies enc
    ensures enc.Valid() && enc.steps == old(enc.steps) + UnarySteps(r, 0, n, limit, dv, du)
    ensures r' == UnaryRows(r, 0, n, limit, dv, du)
    ensures |old(enc.output)| <= |enc.output|
  {
    hide RangeEncoder.Valid, UnarySteps, UnaryRows, AdaptRows, Mean, BitStep;
    r' := r;
    for i := 0 to n
      invariant enc.Valid() && |r'.v| == |r.v| && |r'.u| == |r.u| && |old(enc.output)| <= |enc.output|
      invariant enc.steps + UnarySteps(r', i, n, limit, dv, du)
             == old(enc.steps) + UnarySteps(r, 0, n, limit, dv, du)
      invariant UnaryRows(r', i, n, limit, dv, du) == UnaryRows(r, 0, n, limit, dv, du)
    {
      UnaryUnfold(r', i, n, limit, dv, du);
      EncodeBit(enc, Mean(r', i), true);
      r' := AdaptRows(r', i, true, dv, du);
    }
    UnaryUnfold(r', n, n, limit, dv, du);
    if n != limit {
      EncodeBit(enc, Mean(r', n), false);
      r' := AdaptRows(r', n, false, dv, du);
    }
  }

  method EncodeTree(enc: RangeEncoder, row: seq<Prob>, x: nat, g: nat) returns (row': seq<Prob>)
    requires enc.Valid() && |row| == 128 && g < 7
    requires Fits(1, g + 1)
    modifies enc
    ensures enc.Valid() && enc.steps == old(enc.steps) + TreeSteps(row, 1, x, g + 1)
    ensures row' == TreeRow(row, 1, x, g + 1)
    ensures |old(enc.output)| <= |enc.output|
  {
    hide RangeEncoder.Valid, Masked, Pow2, Bit, Top, TreeSteps, TreeRow, Fits, Adapt, BitStep;
    row' := row;
    var ctx: nat, mask: nat := 1, Pow2(g);
    for i := 0 to g + 1
      invariant enc.Valid() && |row'| == 128 && |old(enc.output)| <= |enc.output|
      invariant i <= g ==> mask == Pow2(g - i)
      invariant Fits(ctx, g + 1 - i)
      invariant enc.steps + TreeSteps(row', ctx, x, g + 1 - i) == old(enc.steps) + TreeSteps(row, 1, x, g + 1)
      invariant TreeRow(row', ctx, x, g + 1 - i) == TreeRow(row, 1, x, g + 1)
    {
      TreeUnfold(row', ctx, x, g + 1 - i);
      MaskedIsBit(x, g - i);
      PowHalf(g - i);
      var bit := Masked(x, mask);
      EncodeBit(enc, row'[ctx], bit);
      row' := row'[ctx := Adapt(row'[ctx], bit, 128)];
      ctx := Child(ctx, bit);
      mask := mask / 2;
    }
    TreeUnfold(row', ctx, x, 0);
  }

  method EncodeTail(enc: RangeEncoder, row: seq<Prob>, x: nat, n: nat) returns (row': seq<Prob>)
    requires enc.Valid() && n <= |row|
    modifies enc
    ensures enc.Valid() && enc.steps == old(enc.steps) + TailSteps(row, 0, n, x)
    ensures row' == TailRow(row, 0, n, x)
    ensures |old(enc.output)| <= |enc.output|
  {
    hide RangeEncoder.Valid, Masked, Pow2, Bit, Top, TailSteps, TailRow, Adapt, BitStep;
    row' := row;
    var mask := if n == 0 then 0 else Pow2(n - 1);
    for i := 0 to n
      invariant enc.Valid() && |row'| == |row| && |old(enc.output)| <= |enc.output|
      invariant i < n ==> mask == Pow2(n - 1 - i)
      invariant enc.steps + TailSteps(row', i, n, x) == old(enc.steps) + TailSteps(row, 0, n, x)
      invariant TailRow(row', i, n, x) == TailRow(row, 0, n, x)
    {
      TailUnfold(row', i, n, x);
      MaskedIsBit(x, n - 1 - i);
      PowHalf(n - 1 - i);
      var bit := Masked(x, mask);
      EncodeBit(enc, row'[i], bit);
      row' := row'[i := Adapt(row'[i], bit, 64)];
      mask := mask / 2;
    }
    TailUnfold(row', n, n, x);
  }

  // ------------------------------------------------------------------ decoding the pieces

  method DecodeBit(dec: RangeDecoder, p: Prob, ghost bit: bool, ghost tail: seq<Step>) returns (b: bool)
    requires dec.Valid() && dec.Rest() == [BitStep(p, bit)] + tail
    modifies dec
    ensures dec.Valid() && dec.Rest() == tail && b == bit
  {
    var f := dec.GetFreq(MAXFREQ);
    if f < p {
      dec.Decode(p, 0, MAXFREQ);
      b := false;
    } else {
      dec.Decode(MAXFREQ - p, p, MAXFREQ);
      b := true;
    }
  }

  /** What remains after the next bit of a unary number. */
  lemma UnaryHead(r: Rows, i: nat, n: nat, limit: nat, dv: nat, du: nat, tail: seq<Step>)
    returns (next: seq<Step>)
    requires i <= n <= limit <= |r.v| && limit <= |r.u| && dv >= 2 && du >= 2 && i < limit
    ensures UnarySteps(r, i, n, limit, dv, du) + tail == [BitStep(Mean(r, i), i < n)] + next
    ensures next == if i < n then UnarySteps(AdaptRows(r, i, true, dv, du), i + 1, n, limit, dv, du) + tail else tail
  {
    UnaryUnfold(r, i, n, limit, dv, du);
    next := if i < n then UnarySteps(AdaptRows(r, i, true, dv, du), i + 1, n, limit, dv, du) + tail else tail;
  }

  /** One bit of a unary number. */
  method DecodeUnaryBit(dec: RangeDecoder, r: Rows, i: nat, ghost limit: nat, dv: nat, du: nat, ghost n: nat, ghost tail: seq<Step>)
    returns (b: bool, r': Rows)
    requires dec.Valid()
    requires i <= n <= limit <= |r.v| && limit <= |r.u| && dv >= 2 && du >= 2 && i < limit
    requires dec.Rest() == UnarySteps(r, i, n, limit, dv, du) + tail
    modifies dec
    ensures dec.Valid() && b == (i < n) && |r'.v| == |r.v| && |r'.u| == |r.u|
    ensures b ==> dec.Rest() == UnarySteps(r', i + 1, n, limit, dv, du) + tail
    ensures b ==> UnaryRows(r', i + 1, n, limit, dv, du) == UnaryRows(r, i, n, limit, dv, du)
    ensures !b ==> dec.Rest() == tail && r' == UnaryRows(r, i, n, limit, dv, du)
  {
    hide RangeDecoder.Valid, UnarySteps, UnaryRows, AdaptRows, Mean, BitStep;
    ghost var next := UnaryHead(r, i, n, limit, dv, du, tail);
    UnaryUnfold(r, i, n, limit, dv, du);
    b := DecodeBit(dec, Mean(r, i), i < n, next);
    r' := AdaptRows(r, i, b, dv, du);
  }

  /** A unary number cut off at limit. */
  method DecodeUnary(dec: RangeDecoder, r: Rows, limit: nat, dv: nat, du: nat, ghost n: nat, ghost tail: seq<Step>)
    returns (i: nat, r': Rows)
    requires dec.Valid()
    requires n <= limit <= |r.v| && limit <= |r.u| && dv >= 2 && du >= 2
    requires dec.Rest() == UnarySteps(r, 0, n, limit, dv, du) + tail
    modifies dec
    ensures dec.Valid() && dec.Rest() == tail
    ensures i == n && r' == UnaryRows(r, 0, n, limit, dv, du)
  {
    hide RangeDecoder.Valid, UnarySteps, UnaryRows, AdaptRows, Mean, BitStep;
    r', i := r, 0;
    while i != limit
      invariant i <= n && dec.Valid() && |r'.v| == |r.v| && |r'.u| == |r.u|
      invariant dec.Rest() == UnarySteps(r', i, n, limit, dv, du) + tail
      invariant UnaryRows(r', i, n, limit, dv, du) == UnaryRows(r, 0, n, limit, dv, du)
      decreases limit - i
    {
      var b;
      b, r' := DecodeUnaryBit(dec, r', i, limit, dv, du, n, tail);
      if !b {
        return;
      }
      i := i + 1;
    }
    UnaryUnfold(r', i, n, limit, dv, du);
    assert [] + tail == tail;
  }

  /** A unary number without a bound: decoding stops at the zero bit alone. */
  method DecodeLog(dec: RangeDecoder, r: Rows, dv: nat, du: nat, ghost n: nat, ghost tail: seq<Step>)
    returns (i: nat, r': Rows)
    requires dec.Valid()
    requires n < 24 == |r.v| == |r.u| && dv >= 2 && du >= 2
    requires dec.Rest() == UnarySteps(r, 0, n, 24, dv, du) + tail
    modifies dec
    ensures dec.Valid() && dec.Rest() == tail
    ensures i == n && r' == UnaryRows(r, 0, n, 24, dv, du)
  {
    hide RangeDecoder.Valid, UnarySteps, UnaryRows, AdaptRows, Mean, BitStep;
    r', i := r, 0;
    while true
      invariant i <= n && dec.Valid() && |r'.v| == |r'.u| == 24
      invariant dec.Rest() == UnarySteps(r', i, n, 24, dv, du) + tail
      invariant UnaryRows(r', i, n, 24, dv, du) == UnaryRows(r, 0, n, 24, dv, du)
      decreases 24 - i
    {
      var b;
      b, r' := DecodeUnaryBit(dec, r', i, 24, dv, du, n, tail);
      if !b {
        return;
      }
      i := i + 1;
    }
  }

  lemma TopOf(x: nat, n: nat, q: nat)
    requires q * Pow2(n) <= x < q * Pow2(n) + Pow2(n)
    ensures Top(x, n) == q
  {
    TopIsDiv(x, n);
    PartOf(x, Pow2(n), q, 1);
  }

  lemma TopZero(x: nat)
    ensures Top(x, 0) == x && Pow2(0) == 1
  {
  }

  lemma TreeHead(row: seq<Prob>, ctx: nat, x: nat, bits: nat, tail: seq<Step>) returns (next: seq<Step>)
    requires |row| == 128 && bits > 0 && Fits(ctx, bits)
    ensures ctx < 128
    ensures TreeSteps(row, ctx, x, bits) + tail == [BitStep(row[ctx], Bit(x, bits - 1))] + next
    ensures
      var bit := Bit(x, bits - 1);
      Fits(Child(ctx, bit), bits - 1)
      && next == TreeSteps(row[ctx := Adapt(row[ctx], bit, 128)], Child(ctx, bit), x, bits - 1) + tail
  {
    TreeUnfold(row, ctx, x, bits);
    var bit := Bit(x, bits - 1);
    next := TreeSteps(row[ctx := Adapt(row[ctx], bit, 128)], Child(ctx, bit), x, bits - 1) + tail;
  }

  lemma TailHead(row: seq<Prob>, i: nat, n: nat, x: nat, tail: seq<Step>) returns (next: seq<Step>)
    requires i < n <= |row|
    ensures TailSteps(row, i, n, x) + tail == [BitStep(row[i], Bit(x, n - 1 - i))] + next
    ensures next == TailSteps(row[i := Adapt(row[i], Bit(x, n - 1 - i), 64)], i + 1, n, x) + tail
  {
    TailUnfold(row, i, n, x);
    next := TailSteps(row[i := Adapt(row[i], Bit(x, n - 1 - i), 64)], i + 1, n, x) + tail;
  }

  method DecodeTree(dec: RangeDecoder, row: seq<Prob>, g: nat, ghost x: nat, ghost tail: seq<Step>)
    returns (pos: nat, row': seq<Prob>)
    requires dec.Valid() && |row| == 128 && g < 7 && x < Pow2(g + 1)
    requires Fits(1, g + 1)
    requires dec.Rest() == TreeSteps(row, 1, x, g + 1) + tail
    modifies dec
    ensures dec.Valid() && dec.Rest() == tail
    ensures pos == x && row' == TreeRow(row, 1, x, g + 1)
  {
    hide RangeDecoder.Valid, Pow2, Bit, Top, TreeSteps, TreeRow, Fits, Adapt, BitStep;
    row', pos := row, 0;
    var ctx: nat := 1;
    TopOf(x, g + 1, 0);
    for i := 0 to g + 1
      invariant dec.Valid() && |row'| == 128
      invariant Fits(ctx, g + 1 - i)
      invariant pos == Top(x, g + 1 - i)
      invariant dec.Rest() == TreeSteps(row', ctx, x, g + 1 - i) + tail
      invariant TreeRow(row', ctx, x, g + 1 - i) == TreeRow(row, 1, x, g + 1)
    {
      NextBit(x, g + 1 - i);
      TreeUnfold(row', ctx, x, g + 1 - i);
      ghost var next := TreeHead(row', ctx, x, g + 1 - i, tail);
      var b := DecodeBit(dec, row'[ctx], Bit(x, g - i), next);
      row' := row'[ctx := Adapt(row'[ctx], b, 128)];
      ctx := Child(ctx, b);
      pos := 2 * pos + if b then 1 else 0;
    }
    TreeUnfold(row', ctx, x, 0);
    TopZero(x);
    assert [] + tail == tail;
  }

  lemma TailValue(x: nat, n: nat, i: nat, m: nat, m': nat)
    requires i < n && m + Pow2(i) == Top(x, n - i)
    requires m' == 2 * m + if Bit(x, n - 1 - i) then 1 else 0
    ensures m' + Pow2(i + 1) == Top(x, n - (i + 1))
  {
    NextBit(x, n - i);
    assert Pow2(i + 1) == 2 * Pow2(i);
  }

  /** Bit number n - 1 - i of x. */
  method DecodeTailBit(dec: RangeDecoder, row: seq<Prob>, i: nat, ghost n: nat, m: nat, ghost x: nat, ghost tail: seq<Step>)
    returns (m': nat, row': seq<Prob>)
    requires dec.Valid() && i < n <= |row| && m + Pow2(i) == Top(x, n - i)
    requires dec.Rest() == TailSteps(row, i, n, x) + tail
    modifies dec
    ensures dec.Valid() && |row'| == |row| && m' + Pow2(i + 1) == Top(x, n - (i + 1))
    ensures dec.Rest() == TailSteps(row', i + 1, n, x) + tail && TailRow(row', i + 1, n, x) == TailRow(row, i, n, x)
  {
    hide RangeDecoder.Valid, Pow2, Bit, Top, TailSteps, TailRow, Adapt, BitStep;
    TailUnfold(row, i, n, x);
    ghost var next := TailHead(row, i, n, x, tail);
    var b := DecodeBit(dec, row[i], Bit(x, n - 1 - i), next);
    row' := row[i := Adapt(row[i], b, 64)];
    m' := 2 * m + if b then 1 else 0;
    TailValue(x, n, i, m, m');
  }

  method DecodeTail(dec: RangeDecoder, row: seq<Prob>, n: nat, ghost x: nat, ghost tail: seq<Step>)
    returns (m: nat, row': seq<Prob>)
    requires dec.Valid() && n <= |row| && Pow2(n) <= x < 2 * Pow2(n)
    requires dec.Rest() == TailSteps(row, 0, n, x) + tail
    modifies dec
    ensures dec.Valid() && dec.Rest() == tail
    ensures m == x - Pow2(n) && row' == TailRow(row, 0, n, x)
  {
    hide RangeDecoder.Valid, Pow2, Bit, Top, TailSteps, TailRow, Adapt, BitStep;
    row', m := row, 0;
    TopOf(x, n, 1);
    TopZero(x);
    for i := 0 to n
      invariant dec.Valid() && |row'| == |row|
      invariant m + Pow2(i) == Top(x, n - i)
      invariant dec.Rest() == TailSteps(row', i, n, x) + tail
      invariant TailRow(row', i, n, x) == TailRow(row, 0, n, x)
    {
      m, row' := DecodeTailBit(dec, row', i, n, m, x, tail);
    }
    TailUnfold(row', n, n, x);
    TopZero(x);
    assert [] + tail == tail;
  }
}
