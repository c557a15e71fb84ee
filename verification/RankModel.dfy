/**
  The adaptive models behind the entropy coders of MTF_Ari.c and WFC_Ari.c.

  One run of equal bytes is coded as: a four-way symbol for its rank (0, 1, 2, or "more"), for larger
  ranks a unary group number and the position in the group, then the binary logarithm of the run
  length in unary and its remaining bits.  Every function here says which range-coder steps that takes
  and what the models look like afterwards; encoder and decoder are proved against them.
 */
module RankModel {
  import opened Bytes
  import opened RangeCoder

  const MAXFREQ := 2048

  /** The frequency of a zero bit: never 0 and never MAXFREQ, so both bits stay codable. */
  type Prob = p: int | 0 < p < 2048 witness 1024

  function TowardOne(p: Prob, d: nat): Prob
    requires d >= 2
  {
    ShiftBounds(p, d);
    p - p / d
  }

  function TowardZero(p: Prob, d: nat): Prob
    requires d >= 2
  {
    ShiftBounds(MAXFREQ - p, d);
    p + (MAXFREQ - p) / d
  }

  lemma ShiftBounds(p: Prob, d: nat)
    requires d >= 2
    ensures 0 <= p / d < p
  {
    var q := p / d;
    assert p == q * d + p % d;
    MulMono(2, d, q);
    assert p >= 2 * q;
  }

  function BitStep(p: Prob, bit: bool): (s: Step)
    ensures ValidStep(s)
  {
    if bit then Step(p, MAXFREQ - p, MAXFREQ) else Step(0, p, MAXFREQ)
  }

  function Adapt(p: Prob, bit: bool, d: nat): Prob
    requires d >= 2
  {
    if bit then TowardOne(p, d) else TowardZero(p, d)
  }

  // ------------------------------------------------------------------ binary pieces

  datatype Rows = Rows(v: seq<Prob>, u: seq<Prob>)

  function Mean(r: Rows, i: nat): (p: Prob)
    requires i < |r.v| && i < |r.u|
    ensures r.v[i] <= p <= r.u[i] || r.u[i] <= p <= r.v[i]
  {
    var a: int, b: int := r.v[i], r.u[i];
    (a + b) / 2
  }

  function AdaptRows(r: Rows, i: nat, bit: bool, dv: nat, du: nat): (r': Rows)
    requires i < |r.v| && i < |r.u| && dv >= 2 && du >= 2
    ensures |r'.v| == |r.v| && |r'.u| == |r.u|
  {
    Rows(r.v[i := Adapt(r.v[i], bit, dv)], r.u[i := Adapt(r.u[i], bit, du)])
  }

  /** n in unary: n one bits, then a zero bit unless n is the limit.  Cells i, i + 1, ... are used. */
  function UnarySteps(r: Rows, i: nat, n: nat, limit: nat, dv: nat, du: nat): (s: seq<Step>)
    requires i <= n <= limit <= |r.v| && limit <= |r.u| && dv >= 2 && du >= 2
    ensures ValidSteps(s)
    decreases limit - i
  {
    if i < n then [BitStep(Mean(r, i), true)] + UnarySteps(AdaptRows(r, i, true, dv, du), i + 1, n, limit, dv, du)
    else if i < limit then [BitStep(Mean(r, i), false)]
    else []
  }

  function UnaryRows(r: Rows, i: nat, n: nat, limit: nat, dv: nat, du: nat): (r': Rows)
    requires i <= n <= limit <= |r.v| && limit <= |r.u| && dv >= 2 && du >= 2
    ensures |r'.v| == |r.v| && |r'.u| == |r.u|
    decreases limit - i
  {
    if i < n then UnaryRows(AdaptRows(r, i, true, dv, du), i + 1, n, limit, dv, du)
    else if i < limit then AdaptRows(r, i, false, dv, du)
    else r
  }

  /** x without its n lowest bits. */
  function Top(x: nat, n: nat): nat {
    if n == 0 then x else Top(x, n - 1) / 2
  }

  /** Bit number n of x. */
  function Bit(x: nat, n: nat): bool {
    Top(x, n) % 2 == 1
  }

  lemma NextBit(x: nat, n: nat)
    requires n > 0
    ensures Top(x, n - 1) == 2 * Top(x, n) + if Bit(x, n - 1) then 1 else 0
  {
  }

  lemma {:induction false} TopIsDiv(x: nat, n: nat)
    ensures Top(x, n) == x / Pow2(n)
  {
    if n > 0 {
      TopIsDiv(x, n - 1);
      HalfDiv(x, Pow2(n - 1));
    }
  }

  /** The bit of x under a one-bit mask. */
  function Masked(x: nat, mask: nat): bool
    requires mask > 0
  {
    x / mask % 2 == 1
  }

  lemma MaskedIsBit(x: nat, n: nat)
    ensures Masked(x, Pow2(n)) == Bit(x, n)
  {
    TopIsDiv(x, n);
  }

  lemma PowHalf(n: nat)
    ensures n > 0 ==> Pow2(n) / 2 == Pow2(n - 1)
  {
  }

  lemma HalfDiv(x: nat, p: nat)
    requires p > 0
    ensures x / (2 * p) == x / p / 2
  {
    var y := x / p;
    assert x == y * p + x % p;
    var q, b := y / 2, y % 2;
    assert y * p == q * (2 * p) + b * p;
    assert b * p <= p;
    PartOf(x, 2 * p, q, 1);
  }

  /** A cell number below 128 stays below 128 for the given number of further bits. */
  predicate Fits(ctx: nat, bits: nat)
    decreases bits
  {
    bits == 0 || (ctx < 128 && Fits(Child(ctx, false), bits - 1) && Fits(Child(ctx, true), bits - 1))
  }

  lemma {:induction false} FitsIf(ctx: nat, bits: nat)
    requires (ctx + 1) * Pow2(bits) <= 256
    ensures Fits(ctx, bits)
    decreases bits
  {
    if bits > 0 {
      var p := Pow2(bits - 1);
      assert (ctx + 1) * (2 * p) == (2 * ctx + 2) * p;
      MulMono(1, p, ctx + 1);
      MulMono(2 * ctx + 1, 2 * ctx + 2, p);
      FitsIf(Child(ctx, false), bits - 1);
      FitsIf(Child(ctx, true), bits - 1);
    }
  }

  /** The low `bits` bits of x from the top down, each in the cell named by the bits before it. */
  function TreeSteps(row: seq<Prob>, ctx: nat, x: nat, bits: nat): (s: seq<Step>)
    requires |row| == 128 && Fits(ctx, bits)
    ensures ValidSteps(s)
    decreases bits
  {
    if bits == 0 then [] else
      var bit := Bit(x, bits - 1);
      [BitStep(row[ctx], bit)]
      + TreeSteps(row[ctx := Adapt(row[ctx], bit, 128)], Child(ctx, bit), x, bits - 1)
  }

  function TreeRow(row: seq<Prob>, ctx: nat, x: nat, bits: nat): (r: seq<Prob>)
    requires |row| == 128 && Fits(ctx, bits)
    ensures |r| == 128
    decreases bits
  {
    if bits == 0 then row else
      var bit := Bit(x, bits - 1);
      TreeRow(row[ctx := Adapt(row[ctx], bit, 128)], Child(ctx, bit), x, bits - 1)
  }

  function Child(ctx: nat, bit: bool): nat {
    2 * ctx + if bit then 1 else 0
  }

  /** The low n - i bits of x from the top down, in cells i, i + 1, ... */
  function TailSteps(row: seq<Prob>, i: nat, n: nat, x: nat): (s: seq<Step>)
    requires i <= n <= |row|
    ensures ValidSteps(s)
    decreases n - i
  {
    if i == n then [] else
      var bit := Bit(x, n - 1 - i);
      [BitStep(row[i], bit)] + TailSteps(row[i := Adapt(row[i], bit, 64)], i + 1, n, x)
  }

  function TailRow(row: seq<Prob>, i: nat, n: nat, x: nat): (r: seq<Prob>)
    requires i <= n <= |row|
    ensures |r| == |row|
    decreases n - i
  {
    if i == n then row else
      TailRow(row[i := Adapt(row[i], Bit(x, n - 1 - i), 64)], i + 1, n, x)
  }

  lemma UnaryUnfold(r: Rows, i: nat, n: nat, limit: nat, dv: nat, du: nat)
    requires i <= n <= limit <= |r.v| && limit <= |r.u| && dv >= 2 && du >= 2
    ensures i < n ==>
      && UnarySteps(r, i, n, limit, dv, du)
         == [BitStep(Mean(r, i), true)] + UnarySteps(AdaptRows(r, i, true, dv, du), i + 1, n, limit, dv, du)
      && UnaryRows(r, i, n, limit, dv, du) == UnaryRows(AdaptRows(r, i, true, dv, du), i + 1, n, limit, dv, du)
    ensures i == n < limit ==>
      && UnarySteps(r, i, n, limit, dv, du) == [BitStep(Mean(r, i), false)]
      && UnaryRows(r, i, n, limit, dv, du) == AdaptRows(r, i, false, dv, du)
    ensures i == limit ==> UnarySteps(r, i, n, limit, dv, du) == [] && UnaryRows(r, i, n, limit, dv, du) == r
  {
  }

  lemma TreeUnfold(row: seq<Prob>, ctx: nat, x: nat, bits: nat)
    requires |row| == 128 && Fits(ctx, bits)
    ensures bits == 0 ==> TreeSteps(row, ctx, x, bits) == [] && TreeRow(row, ctx, x, bits) == row
    ensures bits > 0 ==>
      && ctx < 128
      && var bit := Bit(x, bits - 1);
      && var row' := row[ctx := Adapt(row[ctx], bit, 128)];
      && Fits(Child(ctx, bit), bits - 1)
      && TreeSteps(row, ctx, x, bits) == [BitStep(row[ctx], bit)] + TreeSteps(row', Child(ctx, bit), x, bits - 1)
      && TreeRow(row, ctx, x, bits) == TreeRow(row', Child(ctx, bit), x, bits - 1)
  {
  }

  lemma TailUnfold(row: seq<Prob>, i: nat, n: nat, x: nat)
    requires i <= n <= |row|
    ensures i == n ==> TailSteps(row, i, n, x) == [] && TailRow(row, i, n, x) == row
    ensures i < n ==>
      && var bit := Bit(x, n - 1 - i);
      && var row' := row[i := Adapt(row[i], bit, 64)];
      && TailSteps(row, i, n, x) == [BitStep(row[i], bit)] + TailSteps(row', i + 1, n, x)
      && TailRow(row, i, n, x) == TailRow(row', i + 1, n, x)
  {
  }

  // ------------------------------------------------------------------ the four-way rank symbol

  predicate Totalled(r: seq<nat>) {
    |r| == 5 && r[4] == r[0] + r[1] + r[2] + r[3]
  }

  const UNIFORM: seq<nat> := [1, 1, 1, 1, 4]
  const ZEROS: seq<nat> := [0, 0, 0, 0, 0]

  /** The order-0 row: every symbol keeps a positive count. */
  type MainRow = r: seq<nat> | Totalled(r) && r[4] <= 58 && forall i :: 0 <= i < 4 ==> r[i] > 0
    witness [1, 1, 1, 1, 4]

  type SideRow = r: seq<nat> | Totalled(r) && r[4] <= 204 witness [0, 0, 0, 0, 0]

  function Bump(r: seq<nat>, s: nat): (b: seq<nat>)
    requires Totalled(r) && s < 4
    ensures Totalled(b) && b[4] == r[4] + 2
    ensures forall i :: 0 <= i < 4 ==> b[i] == r[i] + if i == s then 2 else 0
  {
    r[s := r[s] + 2][4 := r[4] + 2]
  }

  function BumpMain(r: MainRow, s: nat): MainRow
    requires s < 4
  {
    var b := Bump(r, s);
    if b[4] <= 58 then b else
      var h := [(b[0] + 1) / 2, (b[1] + 1) / 2, (b[2] + 1) / 2, (b[3] + 1) / 2];
      h + [h[0] + h[1] + h[2] + h[3]]
  }

  function BumpSide(r: SideRow, s: nat, limit: nat): SideRow
    requires s < 4 && limit <= 204
  {
    var b := Bump(r, s);
    if b[4] <= limit then b else
      var h := [b[0] / 2, b[1] / 2, b[2] / 2, b[3] / 2];
      h + [h[0] + h[1] + h[2] + h[3]]
  }

  function Freq(m: MainRow, v: SideRow, u: SideRow, s: nat): (f: nat)
    requires s < 5
    ensures s < 4 ==> f > 0
  {
    m[s] + u[s] + v[s]
  }

  function Cum(m: MainRow, v: SideRow, u: SideRow, s: nat): nat
    requires s <= 4
  {
    if s == 0 then 0 else Cum(m, v, u, s - 1) + Freq(m, v, u, s - 1)
  }

  lemma CumTotal(m: MainRow, v: SideRow, u: SideRow)
    ensures Cum(m, v, u, 4) == Freq(m, v, u, 4) <= 466
    ensures Cum(m, v, u, 3) == Freq(m, v, u, 4) - Freq(m, v, u, 3)
    ensures Cum(m, v, u, 2) == Freq(m, v, u, 0) + Freq(m, v, u, 1)
    ensures Cum(m, v, u, 1) == Freq(m, v, u, 0)
  {
    assert Cum(m, v, u, 4) == Cum(m, v, u, 3) + Freq(m, v, u, 3);
    assert Cum(m, v, u, 3) == Cum(m, v, u, 2) + Freq(m, v, u, 2);
    assert Cum(m, v, u, 2) == Cum(m, v, u, 1) + Freq(m, v, u, 1);
    assert Cum(m, v, u, 1) == Cum(m, v, u, 0) + Freq(m, v, u, 0);
  }

  function RankStep(m: MainRow, v: SideRow, u: SideRow, s: nat): (st: Step)
    requires s < 4
    ensures ValidStep(st)
  {
    CumTotal(m, v, u);
    Step(Cum(m, v, u, s), Freq(m, v, u, s), Freq(m, v, u, 4))
  }

  // ------------------------------------------------------------------ all tables together

  datatype Tables = Tables(
    l0: MainRow, l01: seq<SideRow>, l02: seq<SideRow>,
    l10: seq<Prob>, l11: seq<seq<Prob>>, l20: seq<seq<Prob>>,
    rle0: seq<seq<Prob>>, rle1: seq<seq<Prob>>, rle2: seq<seq<Prob>>,
    ctxRLE: nat, ctxL0: nat, ctxL1: nat)
  {
    ghost predicate Shape() {
      && |l01| == 256 && |l02| == 1024
      && |l10| == 8 && |l11| == 8 && |l20| == 8
      && (forall i :: 0 <= i < 8 ==> |l11[i]| == 8 && |l20[i]| == 128)
      && |rle0| == 64 && |rle1| == 256 && |rle2| == 24
      && (forall i :: 0 <= i < 64 ==> |rle0[i]| == 24)
      && (forall i :: 0 <= i < 256 ==> |rle1[i]| == 24)
      && (forall i :: 0 <= i < 24 ==> |rle2[i]| == 24)
      && ctxRLE < 16 && ctxL0 < 256 && ctxL1 < 7
    }
  }

  const HALF: Prob := 1024

  function InitTables(): (t: Tables)
    ensures t.Shape()
  {
    Tables(UNIFORM, Repeat(ZEROS, 256), Repeat(ZEROS, 1024),
           Repeat(HALF, 8), Repeat(Repeat(HALF, 8), 8), Repeat(Repeat(HALF, 128), 8),
           Repeat(Repeat(HALF, 24), 64), Repeat(Repeat(HALF, 24), 256), Repeat(Repeat(HALF, 24), 24),
           0, 0, 0)
  }

  datatype Coded = Coded(steps: seq<Step>, after: Tables)

  function CodeSymbol(t: Tables, pred: byte, s: nat): (c: Coded)
    requires t.Shape() && s < 4
    ensures ValidSteps(c.steps) && c.after.Shape()
  {
    var j := 4 * t.ctxL0 + t.ctxRLE % 4;
    Coded([RankStep(t.l0, t.l01[pred], t.l02[j], s)],
          t.(l0 := BumpMain(t.l0, s),
             l01 := t.l01[pred := BumpSide(t.l01[pred], s, 62)],
             l02 := t.l02[j := BumpSide(t.l02[j], s, 204)]))
  }

  const GROUP_BEGIN: seq<nat> := [3, 5, 9, 17, 33, 65, 129]

  /** The group of a rank above 2. */
  function Group(rank: nat): (g: nat)
    requires 3 <= rank <= 256
    ensures g < 7 && GROUP_BEGIN[g] <= rank < GROUP_BEGIN[g] + Pow2(g + 1)
  {
    assert Pow2(1) == 2 && Pow2(2) == 4 && Pow2(3) == 8 && Pow2(4) == 16;
    assert Pow2(5) == 2 * Pow2(4) && Pow2(6) == 2 * Pow2(5) && Pow2(7) == 2 * Pow2(6);
    if rank < 5 then 0 else if rank < 9 then 1 else if rank < 17 then 2 else if rank < 33 then 3
    else if rank < 65 then 4 else if rank < 129 then 5 else 6
  }

  /** A rank of 3..255; the end marker takes the place of rank 256. */
  function CodeGroup(t: Tables, rank: nat): (c: Coded)
    requires t.Shape() && 3 <= rank <= 256
    ensures ValidSteps(c.steps) && c.after.Shape()
  {
    var g := Group(rank);
    var rows := Rows(t.l10, t.l11[t.ctxL1]);
    var rows' := UnaryRows(rows, 0, g, 6, 16, 64);
    TreeRoot(g);
    var pos := rank - GROUP_BEGIN[g];
    Coded(UnarySteps(rows, 0, g, 6, 16, 64) + TreeSteps(t.l20[g], 1, pos, g + 1),
          t.(l10 := rows'.v, l11 := t.l11[t.ctxL1 := rows'.u],
             l20 := t.l20[g := TreeRow(t.l20[g], 1, pos, g + 1)],
             ctxL1 := g))
  }

  lemma TreeRoot(g: nat)
    requires g < 7
    ensures Fits(1, g + 1)
  {
    assert Pow2(1) == 2 && Pow2(2) == 4 && Pow2(3) == 8 && Pow2(4) == 16;
    assert Pow2(5) == 2 * Pow2(4) && Pow2(6) == 2 * Pow2(5) && Pow2(7) == 2 * Pow2(6);
    FitsIf(1, g + 1);
  }

  function Log2(n: nat): (l: nat)
    ensures n > 0 ==> Pow2(l) <= n < 2 * Pow2(l)
  {
    if n < 2 then 0 else 1 + Log2(n / 2)
  }

  const MAXRUN := 0x80_0000       // 2^23

  lemma LogBound(n: nat)
    requires 0 < n < MAXRUN
    ensures Log2(n) < 23
  {
    if Log2(n) >= 23 {
      PowMono(23, Log2(n));
      PowSmall();
    }
  }

  lemma PowSmall()
    ensures Pow2(8) == 256 && Pow2(16) == 65536 && Pow2(23) == MAXRUN
  {
    assert Pow2(4) == 16;
    assert Pow2(8) == 16 * Pow2(4);
    assert Pow2(12) == 16 * Pow2(8);
    assert Pow2(16) == 16 * Pow2(12);
    assert Pow2(20) == 16 * Pow2(16);
    assert Pow2(23) == 8 * Pow2(20);
  }

  lemma {:induction false} PowMono(a: nat, b: nat)
    requires a <= b
    ensures Pow2(a) <= Pow2(b)
    decreases b
  {
    if a < b {
      PowMono(a, b - 1);
    }
  }

  /** Four flags: were the last runs at least four bytes long? */
  function NextRunContext(ctx: nat, l: nat): (c: nat)
    ensures c < 16
  {
    (if l < 2 then 2 * ctx else 2 * ctx + 1) % 16
  }

  /** A run of n equal bytes whose rank symbol was s. */
  function CodeLength(t: Tables, ch: byte, s: nat, n: nat): (c: Coded)
    requires t.Shape() && s < 4 && 0 < n < MAXRUN
    ensures ValidSteps(c.steps) && c.after.Shape()
  {
    LogBound(n);
    var l := Log2(n);
    var rows := Rows(t.rle0[t.ctxRLE + 16 * s], t.rle1[ch]);
    var rows' := UnaryRows(rows, 0, l, 24, 64, 8);
    Coded(UnarySteps(rows, 0, l, 24, 64, 8) + TailSteps(t.rle2[l], 0, l, n),
          t.(rle0 := t.rle0[t.ctxRLE + 16 * s := rows'.v], rle1 := t.rle1[ch := rows'.u],
             rle2 := t.rle2[l := TailRow(t.rle2[l], 0, l, n)],
             ctxRLE := NextRunContext(t.ctxRLE, l)))
  }

  function Symbol(rank: nat): nat {
    if rank < 3 then rank else 3
  }

  /** The rank part: the four-way symbol and, if that is 3, the group. */
  function CodeRank(t: Tables, pred: byte, rank: nat): (c: Coded)
    requires t.Shape() && rank <= 256
    ensures ValidSteps(c.steps) && c.after.Shape()
  {
    var a := CodeSymbol(t, pred, Symbol(rank));
    if rank < 3 then a else
      var b := CodeGroup(a.after, rank);
      Coded(a.steps + b.steps, b.after)
  }

  /** One run: its rank, then its length. */
  function CodeRun(t: Tables, pred: byte, rank: nat, ch: byte, n: nat): (c: Coded)
    requires t.Shape() && rank < 256 && 0 < n < MAXRUN
    ensures ValidSteps(c.steps) && c.after.Shape()
  {
    hide CodeRank, CodeLength;
    var a := CodeRank(t, pred, rank);
    var s := Symbol(rank);
    var b := CodeLength(a.after.(ctxL0 := (4 * a.after.ctxL0 + s) % 256), ch, s, n);
    Coded(a.steps + b.steps, b.after)
  }

  /** The models between the two halves of a run. */
  function BetweenHalves(t: Tables, pred: byte, rank: nat): (m: Tables)
    requires t.Shape() && rank < 256
    ensures m.Shape()
  {
    hide CodeRank;
    var a := CodeRank(t, pred, rank).after;
    a.(ctxL0 := (4 * a.ctxL0 + Symbol(rank)) % 256)
  }

  lemma RunHalves(t: Tables, pred: byte, rank: nat, ch: byte, n: nat)
    requires t.Shape() && rank < 256 && 0 < n < MAXRUN
    ensures
      var b := CodeLength(BetweenHalves(t, pred, rank), ch, Symbol(rank), n);
      CodeRun(t, pred, rank, ch, n) == Coded(CodeRank(t, pred, rank).steps + b.steps, b.after)
  {
    hide CodeRank, CodeLength;
  }
}
