/**
  The models learn what is coded: every bit and every rank symbol makes itself more frequent, so the same
  rank or length coded again in the same contexts takes steps that are at least as likely as before.
 */
module RankGain {
  import opened Bytes
  import opened RangeCoder
  import opened RankModel

  // ------------------------------------------------------------------ one bit

  /** A coded bit gets no rarer, and more frequent as long as the other bit has at least d left. */
  lemma AdaptGains(p: Prob, bit: bool, d: nat)
    requires d >= 2
    ensures BitStep(Adapt(p, bit, d), bit).freq >= BitStep(p, bit).freq
    ensures BitStep(Adapt(p, bit, d), bit).freq > BitStep(p, bit).freq
            <==> (if bit then p else MAXFREQ - p) >= d
  {
    SomeQuotient(if bit then p else MAXFREQ - p, d);
  }

  lemma SomeQuotient(x: nat, d: nat)
    requires d > 0
    ensures x / d >= 0 && (x / d > 0 <==> x >= d)
  {
    if x < d {
      PartOf(x, d, 0, 1);
    }
  }

  function AdaptTimes(p: Prob, bit: bool, d: nat, n: nat): Prob
    requires d >= 2
    decreases n
  {
    if n == 0 then p else AdaptTimes(Adapt(p, bit, d), bit, d, n - 1)
  }

  /** The same bit coded 2048 times leaves less than d of 2048 to the other bit. */
  lemma {:induction false} SameBitLearned(p: Prob, bit: bool, d: nat, n: nat)
    requires d >= 2 && BitStep(p, bit).freq + n >= MAXFREQ
    ensures BitStep(AdaptTimes(p, bit, d, n), bit).freq > MAXFREQ - d
    decreases n
  {
    if n > 0 {
      AdaptGains(p, bit, d);
      var q := Adapt(p, bit, d);
      if BitStep(q, bit).freq == BitStep(p, bit).freq {
        StaysLearned(p, bit, d, n);
      } else {
        SameBitLearned(q, bit, d, n - 1);
      }
    }
  }

  lemma {:induction false} StaysLearned(p: Prob, bit: bool, d: nat, n: nat)
    requires d >= 2 && BitStep(p, bit).freq > MAXFREQ - d
    ensures BitStep(AdaptTimes(p, bit, d, n), bit).freq > MAXFREQ - d
    decreases n
  {
    if n > 0 {
      AdaptGains(p, bit, d);
      StaysLearned(Adapt(p, bit, d), bit, d, n - 1);
    }
  }

  /** As many steps of the same kind, and none of them less likely than before. */
  ghost predicate NoRarer(now: seq<Step>, before: seq<Step>) {
    && |now| == |before|
    && forall k :: 0 <= k < |now| ==> now[k].tot == before[k].tot && now[k].freq >= before[k].freq
  }

  // ------------------------------------------------------------------ rows of cells

  /** A number in unary adapts the cells it passes toward one, the cell it stops in toward zero, and no other. */
  lemma {:induction false} UnaryCells(r: Rows, i: nat, n: nat, limit: nat, dv: nat, du: nat)
    requires i <= n <= limit <= |r.v| && limit <= |r.u| && dv >= 2 && du >= 2
    ensures
      var r' := UnaryRows(r, i, n, limit, dv, du);
      && (forall j :: 0 <= j < |r.v| ==>
            r'.v[j] == if i <= j <= n && j < limit then Adapt(r.v[j], j < n, dv) else r.v[j])
      && (forall j :: 0 <= j < |r.u| ==>
            r'.u[j] == if i <= j <= n && j < limit then Adapt(r.u[j], j < n, du) else r.u[j])
    decreases limit - i
  {
    hide Adapt;
    if i < n {
      UnaryCells(AdaptRows(r, i, true, dv, du), i + 1, n, limit, dv, du);
    }
  }

  lemma {:induction false} UnaryStepAt(r: Rows, i: nat, n: nat, limit: nat, dv: nat, du: nat, k: nat)
    requires i <= n <= limit <= |r.v| && limit <= |r.u| && dv >= 2 && du >= 2
    ensures |UnarySteps(r, i, n, limit, dv, du)| == n - i + if n < limit then 1 else 0
    ensures k < |UnarySteps(r, i, n, limit, dv, du)| ==>
      i + k < limit && UnarySteps(r, i, n, limit, dv, du)[k] == BitStep(Mean(r, i + k), i + k < n)
    decreases limit - i
  {
    hide Adapt, BitStep;
    if i < n {
      UnaryStepAt(AdaptRows(r, i, true, dv, du), i + 1, n, limit, dv, du, if k > 0 then k - 1 else 0);
    }
  }

  lemma UnaryAgain(r: Rows, n: nat, limit: nat, dv: nat, du: nat)
    requires n <= limit <= |r.v| && limit <= |r.u| && dv >= 2 && du >= 2
    ensures NoRarer(UnarySteps(UnaryRows(r, 0, n, limit, dv, du), 0, n, limit, dv, du),
                    UnarySteps(r, 0, n, limit, dv, du))
  {
    hide Adapt, UnarySteps, UnaryRows;
    var r' := UnaryRows(r, 0, n, limit, dv, du);
    UnaryCells(r, 0, n, limit, dv, du);
    UnaryStepAt(r, 0, n, limit, dv, du, 0);
    UnaryStepAt(r', 0, n, limit, dv, du, 0);
    var before, now := UnarySteps(r, 0, n, limit, dv, du), UnarySteps(r', 0, n, limit, dv, du);
    forall k | 0 <= k < |now|
      ensures now[k].tot == before[k].tot && now[k].freq >= before[k].freq
    {
      UnaryStepAt(r, 0, n, limit, dv, du, k);
      UnaryStepAt(r', 0, n, limit, dv, du, k);
      AdaptGains(r.v[k], k < n, dv);
      AdaptGains(r.u[k], k < n, du);
    }
  }

  /** The rows when the same number has been coded k times. */
  function UnaryTimes(r: Rows, n: nat, limit: nat, dv: nat, du: nat, k: nat): (r': Rows)
    requires n <= limit <= |r.v| && limit <= |r.u| && dv >= 2 && du >= 2
    ensures |r'.v| == |r.v| && |r'.u| == |r.u|
    decreases k
  {
    if k == 0 then r else UnaryTimes(UnaryRows(r, 0, n, limit, dv, du), n, limit, dv, du, k - 1)
  }

  lemma {:induction false} UnaryTimesCells(r: Rows, n: nat, limit: nat, dv: nat, du: nat, k: nat, j: nat)
    requires n <= limit <= |r.v| && limit <= |r.u| && dv >= 2 && du >= 2 && j <= n && j < limit
    ensures UnaryTimes(r, n, limit, dv, du, k).v[j] == AdaptTimes(r.v[j], j < n, dv, k)
    ensures UnaryTimes(r, n, limit, dv, du, k).u[j] == AdaptTimes(r.u[j], j < n, du, k)
    decreases k
  {
    hide Adapt, UnaryRows;
    if k > 0 {
      UnaryCells(r, 0, n, limit, dv, du);
      UnaryTimesCells(UnaryRows(r, 0, n, limit, dv, du), n, limit, dv, du, k - 1, j);
    }
  }

  /** A number that is coded 2048 times takes steps that leave less than dv or du of 2048 to anything else. */
  lemma UnaryLearned(r: Rows, n: nat, limit: nat, dv: nat, du: nat, k: nat, i: nat)
    requires n <= limit <= |r.v| && limit <= |r.u| && dv >= 2 && du >= 2 && k >= MAXFREQ
    requires i < |UnarySteps(UnaryTimes(r, n, limit, dv, du, k), 0, n, limit, dv, du)|
    ensures
      var st := UnarySteps(UnaryTimes(r, n, limit, dv, du, k), 0, n, limit, dv, du)[i];
      st.tot == MAXFREQ && (st.freq > MAXFREQ - dv || st.freq > MAXFREQ - du)
  {
    hide Adapt, UnaryRows, UnarySteps, UnaryTimes, AdaptTimes;
    var r' := UnaryTimes(r, n, limit, dv, du, k);
    UnaryStepAt(r', 0, n, limit, dv, du, i);
    UnaryTimesCells(r, n, limit, dv, du, k, i);
    SameBitLearned(r.v[i], i < n, dv, k);
    SameBitLearned(r.u[i], i < n, du, k);
  }

  /** The cell of bit number k on the way down a tree. */
  function TreeCell(ctx: nat, x: nat, bits: nat, k: nat): nat
    requires k <= bits
    decreases bits
  {
    if k == 0 then ctx else TreeCell(Child(ctx, Bit(x, bits - 1)), x, bits - 1, k - 1)
  }

  lemma {:induction false} DeeperCell(ctx: nat, x: nat, bits: nat, k: nat)
    requires ctx > 0 && k <= bits
    ensures if k == 0 then TreeCell(ctx, x, bits, k) == ctx else TreeCell(ctx, x, bits, k) > ctx
    decreases bits
  {
    hide Bit;
    if k > 0 {
      DeeperCell(Child(ctx, Bit(x, bits - 1)), x, bits - 1, k - 1);
    }
  }

  /** The bits of a number are coded by the cells on its way, and those are the cells that adapt, each to its bit. */
  lemma {:induction false} TreeStepAt(row: seq<Prob>, ctx: nat, x: nat, bits: nat, k: nat)
    requires |row| == 128 && Fits(ctx, bits) && ctx > 0
    ensures |TreeSteps(row, ctx, x, bits)| == bits
    ensures k < bits ==>
      && var c := TreeCell(ctx, x, bits, k);
      && c < 128
      && TreeSteps(row, ctx, x, bits)[k] == BitStep(row[c], Bit(x, bits - 1 - k))
      && TreeRow(row, ctx, x, bits)[c] == Adapt(row[c], Bit(x, bits - 1 - k), 128)
    decreases bits
  {
    hide Bit, Adapt, BitStep;
    if bits > 0 {
      var bit := Bit(x, bits - 1);
      var row' := row[ctx := Adapt(row[ctx], bit, 128)];
      TreeStepAt(row', Child(ctx, bit), x, bits - 1, if k > 0 then k - 1 else 0);
      WayGoesDown(Child(ctx, bit), x, bits - 1, ctx);
      TreeKeeps(row', Child(ctx, bit), x, bits - 1, ctx);
      if 0 < k < bits {
        DeeperCell(ctx, x, bits, k);
      }
    }
  }

  /** Is cell j one of those on the way? */
  predicate OnWay(ctx: nat, x: nat, bits: nat, j: nat)
    decreases bits
  {
    bits > 0 && (j == ctx || OnWay(Child(ctx, Bit(x, bits - 1)), x, bits - 1, j))
  }

  lemma {:induction false} WayGoesDown(ctx: nat, x: nat, bits: nat, j: nat)
    requires 0 < ctx && j < ctx
    ensures !OnWay(ctx, x, bits, j)
    decreases bits
  {
    hide Bit;
    if bits > 0 {
      WayGoesDown(Child(ctx, Bit(x, bits - 1)), x, bits - 1, j);
    }
  }

  lemma {:induction false} TreeKeeps(row: seq<Prob>, ctx: nat, x: nat, bits: nat, j: nat)
    requires |row| == 128 && Fits(ctx, bits) && j < 128 && !OnWay(ctx, x, bits, j)
    ensures TreeRow(row, ctx, x, bits)[j] == row[j]
    decreases bits
  {
    hide Bit, Adapt;
    if bits > 0 {
      var bit := Bit(x, bits - 1);
      TreeKeeps(row[ctx := Adapt(row[ctx], bit, 128)], Child(ctx, bit), x, bits - 1, j);
    }
  }

  lemma TreeAgain(row: seq<Prob>, x: nat, bits: nat)
    requires |row| == 128 && Fits(1, bits)
    ensures NoRarer(TreeSteps(TreeRow(row, 1, x, bits), 1, x, bits), TreeSteps(row, 1, x, bits))
  {
    hide Bit, Adapt, TreeSteps, TreeRow, TreeCell;
    var row' := TreeRow(row, 1, x, bits);
    var before, now := TreeSteps(row, 1, x, bits), TreeSteps(row', 1, x, bits);
    TreeStepAt(row, 1, x, bits, 0);
    TreeStepAt(row', 1, x, bits, 0);
    forall k | 0 <= k < |now|
      ensures now[k].tot == before[k].tot && now[k].freq >= before[k].freq
    {
      TreeStepAt(row, 1, x, bits, k);
      TreeStepAt(row', 1, x, bits, k);
      AdaptGains(row[TreeCell(1, x, bits, k)], Bit(x, bits - 1 - k), 128);
    }
  }

  /** The bits of a length are coded by the cells in turn, which adapt each to its bit, and no other cell does. */
  lemma {:induction false} TailCells(row: seq<Prob>, i: nat, n: nat, x: nat, j: nat)
    requires i <= n <= |row|
    ensures |TailSteps(row, i, n, x)| == n - i
    ensures i <= j < n ==> TailSteps(row, i, n, x)[j - i] == BitStep(row[j], Bit(x, n - 1 - j))
    ensures j < |row| ==>
      TailRow(row, i, n, x)[j] == if i <= j < n then Adapt(row[j], Bit(x, n - 1 - j), 64) else row[j]
    decreases n - i
  {
    hide Bit, Adapt, BitStep, TailSteps, TailRow;
    TailUnfold(row, i, n, x);
    if i < n {
      TailCells(row[i := Adapt(row[i], Bit(x, n - 1 - i), 64)], i + 1, n, x, j);
    }
  }

  lemma TailAgain(row: seq<Prob>, n: nat, x: nat)
    requires n <= |row|
    ensures NoRarer(TailSteps(TailRow(row, 0, n, x), 0, n, x), TailSteps(row, 0, n, x))
  {
    hide Bit, Adapt, TailSteps, TailRow;
    var row' := TailRow(row, 0, n, x);
    var before, now := TailSteps(row, 0, n, x), TailSteps(row', 0, n, x);
    TailCells(row, 0, n, x, 0);
    TailCells(row', 0, n, x, 0);
    forall k | 0 <= k < |now|
      ensures now[k].tot == before[k].tot && now[k].freq >= before[k].freq
    {
      TailCells(row, 0, n, x, k);
      TailCells(row', 0, n, x, k);
      AdaptGains(row[k], Bit(x, n - 1 - k), 64);
    }
  }

  // ------------------------------------------------------------------ the four-way rank symbol

  /** A row full of counts is halved after the symbol was counted; in the other rows nothing else changes. */
  lemma MainCounts(r: MainRow, s: nat, i: nat)
    requires s < 4 && i < 4
    ensures BumpMain(r, s)[i] == (if r[4] <= 56 then r[i] else (r[i] + 1) / 2) + if i != s then 0 else if r[4] <= 56 then 2 else 1
    ensures i != s ==> BumpMain(r, s)[i] <= r[i]
  {
    hide Bump;
    assert (r[s] + 2 + 1) / 2 == (r[s] + 1) / 2 + 1;
  }

  lemma MainTotal(r: MainRow, s: nat)
    requires s < 4
    ensures BumpMain(r, s)[4] == BumpMain(r, 0)[4]
    ensures r[4] <= 56 ==> BumpMain(r, s)[4] == r[4] + 2
  {
    hide BumpMain;
    MainCounts(r, s, 0);
    MainCounts(r, s, 1);
    MainCounts(r, s, 2);
    MainCounts(r, s, 3);
    MainCounts(r, 0, 0);
    MainCounts(r, 0, 1);
    MainCounts(r, 0, 2);
    MainCounts(r, 0, 3);
  }

  lemma SideCounts(r: SideRow, s: nat, i: nat, limit: nat)
    requires s < 4 && i < 4 && limit <= 204
    ensures BumpSide(r, s, limit)[i]
            == (if r[4] + 2 <= limit then r[i] else r[i] / 2) + if i != s then 0 else if r[4] + 2 <= limit then 2 else 1
    ensures i != s ==> BumpSide(r, s, limit)[i] <= r[i]
  {
    hide Bump;
    assert (r[s] + 2) / 2 == r[s] / 2 + 1;
  }

  lemma SideTotal(r: SideRow, s: nat, limit: nat)
    requires s < 4 && limit <= 204
    ensures BumpSide(r, s, limit)[4] == BumpSide(r, 0, limit)[4]
    ensures r[4] + 2 <= limit ==> BumpSide(r, s, limit)[4] == r[4] + 2
  {
    hide BumpSide;
    SideCounts(r, s, 0, limit);
    SideCounts(r, s, 1, limit);
    SideCounts(r, s, 2, limit);
    SideCounts(r, s, 3, limit);
    SideCounts(r, 0, 0, limit);
    SideCounts(r, 0, 1, limit);
    SideCounts(r, 0, 2, limit);
    SideCounts(r, 0, 3, limit);
  }

  /** Which row of the longer history counts the next symbol. */
  function HistoryRow(t: Tables): (j: nat)
    requires t.Shape()
    ensures j < |t.l02|
  {
    4 * t.ctxL0 + t.ctxRLE % 4
  }

  /** The step rank symbol s takes, coded after byte pred. */
  function SymbolStep(t: Tables, pred: byte, s: nat): (st: Step)
    requires t.Shape() && s < 4
    ensures CodeSymbol(t, pred, s).steps == [st]
  {
    RankStep(t.l0, t.l01[pred], t.l02[HistoryRow(t)], s)
  }

  lemma SymbolAfter(t: Tables, pred: byte, s: nat, i: nat)
    requires t.Shape() && s < 4 && i < 4
    ensures
      var st, st' := SymbolStep(t, pred, i), SymbolStep(CodeSymbol(t, pred, s).after, pred, i);
      var m, v, u := t.l0, t.l01[pred], t.l02[HistoryRow(t)];
      var m', v', u' := BumpMain(m, s), BumpSide(v, s, 62), BumpSide(u, s, 204);
      && st.freq == m[i] + v[i] + u[i] && st.tot == m[4] + v[4] + u[4]
      && st'.freq == m'[i] + v'[i] + u'[i] && st'.tot == m'[4] + v'[4] + u'[4]
  {
    hide BumpMain, BumpSide, Cum;
  }

  /**
    It is the coded symbol that gains.  No other symbol gets a count, and of two symbols the one that was
    coded has at least 3 more of the same total than if the other had been.
   */
  lemma SymbolGains(t: Tables, pred: byte, s: nat, i: nat)
    requires t.Shape() && s < 4 && i < 4 && i != s
    ensures
      var a, b := CodeSymbol(t, pred, s).after, CodeSymbol(t, pred, i).after;
      && SymbolStep(a, pred, i).freq <= SymbolStep(t, pred, i).freq
      && SymbolStep(a, pred, s).tot == SymbolStep(b, pred, s).tot
      && SymbolStep(a, pred, s).freq >= SymbolStep(b, pred, s).freq + 3
  {
    hide BumpMain, BumpSide, SymbolStep, CodeSymbol, HistoryRow, Tables.Shape;
    SymbolAfter(t, pred, s, i);
    SymbolAfter(t, pred, s, s);
    SymbolAfter(t, pred, i, s);
    var v, u := SideRows(t, pred);
    MainCounts(t.l0, s, i);
    MainCounts(t.l0, i, s);
    MainCounts(t.l0, s, s);
    SideCounts(v, s, i, 62);
    SideCounts(v, i, s, 62);
    SideCounts(v, s, s, 62);
    SideCounts(u, s, i, 204);
    SideCounts(u, i, s, 204);
    SideCounts(u, s, s, 204);
    MainTotal(t.l0, s);
    MainTotal(t.l0, i);
    SideTotal(v, s, 62);
    SideTotal(v, i, 62);
    SideTotal(u, s, 204);
    SideTotal(u, i, 204);
  }

  lemma SideRows(t: Tables, pred: byte) returns (v: SideRow, u: SideRow)
    requires t.Shape()
    ensures pred < |t.l01| && v == t.l01[pred] && u == t.l02[HistoryRow(t)]
  {
    v, u := t.l01[pred], t.l02[HistoryRow(t)];
  }

  /** No row that counts the symbol is so full that it is halved next. */
  predicate NoneFull(t: Tables, pred: byte)
    requires t.Shape()
  {
    t.l0[4] <= 56 && t.l01[pred][4] <= 60 && t.l02[HistoryRow(t)][4] <= 202
  }

  /** Unless a row is halved, the share of the coded symbol grows, by 6 in counts and in total. */
  lemma SymbolShareGrows(t: Tables, pred: byte, s: nat)
    requires t.Shape() && s < 4 && NoneFull(t, pred)
    ensures
      var before, now := SymbolStep(t, pred, s), SymbolStep(CodeSymbol(t, pred, s).after, pred, s);
      && now.freq == before.freq + 6 && now.tot == before.tot + 6
      && now.freq * before.tot > before.freq * now.tot
  {
    hide BumpMain, BumpSide, SymbolStep, CodeSymbol, HistoryRow, Tables.Shape, Cum;
    SymbolAfter(t, pred, s, s);
    var v, u := SideRows(t, pred);
    MainCounts(t.l0, s, s);
    SideCounts(v, s, s, 62);
    SideCounts(u, s, s, 204);
    MainTotal(t.l0, s);
    SideTotal(v, s, 62);
    SideTotal(u, s, 204);
    OthersLeft(t.l0, v, u, s);
    ShareGrows(SymbolStep(t, pred, s).freq, SymbolStep(t, pred, s).tot, 6);
  }

  lemma OthersLeft(m: MainRow, v: SideRow, u: SideRow, s: nat)
    requires s < 4
    ensures RankStep(m, v, u, s).freq < RankStep(m, v, u, s).tot
  {
    var other := if s == 0 then 1 else 0;
    assert m[other] > 0;
  }

  lemma ShareGrows(f: nat, t: nat, k: nat)
    requires f < t && k > 0
    ensures (f + k) * t > f * (t + k)
  {
    MulMono(f + 1, t, k);
  }

  /** A halving can cost the coded symbol some of its share: counts of 1 are not halved. */
  lemma HalvingMayLose()
    ensures
      var m: MainRow := [55, 1, 1, 1, 58];
      BumpMain(m, 0) == [29, 1, 1, 1, 32] && 29 * 58 < 55 * 32
  {
  }

  // ------------------------------------------------------------------ ranks and lengths

  /** The same large rank after the same group as before: no step is less likely. */
  lemma GroupAgain(t: Tables, rank: nat)
    requires t.Shape() && 3 <= rank <= 256
    ensures
      var c := CodeGroup(t, rank);
      NoRarer(CodeGroup(c.after.(ctxL1 := t.ctxL1), rank).steps, c.steps)
  {
    hide UnarySteps, UnaryRows, TreeSteps, TreeRow, Fits;
    var g := Group(rank);
    TreeRoot(g);
    var pos := rank - GROUP_BEGIN[g];
    var rows := Rows(t.l10, t.l11[t.ctxL1]);
    UnaryAgain(rows, g, 6, 16, 64);
    TreeAgain(t.l20[g], pos, g + 1);
    var c := CodeGroup(t, rank);
    var t' := c.after.(ctxL1 := t.ctxL1);
    assert Rows(t'.l10, t'.l11[t'.ctxL1]) == UnaryRows(rows, 0, g, 6, 16, 64);
    assert t'.l20[g] == TreeRow(t.l20[g], 1, pos, g + 1);
    NoRarerBoth(UnarySteps(UnaryRows(rows, 0, g, 6, 16, 64), 0, g, 6, 16, 64),
                UnarySteps(rows, 0, g, 6, 16, 64),
                TreeSteps(t'.l20[g], 1, pos, g + 1), TreeSteps(t.l20[g], 1, pos, g + 1));
  }

  /** The same length of the same byte after the same symbol and runs as before: no step is less likely. */
  lemma LengthAgain(t: Tables, ch: byte, s: nat, n: nat)
    requires t.Shape() && s < 4 && 0 < n < MAXRUN
    ensures
      var c := CodeLength(t, ch, s, n);
      NoRarer(CodeLength(c.after.(ctxRLE := t.ctxRLE), ch, s, n).steps, c.steps)
  {
    hide UnarySteps, UnaryRows, TailSteps, TailRow;
    LogBound(n);
    var l := Log2(n);
    var rows := Rows(t.rle0[t.ctxRLE + 16 * s], t.rle1[ch]);
    UnaryAgain(rows, l, 24, 64, 8);
    TailAgain(t.rle2[l], l, n);
    var c := CodeLength(t, ch, s, n);
    var t' := c.after.(ctxRLE := t.ctxRLE);
    assert Rows(t'.rle0[t'.ctxRLE + 16 * s], t'.rle1[ch]) == UnaryRows(rows, 0, l, 24, 64, 8);
    assert t'.rle2[l] == TailRow(t.rle2[l], 0, l, n);
    NoRarerBoth(UnarySteps(UnaryRows(rows, 0, l, 24, 64, 8), 0, l, 24, 64, 8),
                UnarySteps(rows, 0, l, 24, 64, 8), TailSteps(t'.rle2[l], 0, l, n), TailSteps(t.rle2[l], 0, l, n));
  }

  lemma NoRarerBoth(a: seq<Step>, a0: seq<Step>, b: seq<Step>, b0: seq<Step>)
    requires NoRarer(a, a0) && NoRarer(b, b0)
    ensures NoRarer(a + b, a0 + b0)
  {
  }

  // ------------------------------------------------------------------ the contexts

  /**
    The contexts hold the last four symbols and four flags for long runs: the newest enters at the bottom and the
    oldest leaves at the top.  The group is the last one there was.
   */
  lemma RunContexts(t: Tables, pred: byte, rank: nat, ch: byte, n: nat)
    requires t.Shape() && rank < 256 && 0 < n < MAXRUN
    ensures
      var after := CodeRun(t, pred, rank, ch, n).after;
      && after.ctxL0 % 4 == Symbol(rank) && after.ctxL0 / 4 == t.ctxL0 % 64
      && after.ctxRLE % 2 == (if n < 4 then 0 else 1) && after.ctxRLE / 2 == t.ctxRLE % 8
      && after.ctxL1 == if rank < 3 then t.ctxL1 else Group(rank)
  {
    hide UnarySteps, UnaryRows, TreeSteps, TreeRow, TailSteps, TailRow, BumpMain, BumpSide, Fits, Group, NextRunContext, Log2, Pow2;
    RunHalves(t, pred, rank, ch, n);
    LogBound(n);
    ShiftedIn(t.ctxL0, Symbol(rank));
    FlagIn(t.ctxRLE, Log2(n));
    LogIsLong(n);
  }

  lemma ShiftedIn(c: nat, s: nat)
    requires s < 4
    ensures (4 * c + s) % 256 % 4 == s && (4 * c + s) % 256 / 4 == c % 64
  {
    var h, r: nat := c / 64, c % 64;
    Wrapped(h, 4 * r + s);
    assert 4 * c + s == 256 * h + (4 * r + s);
    LastDigit(r, s);
  }

  lemma Wrapped(h: nat, v: nat)
    requires v < 256
    ensures (256 * h + v) % 256 == v
  {
  }

  lemma LastDigit(r: nat, s: nat)
    requires s < 4
    ensures (4 * r + s) % 4 == s && (4 * r + s) / 4 == r
  {
  }

  lemma FlagIn(ctx: nat, l: nat)
    ensures NextRunContext(ctx, l) % 2 == (if l < 2 then 0 else 1) && NextRunContext(ctx, l) / 2 == ctx % 8
  {
  }

  lemma LogIsLong(n: nat)
    requires n > 0
    ensures Log2(n) < 2 <==> n < 4
  {
  }
}
