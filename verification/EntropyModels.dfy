/** The tables of Init_Models as one object, and the coding of a whole run with them. */
module EntropyModels {
  import opened Bytes
  import opened RangeCoder
  import opened RankModel
  import opened RankCoder

  const RUN_BASES: seq<nat> :=
    [1, 2, 4, 8, 16, 32, 64, 128, 256, 512, 1024, 2048, 4096, 8192, 16384, 32768, 65536, 131072, 262144,
     524288, 1048576, 2097152, 4194304, 0]

  lemma RunBaseIsPow2(l: nat)
    requires l < 23
    ensures |RUN_BASES| == 24 && RUN_BASES[l] == Pow2(l)
  {
    PowFirst();
    if l >= 8 {
      PowNext();
      PowLast();
    }
  }

  lemma PowFirst()
    ensures Pow2(0) == 1 && Pow2(1) == 2 && Pow2(2) == 4 && Pow2(3) == 8
    ensures Pow2(4) == 16 && Pow2(5) == 32 && Pow2(6) == 64 && Pow2(7) == 128 && Pow2(8) == 256
  {
    assert Pow2(4) == 2 * Pow2(3) && Pow2(5) == 2 * Pow2(4) && Pow2(6) == 2 * Pow2(5);
    assert Pow2(7) == 2 * Pow2(6) && Pow2(8) == 2 * Pow2(7);
  }

  lemma PowNext()
    ensures Pow2(8) == 256 && Pow2(9) == 512 && Pow2(10) == 1024 && Pow2(11) == 2048 && Pow2(12) == 4096
    ensures Pow2(13) == 8192 && Pow2(14) == 16384 && Pow2(15) == 32768 && Pow2(16) == 65536
  {
    PowFirst();
    assert Pow2(9) == 2 * Pow2(8) && Pow2(10) == 2 * Pow2(9) && Pow2(11) == 2 * Pow2(10);
    assert Pow2(12) == 2 * Pow2(11) && Pow2(13) == 2 * Pow2(12) && Pow2(14) == 2 * Pow2(13);
    assert Pow2(15) == 2 * Pow2(14) && Pow2(16) == 2 * Pow2(15);
  }

  lemma PowLast()
    ensures Pow2(17) == 131072 && Pow2(18) == 262144 && Pow2(19) == 524288 && Pow2(20) == 1048576
    ensures Pow2(21) == 2097152 && Pow2(22) == 4194304
  {
    PowNext();
    assert Pow2(17) == 2 * Pow2(16) && Pow2(18) == 2 * Pow2(17) && Pow2(19) == 2 * Pow2(18);
    assert Pow2(20) == 2 * Pow2(19) && Pow2(21) == 2 * Pow2(20) && Pow2(22) == 2 * Pow2(21);
  }

  class Models {
    var l0: MainRow
    var l01: seq<SideRow>
    var l02: seq<SideRow>
    var l10: seq<Prob>
    var l11: seq<seq<Prob>>
    var l20: seq<seq<Prob>>
    var rle0: seq<seq<Prob>>
    var rle1: seq<seq<Prob>>
    var rle2: seq<seq<Prob>>
    var ctxRLE: nat
    var ctxL0: nat
    var ctxL1: nat

    function View(): Tables
      reads this
    {
      Tables(l0, l01, l02, l10, l11, l20, rle0, rle1, rle2, ctxRLE, ctxL0, ctxL1)
    }

    ghost predicate Valid()
      reads this
    {
      View().Shape()
    }

    constructor ()
      ensures View() == InitTables()
    {
      l0 := UNIFORM;
      l01, l02 := Repeat(ZEROS, 256), Repeat(ZEROS, 1024);
      l10, l11, l20 := Repeat(HALF, 8), Repeat(Repeat(HALF, 8), 8), Repeat(Repeat(HALF, 128), 8);
      rle0, rle1 := Repeat(Repeat(HALF, 24), 64), Repeat(Repeat(HALF, 24), 256);
      rle2 := Repeat(Repeat(HALF, 24), 24);
      ctxRLE, ctxL0, ctxL1 := 0, 0, 0;
    }

    // ---------------------------------------------------------------- encoding

    method EncodeSymbol(enc: RangeEncoder, pred: byte, s: nat)
      requires Valid() && enc.Valid() && s < 4
      modifies this, enc
      ensures enc.Valid() && enc.steps == old(enc.steps) + CodeSymbol(old(View()), pred, s).steps
      ensures View() == CodeSymbol(old(View()), pred, s).after
      ensures |old(enc.output)| <= |enc.output|
    {
      hide BumpMain, BumpSide, Cum, ValidStep, ValidSteps;
      hide RangeEncoder.Valid;
      var j := 4 * ctxL0 + ctxRLE % 4;
      var v, u := l01[pred], l02[j];
      var cum := SymbolCum(l0, v, u, s);
      assert RankStep(l0, v, u, s).cum == cum;
      enc.Encode(l0[s] + u[s] + v[s], cum, l0[4] + u[4] + v[4]);
      l0, l01, l02 := BumpMain(l0, s), l01[pred := BumpSide(v, s, 62)], l02[j := BumpSide(u, s, 204)];
    }

    static method SymbolCum(m: MainRow, v: SideRow, u: SideRow, s: nat) returns (cum: nat)
      requires s < 4
      ensures cum == Cum(m, v, u, s)
    {
      cum := 0;
      if s < 3 {
        for t := 0 to s
          invariant cum == Cum(m, v, u, t)
        {
          cum := cum + u[t] + v[t] + m[t];
        }
      } else {
        CumTotal(m, v, u);
        cum := m[4] + u[4] + v[4] - m[3] - u[3] - v[3];
      }
    }

    method EncodeGroup(enc: RangeEncoder, rank: nat)
      requires Valid() && enc.Valid() && 3 <= rank < 256
      modifies this, enc
      ensures enc.Valid() && enc.steps == old(enc.steps) + CodeGroup(old(View()), rank).steps
      ensures View() == CodeGroup(old(View()), rank).after
      ensures |old(enc.output)| <= |enc.output|
    {
      hide UnarySteps, UnaryRows, TreeSteps, TreeRow, Fits, Pow2;
      hide RangeEncoder.Valid;
      var g := Group(rank);
      var pos := rank - GROUP_BEGIN[g];
      TreeRoot(g);
      var c := ctxL1;
      var rows := EncodeUnary(enc, Rows(l10, l11[c]), g, 6, 16, 64);
      l10, l11, ctxL1 := rows.v, l11[c := rows.u], g;
      var row := EncodeTree(enc, l20[g], pos, g);
      l20 := l20[g := row];
    }

    method EncodeRank(enc: RangeEncoder, pred: byte, rank: nat)
      requires Valid() && enc.Valid() && rank < 256
      modifies this, enc
      ensures enc.Valid() && enc.steps == old(enc.steps) + CodeRank(old(View()), pred, rank).steps
      ensures View() == CodeRank(old(View()), pred, rank).after
      ensures |old(enc.output)| <= |enc.output|
    {
      hide CodeGroup, CodeSymbol;
      hide RangeEncoder.Valid;
      if rank < 3 {
        EncodeSymbol(enc, pred, rank);
      } else {
        EncodeSymbol(enc, pred, 3);
        EncodeGroup(enc, rank);
      }
    }

    /** Log2 of the run length, by shifting. */
    static method RunLog(n: nat) returns (l: nat)
      requires n > 0
      ensures l == Log2(n)
    {
      if n == 1 {
        l := 0;
        return;
      }
      l := 1;
      var tmp := n / 2;
      while tmp != 1
        invariant tmp > 0 && l + Log2(tmp) == Log2(n)
      {
        l := l + 1;
        tmp := tmp / 2;
      }
    }

    method EncodeLength(enc: RangeEncoder, ch: byte, s: nat, n: nat)
      requires Valid() && enc.Valid() && s < 4 && 0 < n < MAXRUN
      modifies this, enc
      ensures enc.Valid() && enc.steps == old(enc.steps) + CodeLength(old(View()), ch, s, n).steps
      ensures View() == CodeLength(old(View()), ch, s, n).after
      ensures |old(enc.output)| <= |enc.output|
    {
      hide UnarySteps, UnaryRows, TailSteps, TailRow, Pow2, Log2;
      hide RangeEncoder.Valid;
      LogBound(n);
      var l := RunLog(n);
      var c := ctxRLE + 16 * s;
      var rows := EncodeUnary(enc, Rows(rle0[c], rle1[ch]), l, 24, 64, 8);
      rle0, rle1 := rle0[c := rows.v], rle1[ch := rows.u];
      ctxRLE := NextRunContext(ctxRLE, l);
      var row := EncodeTail(enc, rle2[l], n, l);
      rle2 := rle2[l := row];
    }

    method EncodeRun(enc: RangeEncoder, pred: byte, rank: nat, ch: byte, n: nat)
      requires Valid() && enc.Valid() && rank < 256 && 0 < n < MAXRUN
      modifies this, enc
      ensures enc.Valid() && enc.steps == old(enc.steps) + CodeRun(old(View()), pred, rank, ch, n).steps
      ensures Valid() && View() == CodeRun(old(View()), pred, rank, ch, n).after
      ensures |old(enc.output)| <= |enc.output|
    {
      hide RangeEncoder.Valid, CodeRank, CodeLength, CodeRun, BetweenHalves, Tables.Shape;
      RunHalves(View(), pred, rank, ch, n);
      ghost var before := View();
      EncodeRank(enc, pred, rank);
      var s := NoteRank(rank, before, pred);
      EncodeLength(enc, ch, s, n);
    }

    /** The end marker: the group symbols of the non-existing rank 256. */
    method EncodeEnd(enc: RangeEncoder, pred: byte)
      requires Valid() && enc.Valid()
      modifies this, enc
      ensures enc.Valid() && enc.steps == old(enc.steps) + CodeRank(old(View()), pred, 256).steps
    {
      hide UnarySteps, UnaryRows, TreeSteps, TreeRow, Fits, Pow2;
      hide RangeEncoder.Valid;
      EncodeSymbol(enc, pred, 3);
      TreeRoot(6);
      var rows := EncodeUnary(enc, Rows(l10, l11[ctxL1]), 6, 6, 16, 64);
      var row := EncodeTree(enc, l20[6], 127, 6);
    }

    /** Shifts a coded rank into the order-0 context; returns its four-way symbol. */
    method NoteRank(rank: nat, ghost before: Tables, ghost pred: byte) returns (s: nat)
      requires before.Shape() && rank < 256 && View() == CodeRank(before, pred, rank).after
      modifies this
      ensures s == Symbol(rank) < 4 && View() == BetweenHalves(before, pred, rank)
    {
      hide CodeRank;
      s := if rank > 3 then 3 else rank;
      ctxL0 := (4 * ctxL0 + s) % 256;
    }

    // ---------------------------------------------------------------- decoding

    method DecodeSymbol(dec: RangeDecoder, pred: byte, ghost s: nat, ghost tail: seq<Step>) returns (r: nat)
      requires Valid() && dec.Valid() && s < 4
      requires dec.Rest() == CodeSymbol(View(), pred, s).steps + tail
      modifies this, dec
      ensures dec.Valid() && dec.Rest() == tail && r == s
      ensures View() == CodeSymbol(old(View()), pred, s).after
    {
      hide BumpMain, BumpSide, RankStep, RangeDecoder.Valid;
      var j := 4 * ctxL0 + ctxRLE % 4;
      var v, u := l01[pred], l02[j];
      r := TakeSymbol(dec, l0, v, u, s, tail);
      l0, l01, l02 := BumpMain(l0, r), l01[pred := BumpSide(v, r, 62)], l02[j := BumpSide(u, r, 204)];
    }

    static method TakeSymbol(dec: RangeDecoder, m: MainRow, v: SideRow, u: SideRow, ghost s: nat, ghost tail: seq<Step>)
      returns (r: nat)
      requires dec.Valid() && s < 4 && dec.Rest() == [RankStep(m, v, u, s)] + tail
      modifies dec
      ensures dec.Valid() && dec.Rest() == tail && r == s
    {
      hide Cum, ValidStep, ValidSteps, RangeDecoder.Valid;
      var tot := m[4] + u[4] + v[4];
      assert dec.Rest()[0] == RankStep(m, v, u, s);
      var frq := dec.GetFreq(tot);
      var cum;
      r, cum := FindSymbol(m, v, u, frq, s);
      dec.Decode(m[r] + u[r] + v[r], cum, tot);
    }

    /** Linear search for the symbol whose cumulative interval holds frq. */
    static method FindSymbol(m: MainRow, v: SideRow, u: SideRow, frq: nat, ghost s: nat) returns (r: nat, cum: nat)
      requires s < 4 && Cum(m, v, u, s) <= frq < Cum(m, v, u, s) + Freq(m, v, u, s)
      ensures r == s && cum == Cum(m, v, u, s)
    {
      r, cum := 0, 0;
      while frq >= cum
        invariant r <= s + 1 && cum == Cum(m, v, u, r)
        invariant r <= s ==> cum <= frq
        decreases s + 1 - r
      {
        CumMono(m, v, u, r, s);
        if r < s {
          CumMono(m, v, u, r + 1, s);
        }
        cum := cum + m[r] + u[r] + v[r];
        r := r + 1;
      }
      r := r - 1;
      cum := cum - (m[r] + u[r] + v[r]);
    }

    method DecodeGroup(dec: RangeDecoder, ghost rank: nat, ghost tail: seq<Step>) returns (end: bool, r: nat)
      requires Valid() && dec.Valid() && 3 <= rank <= 256
      requires dec.Rest() == CodeGroup(View(), rank).steps + tail
      modifies this, dec
      ensures dec.Valid() && dec.Rest() == tail && end == (rank == 256) && (!end ==> r == rank)
      ensures View() == CodeGroup(old(View()), rank).after
    {
      hide UnarySteps, UnaryRows, TreeSteps, TreeRow, Fits, Pow2, CodeGroup, RangeDecoder.Valid;
      ghost var t, g0 := View(), Group(rank);
      ghost var pos0 := rank - GROUP_BEGIN[g0];
      GroupParts(t, rank, tail);
      var g := DecodeGroupNumber(dec, g0, TreeSteps(l20[g0], 1, pos0, g0 + 1) + tail);
      var pos := DecodePlace(dec, g, pos0, tail);
      GroupEnds(rank);
      end := g == 6 && pos == 127;
      r := GROUP_BEGIN[g] + pos;
    }

    /** The number of a group, in unary. */
    method DecodeGroupNumber(dec: RangeDecoder, ghost g0: nat, ghost tail: seq<Step>) returns (g: nat)
      requires Valid() && dec.Valid() && g0 < 7
      requires dec.Rest() == UnarySteps(Rows(l10, l11[ctxL1]), 0, g0, 6, 16, 64) + tail
      modifies this`l10, this`l11, this`ctxL1, dec
      ensures Valid() && dec.Valid() && dec.Rest() == tail && g == g0 == ctxL1
      ensures
        var rows := UnaryRows(Rows(old(l10), old(l11)[old(ctxL1)]), 0, g0, 6, 16, 64);
        l10 == rows.v && l11 == old(l11)[old(ctxL1) := rows.u]
    {
      hide UnarySteps, UnaryRows, RangeDecoder.Valid;
      var c := ctxL1;
      var rows;
      g, rows := DecodeUnary(dec, Rows(l10, l11[c]), 6, 16, 64, g0, tail);
      l10, l11, ctxL1 := rows.v, l11[c := rows.u], g;
    }

    /** The place of a rank in its group. */
    method DecodePlace(dec: RangeDecoder, g: nat, ghost pos0: nat, ghost tail: seq<Step>) returns (pos: nat)
      requires Valid() && dec.Valid() && g < 7 && pos0 < Pow2(g + 1) && Fits(1, g + 1)
      requires dec.Rest() == TreeSteps(l20[g], 1, pos0, g + 1) + tail
      modifies this`l20, dec
      ensures Valid() && dec.Valid() && dec.Rest() == tail && pos == pos0
      ensures l20 == old(l20)[g := TreeRow(old(l20)[g], 1, pos0, g + 1)]
    {
      hide TreeSteps, TreeRow, Fits, Pow2, RangeDecoder.Valid;
      var row;
      pos, row := DecodeTree(dec, l20[g], g, pos0, tail);
      l20 := l20[g := row];
    }

    method DecodeRank(dec: RangeDecoder, pred: byte, ghost rank: nat, ghost tail: seq<Step>)
      returns (end: bool, r: nat)
      requires Valid() && dec.Valid() && rank <= 256
      requires dec.Rest() == CodeRank(View(), pred, rank).steps + tail
      modifies this, dec
      ensures dec.Valid() && dec.Rest() == tail && end == (rank == 256) && (!end ==> r == rank)
      ensures View() == CodeRank(old(View()), pred, rank).after
    {
      hide RangeDecoder.Valid;
      hide CodeGroup;
      hide CodeSymbol;
      end := false;
      ghost var a := CodeSymbol(View(), pred, Symbol(rank));
      ghost var next := if rank < 3 then tail else CodeGroup(a.after, rank).steps + tail;
      assert dec.Rest() == a.steps + next;
      r := DecodeSymbol(dec, pred, Symbol(rank), next);
      if r == 3 {
        end, r := DecodeGroup(dec, rank, tail);
      }
    }

    method DecodeLength(dec: RangeDecoder, ch: byte, s: nat, ghost n: nat, ghost tail: seq<Step>) returns (m: nat)
      requires Valid() && dec.Valid() && s < 4 && 0 < n < MAXRUN
      requires dec.Rest() == CodeLength(View(), ch, s, n).steps + tail
      modifies this, dec
      ensures dec.Valid() && dec.Rest() == tail && m == n
      ensures View() == CodeLength(old(View()), ch, s, n).after
    {
      hide NextRunContext, UnarySteps, UnaryRows, TailSteps, TailRow, Pow2, Log2, CodeLength, RangeDecoder.Valid;
      ghost var t, l0 := View(), Log2(n);
      LengthParts(t, ch, s, n, tail);
      var l := DecodeLengthLog(dec, ch, s, l0, TailSteps(rle2[l0], 0, l0, n) + tail);
      m := DecodeRest(dec, l, n, tail);
    }

    /** The logarithm of a run length, in unary. */
    method DecodeLengthLog(dec: RangeDecoder, ch: byte, s: nat, ghost l0: nat, ghost tail: seq<Step>) returns (l: nat)
      requires Valid() && dec.Valid() && s < 4 && l0 < 23
      requires dec.Rest() == UnarySteps(Rows(rle0[ctxRLE + 16 * s], rle1[ch]), 0, l0, 24, 64, 8) + tail
      modifies this`rle0, this`rle1, this`ctxRLE, dec
      ensures Valid() && dec.Valid() && dec.Rest() == tail && l == l0 && ctxRLE == NextRunContext(old(ctxRLE), l)
      ensures
        var c := old(ctxRLE) + 16 * s;
        var rows := UnaryRows(Rows(old(rle0)[c], old(rle1)[ch]), 0, l0, 24, 64, 8);
        rle0 == old(rle0)[c := rows.v] && rle1 == old(rle1)[ch := rows.u]
    {
      hide NextRunContext, UnarySteps, UnaryRows, RangeDecoder.Valid;
      var c := ctxRLE + 16 * s;
      var rows;
      l, rows := DecodeLog(dec, Rows(rle0[c], rle1[ch]), 64, 8, l0, tail);
      rle0, rle1 := rle0[c := rows.v], rle1[ch := rows.u];
      ctxRLE := NextRunContext(ctxRLE, l);
    }

    /** The bits of a run length below the highest. */
    method DecodeRest(dec: RangeDecoder, l: nat, ghost n: nat, ghost tail: seq<Step>) returns (m: nat)
      requires Valid() && dec.Valid() && l < 23 && Pow2(l) <= n < 2 * Pow2(l)
      requires dec.Rest() == TailSteps(rle2[l], 0, l, n) + tail
      modifies this`rle2, dec
      ensures Valid() && dec.Valid() && dec.Rest() == tail && m == n
      ensures rle2 == old(rle2)[l := TailRow(old(rle2)[l], 0, l, n)]
    {
      hide TailSteps, TailRow, Pow2, RUN_BASES, RangeDecoder.Valid;
      var row;
      m, row := DecodeTail(dec, rle2[l], l, n, tail);
      rle2 := rle2[l := row];
      RunBaseIsPow2(l);
      m := m + RUN_BASES[l];
    }
  }

  /** The two parts of a group's code, and what they leave behind. */
  lemma GroupParts(t: Tables, rank: nat, tail: seq<Step>)
    requires t.Shape() && 3 <= rank <= 256
    ensures
      var g := Group(rank);
      var rows := Rows(t.l10, t.l11[t.ctxL1]);
      var rows' := UnaryRows(rows, 0, g, 6, 16, 64);
      var pos := rank - GROUP_BEGIN[g];
      && Fits(1, g + 1) && g < 7 && 0 <= pos < Pow2(g + 1)
      && CodeGroup(t, rank).steps + tail
         == UnarySteps(rows, 0, g, 6, 16, 64) + (TreeSteps(t.l20[g], 1, pos, g + 1) + tail)
      && CodeGroup(t, rank).after
         == t.(l10 := rows'.v, l11 := t.l11[t.ctxL1 := rows'.u],
               l20 := t.l20[g := TreeRow(t.l20[g], 1, pos, g + 1)], ctxL1 := g)
  {
    hide UnarySteps, UnaryRows, TreeSteps, TreeRow, Fits, Pow2;
    TreeRoot(Group(rank));
  }

  /** The two parts of a length's code, and what they leave behind. */
  lemma LengthParts(t: Tables, ch: byte, s: nat, n: nat, tail: seq<Step>)
    requires t.Shape() && s < 4 && 0 < n < MAXRUN
    ensures Log2(n) < 23 && Pow2(Log2(n)) <= n < 2 * Pow2(Log2(n))
    ensures
      var l := Log2(n);
      var c := t.ctxRLE + 16 * s;
      var rows := Rows(t.rle0[c], t.rle1[ch]);
      var rows' := UnaryRows(rows, 0, l, 24, 64, 8);
      && CodeLength(t, ch, s, n).steps + tail
         == UnarySteps(rows, 0, l, 24, 64, 8) + (TailSteps(t.rle2[l], 0, l, n) + tail)
      && CodeLength(t, ch, s, n).after
         == t.(rle0 := t.rle0[c := rows'.v], rle1 := t.rle1[ch := rows'.u],
               rle2 := t.rle2[l := TailRow(t.rle2[l], 0, l, n)], ctxRLE := NextRunContext(t.ctxRLE, l))
  {
    hide NextRunContext, UnarySteps, UnaryRows, TailSteps, TailRow, Pow2, Log2;
    LogBound(n);
  }

  /** Only the end marker is the last place of the last group. */
  lemma GroupEnds(rank: nat)
    requires 3 <= rank <= 256
    ensures Group(rank) == 6 && rank - GROUP_BEGIN[Group(rank)] == 127 <==> rank == 256
  {
    hide Pow2;
  }

  lemma {:induction false} CumMono(m: MainRow, v: SideRow, u: SideRow, a: nat, b: nat)
    requires a <= b <= 4
    ensures Cum(m, v, u, a) <= Cum(m, v, u, b)
    decreases b
  {
    if a < b {
      CumMono(m, v, u, a, b - 1);
    }
  }
}
