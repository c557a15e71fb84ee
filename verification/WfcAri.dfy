/** WFC_Ari.c: run-length, weighted-frequency ranking and adaptive range coding of one block. */
module WfcAri {
  import opened Bytes
  import opened RangeCoder
  import opened RankModel
  import opened EntropyModels
  import opened RankedRuns
  import opened CodeSize
  import opened WfcWeights
  import opened WfcList

  /** The place of ch in the ranking after the history h. */
  ghost function PlaceAfter(h: seq<byte>, ch: byte): (i: nat)
    requires Alternating(h)
    ensures i < 256 && RankOf(i) < 256
  {
    var list := RankingAfter(h).list;
    assert (ch as int) in list;
    IndexOf(list, ch)
  }

  /** The data does not start with the byte the history ends with. */
  predicate Continues(h: seq<byte>, data: seq<byte>) {
    Alternating(h) && (h != [] && data != [] ==> h[|h| - 1] != data[0])
  }

  lemma ContinuesOn(h: seq<byte>, data: seq<byte>)
    requires Continues(h, data) && data != []
    ensures Alternating(h + [data[0]]) && Continues(h + [data[0]], data[RunLength(data)..])
  {
  }

  /** The ranked runs of the data that follows the history h. */
  ghost function WfcRanks(h: seq<byte>, data: seq<byte>): (rs: seq<RankedRun>)
    requires Continues(h, data) && |data| < MAXRUN
    ensures Codable(rs)
    decreases |data|
  {
    if data == [] then
      []
    else
      hide Alternating, RunLength, PlaceAfter, Codable;
      ContinuesOn(h, data);
      var n := RunLength(data);
      var r := RankedRun(RankOf(PlaceAfter(h, data[0])), data[0], n);
      var rest := WfcRanks(h + [data[0]], data[n..]);
      CodableCons(r, rest);
      [r] + rest
  }

  /** The code of a block, as exact arithmetic. */
  ghost function WfcCode(data: seq<byte>): seq<byte>
    requires |data| < MAXRUN
  {
    BlockCode(WfcRanks([], data))
  }

  lemma FirstRun(h: seq<byte>, data: seq<byte>, t: Tables, prev: byte)
    requires Continues(h, data) && data != [] && |data| < MAXRUN && t.Shape()
    ensures
      var n := RunLength(data);
      var c := CodeRun(t, prev, RankOf(PlaceAfter(h, data[0])), data[0], n);
      && Continues(h + [data[0]], data[n..])
      && StreamSteps(t, prev, WfcRanks(h, data))
         == c.steps + StreamSteps(c.after, data[0], WfcRanks(h + [data[0]], data[n..]))
  {
    hide StreamSteps, CodeRun, PlaceAfter;
    ContinuesOn(h, data);
    var n := RunLength(data);
    StreamUnfold(t, prev, RankedRun(RankOf(PlaceAfter(h, data[0])), data[0], n), WfcRanks(h + [data[0]], data[n..]));
  }

  lemma NoRuns(h: seq<byte>, t: Tables, prev: byte)
    requires Alternating(h) && t.Shape()
    ensures StreamSteps(t, prev, WfcRanks(h, [])) == CodeRank(t, prev, 256).steps
  {
  }

  /** The byte's place according to the tables is its place in the ranking. */
  lemma TablePlace(w: WfcTables, ch: byte)
    requires w.InStep()
    ensures w.Valid() && 0 <= w.index[ch] < 256 && w.list[w.index[ch]] == ch && Alternating(w.buf)
    ensures w.index[ch] == PlaceAfter(w.buf, ch)
  {
    w.PlaceIs(ch);
    assert w.list[..][w.index[..][ch]] == ch;
  }

  // ------------------------------------------------------------------ the encoder

  /** Codes the run at pos; the steps that remain are those of the data after it. */
  method EncodeNext(enc: RangeEncoder, m: Models, w: WfcTables, pred: byte, input: seq<byte>, pos: nat,
                    ghost total: seq<Step>)
    returns (n: nat)
    requires enc.Valid() && m.Valid() && w.InStep() && pos < |input| < MAXRUN
    requires Continues(w.buf, input[pos..])
    requires enc.steps + StreamSteps(m.View(), pred, WfcRanks(w.buf, input[pos..])) == total
    modifies enc, m, w, w.list, w.index, w.weight
    ensures 0 < n == RunLength(input[pos..]) <= |input| - pos && enc.Valid() && m.Valid() && w.InStep()
    ensures Continues(w.buf, input[pos + n..])
    ensures enc.steps + StreamSteps(m.View(), input[pos], WfcRanks(w.buf, input[pos + n..])) == total
    ensures |enc.output| + enc.ffNum <= old(|enc.output| + enc.ffNum) + 2 * RUN_STEPS && |w.buf| == old(|w.buf|) + 1
  {
    hide RangeEncoder.Valid, CodeBytes, StreamSteps, CodeRun, WfcRanks, RunLength, PlaceAfter, Tables.Shape,
         Continues, WfcTables.InStep, Alternating;
    FirstRun(w.buf, input[pos..], m.View(), pred);
    ContinuesOn(w.buf, input[pos..]);
    var ch := input[pos];
    n := ScanRun(input, pos);
    TablePlace(w, ch);
    var i := w.index[ch];
    w.Push(ch);
    Settled(enc);
    ghost var steps, before := enc.steps, m.View();
    m.EncodeRun(enc, pred, RankOf(i), ch, n);
    Settled(enc);
    RunShifts(steps, before, pred, RankOf(i), ch, n);
    assert input[pos..][n..] == input[pos + n..];
  }

  /**
    Codes a block, or gives up when that does not pay.  The test looks at the bytes written only: what an
    accepted block may take beyond it are the bytes withheld at the last test, one run and the end.
   */
  method Encode(input: seq<byte>) returns (r: Result, inside: bool)
    requires |input| < MAXRUN
    ensures r.Ok? ==> r.bytes == WfcCode(input) && |r.bytes| <= 2 * RUN_STEPS * |SplitRuns(input)| + 33
    ensures r.Ok? && input != [] ==> Margin(|input|, r.bytes)
    ensures inside
    ensures r.NotCompressible? ==> |WfcCode(input)| >= |input| - 19
  {
    hide RangeEncoder.Valid, CodeBytes, StreamSteps, WfcRanks, Tables.Shape, CodeRank, WfcTables.InStep, SplitRuns, Stuck, RunLength, Passed, Margin;
    var enc := new RangeEncoder();
    var m := new Models();
    var w := new WfcTables();
    ghost var total := StreamSteps(InitTables(), 0, WfcRanks([], input));
    var pos: nat, ch: byte := 0, 0;
    inside := true;
    assert input[0..] == input;
    Settled(enc);
    ghost var code, runs: nat := CodeBytes(total), 0;
    while pos < |input|
      invariant pos <= |input| && enc.Valid() && m.Valid() && w.InStep() && Continues(w.buf, input[pos..])
      invariant fresh(enc) && fresh(m) && fresh(w) && fresh(w.list) && fresh(w.index) && fresh(w.weight)
      invariant enc.steps + StreamSteps(m.View(), ch, WfcRanks(w.buf, input[pos..])) == total
      invariant runs + |SplitRuns(input[pos..])| == |SplitRuns(input)| && |enc.output| + enc.ffNum <= 2 * RUN_STEPS * runs
      invariant pos > 0 ==> Passed(|input|, code, |enc.output| + enc.ffNum)
      invariant |w.buf| <= pos && inside
    {
      if |enc.output| >= |input| - 24 {
        WrittenBound(enc, StreamSteps(m.View(), ch, WfcRanks(w.buf, input[pos..])));
        return NotCompressible, inside;
      }
      TestPassed(enc, StreamSteps(m.View(), ch, WfcRanks(w.buf, input[pos..])));
      SplitUnfold(input[pos..]);
      ghost var k, f := |enc.output|, enc.ffNum;
      runs := runs + 1;
      var n := EncodeNext(enc, m, w, ch, input, pos, total);
      inside := inside && |w.buf| <= |input|;
      assert input[pos..][n..] == input[pos + n..];
      PassedNow(|input|, code, k, f, |enc.output| + enc.ffNum);
      ch := input[pos];
      pos := pos + n;
    }
    assert input[pos..] == [];
    NoRuns(w.buf, m.View(), ch);
    Settled(enc);
    EndShifts(enc.steps, m.View(), ch);
    ghost var shifts := |enc.output| + enc.ffNum;
    m.EncodeEnd(enc, ch);
    enc.Finish();
    if input != [] {
      MarginEnds(|input|, code, shifts);
    }
    return Ok(enc.output), inside;
  }

  // ------------------------------------------------------------------ the decoder

  /** The byte with the given rank; the tables note a run of it. */
  method TakeRanked(w: WfcTables, rank: nat, ghost ch0: byte) returns (ch: byte)
    requires w.InStep() && Alternating(w.buf + [ch0]) && rank == RankOf(PlaceAfter(w.buf, ch0))
    modifies w, w.list, w.index, w.weight
    ensures ch == ch0 && w.InStep() && w.buf == old(w.buf) + [ch0]
  {
    hide PlaceAfter, Alternating, WfcTables.InStep, Inverse;
    var position := PositionOf(rank);
    TablePlace(w, ch0);
    PositionRank(PlaceAfter(w.buf, ch0));
    ch := w.list[position];
    w.Push(ch);
  }

  /** Decodes one run of the data that is left, or the end marker. */
  method DecodeNext(dec: RangeDecoder, m: Models, w: WfcTables, pred: byte, ghost left: seq<byte>)
    returns (end: bool, ch: byte, n: nat)
    requires dec.Valid() && m.Valid() && w.InStep() && |left| < MAXRUN && Continues(w.buf, left)
    requires dec.Rest() == StreamSteps(m.View(), pred, WfcRanks(w.buf, left))
    modifies dec, m, w, w.list, w.index, w.weight
    ensures dec.Valid() && (end <==> left == []) && (end ==> dec.Rest() == [])
    ensures !end ==>
      && m.Valid() && w.InStep()
      && ch == left[0] && n == RunLength(left) && Continues(w.buf, left[n..]) && |w.buf| == old(|w.buf|) + 1
      && dec.Rest() == StreamSteps(m.View(), ch, WfcRanks(w.buf, left[n..]))
  {
    hide RangeDecoder.Valid, CodeBytes, StreamSteps, CodeRun, WfcRanks, RunLength, PlaceAfter, Continues, Alternating,
         Tables.Shape, CodeRank, CodeLength, BetweenHalves, Symbol, WfcTables.InStep, WfcTables.Valid;
    ghost var rank0, n0, afterRank, rest := NextRun(w.buf, left, m.View(), pred);
    ghost var before := m.View();
    var rank;
    end, rank := m.DecodeRank(dec, pred, rank0, afterRank);
    if end {
      ch, n := pred, 0;
      return;
    }
    ch := TakeRanked(w, rank, left[0]);
    n := TakeLength(dec, m, ch, rank, before, pred, n0, rest);
  }

  /** The length of a run whose rank has been decoded. */
  method TakeLength(dec: RangeDecoder, m: Models, ch: byte, rank: nat, ghost before: Tables, ghost pred: byte, ghost n0: nat,
                    ghost rest: seq<Step>) returns (n: nat)
    requires before.Shape() && rank < 256 && m.View() == CodeRank(before, pred, rank).after && dec.Valid() && 0 < n0 < MAXRUN
    requires dec.Rest() == CodeLength(BetweenHalves(before, pred, rank), ch, Symbol(rank), n0).steps + rest
    modifies dec, m
    ensures dec.Valid() && m.Valid() && dec.Rest() == rest && n == n0
    ensures m.View() == CodeLength(BetweenHalves(before, pred, rank), ch, Symbol(rank), n0).after
  {
    hide RangeDecoder.Valid, CodeBytes, Tables.Shape, CodeRank, CodeLength, BetweenHalves, Symbol;
    var s := m.NoteRank(rank, before, pred);
    n := m.DecodeLength(dec, ch, s, n0, rest);
  }

  /**
    Decodes whatever Encode produced from the data, reading not a byte more.  The history buffer has `size`
    bytes: all runs are noted inside it if and only if there are no more runs than that.
   */
  method Decode(input: seq<byte>, size: nat, ghost data: seq<byte>) returns (output: seq<byte>, consumed: nat, inside: bool)
    requires |data| < MAXRUN && WfcCode(data) <= input
    ensures output == data && consumed == |WfcCode(data)|
    ensures inside <==> |SplitRuns(data)| <= size
  {
    hide RangeDecoder.Valid, CodeBytes, StreamSteps, WfcRanks, RunLength, SplitRuns, Tables.Shape, WfcTables.InStep;
    var dec := new RangeDecoder(input, StreamSteps(InitTables(), 0, WfcRanks([], data)));
    var m := new Models();
    var w := new WfcTables();
    output, inside := [], true;
    var ch: byte := 0;
    assert data[0..] == data;
    while true
      invariant |output| <= |data| && output == data[..|output|]
      invariant dec.Valid() && m.Valid() && w.InStep() && Continues(w.buf, data[|output|..])
      invariant dec.steps == StreamSteps(InitTables(), 0, WfcRanks([], data))
      invariant fresh(dec) && fresh(m) && fresh(w) && fresh(w.list) && fresh(w.index) && fresh(w.weight)
      invariant dec.Rest() == StreamSteps(m.View(), ch, WfcRanks(w.buf, data[|output|..]))
      invariant |w.buf| + |SplitRuns(data[|output|..])| == |SplitRuns(data)| && (inside <==> |w.buf| <= size)
      decreases |data| - |output|
    {
      SplitUnfold(data[|output|..]);
      var end, c, n := DecodeNext(dec, m, w, ch, data[|output|..]);
      if end {
        AllRead(dec);
        return output, dec.pos, inside;
      }
      inside := inside && |w.buf| <= size;
      ch := c;
      output := WriteRun(output, ch, n, data);
    }
  }

  /** What the next run of the remaining data looks like to the decoder. */
  lemma NextRun(h: seq<byte>, data: seq<byte>, t: Tables, prev: byte)
    returns (rank: nat, n: nat, afterRank: seq<Step>, rest: seq<Step>)
    requires Continues(h, data) && |data| < MAXRUN && t.Shape()
    ensures rank <= 256 && (rank == 256 <==> data == [])
    ensures StreamSteps(t, prev, WfcRanks(h, data)) == CodeRank(t, prev, rank).steps + afterRank
    ensures data == [] ==> afterRank == []
    ensures data != [] ==>
      && n == RunLength(data) < MAXRUN
      && Alternating(h + [data[0]])
      && rank == RankOf(PlaceAfter(h, data[0]))
      && Continues(h + [data[0]], data[n..])
      && var b := CodeLength(BetweenHalves(t, prev, rank), data[0], Symbol(rank), n);
      && afterRank == b.steps + rest
      && rest == StreamSteps(b.after, data[0], WfcRanks(h + [data[0]], data[n..]))
  {
    hide StreamSteps, CodeRun, WfcRanks, RunLength, PlaceAfter, CodeRank, CodeLength, BetweenHalves;
    if data == [] {
      NoRuns(h, t, prev);
      rank, n, afterRank, rest := 256, 0, [], [];
    } else {
      FirstRun(h, data, t, prev);
      n, rank := RunLength(data), RankOf(PlaceAfter(h, data[0]));
      RunHalves(t, prev, rank, data[0], n);
      var b := CodeLength(BetweenHalves(t, prev, rank), data[0], Symbol(rank), n);
      rest := StreamSteps(b.after, data[0], WfcRanks(h + [data[0]], data[n..]));
      afterRank := b.steps + rest;
    }
  }
}
