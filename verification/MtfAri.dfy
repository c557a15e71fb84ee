/** MTF_Ari.c: run-length, move-to-front and adaptive range coding of one block. */
module MtfAri {
  import opened Bytes
  import opened RangeCoder
  import opened RankModel
  import opened EntropyModels
  import opened RankedRuns
  import opened CodeSize

  // ------------------------------------------------------------------ the move-to-front list

  function MoveFront(list: seq<byte>, i: nat): (r: seq<byte>)
    requires i < |list|
    ensures |r| == |list| && r[0] == list[i]
  {
    [list[i]] + list[..i] + list[i + 1..]
  }

  predicate HoldsAllBytes(list: seq<byte>) {
    |list| == 256 && forall b: byte :: b in list
  }

  lemma MoveFrontKeeps(list: seq<byte>, i: nat)
    requires i < |list| && HoldsAllBytes(list)
    ensures HoldsAllBytes(MoveFront(list, i))
  {
    var r := MoveFront(list, i);
    forall b: byte
      ensures b in r
    {
      assert b in list;
      var j :| 0 <= j < |list| && list[j] == b;
      if j < i {
        assert r[j + 1] == b;
      } else if j == i {
        assert r[0] == b;
      } else {
        assert r[j] == b;
      }
    }
  }

  function Identity(): (s: seq<byte>)
    ensures |s| == 256 && forall i :: 0 <= i < 256 ==> s[i] == i
  {
    seq(256, i requires 0 <= i < 256 => i as byte)
  }

  lemma IdentityHoldsAll()
    ensures HoldsAllBytes(Identity())
  {
    forall b: byte
      ensures b in Identity()
    {
      assert Identity()[b] == b;
    }
  }

  /** The ranks move-to-front gives to the runs of a block. */
  function MtfRanks(list: seq<byte>, runs: seq<Run>): (rs: seq<RankedRun>)
    requires HoldsAllBytes(list)
    decreases |runs|
    ensures |rs| == |runs|
    ensures (forall i :: 0 <= i < |runs| ==> 0 < runs[i].len < MAXRUN) ==> Codable(rs)
  {
    if runs == [] then [] else
      var r := runs[0];
      var i := IndexOf(list, r.ch);
      MoveFrontKeeps(list, i);
      [RankedRun(RankOf(i), r.ch, r.len)] + MtfRanks(MoveFront(list, i), runs[1..])
  }

  function RunsFrom(list: seq<byte>, data: seq<byte>): (rs: seq<RankedRun>)
    requires HoldsAllBytes(list) && |data| < MAXRUN
    ensures Codable(rs)
  {
    RunsBounded(data);
    MtfRanks(list, SplitRuns(data))
  }

  lemma {:induction false} RunsBounded(data: seq<byte>)
    requires |data| < MAXRUN
    ensures forall i :: 0 <= i < |SplitRuns(data)| ==> 0 < SplitRuns(data)[i].len < MAXRUN
  {
    if data != [] {
      RunsBounded(data[RunLength(data)..]);
    }
  }

  /** The code of a block, as exact arithmetic. */
  function MtfCode(data: seq<byte>): seq<byte>
    requires |data| < MAXRUN
  {
    IdentityHoldsAll();
    BlockCode(RunsFrom(Identity(), data))
  }

  method NewList() returns (a: array<byte>)
    ensures fresh(a) && a[..] == Identity()
  {
    a := new byte[256];
    for i := 0 to 256
      invariant forall j :: 0 <= j < i ==> a[j] == j
    {
      a[i] := i;
    }
  }

  /** Where ch stands in the list. */
  method FindRank(a: array<byte>, ch: byte) returns (i: nat)
    requires ch in a[..]
    ensures i == IndexOf(a[..], ch)
  {
    i := 0;
    while a[i] != ch
      invariant i < a.Length && ch in a[i..]
      invariant i + IndexOf(a[i..], ch) == IndexOf(a[..], ch)
      decreases a.Length - i
    {
      assert a[i..][1..] == a[i + 1..];
      i := i + 1;
    }
  }

  /** Shifts the elements before position i back by one and puts ch in front. */
  method MoveToFront(a: array<byte>, i: nat, ch: byte)
    requires i < a.Length && a[i] == ch
    modifies a
    ensures a[..] == MoveFront(old(a[..]), i)
  {
    if i != 0 {
      var t := i;
      while t != 0
        invariant 0 <= t <= i
        invariant forall j :: 0 <= j <= t ==> a[j] == old(a[j]) || j == t
        invariant forall j :: t < j <= i ==> a[j] == old(a[j - 1])
        invariant forall j :: i < j < a.Length ==> a[j] == old(a[j])
      {
        a[t] := a[t - 1];
        t := t - 1;
      }
      a[0] := ch;
    }
  }

  // ------------------------------------------------------------------ the encoder

  /** The ranked runs of what is left of a block, head first. */
  lemma RunsStep(list: seq<byte>, data: seq<byte>)
    requires HoldsAllBytes(list) && data != [] && |data| < MAXRUN
    ensures
      var n := RunLength(data);
      var i := IndexOf(list, data[0]);
      && HoldsAllBytes(MoveFront(list, i))
      && RunsFrom(list, data)
         == [RankedRun(RankOf(i), data[0], n)] + RunsFrom(MoveFront(list, i), data[n..])
  {
    SplitUnfold(data);
    var n := RunLength(data);
    var i := IndexOf(list, data[0]);
    MoveFrontKeeps(list, i);
    RunsBounded(data);
    RanksUnfold(list, Run(data[0], n), SplitRuns(data[n..]));
  }

  lemma RanksUnfold(list: seq<byte>, r: Run, runs: seq<Run>)
    requires HoldsAllBytes(list)
    ensures
      var i := IndexOf(list, r.ch);
      && HoldsAllBytes(MoveFront(list, i))
      && MtfRanks(list, [r] + runs) == [RankedRun(RankOf(i), r.ch, r.len)] + MtfRanks(MoveFront(list, i), runs)
  {
    MoveFrontKeeps(list, IndexOf(list, r.ch));
    assert ([r] + runs)[1..] == runs;
  }

  lemma FirstRun(list: seq<byte>, data: seq<byte>, t: Tables, prev: byte)
    requires HoldsAllBytes(list) && data != [] && |data| < MAXRUN && t.Shape()
    ensures
      var n := RunLength(data);
      var i := IndexOf(list, data[0]);
      var c := CodeRun(t, prev, RankOf(i), data[0], n);
      && HoldsAllBytes(MoveFront(list, i))
      && StreamSteps(t, prev, RunsFrom(list, data))
         == c.steps + StreamSteps(c.after, data[0], RunsFrom(MoveFront(list, i), data[n..]))
  {
    hide StreamSteps, CodeRun, RunsFrom, RunLength, IndexOf;
    RunsStep(list, data);
    var i := IndexOf(list, data[0]);
    var n := RunLength(data);
    StreamUnfold(t, prev, RankedRun(RankOf(i), data[0], n), RunsFrom(MoveFront(list, i), data[n..]));
  }

  /** Codes the run at pos; the steps that remain are those of the data after it. */
  method EncodeNext(enc: RangeEncoder, m: Models, list: array<byte>, pred: byte, input: seq<byte>, pos: nat,
                    ghost total: seq<Step>)
    returns (n: nat)
    requires enc.Valid() && m.Valid() && HoldsAllBytes(list[..]) && pos < |input| < MAXRUN
    requires enc.steps + StreamSteps(m.View(), pred, RunsFrom(list[..], input[pos..])) == total
    modifies enc, m, list
    ensures 0 < n == RunLength(input[pos..]) <= |input| - pos && enc.Valid() && m.Valid() && HoldsAllBytes(list[..])
    ensures enc.steps + StreamSteps(m.View(), input[pos], RunsFrom(list[..], input[pos + n..])) == total
    ensures |enc.output| + enc.ffNum <= old(|enc.output| + enc.ffNum) + 2 * RUN_STEPS
  {
    hide RangeEncoder.Valid, CodeBytes, StreamSteps, CodeRun, RunsFrom, RunLength, IndexOf, MoveFront, HoldsAllBytes,
         Tables.Shape;
    FirstRun(list[..], input[pos..], m.View(), pred);
    var ch := input[pos];
    n := ScanRun(input, pos);
    AllMembers(list[..], ch);
    var i := FindRank(list, ch);
    MoveToFront(list, i, ch);
    Settled(enc);
    ghost var steps, before := enc.steps, m.View();
    m.EncodeRun(enc, pred, RankOf(i), ch, n);
    Settled(enc);
    RunShifts(steps, before, pred, RankOf(i), ch, n);
    assert input[pos..][n..] == input[pos + n..];
  }

  /**
    Codes a block, or gives up when that does not pay.  The test looks at the bytes written only: what an
    accepted block may take beyond it are the bytes withheld at the last test, one run and the end.
   */
  method Encode(input: seq<byte>) returns (r: Result)
    requires |input| < MAXRUN
    ensures r.Ok? ==> r.bytes == MtfCode(input) && |r.bytes| <= 2 * RUN_STEPS * |SplitRuns(input)| + 33
    ensures r.Ok? && input != [] ==> Margin(|input|, r.bytes)
    ensures r.NotCompressible? ==> |MtfCode(input)| >= |input| - 19
  {
    hide RangeEncoder.Valid, CodeBytes, StreamSteps, RunsFrom, HoldsAllBytes, Tables.Shape, CodeRank, SplitRuns, Stuck, RunLength, Passed, Margin;
    var enc := new RangeEncoder();
    var m := new Models();
    var list := NewList();
    IdentityHoldsAll();
    ghost var total := StreamSteps(InitTables(), 0, RunsFrom(Identity(), input));
    var pos: nat, ch: byte := 0, 0;
    assert input[0..] == input;
    Settled(enc);
    ghost var code, runs: nat := CodeBytes(total), 0;
    while pos < |input|
      invariant pos <= |input| && enc.Valid() && m.Valid() && HoldsAllBytes(list[..])
      invariant fresh(enc) && fresh(m) && fresh(list)
      invariant enc.steps + StreamSteps(m.View(), ch, RunsFrom(list[..], input[pos..])) == total
      invariant runs + |SplitRuns(input[pos..])| == |SplitRuns(input)| && |enc.output| + enc.ffNum <= 2 * RUN_STEPS * runs
      invariant pos > 0 ==> Passed(|input|, code, |enc.output| + enc.ffNum)
    {
      if |enc.output| >= |input| - 24 {
        WrittenBound(enc, StreamSteps(m.View(), ch, RunsFrom(list[..], input[pos..])));
        return NotCompressible;
      }
      TestPassed(enc, StreamSteps(m.View(), ch, RunsFrom(list[..], input[pos..])));
      SplitUnfold(input[pos..]);
      ghost var k, f := |enc.output|, enc.ffNum;
      runs := runs + 1;
      var n := EncodeNext(enc, m, list, ch, input, pos, total);
      assert input[pos..][n..] == input[pos + n..];
      PassedNow(|input|, code, k, f, |enc.output| + enc.ffNum);
      ch := input[pos];
      pos := pos + n;
    }
    assert input[pos..] == [];
    NoRuns(list[..], m.View(), ch);
    Settled(enc);
    EndShifts(enc.steps, m.View(), ch);
    ghost var shifts := |enc.output| + enc.ffNum;
    m.EncodeEnd(enc, ch);
    enc.Finish();
    if input != [] {
      MarginEnds(|input|, code, shifts);
    }
    return Ok(enc.output);
  }

  lemma NoRuns(list: seq<byte>, t: Tables, prev: byte)
    requires HoldsAllBytes(list) && t.Shape()
    ensures StreamSteps(t, prev, RunsFrom(list, [])) == CodeRank(t, prev, 256).steps
  {
  }

  lemma AllMembers(list: seq<byte>, ch: byte)
    requires HoldsAllBytes(list)
    ensures |list| == 256 && ch in list
  {
  }

  // ------------------------------------------------------------------ the decoder

  /** Decodes one run of the data that is left, or the end marker. */
  method DecodeNext(dec: RangeDecoder, m: Models, list: array<byte>, pred: byte, ghost left: seq<byte>)
    returns (end: bool, ch: byte, n: nat)
    requires dec.Valid() && m.Valid() && HoldsAllBytes(list[..]) && |left| < MAXRUN
    requires dec.Rest() == StreamSteps(m.View(), pred, RunsFrom(list[..], left))
    modifies dec, m, list
    ensures dec.Valid() && (end <==> left == []) && (end ==> dec.Rest() == [])
    ensures !end ==>
      && m.Valid() && HoldsAllBytes(list[..])
      && ch == left[0] && n == RunLength(left)
      && dec.Rest() == StreamSteps(m.View(), ch, RunsFrom(list[..], left[n..]))
  {
    hide RangeDecoder.Valid, CodeBytes, StreamSteps, CodeRun, RunsFrom, RunLength, IndexOf, MoveFront, HoldsAllBytes,
         Tables.Shape, CodeRank, CodeLength, BetweenHalves, Symbol;
    ghost var rank0, n0, afterRank, rest := NextRun(list[..], left, m.View(), pred);
    ghost var before := m.View();
    var rank;
    end, rank := m.DecodeRank(dec, pred, rank0, afterRank);
    if end {
      ch, n := pred, 0;
      return;
    }
    var position := PositionOf(rank);
    AllMembers(list[..], left[0]);
    PositionRank(IndexOf(list[..], left[0]));
    ch := list[position];
    MoveToFront(list, position, ch);
    var s := m.NoteRank(rank, before, pred);
    n := m.DecodeLength(dec, ch, s, n0, rest);
  }

  /** Decodes whatever Encode produced from the data, reading not a byte more. */
  method Decode(input: seq<byte>, ghost data: seq<byte>) returns (output: seq<byte>, consumed: nat)
    requires |data| < MAXRUN && MtfCode(data) <= input
    ensures output == data && consumed == |MtfCode(data)|
  {
    hide RangeDecoder.Valid, CodeBytes, StreamSteps, RunsFrom, RunLength, HoldsAllBytes, Tables.Shape;
    IdentityHoldsAll();
    var dec := new RangeDecoder(input, StreamSteps(InitTables(), 0, RunsFrom(Identity(), data)));
    var m := new Models();
    var list := NewList();
    output := [];
    var ch: byte := 0;
    assert data[0..] == data;
    while true
      invariant |output| <= |data| && output == data[..|output|]
      invariant dec.Valid() && m.Valid() && HoldsAllBytes(list[..])
      invariant dec.steps == StreamSteps(InitTables(), 0, RunsFrom(Identity(), data))
      invariant fresh(dec) && fresh(m) && fresh(list)
      invariant dec.Rest() == StreamSteps(m.View(), ch, RunsFrom(list[..], data[|output|..]))
      decreases |data| - |output|
    {
      var end, c, n := DecodeNext(dec, m, list, ch, data[|output|..]);
      if end {
        AllRead(dec);
        return output, dec.pos;
      }
      ch := c;
      output := WriteRun(output, ch, n, data);
    }
  }

  /** What the next run of the remaining data looks like to the decoder. */
  lemma NextRun(list: seq<byte>, data: seq<byte>, t: Tables, prev: byte)
    returns (rank: nat, n: nat, afterRank: seq<Step>, rest: seq<Step>)
    requires HoldsAllBytes(list) && |data| < MAXRUN && t.Shape()
    ensures rank <= 256 && (rank == 256 <==> data == [])
    ensures StreamSteps(t, prev, RunsFrom(list, data)) == CodeRank(t, prev, rank).steps + afterRank
    ensures data == [] ==> afterRank == []
    ensures data != [] ==>
      && n == RunLength(data) < MAXRUN
      && rank == RankOf(IndexOf(list, data[0]))
      && HoldsAllBytes(MoveFront(list, IndexOf(list, data[0])))
      && var b := CodeLength(BetweenHalves(t, prev, rank), data[0], Symbol(rank), n);
      && afterRank == b.steps + rest
      && rest == StreamSteps(b.after, data[0], RunsFrom(MoveFront(list, IndexOf(list, data[0])), data[n..]))
  {
    hide StreamSteps, CodeRun, RunsFrom, RunLength, IndexOf, MoveFront, CodeRank, CodeLength, BetweenHalves;
    if data == [] {
      NoRuns(list, t, prev);
      rank, n, afterRank, rest := 256, 0, [], [];
    } else {
      FirstRun(list, data, t, prev);
      n, rank := RunLength(data), RankOf(IndexOf(list, data[0]));
      RunHalves(t, prev, rank, data[0], n);
      var b := CodeLength(BetweenHalves(t, prev, rank), data[0], Symbol(rank), n);
      rest := StreamSteps(b.after, data[0], RunsFrom(MoveFront(list, IndexOf(list, data[0])), data[n..]));
      afterRank := b.steps + rest;
    }
  }
}
