/** Splitting data into runs of equal bytes, and the step sequence of a whole block of ranked runs. */
module RankedRuns {
  import opened Bytes
  import opened RangeCoder
  import opened RankModel

  /** A maximal run of len equal bytes ch that had the given rank when it was coded. */
  datatype RankedRun = RankedRun(rank: nat, ch: byte, len: nat)

  datatype Run = Run(ch: byte, len: nat)

  function RunLength(data: seq<byte>): (n: nat)
    requires data != []
    ensures 0 < n <= |data|
    ensures forall i :: 0 <= i < n ==> data[i] == data[0]
    ensures n < |data| ==> data[n] != data[0]
  {
    if |data| == 1 || data[1] != data[0] then 1 else 1 + RunLength(data[1..])
  }

  function SplitRuns(data: seq<byte>): (r: seq<Run>)
    ensures data != [] ==> r != [] && r[0].ch == data[0]
  {
    if data == [] then [] else
      var n := RunLength(data);
      [Run(data[0], n)] + SplitRuns(data[n..])
  }

  /** There are no more runs than bytes. */
  lemma {:induction false} RunsAtMost(data: seq<byte>)
    ensures |SplitRuns(data)| <= |data|
  {
    if data != [] {
      RunsAtMost(data[RunLength(data)..]);
    }
  }

  /** Where no two bytes are the same, every byte is a run. */
  lemma {:induction false} DistinctRuns(data: seq<byte>)
    requires forall i, j :: 0 <= i < j < |data| ==> data[i] != data[j]
    ensures |SplitRuns(data)| == |data|
  {
    if data != [] {
      assert RunLength(data) == 1;
      DistinctRuns(data[1..]);
    }
  }

  lemma RunPrefix(data: seq<byte>)
    requires data != []
    ensures Repeat(data[0], RunLength(data)) + data[RunLength(data)..] == data
  {
    var n := RunLength(data);
    assert Repeat(data[0], n) == data[..n];
  }

  lemma SplitUnfold(data: seq<byte>)
    ensures data == [] ==> SplitRuns(data) == []
    ensures data != [] ==>
      SplitRuns(data) == [Run(data[0], RunLength(data))] + SplitRuns(data[RunLength(data)..])
  {
  }

  predicate CodableRun(r: RankedRun) {
    r.rank < 256 && 0 < r.len < MAXRUN
  }

  predicate Codable(rs: seq<RankedRun>) {
    forall i :: 0 <= i < |rs| ==> CodableRun(rs[i])
  }

  lemma CodableCons(r: RankedRun, rs: seq<RankedRun>)
    requires CodableRun(r) && Codable(rs)
    ensures Codable([r] + rs)
  {
  }

  /** All steps of a block: each run in turn, then the end marker. */
  function StreamSteps(t: Tables, prev: byte, rs: seq<RankedRun>): (s: seq<Step>)
    requires t.Shape() && Codable(rs)
    ensures ValidSteps(s)
    decreases |rs|
  {
    hide CodeRun, CodeRank;
    if rs == [] then CodeRank(t, prev, 256).steps else
      assert CodableRun(rs[0]);
      var c := CodeRun(t, prev, rs[0].rank, rs[0].ch, rs[0].len);
      c.steps + StreamSteps(c.after, rs[0].ch, rs[1..])
  }

  lemma StreamUnfold(t: Tables, prev: byte, r: RankedRun, rs: seq<RankedRun>)
    requires t.Shape() && Codable([r] + rs)
    ensures CodableRun(r) && Codable(rs)
    ensures
      var c := CodeRun(t, prev, r.rank, r.ch, r.len);
      StreamSteps(t, prev, [r] + rs) == c.steps + StreamSteps(c.after, r.ch, rs)
  {
    hide CodeRun, CodeRank;
    assert ([r] + rs)[0] == r && ([r] + rs)[1..] == rs;
    assert forall i :: 0 <= i < |rs| ==> rs[i] == ([r] + rs)[i + 1];
  }

  /** The byte string a block of ranked runs is coded to. */
  function BlockCode(rs: seq<RankedRun>): seq<byte>
    requires Codable(rs)
  {
    CodeBytes(StreamSteps(InitTables(), 0, rs))
  }

  /** The first byte's rank is counted from 255 down: position 0 wraps round. */
  function RankOf(position: nat): nat
    requires position < 256
  {
    (position + 255) % 256
  }

  function PositionOf(rank: nat): nat
    requires rank < 256
  {
    (rank + 1) % 256
  }

  /** Coding more steps never needs fewer bytes. */
  lemma {:induction false} ShiftsMono(a: seq<Step>, b: seq<Step>)
    requires ValidSteps(a + b)
    ensures ValidSteps(a) && After(a).shifts <= After(a + b).shifts
  {
    assert forall i :: 0 <= i < |a| ==> a[i] == (a + b)[i];
    if b == [] {
      assert a + b == a;
    } else {
      var init := b[..|b| - 1];
      assert (a + b)[..|a + b| - 1] == a + init;
      ShiftsMono(a, init);
    }
  }

  /** A coder that has already written n bytes needs at least n + 5 in the end. */
  lemma WrittenBound(enc: RangeEncoder, rest: seq<Step>)
    requires enc.Valid() && ValidSteps(enc.steps + rest)
    ensures |enc.output| + 5 <= |CodeBytes(enc.steps + rest)|
  {
    ShiftsMono(enc.steps, rest);
  }

  /** A decoder with no steps left has read exactly the code. */
  lemma AllRead(dec: RangeDecoder)
    requires dec.Valid() && dec.Rest() == []
    ensures dec.pos == |CodeBytes(dec.steps)|
  {
    assert dec.steps[..dec.done] == dec.steps;
  }

  /** What a block encoder returns. */
  datatype Result = Ok(bytes: seq<byte>) | NotCompressible

  lemma PositionRank(position: nat)
    requires position < 256
    ensures RankOf(position) < 256 && PositionOf(RankOf(position)) == position
  {
  }

  /** The length of the run starting at pos. */
  method ScanRun(input: seq<byte>, pos: nat) returns (n: nat)
    requires pos < |input|
    ensures pos + n <= |input| && n == RunLength(input[pos..])
  {
    n := 1;
    while pos + n < |input| && input[pos + n] == input[pos]
      invariant 0 < n && pos + n <= |input|
      invariant forall i :: pos <= i < pos + n ==> input[i] == input[pos]
    {
      n := n + 1;
    }
    RunLengthIs(input[pos..], n);
  }

  lemma {:induction false} RunLengthIs(data: seq<byte>, n: nat)
    requires 0 < n <= |data| && (forall i :: 0 <= i < n ==> data[i] == data[0])
    requires n < |data| ==> data[n] != data[0]
    ensures RunLength(data) == n
  {
    if n > 1 {
      assert data[1] == data[0];
      RunLengthIs(data[1..], n - 1);
    }
  }

  /** Appends the n bytes of a run; they are the next bytes of the data. */
  method WriteRun(before: seq<byte>, ch: byte, n: nat, ghost data: seq<byte>) returns (output: seq<byte>)
    requires |before| < |data| && before == data[..|before|]
    requires ch == data[|before|..][0] && n == RunLength(data[|before|..])
    ensures |before| < |output| == |before| + n <= |data| && output == data[..|output|]
    ensures data[|before|..][n..] == data[|output|..]
  {
    output := before;
    for i := 0 to n
      invariant output == before + Repeat(ch, i)
    {
      output := output + [ch];
    }
    ghost var left := data[|before|..];
    RunPrefix(left);
    assert data == before + left;
  }
}
