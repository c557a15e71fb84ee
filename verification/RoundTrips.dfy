/** Each codec as a caller sees it: what the encoder returns, the decoder turns back into what went in. */
module RoundTrips {
  import opened Bytes
  import RankModel
  import RankedRuns
  import MtfAri
  import WfcAri
  import CountingSort
  import St4Order
  import St4Encode
  import St4Decode
  import St4Links
  import Bwt
  import Lzp
  import Lz4Format
  import Lz4Greedy
  import Lz4Compress
  import Lz4Decompress
  import DisPackUnits
  import DisPackFilter
  import DisPackUnfilter
  import Delta

  /** MTF_Ari.c; `tail` is whatever follows the code. */
  method Mtf(input: seq<byte>, tail: seq<byte>) returns (r: RankedRuns.Result, back: seq<byte>, consumed: nat)
    requires |input| < RankModel.MAXRUN
    ensures r.Ok? ==> back == input && consumed == |r.bytes|
  {
    r := MtfAri.Encode(input);
    back, consumed := [], 0;
    if r.Ok? {
      back, consumed := MtfAri.Decode(r.bytes + tail, input);
    }
  }

  /** WFC_Ari.c, with a history buffer of the size of the block. */
  method Wfc(input: seq<byte>, tail: seq<byte>)
    returns (r: RankedRuns.Result, back: seq<byte>, consumed: nat, inside: bool)
    requires |input| < RankModel.MAXRUN
    ensures inside && (r.Ok? ==> back == input && consumed == |r.bytes|)
  {
    r, inside := WfcAri.Encode(input);
    back, consumed := [], 0;
    if r.Ok? {
      RankedRuns.RunsAtMost(input);
      back, consumed, inside := WfcAri.Decode(r.bytes + tail, |input|, input);
    }
  }

  /** A block of 39 bytes with the byte it is padded with. */
  function Padded(): (x: seq<byte>)
    ensures |x| == 40 && (forall i :: 0 <= i < 39 ==> x[i] == i + 1) && x[39] == 0
  {
    seq(39, i requires 0 <= i < 39 => i + 1) + [0]
  }

  ghost predicate Distinct(s: seq<byte>) {
    forall i, j :: 0 <= i < j < |s| ==> s[i] != s[j]
  }

  /** The rows of a block without equal bytes are without equal bytes. */
  lemma DistinctRows(x: seq<byte>, rows: seq<byte>)
    requires x != [] && Distinct(x) && St4Order.Transformed(x, rows)
    ensures Distinct(rows)
  {
    hide St4Order.Rows;
    var f := St4Order.Rows(x);
    forall r, s | 0 <= r < s < |rows|
      ensures rows[r] != rows[s]
    {
      var i := CountingSort.Onto(f, r);
      var j := CountingSort.Onto(f, s);
      assert rows[f[i]] == x[i] && rows[f[j]] == x[j];
    }
  }

  /** Its rows have more runs than the size recorded before it was padded. */
  lemma MoreRunsThanRecorded(rows: seq<byte>)
    requires St4Order.Transformed(Padded(), rows)
    ensures |RankedRuns.SplitRuns(rows)| == 40 > 39
  {
    hide St4Order.Transformed;
    assert |rows| == 40 by {
      SameSize(Padded(), rows);
    }
    DistinctRows(Padded(), rows);
    RankedRuns.DistinctRuns(rows);
  }

  lemma SameSize(x: seq<byte>, rows: seq<byte>)
    requires St4Order.Transformed(x, rows)
    ensures |rows| == |x|
  {
  }

  /** ST4.c. */
  method St4(x: seq<byte>) returns (back: array<byte>)
    requires 4 < |x| < St4Decode.INDIRECT
    ensures back[..] == x
  {
    var fbp;
    back, fbp := St4Encode.Encode(x);
    St4Decode.Decode(back, fbp, x);
  }

  /** BWT.c, given the suffix ranks. */
  method BurrowsWheeler(x: seq<byte>, rank: seq<nat>) returns (back: array<byte>)
    requires x != [] && Bwt.TrueRanks(x, rank)
    ensures back[..] == x
  {
    var w;
    back, w := Bwt.Emit(x, rank);
    ghost var visited := Bwt.Decode(back, w, x, rank);
  }

  /** LZP.c with a table of mask + 1 contexts; `behind` is the memory that follows the block. */
  method Predicted(x: seq<byte>, behind: seq<byte>, min: nat, mask: bv32)
    returns (r: Lzp.Result, code: array<byte>, back: array<byte>, size: nat)
    requires 4 <= |x| && min <= |behind|
    ensures code.Length == |x| && (r.Packed? ==> r.size < |x| && size == |x| <= back.Length && back[..size] == x)
  {
    var hash := Lzp.Hash(mask);
    code := new byte[|x|];
    r := Lzp.Encode(x, behind, code, min, hash);
    back, size := new byte[|x|], 0;
    if r.Packed? {
      size := Lzp.Decode(code[..r.size], back, min, hash, x, behind);
    }
  }

  /** lz4.c. */
  method Lz4(x: seq<byte>, hash: nat -> nat, acceleration: nat, limit: Lz4Compress.Limit, capacity: nat)
    returns (r: Lz4Compress.Result, dst: array<byte>, size: int)
    requires 1 <= acceleration && |x| <= capacity
    ensures r.Fits? ==> size == |x| <= dst.Length && dst[..size] == x
    ensures Lz4Format.Parses(x, 0, Lz4Greedy.Greedy(x, hash, acceleration))
    ensures r.Fits? <==> !Lz4Compress.Exceeds(|Lz4Format.Block(x, 0, Lz4Greedy.Greedy(x, hash, acceleration))|, limit)
    ensures limit == Lz4Compress.AtMost(Lz4Compress.Bound(|x|)) ==> r.Fits?
  {
    r := Lz4Compress.Compress(x, hash, acceleration, limit);
    dst, size := new byte[capacity], 0;
    if r.Fits? {
      Lz4Format.RoundTrip(x, Lz4Greedy.Greedy(x, hash, acceleration), capacity);
      size := Lz4Decompress.DecompressSafe(r.block, dst);
    }
  }

  /** DisPack.cpp. */
  method DisPack(x: seq<byte>, origin: nat) returns (out: seq<byte>, ok: bool, back: seq<byte>)
    requires origin + |x| < 0x1_0000_0000 && 76 + 2 * |x| < 0x1_0000_0000
    ensures |out| <= 76 + 2 * |x| && ok && back == x
  {
    ghost var us;
    out, us := DisPackFilter.DisFilter(x, origin);
    ok, back := DisPackUnfilter.DisUnFilter(out, |x|, origin, us, true);
  }

  /** Delta.cpp, one block, whatever row sizes are tried. */
  method DeltaBlock(a: array<byte>, widths: (nat, nat) -> bool) returns (records: seq<Delta.Record>)
    modifies a
    ensures a[..] == old(a[..])
  {
    ghost var ts;
    ghost var x := a[..];
    records, ts := Delta.CompressBlock(a, widths);
    Delta.DecompressBlock(a, records, x, ts);
  }
}
