/**
  BWT.c: the rows GRZip_StrongBWT_Encode emits from the suffix ranks, and GRZip_StrongBWT_Decode.

  A block of n bytes has n + 1 suffixes, the empty one smallest.  The row of the whole block shows no
  byte and is left out of the output; its number W is transmitted instead.
 */
module Bwt {
  import opened Bytes
  import opened CountingSort

  /** Suffix i is smaller than suffix j. */
  predicate SuffixLess(x: seq<byte>, i: nat, j: nat)
    requires i <= |x| && j <= |x|
    decreases |x| - i
  {
    j < |x| && (i == |x| || x[i] < x[j] || (x[i] == x[j] && SuffixLess(x, i + 1, j + 1)))
  }

  /** rank[i] is the number of suffix i in the sorted order of all suffixes. */
  ghost predicate TrueRanks(x: seq<byte>, rank: seq<nat>) {
    && |rank| == |x| + 1 && Permutes(rank)
    && forall i, j :: 0 <= i <= |x| && 0 <= j <= |x| ==> (rank[i] < rank[j] <==> SuffixLess(x, i, j))
  }

  /** The place of row r in the output: the row of the whole block is skipped. */
  function Slot(w: nat, r: nat): int {
    if r < w then r else r - 1
  }

  /** The output of the encoder: row rank[i] shows the byte in front of suffix i. */
  ghost predicate Emitted(x: seq<byte>, rank: seq<nat>, output: seq<byte>) {
    && |output| == |x| && |rank| == |x| + 1 && Permutes(rank)
    && forall i :: 1 <= i <= |x| ==> 0 <= Slot(rank[0], rank[i]) < |x| && output[Slot(rank[0], rank[i])] == x[i - 1]
  }

  /** The loop at the end of the encoder, given the suffix ranks. */
  method Emit(x: seq<byte>, rank: seq<nat>) returns (output: array<byte>, w: nat)
    requires x != [] && TrueRanks(x, rank)
    ensures fresh(output) && Emitted(x, rank, output[..]) && w == rank[0]
  {
    hide SuffixLess;
    output := new byte[|x|];
    var lb := x[0];
    w := rank[0];
    for i := 1 to |x| + 1
      invariant i <= |x| ==> lb == x[i - 1]
      invariant forall k :: 1 <= k < i ==>
        0 <= Slot(w, rank[k]) < |x| && output[Slot(w, rank[k])] == x[k - 1]
    {
      var ps := rank[i];
      SlotsDiffer(rank, i);
      if ps < w {
        output[ps] := lb;
      } else {
        output[ps - 1] := lb;
      }
      if i < |x| {
        lb := x[i];
      }
    }
  }

  lemma SlotsDiffer(rank: seq<nat>, i: nat)
    requires Permutes(rank) && 1 <= i < |rank|
    ensures 0 <= Slot(rank[0], rank[i]) < |rank| - 1
    ensures forall k :: 1 <= k < i ==> Slot(rank[0], rank[k]) != Slot(rank[0], rank[i])
  {
  }

  // ------------------------------------------------------------------ the walk back through the rows

  /** The rows as keys: one more than the byte shown, 0 for the row that shows none. */
  ghost function RowKeys(output: seq<byte>, w: nat): (k: seq<nat>)
    requires w <= |output|
    ensures |k| == |output| + 1
    ensures forall r :: 0 <= r <= |output| ==>
      k[r] == if r == w then 0 else if r < w then output[r] as nat + 1 else output[r - 1] as nat + 1
  {
    seq(|output| + 1, r requires 0 <= r <= |output| =>
      if r == w then 0 else if r < w then output[r] as nat + 1 else output[r - 1] as nat + 1)
  }

  lemma KeyOfRow(x: seq<byte>, rank: seq<nat>, output: seq<byte>, i: nat)
    requires Emitted(x, rank, output) && i <= |x|
    ensures |output| == |x| && rank[0] <= |x| && rank[i] <= |x|
    ensures RowKeys(output, rank[0])[rank[i]] == if i == 0 then 0 else x[i - 1] as nat + 1
  {
    if i > 0 {
      assert rank[i] != rank[0];
      assert output[Slot(rank[0], rank[i])] == x[i - 1];
    }
  }

  /** Where the stable sort by byte sends the rows, listed by suffix. */
  ghost function Steps(x: seq<byte>, rank: seq<nat>, output: seq<byte>): (f: seq<nat>)
    requires Emitted(x, rank, output)
    ensures |f| == |x| + 1
    ensures forall i :: 0 <= i <= |x| ==>
      f[i] == Place(RowKeys(output, rank[0]), if i == |x| then rank[0] else rank[i + 1])
  {
    seq(|x| + 1, i requires 0 <= i <= |x| =>
      Place(RowKeys(output, rank[0]), if i == |x| then rank[0] else rank[i + 1]))
  }

  lemma StepsPermute(x: seq<byte>, rank: seq<nat>, output: seq<byte>)
    requires Emitted(x, rank, output)
    ensures Permutes(Steps(x, rank, output))
  {
    var f, g := Steps(x, rank, output), Places(RowKeys(output, rank[0]));
    hide Place, RowKeys, Steps;
    PlacesPermute(RowKeys(output, rank[0]));
    forall i | 0 <= i <= |x|
      ensures f[i] == g[if i == |x| then rank[0] else rank[i + 1]]
    {
    }
  }

  /** The rows keep the order of the suffixes when they are sorted by byte. */
  lemma StepsOrder(x: seq<byte>, rank: seq<nat>, output: seq<byte>, i: nat, j: nat)
    requires TrueRanks(x, rank) && Emitted(x, rank, output) && i <= |x| && j <= |x| && rank[i] < rank[j]
    ensures Steps(x, rank, output)[i] < Steps(x, rank, output)[j]
  {
    hide Place, RowKeys, Emitted, Permutes;
    KeyOfRow(x, rank, output, 0);
    assert SuffixLess(x, i, j);
    KeyOfRow(x, rank, output, j + 1);
    if i < |x| {
      KeyOfRow(x, rank, output, i + 1);
      PlaceOrder(RowKeys(output, rank[0]), rank[i + 1], rank[j + 1]);
    } else {
      PlaceOrder(RowKeys(output, rank[0]), rank[0], rank[j + 1]);
    }
  }

  /** Sorting the rows by byte leads from each suffix to the one a byte longer. */
  lemma StepsBack(x: seq<byte>, rank: seq<nat>, output: seq<byte>, i: nat)
    requires TrueRanks(x, rank) && Emitted(x, rank, output) && i <= |x|
    ensures Steps(x, rank, output)[i] == rank[i]
  {
    hide Place, RowKeys, Emitted, SuffixLess, Steps;
    var f := Steps(x, rank, output);
    StepsPermute(x, rank, output);
    forall j, k | 0 <= j < |f| && 0 <= k < |f| && rank[j] < rank[k]
      ensures f[j] < f[k]
    {
      StepsOrder(x, rank, output, j, k);
    }
    forall j: nat, k: nat | j < |f| && k < |f| && f[j] < f[k]
      ensures rank[j] < rank[k]
    {
      if rank[k] < rank[j] {
        StepsOrder(x, rank, output, k, j);
      }
    }
    SameOrder(f, rank, i);
    SameOrder(rank, f, i);
  }

  // ------------------------------------------------------------------ the decoder

  /** Row r of the table: how many earlier rows show the same byte, and the byte. */
  ghost predicate Tabled(output: seq<byte>, w: nat, t: seq<nat>, m: nat)
    requires w <= |output|
  {
    && |t| == |output| + 1 && m <= |t|
    && forall r :: 0 <= r < m && r != w ==>
         t[r] == Count(RowKeys(output, w), RowKeys(output, w)[r], r) * 256 + RowKeys(output, w)[r] - 1
  }

  ghost predicate Tallied(output: seq<byte>, w: nat, count: seq<nat>, m: nat)
    requires w <= |output|
  {
    && |count| == 256 && m <= |output| + 1
    && forall c :: 0 <= c < 256 ==> count[c] == Count(RowKeys(output, w), c + 1, m)
  }

  lemma TallyStart(output: seq<byte>, w: nat, count: seq<nat>, t: seq<nat>)
    requires w <= |output| && |t| == |output| + 1
    requires |count| == 256 && forall c :: 0 <= c < 256 ==> count[c] == 0
    ensures Tallied(output, w, count, 0) && Tabled(output, w, t, 0)
  {
  }

  lemma TallySkip(output: seq<byte>, w: nat, count: seq<nat>, t: seq<nat>)
    requires w <= |output| && Tallied(output, w, count, w) && Tabled(output, w, t, w)
    ensures Tallied(output, w, count, w + 1) && Tabled(output, w, t, w + 1)
  {
    var keys := RowKeys(output, w);
    forall c | 0 <= c < 256
      ensures count[c] == Count(keys, c + 1, w + 1)
    {
      CountOneMore(keys, c + 1, w);
    }
    hide RowKeys, Count;
  }

  lemma CountOneMore(keys: seq<nat>, w: nat, m: nat)
    requires m < |keys|
    ensures Count(keys, w, m + 1) == Count(keys, w, m) + if keys[m] == w then 1 else 0
  {
  }

  lemma TallyCount(output: seq<byte>, w: nat, count: seq<nat>, m: nat)
    requires w <= |output| && m <= |output| && m != w && Tallied(output, w, count, m)
    ensures |count| == 256
    ensures
      var c: nat := if m < w then output[m] else output[m - 1];
      Tallied(output, w, count[c := count[c] + 1], m + 1)
  {
    hide Count;
    var keys := RowKeys(output, w);
    var c: nat := if m < w then output[m] else output[m - 1];
    var after := count[c := count[c] + 1];
    assert keys[m] == c + 1;
    forall d | 0 <= d < 256
      ensures after[d] == Count(keys, d + 1, m + 1)
    {
      CountOneMore(keys, d + 1, m);
    }
  }

  lemma TallyStep(output: seq<byte>, w: nat, count: seq<nat>, t: seq<nat>, m: nat)
    requires w <= |output| && m <= |output| && m != w && Tallied(output, w, count, m) && Tabled(output, w, t, m)
    ensures |count| == 256 && |t| == |output| + 1
    ensures
      var c: nat := if m < w then output[m] else output[m - 1];
      && Tallied(output, w, count[c := count[c] + 1], m + 1)
      && Tabled(output, w, t[m := count[c] * 256 + c], m + 1)
  {
    hide Count;
    TallyCount(output, w, count, m);
    var c: nat := if m < w then output[m] else output[m - 1];
    assert RowKeys(output, w)[m] == c + 1;
  }

  /** Reads one row into the table. */
  method ReadRow(c: byte, r: nat, count: array<nat>, t: array<nat>, ghost output: seq<byte>, ghost w: nat)
    requires w <= |output| && r <= |output| && r != w && c == if r < w then output[r] else output[r - 1]
    requires count != t && Tallied(output, w, count[..], r) && Tabled(output, w, t[..], r)
    modifies count, t
    ensures Tallied(output, w, count[..], r + 1) && Tabled(output, w, t[..], r + 1)
  {
    hide Tallied, Tabled, RowKeys;
    TallyStep(output, w, count[..], t[..], r);
    var n: nat := c;
    t[r] := count[c] * 256 + n;
    count[c] := count[c] + 1;
  }

  lemma {:induction false} LessOne(keys: seq<nat>, m: nat)
    requires m <= |keys|
    ensures Less(keys, 1, m) == Count(keys, 0, m)
  {
    if m > 0 {
      LessOne(keys, m - 1);
    }
  }

  lemma {:induction false} OneUnshown(output: seq<byte>, w: nat, m: nat)
    requires w < m <= |output| + 1
    ensures Count(RowKeys(output, w), 0, m) == 1
  {
    if m - 1 == w {
      NoneUnshown(output, w, w);
    } else {
      OneUnshown(output, w, m - 1);
    }
  }

  lemma {:induction false} NoneUnshown(output: seq<byte>, w: nat, m: nat)
    requires m <= w <= |output|
    ensures Count(RowKeys(output, w), 0, m) == 0
  {
    if m > 0 {
      NoneUnshown(output, w, m - 1);
    }
  }

  /** Turns the tallies into the first rows of the bytes; the row that shows none comes first. */
  method Accumulate(count: array<nat>, ghost output: seq<byte>, ghost w: nat)
    requires w <= |output| && Tallied(output, w, count[..], |output| + 1)
    modifies count
    ensures count.Length == 256
    ensures forall c :: 0 <= c < 256 ==> count[c] == Start(RowKeys(output, w), c + 1)
  {
    hide RowKeys, Less, Count;
    ghost var keys := RowKeys(output, w);
    LessOne(keys, |keys|);
    OneUnshown(output, w, |keys|);
    var sum: nat := 1;
    for i := 0 to 256
      invariant count.Length == 256 && sum == Start(keys, i + 1)
      invariant forall c :: 0 <= c < i ==> count[c] == Start(keys, c + 1)
      invariant forall c :: i <= c < 256 ==> count[c] == Count(keys, c + 1, |keys|)
    {
      LessNext(keys, i + 1, |keys|);
      sum := sum + count[i];
      count[i] := sum - count[i];
    }
  }

  /** The byte and the next row that the table gives for the row of suffix i. */
  lemma RowOf(x: seq<byte>, rank: seq<nat>, output: seq<byte>, t: seq<nat>, i: nat)
    requires TrueRanks(x, rank) && Emitted(x, rank, output) && 1 <= i <= |x|
    requires rank[0] <= |output| && Tabled(output, rank[0], t, |output| + 1)
    ensures rank[i] < |t| && rank[i] != rank[0] && t[rank[i]] % 256 == x[i - 1]
    ensures t[rank[i]] / 256 + Start(RowKeys(output, rank[0]), x[i - 1] as nat + 1) == rank[i - 1]
  {
    hide RowKeys, Less, Count, SuffixLess;
    KeyOfRow(x, rank, output, i);
    StepsBack(x, rank, output, i - 1);
    SplitEntry(Count(RowKeys(output, rank[0]), x[i - 1] as nat + 1, rank[i]), x[i - 1]);
  }

  lemma SplitEntry(n: nat, c: byte)
    ensures (n * 256 + c) / 256 == n && (n * 256 + c) % 256 == c
  {
  }

  /**
    Reads the block backwards, suffix by suffix, replacing the rows by the block.  The rows looked at are
    those of all suffixes but the whole block, each once: the entry of row fbp is never set and never read.
   */
  method Decode(a: array<byte>, fbp: nat, ghost x: seq<byte>, ghost rank: seq<nat>) returns (ghost visited: seq<nat>)
    requires x != [] && TrueRanks(x, rank) && Emitted(x, rank, a[..]) && fbp == rank[0]
    modifies a
    ensures a[..] == x
    ensures |visited| == |x| && forall k :: 0 <= k < |x| ==> visited[k] == rank[|x| - k] != fbp
  {
    hide RowKeys, Less, Count, SuffixLess, Tallied, Tabled, Emitted, Permutes;
    ghost var rows := a[..];
    EmittedShape(x, rank, rows);
    var size := a.Length;
    var t := new nat[size + 1];
    var count := new nat[256](_ => 0);
    TallyStart(rows, fbp, count[..], t[..]);
    for i := 0 to fbp
      invariant a[..] == rows && t.Length == size + 1
      invariant Tallied(rows, fbp, count[..], i) && Tabled(rows, fbp, t[..], i)
    {
      ReadRow(a[i], i, count, t, rows, fbp);
    }
    TallySkip(rows, fbp, count[..], t[..]);
    for i := fbp to size
      invariant a[..] == rows && t.Length == size + 1
      invariant Tallied(rows, fbp, count[..], i + 1) && Tabled(rows, fbp, t[..], i + 1)
    {
      ReadRow(a[i], i + 1, count, t, rows, fbp);
    }
    ghost var table := t[..];
    Accumulate(count, rows, fbp);
    visited := [];
    var row, i := 0, size;
    while i > 0
      invariant 0 <= i <= size && row == rank[i] && a[i..] == x[i..]
      invariant t[..] == table && forall c :: 0 <= c < 256 ==> count[c] == Start(RowKeys(rows, fbp), c + 1)
      invariant |visited| == size - i && forall k :: 0 <= k < size - i ==> visited[k] == rank[size - k] != fbp
    {
      RowOf(x, rank, rows, t[..], i);
      visited := visited + [row];
      var u := t[row];
      var c := u % 256;
      row := u / 256 + count[c];
      i := i - 1;
      a[i] := c;
    }
    assert i == 0 && a[..] == a[0..] && x[0..] == x;
    assert size == |x|;
  }

  lemma EmittedShape(x: seq<byte>, rank: seq<nat>, output: seq<byte>)
    requires x != [] && TrueRanks(x, rank) && Emitted(x, rank, output)
    ensures |output| == |x| && rank[0] <= |x| && rank[|x|] == 0
  {
    var i := Onto(rank, 0);
    if i < |x| {
      assert SuffixLess(x, |x|, i);
    }
  }
}
