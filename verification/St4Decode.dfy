/**
  GRZip_ST4_Decode: rebuilds the block from its rows in one walk.

  The decoder counts bytes and byte pairs, marks the rows where a new key of length three begins, and
  builds a table in which the first row of each kind holds a pointer into the group of the next
  position and all other rows of that kind point to it.  Walking the table reads the block.
 */
module St4Decode {
  import opened Bytes
  import opened CountingSort
  import opened St4Order
  import opened St4Encode
  import opened St4Links

  const INDIRECT := 0x80_0000
  const CHAR := 0x100_0000

  // ------------------------------------------------------------------ phase one: bytes and pairs

  /** counter[c] is where the next row of byte c goes, once the first j rows are placed. */
  ghost predicate Running(rows: seq<byte>, counter: seq<nat>, j: nat)
    requires j <= |rows|
  {
    |counter| == 256 && forall c :: 0 <= c < 256 ==> counter[c] == Start(Nats(rows), c) + Count(Nats(rows), c, j)
  }

  lemma RunningStep(rows: seq<byte>, counter: seq<nat>, j: nat)
    requires j < |rows| && Running(rows, counter, j)
    ensures |counter| == 256 && counter[rows[j]] == Place(Nats(rows), j)
    ensures Running(rows, counter[rows[j] := counter[rows[j]] + 1], j + 1)
  {
  }

  ghost predicate BytesCounted(rows: seq<byte>, counter: seq<nat>, j: nat)
    requires j <= |rows|
  {
    |counter| == 256 && forall c :: 0 <= c < 256 ==> counter[c] == Count(Nats(rows), c, j)
  }

  lemma BytesCountedStep(rows: seq<byte>, counter: seq<nat>, j: nat)
    requires j < |rows| && BytesCounted(rows, counter, j)
    ensures |counter| == 256
    ensures BytesCounted(rows, counter[rows[j] := counter[rows[j]] + 1], j + 1)
  {
  }

  method CountBytes(rows: seq<byte>) returns (t: array<nat>)
    ensures fresh(t) && t.Length == 256 && BytesCounted(rows, t[..], |rows|)
  {
    hide BytesCounted;
    t := new nat[256](_ => 0);
    NoBytes(rows, t[..]);
    for i := 0 to |rows|
      invariant BytesCounted(rows, t[..], i)
    {
      BytesCountedStep(rows, t[..], i);
      t[rows[i]] := t[rows[i]] + 1;
    }
  }

  lemma NoBytes(rows: seq<byte>, t: seq<nat>)
    requires |t| == 256 && forall c :: 0 <= c < 256 ==> t[c] == 0
    ensures BytesCounted(rows, t, 0)
  {
  }

  /** The table of byte counts while it is being turned into starting places. */
  ghost predicate HalfSummed(rows: seq<byte>, t: seq<nat>, i: nat) {
    && |t| == 256 && i <= 256
    && (forall c :: 0 <= c < i ==> t[c] == Start(Nats(rows), c))
    && (forall c :: i <= c < 256 ==> t[c] == Count(Nats(rows), c, |rows|))
  }

  lemma HalfSummedStart(rows: seq<byte>, t: seq<nat>)
    requires BytesCounted(rows, t, |rows|)
    ensures HalfSummed(rows, t, 0) && Start(Nats(rows), 0) == 0
  {
    LessZero(Nats(rows), |rows|);
  }

  lemma HalfSummedStep(rows: seq<byte>, t: seq<nat>, i: nat)
    requires i < 256 && HalfSummed(rows, t, i)
    ensures |t| == 256 && Start(Nats(rows), i) + t[i] == Start(Nats(rows), i + 1) <= |rows|
    ensures HalfSummed(rows, t[i := Start(Nats(rows), i)], i + 1)
  {
    LessNext(Nats(rows), i, |rows|);
  }

  lemma HalfSummedEnd(rows: seq<byte>, t: seq<nat>)
    requires HalfSummed(rows, t, 256)
    ensures Running(rows, t, 0) && Start(Nats(rows), 256) == |rows|
  {
    AllBytes(Nats(rows), |rows|);
  }

  lemma {:induction false} AllBytes(keys: seq<nat>, m: nat)
    requires m <= |keys| && forall i :: 0 <= i < |keys| ==> keys[i] < 256
    ensures Less(keys, 256, m) == m
  {
    if m > 0 {
      AllBytes(keys, m - 1);
    }
  }

  /** A row among the places of byte b is a row whose preceding byte is b. */
  lemma PairAt(x: seq<byte>, rows: seq<byte>, j: nat, b: nat)
    requires x != [] && Transformed(x, rows) && j < |rows| && b < 256
    requires Start(Nats(rows), b) <= j < Start(Nats(rows), b + 1)
    ensures |rows| == |x| && RowPairs(x, rows)[j] == rows[j] as nat * 256 + b < WORDS
  {
    hide Less, RowKeys;
    ByteStarts(x, rows, b);
    ByteStarts(x, rows, b + 1);
    RowKeyIs(x, 1, j, b);
  }

  /** Sums up the byte counts; on the way counts the pairs of a row's byte and the byte in front of it. */
  method SumAndPair(rows: seq<byte>, t: array<nat>, ghost x: seq<byte>) returns (context2: array<nat>)
    requires x != [] && Transformed(x, rows) && |rows| == |x| && BytesCounted(rows, t[..], |rows|)
    modifies t
    ensures fresh(context2) && Running(rows, t[..], 0)
    ensures Counted(RowPairs(x, rows), context2[..], |x|)
  {
    hide BytesCounted, HalfSummed, Running, Counted, Transformed, RowPairs, Less;
    context2 := new nat[WORDS](_ => 0);
    CountedNone(RowPairs(x, rows), context2[..]);
    HalfSummedStart(rows, t[..]);
    var j, sum: nat := 0, 0;
    for i := 0 to 256
      invariant HalfSummed(rows, t[..], i) && fresh(context2)
      invariant j == sum == Start(Nats(rows), i) <= |rows|
      invariant Counted(RowPairs(x, rows), context2[..], j)
    {
      HalfSummedStep(rows, t[..], i);
      sum := sum + t[i];
      t[i] := sum - t[i];
      ghost var summed := t[..];
      while j < sum
        invariant Start(Nats(rows), i) <= j <= sum == Start(Nats(rows), i + 1) <= |rows|
        invariant t[..] == summed && fresh(context2)
        invariant Counted(RowPairs(x, rows), context2[..], j)
      {
        PairAt(x, rows, j, i);
        CountedStep(RowPairs(x, rows), context2[..], j);
        var c: nat := rows[j];
        context2[c * 256 + i] := context2[c * 256 + i] + 1;
        j := j + 1;
      }
    }
    HalfSummedEnd(rows, t[..]);
  }

  // ------------------------------------------------------------------ phase two: marking the groups

  /** seen[c] is the start of the group of the last row of byte c, or -1. */
  ghost predicate GroupsSeen(x: seq<byte>, rows: seq<byte>, seen: seq<int>, j: nat)
    requires x != [] && |rows| == |x| && j <= |rows|
  {
    |seen| == 256 && forall c: byte :: seen[c] == LastGroup(x, rows, c, j)
  }

  ghost function LastGroup(x: seq<byte>, rows: seq<byte>, c: byte, j: nat): int
    requires x != [] && |rows| == |x| && j <= |rows|
  {
    var l := Last(rows, c, j);
    if l < 0 then -1 else Start(Keys(x, 2), RowKeys(x, 2)[l])
  }

  /** A first row before row j is sent to place q. */
  ghost predicate SentTo(x: seq<byte>, rows: seq<byte>, j: nat, q: nat)
    requires x != [] && |rows| == |x| && j <= |rows|
  {
    exists r: nat :: r < j && First(x, rows, 2, r) && Place(Nats(rows), r) == q
  }

  ghost predicate Marked(x: seq<byte>, rows: seq<byte>, flag: seq<bool>, j: nat)
    requires x != [] && |rows| == |x| && j <= |rows|
  {
    |flag| == |x| && forall q: nat :: q < |x| ==> (flag[q] <==> SentTo(x, rows, j, q))
  }

  lemma MarkStart(x: seq<byte>, rows: seq<byte>, seen: seq<int>, flag: seq<bool>)
    requires x != [] && |rows| == |flag| == |x| && |seen| == 256
    requires (forall c :: 0 <= c < 256 ==> seen[c] == -1) && forall q :: 0 <= q < |x| ==> !flag[q]
    ensures GroupsSeen(x, rows, seen, 0) && Marked(x, rows, flag, 0)
  {
  }

  /** The table of seen groups tells whether a row is a first one. */
  lemma SeenIsFirst(x: seq<byte>, rows: seq<byte>, seen: seq<int>, j: nat)
    requires x != [] && |rows| == |x| && j < |x| && GroupsSeen(x, rows, seen, j)
    ensures |seen| == 256
    ensures
      var start := Start(Keys(x, 2), RowKeys(x, 2)[j]);
      && (seen[rows[j]] != start <==> First(x, rows, 2, j))
      && GroupsSeen(x, rows, seen[rows[j] := start], j + 1)
  {
    SeenMeans(x, rows, seen, j);
    hide RowKeys, Keys, Less, First, Start;
  }

  lemma SeenMeans(x: seq<byte>, rows: seq<byte>, seen: seq<int>, j: nat)
    requires x != [] && |rows| == |x| && j < |x| && GroupsSeen(x, rows, seen, j)
    ensures |seen| == 256 && (seen[rows[j]] != Start(Keys(x, 2), RowKeys(x, 2)[j]) <==> First(x, rows, 2, j))
  {
    hide RowKeys, Keys, Less;
    var l := Last(rows, rows[j], j);
    if l >= 0 {
      RowInGroup(x, 2, l);
      RowInGroup(x, 2, j);
      StartsDiffer(Keys(x, 2), RowKeys(x, 2)[l], RowKeys(x, 2)[j]);
    }
  }

  lemma StartsDiffer(keys: seq<nat>, v: nat, w: nat)
    requires Start(keys, v) < Start(keys, v + 1) && Start(keys, w) < Start(keys, w + 1)
    ensures Start(keys, v) == Start(keys, w) <==> v == w
  {
    if v < w {
      LessMono(keys, v + 1, w, |keys|);
    } else if w < v {
      LessMono(keys, w + 1, v, |keys|);
    }
  }

  lemma MarkStep(x: seq<byte>, rows: seq<byte>, flag: seq<bool>, j: nat)
    requires x != [] && |rows| == |x| && j < |x| && Marked(x, rows, flag, j)
    ensures Place(Nats(rows), j) < |flag| == |x|
    ensures First(x, rows, 2, j) ==> Marked(x, rows, flag[Place(Nats(rows), j) := true], j + 1)
    ensures !First(x, rows, 2, j) ==> Marked(x, rows, flag, j + 1)
  {
    hide First, Place;
    PlacesInRange(Nats(rows), j);
    forall q: nat | q < |x|
      ensures SentTo(x, rows, j + 1, q)
        <==> SentTo(x, rows, j, q) || (First(x, rows, 2, j) && Place(Nats(rows), j) == q)
    {
    }
  }

  /** The marked rows are exactly those where a key of length three begins. */
  ghost predicate GroupMarks(x: seq<byte>, flag: seq<bool>)
    requires x != []
  {
    |flag| == |x| && forall q: nat :: q < |x| ==> (flag[q] <==> q == Start(Keys(x, 3), RowKeys(x, 3)[q]))
  }

  lemma MarksDone(x: seq<byte>, rows: seq<byte>, flag: seq<bool>)
    requires x != [] && Transformed(x, rows) && |rows| == |x| && Marked(x, rows, flag, |x|)
    ensures GroupMarks(x, flag)
  {
    hide First, Place, RowKeys, Keys, Less, Transformed;
    forall q: nat | q < |x|
      ensures flag[q] <==> q == Start(Keys(x, 3), RowKeys(x, 3)[q])
    {
      if flag[q] {
        assert SentTo(x, rows, |x|, q);
        var r: nat :| r < |x| && First(x, rows, 2, r) && Place(Nats(rows), r) == q;
        FirstIsStart(x, rows, 2, r);
        LinkGroup(x, rows, 2, r);
        RowKeyIs(x, 3, q, Keys(x, 3)[NextShown(x, r)]);
      }
      if q == Start(Keys(x, 3), RowKeys(x, 3)[q]) {
        var r := StartIsFirst(x, rows, 2, q);
        assert SentTo(x, rows, |x|, q);
      }
    }
  }

  /** The next bucket of pairs ends where the next key of length two starts. */
  lemma BucketEnd(x: seq<byte>, rows: seq<byte>, counter: seq<nat>, i: nat)
    requires x != [] && Transformed(x, rows) && |rows| == |x| && i < WORDS
    requires Counted(RowPairs(x, rows), counter, |x|)
    ensures |counter| == WORDS && Start(Keys(x, 2), i) + counter[i] == Start(Keys(x, 2), i + 1) <= |x|
  {
    hide RowPairs, Less, Keys;
    PairStarts(x, rows, i);
    PairStarts(x, rows, i + 1);
    LessNext(RowPairs(x, rows), i, |x|);
    StartMost(Keys(x, 2), i + 1);
  }

  lemma BucketsDone(x: seq<byte>)
    requires x != []
    ensures Start(Keys(x, 2), 0) == 0 && Start(Keys(x, 2), WORDS) == |x|
  {
    hide Key;
    LessZero(Keys(x, 2), |x|);
    forall i | 0 <= i < |x|
      ensures Keys(x, 2)[i] < WORDS
    {
      KeyTwo(x, i);
    }
    AllBelow(Keys(x, 2), |x|);
  }

  method MarkGroups(rows: seq<byte>, t: array<nat>, context2: array<nat>, ghost x: seq<byte>)
    returns (flag: array<bool>)
    requires x != [] && Transformed(x, rows) && |rows| == |x| && t != context2
    requires Running(rows, t[..], 0) && Counted(RowPairs(x, rows), context2[..], |x|)
    modifies t
    ensures fresh(flag) && GroupMarks(x, flag[..])
  {
    hide Running, Counted, Transformed, RowPairs, Less, GroupsSeen, Marked, GroupMarks, Keys, RowKeys, Place, First;
    var n := |rows|;
    flag := new bool[n](_ => false);
    var seen := new int[256](_ => -1);
    MarkStart(x, rows, seen[..], flag[..]);
    BucketsDone(x);
    ghost var buckets := context2[..];
    var j, sum: nat := 0, 0;
    for i := 0 to WORDS
      invariant j == sum == Start(Keys(x, 2), i) <= n && context2[..] == buckets
      invariant Running(rows, t[..], j) && GroupsSeen(x, rows, seen[..], j) && Marked(x, rows, flag[..], j)
    {
      BucketEnd(x, rows, context2[..], i);
      var cStart := sum;
      sum := sum + context2[i];
      while j < sum
        invariant cStart == Start(Keys(x, 2), i) <= j <= sum == Start(Keys(x, 2), i + 1) <= n
        invariant context2[..] == buckets
        invariant Running(rows, t[..], j) && GroupsSeen(x, rows, seen[..], j) && Marked(x, rows, flag[..], j)
      {
        MarkRow(rows, t, seen, flag, j, cStart, i, x);
        j := j + 1;
      }
    }
    MarksDone(x, rows, flag[..]);
  }

  /** Marks where row j is sent if no row of its kind came before it. */
  method MarkRow(rows: seq<byte>, t: array<nat>, seen: array<int>, flag: array<bool>, j: nat, cStart: nat,
                 ghost key: nat, ghost x: seq<byte>)
    requires x != [] && |rows| == |x| && j < |x|
    requires Running(rows, t[..], j) && GroupsSeen(x, rows, seen[..], j) && Marked(x, rows, flag[..], j)
    requires cStart == Start(Keys(x, 2), key) <= j < Start(Keys(x, 2), key + 1)
    modifies t, seen, flag
    ensures Running(rows, t[..], j + 1) && GroupsSeen(x, rows, seen[..], j + 1) && Marked(x, rows, flag[..], j + 1)
  {
    hide Running, Less, GroupsSeen, Marked, Keys, RowKeys, Place, First;
    RowKeyIs(x, 2, j, key);
    RunningStep(rows, t[..], j);
    SeenIsFirst(x, rows, seen[..], j);
    MarkStep(x, rows, flag[..], j);
    var c := rows[j];
    if seen[c] != cStart {
      seen[c] := cStart;
      flag[t[c]] := true;
    } else {
      assert seen[..] == seen[..][c := cStart];
    }
    t[c] := t[c] + 1;
  }

  // ------------------------------------------------------------------ phase three: the table

  /** The first row of the same kind. */
  ghost function Head(x: seq<byte>, rows: seq<byte>, r: nat): (h: nat)
    requires x != [] && |rows| == |x| && r < |x|
    ensures h <= r && First(x, rows, 3, h) && rows[h] == rows[r] && RowKeys(x, 3)[h] == RowKeys(x, 3)[r]
  {
    if First(x, rows, 3, r) then r else Head(x, rows, Last(rows, rows[r], r))
  }

  /** What the table says about row r: where its kind is sent, or which row knows. */
  ghost function Link(x: seq<byte>, rows: seq<byte>, r: nat): (v: nat)
    requires x != [] && |rows| == |x| && r < |x|
    ensures |x| < INDIRECT ==> v < 2 * INDIRECT && (v < INDIRECT <==> First(x, rows, 3, r))
  {
    if First(x, rows, 3, r) then
      PlacesInRange(Nats(rows), r);
      Place(Nats(rows), r)
    else INDIRECT + Head(x, rows, r)
  }

  function Entry(c: byte, link: nat): nat {
    var n: nat := c;
    n * CHAR + link
  }

  /** The table, row by row. */
  ghost function Entries(x: seq<byte>, rows: seq<byte>): (e: seq<nat>)
    requires x != [] && |rows| == |x|
    ensures |e| == |x| && forall r :: 0 <= r < |x| ==> e[r] == Entry(rows[r], Link(x, rows, r))
  {
    seq(|x|, r requires 0 <= r < |x| => Entry(rows[r], Link(x, rows, r)))
  }

  /** seen[c] is one more than the first row of the kind of the last row of byte c, or 0. */
  ghost predicate HeadsSeen(x: seq<byte>, rows: seq<byte>, seen: seq<nat>, i: nat)
    requires x != [] && |rows| == |x| && i <= |rows|
  {
    |seen| == 256 && forall c: byte :: seen[c] == LastHead(x, rows, c, i)
  }

  ghost function LastHead(x: seq<byte>, rows: seq<byte>, c: byte, i: nat): nat
    requires x != [] && |rows| == |x| && i <= |rows|
  {
    var l := Last(rows, c, i);
    if l < 0 then 0 else Head(x, rows, l) + 1
  }

  /** cStart is where the key group of row i - 1 starts. */
  ghost predicate InGroup(x: seq<byte>, cStart: nat, i: nat)
    requires x != [] && i <= |x|
  {
    if i == 0 then cStart == 0 else cStart == Start(Keys(x, 3), RowKeys(x, 3)[i - 1])
  }

  lemma GroupStep(x: seq<byte>, flag: seq<bool>, cStart: nat, i: nat)
    requires x != [] && i < |x| && GroupMarks(x, flag) && InGroup(x, cStart, i)
    ensures i < |flag|
    ensures InGroup(x, if flag[i] then i else cStart, i + 1)
  {
    hide RowKeys, Keys, Less;
    RowInGroup(x, 3, i);
    if !flag[i] {
      RowKeyIs(x, 3, i - 1, RowKeys(x, 3)[i]);
    }
  }

  lemma HeadsStart(x: seq<byte>, rows: seq<byte>, seen: seq<nat>)
    requires x != [] && |rows| == |x| && |seen| == 256
    requires forall c :: 0 <= c < 256 ==> seen[c] == 0
    ensures HeadsSeen(x, rows, seen, 0)
  {
  }

  lemma HeadsStep(x: seq<byte>, rows: seq<byte>, seen: seq<nat>, cStart: nat, i: nat)
    requires x != [] && |rows| == |x| && i < |x| && HeadsSeen(x, rows, seen, i) && InGroup(x, cStart, i + 1)
    ensures |seen| == 256
    ensures
      var c := rows[i];
      && (seen[c] <= cStart <==> First(x, rows, 3, i))
      && (seen[c] > cStart ==> Link(x, rows, i) == INDIRECT + seen[c] - 1 && HeadsSeen(x, rows, seen, i + 1))
      && (seen[c] <= cStart ==>
            Link(x, rows, i) == Place(Nats(rows), i) && HeadsSeen(x, rows, seen[c := i + 1], i + 1))
  {
    hide RowKeys, Keys, Less, Place;
    var l := Last(rows, rows[i], i);
    if l >= 0 {
      var h := Head(x, rows, l);
      RowInGroup(x, 3, h);
      RowInGroup(x, 3, i);
      RowKeysSorted(x, 3, h, i);
      if RowKeys(x, 3)[h] < RowKeys(x, 3)[i] {
        LessMono(Keys(x, 3), RowKeys(x, 3)[h] + 1, RowKeys(x, 3)[i], |x|);
      }
    }
  }

  method BuildTable(rows: seq<byte>, s: array<nat>, flag: array<bool>, ghost x: seq<byte>) returns (table: array<nat>)
    requires x != [] && |rows| == |x| && Running(rows, s[..], 0) && GroupMarks(x, flag[..])
    modifies s
    ensures fresh(table) && table.Length == |x| + 1 && table[..|x|] == Entries(x, rows)
  {
    hide Running, HeadsSeen, GroupMarks, InGroup, Place, First, Link;
    var n := |rows|;
    table := new nat[n + 1];
    var seen := new nat[256](_ => 0);
    HeadsStart(x, rows, seen[..]);
    ghost var marks, entries := flag[..], Entries(x, rows);
    var cStart := 0;
    NoGroup(x);
    for i := 0 to n
      invariant flag[..] == marks && table.Length == n + 1 && InGroup(x, cStart, i)
      invariant Running(rows, s[..], i) && HeadsSeen(x, rows, seen[..], i) && table[..i] == entries[..i]
    {
      GroupStep(x, flag[..], cStart, i);
      var c := rows[i];
      if flag[i] {
        cStart := i;
      }
      RunningStep(rows, s[..], i);
      HeadsStep(x, rows, seen[..], cStart, i);
      if seen[c] <= cStart {
        table[i] := s[c];
        seen[c] := i + 1;
      } else {
        table[i] := seen[c] - 1 + INDIRECT;
      }
      s[c] := s[c] + 1;
      table[i] := Entry(c, table[i]);
    }
    table[n] := INDIRECT;
  }

  lemma NoGroup(x: seq<byte>)
    requires x != []
    ensures InGroup(x, 0, 0)
  {
  }

  // ------------------------------------------------------------------ phase four: the walk

  lemma EntryParts(c: byte, link: nat)
    requires link < CHAR
    ensures Entry(c, link) / CHAR == c
    ensures (Entry(c, link) / INDIRECT % 2 == 1 <==> link >= INDIRECT)
    ensures Entry(c, link) % INDIRECT == if link >= INDIRECT then link - INDIRECT else link
  {
  }

  /** The key of length four of the position after row r. */
  ghost function NextKeyOf(x: seq<byte>, r: nat): nat
    requires r < |x|
  {
    Keys(x, 4)[NextShown(x, r)]
  }

  /** What the table says about row r once positions 0 .. i - 1 have been read. */
  ghost function LinkAt(x: seq<byte>, rows: seq<byte>, r: nat, i: nat): nat
    requires x != [] && |rows| == |x| && r < |x| && i <= |x|
  {
    if First(x, rows, 3, r) then Start(Keys(x, 4), NextKeyOf(x, r)) + Count(Keys(x, 4), NextKeyOf(x, r), i)
    else INDIRECT + Head(x, rows, r)
  }

  ghost predicate WalkState(x: seq<byte>, rows: seq<byte>, table: seq<nat>, i: nat)
    requires x != [] && |rows| == |x| && i <= |x|
  {
    |table| == |x| + 1 && forall r :: 0 <= r < |x| ==> table[r] == Entry(rows[r], LinkAt(x, rows, r, i))
  }

  lemma WalkStart(x: seq<byte>, rows: seq<byte>, table: seq<nat>)
    requires x != [] && Transformed(x, rows) && |rows| == |x| && |table| == |x| + 1
    requires table[..|x|] == Entries(x, rows)
    ensures WalkState(x, rows, table, 0)
  {
    hide Entry, First, Place, Head, Less, Transformed;
    forall r | 0 <= r < |x|
      ensures table[r] == Entry(rows[r], LinkAt(x, rows, r, 0))
    {
      assert table[r] == table[..|x|][r];
      if First(x, rows, 3, r) {
        FirstIsStart(x, rows, 3, r);
      }
    }
  }

  lemma HeadKind(x: seq<byte>, rows: seq<byte>, r: nat)
    requires x != [] && Transformed(x, rows) && |rows| == |x| && r < |x|
    ensures NextKeyOf(x, Head(x, rows, r)) == NextKeyOf(x, r)
  {
    hide Keys, RowKeys, Transformed, First;
    SameKind(x, rows, 3, Head(x, rows, r), r);
  }

  /** Two first rows of one kind are the same row. */
  lemma OneHead(x: seq<byte>, rows: seq<byte>, r: nat, h: nat)
    requires x != [] && Transformed(x, rows) && |rows| == |x| && r < |x| && h < |x|
    requires First(x, rows, 3, r) && First(x, rows, 3, h) && NextKeyOf(x, r) == NextKeyOf(x, h)
    ensures r == h
  {
    hide Keys, RowKeys, Transformed, First;
    SameKind(x, rows, 3, r, h);
    if r < h {
      FirstMeans(x, rows, 3, h, r);
    } else if h < r {
      FirstMeans(x, rows, 3, r, h);
    }
  }

  lemma LinkStep(x: seq<byte>, rows: seq<byte>, r: nat, i: nat)
    requires x != [] && |rows| == |x| && r < |x| && i < |x|
    ensures LinkAt(x, rows, r, i + 1)
      == LinkAt(x, rows, r, i) + if First(x, rows, 3, r) && NextKeyOf(x, r) == Keys(x, 4)[i] then 1 else 0
  {
    hide First, Keys, NextKeyOf, Less;
  }

  /** Advancing the one head whose group holds position i accounts for reading it. */
  lemma WalkUpdate(x: seq<byte>, rows: seq<byte>, table: seq<nat>, i: nat, h: nat)
    requires x != [] && Transformed(x, rows) && |rows| == |x| && i < |x| && h < |x|
    requires WalkState(x, rows, table, i) && First(x, rows, 3, h) && NextKeyOf(x, h) == Keys(x, 4)[i]
    ensures |table| == |x| + 1 && WalkState(x, rows, table[h := table[h] + 1], i + 1)
  {
    hide Keys, Transformed, First, Entry, LinkAt, NextKeyOf;
    forall r | 0 <= r < |x|
      ensures table[h := table[h] + 1][r] == Entry(rows[r], LinkAt(x, rows, r, i + 1))
    {
      LinkStep(x, rows, r, i);
      EntryNext(rows[r], LinkAt(x, rows, r, i));
      if First(x, rows, 3, r) && NextKeyOf(x, r) == Keys(x, 4)[i] {
        OneHead(x, rows, r, h);
      }
    }
  }

  /** The head of the row before position i points at position i's row, and then at the next of its group. */
  lemma WalkStep(x: seq<byte>, rows: seq<byte>, table: seq<nat>, i: nat, j: nat)
    requires x != [] && Transformed(x, rows) && |rows| == |x| && i < |x| < INDIRECT
    requires WalkState(x, rows, table, i) && j == Rows(x)[Prev(x, i)]
    ensures |table| == |x| + 1 && j < |x| && Rows(x)[i] < |x|
    ensures
      var h := Head(x, rows, j);
      && table[h] == Entry(rows[h], Rows(x)[i])
      && table[j] == (if h == j then table[h] else Entry(rows[j], INDIRECT + h))
      && WalkState(x, rows, table[h := table[h] + 1], i + 1)
  {
    hide Keys, RowKeys, Transformed, First, Entry, Less, Head, Count;
    RowsInRange(x, Prev(x, i));
    RowsInRange(x, i);
    var h := Head(x, rows, j);
    HeadKind(x, rows, j);
    assert NextKeyOf(x, j) == Keys(x, 4)[i];
    HeadFirst(x, rows, j);
    WalkUpdate(x, rows, table, i, h);
  }

  lemma HeadFirst(x: seq<byte>, rows: seq<byte>, r: nat)
    requires x != [] && |rows| == |x| && r < |x|
    ensures First(x, rows, 3, r) <==> Head(x, rows, r) == r
  {
  }

  lemma EntryNext(c: byte, link: nat)
    ensures Entry(c, link) + 1 == Entry(c, link + 1)
  {
  }

  lemma ShownByte(x: seq<byte>, rows: seq<byte>, table: seq<nat>, i: nat)
    requires x != [] && Transformed(x, rows) && |rows| == |x| && i < |x| < INDIRECT
    requires WalkState(x, rows, table, i + 1)
    ensures Rows(x)[i] < |x| && |table| == |x| + 1 && table[Rows(x)[i]] / CHAR == x[i]
  {
    hide First, Less, Count, Keys, RowKeys, Entry;
    var r := Rows(x)[i];
    RowsInRange(x, i);
    LinkBound(x, rows, r, i + 1);
    EntryParts(rows[r], LinkAt(x, rows, r, i + 1));
  }

  lemma LinkBound(x: seq<byte>, rows: seq<byte>, r: nat, i: nat)
    requires x != [] && |rows| == |x| && r < |x| < INDIRECT && i <= |x|
    ensures LinkAt(x, rows, r, i) < CHAR
  {
    hide First, Keys, RowKeys;
    var k := NextKeyOf(x, r);
    LessNext(Keys(x, 4), k, |x|);
    CountMono(Keys(x, 4), k, i, |x|);
    StartMost(Keys(x, 4), k + 1);
  }

  /** One step of the walk: from the row before position i to the row of position i. */
  method Follow(table: array<nat>, j: nat, sum: nat, ghost x: seq<byte>, ghost rows: seq<byte>, ghost i: nat)
    returns (j': nat)
    requires x != [] && Transformed(x, rows) && |rows| == |x| && i < |x| < INDIRECT
    requires WalkState(x, rows, table[..], i) && j < table.Length && j == Rows(x)[Prev(x, i)] && sum == table[j]
    modifies table
    ensures j' < table.Length && j' == Rows(x)[i] && WalkState(x, rows, table[..], i + 1)
  {
    hide First, Less, Count, Keys, RowKeys, Entry, WalkState, Transformed, Head, Rows;
    ghost var was, h := table[..], Head(x, rows, j);
    HeadOfRow(x, rows, was, i, j);
    if sum / INDIRECT % 2 == 1 {
      var p := sum % INDIRECT;
      j' := table[p] % INDIRECT;
      table[p] := table[p] + 1;
    } else {
      table[j] := table[j] + 1;
      j' := sum % INDIRECT;
    }
    assert table[..] == was[h := was[h] + 1];
  }

  /** What the entry of the row before position i says. */
  lemma HeadOfRow(x: seq<byte>, rows: seq<byte>, table: seq<nat>, i: nat, j: nat)
    requires x != [] && Transformed(x, rows) && |rows| == |x| && i < |x| < INDIRECT
    requires WalkState(x, rows, table, i) && j == Rows(x)[Prev(x, i)]
    ensures |table| == |x| + 1 && j < |x| && Rows(x)[i] < |x|
    ensures
      var h := Head(x, rows, j);
      && (table[j] / INDIRECT % 2 == 1 <==> h != j) && (h != j ==> table[j] % INDIRECT == h)
      && table[h] % INDIRECT == Rows(x)[i] && WalkState(x, rows, table[h := table[h] + 1], i + 1)
  {
    hide First, Less, Count, Keys, RowKeys, Entry, WalkState, Transformed, Head, Rows;
    WalkStep(x, rows, table, i, j);
    var h := Head(x, rows, j);
    EntryParts(rows[h], Rows(x)[i]);
    EntryParts(rows[j], INDIRECT + h);
  }

  /** Reads the block by following the table; it replaces the rows. */
  method Walk(a: array<byte>, table: array<nat>, fbp: nat, ghost x: seq<byte>)
    requires x != [] && |x| < INDIRECT && Transformed(x, a[..]) && a.Length == |x| == table.Length - 1
    requires fbp == Rows(x)[|x| - 1] && table[..|x|] == Entries(x, a[..])
    modifies a, table
    ensures a[..] == x
  {
    hide First, Less, Count, Keys, RowKeys, Entry, WalkState, Transformed, Head, Rows, Entries, Prev, Next, Permutes, Link;
    ghost var rows := a[..];
    WalkStart(x, rows, table[..]);
    RowsInRange(x, |x| - 1);
    PrevIs(x, 0);
    var j := fbp;
    for i := 0 to a.Length
      invariant j < table.Length && (i < |x| ==> j == Rows(x)[Prev(x, i)])
      invariant WalkState(x, rows, table[..], i) && a[..i] == x[..i]
    {
      j := ReadNext(a, table, j, i, x, rows);
      if i + 1 < |x| {
        PrevIs(x, i + 1);
      }
    }
  }

  lemma PrevIs(x: seq<byte>, i: nat)
    requires i < |x|
    ensures Prev(x, i) == if i == 0 then |x| - 1 else i - 1
  {
  }

  /** The byte of position i. */
  method ReadNext(a: array<byte>, table: array<nat>, j0: nat, i: nat, ghost x: seq<byte>, ghost rows: seq<byte>) returns (j: nat)
    requires x != [] && Transformed(x, rows) && |rows| == |x| == a.Length && i < |x| < INDIRECT
    requires WalkState(x, rows, table[..], i) && j0 < table.Length && j0 == Rows(x)[Prev(x, i)] && a[..i] == x[..i]
    modifies a, table
    ensures j < table.Length && j == Rows(x)[i] && WalkState(x, rows, table[..], i + 1) && a[..i + 1] == x[..i + 1]
  {
    hide First, Less, Count, Keys, RowKeys, Entry, WalkState, Transformed, Head, Rows, Prev, Next;
    j := Follow(table, j0, table[j0], x, rows, i);
    ShownByte(x, rows, table[..], i);
    OneMore(a[..], x, i, table[j] / CHAR);
    a[i] := table[j] / CHAR;
  }

  lemma OneMore(a: seq<byte>, x: seq<byte>, i: nat, v: int)
    requires i < |a| && i < |x| && a[..i] == x[..i] && v == x[i]
    ensures a[i := v][..i + 1] == x[..i + 1]
  {
    assert x[..i + 1] == x[..i] + [x[i]];
  }

  /** Turns the rows of a block, and the row of its last byte, back into the block. */
  method Decode(a: array<byte>, fbp: nat, ghost x: seq<byte>)
    requires x != [] && |x| < INDIRECT && Transformed(x, a[..]) && fbp == Rows(x)[|x| - 1]
    modifies a
    ensures a[..] == x
  {
    hide First, Less, Count, Keys, RowKeys, Transformed, Head, Rows, GroupMarks, Counted, BytesCounted, Running;
    var rows := a[..];
    SameLength(x, rows);
    var t := CountBytes(rows);
    var context2 := SumAndPair(rows, t, x);
    ghost var starts, pairs := t[..], context2[..];
    var s := new nat[256];
    forall c | 0 <= c < 256 {
      s[c] := t[c];
    }
    assert t[..] == starts && s[..] == starts && context2[..] == pairs;
    var flag := MarkGroups(rows, t, context2, x);
    assert s[..] == starts;
    var table := BuildTable(rows, s, flag, x);
    assert a[..] == rows;
    Walk(a, table, fbp, x);
  }
}
