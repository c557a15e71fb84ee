/**
  Delta.cpp: finding the tables of a block, filtering them one after the other, and undoing that.  Which row
  sizes are tried at a place is any choice; what is a table, where it begins and ends, and which of its columns
  hardly change is decided as in the program.
 */
module Delta {
  import opened Bytes
  import opened DeltaTable
  import opened DeltaSearch
  import opened DeltaCheck

  const MAX_ELEMENT_SIZE: nat := 30
  const LINE: nat := 32

  // ------------------------------------------------------------------ the tables of a block

  /** A table: how far behind the previous one, which columns hardly change, how many rows. */
  datatype Spec = Spec(skip: nat, mask: seq<bool>, rows: nat)

  /** What is recorded of it. */
  datatype Record = Record(skip: nat, type_: nat, rows: nat)

  function Recorded(t: Spec): Record {
    Record(t.skip, TypeOf(t.mask), t.rows)
  }

  function Length(t: Spec): nat {
    |t.mask| * t.rows
  }

  /** Where the first k tables end. */
  function End(ts: seq<Spec>, k: nat): nat
    requires k <= |ts|
  {
    if k == 0 then 0 else End(ts, k - 1) + ts[k - 1].skip + Length(ts[k - 1])
  }

  predicate Sane(ts: seq<Spec>) {
    forall i :: 0 <= i < |ts| ==> 1 <= |ts[i].mask| <= MAX_ELEMENT_SIZE
  }

  lemma LengthRows(t: Spec)
    requires 1 <= |t.mask|
    ensures Rows(|t.mask|, Length(t))
  {
    RowsMul(|t.mask|, t.rows);
  }

  /** A table subtracted row by row and reordered. */
  function Filtered(s: seq<byte>, mask: seq<bool>): (r: seq<byte>)
    requires 1 <= |mask| && Rows(|mask|, |s|)
    ensures |r| == |s|
  {
    PickSize(Diff(|mask|, s, mask), mask);
    Reordered(Diff(|mask|, s, mask), mask)
  }

  /** One table, between a and b, filtered behind what is already filtered. */
  function Spliced(y: seq<byte>, x: seq<byte>, a: nat, b: nat, t: Spec): (r: seq<byte>)
    requires |y| == |x| && a <= b <= |x| && b - a == Length(t) && 1 <= |t.mask|
    ensures |r| == |x|
  {
    LengthRows(t);
    y[..a] + Filtered(x[a..b], t.mask) + x[b..]
  }

  /** The block with its first k tables, which are in order, disjoint and inside the block, filtered. */
  function Delta(x: seq<byte>, ts: seq<Spec>, k: nat): (r: seq<byte>)
    requires Sane(ts) && k <= |ts| && End(ts, k) <= |x|
    ensures |r| == |x|
    decreases k
  {
    if k == 0 then x
    else
      var t := ts[k - 1];
      var a := End(ts, k - 1) + t.skip;
      var b := a + Length(t);
      Spliced(Delta(x, ts, k - 1), x, a, b, t)
  }

  /** The last of the first k tables, t, stands between a and b. */
  lemma DeltaLast(x: seq<byte>, ts: seq<Spec>, k: nat, t: Spec, a: nat, b: nat)
    requires Sane(ts) && 0 < k <= |ts| && End(ts, k) <= |x|
    requires t == ts[k - 1] && a == End(ts, k - 1) + t.skip && b == a + Length(t)
    ensures b == End(ts, k) && End(ts, k - 1) <= a && 1 <= |t.mask| && Rows(|t.mask|, b - a)
    ensures Delta(x, ts, k) == Delta(x, ts, k - 1)[..a] + Filtered(x[a..b], t.mask) + x[b..]
  {
    hide Delta, Spliced, Filtered, Length, Rows, End;
    EndNext(ts, k);
    LengthRows(t);
    DeltaIs(x, ts, k);
    hide Sane;
    SplicedIs(Delta(x, ts, k - 1), x, a, b, t);
  }

  lemma EndNext(ts: seq<Spec>, k: nat)
    requires 0 < k <= |ts|
    ensures End(ts, k) == End(ts, k - 1) + ts[k - 1].skip + Length(ts[k - 1])
  {
  }

  lemma DeltaIs(x: seq<byte>, ts: seq<Spec>, k: nat)
    requires Sane(ts) && 0 < k <= |ts| && End(ts, k) <= |x|
    ensures
      var t := ts[k - 1];
      var a := End(ts, k - 1) + t.skip;
      Delta(x, ts, k) == Spliced(Delta(x, ts, k - 1), x, a, a + Length(t), t)
  {
    hide Spliced, Length;
  }

  lemma SplicedIs(y: seq<byte>, x: seq<byte>, a: nat, b: nat, t: Spec)
    requires |y| == |x| && a <= b <= |x| && b - a == Length(t) && 1 <= |t.mask| && Rows(|t.mask|, b - a)
    ensures Spliced(y, x, a, b, t) == y[..a] + Filtered(x[a..b], t.mask) + x[b..]
  {
  }

  /** Behind its last table a block is unchanged. */
  lemma DeltaTail(x: seq<byte>, ts: seq<Spec>, k: nat)
    requires Sane(ts) && k <= |ts| && End(ts, k) <= |x|
    ensures Delta(x, ts, k)[End(ts, k)..] == x[End(ts, k)..]
  {
    if k > 0 {
      var t := ts[k - 1];
      var a := End(ts, k - 1) + t.skip;
      DeltaLast(x, ts, k, t, a, a + Length(t));
    }
  }

  lemma EndNone(ts: seq<Spec>)
    ensures End(ts, 0) == 0
  {
  }

  lemma {:induction false} EndMono(ts: seq<Spec>, i: nat, k: nat)
    requires i <= k <= |ts|
    ensures End(ts, i) <= End(ts, k)
  {
    if i < k {
      EndMono(ts, i, k - 1);
    }
  }

  /** The i-th table of the filtered block, and the gap before it. */
  lemma {:induction false} Region(x: seq<byte>, ts: seq<Spec>, k: nat, i: nat)
    requires Sane(ts) && i < k <= |ts| && End(ts, k) <= |x|
    ensures
      var g := End(ts, i);
      var a := g + ts[i].skip;
      var b := a + Length(ts[i]);
      && b <= |x| && 1 <= |ts[i].mask| && Rows(|ts[i].mask|, b - a)
      && Delta(x, ts, k)[g..a] == x[g..a] && Delta(x, ts, k)[a..b] == Filtered(x[a..b], ts[i].mask)
    decreases k
  {
    hide Filtered, Length, Delta, Rows;
    if i < k - 1 {
      EndMono(ts, k - 1, k);
      Region(x, ts, k - 1, i);
      EndMono(ts, i + 1, k - 1);
      RegionKept(x, ts, k, i);
    } else {
      RegionLast(x, ts, i);
    }
  }

  /** The last table. */
  lemma RegionLast(x: seq<byte>, ts: seq<Spec>, i: nat)
    requires Sane(ts) && i < |ts| && End(ts, i + 1) <= |x|
    ensures
      var g := End(ts, i);
      var a := g + ts[i].skip;
      var b := a + Length(ts[i]);
      && b <= |x| && 1 <= |ts[i].mask| && Rows(|ts[i].mask|, b - a)
      && Delta(x, ts, i + 1)[g..a] == x[g..a] && Delta(x, ts, i + 1)[a..b] == Filtered(x[a..b], ts[i].mask)
  {
    hide Filtered, Length, Delta, Rows;
    var g := End(ts, i);
    var a := g + ts[i].skip;
    var b := a + Length(ts[i]);
    DeltaLast(x, ts, i + 1, ts[i], a, b);
    DeltaTail(x, ts, i);
    hide End, Sane;
    var y, mid := Delta(x, ts, i), Filtered(x[a..b], ts[i].mask);
    InFront(y, mid, x[b..], a, g, a);
    DropSlice(y, x, g, a);
    Middle(y[..a], mid, x[b..]);
  }

  /** A table and the gap before it are not touched by the next one. */
  lemma RegionKept(x: seq<byte>, ts: seq<Spec>, k: nat, i: nat)
    requires Sane(ts) && i < k - 1 < k <= |ts| && End(ts, i + 1) <= End(ts, k - 1) <= End(ts, k) <= |x|
    ensures
      var g := End(ts, i);
      var a := g + ts[i].skip;
      var b := a + Length(ts[i]);
      && b <= |x|
      && Delta(x, ts, k)[g..a] == Delta(x, ts, k - 1)[g..a] && Delta(x, ts, k)[a..b] == Delta(x, ts, k - 1)[a..b]
  {
    hide Filtered, Length, Delta, Rows;
    var g := End(ts, i);
    var a := g + ts[i].skip;
    var b := a + Length(ts[i]);
    EndNext(ts, i + 1);
    var c := End(ts, k - 1) + ts[k - 1].skip;
    var e := c + Length(ts[k - 1]);
    DeltaLast(x, ts, k, ts[k - 1], c, e);
    hide End, Sane;
    var y, mid := Delta(x, ts, k - 1), Filtered(x[c..e], ts[k - 1].mask);
    InFront(y, mid, x[e..], c, g, a);
    InFront(y, mid, x[e..], c, a, b);
  }

  lemma InFront(y: seq<byte>, mid: seq<byte>, z: seq<byte>, c: nat, i: nat, j: nat)
    requires i <= j <= c <= |y|
    ensures (y[..c] + mid + z)[i..j] == y[i..j]
  {
  }

  lemma Middle(y: seq<byte>, mid: seq<byte>, z: seq<byte>)
    ensures (y + mid + z)[|y|..|y| + |mid|] == mid
  {
  }

  lemma DropSlice(y: seq<byte>, x: seq<byte>, g: nat, a: nat)
    requires g <= a <= |x| == |y| && y[g..] == x[g..]
    ensures y[g..a] == x[g..a]
  {
    assert y[g..a] == y[g..][..a - g] && x[g..a] == x[g..][..a - g];
  }

  // ------------------------------------------------------------------ blocks

  method CopyInto(a: array<byte>, lo: nat, t: seq<byte>, ghost p: seq<byte>, ghost s: seq<byte>, ghost q: seq<byte>)
    requires a[..] == Framed(p, s, q) && lo == |p| && |t| == |s|
    modifies a
    ensures a[..] == Framed(p, t, q)
  {
    for i := 0 to |t|
      invariant a[..] == p + t[..i] + s[i..] + q
    {
      a[lo + i] := t[i];
    }
    assert a[..] == p + t + [] + q;
  }

  /** The table s between p and q, subtracted and reordered. */
  method FilterTable(a: array<byte>, lo: nat, hi: nat, mask: seq<bool>, ghost p: seq<byte>, ghost s: seq<byte>, ghost q: seq<byte>)
    requires a[..] == Framed(p, s, q) && lo == |p| && hi == lo + |s| && 1 <= |mask| && Rows(|mask|, |s|)
    modifies a
    ensures a[..] == Framed(p, Filtered(s, mask), q)
  {
    hide Framed, Diff, Reordered, Rows;
    DiffTable(a, lo, hi, mask, p, s, q);
    ghost var d := Diff(|mask|, s, mask);
    FramedSlice(p, d, q, 0, |d|);
    assert d[0..|d|] == d;
    PickSize(d, mask);
    assert Filtered(s, mask) == Reordered(d, mask);
    var out := ReorderTable(a[lo..hi], mask);
    CopyInto(a, lo, out, p, d, q);
  }

  method UnfilterTable(a: array<byte>, lo: nat, hi: nat, rows: nat, mask: seq<bool>, ghost p: seq<byte>, ghost s: seq<byte>, ghost q: seq<byte>)
    requires 1 <= |mask| && Rows(|mask|, |s|) && |s| == |mask| * rows && lo == |p| && hi == lo + |s|
    requires a[..] == Framed(p, Filtered(s, mask), q)
    modifies a
    ensures a[..] == Framed(p, s, q)
  {
    hide Framed, Diff, Reordered, Rows;
    ghost var d := Diff(|mask|, s, mask);
    ghost var f := Filtered(s, mask);
    FramedSlice(p, f, q, 0, |f|);
    assert f[0..|f|] == f == Reordered(d, mask);
    var out := UnreorderTable(a[lo..hi], rows, mask, d);
    CopyInto(a, lo, out, p, f, q);
    UndiffTable(a, lo, hi, mask, p, s, q);
  }

  /** The state between two tables: what is filtered and what is recorded. */
  ghost predicate Compressed(now: seq<byte>, x: seq<byte>, ts: seq<Spec>, rs: seq<Record>, last: nat) {
    && Sane(ts) && End(ts, |ts|) == last <= |x| && now == Delta(x, ts, |ts|)
    && |rs| == |ts| && forall i :: 0 <= i < |ts| ==> rs[i] == Recorded(ts[i])
  }

  /** More tables behind the first k do not change what those make. */
  lemma {:induction false} PrefixSame(x: seq<byte>, ts: seq<Spec>, us: seq<Spec>, k: nat)
    requires Sane(ts) && Sane(us) && ts <= us && k <= |ts| && End(ts, k) <= |x|
    ensures End(us, k) == End(ts, k) && Delta(x, us, k) == Delta(x, ts, k)
  {
    hide Length, Filtered, Delta, Spliced, End, Sane;
    if k > 0 {
      assert us[k - 1] == ts[k - 1];
      EndMono(ts, k - 1, k);
      PrefixSame(x, ts, us, k - 1);
      EndNext(ts, k);
      EndNext(us, k);
      DeltaIs(x, ts, k);
      DeltaIs(x, us, k);
    } else {
      EndNone(ts);
      EndNone(us);
      DeltaNone(x, ts);
      DeltaNone(x, us);
    }
  }

  lemma DeltaNone(x: seq<byte>, ts: seq<Spec>)
    requires Sane(ts)
    ensures End(ts, 0) <= |x| && Delta(x, ts, 0) == x
  {
  }

  lemma CompressedMore(now: seq<byte>, x: seq<byte>, ts: seq<Spec>, rs: seq<Record>, last: nat, t: Spec)
    requires Compressed(now, x, ts, rs, last) && 1 <= |t.mask| <= MAX_ELEMENT_SIZE
    requires last + t.skip + Length(t) <= |x| && Rows(|t.mask|, Length(t))
    ensures
      var a := last + t.skip;
      var b := a + Length(t);
      && now == Framed(now[..a], x[a..b], x[b..])
      && Compressed(Framed(now[..a], Filtered(x[a..b], t.mask), x[b..]), x, ts + [t], rs + [Recorded(t)], b)
  {
    hide Filtered, Length, Delta;
    var a := last + t.skip;
    var b := a + Length(t);
    var us := ts + [t];
    PrefixSame(x, ts, ts + [t], |ts|);
    DeltaLast(x, us, |ts| + 1, t, a, b);
    DeltaTail(x, ts, |ts|);
    hide End, Recorded;
    TailFramed(now, x, last, a, b);
  }

  lemma TailFramed(now: seq<byte>, x: seq<byte>, last: nat, a: nat, b: nat)
    requires last <= a <= b <= |x| == |now| && now[last..] == x[last..]
    ensures now == Framed(now[..a], x[a..b], x[b..])
  {
    assert now[a..] == now[last..][a - last..] == x[last..][a - last..] == x[a..];
    assert x[a..] == x[a..b] + x[b..];
    assert now == now[..a] + now[a..];
  }

  datatype Option<T> = Some(value: T) | None

  /** The table that is taken at p with rows of n bytes, if one is; it begins no earlier than the last one ends. */
  function TableAt(y: seq<byte>, n: nat, p: nat, last: nat): (r: Option<Spec>)
    requires 1 <= n <= MAX_ELEMENT_SIZE && last <= p && p + 3 * n + 2 <= |y|
    ensures r.Some? ==> |r.value.mask| == n && last + r.value.skip + Length(r.value) <= |y|
  {
    hide Boundary, FastCheck, Worthwhile, Mask;
    if !FastCheck(y, n, p) then None
    else
      SearchedPlaces(y, n, p, last);
      var start := Boundary(y, -(n as int), p, last).place;
      var stop := Boundary(y, n, start, last);
      if Worthwhile((stop.place - start) / n, stop.useless, start - last, n) then
        Some(Between(y, n, last, start, stop.place))
      else None
  }

  lemma TableDecided(y: seq<byte>, n: nat, p: nat, last: nat)
    requires 1 <= n <= MAX_ELEMENT_SIZE && last <= p && p + 3 * n + 2 <= |y|
    ensures last <= Boundary(y, -(n as int), p, last).place <= p
    ensures
      var start := Boundary(y, -(n as int), p, last).place;
      var stop := Boundary(y, n, start, last);
      && start <= stop.place <= |y| && n * ((stop.place - start) / n) == stop.place - start
      && TableAt(y, n, p, last)
         == if FastCheck(y, n, p) && Worthwhile((stop.place - start) / n, stop.useless, start - last, n)
            then Some(Between(y, n, last, start, stop.place)) else None
  {
    hide Boundary, FastCheck, Worthwhile, Between;
    SearchedPlaces(y, n, p, last);
  }

  /** The table between start and stop. */
  function Between(y: seq<byte>, n: nat, last: nat, start: nat, stop: nat): (t: Spec)
    requires 1 <= n && last <= start <= stop <= |y| && n * ((stop - start) / n) == stop - start
    ensures |t.mask| == n && last + t.skip == start && Length(t) == stop - start
  {
    var rows: nat := (stop - start) / n;
    Spec(start - last, Mask(y[start..stop], n, rows), rows)
  }

  lemma SearchedPlaces(y: seq<byte>, n: nat, p: nat, last: nat)
    requires 1 <= n && last <= p && p + 3 * n + 2 <= |y|
    ensures last <= Boundary(y, -(n as int), p, last).place <= p
    ensures
      var start := Boundary(y, -(n as int), p, last).place;
      var stop := Boundary(y, n, start, last).place;
      && start <= stop <= |y| && n * ((stop - start) / n) == stop - start
  {
    hide Boundary;
    BoundaryPlace(y, -(n as int), p, last);
    var start := Boundary(y, -(n as int), p, last).place;
    BoundaryPlace(y, n, start, last);
    var stop := Boundary(y, n, start, last).place;
    var k: nat :| stop == Place(start, n, k);
    StepsAre(start, n, stop, k);
  }

  /** slow_check_for_data_table behind its quick check: looks for a table at p with rows of n bytes, and filters and records it. */
  method TryTable(a: array<byte>, n: nat, p: nat, last: nat, rs: seq<Record>, ghost x: seq<byte>, ghost ts0: seq<Spec>)
    returns (found: bool, end: nat, records: seq<Record>, ghost ts: seq<Spec>)
    requires Compressed(a[..], x, ts0, rs, last) && 1 <= n <= MAX_ELEMENT_SIZE && last <= p && n <= p && p + 3 * n + 2 <= a.Length
    modifies a
    ensures Compressed(a[..], x, ts, records, end) && last <= end <= a.Length
    ensures found == TableAt(old(a[..]), n, p, last).Some?
    ensures found ==>
      var t := TableAt(old(a[..]), n, p, last).value;
      ts == ts0 + [t] && records == rs + [Recorded(t)] && end == last + t.skip + Length(t)
    ensures !found ==> a[..] == old(a[..]) && ts == ts0 && records == rs && end == last
  {
    hide Compressed, Delta, Filtered, Framed, Rows, Boundary, FastCheck, Worthwhile, Mask, TableAt, End;
    found, end, records, ts := false, last, rs, ts0;
    BlockSize(a[..], x, ts0, rs, last);
    TableDecided(a[..], n, p, last);
    if !FastCheck(a[..], n, p) {
      return;
    }
    var start, useless := SearchForTableBoundary(a[..], -(n as int), p, last, a.Length);
    var stop;
    stop, useless := SearchForTableBoundary(a[..], n, start, last, a.Length);
    var rows: nat := (stop - start) / n;
    if Worthwhile(rows, useless, start - last, n) {
      var mask := AnalyzeTable(a[start..stop], n, rows);
      ghost var t := Spec(start - last, mask, rows);
      LengthRows(t);
      CompressedMore(a[..], x, ts0, rs, last, t);
      ghost var now := a[..];
      FilterTable(a, start, stop, mask, now[..start], x[start..stop], x[stop..]);
      var type_ := EncodeType(mask);
      records := rs + [Record(start - last, type_, rows)];
      ts := ts0 + [t];
      found, end := true, stop;
    }
  }

  lemma StepsAre(start: int, n: nat, stop: int, steps: nat)
    requires 1 <= n && stop == Place(start, n, steps)
    ensures (stop - start) / n == steps && n * steps == stop - start
  {
    DivMultiple(n, steps);
  }

  lemma BlockSize(now: seq<byte>, x: seq<byte>, ts: seq<Spec>, rs: seq<Record>, last: nat)
    requires Compressed(now, x, ts, rs, last)
    ensures |now| == |x|
  {
  }

  lemma CompressedIs(now: seq<byte>, x: seq<byte>, ts: seq<Spec>, rs: seq<Record>, last: nat)
    requires Compressed(now, x, ts, rs, last)
    ensures Sane(ts) && End(ts, |ts|) == last <= |x| && now == Delta(x, ts, |ts|)
    ensures |rs| == |ts| && forall i :: 0 <= i < |ts| ==> rs[i] == Recorded(ts[i])
  {
  }

  // ------------------------------------------------------------------ which tables are taken

  /** The first table taken with rows of n bytes that start at the j-th byte from ptr on or later in the same row. */
  function TableInRow(y: seq<byte>, ptr: nat, n: nat, j: nat, last: nat): (r: Option<Spec>)
    requires 1 <= n <= MAX_ELEMENT_SIZE && last <= ptr && ptr + MAX_ELEMENT_SIZE * 4 < |y|
    ensures r.Some? ==> |r.value.mask| == n && last + r.value.skip + Length(r.value) <= |y|
    decreases n - j
  {
    if j >= n then None
    else if TableAt(y, n, ptr + j, last).Some? then TableAt(y, n, ptr + j, last)
    else TableInRow(y, ptr, n, j + 1, last)
  }

  /** The first table taken at ptr with rows of n bytes or more, of those that are tried. */
  function TableOf(y: seq<byte>, ptr: nat, n: nat, last: nat, widths: (nat, nat) -> bool): (r: Option<Spec>)
    requires 1 <= n && last <= ptr && ptr + MAX_ELEMENT_SIZE * 4 < |y|
    ensures r.Some? ==> 1 <= |r.value.mask| <= MAX_ELEMENT_SIZE && last + r.value.skip + Length(r.value) <= |y|
    decreases MAX_ELEMENT_SIZE + 1 - n
  {
    if n > MAX_ELEMENT_SIZE then None
    else if widths(ptr, n) && TableInRow(y, ptr, n, 0, last).Some? then TableInRow(y, ptr, n, 0, last)
    else TableOf(y, ptr, n + 1, last, widths)
  }

  function Next(ptr: nat, last: nat): (next: nat)
    ensures next >= ptr + LINE && next >= last
  {
    if last > ptr + LINE then last else ptr + LINE
  }

  lemma OneMoreTable(x: seq<byte>, ts: seq<Spec>, t: Spec)
    requires Sane(ts) && End(ts, |ts|) <= |x| && 1 <= |t.mask| <= MAX_ELEMENT_SIZE
    requires End(ts, |ts|) + t.skip + Length(t) <= |x|
    ensures Sane(ts + [t]) && End(ts + [t], |ts + [t]|) == End(ts, |ts|) + t.skip + Length(t)
  {
    hide Length;
    PrefixSame(x, ts, ts + [t], |ts|);
    EndNext(ts + [t], |ts| + 1);
  }

  /** All tables of the block x, when those of ts are taken and the search goes on at ptr. */
  function Tables(x: seq<byte>, ts: seq<Spec>, ptr: nat, widths: (nat, nat) -> bool): (all: seq<Spec>)
    requires Sane(ts) && End(ts, |ts|) <= |x| && End(ts, |ts|) <= ptr
    ensures Sane(all) && End(all, |all|) <= |x|
    decreases |x| - ptr
  {
    hide TableOf, Delta, Length, End, Sane, Next;
    if ptr + MAX_ELEMENT_SIZE * 4 >= |x| then ts
    else
      var last := End(ts, |ts|);
      var t := TableOf(Delta(x, ts, |ts|), ptr, 1, last, widths);
      if t.None? then Tables(x, ts, ptr + LINE, widths)
      else
        OneMoreTable(x, ts, t.value);
        Tables(x, ts + [t.value], Next(ptr, last + t.value.skip + Length(t.value)), widths)
  }

  lemma TablesStep(x: seq<byte>, ts: seq<Spec>, ptr: nat, widths: (nat, nat) -> bool)
    requires Sane(ts) && End(ts, |ts|) <= |x| && End(ts, |ts|) <= ptr && ptr + MAX_ELEMENT_SIZE * 4 < |x|
    ensures
      var last := End(ts, |ts|);
      match TableOf(Delta(x, ts, |ts|), ptr, 1, last, widths)
      case None => Tables(x, ts, ptr, widths) == Tables(x, ts, ptr + LINE, widths)
      case Some(t) =>
        var end := last + t.skip + Length(t);
        && Sane(ts + [t]) && End(ts + [t], |ts + [t]|) == end <= |x|
        && Tables(x, ts, ptr, widths) == Tables(x, ts + [t], Next(ptr, end), widths)
  {
    hide TableOf, Delta, Length, Sane;
    var last := End(ts, |ts|);
    var t := TableOf(Delta(x, ts, |ts|), ptr, 1, last, widths);
    if t.Some? {
      OneMoreTable(x, ts, t.value);
    }
  }

  lemma TablesEnd(x: seq<byte>, ts: seq<Spec>, ptr: nat, widths: (nat, nat) -> bool)
    requires Sane(ts) && End(ts, |ts|) <= |x| && End(ts, |ts|) <= ptr && ptr + MAX_ELEMENT_SIZE * 4 >= |x|
    ensures Tables(x, ts, ptr, widths) == ts
  {
  }

  /** What the search for a table leaves behind: nothing new, or one more table. */
  twostate predicate Tried(a: array<byte>, t: Option<Spec>, last: nat, end: nat, rs: seq<Record>, records: seq<Record>,
                           ts0: seq<Spec>, ts: seq<Spec>)
    reads a
  {
    match t
    case None => a[..] == old(a[..]) && ts == ts0 && records == rs && end == last
    case Some(t) => ts == ts0 + [t] && records == rs + [Recorded(t)] && end == last + t.skip + Length(t)
  }

  /** All rows of n bytes that start at one of n places. */
  method TryRows(a: array<byte>, ptr: nat, n: nat, last: nat, rs: seq<Record>, ghost x: seq<byte>, ghost ts0: seq<Spec>)
    returns (found: bool, end: nat, records: seq<Record>, ghost ts: seq<Spec>)
    requires Compressed(a[..], x, ts0, rs, last) && 1 <= n <= MAX_ELEMENT_SIZE && last <= ptr && n <= ptr
    requires ptr + MAX_ELEMENT_SIZE * 4 < a.Length
    modifies a
    ensures Compressed(a[..], x, ts, records, end) && last <= end <= a.Length
    ensures found == TableInRow(old(a[..]), ptr, n, 0, last).Some?
    ensures Tried(a, TableInRow(old(a[..]), ptr, n, 0, last), last, end, rs, records, ts0, ts)
  {
    hide Compressed, Delta, TableAt, Recorded, Length;
    found, end, records, ts := false, last, rs, ts0;
    ghost var y := a[..];
    var j := 0;
    while j < n && !found
      invariant 0 <= j <= n && last <= end <= a.Length && Compressed(a[..], x, ts, records, end)
      invariant !found ==> a[..] == y && ts == ts0 && records == rs && end == last
      invariant !found ==> TableInRow(y, ptr, n, 0, last) == TableInRow(y, ptr, n, j, last)
      invariant found ==> TableInRow(y, ptr, n, 0, last).Some? && Tried(a, TableInRow(y, ptr, n, 0, last), last, end, rs, records, ts0, ts)
    {
      found, end, records, ts := TryTable(a, n, ptr + j, last, rs, x, ts0);
      j := j + 1;
    }
  }

  /** All row sizes that are tried at ptr, until a table is taken. */
  method TryPlace(a: array<byte>, ptr: nat, last: nat, widths: (nat, nat) -> bool, rs: seq<Record>, ghost x: seq<byte>, ghost ts0: seq<Spec>)
    returns (found: bool, end: nat, records: seq<Record>, ghost ts: seq<Spec>)
    requires Compressed(a[..], x, ts0, rs, last) && last <= ptr && LINE <= ptr && ptr + MAX_ELEMENT_SIZE * 4 < a.Length
    modifies a
    ensures Compressed(a[..], x, ts, records, end) && last <= end <= a.Length
    ensures found == TableOf(old(a[..]), ptr, 1, last, widths).Some?
    ensures Tried(a, TableOf(old(a[..]), ptr, 1, last, widths), last, end, rs, records, ts0, ts)
  {
    hide Compressed, Delta, TableInRow, Recorded, Length;
    found, end, records, ts := false, last, rs, ts0;
    ghost var y := a[..];
    BlockSize(a[..], x, ts0, rs, last);
    var n := 1;
    while n <= MAX_ELEMENT_SIZE && !found
      invariant 1 <= n && last <= end <= a.Length && Compressed(a[..], x, ts, records, end)
      invariant !found ==> a[..] == y && ts == ts0 && records == rs && end == last
      invariant !found ==> TableOf(y, ptr, 1, last, widths) == TableOf(y, ptr, n, last, widths)
      invariant found ==> TableOf(y, ptr, 1, last, widths).Some? && Tried(a, TableOf(y, ptr, 1, last, widths), last, end, rs, records, ts0, ts)
      decreases MAX_ELEMENT_SIZE + 1 - n
    {
      if widths(ptr, n) {
        found, end, records, ts := TryRows(a, ptr, n, last, rs, x, ts0);
      }
      n := n + 1;
    }
  }

  lemma NothingYet(x: seq<byte>)
    ensures Compressed(x, x, [], [], 0) && Sane([]) && End([], 0) == 0
  {
  }

  /** One block: from place to place, all row sizes that are tried, until a table is taken. */
  method CompressBlock(a: array<byte>, widths: (nat, nat) -> bool) returns (records: seq<Record>, ghost ts: seq<Spec>)
    modifies a
    ensures ts == Tables(old(a[..]), [], LINE, widths)
    ensures Sane(ts) && End(ts, |ts|) <= a.Length && a[..] == Delta(old(a[..]), ts, |ts|)
    ensures |records| == |ts| && forall i :: 0 <= i < |ts| ==> records[i] == Recorded(ts[i])
  {
    hide Compressed, Delta, TableOf, Recorded, Length, Tables, End, Sane;
    ghost var x := a[..];
    records, ts := [], [];
    var last: nat := 0;
    NothingYet(x);
    ghost var all := Tables(x, ts, LINE, widths);
    var ptr := LINE;
    while ptr + MAX_ELEMENT_SIZE * 4 < a.Length
      invariant LINE <= ptr && last <= ptr && last <= a.Length && Compressed(a[..], x, ts, records, last)
      invariant Sane(ts) && End(ts, |ts|) == last <= |x| && Tables(x, ts, ptr, widths) == all
      decreases a.Length - ptr
    {
      CompressedIs(a[..], x, ts, records, last);
      TablesStep(x, ts, ptr, widths);
      var found;
      found, last, records, ts := TryPlace(a, ptr, last, widths, records, x, ts);
      CompressedIs(a[..], x, ts, records, last);
      ptr := if found && last > ptr + LINE then last else ptr + LINE;
    }
    CompressedIs(a[..], x, ts, records, last);
    TablesEnd(x, ts, ptr, widths);
  }

  // ------------------------------------------------------------------ nothing is skipped

  /** A row size that is tried, and a place in the row where a table is taken. */
  predicate Taken(y: seq<byte>, ptr: nat, last: nat, widths: (nat, nat) -> bool, n: nat, j: nat)
    requires last <= ptr && ptr + MAX_ELEMENT_SIZE * 4 < |y|
  {
    1 <= n <= MAX_ELEMENT_SIZE && j < n && widths(ptr, n) && TableAt(y, n, ptr + j, last).Some?
  }

  lemma {:induction false} RowIsFirst(y: seq<byte>, ptr: nat, last: nat, widths: (nat, nat) -> bool, n: nat, j: nat, i: nat)
    requires last <= ptr && ptr + MAX_ELEMENT_SIZE * 4 < |y| && j <= i
    requires Taken(y, ptr, last, widths, n, i) && forall k :: j <= k < i ==> !Taken(y, ptr, last, widths, n, k)
    ensures TableInRow(y, ptr, n, j, last) == TableAt(y, n, ptr + i, last)
    decreases i - j
  {
    hide TableAt;
    if j < i {
      assert !Taken(y, ptr, last, widths, n, j);
      RowIsFirst(y, ptr, last, widths, n, j + 1, i);
    }
  }

  lemma {:induction false} RowHasNone(y: seq<byte>, ptr: nat, last: nat, widths: (nat, nat) -> bool, n: nat, j: nat)
    requires 1 <= n <= MAX_ELEMENT_SIZE && last <= ptr && ptr + MAX_ELEMENT_SIZE * 4 < |y| && j <= n && widths(ptr, n)
    requires forall k :: j <= k < n ==> !Taken(y, ptr, last, widths, n, k)
    ensures TableInRow(y, ptr, n, j, last).None?
    decreases n - j
  {
    hide TableAt;
    if j < n {
      assert !Taken(y, ptr, last, widths, n, j);
      RowHasNone(y, ptr, last, widths, n, j + 1);
    }
  }

  /** The table taken at ptr is that of the first row size, and of the first place in the row, where one is taken at all. */
  lemma {:induction false} PlaceIsFirst(y: seq<byte>, ptr: nat, m: nat, last: nat, widths: (nat, nat) -> bool, n: nat, j: nat)
    requires last <= ptr && ptr + MAX_ELEMENT_SIZE * 4 < |y| && 1 <= m <= n && Taken(y, ptr, last, widths, n, j)
    requires forall k, i :: m <= k < n ==> !Taken(y, ptr, last, widths, k, i)
    requires forall i :: 0 <= i < j ==> !Taken(y, ptr, last, widths, n, i)
    ensures TableOf(y, ptr, m, last, widths) == TableAt(y, n, ptr + j, last)
    decreases n - m
  {
    hide TableAt, TableInRow;
    if m < n {
      if widths(ptr, m) {
        RowHasNone(y, ptr, last, widths, m, 0);
      }
      PlaceIsFirst(y, ptr, m + 1, last, widths, n, j);
    } else {
      RowIsFirst(y, ptr, last, widths, n, 0, j);
    }
  }

  lemma {:induction false} RowTaken(y: seq<byte>, ptr: nat, n: nat, j: nat, last: nat) returns (i: nat)
    requires 1 <= n <= MAX_ELEMENT_SIZE && last <= ptr && ptr + MAX_ELEMENT_SIZE * 4 < |y|
    requires TableInRow(y, ptr, n, j, last).Some?
    ensures j <= i < n && TableInRow(y, ptr, n, j, last) == TableAt(y, n, ptr + i, last)
    decreases n - j
  {
    hide TableAt;
    i := j;
    if TableAt(y, n, ptr + j, last).None? {
      i := RowTaken(y, ptr, n, j + 1, last);
    }
  }

  /** A table is taken at ptr exactly if one is for some row size that is tried and some place in the row. */
  lemma {:induction false} PlaceTaken(y: seq<byte>, ptr: nat, m: nat, last: nat, widths: (nat, nat) -> bool)
    requires last <= ptr && ptr + MAX_ELEMENT_SIZE * 4 < |y| && 1 <= m
    ensures TableOf(y, ptr, m, last, widths).Some? ==>
      exists n, j :: m <= n && Taken(y, ptr, last, widths, n, j) && TableOf(y, ptr, m, last, widths) == TableAt(y, n, ptr + j, last)
    ensures TableOf(y, ptr, m, last, widths).None? ==> forall n, j :: m <= n ==> !Taken(y, ptr, last, widths, n, j)
    decreases MAX_ELEMENT_SIZE + 1 - m
  {
    hide TableAt, TableInRow;
    if m <= MAX_ELEMENT_SIZE {
      if widths(ptr, m) && TableInRow(y, ptr, m, 0, last).Some? {
        var j := RowTaken(y, ptr, m, 0, last);
        assert Taken(y, ptr, last, widths, m, j);
      } else {
        PlaceTaken(y, ptr, m + 1, last, widths);
        forall j | Taken(y, ptr, last, widths, m, j)
          ensures TableInRow(y, ptr, m, 0, last).Some?
        {
          RowNotEmpty(y, ptr, m, 0, last, j);
        }
      }
    }
  }

  lemma {:induction false} RowNotEmpty(y: seq<byte>, ptr: nat, n: nat, j: nat, last: nat, i: nat)
    requires 1 <= n <= MAX_ELEMENT_SIZE && last <= ptr && ptr + MAX_ELEMENT_SIZE * 4 < |y| && j <= i < n
    requires TableAt(y, n, ptr + i, last).Some?
    ensures TableInRow(y, ptr, n, j, last).Some?
    decreases n - j
  {
    hide TableAt;
    if j < i && TableAt(y, n, ptr + j, last).None? {
      RowNotEmpty(y, ptr, n, j + 1, last, i);
    }
  }

  /** A place that was looked at, and how many tables had been taken before. */
  datatype Visit = Visit(ptr: nat, tables: nat)

  /** The places looked at from ptr on. */
  function Visits(x: seq<byte>, ts: seq<Spec>, ptr: nat, widths: (nat, nat) -> bool): seq<Visit>
    requires Sane(ts) && End(ts, |ts|) <= |x| && End(ts, |ts|) <= ptr
    decreases |x| - ptr
  {
    hide TableOf, Delta, Length, End, Sane, Next;
    if ptr + MAX_ELEMENT_SIZE * 4 >= |x| then []
    else
      var last := End(ts, |ts|);
      var t := TableOf(Delta(x, ts, |ts|), ptr, 1, last, widths);
      [Visit(ptr, |ts|)]
      + if t.None? then Visits(x, ts, ptr + LINE, widths)
        else
          OneMoreTable(x, ts, t.value);
          Visits(x, ts + [t.value], Next(ptr, last + t.value.skip + Length(t.value)), widths)
  }

  lemma VisitsStep(x: seq<byte>, ts: seq<Spec>, ptr: nat, widths: (nat, nat) -> bool) returns (us: seq<Spec>, next: nat)
    requires Sane(ts) && End(ts, |ts|) <= |x| && End(ts, |ts|) <= ptr && ptr + MAX_ELEMENT_SIZE * 4 < |x|
    ensures ptr < next && Sane(us) && End(us, |us|) <= |x| && End(us, |us|) <= next
    ensures next == if us == ts then ptr + LINE else Next(ptr, End(us, |us|))
    ensures
      match TableOf(Delta(x, ts, |ts|), ptr, 1, End(ts, |ts|), widths)
      case None => us == ts
      case Some(t) => us == ts + [t]
    ensures Tables(x, ts, ptr, widths) == Tables(x, us, next, widths)
    ensures Visits(x, ts, ptr, widths) == [Visit(ptr, |ts|)] + Visits(x, us, next, widths)
  {
    hide TableOf, Delta, Length, Sane;
    TablesStep(x, ts, ptr, widths);
    var last := End(ts, |ts|);
    var t := TableOf(Delta(x, ts, |ts|), ptr, 1, last, widths);
    us := if t.None? then ts else ts + [t.value];
    next := if t.None? then ptr + LINE else Next(ptr, last + t.value.skip + Length(t.value));
  }

  lemma {:induction false} TablesExtend(x: seq<byte>, ts: seq<Spec>, ptr: nat, widths: (nat, nat) -> bool)
    requires Sane(ts) && End(ts, |ts|) <= |x| && End(ts, |ts|) <= ptr
    ensures ts <= Tables(x, ts, ptr, widths)
    decreases |x| - ptr
  {
    hide TableOf, Delta, Tables, Sane, End;
    if ptr + MAX_ELEMENT_SIZE * 4 < |x| {
      var us, next := VisitsStep(x, ts, ptr, widths);
      TablesExtend(x, us, next, widths);
    } else {
      TablesEnd(x, ts, ptr, widths);
    }
  }

  /** What becomes of the i-th visit. */
  ghost predicate VisitOk(x: seq<byte>, all: seq<Spec>, vs: seq<Visit>, i: nat, widths: (nat, nat) -> bool)
    requires Sane(all) && End(all, |all|) <= |x| && i < |vs|
  {
    var v := vs[i];
    var after := if i + 1 < |vs| then vs[i + 1].tables else |all|;
    && v.tables <= after <= |all| && End(all, v.tables) <= v.ptr && v.ptr + MAX_ELEMENT_SIZE * 4 < |x|
    && TableOf(Delta(x, all, v.tables), v.ptr, 1, End(all, v.tables), widths)
       == (if after == v.tables then None else Some(all[v.tables]))
    && after <= v.tables + 1
    && (if i + 1 < |vs| then vs[i + 1].ptr == NextPlace(v, all, after)
        else NextPlace(v, all, after) + MAX_ELEMENT_SIZE * 4 >= |x|)
  }

  /** The next line, or the end of the table that was taken if that is further on. */
  ghost function NextPlace(v: Visit, all: seq<Spec>, after: nat): nat
    requires after <= |all|
  {
    if after == v.tables then v.ptr + LINE else Next(v.ptr, End(all, after))
  }

  lemma FirstVisit(x: seq<byte>, ts: seq<Spec>, ptr: nat, widths: (nat, nat) -> bool)
    requires Sane(ts) && End(ts, |ts|) <= |x| && End(ts, |ts|) <= ptr
    ensures
      var vs := Visits(x, ts, ptr, widths);
      if ptr + MAX_ELEMENT_SIZE * 4 < |x| then |vs| > 0 && vs[0] == Visit(ptr, |ts|) else vs == []
  {
    hide TableOf, Delta;
  }

  /** Every place is visited in its turn; what is taken there is the next table, and nothing is taken that is not recorded. */
  lemma {:induction false} AllVisits(x: seq<byte>, ts: seq<Spec>, ptr: nat, widths: (nat, nat) -> bool, i: nat)
    requires Sane(ts) && End(ts, |ts|) <= |x| && End(ts, |ts|) <= ptr && i < |Visits(x, ts, ptr, widths)|
    ensures VisitOk(x, Tables(x, ts, ptr, widths), Visits(x, ts, ptr, widths), i, widths)
    decreases i
  {
    hide TableOf, Delta, Tables, Visits, Sane, End;
    FirstVisit(x, ts, ptr, widths);
    var us, next := VisitsStep(x, ts, ptr, widths);
    var all, vs, more := Tables(x, ts, ptr, widths), Visits(x, ts, ptr, widths), Visits(x, us, next, widths);
    assert vs[1..] == more;
    TablesExtend(x, us, next, widths);
    if i > 0 {
      AllVisits(x, us, next, widths, i - 1);
      assert vs[i] == more[i - 1];
    } else {
      EndMono(us, |ts|, |us|);
      PrefixSame(x, ts, all, |ts|);
      PrefixSame(x, us, all, |us|);
      FirstVisit(x, us, next, widths);
      if next + MAX_ELEMENT_SIZE * 4 >= |x| {
        TablesEnd(x, us, next, widths);
      }
    }
  }

  /** Undoes the i-th table, which begins `skip` bytes behind p. */
  method UndoTable(a: array<byte>, p: nat, r: Record, ghost x: seq<byte>, ghost ts: seq<Spec>, ghost i: nat) returns (hi: nat)
    requires Sane(ts) && i < |ts| && End(ts, |ts|) <= |x| && p == End(ts, i) <= |x| && r == Recorded(ts[i])
    requires a[..] == x[..p] + Delta(x, ts, |ts|)[p..]
    modifies a
    ensures hi == End(ts, i + 1) <= |x| && a[..] == x[..hi] + Delta(x, ts, |ts|)[hi..]
  {
    hide Delta, Filtered, Framed, Rows;
    var mask := DecodeType(r.type_, ts[i].mask);
    Region(x, ts, |ts|, i);
    var lo := p + r.skip;
    hi := lo + |mask| * r.rows;
    ghost var y := Delta(x, ts, |ts|);
    Around3(x, y, p, lo, hi, Filtered(x[lo..hi], mask));
    UnfilterTable(a, lo, hi, r.rows, mask, x[..lo], x[lo..hi], y[hi..]);
    FramedPrefix(x, lo, hi, y[hi..]);
  }

  lemma FramedPrefix(x: seq<byte>, lo: nat, hi: nat, q: seq<byte>)
    requires lo <= hi <= |x|
    ensures Framed(x[..lo], x[lo..hi], q) == x[..hi] + q
  {
  }

  /** Undoes the tables in the order they were recorded. */
  method DecompressBlock(a: array<byte>, records: seq<Record>, ghost x: seq<byte>, ghost ts: seq<Spec>)
    requires Sane(ts) && End(ts, |ts|) <= |x| && a[..] == Delta(x, ts, |ts|)
    requires |records| == |ts| && forall i :: 0 <= i < |ts| ==> records[i] == Recorded(ts[i])
    modifies a
    ensures a[..] == x
  {
    hide Delta, End;
    EndNone(ts);
    var p: nat := 0;
    ghost var y := a[..];
    assert x[..0] + y[0..] == y;
    for i := 0 to |records|
      invariant p == End(ts, i) <= |x| && a[..] == x[..p] + y[p..]
    {
      p := UndoTable(a, p, records[i], x, ts, i);
    }
    DeltaTail(x, ts, |ts|);
    assert x == x[..p] + x[p..];
  }

  lemma Around3(x: seq<byte>, y: seq<byte>, p: nat, lo: nat, hi: nat, f: seq<byte>)
    requires p <= lo <= hi <= |x| == |y| && y[p..lo] == x[p..lo] && y[lo..hi] == f
    ensures x[..p] + y[p..] == Framed(x[..lo], f, y[hi..])
  {
    assert y[p..] == y[p..lo] + y[lo..hi] + y[hi..];
    assert x[..lo] == x[..p] + x[p..lo];
  }
}
