/**
  Delta.cpp: one data table in the middle of a block.  Rows of N bytes are subtracted from each other with a
  carry between neighbouring columns; then the columns that hardly change are moved to the front.
 */
module DeltaTable {
  import opened Bytes

  // ------------------------------------------------------------------ the type word

  /** The width as the highest bit, the mask of immutable columns below. */
  function TypeOf(immutable: seq<bool>): (t: nat)
    ensures 1 <= t
  {
    if immutable == [] then 1 else (if immutable[0] then 1 else 0) + 2 * TypeOf(immutable[1..])
  }

  function MaskValue(immutable: seq<bool>, i: nat): nat
    requires i <= |immutable|
  {
    if i == 0 then 0 else MaskValue(immutable, i - 1) + if immutable[i - 1] then Pow2(i - 1) else 0
  }

  lemma {:induction false} MaskValueHead(m: seq<bool>, i: nat)
    requires 1 <= i <= |m|
    ensures MaskValue(m, i) == (if m[0] then 1 else 0) + 2 * MaskValue(m[1..], i - 1)
  {
    if i > 1 {
      MaskValueHead(m, i - 1);
    }
  }

  lemma {:induction false} TypeIsMask(m: seq<bool>)
    ensures TypeOf(m) == Pow2(|m|) + MaskValue(m, |m|)
  {
    if m != [] {
      TypeIsMask(m[1..]);
      MaskValueHead(m, |m|);
    }
  }

  method EncodeType(immutable: seq<bool>) returns (type_: nat)
    ensures type_ == TypeOf(immutable)
  {
    var n := |immutable|;
    var bit := 1;
    for i := 0 to n
      invariant bit == Pow2(i)
    {
      bit := 2 * bit;
    }
    type_ := bit;
    bit := 1;
    for i := 0 to n
      invariant bit == Pow2(i) && type_ == Pow2(n) + MaskValue(immutable, i)
    {
      type_ := type_ + if immutable[i] then bit else 0;
      bit := 2 * bit;
    }
    TypeIsMask(immutable);
  }

  lemma TypeHead(m: seq<bool>)
    ensures TypeOf(m) > 1 <==> m != []
    ensures m != [] ==> (TypeOf(m) % 2 == 1 <==> m[0]) && TypeOf(m) / 2 == TypeOf(m[1..])
  {
  }

  /** Reads the mask back; its length is the width. */
  method DecodeType(type0: nat, ghost m: seq<bool>) returns (immutable: seq<bool>)
    requires type0 == TypeOf(m)
    ensures immutable == m
  {
    hide TypeOf;
    var t := type0;
    immutable := [];
    ghost var rest := m;
    TypeHead(m);
    while t > 1
      invariant m == immutable + rest && t == TypeOf(rest) && (t > 1 <==> rest != [])
      decreases t
    {
      TypeHead(rest);
      TypeHead(rest[1..]);
      immutable := immutable + [t % 2 == 1];
      t := t / 2;
      rest := rest[1..];
    }
  }

  // ------------------------------------------------------------------ rows subtracted from each other

  /** One byte less the byte above and the carry. */
  function Sub(b: byte, above: byte, carry: nat): byte
    requires carry <= 1
  {
    if b < above + carry then b + 256 - above - carry else b - above - carry
  }

  function Borrow(b: byte, above: byte, carry: nat): (c: nat)
    requires carry <= 1
    ensures c <= 1
  {
    if b < above + carry then 1 else 0
  }

  /** A row less the row above; the carry goes on only between columns that are subtracted. */
  function DiffRow(above: seq<byte>, row: seq<byte>, immutable: seq<bool>, carry: nat): (r: seq<byte>)
    requires |above| == |row| == |immutable| && carry <= 1
    ensures |r| == |row|
  {
    if row == [] then []
    else if immutable[0] then [row[0]] + DiffRow(above[1..], row[1..], immutable[1..], 0)
    else
      [Sub(row[0], above[0], carry)]
      + DiffRow(above[1..], row[1..], immutable[1..], Borrow(row[0], above[0], carry))
  }

  /** The table with every row but the first less the row above. */
  function Diff(n: nat, s: seq<byte>, immutable: seq<bool>): (r: seq<byte>)
    requires |immutable| == n >= 1
    ensures |r| == |s|
  {
    if |s| < 2 * n then s
    else
      var k := |s| - n;
      Diff(n, s[..k], immutable) + DiffRow(s[k - n..k], s[k..], immutable, 0)
  }

  lemma DiffLast(n: nat, s: seq<byte>, immutable: seq<bool>)
    requires |immutable| == n >= 1 && 2 * n <= |s|
    ensures
      var m := |s| - n;
      Diff(n, s, immutable) == Diff(n, s[..m], immutable) + DiffRow(s[m - n..m], s[m..], immutable, 0)
  {
  }

  /** k is a whole number of rows. */
  ghost predicate Rows(n: nat, k: nat)
    decreases k
  {
    k == 0 || (n >= 1 && k >= n && Rows(n, k - n))
  }

  lemma {:induction false} RowsGap(n: nat, k: nat, m: nat)
    requires n >= 1 && Rows(n, k) && Rows(n, m) && k + n < m
    ensures k + 2 * n <= m && Rows(n, m - n)
  {
    if k > 0 {
      RowsGap(n, k - n, m - n);
    } else if n < m {
      assert Rows(n, m - n);
      assert m - n == 0 || m - n >= n;
    }
  }

  lemma {:induction false} DiffFirst(n: nat, s: seq<byte>, immutable: seq<bool>)
    requires |immutable| == n >= 1 && n <= |s|
    ensures Diff(n, s, immutable)[..n] == s[..n]
    decreases |s|
  {
    if |s| >= 2 * n {
      var k := |s| - n;
      DiffFirst(n, s[..k], immutable);
      assert s[..k][..n] == s[..n];
      assert Diff(n, s, immutable)[..n] == Diff(n, s[..k], immutable)[..n];
    }
  }

  lemma SubBack(b: byte, above: byte, carry: nat)
    requires carry <= 1
    ensures
      var d: nat, u: nat := Sub(b, above, carry), above;
      var sum := d + u + carry;
      sum % 256 == b && sum / 256 == Borrow(b, above, carry)
  {
  }

  /** What a row method may change. */
  ghost predicate Around(now: seq<byte>, was: seq<byte>, lo: nat, hi: nat) {
    |now| == |was| && lo <= hi <= |was| && now[..lo] == was[..lo] && now[hi..] == was[hi..]
  }

  lemma RowStep(above: seq<byte>, row: seq<byte>, m: seq<bool>, i: nat, carry: nat)
    requires |above| == |row| == |m| && i < |m| && carry <= 1
    ensures
      DiffRow(above[i..], row[i..], m[i..], carry) ==
      [Out(above, row, m, i, carry)] + DiffRow(above[i + 1..], row[i + 1..], m[i + 1..], Next(above, row, m, i, carry))
  {
    assert above[i..][1..] == above[i + 1..] && row[i..][1..] == row[i + 1..] && m[i..][1..] == m[i + 1..];
  }

  /** Byte i of the difference, and the carry behind it. */
  function Out(above: seq<byte>, row: seq<byte>, m: seq<bool>, i: nat, carry: nat): byte
    requires |above| == |row| == |m| && i < |m| && carry <= 1
  {
    if m[i] then row[i] else Sub(row[i], above[i], carry)
  }

  function Next(above: seq<byte>, row: seq<byte>, m: seq<bool>, i: nat, carry: nat): (c: nat)
    requires |above| == |row| == |m| && i < |m| && carry <= 1
    ensures c <= 1
  {
    if m[i] then 0 else Borrow(row[i], above[i], carry)
  }

  /** The row at r is half subtracted: its first i bytes. */
  ghost predicate PartSubtracted(now: seq<byte>, was: seq<byte>, r: nat, m: seq<bool>, i: nat, carry: nat) {
    var n := |m|;
    && |now| == |was| && n <= r && r + n <= |was| && i <= n && carry <= 1
    && now[..r] == was[..r] && now[r + i..] == was[r + i..]
    && now[r..r + i] + DiffRow(was[r - n..r][i..], was[r..r + n][i..], m[i..], carry)
       == DiffRow(was[r - n..r], was[r..r + n], m, 0)
  }

  lemma SubtractStep(now: seq<byte>, was: seq<byte>, r: nat, m: seq<bool>, i: nat, carry: nat)
    requires PartSubtracted(now, was, r, m, i, carry) && i < |m|
    ensures
      var n := |m|;
      var above, row := was[r - n..r], was[r..r + n];
      && now[r + i] == row[i] && now[r + i - n] == above[i]
      && PartSubtracted(now[r + i := Out(above, row, m, i, carry)], was, r, m, i + 1, Next(above, row, m, i, carry))
  {
    hide DiffRow, Out, Next;
    var n := |m|;
    var above, row := was[r - n..r], was[r..r + n];
    var v := Out(above, row, m, i, carry);
    RowStep(above, row, m, i, carry);
    var next := now[r + i := v];
    assert now[r + i] == now[r + i..][0] && now[r + i - n] == now[..r][r + i - n];
    assert next[..r] == now[..r] && next[r + i + 1..] == now[r + i..][1..];
    assert next[r..r + i + 1] == now[r..r + i] + [v];
    var rest := DiffRow(above[i + 1..], row[i + 1..], m[i + 1..], Next(above, row, m, i, carry));
    assert (now[r..r + i] + [v]) + rest == now[r..r + i] + ([v] + rest);
  }

  method SubtractRow(a: array<byte>, r: nat, immutable: seq<bool>)
    requires |immutable| <= r && r + |immutable| <= a.Length
    modifies a
    ensures Around(a[..], old(a[..]), r, r + |immutable|)
    ensures a[r..r + |immutable|] ==
            DiffRow(old(a[r - |immutable|..r]), old(a[r..r + |immutable|]), immutable, 0)
  {
    var n := |immutable|;
    ghost var was := a[..];
    var carry := 0;
    assert PartSubtracted(a[..], was, r, immutable, 0, 0);
    hide PartSubtracted, DiffRow, Around;
    for i := 0 to n
      invariant 0 <= carry <= 1 && PartSubtracted(a[..], was, r, immutable, i, carry)
    {
      SubtractStep(a[..], was, r, immutable, i, carry);
      if !immutable[i] {
        var newcarry := Borrow(a[r + i], a[r + i - n], carry);
        a[r + i] := Sub(a[r + i], a[r + i - n], carry);
        carry := newcarry;
      } else {
        carry := 0;
      }
    }
    SubtractEnd(a[..], was, r, immutable, carry);
  }

  lemma SubtractEnd(now: seq<byte>, was: seq<byte>, r: nat, m: seq<bool>, carry: nat)
    requires PartSubtracted(now, was, r, m, |m|, carry)
    ensures Around(now, was, r, r + |m|) && now[r..r + |m|] == DiffRow(was[r - |m|..r], was[r..r + |m|], m, 0)
  {
    assert now[r..r + |m|] + [] == now[r..r + |m|];
  }

  /** The row at r is half added back: its first i bytes are those of `row`. */
  ghost predicate PartAdded(now: seq<byte>, was: seq<byte>, r: nat, m: seq<bool>, row: seq<byte>, i: nat, carry: nat) {
    var n := |m|;
    && |now| == |was| && |row| == n <= r && r + n <= |was| && i <= n && carry <= 1
    && now[..r] == was[..r] && now[r + n..] == was[r + n..] && now[r..r + i] == row[..i]
    && now[r + i..r + n] == DiffRow(was[r - n..r][i..], row[i..], m[i..], carry)
  }

  lemma AddStep(now: seq<byte>, was: seq<byte>, r: nat, m: seq<bool>, row: seq<byte>, i: nat, carry: nat)
    requires PartAdded(now, was, r, m, row, i, carry) && i < |m|
    ensures
      var n := |m|;
      var above := was[r - n..r];
      && now[r + i] == Out(above, row, m, i, carry) && now[r + i - n] == above[i]
      && PartAdded(now[r + i := row[i]], was, r, m, row, i + 1, Next(above, row, m, i, carry))
  {
    hide DiffRow, Out, Next;
    var n := |m|;
    var above := was[r - n..r];
    RowStep(above, row, m, i, carry);
    var next := now[r + i := row[i]];
    assert now[r + i] == now[r + i..r + n][0] && now[r + i - n] == now[..r][r + i - n];
    assert next[..r] == now[..r] && next[r + n..] == now[r + n..];
    assert next[r..r + i + 1] == now[r..r + i] + [row[i]] == row[..i + 1];
    assert next[r + i + 1..r + n] == now[r + i..r + n][1..];
  }

  method AddRow(a: array<byte>, r: nat, immutable: seq<bool>, ghost row: seq<byte>)
    requires |immutable| == |row| <= r && r + |immutable| <= a.Length
    requires a[r..r + |immutable|] == DiffRow(a[r - |immutable|..r], row, immutable, 0)
    modifies a
    ensures Around(a[..], old(a[..]), r, r + |immutable|)
    ensures a[r..r + |immutable|] == row
  {
    var n := |immutable|;
    ghost var was := a[..];
    var carry := 0;
    assert PartAdded(a[..], was, r, immutable, row, 0, 0);
    hide PartAdded, DiffRow, Around, Sub, Borrow;
    for i := 0 to n
      invariant 0 <= carry <= 1 && PartAdded(a[..], was, r, immutable, row, i, carry)
    {
      AddStep(a[..], was, r, immutable, row, i, carry);
      ghost var now, next := a[..], Next(was[r - n..r], row, immutable, i, carry);
      if !immutable[i] {
        SubBack(row[i], was[r - n..r][i], carry);
        var d: nat, u: nat := a[r + i], a[r + i - n];
        var sum := d + u + carry;
        a[r + i] := sum % 256;
        carry := sum / 256;
      } else {
        carry := 0;
      }
      assert a[..] == now[r + i := row[i]] && carry == next;
    }
    AddEnd(a[..], was, r, immutable, row, carry);
  }

  lemma AddEnd(now: seq<byte>, was: seq<byte>, r: nat, m: seq<bool>, row: seq<byte>, carry: nat)
    requires PartAdded(now, was, r, m, row, |m|, carry)
    ensures Around(now, was, r, r + |m|) && now[r..r + |m|] == row
  {
  }

  // ------------------------------------------------------------------ whole tables

  /** The first k bytes of s, then those of d. */
  function Half(s: seq<byte>, d: seq<byte>, k: nat): (t: seq<byte>)
    requires |s| == |d| && k <= |s|
    ensures |t| == |s|
  {
    s[..k] + d[k..]
  }

  lemma HalfSlice(s: seq<byte>, d: seq<byte>, k: nat, i: nat, j: nat)
    requires |s| == |d| && i <= j <= |s| && k <= |s|
    ensures j <= k ==> Half(s, d, k)[i..j] == s[i..j]
    ensures k <= i ==> Half(s, d, k)[i..j] == d[i..j]
  {
  }

  /** Moving the border by one row replaces that row. */
  lemma HalfRow(s: seq<byte>, d: seq<byte>, k: nat, n: nat)
    requires |s| == |d| && k + n <= |s|
    ensures
      var t, u := Half(s, d, k + n), Half(s, d, k);
      u == t[..k] + d[k..k + n] + t[k + n..] && t == u[..k] + s[k..k + n] + u[k + n..]
  {
    var t, u := Half(s, d, k + n), Half(s, d, k);
    assert t[..k] == s[..k] && t[k + n..] == d[k + n..];
    assert u[..k] == s[..k] && u[k + n..] == d[k + n..];
    assert d[k..] == d[k..k + n] + d[k + n..];
    assert s[..k + n] == s[..k] + s[k..k + n];
  }

  lemma HalfEnds(n: nat, s: seq<byte>, m: seq<bool>)
    requires |m| == n >= 1
    ensures
      var d := Diff(n, s, m);
      Half(s, d, |s|) == s && (n <= |s| ==> Half(s, d, n) == d) && (s == [] ==> d == s)
  {
    var d := Diff(n, s, m);
    if n <= |s| {
      DiffFirst(n, s, m);
      assert d == d[..n] + d[n..];
    }
  }

  lemma TakeSlice(s: seq<byte>, m: nat, i: nat, j: nat)
    requires i <= j <= m <= |s|
    ensures s[..m][i..j] == s[i..j]
  {
  }

  lemma FirstSlice(x: seq<byte>, y: seq<byte>, i: nat, j: nat)
    requires i <= j <= |x|
    ensures (x + y)[i..j] == x[i..j]
  {
  }

  /** The row of the difference at k. */
  lemma {:induction false} RowOf(n: nat, s: seq<byte>, m: seq<bool>, k: nat)
    requires |m| == n >= 1 && n <= k && k + n <= |s| && Rows(n, |s|) && Rows(n, k)
    ensures Diff(n, s, m)[k..k + n] == DiffRow(s[k - n..k], s[k..k + n], m, 0)
    decreases |s|
  {
    hide DiffRow, Diff, Rows;
    var j := |s| - n;
    var t, last := s[..j], DiffRow(s[j - n..j], s[j..], m, 0);
    DiffLast(n, s, m);
    if k == j {
      assert s[k..k + n] == s[k..];
      assert (Diff(n, t, m) + last)[k..k + n] == last;
    } else {
      RowsGap(n, k, |s|);
      RowOf(n, t, m, k);
      FirstSlice(Diff(n, t, m), last, k, k + n);
      TakeSlice(s, j, k - n, k);
      TakeSlice(s, j, k, k + n);
    }
  }

  /** A table t between p and q. */
  function Framed(p: seq<byte>, t: seq<byte>, q: seq<byte>): (a: seq<byte>)
    ensures |a| == |p| + |t| + |q|
  {
    p + t + q
  }

  lemma FramedSlice(p: seq<byte>, t: seq<byte>, q: seq<byte>, i: nat, j: nat)
    requires i <= j <= |t|
    ensures Framed(p, t, q)[|p| + i..|p| + j] == t[i..j]
  {
  }

  lemma FramedRow(p: seq<byte>, t: seq<byte>, q: seq<byte>, k: nat, row: seq<byte>)
    requires k + |row| <= |t|
    ensures
      var a := Framed(p, t, q);
      a[..|p| + k] + row + a[|p| + k + |row|..] == Framed(p, t[..k] + row + t[k + |row|..], q)
  {
    var a := Framed(p, t, q);
    assert a[..|p| + k] == p + t[..k];
    assert a[|p| + k + |row|..] == t[k + |row|..] + q;
  }

  lemma AroundIs(now: seq<byte>, was: seq<byte>, r: nat, row: seq<byte>)
    requires Around(now, was, r, r + |row|) && now[r..r + |row|] == row
    ensures now == was[..r] + row + was[r + |row|..]
  {
    assert now == now[..r] + now[r..r + |row|] + now[r + |row|..];
  }

  /** diff_table: from the last row up.  The table s stands between p and q. */
  method DiffTable(a: array<byte>, lo: nat, hi: nat, immutable: seq<bool>, ghost p: seq<byte>, ghost s: seq<byte>, ghost q: seq<byte>)
    requires a[..] == Framed(p, s, q) && lo == |p| && hi == lo + |s| && |immutable| >= 1 && Rows(|immutable|, |s|)
    modifies a
    ensures a[..] == Framed(p, Diff(|immutable|, s, immutable), q)
  {
    hide Diff, Rows, DiffRow, Around, Framed, Half;
    var n := |immutable|;
    ghost var d := Diff(n, s, immutable);
    HalfEnds(n, s, immutable);
    NoRows(n);
    if s != [] {
      RowsUp(n, 0, |s|);
    }
    var k: int := hi - lo;
    while k - n > 0
      invariant (n <= k || s == []) && 0 <= k <= |s| && Rows(n, k) && a[..] == Framed(p, Half(s, d, k), q)
    {
      RowsDown(n, k);
      k := k - n;
      SubtractAt(a, lo, k, immutable, p, s, q);
    }
    LastRow(n, k);
  }

  lemma RowsDown(n: nat, k: nat)
    requires n >= 1 && Rows(n, k) && k > n
    ensures n <= k - n && Rows(n, k - n)
  {
    assert Rows(n, k - n);
  }

  lemma LastRow(n: nat, k: nat)
    requires n >= 1 && Rows(n, k) && k <= n
    ensures k == 0 || k == n
  {
  }

  method SubtractAt(a: array<byte>, lo: nat, k: nat, m: seq<bool>, ghost p: seq<byte>, ghost s: seq<byte>, ghost q: seq<byte>)
    requires |m| >= 1 && |m| <= k && k + |m| <= |s| && Rows(|m|, |s|) && Rows(|m|, k) && lo == |p|
    requires a[..] == Framed(p, Half(s, Diff(|m|, s, m), k + |m|), q)
    modifies a
    ensures a[..] == Framed(p, Half(s, Diff(|m|, s, m), k), q)
  {
    hide Diff, Rows, DiffRow, Around, Framed, Half;
    var n := |m|;
    ghost var was, d := a[..], Diff(n, s, m);
    ghost var t := Half(s, d, k + n);
    HalfSlice(s, d, k + n, k - n, k);
    HalfSlice(s, d, k + n, k, k + n);
    FramedSlice(p, t, q, k - n, k);
    FramedSlice(p, t, q, k, k + n);
    RowOf(n, s, m, k);
    SubtractRow(a, lo + k, m);
    AroundIs(a[..], was, |p| + k, d[k..k + n]);
    FramedRow(p, t, q, k, d[k..k + n]);
    HalfRow(s, d, k, n);
  }

  /** undiff_table: from the first row down.  The table becomes s. */
  method UndiffTable(a: array<byte>, lo: nat, hi: nat, immutable: seq<bool>, ghost p: seq<byte>, ghost s: seq<byte>, ghost q: seq<byte>)
    requires lo == |p| && hi == lo + |s| && |immutable| >= 1 && Rows(|immutable|, |s|)
    requires a[..] == Framed(p, Diff(|immutable|, s, immutable), q)
    modifies a
    ensures a[..] == Framed(p, s, q)
  {
    hide Diff, Rows, DiffRow, Around, Framed, Half;
    var n := |immutable|;
    ghost var d := Diff(n, s, immutable);
    HalfEnds(n, s, immutable);
    NoRows(n);
    if lo < hi {
      RowsUp(n, 0, |s|);
    }
    var r := lo + n;
    while r < hi
      invariant n <= r - lo && (s != [] ==> r - lo <= |s|) && Rows(n, r - lo)
      invariant a[..] == Framed(p, if s == [] then d else Half(s, d, r - lo), q)
    {
      RowsUp(n, r - lo, |s|);
      AddAt(a, lo, r - lo, immutable, p, s, q);
      r := r + n;
    }
  }

  lemma NoRows(n: nat)
    requires n >= 1
    ensures Rows(n, 0) && Rows(n, n)
  {
    assert Rows(n, 0);
  }

  lemma {:induction false} RowsUp(n: nat, k: nat, m: nat)
    requires n >= 1 && Rows(n, k) && Rows(n, m) && k < m
    ensures k + n <= m && Rows(n, k + n)
  {
    if k > 0 {
      RowsUp(n, k - n, m - n);
    }
  }

  method AddAt(a: array<byte>, lo: nat, k: nat, m: seq<bool>, ghost p: seq<byte>, ghost s: seq<byte>, ghost q: seq<byte>)
    requires |m| >= 1 && |m| <= k && k + |m| <= |s| && Rows(|m|, |s|) && Rows(|m|, k) && lo == |p|
    requires a[..] == Framed(p, Half(s, Diff(|m|, s, m), k), q)
    modifies a
    ensures a[..] == Framed(p, Half(s, Diff(|m|, s, m), k + |m|), q)
  {
    hide Diff, Rows, DiffRow, Around, Framed, Half;
    var n := |m|;
    ghost var was, d := a[..], Diff(n, s, m);
    ghost var t := Half(s, d, k);
    HalfSlice(s, d, k, k - n, k);
    HalfSlice(s, d, k, k, k + n);
    FramedSlice(p, t, q, k - n, k);
    FramedSlice(p, t, q, k, k + n);
    RowOf(n, s, m, k);
    AddRow(a, lo + k, m, s[k..k + n]);
    AroundIs(a[..], was, |p| + k, s[k..k + n]);
    FramedRow(p, t, q, k, s[k..k + n]);
    HalfRow(s, d, k, n);
  }

  // ------------------------------------------------------------------ columns moved to the front

  /** The bytes of a row in the columns whose mark is `want`. */
  function PickRow(row: seq<byte>, m: seq<bool>, want: bool): seq<byte>
    requires |row| == |m|
  {
    if row == [] then [] else (if m[0] == want then [row[0]] else []) + PickRow(row[1..], m[1..], want)
  }

  function Pick(s: seq<byte>, m: seq<bool>, want: bool): seq<byte>
    requires |m| >= 1 && Rows(|m|, |s|)
    decreases |s|
  {
    if s == [] then [] else PickRow(s[..|m|], m, want) + Pick(s[|m|..], m, want)
  }

  /** All bytes of the marked columns, then all others. */
  function Reordered(s: seq<byte>, m: seq<bool>): seq<byte>
    requires |m| >= 1 && Rows(|m|, |s|)
  {
    Pick(s, m, true) + Pick(s, m, false)
  }

  lemma {:induction false} PickRowSize(row: seq<byte>, m: seq<bool>)
    requires |row| == |m|
    ensures |PickRow(row, m, true)| + |PickRow(row, m, false)| == |row|
  {
    if row != [] {
      PickRowSize(row[1..], m[1..]);
    }
  }

  lemma {:induction false} PickSize(s: seq<byte>, m: seq<bool>)
    requires |m| >= 1 && Rows(|m|, |s|)
    ensures |Pick(s, m, true)| + |Pick(s, m, false)| == |s|
    decreases |s|
  {
    if s != [] {
      PickRowSize(s[..|m|], m);
      PickSize(s[|m|..], m);
    }
  }

  /** One pass of reorder_table: the columns marked `want`, row by row. */
  method PickPass(temp: seq<byte>, m: seq<bool>, want: bool) returns (out: seq<byte>)
    requires |m| >= 1 && Rows(|m|, |temp|)
    ensures out == Pick(temp, m, want)
  {
    hide PickRow;
    out := [];
    var q := 0;
    while q < |temp|
      invariant 0 <= q <= |temp| && Rows(|m|, |temp| - q) && out + Pick(temp[q..], m, want) == Pick(temp, m, want)
    {
      ghost var out0, q0, row, rest := out, q, temp[q..][..|m|], Pick(temp[q..][|m|..], m, want);
      assert Pick(temp[q..], m, want) == PickRow(row, m, want) + rest;
      assert temp[q..][|m|..] == temp[q + |m|..];
      for k := 0 to |m|
        invariant q == q0 + k && out + PickRow(row[k..], m[k..], want) == out0 + PickRow(row, m, want)
      {
        PickStep(row, m, want, k);
        assert temp[q] == row[k];
        if m[k] == want {
          ghost var more := PickRow(row[k + 1..], m[k + 1..], want);
          assert out + ([temp[q]] + more) == (out + [temp[q]]) + more;
          out := out + [temp[q]];
        }
        q := q + 1;
      }
      PickNone(want);
      assert out == out0 + PickRow(row, m, want);
    }
  }

  lemma PickStep(row: seq<byte>, m: seq<bool>, want: bool, k: nat)
    requires |row| == |m| && k < |m|
    ensures PickRow(row[k..], m[k..], want) ==
            (if m[k] == want then [row[k]] else []) + PickRow(row[k + 1..], m[k + 1..], want)
  {
    assert row[k..][1..] == row[k + 1..] && m[k..][1..] == m[k + 1..];
  }

  lemma PickNone(want: bool)
    ensures PickRow([], [], want) == []
  {
  }

  /** reorder_table on a copy of the table. */
  method ReorderTable(temp: seq<byte>, immutable: seq<bool>) returns (out: seq<byte>)
    requires |immutable| >= 1 && Rows(|immutable|, |temp|)
    ensures out == Reordered(temp, immutable)
  {
    var first := PickPass(temp, immutable, true);
    var last := PickPass(temp, immutable, false);
    out := first + last;
  }

  function Marked(m: seq<bool>): (c: nat)
    ensures c <= |m|
  {
    if m == [] then 0 else (if m[0] then 1 else 0) + Marked(m[1..])
  }

  lemma {:induction false} RowsMul(n: nat, len: nat)
    requires n >= 1
    ensures Rows(n, n * len)
  {
    if len > 0 {
      RowsMul(n, len - 1);
      assert n * len - n == n * (len - 1);
      assert Rows(n, n * len);
    }
  }

  lemma {:induction false} PickRowMarked(row: seq<byte>, m: seq<bool>)
    requires |row| == |m|
    ensures |PickRow(row, m, true)| == Marked(m)
    ensures Marked(m) == 0 ==> PickRow(row, m, false) == row
    ensures Marked(m) == |m| ==> PickRow(row, m, true) == row
  {
    if row != [] {
      PickRowMarked(row[1..], m[1..]);
    }
  }

  lemma RowAndRest(s: seq<byte>, m: seq<bool>, len: nat)
    requires |m| >= 1 && Rows(|m|, |s|) && len >= 1 && |s| == |m| * len
    ensures |m| <= |s| && |s| - |m| == |m| * (len - 1) && Rows(|m|, |s| - |m|)
    ensures Pick(s, m, true) == PickRow(s[..|m|], m, true) + Pick(s[|m|..], m, true)
    ensures Pick(s, m, false) == PickRow(s[..|m|], m, false) + Pick(s[|m|..], m, false)
  {
    assert |m| * len == |m| + |m| * (len - 1);
  }

  lemma {:induction false} PickMarked(s: seq<byte>, m: seq<bool>, len: nat)
    requires |m| >= 1 && |s| == |m| * len && Rows(|m|, |s|)
    ensures |Pick(s, m, true)| == Marked(m) * len
    ensures |Pick(s, m, true)| + |Pick(s, m, false)| == |s|
    decreases len
  {
    PickSize(s, m);
    if len > 0 {
      RowAndRest(s, m, len);
      hide PickRow, Pick, Rows, Marked;
      PickRowMarked(s[..|m|], m);
      PickMarked(s[|m|..], m, len - 1);
      assert Marked(m) * len == Marked(m) + Marked(m) * (len - 1);
    } else {
      assert Marked(m) * len == 0;
    }
  }

  lemma {:induction false} PickWhole(s: seq<byte>, m: seq<bool>, len: nat, want: bool)
    requires |m| >= 1 && |s| == |m| * len && Rows(|m|, |s|) && Marked(m) == if want then |m| else 0
    ensures Pick(s, m, want) == s
    decreases len
  {
    if len > 0 {
      RowAndRest(s, m, len);
      hide PickRow, Pick, Rows, Marked;
      PickRowMarked(s[..|m|], m);
      PickWhole(s[|m|..], m, len - 1, want);
    }
  }

  /** With no column marked, or all, nothing moves. */
  lemma PickAll(s: seq<byte>, m: seq<bool>, len: nat)
    requires |m| >= 1 && |s| == |m| * len && Rows(|m|, |s|) && (Marked(m) == 0 || Marked(m) == |m|)
    ensures Reordered(s, m) == s
  {
    hide Pick, Marked;
    var want := Marked(m) != 0;
    PickWhole(s, m, len, want);
    PickSize(s, m);
    assert Pick(s, m, !want) == [];
  }

  /** One row of unreorder_table. */
  method UnreorderRow(temp: seq<byte>, q0: nat, p0: nat, m: seq<bool>, ghost mid: nat, ghost row: seq<byte>,
                      ghost a: seq<byte>, ghost b: seq<byte>)
    returns (out: seq<byte>, q: nat, p: nat)
    requires |row| == |m| && q0 <= mid <= p0 <= |temp|
    requires temp[q0..mid] == PickRow(row, m, true) + a && temp[p0..] == PickRow(row, m, false) + b
    ensures out == row && q <= mid <= p <= |temp| && temp[q..mid] == a && temp[p..] == b
  {
    hide PickRow;
    out, q, p := [], q0, p0;
    for k := 0 to |m|
      invariant q <= mid <= p <= |temp| && out == row[..k]
      invariant temp[q..mid] == PickRow(row[k..], m[k..], true) + a
      invariant temp[p..] == PickRow(row[k..], m[k..], false) + b
    {
      PickStep(row, m, true, k);
      PickStep(row, m, false, k);
      ghost var ta, tb := temp[q..mid], temp[p..];
      if m[k] {
        assert temp[q] == ta[0] && temp[q + 1..mid] == ta[1..];
        out, q := out + [temp[q]], q + 1;
      } else {
        assert temp[p] == tb[0] && temp[p + 1..] == tb[1..];
        out, p := out + [temp[p]], p + 1;
      }
    }
    PickNone(true);
    PickNone(false);
  }

  /** unreorder_table on a copy of the table: the marked and the other bytes taken up alternately. */
  method UnreorderTable(temp: seq<byte>, tableLen: nat, immutable: seq<bool>, ghost s: seq<byte>) returns (out: seq<byte>)
    requires |immutable| >= 1 && |s| == |immutable| * tableLen && Rows(|immutable|, |s|)
    requires temp == Reordered(s, immutable)
    ensures out == s
  {
    hide PickRow, Pick, Rows, Marked;
    var n := |immutable|;
    var immColumns := CountMarked(immutable);
    PickMarked(s, immutable, tableLen);
    if immColumns == 0 || immColumns == n {
      PickAll(s, immutable, tableLen);
      return temp;
    }
    ghost var a, b := Pick(s, immutable, true), Pick(s, immutable, false);
    var q: nat, q1: nat := 0, immColumns * tableLen;
    assert temp[q..|a|] == a && temp[q1..] == b;
    out := [];
    ghost var rest := s;
    for i := 0 to tableLen
      invariant q <= |a| && |a| <= q1 <= |temp| && Rows(n, |rest|) && |rest| == n * (tableLen - i) && out + rest == s
      invariant temp[q..|a|] == Pick(rest, immutable, true) && temp[q1..] == Pick(rest, immutable, false)
    {
      RowAndRest(rest, immutable, tableLen - i);
      ghost var row, more := rest[..n], rest[n..];
      var bytes;
      bytes, q, q1 := UnreorderRow(temp, q, q1, immutable, |a|, row, Pick(more, immutable, true), Pick(more, immutable, false));
      assert out + rest == (out + row) + more;
      out := out + bytes;
      rest := more;
    }
    assert out + [] == out;
  }

  method CountMarked(m: seq<bool>) returns (c: nat)
    ensures c == Marked(m)
  {
    c := 0;
    for i := 0 to |m|
      invariant c + Marked(m[i..]) == Marked(m)
    {
      assert m[i..][1..] == m[i + 1..];
      c := c + if m[i] then 1 else 0;
    }
  }
}
