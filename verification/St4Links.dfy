/**
  Why the order-4 sort can be undone: what the transformed rows alone say about the keys.

  Sorting the rows stably by their own byte sends the row of a position to a place inside the key
  group of the next position.  So the rows determine where the groups for longer and longer keys start.
 */
module St4Links {
  import opened Bytes
  import opened CountingSort
  import opened St4Order

  function Nats(s: seq<byte>): (t: seq<nat>)
    ensures |t| == |s| && forall i :: 0 <= i < |s| ==> t[i] == s[i]
  {
    seq(|s|, i requires 0 <= i < |s| => s[i])
  }

  /** The position shown in each row. */
  ghost function Shown(x: seq<byte>): (p: seq<nat>)
    requires x != []
    ensures |p| == |x| && forall r :: 0 <= r < |x| ==> p[r] < |x| && Rows(x)[p[r]] == r
  {
    Inverse(Rows(x))
  }

  /** The key of length k of every row. */
  ghost function RowKeys(x: seq<byte>, k: nat): (s: seq<nat>)
    requires x != []
    ensures |s| == |x| && forall r :: 0 <= r < |x| ==> s[r] == Keys(x, k)[Shown(x)[r]]
  {
    seq(|x|, r requires 0 <= r < |x| => Keys(x, k)[Shown(x)[r]])
  }

  /** The rows of one key are the places of that key. */
  lemma RowInGroup(x: seq<byte>, k: nat, r: nat)
    requires r < |x| && k <= 4
    ensures Start(Keys(x, k), RowKeys(x, k)[r]) <= r < Start(Keys(x, k), RowKeys(x, k)[r] + 1) <= |x|
  {
    hide Less, Rows, Permutes, Respects;
    RowsRespect(x, k);
    GroupInterval(Rows(x), Keys(x, k), Shown(x)[r]);
    StartMost(Keys(x, k), RowKeys(x, k)[r] + 1);
  }

  lemma StartMost(keys: seq<nat>, w: nat)
    ensures Start(keys, w) <= |keys|
  {
  }

  lemma RowKeyIs(x: seq<byte>, k: nat, r: nat, w: nat)
    requires r < |x| && k <= 4 && Start(Keys(x, k), w) <= r < Start(Keys(x, k), w + 1)
    ensures RowKeys(x, k)[r] == w
  {
    hide Less, Rows, Permutes, Respects;
    RowsRespect(x, k);
    GroupUnique(Rows(x), Keys(x, k), Shown(x)[r], w);
  }

  /** Keys do not fall from row to row. */
  lemma RowKeysSorted(x: seq<byte>, k: nat, r: nat, s: nat)
    requires r <= s < |x| && k <= 4
    ensures RowKeys(x, k)[r] <= RowKeys(x, k)[s]
  {
    if RowKeys(x, k)[s] < RowKeys(x, k)[r] {
      RowKeysOrder(x, k, s, r);
    }
  }

  lemma RowKeysOrder(x: seq<byte>, k: nat, r: nat, s: nat)
    requires r < |x| && s < |x| && k <= 4 && RowKeys(x, k)[r] < RowKeys(x, k)[s]
    ensures r < s
  {
    hide Less, Rows;
    RowsRespect(x, k);
    assert Rows(x)[Shown(x)[r]] < Rows(x)[Shown(x)[s]];
  }

  /** The position after the one shown in row r. */
  ghost function NextShown(x: seq<byte>, r: nat): (q: nat)
    requires r < |x|
    ensures q < |x|
  {
    Next(x, Shown(x)[r])
  }

  /** The next position's key is the row's byte in front of the row's key. */
  lemma NextShownKey(x: seq<byte>, rows: seq<byte>, k: nat, r: nat)
    requires r < |x| && Transformed(x, rows)
    ensures Keys(x, k + 1)[NextShown(x, r)] == rows[r] * Pow256(k) + RowKeys(x, k)[r]
    ensures RowKeys(x, k)[r] < Pow256(k)
  {
    hide Key, Pow256;
    NextKey(x, Shown(x)[r], k);
    KeyBound(x, Shown(x)[r], k);
  }

  /** Where the stable sort by byte sends the row before each position. */
  ghost function Links(x: seq<byte>, rows: seq<byte>): (f: seq<nat>)
    requires x != [] && |rows| == |x|
    ensures |f| == |x|
    ensures forall p :: 0 <= p < |x| ==> f[Next(x, p)] == Place(Nats(rows), Rows(x)[p])
  {
    var f: seq<nat> := seq(|x|, q requires 0 <= q < |x| => Place(Nats(rows), Rows(x)[Prev(x, q)]));
    assert forall p :: 0 <= p < |x| ==> Prev(x, Next(x, p)) == p;
    f
  }

  lemma LinksPermute(x: seq<byte>, rows: seq<byte>)
    requires x != [] && |rows| == |x|
    ensures Permutes(Links(x, rows))
  {
    hide Links, Place, Rows;
    var f := Links(x, rows);
    var g := Places(Nats(rows));
    PlacesPermute(Nats(rows));
    forall q | 0 <= q < |x|
      ensures f[q] < |x|
    {
      var p := Prev(x, q);
      assert f[Next(x, p)] == g[Rows(x)[p]];
    }
    forall q, r | 0 <= q < r < |x|
      ensures f[q] != f[r]
    {
      var p, s := Prev(x, q), Prev(x, r);
      assert f[Next(x, p)] == g[Rows(x)[p]] && f[Next(x, s)] == g[Rows(x)[s]];
    }
  }

  function Prev(x: seq<byte>, q: nat): (p: nat)
    requires q < |x|
    ensures p < |x| && Next(x, p) == q
  {
    if q == 0 then |x| - 1 else q - 1
  }

  /** Links stay inside the key groups, up to length four. */
  lemma LinksRespect(x: seq<byte>, rows: seq<byte>, k: nat)
    requires x != [] && Transformed(x, rows) && k <= 3
    ensures Respects(Links(x, rows), Keys(x, k + 1))
  {
    hide Links, Place, Rows, Key;
    var f := Links(x, rows);
    forall q, r | 0 <= q < |x| && 0 <= r < |x| && Keys(x, k + 1)[q] < Keys(x, k + 1)[r]
      ensures f[q] < f[r]
    {
      LinksOrder(x, rows, k, Prev(x, q), Prev(x, r));
    }
  }

  lemma LinksOrder(x: seq<byte>, rows: seq<byte>, k: nat, p: nat, s: nat)
    requires x != [] && Transformed(x, rows) && k <= 3 && p < |x| && s < |x|
    requires Keys(x, k + 1)[Next(x, p)] < Keys(x, k + 1)[Next(x, s)]
    ensures Links(x, rows)[Next(x, p)] < Links(x, rows)[Next(x, s)]
  {
    hide Links, Place, Rows, Key, Pow256, Keys;
    NextKey(x, p, k);
    NextKey(x, s, k);
    KeyBound(x, p, k);
    KeyBound(x, s, k);
    Lexicographic(x[p], x[s], Keys(x, k)[p], Keys(x, k)[s], Pow256(k));
    if x[p] == x[s] {
      RowsRespect(x, k);
    }
    PlaceOrder(Nats(rows), Rows(x)[p], Rows(x)[s]);
  }

  lemma Lexicographic(a: nat, b: nat, u: nat, v: nat, m: nat)
    requires u < m && v < m && a * m + u < b * m + v
    ensures a < b || (a == b && u < v)
  {
    if a > b {
      MulMono(b + 1, a, m);
    }
  }

  // ------------------------------------------------------------------ first rows of their kind

  /** The last row before row j that shows byte c, or -1. */
  function Last(rows: seq<byte>, c: byte, j: nat): (r: int)
    requires j <= |rows|
    ensures -1 <= r < j && (r >= 0 ==> rows[r] == c)
    ensures forall s :: r < s < j ==> rows[s] != c
  {
    if j == 0 then -1 else if rows[j - 1] == c then j - 1 else Last(rows, c, j - 1)
  }

  /** No earlier row of the same key of length k shows the same byte. */
  ghost predicate First(x: seq<byte>, rows: seq<byte>, k: nat, r: nat)
    requires x != [] && |rows| == |x| && r < |x|
  {
    var l := Last(rows, rows[r], r);
    l < 0 || RowKeys(x, k)[l] != RowKeys(x, k)[r]
  }

  lemma FirstMeans(x: seq<byte>, rows: seq<byte>, k: nat, r: nat, s: nat)
    requires x != [] && |rows| == |x| && s < r < |x| && k <= 4 && First(x, rows, k, r)
    requires rows[s] == rows[r]
    ensures RowKeys(x, k)[s] != RowKeys(x, k)[r]
  {
    hide RowKeys;
    var l := Last(rows, rows[r], r);
    RowKeysSorted(x, k, s, l);
    RowKeysSorted(x, k, l, r);
  }

  /** Sorting by byte sends a first row to the start of the next position's longer key group. */
  lemma FirstIsStart(x: seq<byte>, rows: seq<byte>, k: nat, r: nat)
    requires x != [] && Transformed(x, rows) && r < |x| && k <= 3 && First(x, rows, k, r)
    ensures Place(Nats(rows), r) == Start(Keys(x, k + 1), Keys(x, k + 1)[NextShown(x, r)])
  {
    hide Links, Place, Rows, Key, Less, First, Permutes, Respects, Transformed;
    SameLength(x, rows);
    var f := Links(x, rows);
    var q := NextShown(x, r);
    var w := Keys(x, k + 1)[q];
    LinksPermute(x, rows);
    LinksRespect(x, rows, k);
    GroupInterval(f, Keys(x, k + 1), q);
    assert f[q] == Place(Nats(rows), r);
    if f[q] > Start(Keys(x, k + 1), w) {
      StartMost(Keys(x, k + 1), w + 1);
      EarlierInGroup(x, rows, k, r);
    }
  }

  lemma SameLength(x: seq<byte>, rows: seq<byte>)
    requires Transformed(x, rows)
    ensures |rows| == |x|
  {
  }

  /** If a row is not sent to the start of its group, an earlier row of its kind is sent before it. */
  lemma EarlierInGroup(x: seq<byte>, rows: seq<byte>, k: nat, r: nat)
    requires x != [] && Transformed(x, rows) && r < |x| && k <= 3
    requires Start(Keys(x, k + 1), Keys(x, k + 1)[NextShown(x, r)]) < Place(Nats(rows), r)
    ensures !First(x, rows, k, r)
  {
    hide Links, Rows, Key, Less, First, Permutes, Respects, Place;
    var f := Links(x, rows);
    var q := NextShown(x, r);
    LinksPermute(x, rows);
    LinksRespect(x, rows, k);
    GroupInterval(f, Keys(x, k + 1), q);
    assert f[q] == Place(Nats(rows), r);
    PlacesInRange(Nats(rows), r);
    var p := Onto(f, f[q] - 1);
    GroupUnique(f, Keys(x, k + 1), p, Keys(x, k + 1)[q]);
    var s := Rows(x)[Prev(x, p)];
    RowsInRange(x, Prev(x, p));
    assert NextShown(x, s) == p && f[p] == Place(Nats(rows), s);
    SameKind(x, rows, k, r, s);
    if r <= s {
      PlaceOrderWeak(Nats(rows), r, s);
    }
    if First(x, rows, k, r) {
      FirstMeans(x, rows, k, r, s);
    }
  }

  lemma PlacesInRange(keys: seq<nat>, r: nat)
    requires r < |keys|
    ensures Place(keys, r) < |keys|
  {
    PlaceInGroup(keys, r);
  }

  lemma RowsInRange(x: seq<byte>, p: nat)
    requires p < |x|
    ensures Rows(x)[p] < |x| && Shown(x)[Rows(x)[p]] == p
  {
    InverseAt(Rows(x), p);
  }

  lemma PlaceOrderWeak(keys: seq<nat>, r: nat, s: nat)
    requires r <= s < |keys| && keys[r] == keys[s]
    ensures Place(keys, r) <= Place(keys, s)
  {
    if r < s {
      PlaceOrder(keys, r, s);
    }
  }

  /** Rows are followed by the same key exactly if they agree in byte and key. */
  lemma SameKind(x: seq<byte>, rows: seq<byte>, k: nat, r: nat, s: nat)
    requires x != [] && Transformed(x, rows) && r < |x| && s < |x| && k <= 3
    ensures Keys(x, k + 1)[NextShown(x, r)] == Keys(x, k + 1)[NextShown(x, s)]
      <==> rows[r] == rows[s] && RowKeys(x, k)[r] == RowKeys(x, k)[s]
  {
    hide Rows, Key, RowKeys, NextShown, Pow256, Keys;
    NextShownKey(x, rows, k, r);
    NextShownKey(x, rows, k, s);
    if Keys(x, k + 1)[NextShown(x, r)] == Keys(x, k + 1)[NextShown(x, s)] {
      SamePair(rows[r], rows[s], RowKeys(x, k)[r], RowKeys(x, k)[s], Pow256(k));
    }
  }

  lemma SamePair(a: nat, b: nat, u: nat, v: nat, m: nat)
    requires u < m && v < m && a * m + u == b * m + v
    ensures a == b && u == v
  {
    if a < b {
      MulMono(a + 1, b, m);
    } else if b < a {
      MulMono(b + 1, a, m);
    }
  }

  /** Every start of a group is reached from a first row. */
  lemma StartIsFirst(x: seq<byte>, rows: seq<byte>, k: nat, q: nat) returns (r: nat)
    requires x != [] && Transformed(x, rows) && q < |x| && k <= 3
    requires q == Start(Keys(x, k + 1), RowKeys(x, k + 1)[q])
    ensures r < |x| && First(x, rows, k, r) && Place(Nats(rows), r) == q
  {
    hide Links, Rows, Key, Less, Permutes, Respects, Place, RowKeys;
    var f := Links(x, rows);
    LinksPermute(x, rows);
    LinksRespect(x, rows, k);
    var p := Onto(f, q);
    RowInGroup(x, k + 1, q);
    GroupUnique(f, Keys(x, k + 1), p, RowKeys(x, k + 1)[q]);
    RowsInRange(x, Prev(x, p));
    r := Rows(x)[Prev(x, p)];
    assert NextShown(x, r) == p && f[p] == Place(Nats(rows), r);
    var l := Last(rows, rows[r], r);
    if !First(x, rows, k, r) {
      SameKind(x, rows, k, l, r);
      LinkGroup(x, rows, k, l);
      PlaceOrder(Nats(rows), l, r);
    }
  }

  /** A row is sent into the key group of the next position. */
  lemma LinkGroup(x: seq<byte>, rows: seq<byte>, k: nat, r: nat)
    requires x != [] && Transformed(x, rows) && |rows| == |x| && r < |x| && k <= 3
    ensures Start(Keys(x, k + 1), Keys(x, k + 1)[NextShown(x, r)])
      <= Place(Nats(rows), r) < Start(Keys(x, k + 1), Keys(x, k + 1)[NextShown(x, r)] + 1)
  {
    hide Links, Rows, Key, Less, Permutes, Respects, Place;
    LinksPermute(x, rows);
    LinksRespect(x, rows, k);
    GroupInterval(Links(x, rows), Keys(x, k + 1), NextShown(x, r));
  }

  // ------------------------------------------------------------------ counts of bytes and of pairs

  lemma NextPermutes(x: seq<byte>) returns (f: seq<nat>)
    requires x != []
    ensures |f| == |x| && Permutes(f) && forall p :: 0 <= p < |x| ==> f[p] == Next(x, p)
  {
    f := seq(|x|, p requires 0 <= p < |x| => Next(x, p));
  }

  /** The rows with byte c in front start where the rows of byte c start in the stable sort. */
  lemma ByteStarts(x: seq<byte>, rows: seq<byte>, c: nat)
    requires x != [] && Transformed(x, rows)
    ensures Start(Nats(rows), c) == Start(Keys(x, 1), c)
  {
    hide Key, Rows, Less, Pow256;
    var f := NextPermutes(x);
    forall p | 0 <= p < |x|
      ensures Keys(x, 1)[f[p]] == Nats(x)[p]
    {
      NextKey(x, p, 0);
      KeyBound(x, p, 0);
      PowOne();
    }
    StartPermuted(Nats(x), Keys(x, 1), f, c);
    StartPermuted(Nats(x), Nats(rows), Rows(x), c);
  }

  lemma PowOne()
    ensures Pow256(0) == 1 && Pow256(1) == 256 && Pow256(2) == 65536
  {
    assert Pow256(1) == 256 * Pow256(0);
  }

  function PairOf(c: byte, key: nat): nat {
    var n: nat := c;
    n * 256 + key
  }

  /** Each row's byte followed by the byte in front of it. */
  ghost function RowPairs(x: seq<byte>, rows: seq<byte>): (s: seq<nat>)
    requires x != [] && |rows| == |x|
    ensures |s| == |x| && forall r :: 0 <= r < |x| ==> s[r] == PairOf(rows[r], RowKeys(x, 1)[r])
  {
    seq(|x|, r requires 0 <= r < |x| => PairOf(rows[r], RowKeys(x, 1)[r]))
  }

  lemma PairStarts(x: seq<byte>, rows: seq<byte>, w: nat)
    requires x != [] && Transformed(x, rows)
    ensures Start(RowPairs(x, rows), w) == Start(Keys(x, 2), w)
  {
    hide Key, Rows, Less, Pow256;
    var f := NextPermutes(x);
    var a: seq<nat> := seq(|x|, p requires 0 <= p < |x| => PairOf(x[p], Keys(x, 1)[p]));
    forall p | 0 <= p < |x|
      ensures Keys(x, 2)[f[p]] == a[p]
    {
      NextKey(x, p, 1);
      PowOne();
    }
    StartPermuted(a, Keys(x, 2), f, w);
    forall p | 0 <= p < |x|
      ensures RowPairs(x, rows)[Rows(x)[p]] == a[p]
    {
      RowsInRange(x, p);
    }
    StartPermuted(a, RowPairs(x, rows), Rows(x), w);
  }
}
