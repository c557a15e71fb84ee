/**
  What ST4.c sorts by: the bytes before a position, cyclically, most recent first.

  Key(x, i, k) reads the k bytes before position i as a number, the most recent byte most significant.
  The transform lists the bytes of the block in the stable order of their keys of length four.
 */
module St4Order {
  import opened Bytes
  import opened CountingSort

  /** The byte at position i of the endless repetition of x. */
  function At(x: seq<byte>, i: int): byte
    requires x != []
  {
    x[i % |x|]
  }

  function Key(x: seq<byte>, i: int, k: nat): (v: nat)
    requires x != []
    decreases k
  {
    if k == 0 then 0 else 256 * Key(x, i, k - 1) + At(x, i - k)
  }

  lemma {:induction false} KeyBound(x: seq<byte>, i: int, k: nat)
    requires x != []
    ensures Key(x, i, k) < Pow256(k)
    decreases k
  {
    hide At;
    if k > 0 {
      KeyBound(x, i, k - 1);
    }
  }

  /** The most recent byte comes first. */
  lemma {:induction false} KeyHead(x: seq<byte>, i: int, k: nat)
    requires x != []
    ensures Key(x, i, k + 1) == At(x, i - 1) * Pow256(k) + Key(x, i - 1, k)
    decreases k
  {
    hide At, Key, Pow256;
    KeyNext(x, i, k);
    if k > 0 {
      KeyHead(x, i, k - 1);
      KeyNext(x, i - 1, k - 1);
      PowNext(k - 1);
      Regroup(At(x, i - 1), Pow256(k - 1), Key(x, i - 1, k - 1), At(x, i - 1 - k));
    } else {
      KeyNone(x, i);
    }
  }

  lemma KeyNext(x: seq<byte>, i: int, k: nat)
    requires x != []
    ensures Key(x, i, k + 1) == 256 * Key(x, i, k) + At(x, i - k - 1)
  {
  }

  lemma KeyNone(x: seq<byte>, i: int)
    requires x != []
    ensures Key(x, i, 0) == Key(x, i - 1, 0) == 0 && Pow256(0) == 1
  {
  }

  lemma PowNext(k: nat)
    ensures Pow256(k + 1) == 256 * Pow256(k)
  {
  }

  lemma Regroup(h: nat, p: nat, a: nat, b: nat)
    ensures 256 * (h * p + a) + b == h * (256 * p) + (256 * a + b)
  {
    assert h * (256 * p) == 256 * (h * p);
  }

  lemma AtInside(x: seq<byte>, i: nat)
    requires i < |x|
    ensures At(x, i) == x[i]
  {
    ModIs(i, |x|, 0, i);
  }

  lemma AtPeriodic(x: seq<byte>, i: int)
    requires x != []
    ensures At(x, i + |x|) == At(x, i)
  {
    ModPeriodic(i, |x|);
  }

  lemma ModPeriodic(i: int, n: nat)
    requires n > 0
    ensures (i + n) % n == i % n
  {
    var q, r := i / n, i % n;
    assert i + n == (q + 1) * n + r;
    ModIs(i + n, n, q + 1, r);
  }

  lemma ModIs(x: int, n: int, q: int, r: int)
    requires n > 0 && x == q * n + r && 0 <= r < n
    ensures x % n == r
  {
    var d := x / n - q;
    assert x == (x / n) * n + x % n;
    assert d * n == r - x % n;
    NoMultiple(d, n);
  }

  lemma NoMultiple(d: int, n: int)
    requires -n < d * n < n
    ensures d == 0
  {
  }

  lemma {:induction false} KeyPeriodic(x: seq<byte>, i: int, k: nat)
    requires x != []
    ensures Key(x, i + |x|, k) == Key(x, i, k)
    decreases k
  {
    hide At;
    if k > 0 {
      KeyPeriodic(x, i, k - 1);
      AtPeriodic(x, i - k);
    }
  }

  function Keys(x: seq<byte>, k: nat): (s: seq<nat>)
    requires x != []
    ensures |s| == |x| && forall i :: 0 <= i < |x| ==> s[i] == Key(x, i, k)
  {
    seq(|x|, i => Key(x, i, k))
  }

  /** The position after p, cyclically. */
  function Next(x: seq<byte>, p: nat): (q: nat)
    requires p < |x|
    ensures q < |x|
  {
    if p + 1 == |x| then 0 else p + 1
  }

  lemma NextKey(x: seq<byte>, p: nat, k: nat)
    requires p < |x|
    ensures Keys(x, k + 1)[Next(x, p)] == x[p] * Pow256(k) + Keys(x, k)[p]
  {
    hide Key, At, Pow256;
    if p + 1 == |x| {
      KeyPeriodic(x, 0, k + 1);
    }
    KeyHead(x, p + 1, k);
    AtInside(x, p);
  }

  /** Longer keys refine shorter ones. */
  lemma {:induction false} KeysRefine(x: seq<byte>, i: nat, j: nat, k: nat, m: nat)
    requires i < |x| && j < |x| && k <= m && Keys(x, k)[i] < Keys(x, k)[j]
    ensures Keys(x, m)[i] < Keys(x, m)[j]
    decreases m
  {
    if k < m {
      KeysRefine(x, i, j, k, m - 1);
    }
  }

  /** The row of every position in the sorted table. */
  function Rows(x: seq<byte>): (f: seq<nat>)
    requires x != []
    ensures |f| == |x| && Permutes(f)
  {
    PlacesPermute(Keys(x, 4));
    Places(Keys(x, 4))
  }

  lemma RowsRespect(x: seq<byte>, k: nat)
    requires x != [] && k <= 4
    ensures Permutes(Rows(x)) && Respects(Rows(x), Keys(x, k))
  {
    PlacesPermute(Keys(x, 4));
    forall i, j | 0 <= i < |x| && 0 <= j < |x| && Keys(x, k)[i] < Keys(x, k)[j]
      ensures Rows(x)[i] < Rows(x)[j]
    {
      KeysRefine(x, i, j, k, 4);
      PlaceOrder(Keys(x, 4), i, j);
    }
  }

  /** The transformed block: the bytes in row order. */
  ghost predicate Transformed(x: seq<byte>, rows: seq<byte>) {
    |rows| == |x| && (x != [] ==> forall i :: 0 <= i < |x| ==> rows[Rows(x)[i]] == x[i])
  }

  // ------------------------------------------------------------------ two passes make one sort

  /** The low half of a position's key, by which the first pass distributes. */
  function LowKeys(x: seq<byte>): (s: seq<nat>)
    requires x != []
    ensures |s| == |x| && forall i :: 0 <= i < |x| ==> s[i] == Key(x, i - 2, 2)
  {
    seq(|x|, i => Key(x, i - 2, 2))
  }

  lemma KeySplit(x: seq<byte>, i: int)
    requires x != []
    ensures Key(x, i, 4) == Key(x, i, 2) * 65536 + Key(x, i - 2, 2)
  {
    hide At;
    assert Key(x, i, 4) == 256 * (256 * Key(x, i, 2) + At(x, i - 3)) + At(x, i - 4);
    assert Key(x, i - 2, 2) == 256 * (256 * Key(x, i - 2, 0) + At(x, i - 2 - 1)) + At(x, i - 2 - 2);
  }

  /** The high halves in the order the first pass leaves behind. */
  ghost predicate HighKeys(x: seq<byte>, high: seq<nat>)
    requires x != []
  {
    && |high| == |x| && Permutes(Places(LowKeys(x)))
    && forall i :: 0 <= i < |x| ==> high[Places(LowKeys(x))[i]] == Key(x, i, 2)
  }

  /** Sorting stably by the low half and then by the high half sorts by the whole key. */
  lemma TwoPasses(x: seq<byte>, high: seq<nat>, i: nat)
    requires x != [] && HighKeys(x, high) && i < |x|
    ensures Places(high)[Places(LowKeys(x))[i]] == Rows(x)[i]
  {
    var low := Places(LowKeys(x));
    var f := seq(|x|, p requires 0 <= p < |x| => Places(high)[low[p]]);
    PlacesPermute(LowKeys(x));
    PlacesPermute(high);
    ComposePermutes(low, Places(high), f);
    PlacesPermute(Keys(x, 4));
    forall p, q | 0 <= p < |x| && 0 <= q < |x| && Before(Keys(x, 4), p, q)
      ensures f[p] < f[q]
    {
      PassesOrder(x, high, p, q);
    }
    SameAsPlaces(Keys(x, 4), f, i);
  }

  lemma ComposePermutes(f: seq<nat>, g: seq<nat>, h: seq<nat>)
    requires Permutes(f) && Permutes(g) && |f| == |g| == |h|
    requires forall i :: 0 <= i < |f| ==> h[i] == g[f[i]]
    ensures Permutes(h)
  {
  }

  lemma KeyTwo(x: seq<byte>, i: int)
    requires x != []
    ensures Key(x, i, 2) < 65536 && Key(x, i, 2) == 256 * At(x, i - 1) as nat + At(x, i - 2)
  {
    hide At;
    assert Key(x, i, 2) == 256 * (256 * Key(x, i, 0) + At(x, i - 1)) + At(x, i - 2);
  }

  lemma PassesOrder(x: seq<byte>, high: seq<nat>, p: nat, q: nat)
    requires x != [] && HighKeys(x, high) && p < |x| && q < |x| && Before(Keys(x, 4), p, q)
    ensures Places(high)[Places(LowKeys(x))[p]] < Places(high)[Places(LowKeys(x))[q]]
  {
    var low := Places(LowKeys(x));
    KeySplit(x, p);
    KeySplit(x, q);
    KeyTwo(x, p - 2);
    KeyTwo(x, q - 2);
    hide Key, Count, Less;
    if Key(x, p, 2) == Key(x, q, 2) {
      PlaceOrder(LowKeys(x), p, q);
    }
    PlaceOrder(high, low[p], low[q]);
  }

  /** A permutation in the stable order of the keys is the counting sort. */
  lemma SameAsPlaces(keys: seq<nat>, f: seq<nat>, i: nat)
    requires |f| == |keys| && Permutes(f) && i < |keys|
    requires forall p, q :: 0 <= p < |f| && 0 <= q < |f| && Before(keys, p, q) ==> f[p] < f[q]
    ensures f[i] == Place(keys, i)
  {
    var g := Places(keys);
    PlacesPermute(keys);
    forall p, q | 0 <= p < |f| && 0 <= q < |f| && f[p] < f[q]
      ensures g[p] < g[q]
    {
      assert Before(keys, p, q) by {
        assert !Before(keys, q, p);
      }
      PlaceOrder(keys, p, q);
    }
    forall p, q | 0 <= p < |f| && 0 <= q < |f| && g[p] < g[q]
      ensures f[p] < f[q]
    {
      if !Before(keys, p, q) && p != q {
        PlaceOrder(keys, q, p);
      }
    }
    SameOrder(f, g, i);
    SameOrder(g, f, i);
  }
}
