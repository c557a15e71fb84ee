/** Delta.cpp: the checks a table has to pass, and which of its columns hardly change. */
module DeltaCheck {
  import opened Bytes
  import opened DeltaSearch

  const DELTA: int := 8

  predicate Close(x: int, y: int) {
    0 <= x - y + DELTA <= 2 * DELTA
  }

  /** Four rows in a column change little, and not by the same amount. */
  predicate FastCheck(s: seq<byte>, n: nat, p: nat)
    requires 1 <= n && p + 3 * n + 2 <= |s|
  {
    && Close(s[p + 1], s[p + n + 1]) && Close(s[p + n + 1], s[p + 2 * n + 1]) && Close(s[p + 2 * n + 1], s[p + 3 * n + 1])
    && Int16(s, p) + Int16(s, p + n) != Int16(s, p + 2 * n) + Int16(s, p + 3 * n)
  }

  /**
    Is the table worth recording?  Its useful rows times the square root of the row size must be more than 30
    and four times the bits of the gap before it; both sides are squared here.
   */
  predicate Worthwhile(rows: int, useless: int, skip: nat, n: nat) {
    var useful, price := rows - useless, 30 + 4 * Lb(skip);
    useful > 0 && useful * useful * n > price * price
  }

  /** The squares are compared instead of the products: r is the square root of the row size. */
  lemma WorthwhileIs(rows: int, useless: int, skip: nat, n: nat, r: real)
    requires r >= 0.0 && r * r == n as real
    ensures Worthwhile(rows, useless, skip, n) <==> (rows - useless) as real * r > (30 + 4 * Lb(skip)) as real
  {
    hide Lb;
    var u, p := rows - useless, 30 + 4 * Lb(skip);
    Product(u * u, n);
    Product(u, u);
    Product(p, p);
    var a, b := u as real, p as real;
    SquareOfProduct(a, r);
    if u > 0 {
      NotNegative(a, r);
      SquareOrder(a * r, b);
    } else {
      NotNegative(-a, r);
      assert a * r == -(-a * r);
    }
  }

  lemma SquareOfProduct(a: real, r: real)
    ensures (a * r) * (a * r) == (a * a) * (r * r)
  {
  }

  lemma {:induction false} Product(a: int, b: int)
    ensures (a * b) as real == a as real * b as real
    decreases if a < 0 then -a else a
  {
    if a > 0 {
      Product(a - 1, b);
      assert a * b == (a - 1) * b + b;
      assert a as real * b as real == (a - 1) as real * b as real + b as real;
    } else if a < 0 {
      Product(a + 1, b);
      assert a * b == (a + 1) * b - b;
      assert a as real * b as real == (a + 1) as real * b as real - b as real;
    }
  }

  lemma SquareOrder(a: real, b: real)
    requires a >= 0.0 && b >= 0.0
    ensures a > b <==> a * a > b * b
  {
    if a > b {
      Positive(a - b, a + b);
      assert (a - b) * (a + b) == a * a - b * b;
    } else {
      NotNegative(b - a, a + b);
      assert (b - a) * (a + b) == b * b - a * a;
    }
  }

  lemma Positive(a: real, b: real)
    requires a > 0.0 && b > 0.0
    ensures a * b > 0.0
  {
  }

  lemma NotNegative(a: real, b: real)
    requires a >= 0.0 && b >= 0.0
    ensures a * b >= 0.0
  {
  }

  /** How often a column changes from one row to the next, from p on. */
  function Changes(s: seq<byte>, n: nat, p: nat): nat
    requires n > 0
    decreases |s| - p
  {
    if p + n < |s| then Changes(s, n, p + n) + (if s[p + n] != s[p] then 1 else 0) else 0
  }

  /** Less than a quarter of its rows change a constant column; numbers of 2, 4 or 8 bytes have none. */
  predicate Constant(s: seq<byte>, n: nat, rows: nat, k: nat)
    requires n > 0
  {
    Changes(s, n, k) * 4 < rows && n != 2 && n != 4 && n != 8
  }

  function Mask(s: seq<byte>, n: nat, rows: nat): (mask: seq<bool>)
    requires n > 0
    ensures |mask| == n
  {
    seq(n, k requires 0 <= k < n => Constant(s, n, rows, k))
  }

  lemma RowInside(n: nat, rows: nat, k: nat, i: nat)
    requires k < n && i < rows
    ensures n * i + k < n * rows && n * i <= n * rows
  {
    MulMono(i + 1, rows, n);
    assert (i + 1) * n == n * i + n && rows * n == n * rows;
  }

  /** One column of analyze_table. */
  method CountChanges(s: seq<byte>, n: nat, rows: nat, k: nat) returns (neq: nat)
    requires |s| == n * rows && k < n
    ensures neq == Changes(s, n, k)
  {
    neq := 0;
    var p: nat := k;
    assert n * 0 == 0;
    var i: nat := 1;
    while i < rows
      invariant rows > 0 ==> 1 <= i <= rows && p == n * (i - 1) + k
      invariant neq + Changes(s, n, p) == Changes(s, n, k)
    {
      RowInside(n, rows, k, i);
      assert n * i == n * (i - 1) + n;
      if s[p + n] != s[p] {
        neq := neq + 1;
      }
      p, i := p + n, i + 1;
    }
    if rows > 0 {
      assert n * rows == n * (rows - 1) + n;
    }
  }

  /** analyze_table: the columns that hardly change; all others are subtracted. */
  method AnalyzeTable(s: seq<byte>, n: nat, rows: nat) returns (mask: seq<bool>)
    requires n > 0 && |s| == n * rows
    ensures mask == Mask(s, n, rows)
  {
    hide Changes;
    mask := [];
    for k := 0 to n
      invariant |mask| == k && forall j :: 0 <= j < k ==> mask[j] == Constant(s, n, rows, j)
    {
      var neq := CountChanges(s, n, rows, k);
      mask := mask + [neq * 4 < rows && n != 2 && n != 4 && n != 8];
    }
  }
}
