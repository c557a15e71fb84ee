/** Bytes and their big-endian (base 256) reading, shared by every codec. */
module Bytes {

  type byte = x: int | 0 <= x < 256

  /** The number a byte string spells, most significant byte first. */
  function Num(s: seq<byte>): nat {
    if s == [] then 0 else 256 * Num(s[..|s| - 1]) + s[|s| - 1]
  }

  /** The lowest n base-256 digits of v, most significant first. */
  function BigEndian(v: nat, n: nat): (s: seq<byte>)
    ensures |s| == n
  {
    if n == 0 then [] else BigEndian(v / 256, n - 1) + [v % 256]
  }

  function Repeat<T>(x: T, n: nat): (s: seq<T>)
    ensures |s| == n && forall i :: 0 <= i < n ==> s[i] == x
  {
    seq(n, _ => x)
  }

  /** The first place of x. */
  function IndexOf<T(==)>(s: seq<T>, x: T): (i: nat)
    requires x in s
    ensures i < |s| && s[i] == x && x !in s[..i]
  {
    if s[0] == x then 0
    else
      var i := IndexOf(s[1..], x);
      assert s[..i + 1] == [s[0]] + s[1..][..i];
      1 + i
  }

  lemma NumSnoc(s: seq<byte>, b: byte)
    ensures Num(s + [b]) == 256 * Num(s) + b
  {
    assert (s + [b])[..|s|] == s;
  }

  /** Spelling a number back gives the same bytes. */
  lemma {:induction false} BigEndianNum(s: seq<byte>)
    ensures BigEndian(Num(s), |s|) == s
  {
    if s != [] {
      BigEndianNum(s[..|s| - 1]);
    }
  }

  function Pow2(n: nat): (p: nat)
    ensures p > 0
  {
    if n == 0 then 1 else 2 * Pow2(n - 1)
  }

  function Pow256(n: nat): (p: nat)
    ensures p > 0
  {
    if n == 0 then 1 else 256 * Pow256(n - 1)
  }

  lemma {:induction false} NumBigEndian(v: nat, n: nat)
    requires v < Pow256(n)
    ensures Num(BigEndian(v, n)) == v
  {
    if n > 0 {
      NumBigEndian(v / 256, n - 1);
      NumSnoc(BigEndian(v / 256, n - 1), v % 256);
    }
  }

  lemma MulMono(a: nat, b: nat, u: nat)
    requires a <= b
    ensures a * u <= b * u
  {
  }

  /** Dividing a multiple. */
  lemma DivMultiple(n: nat, k: nat)
    requires 0 < n
    ensures n * k / n == k
  {
    var q: nat := n * k / n;
    assert n * k == n * q + n * k % n;
    if q < k {
      MulMono(q + 1, k, n);
    } else if k < q {
      MulMono(k + 1, q, n);
    }
  }

  // ------------------------------------------------------------------ least significant byte first

  function Reversed(s: seq<byte>): (r: seq<byte>)
    ensures |r| == |s| && forall i :: 0 <= i < |s| ==> r[i] == s[|s| - 1 - i]
  {
    seq(|s|, i requires 0 <= i < |s| => s[|s| - 1 - i])
  }

  lemma ReversedTwice(s: seq<byte>)
    ensures Reversed(Reversed(s)) == s
  {
  }

  /** A 32-bit number, least significant byte first. */
  function Little(v: nat): (s: seq<byte>)
    ensures |s| == 4
  {
    Reversed(BigEndian(v, 4))
  }

  /** The 32-bit number at the start of s, least significant byte first. */
  function Word(s: seq<byte>): (v: nat)
    requires |s| == 4
  {
    Num(Reversed(s))
  }

  lemma WordBound(s: seq<byte>)
    requires |s| == 4
    ensures Word(s) < 0x1_0000_0000 && BigEndian(Word(s), 4) == Reversed(s) && Little(Word(s)) == s
  {
    NumBound(Reversed(s));
    Pow256Four();
    BigEndianNum(Reversed(s));
    ReversedTwice(s);
  }

  lemma {:induction false} NumBound(s: seq<byte>)
    ensures Num(s) < Pow256(|s|)
  {
    if s != [] {
      NumBound(s[..|s| - 1]);
    }
  }

  lemma Pow256Four()
    ensures Pow256(4) == 0x1_0000_0000
  {
  }

  lemma WordLittle(v: nat)
    requires v < 0x1_0000_0000
    ensures Word(Little(v)) == v
  {
    Pow256Four();
    NumBigEndian(v, 4);
    ReversedTwice(BigEndian(v, 4));
  }
}
