/**
  Environment.cpp: CRC-32 with eight tables, eight bytes at a time, against the definition bit by bit (section
  8 of RFC 1952, without the inversions before and after).  A 32-bit word is the sequence of its bits, least
  significant first, so that a word loaded from four bytes is their concatenation.
 */
module Crc32 {
  import opened Bytes

  type Bits = seq<bool>

  predicate IsWord(w: Bits) {
    |w| == 32
  }

  function Zeros(n: nat): Bits {
    Repeat(false, n)
  }

  function BitsOf(v: nat, n: nat): (b: Bits)
    ensures |b| == n
  {
    if n == 0 then [] else [v % 2 == 1] + BitsOf(v / 2, n - 1)
  }

  function Value(b: Bits): nat {
    if b == [] then 0 else (if b[0] then 1 else 0) + 2 * Value(b[1..])
  }

  lemma {:induction false} BitsOfValue(b: Bits)
    ensures BitsOf(Value(b), |b|) == b && Value(b) < Pow2(|b|)
  {
    if b != [] {
      BitsOfValue(b[1..]);
      HalfValue(if b[0] then 1 else 0, Value(b[1..]));
    }
  }

  lemma HalfValue(low: nat, v: nat)
    requires low < 2
    ensures (low + 2 * v) % 2 == low && (low + 2 * v) / 2 == v
  {
  }

  /** A number of n bits has zeros above them. */
  lemma {:induction false} BitsOfSmall(v: nat, n: nat, m: nat)
    requires v < Pow2(n)
    ensures BitsOf(v, n + m) == BitsOf(v, n) + Zeros(m)
  {
    if n > 0 {
      BitsOfSmall(v / 2, n - 1, m);
    } else if m > 0 {
      BitsOfSmall(0, 0, m - 1);
      assert Zeros(m) == [false] + Zeros(m - 1);
    }
  }

  function Xor(x: Bits, y: Bits): (z: Bits)
    requires |x| == |y|
    ensures |z| == |x| && forall i :: 0 <= i < |z| ==> z[i] == (x[i] != y[i])
  {
    seq(|x|, i requires 0 <= i < |x| => x[i] != y[i])
  }

  lemma XorAssoc(x: Bits, y: Bits, z: Bits)
    requires |x| == |y| == |z|
    ensures Xor(Xor(x, y), z) == Xor(x, Xor(y, z))
  {
  }

  // ------------------------------------------------------------------ the definition

  function Polynomial(): (p: Bits)
    ensures |p| == 32
  {
    hide BitsOf;
    BitsOf(0xEDB88320, 32)
  }

  /** The terms below x^32 of the generator polynomial of section 8.1.1.6.2 of ITU-T V.42. */
  const EXPONENTS: set<nat> := {26, 23, 22, 16, 12, 11, 10, 8, 7, 5, 4, 2, 1, 0}

  /** The bits of 0x8320 and of 0xEDB8. */
  const LOW: Bits := [false, false, false, false, false, true, false, false,
                      true, true, false, false, false, false, false, true]
  const HIGH: Bits := [false, false, false, true, true, true, false, true,
                       true, false, true, true, false, true, true, true]

  lemma LowBits()
    ensures BitsOf(0xEDB88320, 32) == LOW + BitsOf(0xEDB8, 16)
  {
    hide BitsOf;
    FourBits(0xEDB88320, 28);
    FourBits(0xEDB8832, 24);
    FourBits(0xEDB883, 20);
    FourBits(0xEDB88, 16);
  }

  lemma HighBits()
    ensures BitsOf(0xEDB8, 16) == HIGH
  {
    hide BitsOf;
    FourBits(0xEDB8, 12);
    FourBits(0xEDB, 8);
    FourBits(0xED, 4);
    FourBits(0xE, 0);
    NoBits();
  }

  lemma NoBits()
    ensures BitsOf(0, 0) == []
  {
  }

  lemma FourBits(v: nat, n: nat)
    ensures BitsOf(v, n + 4) == [v % 2 == 1, v / 2 % 2 == 1, v / 2 / 2 % 2 == 1, v / 2 / 2 / 2 % 2 == 1] + BitsOf(v / 16, n)
  {
    SixteenParts(v);
    assert BitsOf(v / 2, n + 3) == [v / 2 % 2 == 1] + BitsOf(v / 2 / 2, n + 2);
    assert BitsOf(v / 2 / 2, n + 2) == [v / 2 / 2 % 2 == 1] + BitsOf(v / 2 / 2 / 2, n + 1);
  }

  lemma SixteenParts(v: nat)
    ensures v / 2 / 2 / 2 / 2 == v / 16
  {
  }

  /** The constant is the polynomial with its terms in reverse order: bit 31 - e stands for x^e. */
  lemma PolynomialTerms(e: nat)
    requires e < 32
    ensures Polynomial()[31 - e] <==> e in EXPONENTS
  {
    hide BitsOf;
    LowBits();
    HighBits();
  }

  function ShiftRight(c: Bits, k: nat): (r: Bits)
    requires k <= |c|
    ensures |r| == |c|
  {
    c[k..] + Zeros(k)
  }

  function Shift(c: Bits): (r: Bits)
    requires IsWord(c)
    ensures IsWord(r)
  {
    if c[0] then Xor(ShiftRight(c, 1), Polynomial()) else ShiftRight(c, 1)
  }

  function Shifts(n: nat, c: Bits): (r: Bits)
    requires IsWord(c)
    ensures IsWord(r)
  {
    if n == 0 then c else Shifts(n - 1, Shift(c))
  }

  /** The byte d as the low bits of a word, moved up by `up` bits. */
  function ByteAt(d: byte, up: nat): (w: Bits)
    requires up <= 24
    ensures IsWord(w)
  {
    Zeros(up) + BitsOf(d, 8) + Zeros(24 - up)
  }

  /** The CRC of the data, bit by bit. */
  function Crc(data: seq<byte>, c: Bits): (r: Bits)
    requires IsWord(c)
    ensures IsWord(r)
    decreases |data|
  {
    if data == [] then c else Crc(data[1..], Shifts(8, Xor(c, ByteAt(data[0], 0))))
  }

  /** Updating over two pieces is updating over their concatenation. */
  lemma {:induction false} CrcAppend(a: seq<byte>, b: seq<byte>, c: Bits)
    requires IsWord(c)
    ensures Crc(a + b, c) == Crc(b, Crc(a, c))
    decreases |a|
  {
    hide Shifts;
    if a == [] {
      assert a + b == b;
    } else {
      assert (a + b)[1..] == a[1..] + b;
      CrcAppend(a[1..], b, Shifts(8, Xor(c, ByteAt(a[0], 0))));
    }
  }

  // ------------------------------------------------------------------ shifting is linear

  lemma ShiftXor(x: Bits, y: Bits)
    requires IsWord(x) && IsWord(y)
    ensures Shift(Xor(x, y)) == Xor(Shift(x), Shift(y))
  {
    hide Polynomial;
    var p := Polynomial();
    assert ShiftRight(Xor(x, y), 1) == Xor(ShiftRight(x, 1), ShiftRight(y, 1));
    assert Shift(Xor(x, y)) == Xor(Shift(x), Shift(y));
  }

  lemma {:induction false} ShiftsXor(n: nat, x: Bits, y: Bits)
    requires IsWord(x) && IsWord(y)
    ensures Shifts(n, Xor(x, y)) == Xor(Shifts(n, x), Shifts(n, y))
  {
    hide Shift;
    if n > 0 {
      ShiftXor(x, y);
      ShiftsXor(n - 1, Shift(x), Shift(y));
    }
  }

  lemma {:induction false} ShiftsAdd(m: nat, n: nat, c: Bits)
    requires IsWord(c)
    ensures Shifts(m + n, c) == Shifts(n, Shifts(m, c))
  {
    hide Shift;
    if m > 0 {
      ShiftsAdd(m - 1, n, Shift(c));
    }
  }

  /** Bits above k zero bits just move down. */
  lemma {:induction false} ShiftsHigh(k: nat, c: Bits)
    requires IsWord(c) && k <= 32 && c[..k] == Zeros(k)
    ensures Shifts(k, c) == ShiftRight(c, k)
  {
    if k > 0 {
      assert c[0] == c[..k][0] == false;
      var d := Shift(c);
      assert d == ShiftRight(c, 1);
      forall i | 0 <= i < k - 1
        ensures d[i] == false
      {
        assert d[i] == c[..k][i + 1];
      }
      assert d[..k - 1] == Zeros(k - 1);
      ShiftsHigh(k - 1, d);
      assert ShiftRight(d, k - 1) == ShiftRight(c, k);
    } else {
      assert ShiftRight(c, 0) == c;
    }
  }

  /** A byte taken up after 8 j bits is a byte that stood 8 j bits higher in the word. */
  lemma Absorb(j: nat, w: Bits, d: byte)
    requires IsWord(w) && j <= 3
    ensures Shifts(8, Xor(Shifts(8 * j, w), ByteAt(d, 0))) == Shifts(8 * j + 8, Xor(w, ByteAt(d, 8 * j)))
  {
    hide Shifts, Shift;
    var up := ByteAt(d, 8 * j);
    assert up[..8 * j] == Zeros(8 * j);
    ShiftsHigh(8 * j, up);
    assert ShiftRight(up, 8 * j) == ByteAt(d, 0);
    ShiftsXor(8 * j, w, up);
    ShiftsAdd(8 * j, 8, Xor(w, up));
  }

  // ------------------------------------------------------------------ one table

  /** The low byte of a word, as a number. */
  function LowByte(w: Bits): (i: nat)
    requires IsWord(w)
    ensures i < 256
  {
    ByteValue(w[..8])
  }

  function ByteValue(b: Bits): (i: nat)
    requires |b| == 8
    ensures i < 256
  {
    BitsOfValue(b);
    EightBits();
    Value(b)
  }

  lemma EightBits()
    ensures Pow2(8) == 256
  {
    assert Pow2(4) == 16;
  }

  /** Entry i of the table: eight shifts over the byte i. */
  function Entry(n: nat, i: nat): (w: Bits)
    requires i < 256
    ensures IsWord(w)
  {
    Shifts(n, ByteAt(i, 0))
  }

  ghost predicate IsTable(tab: seq<Bits>) {
    |tab| == 256 && forall i :: 0 <= i < 256 ==> tab[i] == Entry(8, i)
  }

  lemma WordOfByte(i: nat)
    requires i < 256
    ensures BitsOf(i, 32) == ByteAt(i, 0)
  {
    hide BitsOf;
    EightBits();
    BitsOfSmall(i, 8, 24);
    assert Zeros(0) + BitsOf(i, 8) == BitsOf(i, 8);
  }

  /** The low byte through the table, the rest moved down: eight shifts. */
  lemma TableStep(w: Bits)
    requires IsWord(w)
    ensures Shifts(8, w) == Xor(Entry(8, LowByte(w)), ShiftRight(w, 8))
  {
    hide Shifts, BitsOf, Value;
    var low, high := ByteAt(LowByte(w), 0), Zeros(8) + w[8..];
    BitsOfValue(w[..8]);
    assert BitsOf(LowByte(w), 8) == w[..8];
    assert low == w[..8] + Zeros(24);
    Halves(w);
    hide Xor, ShiftRight, Zeros;
    ShiftsXor(8, low, high);
    ShiftsHigh(8, high);
  }

  lemma Halves(w: Bits)
    requires IsWord(w)
    ensures Xor(w[..8] + Zeros(24), Zeros(8) + w[8..]) == w
    ensures (Zeros(8) + w[8..])[..8] == Zeros(8) && ShiftRight(Zeros(8) + w[8..], 8) == ShiftRight(w, 8)
  {
  }

  /** Another eight shifts over an entry, through the table. */
  lemma EntryNext(n: nat, i: nat)
    requires i < 256
    ensures
      var c := Entry(n, i);
      Entry(n + 8, i) == Xor(Entry(8, LowByte(c)), ShiftRight(c, 8))
  {
    hide Shifts, ByteAt, LowByte;
    ShiftsAdd(n, 8, ByteAt(i, 0));
    TableStep(Entry(n, i));
  }

  /** One byte of data through the table. */
  lemma ByteStep(c: Bits, d: byte)
    requires IsWord(c)
    ensures
      var w := Xor(c, ByteAt(d, 0));
      Shifts(8, w) == Xor(Entry(8, LowByte(w)), ShiftRight(c, 8))
  {
    hide Shifts, BitsOf, LowByte, Entry;
    var w := Xor(c, ByteAt(d, 0));
    TableStep(w);
    assert w[8..] == c[8..];
  }

  // ------------------------------------------------------------------ eight tables

  /** The word loaded from four bytes. */
  function Load(d: seq<byte>): (w: Bits)
    requires |d| == 4
    ensures IsWord(w)
  {
    BitsOf(d[0], 8) + BitsOf(d[1], 8) + BitsOf(d[2], 8) + BitsOf(d[3], 8)
  }

  lemma LoadIs(d: seq<byte>)
    requires |d| == 4
    ensures Load(d) == Xor(Xor(Xor(ByteAt(d[0], 0), ByteAt(d[1], 8)), ByteAt(d[2], 16)), ByteAt(d[3], 24))
  {
    hide BitsOf;
  }

  /** Four bytes of data are one word taken up before 32 shifts. */
  lemma FourBytes(c: Bits, d: seq<byte>)
    requires IsWord(c) && |d| == 4
    ensures Crc(d, c) == Shifts(32, Xor(c, Load(d)))
  {
    hide Shifts, Load, ByteAt;
    var b0, b1, b2, b3 := ByteAt(d[0], 0), ByteAt(d[1], 8), ByteAt(d[2], 16), ByteAt(d[3], 24);
    NoShifts(c);
    Absorb(0, c, d[0]);
    Absorb(1, Xor(c, b0), d[1]);
    Absorb(2, Xor(Xor(c, b0), b1), d[2]);
    Absorb(3, Xor(Xor(Xor(c, b0), b1), b2), d[3]);
    CrcFour(d, c);
    LoadIs(d);
    hide Xor;
    XorAssoc(c, b0, b1);
    XorAssoc(c, Xor(b0, b1), b2);
    XorAssoc(c, Xor(Xor(b0, b1), b2), b3);
  }

  lemma NoShifts(c: Bits)
    requires IsWord(c)
    ensures Shifts(0, c) == c
  {
  }

  lemma CrcFour(d: seq<byte>, c: Bits)
    requires IsWord(c) && |d| == 4
    ensures
      var c1 := Shifts(8, Xor(c, ByteAt(d[0], 0)));
      var c2 := Shifts(8, Xor(c1, ByteAt(d[1], 0)));
      var c3 := Shifts(8, Xor(c2, ByteAt(d[2], 0)));
      Crc(d, c) == Shifts(8, Xor(c3, ByteAt(d[3], 0)))
  {
    hide Shifts, Xor, ByteAt;
    assert d[1..][1..] == d[2..] && d[2..][1..] == d[3..] && d[3..][1..] == [];
    var c1 := Shifts(8, Xor(c, ByteAt(d[0], 0)));
    var c2 := Shifts(8, Xor(c1, ByteAt(d[1], 0)));
    var c3 := Shifts(8, Xor(c2, ByteAt(d[2], 0)));
    CrcHead(d, c);
    CrcHead(d[1..], c1);
    CrcHead(d[2..], c2);
    CrcHead(d[3..], c3);
  }

  lemma CrcHead(d: seq<byte>, c: Bits)
    requires IsWord(c) && d != []
    ensures Crc(d, c) == Crc(d[1..], Shifts(8, Xor(c, ByteAt(d[0], 0))))
    ensures d[1..] == [] ==> Crc(d, c) == Shifts(8, Xor(c, ByteAt(d[0], 0)))
  {
  }

  /** Byte k of a word. */
  function ByteOf(w: Bits, k: nat): (i: nat)
    requires IsWord(w) && k < 4
    ensures i < 256
  {
    ByteValue(w[8 * k..8 * k + 8])
  }

  /** The shifts of a word are the shifts of its bytes, each the shorter the higher it stands. */
  lemma SplitWord(w: Bits, n: nat)
    requires IsWord(w) && 24 <= n
    ensures Shifts(n, w) ==
            Xor(Xor(Xor(Entry(n, ByteOf(w, 0)), Entry(n - 8, ByteOf(w, 1))), Entry(n - 16, ByteOf(w, 2))),
                Entry(n - 24, ByteOf(w, 3)))
  {
    hide Shifts;
    var p0, p1, p2, p3 := Part(w, 0), Part(w, 1), Part(w, 2), Part(w, 3);
    assert w == Xor(Xor(Xor(p0, p1), p2), p3);
    ShiftsXor(n, Xor(Xor(p0, p1), p2), p3);
    ShiftsXor(n, Xor(p0, p1), p2);
    ShiftsXor(n, p0, p1);
    hide Xor, Part, ByteOf;
    PartShifts(w, n, 0);
    PartShifts(w, n, 1);
    PartShifts(w, n, 2);
    PartShifts(w, n, 3);
  }

  function Part(w: Bits, k: nat): (p: Bits)
    requires IsWord(w) && k < 4
    ensures IsWord(p)
  {
    Zeros(8 * k) + w[8 * k..8 * k + 8] + Zeros(24 - 8 * k)
  }

  lemma PartShifts(w: Bits, n: nat, k: nat)
    requires IsWord(w) && k < 4 && 8 * k <= n
    ensures Shifts(n, Part(w, k)) == Entry(n - 8 * k, ByteOf(w, k))
  {
    hide Shifts, BitsOf, Value;
    var p, b := Part(w, k), w[8 * k..8 * k + 8];
    ShiftsAdd(8 * k, n - 8 * k, p);
    assert p[..8 * k] == Zeros(8 * k);
    ShiftsHigh(8 * k, p);
    BitsOfValue(b);
    assert ShiftRight(p, 8 * k) == ByteAt(ByteOf(w, k), 0);
  }

  /** Eight bytes of data: 64 shifts over the first word, 32 over the second. */
  lemma EightBytes(c: Bits, d: seq<byte>)
    requires IsWord(c) && |d| == 8
    ensures Crc(d, c) == Xor(Shifts(64, Xor(c, Load(d[..4]))), Shifts(32, Load(d[4..])))
  {
    hide Shifts, Load, Crc, Xor;
    assert d[..4] + d[4..] == d;
    CrcAppend(d[..4], d[4..], c);
    FourBytes(c, d[..4]);
    FourBytes(Crc(d[..4], c), d[4..]);
    var lo, hi := Xor(c, Load(d[..4])), Load(d[4..]);
    ShiftsXor(32, Shifts(32, lo), hi);
    ShiftsAdd(32, 32, lo);
  }

  lemma ShiftsStep(n: nat, c: Bits)
    requires IsWord(c)
    ensures Shifts(n + 1, c) == Shift(Shifts(n, c))
  {
    ShiftsAdd(n, 1, c);
    OneShift(Shifts(n, c));
  }

  lemma ShiftIs(c: Bits)
    requires IsWord(c)
    ensures Shift(c) == if c[0] then Xor(ShiftRight(c, 1), Polynomial()) else ShiftRight(c, 1)
  {
  }

  lemma OneShift(c: Bits)
    requires IsWord(c)
    ensures Shifts(1, c) == Shift(c)
  {
    NoShifts(Shift(c));
  }

  /** The tables of the program, zero until they are first needed. */
  class CrcTables {
    const tab: array<Bits>
    const tab8: array2<Bits>
    var initialized: bool

    ghost predicate Sliced()
      reads tab8
    {
      && tab8.Length0 == 8 && tab8.Length1 == 256
      && forall k, i :: 0 <= k < 8 && 0 <= i < 256 ==> tab8[k, i] == Entry(8 * k + 8, i)
    }

    ghost predicate Valid()
      reads this, tab, tab8
    {
      && tab.Length == 256 && tab8.Length0 == 8 && tab8.Length1 == 256
      && (tab[1] == Zeros(32) || IsTable(tab[..]))
      && (initialized ==> IsTable(tab[..]) && Sliced())
    }

    constructor ()
      ensures Valid() && !initialized && fresh(tab) && fresh(tab8)
    {
      tab := new Bits[256](_ => Zeros(32));
      tab8 := new Bits[8, 256]((_, _) => Zeros(32));
      initialized := false;
    }

    method InitCRC()
      requires tab.Length == 256
      modifies tab
      ensures IsTable(tab[..])
    {
      hide Shifts, Shift, ByteAt, BitsOf;
      for i := 0 to 256
        invariant forall k :: 0 <= k < i ==> tab[k] == Entry(8, k)
      {
        var c := BitsOf(i, 32);
        WordOfByte(i);
        NoShifts(c);
        for j := 0 to 8
          invariant IsWord(c) && c == Shifts(j, ByteAt(i, 0))
          invariant forall k :: 0 <= k < i ==> tab[k] == Entry(8, k)
        {
          ShiftsStep(j, ByteAt(i, 0));
          ShiftIs(c);
          c := if c[0] then Xor(ShiftRight(c, 1), Polynomial()) else ShiftRight(c, 1);
        }
        tab[i] := c;
      }
    }

    method InitCRCSlice8()
      requires Valid()
      modifies this, tab, tab8
      ensures Valid() && initialized
    {
      hide Entry, LowByte;
      if tab[1] == Zeros(32) {
        InitCRC();
      }
      for i := 0 to 256
        invariant IsTable(tab[..]) && forall k :: 0 <= k < i ==> tab8[0, k] == Entry(8, k)
      {
        tab8[0, i] := tab[i];
      }
      for i := 0 to 256
        invariant IsTable(tab[..]) && forall k :: 0 <= k < 256 ==> tab8[0, k] == Entry(8, k)
        invariant forall k, m :: 0 <= k < 8 && 0 <= m < i ==> tab8[k, m] == Entry(8 * k + 8, m)
      {
        var c := tab8[0, i];
        for k := 1 to 8
          invariant IsTable(tab[..]) && forall m :: 0 <= m < 256 ==> tab8[0, m] == Entry(8, m)
          invariant forall n, m :: 0 <= n < 8 && 0 <= m < i ==> tab8[n, m] == Entry(8 * n + 8, m)
          invariant forall n :: 0 <= n < k ==> tab8[n, i] == Entry(8 * n + 8, i)
          invariant c == Entry(8 * k, i)
        {
          EntryNext(8 * k, i);
          c := Xor(tab8[0, LowByte(c)], ShiftRight(c, 8));
          tab8[k, i] := c;
        }
      }
      initialized := true;
    }

    /** The CRC of the data from a given start value. */
    method UpdateCRC(data: seq<byte>, startCRC: Bits) returns (crc: Bits)
      requires Valid() && IsWord(startCRC)
      modifies this, tab, tab8
      ensures Valid() && IsWord(crc) && crc == Crc(data, startCRC)
    {
      hide Entry, LowByte, ByteOf, Load, Shifts, ByteAt, Xor;
      if !initialized {
        InitCRCSlice8();
      }
      crc := startCRC;
      var p := 0;
      while |data| - p >= 8
        invariant 0 <= p <= |data| && IsWord(crc) && Crc(data[p..], crc) == Crc(data, startCRC)
        invariant Valid() && initialized
      {
        var eight := data[p..p + 8];
        var lo := Xor(crc, Load(eight[..4]));
        var hi := Load(eight[4..]);
        assert data[p..] == eight + data[p + 8..];
        CrcAppend(eight, data[p + 8..], crc);
        EightBytes(crc, eight);
        SplitWord(lo, 64);
        SplitWord(hi, 32);
        var high := Xor(Xor(Xor(tab8[7, ByteOf(lo, 0)], tab8[6, ByteOf(lo, 1)]), tab8[5, ByteOf(lo, 2)]), tab8[4, ByteOf(lo, 3)]);
        crc := Xor(Xor(Xor(Xor(high, tab8[3, ByteOf(hi, 0)]), tab8[2, ByteOf(hi, 1)]), tab8[1, ByteOf(hi, 2)]), tab8[0, ByteOf(hi, 3)]);
        XorChain(high, tab8[3, ByteOf(hi, 0)], tab8[2, ByteOf(hi, 1)], tab8[1, ByteOf(hi, 2)], tab8[0, ByteOf(hi, 3)]);
        p := p + 8;
      }
      while p < |data|
        invariant 0 <= p <= |data| && IsWord(crc) && Crc(data[p..], crc) == Crc(data, startCRC)
        invariant Valid() && initialized
      {
        ByteStep(crc, data[p]);
        CrcHead(data[p..], crc);
        assert data[p..][1..] == data[p + 1..];
        crc := Xor(tab[LowByte(Xor(crc, ByteAt(data[p], 0)))], ShiftRight(crc, 8));
        p := p + 1;
      }
    }
  }

  lemma XorChain(h: Bits, a: Bits, b: Bits, c: Bits, d: Bits)
    requires IsWord(h) && IsWord(a) && IsWord(b) && IsWord(c) && IsWord(d)
    ensures Xor(Xor(Xor(Xor(h, a), b), c), d) == Xor(h, Xor(Xor(Xor(a, b), c), d))
  {
    hide Xor;
    XorAssoc(h, a, b);
    XorAssoc(h, Xor(a, b), c);
    XorAssoc(h, Xor(Xor(a, b), c), d);
  }
}
