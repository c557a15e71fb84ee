/**
  The LZ4 block format: sequences of literals and matches as lz4.c writes them, the decoder of lz4.c as a
  function on values, and the facts that tie the two together.
 */
module Lz4Format {
  import opened Bytes

  /** Literals copied as they are, then a match of the given length so far back. */
  datatype Sequence = Sequence(literals: nat, offset: nat, length: nat)

  const MINMATCH: nat := 4
  const LASTLITERALS: nat := 5
  const MFLIMIT: nat := 12
  const DISTANCE_MAX: nat := 65535

  // ------------------------------------------------------------------ parses and their bytes

  /** The text from p repeats what is `offset` bytes before it; the two may overlap. */
  predicate Repeats(x: seq<byte>, p: nat, offset: nat, length: nat) {
    && 1 <= offset <= p && p + length <= |x|
    && forall k :: p <= k < p + length ==> x[k] == x[k - offset]
  }

  /** A match at p the format allows: near enough, long enough, and clear of the end of the block. */
  predicate Allowed(x: seq<byte>, p: nat, offset: nat, length: nat) {
    && Repeats(x, p, offset, length) && offset <= DISTANCE_MAX && MINMATCH <= length
    && p + MFLIMIT <= |x| && p + length + LASTLITERALS <= |x|
  }

  function End(pos: nat, s: seq<Sequence>): nat
    decreases |s|
  {
    if s == [] then pos else End(pos + s[0].literals + s[0].length, s[1..])
  }

  /** The sequences cover the block from pos to End(pos, s). */
  predicate Parses(x: seq<byte>, pos: nat, s: seq<Sequence>)
    decreases |s|
  {
    if s == [] then
      pos <= |x|
    else
      && Allowed(x, pos + s[0].literals, s[0].offset, s[0].length)
      && Parses(x, pos + s[0].literals + s[0].length, s[1..])
  }

  function LengthBytes(n: nat): (s: seq<byte>)
    ensures 1 <= |s|
  {
    if n >= 255 then [255] + LengthBytes(n - 255) else [n]
  }

  function Extra(n: nat): seq<byte> {
    if n >= 15 then LengthBytes(n - 15) else []
  }

  function Nibble(n: nat): (v: nat)
    ensures v <= 15
  {
    if n >= 15 then 15 else n
  }

  /** Token, literal length and literals of a sequence starting at pos. */
  function LiteralBytes(x: seq<byte>, pos: nat, literals: nat, code: nat): seq<byte>
    requires pos + literals <= |x| && code <= 15
  {
    [Nibble(literals) * 16 + code] + Extra(literals) + x[pos..pos + literals]
  }

  function OffsetBytes(offset: nat): seq<byte>
    requires offset <= DISTANCE_MAX
  {
    [offset % 256, offset / 256]
  }

  function SequenceBytes(x: seq<byte>, pos: nat, q: Sequence): seq<byte>
    requires Allowed(x, pos + q.literals, q.offset, q.length)
  {
    LiteralBytes(x, pos, q.literals, Nibble(q.length - MINMATCH)) + OffsetBytes(q.offset) + Extra(q.length - MINMATCH)
  }

  function Body(x: seq<byte>, pos: nat, s: seq<Sequence>): seq<byte>
    requires Parses(x, pos, s)
    decreases |s|
  {
    if s == [] then [] else SequenceBytes(x, pos, s[0]) + Body(x, pos + s[0].literals + s[0].length, s[1..])
  }

  /** The block for a parse: its sequences, then all remaining bytes as literals. */
  function Block(x: seq<byte>, pos: nat, s: seq<Sequence>): seq<byte>
    requires Parses(x, pos, s)
    decreases |s|
  {
    if s == [] then
      LiteralBytes(x, pos, |x| - pos, 0)
    else
      SequenceBytes(x, pos, s[0]) + Block(x, pos + s[0].literals + s[0].length, s[1..])
  }

  lemma {:induction false} ParsesEnd(x: seq<byte>, pos: nat, s: seq<Sequence>)
    requires Parses(x, pos, s)
    ensures pos <= End(pos, s) <= |x|
    ensures Block(x, pos, s) == Body(x, pos, s) + LiteralBytes(x, End(pos, s), |x| - End(pos, s), 0)
    decreases |s|
  {
    hide SequenceBytes, LiteralBytes, Repeats;
    if s != [] {
      var next := pos + s[0].literals + s[0].length;
      ParsesEnd(x, next, s[1..]);
      assert Body(x, pos, s) == SequenceBytes(x, pos, s[0]) + Body(x, next, s[1..]);
    }
  }

  lemma {:induction false} ParsesLast(x: seq<byte>, pos: nat, s: seq<Sequence>)
    requires Parses(x, pos, s) && s != []
    ensures End(pos, s) + LASTLITERALS <= |x|
    decreases |s|
  {
    hide Repeats;
    if |s| > 1 {
      ParsesLast(x, pos + s[0].literals + s[0].length, s[1..]);
    }
  }

  lemma ParsesOne(x: seq<byte>, pos: nat, q: Sequence)
    requires Allowed(x, pos + q.literals, q.offset, q.length)
    ensures Parses(x, pos, [q]) && End(pos, [q]) == pos + q.literals + q.length
    ensures Body(x, pos, [q]) == SequenceBytes(x, pos, q)
  {
    hide SequenceBytes;
    assert [q][1..] == [];
    assert End(pos, [q]) == End(pos + q.literals + q.length, []);
  }

  /** One more sequence at the end. */
  lemma {:induction false} ParsesSnoc(x: seq<byte>, pos: nat, s: seq<Sequence>, q: Sequence)
    requires Parses(x, pos, s) && Allowed(x, End(pos, s) + q.literals, q.offset, q.length)
    ensures Parses(x, pos, s + [q]) && End(pos, s + [q]) == End(pos, s) + q.literals + q.length
    ensures Body(x, pos, s + [q]) == Body(x, pos, s) + SequenceBytes(x, End(pos, s), q)
    decreases |s|
  {
    hide SequenceBytes, Allowed;
    if s == [] {
      ParsesOne(x, pos, q);
      assert s + [q] == [q];
    } else {
      var next := pos + s[0].literals + s[0].length;
      assert (s + [q])[1..] == s[1..] + [q];
      ParsesSnoc(x, next, s[1..], q);
      assert Body(x, pos, s + [q]) == SequenceBytes(x, pos, s[0]) + Body(x, next, s[1..] + [q]);
    }
  }

  // ------------------------------------------------------------------ LZ4_compressBound

  lemma {:induction false} LengthBytesSize(n: nat)
    ensures |LengthBytes(n)| == n / 255 + 1
  {
    if n >= 255 {
      LengthBytesSize(n - 255);
    }
  }

  lemma ExtraSize(n: nat)
    ensures |Extra(n)| <= n / 255 + 1 && |Extra(n)| <= n
  {
    if n >= 15 {
      LengthBytesSize(n - 15);
    }
  }

  /** A sequence never grows the output by more than one byte in 255. */
  lemma SequenceSize(x: seq<byte>, pos: nat, q: Sequence)
    requires Allowed(x, pos + q.literals, q.offset, q.length)
    ensures |SequenceBytes(x, pos, q)| <= q.literals + q.length + q.literals / 255
  {
    ExtraSize(q.literals);
    ExtraSize(q.length - MINMATCH);
  }

  lemma {:induction false} BodySize(x: seq<byte>, pos: nat, s: seq<Sequence>)
    requires Parses(x, pos, s)
    ensures |Body(x, pos, s)| <= End(pos, s) - pos + (End(pos, s) - pos) / 255
    decreases |s|
  {
    hide SequenceBytes, Allowed, LiteralBytes;
    if s != [] {
      var next := pos + s[0].literals + s[0].length;
      SequenceSize(x, pos, s[0]);
      BodySize(x, next, s[1..]);
      ParsesEnd(x, next, s[1..]);
    }
  }

  lemma {:induction false} BlockMin(x: seq<byte>, pos: nat, s: seq<Sequence>)
    requires Parses(x, pos, s) && pos + LASTLITERALS <= |x|
    ensures |Block(x, pos, s)| >= 1 + LASTLITERALS
    decreases |s|
  {
    if s != [] {
      BlockMin(x, pos + s[0].literals + s[0].length, s[1..]);
    }
  }

  /** A block holds the bytes of its sequences, and at least five literals with their token behind them. */
  lemma {:induction false} BlockHolds(x: seq<byte>, pos: nat, s: seq<Sequence>, q: Sequence, rest: seq<Sequence>)
    requires Parses(x, pos, s + ([q] + rest)) && Parses(x, pos, s)
    requires Allowed(x, End(pos, s) + q.literals, q.offset, q.length)
    ensures |Block(x, pos, s + ([q] + rest))| >= |Body(x, pos, s)| + |SequenceBytes(x, End(pos, s), q)| + 1 + LASTLITERALS
    decreases |s|
  {
    hide SequenceBytes, Repeats, LiteralBytes;
    var all := s + ([q] + rest);
    if s == [] {
      assert all == [q] + rest && all[1..] == rest;
      BlockMin(x, pos + q.literals + q.length, rest);
    } else {
      assert all[1..] == s[1..] + ([q] + rest);
      BlockHolds(x, pos + s[0].literals + s[0].length, s[1..], q, rest);
    }
  }

  /** However the block is parsed, its code fits LZ4_COMPRESSBOUND. */
  lemma BlockSize(x: seq<byte>, s: seq<Sequence>)
    requires Parses(x, 0, s)
    ensures |Block(x, 0, s)| <= |x| + |x| / 255 + 16
  {
    BodySize(x, 0, s);
    ParsesEnd(x, 0, s);
    ExtraSize(|x| - End(0, s));
  }

  // ------------------------------------------------------------------ the decoder as a function

  datatype Outcome = Done(output: seq<byte>) | Failed(at: nat)
  datatype Length = Known(value: nat, next: nat) | Bad(at: nat)

  /** read_variable_length without its initial test. */
  function ReadMore(src: seq<byte>, ip: nat, limit: int, sum: nat): (r: Length)
    requires ip < |src| && limit < |src|
    ensures r.Known? ==> ip < r.next <= limit
    decreases |src| - ip
  {
    if ip + 1 > limit then Bad(ip + 1)
    else if src[ip] != 255 then Known(sum + src[ip], ip + 1)
    else ReadMore(src, ip + 1, limit, sum + src[ip])
  }

  /** read_variable_length with its initial test. */
  function ReadLength(src: seq<byte>, ip: nat, limit: int): (r: Length)
    requires limit < |src|
    ensures r.Known? ==> ip < r.next <= limit
  {
    if ip >= limit then Bad(ip) else ReadMore(src, ip, limit, 0)
  }

  /** The copy of a match one byte at a time; an offset of 0 yields zeros. */
  function Repeated(out: seq<byte>, offset: nat, n: nat): (r: seq<byte>)
    requires offset <= |out|
    ensures |r| == |out| + n && r[..|out|] == out
    decreases n
  {
    if n == 0 then out
    else
      var next := out + [if offset == 0 then 0 else out[|out| - offset]];
      var r := Repeated(next, offset, n - 1);
      assert r[..|out|] == r[..|next|][..|out|] == out;
      r
  }

  /** Little-endian 16 bits. */
  function Offset(src: seq<byte>, ip: nat): nat
    requires ip + 2 <= |src|
  {
    Word16(src[ip], src[ip + 1])
  }

  function Word16(low: nat, high: nat): nat {
    low + 256 * high
  }

  /** The two-stage shortcut is open: few literals, and both buffers far from their ends. */
  predicate Shortcut(src: seq<byte>, ip: nat, out: seq<byte>, capacity: nat, literals: nat) {
    literals != 15 && ip < |src| - 16 && |out| <= capacity - 32
  }

  /** The safe loop from a token on. */
  function DecodeFrom(src: seq<byte>, ip: nat, out: seq<byte>, capacity: nat): Outcome
    requires ip < |src| && |out| <= capacity
    decreases |src| - ip, 1
  {
    var literals, code := src[ip] / 16, src[ip] % 16;
    if Shortcut(src, ip + 1, out, capacity, literals) then
      DecodeMatch(src, ip + 1 + literals, out + src[ip + 1..ip + 1 + literals], code, capacity, true)
    else
      var l := if literals == 15 then ReadLength(src, ip + 1, |src| - 15) else Known(0, ip + 1);
      if l.Bad? then
        Failed(l.at)
      else
        var n := literals + l.value;
        if |out| + n > capacity - MFLIMIT || l.next + n > |src| - 8 then
          if l.next + n != |src| || |out| + n > capacity then Failed(l.next)
          else Done(out + src[l.next..l.next + n])
        else
          DecodeMatch(src, l.next + n, out + src[l.next..l.next + n], code, capacity, false)
  }

  /** The safe loop from an offset on; `short` when the literals took the shortcut. */
  function DecodeMatch(src: seq<byte>, ip: nat, out: seq<byte>, code: nat, capacity: nat, short: bool): Outcome
    requires code <= 15 && |out| <= capacity
    requires if short then ip + 2 < |src| && |out| + 18 <= capacity else ip + 8 <= |src| && |out| + 12 <= capacity
    decreases |src| - ip, 0
  {
    var offset := Offset(src, ip);
    if short && code != 15 && offset >= 8 && offset <= |out| then
      DecodeFrom(src, ip + 2, Repeated(out, offset, code + 4), capacity)
    else
      var l := if code == 15 then ReadMore(src, ip + 2, |src| - 4, 0) else Known(0, ip + 2);
      if l.Bad? then
        Failed(l.at)
      else
        var n := code + l.value + 4;
        if offset > |out| || |out| + n > capacity - LASTLITERALS then Failed(l.next)
        else DecodeFrom(src, l.next, Repeated(out, offset, n), capacity)
  }

  /** LZ4_decompress_safe. */
  function Decompressed(src: seq<byte>, capacity: nat): Outcome {
    if capacity == 0 then if src == [0] then Done([]) else Failed(0)
    else if src == [] then Failed(0)
    else DecodeFrom(src, 0, [], capacity)
  }

  // ------------------------------------------------------------------ round trip

  lemma {:induction false} ReadLengthBytes(src: seq<byte>, ip: nat, limit: int, sum: nat, n: nat)
    requires limit < |src| && ip <= |src| && LengthBytes(n) <= src[ip..] && ip + |LengthBytes(n)| <= limit
    ensures ip < |src| && ReadMore(src, ip, limit, sum) == Known(sum + n, ip + |LengthBytes(n)|)
    decreases n
  {
    assert src[ip] == src[ip..][0];
    if n >= 255 {
      assert src[ip + 1..] == src[ip..][1..];
      assert LengthBytes(n)[1..] == LengthBytes(n - 255);
      ReadLengthBytes(src, ip + 1, limit, sum + 255, n - 255);
    }
  }

  lemma {:induction false} RepeatedPrefix(x: seq<byte>, p: nat, offset: nat, n: nat)
    requires Repeats(x, p, offset, n)
    ensures Repeated(x[..p], offset, n) == x[..p + n]
    decreases n
  {
    if n > 0 {
      assert x[..p] + [x[p]] == x[..p + 1];
      RepeatedPrefix(x, p + 1, offset, n - 1);
    }
  }

  /** The decoder reads back the token, the length and the literals of a sequence. */
  lemma ReadLiterals(src: seq<byte>, ip: nat, x: seq<byte>, pos: nat, n: nat, code: nat, rest: seq<byte>)
    requires ip < |src| && pos + n <= |x| && code <= 15
    requires src[ip..] == LiteralBytes(x, pos, n, code) + rest
    ensures src[ip] / 16 == Nibble(n) && src[ip] % 16 == code
    ensures n >= 15 ==> ReadLength(src, ip + 1, |src| - 15) == Known(n - 15, ip + 1 + |Extra(n)|)
    ensures ip + 1 + |Extra(n)| + n <= |src|
    ensures src[ip + 1 + |Extra(n)|..ip + 1 + |Extra(n)| + n] == x[pos..pos + n]
    ensures src[ip + 1 + |Extra(n)| + n..] == rest
  {
    var extra, text := Extra(n), x[pos..pos + n];
    ThreeParts(src, ip, Nibble(n) * 16 + code, extra, text, rest);
    hide Extra, LengthBytes, ReadMore;
    if n >= 15 {
      ExtraIs(n);
      ReadLengthBytes(src, ip + 1, |src| - 15, 0, n - 15);
    }
  }

  /** A byte and three parts behind it. */
  lemma ThreeParts(src: seq<byte>, ip: nat, c: byte, a: seq<byte>, b: seq<byte>, r: seq<byte>)
    requires ip < |src| && src[ip..] == [c] + a + b + r
    ensures ip + 1 + |a| + |b| <= |src| && src[ip] == c
    ensures src[ip + 1..] == a + (b + r) && src[ip + 1..ip + 1 + |a|] == a && a <= src[ip + 1..]
    ensures src[ip + 1 + |a|..ip + 1 + |a| + |b|] == b && src[ip + 1 + |a| + |b|..] == r
  {
    var s := [c] + a + b + r;
    assert src[ip] == src[ip..][0] == s[0];
    assert src[ip + 1..] == src[ip..][1..] == s[1..];
    assert s[1..] == a + (b + r);
    TailParts(src[ip + 1..], a, b, r);
    var t := src[ip + 1..];
    assert src[ip + 1..ip + 1 + |a|] == t[..|a|];
    assert src[ip + 1 + |a|..ip + 1 + |a| + |b|] == t[|a|..|a| + |b|];
    assert src[ip + 1 + |a| + |b|..] == t[|a| + |b|..];
  }

  lemma TailParts(t: seq<byte>, a: seq<byte>, b: seq<byte>, r: seq<byte>)
    requires t == a + (b + r)
    ensures t[..|a|] == a && t[|a|..|a| + |b|] == b && t[|a| + |b|..] == r
  {
    assert t == (a + b) + r;
    assert t[..|a| + |b|] == a + b;
    assert (a + b)[|a|..] == b && t[|a|..|a| + |b|] == (a + b)[|a|..];
  }

  lemma ExtraIs(n: nat)
    ensures Extra(n) == if n >= 15 then LengthBytes(n - 15) else []
  {
  }

  /** The decoder reads back the offset and the length of a match. */
  lemma ReadMatch(src: seq<byte>, ip: nat, offset: nat, c: nat, rest: seq<byte>)
    requires ip <= |src| && offset <= DISTANCE_MAX && LASTLITERALS < |rest|
    requires src[ip..] == OffsetBytes(offset) + Extra(c) + rest
    ensures ip + 2 <= |src| && Offset(src, ip) == offset
    ensures c >= 15 ==> ReadMore(src, ip + 2, |src| - 4, 0) == Known(c - 15, ip + 2 + |Extra(c)|)
    ensures ip + 2 + |Extra(c)| < |src| && src[ip + 2 + |Extra(c)|..] == rest
  {
    hide Extra, LengthBytes, ReadMore;
    var s := src[ip..];
    var e := |Extra(c)|;
    assert src[ip] == s[0] && src[ip + 1] == s[1];
    assert src[ip + 2 + e..] == s[2 + e..];
    if c >= 15 {
      ExtraIs(c);
      assert src[ip + 2..] == s[2..] == LengthBytes(c - 15) + rest;
      ReadLengthBytes(src, ip + 2, |src| - 4, 0, c - 15);
    }
  }

  lemma DecodeLiterals(src: seq<byte>, ip: nat, x: seq<byte>, pos: nat, n: nat, code: nat, rest: seq<byte>, capacity: nat)
    requires ip < |src| && pos + n + MFLIMIT <= |x| <= capacity && code <= 15
    requires src[ip..] == LiteralBytes(x, pos, n, code) + rest && 8 <= |rest|
    ensures
      var at := ip + 1 + |Extra(n)| + n;
      && at + 8 <= |src| && src[at..] == rest
      && (|| DecodeFrom(src, ip, x[..pos], capacity) == DecodeMatch(src, at, x[..pos + n], code, capacity, false)
          || (pos + n + 18 <= capacity &&
              DecodeFrom(src, ip, x[..pos], capacity) == DecodeMatch(src, at, x[..pos + n], code, capacity, true)))
  {
    hide Extra, ReadLength, DecodeMatch;
    ReadLiterals(src, ip, x, pos, n, code, rest);
    assert x[..pos] + x[pos..pos + n] == x[..pos + n];
    ExtraIs(n);
  }

  lemma AllowedRepeats(x: seq<byte>, p: nat, offset: nat, length: nat)
    requires Allowed(x, p, offset, length)
    ensures Repeats(x, p, offset, length) && offset <= p
  {
  }

  lemma DecodeCopy(src: seq<byte>, ip: nat, x: seq<byte>, p: nat, offset: nat, length: nat,
                   rest: seq<byte>, capacity: nat, short: bool)
    requires Allowed(x, p, offset, length) && |x| <= capacity
    requires ip + 8 <= |src| && (short ==> p + 18 <= capacity) && LASTLITERALS < |rest|
    requires src[ip..] == OffsetBytes(offset) + Extra(length - MINMATCH) + rest
    ensures
      var next := ip + 2 + |Extra(length - MINMATCH)|;
      && next < |src| && src[next..] == rest
      && DecodeMatch(src, ip, x[..p], Nibble(length - MINMATCH), capacity, short)
         == DecodeFrom(src, next, x[..p + length], capacity)
  {
    hide Extra, ReadMore, DecodeFrom, Repeated, Repeats, OffsetBytes, Offset;
    AllowedRepeats(x, p, offset, length);
    ReadMatch(src, ip, offset, length - MINMATCH, rest);
    RepeatedPrefix(x, p, offset, length);
    ExtraIs(length - MINMATCH);
  }

  /** One sequence: the decoder goes on behind it with the block extended. */
  lemma DecodeSequence(src: seq<byte>, ip: nat, x: seq<byte>, pos: nat, q: Sequence, rest: seq<byte>, capacity: nat)
    requires Allowed(x, pos + q.literals, q.offset, q.length) && |x| <= capacity
    requires ip < |src| && src[ip..] == SequenceBytes(x, pos, q) + rest && LASTLITERALS < |rest|
    ensures
      var next := ip + |SequenceBytes(x, pos, q)|;
      && next < |src| && src[next..] == rest
      && DecodeFrom(src, ip, x[..pos], capacity) == DecodeFrom(src, next, x[..pos + q.literals + q.length], capacity)
  {
    hide Extra, DecodeFrom, DecodeMatch, Repeats, Nibble;
    var n, c := q.literals, q.length - MINMATCH;
    var tail := OffsetBytes(q.offset) + Extra(c) + rest;
    assert SequenceBytes(x, pos, q) + rest == LiteralBytes(x, pos, n, Nibble(c)) + tail;
    DecodeLiterals(src, ip, x, pos, n, Nibble(c), tail, capacity);
    var at := ip + 1 + |Extra(n)| + n;
    DecodeCopy(src, at, x, pos + n, q.offset, q.length, rest, capacity, false);
    if pos + n + 18 <= capacity {
      DecodeCopy(src, at, x, pos + n, q.offset, q.length, rest, capacity, true);
    }
  }

  lemma DecodeLast(src: seq<byte>, ip: nat, x: seq<byte>, pos: nat, capacity: nat)
    requires pos <= |x| <= capacity
    requires ip < |src| && src[ip..] == LiteralBytes(x, pos, |x| - pos, 0)
    ensures DecodeFrom(src, ip, x[..pos], capacity) == Done(x)
  {
    hide Extra, ReadLength, LiteralBytes, DecodeMatch;
    var n := |x| - pos;
    assert src[ip..] == LiteralBytes(x, pos, n, 0) + [];
    ReadLiterals(src, ip, x, pos, n, 0, []);
    assert src[ip + 1 + |Extra(n)| + n..] == [];
    ExtraIs(n);
    assert x[..pos] + x[pos..pos + n] == x;
  }

  /** Decoding a block from any of its sequences on yields the whole text. */
  lemma {:induction false} DecodeBlock(src: seq<byte>, ip: nat, x: seq<byte>, pos: nat, s: seq<Sequence>, capacity: nat)
    requires Parses(x, pos, s) && pos <= |x| <= capacity
    requires ip < |src| && src[ip..] == Block(x, pos, s)
    ensures DecodeFrom(src, ip, x[..pos], capacity) == Done(x)
    decreases |s|
  {
    hide SequenceBytes, LiteralBytes, Repeats, DecodeFrom;
    if s == [] {
      DecodeLast(src, ip, x, pos, capacity);
    } else {
      var next := pos + s[0].literals + s[0].length;
      var rest := Block(x, next, s[1..]);
      BlockSplit(x, pos, s);
      hide Block;
      BlockEnd(x, next, s[1..]);
      DecodeSequence(src, ip, x, pos, s[0], rest, capacity);
      DecodeBlock(src, ip + |SequenceBytes(x, pos, s[0])|, x, next, s[1..], capacity);
    }
  }

  lemma BlockSplit(x: seq<byte>, pos: nat, s: seq<Sequence>)
    requires Parses(x, pos, s) && s != []
    ensures Block(x, pos, s) == SequenceBytes(x, pos, s[0]) + Block(x, pos + s[0].literals + s[0].length, s[1..])
  {
  }

  /** What follows a match is long enough for the end-of-block tests of the decoder. */
  lemma BlockEnd(x: seq<byte>, pos: nat, s: seq<Sequence>)
    requires Parses(x, pos, s) && pos + LASTLITERALS <= |x|
    ensures LASTLITERALS < |Block(x, pos, s)|
  {
    if s != [] {
      var next := pos + s[0].literals + s[0].length;
      ParsesEnd(x, pos, s);
      ParsesLast(x, pos, s);
    }
  }

  /** A block decodes to its text, whatever the parse, given room for the text. */
  lemma RoundTrip(x: seq<byte>, s: seq<Sequence>, capacity: nat)
    requires Parses(x, 0, s) && |x| <= capacity
    ensures Decompressed(Block(x, 0, s), capacity) == Done(x)
  {
    var src := Block(x, 0, s);
    if x == [] {
      EmptyBlock(s);
    }
    ParsesEnd(x, 0, s);
    assert src != [] && src[0..] == src && x[..0] == [];
    if capacity > 0 {
      DecodeBlock(src, 0, x, 0, s, capacity);
    }
  }

  lemma EmptyBlock(s: seq<Sequence>)
    requires Parses([], 0, s)
    ensures Block([], 0, s) == [0]
  {
  }
}
