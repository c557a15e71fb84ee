/**
  LZ4_decompress_generic as LZ4_decompress_safe instantiates it, its safe loop with the eight-byte copies
  that run past their ends.  On every input it does what the byte-by-byte decoder of Lz4Format does, and
  every access stays inside the two buffers.
 */
module Lz4Decompress {
  import opened Bytes
  import opened Lz4Format

  // ------------------------------------------------------------------ repetition at a distance

  /** From `from` to `to` the buffer repeats what is d bytes before. */
  ghost predicate Periodic(a: seq<byte>, from: nat, stop: nat, d: nat)
    requires d <= from && stop <= |a|
  {
    forall k :: from <= k < stop ==> a[k] == a[k - d]
  }

  lemma {:induction false} Chain(a: seq<byte>, op: nat, k: nat, offset: nat, m: nat)
    requires offset <= op <= k <= |a| && Periodic(a, op, k, offset)
    requires 1 <= m && offset >= 1 && op + m * offset <= k + offset && k < |a|
    ensures 0 <= k - m * offset && a[k - offset] == a[k - m * offset]
  {
    if m > 1 {
      assert m * offset == (m - 1) * offset + offset;
      Chain(a, op, k, offset, m - 1);
      assert a[k - (m - 1) * offset] == a[k - (m - 1) * offset - offset];
    }
  }

  /** Going on at a multiple of the offset keeps repeating at the offset. */
  lemma {:induction false} Extend(a: seq<byte>, op: nat, from: nat, stop: nat, offset: nat, m: nat)
    requires 1 <= offset <= op <= from <= stop <= |a| && 1 <= m
    requires m * offset - offset <= from - op && m * offset <= from
    requires Periodic(a, op, from, offset) && Periodic(a, from, stop, m * offset)
    ensures Periodic(a, op, stop, offset)
    decreases stop
  {
    if stop > from {
      Extend(a, op, from, stop - 1, offset, m);
      Chain(a, op, stop - 1, offset, m);
    }
  }

  lemma {:induction false} ExtendZeros(a: seq<byte>, op: nat, from: nat, stop: nat, d: nat)
    requires op <= from <= stop <= |a| && 1 <= d <= from - op
    requires (forall k :: op <= k < from ==> a[k] == 0) && Periodic(a, from, stop, d)
    ensures forall k :: op <= k < stop ==> a[k] == 0
    decreases stop
  {
    if stop > from {
      ExtendZeros(a, op, from, stop - 1, d);
      assert a[stop - 1] == a[stop - 1 - d];
    }
  }

  /** What the byte-by-byte copy leaves. */
  ghost predicate Copied(a: seq<byte>, op: nat, stop: nat, offset: nat)
    requires offset <= op && stop <= |a|
  {
    if offset == 0 then forall k :: op <= k < stop ==> a[k] == 0 else Periodic(a, op, stop, offset)
  }

  lemma {:induction false} CopiedIsRepeated(a: seq<byte>, op: nat, n: nat, offset: nat)
    requires offset <= op && op + n <= |a| && Copied(a, op, op + n, offset)
    ensures a[..op + n] == Repeated(a[..op], offset, n)
    decreases n
  {
    if n > 0 {
      assert a[..op] + [a[op]] == a[..op + 1];
      assert a[op] == if offset == 0 then 0 else a[..op][op - offset];
      CopiedIsRepeated(a, op + 1, n - 1, offset);
    }
  }

  // ------------------------------------------------------------------ copies

  /** memcpy of v to position d. */
  method Put(dst: array<byte>, d: nat, v: seq<byte>)
    requires d + |v| <= dst.Length
    modifies dst
    ensures dst[..] == old(dst[..d]) + v + old(dst[d + |v|..])
  {
    for k := 0 to |v|
      invariant dst[..] == old(dst[..d]) + v[..k] + old(dst[d + k..])
    {
      dst[d + k] := v[k];
    }
  }

  /** LZ4_wildCopy8 from the source: eight bytes at a time until e is reached or passed. */
  method WildLiterals(dst: array<byte>, d0: nat, src: seq<byte>, s0: nat, e: nat)
    requires d0 <= e && e + 8 <= dst.Length && s0 + (e - d0) + 8 <= |src|
    modifies dst
    ensures dst[..d0] == old(dst[..d0]) && dst[d0..e] == src[s0..s0 + (e - d0)]
  {
    var d, s := d0, s0;
    ghost var start := dst[..d0];
    while true
      invariant d0 <= d && d - d0 == s - s0 && d < e + 8 && (d == d0 || d < e)
      invariant dst[..d] == start + src[s0..s]
      decreases e + 8 - d
    {
      Put(dst, d, src[s..s + 8]);
      assert dst[..d + 8] == start + src[s0..s + 8];
      d, s := d + 8, s + 8;
      if d >= e {
        break;
      }
    }
    WildCopied(dst[..], start, src[s0..s], e);
    assert src[s0..s][..e - d0] == src[s0..s0 + (e - d0)];
  }

  lemma WildCopied(a: seq<byte>, start: seq<byte>, part: seq<byte>, e: nat)
    requires |start| <= e <= |start| + |part| <= |a| && a[..|start| + |part|] == start + part
    ensures a[..|start|] == start && a[|start|..e] == part[..e - |start|]
  {
    var done := a[..|start| + |part|];
    assert a[..|start|] == done[..|start|] && a[|start|..e] == done[|start|..e];
  }

  lemma Shorter(a: seq<byte>, b: seq<byte>, m: nat, n: nat)
    requires n <= m <= |a| && m <= |b| && a[..m] == b[..m]
    ensures a[..n] == b[..n]
  {
    assert a[..n] == a[..m][..n] && b[..n] == b[..m][..n];
  }

  lemma PutPeriodic(was: seq<byte>, now: seq<byte>, d0: nat, d: nat, dist: nat, width: nat)
    requires width <= dist <= d0 <= d && d + width <= |was| && Periodic(was, d0, d, dist)
    requires now == was[..d] + was[d - dist..d - dist + width] + was[d + width..]
    ensures now[..d] == was[..d] && Periodic(now, d0, d + width, dist)
  {
    forall k | d0 <= k < d + width
      ensures now[k] == now[k - dist]
    {
      if k < d {
        assert now[k] == was[k] && now[k - dist] == was[k - dist];
      } else {
        assert now[k] == was[k - dist] == now[k - dist];
      }
    }
  }

  /** memcpy of `width` bytes from `dist` bytes before; the two do not overlap. */
  method CopyAt(dst: array<byte>, ghost d0: nat, d: nat, dist: nat, width: nat)
    requires width <= dist <= d0 <= d && d + width <= dst.Length && Periodic(dst[..], d0, d, dist)
    modifies dst
    ensures dst[..d] == old(dst[..d]) && Periodic(dst[..], d0, d + width, dist)
  {
    hide Periodic;
    ghost var was := dst[..];
    Put(dst, d, dst[d - dist..d - dist + width]);
    PutPeriodic(was, dst[..], d0, d, dist, width);
  }

  /** LZ4_wildCopy8 inside the output, from at least eight bytes before. */
  method WildMatch(dst: array<byte>, d0: nat, s0: nat, e: nat)
    requires s0 + 8 <= d0 && d0 + 8 <= dst.Length && e + 7 <= dst.Length
    modifies dst
    ensures dst[..d0] == old(dst[..d0])
    ensures d0 <= e ==> Periodic(dst[..], d0, e, d0 - s0)
  {
    var d, s := d0, s0;
    ghost var dist := d0 - s0;
    while true
      invariant d0 <= d && d - s == dist && (d == d0 || d < e)
      invariant dst[..d0] == old(dst[..d0]) && Periodic(dst[..], d0, d, dist)
      decreases e + 8 - d
    {
      ghost var was := dst[..];
      CopyAt(dst, d0, d, d - s, 8);
      Shorter(dst[..], was, d, d0);
      d, s := d + 8, s + 8;
      if d >= e {
        break;
      }
    }
  }

  const INC32: seq<nat> := [0, 1, 2, 1, 0, 4, 4, 4]
  const DEC64: seq<int> := [0, 0, 0, -1, -4, 1, 2, 3]

  /** The distance at which the bytes 4 to 7 of a near match are fetched, and the distance after that. */
  function NearDistance(offset: nat): nat
    requires offset < 8
  {
    4 + offset - INC32[offset]
  }

  function FarDistance(offset: nat): nat
    requires offset < 8
  {
    8 + offset - INC32[offset] + DEC64[offset]
  }

  /** Both distances are multiples of the offset; the copies behind them do not overlap. */
  lemma Distances(offset: nat) returns (m: nat, n: nat)
    requires 1 <= offset < 8
    ensures 1 <= m && NearDistance(offset) == m * offset && 4 <= m * offset <= offset + 4
    ensures 1 <= n && FarDistance(offset) == n * offset && 8 <= n * offset <= offset + 8
  {
    m := if offset == 1 then 4 else if offset < 5 then 2 else 1;
    n := if offset == 1 then 8 else if offset == 2 then 4 else if offset == 3 then 3 else 2;
  }

  /** The first eight bytes of a match; what follows is fetched from `next`. */
  method FirstEight(dst: array<byte>, op: nat, offset: nat) returns (next: int)
    requires offset <= op && op + 8 <= dst.Length
    modifies dst
    ensures dst[..op] == old(dst[..op]) && Copied(dst[..], op, op + 8, offset)
    ensures op + 8 - next == if offset < 8 then FarDistance(offset) else offset
    ensures 0 <= next <= op
  {
    hide Periodic, NearDistance, FarDistance;
    var mat: nat := op - offset;
    if offset < 8 {
      FirstFour(dst, op, offset);
      mat := mat + INC32[offset];
      ghost var was := dst[..];
      DistanceBounds(offset);
      Put(dst, op + 4, dst[mat..mat + 4]);
      FirstEightCopied(was, dst[..], op, offset);
      next := mat - DEC64[offset];
    } else {
      ghost var was := dst[..];
      NonePeriodic(was, op, offset);
      Put(dst, op, dst[mat..mat + 8]);
      PutPeriodic(was, dst[..], op, op, offset, 8);
      next := mat + 8;
    }
  }

  lemma DistanceBounds(offset: nat)
    requires offset < 8
    ensures INC32[offset] <= offset + 4 && NearDistance(offset) == 4 + offset - INC32[offset] >= 4
    ensures FarDistance(offset) == 8 + offset - INC32[offset] + DEC64[offset] >= 8
    ensures offset <= FarDistance(offset) <= offset + 8
  {
  }

  /** The first four bytes of a near match, one at a time. */
  method FirstFour(dst: array<byte>, op: nat, offset: nat)
    requires offset < 8 && offset <= op && op + 8 <= dst.Length
    modifies dst
    ensures dst[..op] == old(dst[..op]) && Copied(dst[..], op, op + 4, offset)
  {
    Put(dst, op, [0, 0, 0, 0]);
    assert offset == 0 ==> forall k :: op <= k < op + 4 ==> dst[k] == 0;
    var mat := op - offset;
    for j := 0 to 4
      invariant dst[..op] == old(dst[..op])
      invariant offset == 0 ==> forall k :: op <= k < op + 4 ==> dst[k] == 0
      invariant offset > 0 ==> Periodic(dst[..], op, op + j, offset)
    {
      dst[op + j] := dst[mat + j];
    }
  }

  lemma FirstEightCopied(was: seq<byte>, now: seq<byte>, op: nat, offset: nat)
    requires offset < 8 && offset <= op && op + 8 <= |was| && Copied(was, op, op + 4, offset)
    requires
      var d := NearDistance(offset);
      d <= op + 4 && now == was[..op + 4] + was[op + 4 - d..op + 8 - d] + was[op + 8..]
    ensures now[..op] == was[..op] && Copied(now, op, op + 8, offset)
  {
    hide Periodic, NearDistance;
    var d := NearDistance(offset);
    if offset == 0 {
      DistanceBounds(offset);
      assert forall k :: op <= k < op + 4 ==> now[k] == was[k];
    } else {
      var m, n := Distances(offset);
      PrefixPeriodic(was, now, op, op + 4, offset);
      NonePeriodic(was, op + 4, d);
      PutPeriodic(was, now, op + 4, op + 4, d, 4);
      Extend(now, op, op + 4, op + 8, offset, m);
    }
  }

  /** The later bytes of a match continue the first eight. */
  lemma RestCopied(a: seq<byte>, op: nat, stop: nat, offset: nat)
    requires offset <= op && op + 8 <= stop <= |a| && Copied(a, op, op + 8, offset)
    requires
      var d := if offset < 8 then FarDistance(offset) else offset;
      d <= op + 8 && Periodic(a, op + 8, stop, d)
    ensures Copied(a, op, stop, offset)
  {
    if offset == 0 {
      ExtendZeros(a, op, op + 8, stop, 8);
    } else if offset < 8 {
      var m, n := Distances(offset);
      Extend(a, op, op + 8, stop, offset, n);
    }
  }

  lemma NonePeriodic(a: seq<byte>, from: nat, d: nat)
    requires d <= from <= |a|
    ensures Periodic(a, from, from, d)
  {
  }

  lemma OnePeriodic(a: seq<byte>, k: nat, d: nat)
    requires d <= k < |a| && a[k] == a[k - d]
    ensures Periodic(a, k, k + 1, d)
  {
  }

  lemma ShorterPeriodic(a: seq<byte>, from: nat, stop: nat, less: nat, d: nat)
    requires d <= from && less <= stop <= |a| && Periodic(a, from, stop, d)
    ensures Periodic(a, from, less, d)
  {
  }

  lemma ShorterCopied(a: seq<byte>, op: nat, stop: nat, less: nat, offset: nat)
    requires offset <= op && less <= stop <= |a| && Copied(a, op, stop, offset)
    ensures Copied(a, op, less, offset)
  {
  }

  lemma PrefixPeriodic(was: seq<byte>, now: seq<byte>, from: nat, stop: nat, d: nat)
    requires d <= from && stop <= |was| && stop <= |now| && was[..stop] == now[..stop] && Periodic(was, from, stop, d)
    ensures Periodic(now, from, stop, d)
  {
    assert forall k :: 0 <= k < stop ==> was[k] == was[..stop][k] && now[k] == now[..stop][k];
  }

  lemma PrefixCopied(was: seq<byte>, now: seq<byte>, op: nat, stop: nat, offset: nat)
    requires offset <= op && stop <= |was| && stop <= |now| && was[..stop] == now[..stop] && Copied(was, op, stop, offset)
    ensures Copied(now, op, stop, offset)
  {
    assert forall k :: 0 <= k < stop ==> was[k] == was[..stop][k] && now[k] == now[..stop][k];
  }

  lemma JoinPeriodic(a: seq<byte>, from: nat, mid: nat, stop: nat, d: nat)
    requires d <= from <= mid <= stop <= |a| && Periodic(a, from, mid, d) && Periodic(a, mid, stop, d)
    ensures Periodic(a, from, stop, d)
  {
  }

  /** The rest of a match that ends within twelve bytes of the end. */
  method CopyNearEnd(dst: array<byte>, d0: nat, s0: nat, cpy: nat)
    requires s0 + 8 <= d0 && cpy + LASTLITERALS <= dst.Length && d0 <= dst.Length && dst.Length >= 7
    modifies dst
    ensures dst[..d0] == old(dst[..d0])
    ensures d0 <= cpy ==> Periodic(dst[..], d0, cpy, d0 - s0)
  {
    hide Periodic;
    var limit := dst.Length - 7;
    var d, s := d0, s0;
    ghost var dist := d0 - s0;
    NonePeriodic(dst[..], d0, dist);
    if d < limit {
      WildMatch(dst, d, s, limit);
      d, s := limit, s + (limit - d);
    }
    while d < cpy
      invariant d - s == dist && (d <= cpy || d == d0 || d == limit) && d0 <= d <= dst.Length
      invariant dst[..d0] == old(dst[..d0]) && Periodic(dst[..], d0, d, dist)
    {
      ghost var was := dst[..];
      dst[d] := dst[s];
      PrefixPeriodic(was, dst[..], d0, d, dist);
      assert dst[..d0] == was[..d0];
      OnePeriodic(dst[..], d, dist);
      JoinPeriodic(dst[..], d0, d, d + 1, dist);
      d, s := d + 1, s + 1;
    }
    if d0 <= cpy {
      ShorterPeriodic(dst[..], d0, d, cpy, dist);
    }
  }

  /** The rest of a match that ends well before the end. */
  method CopyClear(dst: array<byte>, d0: nat, s0: nat, cpy: nat, length: nat)
    requires s0 + 8 <= d0 && d0 + length == cpy + 8 && 4 <= length && cpy + MFLIMIT <= dst.Length
    modifies dst
    ensures dst[..d0] == old(dst[..d0])
    ensures d0 <= cpy ==> Periodic(dst[..], d0, cpy, d0 - s0)
  {
    hide Periodic;
    ghost var was, dist := dst[..], d0 - s0;
    NonePeriodic(was, d0, dist);
    Put(dst, d0, dst[s0..s0 + 8]);
    ghost var now := dst[..];
    PutPeriodic(was, now, d0, d0, dist, 8);
    assert now[..d0] == was[..d0];
    if length > 16 {
      WildMatch(dst, d0 + 8, s0 + 8, cpy);
      assert dst[..d0] == dst[..d0 + 8][..d0] == now[..d0 + 8][..d0] == now[..d0];
      PrefixPeriodic(now, dst[..], d0, d0 + 8, dist);
      JoinPeriodic(dst[..], d0, d0 + 8, cpy, dist);
    } else if d0 <= cpy {
      ShorterPeriodic(dst[..], d0, d0 + 8, cpy, dist);
    }
  }

  /** The copy of a match inside the block; refused when it would end in the last five bytes. */
  method CopyMatch(dst: array<byte>, op: nat, offset: nat, length: nat) returns (ok: bool)
    requires offset <= op && op + 8 <= dst.Length && MINMATCH <= length
    modifies dst
    ensures ok <==> op + length + LASTLITERALS <= dst.Length
    ensures ok ==> dst[..op + length] == Repeated(old(dst[..op]), offset, length)
  {
    hide Periodic, Copied, FarDistance, Repeated;
    ghost var before := dst[..op];
    var cpy := op + length;
    var next := FirstEight(dst, op, offset);
    ghost var first := dst[..];
    if cpy > dst.Length - MFLIMIT {
      if cpy > dst.Length - LASTLITERALS {
        return false;
      }
      CopyNearEnd(dst, op + 8, next, cpy);
    } else {
      CopyClear(dst, op + 8, next, cpy, length);
    }
    assert dst[..op] == dst[..op + 8][..op] == first[..op + 8][..op] == before;
    PrefixCopied(first, dst[..], op, op + 8, offset);
    if op + 8 <= cpy {
      RestCopied(dst[..], op, cpy, offset);
    } else {
      ShorterCopied(dst[..], op, op + 8, cpy, offset);
    }
    CopiedIsRepeated(dst[..], op, length, offset);
    assert dst[..][..cpy] == dst[..cpy] && dst[..][..op] == before;
    return true;
  }

  // ------------------------------------------------------------------ the safe loop

  /** The length bytes from ip0 on, without the initial test. */
  method ReadVariableLength(src: seq<byte>, ip0: nat, limit: int) returns (ok: bool, length: nat, ip: nat)
    requires ip0 < |src| && limit < |src|
    ensures ReadMore(src, ip0, limit, 0) == if ok then Known(length, ip) else Bad(ip)
  {
    length, ip := 0, ip0;
    while true
      invariant ip < |src| && ReadMore(src, ip0, limit, 0) == ReadMore(src, ip, limit, length)
      decreases |src| - ip
    {
      var s := src[ip];
      ip := ip + 1;
      length := length + s;
      if ip > limit {
        return false, length, ip;
      }
      if s != 255 {
        return true, length, ip;
      }
    }
  }

  function Negative(at: int): int {
    -at - 1
  }

  /** The value returned: the size of the output, or one less than minus the position of the error. */
  function Code(r: Outcome): int {
    match r
    case Done(output) => |output|
    case Failed(at) => Negative(at)
  }

  /** What is left to do behind the literals of a sequence. */
  datatype Step = Stop(code: int) | Match(ip: nat, op: nat, short: bool)

  /** Token and literals. */
  method Literals(src: seq<byte>, at: nat, dst: array<byte>, op: nat) returns (step: Step)
    requires at < |src| && op <= dst.Length
    modifies dst
    ensures
      var r := DecodeFrom(src, at, old(dst[..op]), dst.Length);
      match step
      case Stop(code) => code == Code(r) && (r.Done? ==> code <= dst.Length && dst[..code] == r.output)
      case Match(i, o, short) =>
        && o <= dst.Length && at < i <= |src|
        && (if short then i + 2 < |src| && o + 18 <= dst.Length else i + 8 <= |src| && o + 12 <= dst.Length)
        && r == DecodeMatch(src, i, dst[..o], src[at] % 16, dst.Length, short)
  {
    hide DecodeMatch, ReadMore;
    ghost var out := dst[..op];
    var ip := at + 1;
    var length: nat := src[at] / 16;
    if length != 15 && ip < |src| - 16 && op <= dst.Length - 32 {
      Put(dst, op, src[ip..ip + 16]);
      assert dst[..op + length] == out + src[ip..ip + length];
      return Match(ip + length, op + length, true);
    }
    if length == 15 {
      if ip >= |src| - 15 {
        return Stop(Negative(ip));
      }
      var ok, more;
      ok, more, ip := ReadVariableLength(src, ip, |src| - 15);
      if !ok {
        return Stop(Negative(ip));
      }
      length := length + more;
    }
    step := PutLiterals(src, ip, dst, op, length);
  }

  /** Literals of known length: the last ones, or more to come. */
  method PutLiterals(src: seq<byte>, ip: nat, dst: array<byte>, op: nat, n: nat) returns (step: Step)
    requires ip <= |src| && op <= dst.Length
    modifies dst
    ensures
      if op + n > dst.Length - MFLIMIT || ip + n > |src| - 8 then
        if ip + n != |src| || op + n > dst.Length then step == Stop(Negative(ip))
        else step == Stop(op + n) && dst[..op + n] == old(dst[..op]) + src[ip..ip + n]
      else
        step == Match(ip + n, op + n, false) && dst[..op + n] == old(dst[..op]) + src[ip..ip + n]
  {
    ghost var out := dst[..op];
    if op + n > dst.Length - MFLIMIT || ip + n > |src| - 8 {
      if ip + n != |src| || op + n > dst.Length {
        return Stop(Negative(ip));
      }
      Put(dst, op, src[ip..ip + n]);
      assert dst[..op + n] == out + src[ip..ip + n];
      return Stop(op + n);
    }
    WildLiterals(dst, op, src, ip, op + n);
    assert dst[..op + n] == dst[..op] + dst[op..op + n];
    return Match(ip + n, op + n, false);
  }

  /** Offset, length and copy of a match. */
  method CopySequence(src: seq<byte>, at: nat, dst: array<byte>, op: nat, code: nat, short: bool)
    returns (ok: bool, ip: nat, end: nat)
    requires code <= 15 && op <= dst.Length
    requires if short then at + 2 < |src| && op + 18 <= dst.Length else at + 8 <= |src| && op + 12 <= dst.Length
    modifies dst
    ensures ok ==> at < ip < |src| && end <= dst.Length
    ensures DecodeMatch(src, at, old(dst[..op]), code, dst.Length, short) ==
            if ok then DecodeFrom(src, ip, dst[..end], dst.Length) else Failed(ip)
  {
    hide DecodeFrom, ReadMore, Repeated, Word16;
    ghost var out := dst[..op];
    var offset := Offset(src, at);
    ip, end := at + 2, op;
    if short && code != 15 && offset >= 8 && offset <= op {
      CopyEighteen(dst, op, offset, code + 4);
      return true, ip, op + code + 4;
    }
    var length := code;
    if code == 15 {
      var more;
      ok, more, ip := ReadVariableLength(src, ip, |src| - 4);
      if !ok {
        return false, ip, op;
      }
      length := length + more;
    }
    length := length + MINMATCH;
    if offset > op {
      return false, ip, op;
    }
    ok := CopyMatch(dst, op, offset, length);
    end := op + length;
  }

  /** The second stage of the shortcut: eighteen bytes in three copies. */
  method CopyEighteen(dst: array<byte>, op: nat, offset: nat, length: nat)
    requires 8 <= offset <= op && op + 18 <= dst.Length && length <= 18
    modifies dst
    ensures dst[..op + length] == Repeated(old(dst[..op]), offset, length)
  {
    hide Periodic, Repeated;
    ghost var before := dst[..op];
    NonePeriodic(dst[..], op, offset);
    CopyAt(dst, op, op, offset, 8);
    ghost var first := dst[..];
    CopyAt(dst, op, op + 8, offset, 8);
    ghost var second := dst[..];
    CopyAt(dst, op, op + 16, offset, 2);
    ghost var third := dst[..];
    Shorter(first, second, op + 8, op);
    Shorter(second, third, op + 16, op);
    ShorterPeriodic(third, op, op + 18, op + length, offset);
    CopiedIsRepeated(third, op, length, offset);
  }

  /** LZ4_decompress_safe; the size of dst is the capacity. */
  method DecompressSafe(src: seq<byte>, dst: array<byte>) returns (r: int)
    modifies dst
    ensures r == Code(Decompressed(src, dst.Length))
    ensures r >= 0 ==> r <= dst.Length && Decompressed(src, dst.Length) == Done(dst[..r])
  {
    hide DecodeFrom, DecodeMatch;
    if dst.Length == 0 {
      return if src == [0] then 0 else -1;
    }
    if |src| == 0 {
      return -1;
    }
    var ip: nat, op: nat := 0, 0;
    assert dst[..0] == [];
    while true
      invariant ip < |src| && op <= dst.Length
      invariant DecodeFrom(src, ip, dst[..op], dst.Length) == Decompressed(src, dst.Length)
      decreases |src| - ip
    {
      var step := Literals(src, ip, dst, op);
      match step {
        case Stop(code) =>
          return code;
        case Match(at, end, short) =>
          var ok;
          ok, ip, op := CopySequence(src, at, dst, end, src[ip] % 16, short);
          if !ok {
            return Negative(ip);
          }
      }
    }
  }
}
