/**
  LZ4_compress_generic_validated without a dictionary.  The hash of a position is any function of the
  position; the table may therefore propose any earlier position, and the code checks what it is given.  The
  matches taken are those of Lz4Greedy.
 */
module Lz4Compress {
  import opened Bytes
  import opened Lz4Format
  import opened Lz4Greedy

  datatype Result = Fits(block: seq<byte>) | TooLarge

  /** maxOutputSize, when the output is limited. */
  datatype Limit = Unlimited | AtMost(size: nat)

  predicate Exceeds(n: nat, limit: Limit) {
    limit.AtMost? && n > limit.size
  }

  // ------------------------------------------------------------------ LZ4_count

  /** One step of the tail: `width` bytes at a time while fewer than twice as many can agree. */
  method CountStep(x: seq<byte>, m: nat, i: nat, limit: nat, width: nat) returns (n: nat)
    requires m < i <= limit <= |x| && Agree(x, m, i, limit) < 2 * width
    ensures n <= width && i + n <= limit
    ensures Agree(x, m, i, limit) == n + Agree(x, m + n, i + n, limit) && Agree(x, m + n, i + n, limit) < width
  {
    hide Agree;
    if i + width <= limit {
      if x[m..m + width] == x[i..i + width] {
        AgreeSkip(x, m, i, limit, width);
        return width;
      }
      AgreeLess(x, m, i, limit, width);
    }
    return 0;
  }

  lemma AgreeNone(x: seq<byte>, m: nat, i: nat, limit: nat)
    requires m < i < limit <= |x| && x[m] != x[i]
    ensures Agree(x, m, i, limit) == 0
  {
  }

  lemma OneByteMore(x: seq<byte>, m: nat, n: nat)
    requires m + n < |x|
    ensures x[m..m + n + 1] == x[m..m + n] + [x[m + n]]
  {
  }

  /** LZ4_NbCommonBytes of the exclusive or of two unequal words of eight bytes. */
  method CommonBytes(x: seq<byte>, m: nat, i: nat, limit: nat) returns (n: nat)
    requires m < i && i + 8 <= limit <= |x| && x[m..m + 8] != x[i..i + 8]
    ensures n == Agree(x, m, i, limit)
  {
    hide Agree;
    n := 0;
    while n < 8 && x[m + n] == x[i + n]
      invariant n <= 8 && x[m..m + n] == x[i..i + n]
    {
      OneByteMore(x, m, n);
      OneByteMore(x, i, n);
      n := n + 1;
    }
    AgreeSkip(x, m, i, limit, n);
    AgreeNone(x, m + n, i + n, limit);
  }

  /** LZ4_count: words of eight, then four, two and one byte. */
  method Count(x: seq<byte>, m0: nat, i0: nat, limit: nat) returns (n: nat)
    requires m0 < i0 <= limit <= |x|
    ensures n == Agree(x, m0, i0, limit)
  {
    hide Agree;
    n := 0;
    while i0 + n + 7 < limit
      invariant i0 + n <= limit && Agree(x, m0, i0, limit) == n + Agree(x, m0 + n, i0 + n, limit)
    {
      if x[m0 + n..m0 + n + 8] != x[i0 + n..i0 + n + 8] {
        var more := CommonBytes(x, m0 + n, i0 + n, limit);
        return n + more;
      }
      AgreeSkip(x, m0 + n, i0 + n, limit, 8);
      n := n + 8;
    }
    var more := CountStep(x, m0 + n, i0 + n, limit, 4);
    n := n + more;
    more := CountStep(x, m0 + n, i0 + n, limit, 2);
    n := n + more;
    more := CountStep(x, m0 + n, i0 + n, limit, 1);
    n := n + more;
  }

  // ------------------------------------------------------------------ finding a match

  predicate Earlier(table: Table, ip: nat) {
    forall h :: h in table ==> table[h] < ip
  }

  lemma SearchStart(hash: nat -> nat, acceleration: nat, table: Table, ip0: nat)
    requires 1 <= acceleration
    ensures Visit(ip0, acceleration, 0) == ip0 && Visit(ip0, acceleration, 1) == ip0 + 1
    ensures Marked(hash, acceleration, table, ip0, 0) == table
  {
  }

  lemma SearchStep(x: seq<byte>, hash: nat -> nat, acceleration: nat, table: Table, ip0: nat, k: nat)
    requires 1 <= acceleration
    ensures
      var ip, marked := Visit(ip0, acceleration, k), Marked(hash, acceleration, table, ip0, k);
      var m, next := Get(marked, hash(ip)), Visit(ip0, acceleration, k + 1);
      && ip < next && Visit(ip0, acceleration, k + 2) == next + (64 * acceleration + k) / 64
      && m == Slot(hash, acceleration, table, ip0, k)
      && Marked(hash, acceleration, table, ip0, k + 1) == marked[hash(ip) := ip]
      && FirstHit(x, hash, acceleration, table, ip0, k)
         == if next + MFLIMIT > |x| + 1 then None
            else if Accepted(x, m, ip) then Some(k)
            else FirstHit(x, hash, acceleration, table, ip0, k + 1)
  {
    hide Accepted, Get;
    VisitGrows(ip0, acceleration, k);
  }

  /** The search for a match from ip0 on, in growing steps. */
  method FindMatch(x: seq<byte>, hash: nat -> nat, acceleration: nat, table0: Table, ip0: nat)
    returns (found: bool, m: nat, ip: nat, table: Table)
    requires 1 <= acceleration && 1 <= ip0 && ip0 + MFLIMIT <= |x| + 1 && Earlier(table0, ip0)
    ensures
      var hit := FirstHit(x, hash, acceleration, table0, ip0, 0);
      && found == hit.Some?
      && (found ==>
           && ip == Visit(ip0, acceleration, hit.value) && m == Slot(hash, acceleration, table0, ip0, hit.value)
           && table == Marked(hash, acceleration, table0, ip0, hit.value + 1)
           && ip0 <= ip && ip + MFLIMIT <= |x| && Accepted(x, m, ip) && Earlier(table, ip + 1))
  {
    hide Accepted, Earlier, Visit, Marked, Slot, FirstHit, Near, Get;
    SearchStart(hash, acceleration, table0, ip0);
    var forwardIp: nat, step: nat, searchMatchNb := ip0, 1, acceleration * 64;
    ip, m, table := ip0, 0, table0;
    ghost var k: nat := 0;
    while true
      invariant ip0 <= forwardIp && forwardIp + MFLIMIT <= |x| + 1 && searchMatchNb == 64 * acceleration + k
      invariant forwardIp == Visit(ip0, acceleration, k) && forwardIp + step == Visit(ip0, acceleration, k + 1)
      invariant table == Marked(hash, acceleration, table0, ip0, k) && Earlier(table, forwardIp)
      invariant FirstHit(x, hash, acceleration, table0, ip0, k) == FirstHit(x, hash, acceleration, table0, ip0, 0)
      decreases |x| - forwardIp
    {
      SearchStep(x, hash, acceleration, table0, ip0, k);
      var h := hash(forwardIp);
      ip := forwardIp;
      m := Get(table, h);
      GetEarlier(table, h, ip);
      forwardIp := forwardIp + step;
      step := searchMatchNb / 64;
      searchMatchNb := searchMatchNb + 1;
      if forwardIp > |x| - MFLIMIT + 1 {
        return false, m, ip, table;
      }
      EarlierPut(table, h, ip, ip, ip + 1);
      table := table[h := ip];
      AcceptedIs(x, m, ip);
      if Near(x, m, ip) && x[m..m + 4] == x[ip..ip + 4] {
        return true, m, ip, table;
      }
      EarlierLater(table, ip + 1, forwardIp);
      k := k + 1;
    }
  }

  /** Extends a match backwards over the literals before it. */
  method CatchUp(x: seq<byte>, m0: nat, ip0: nat, anchor: nat) returns (m: nat, ip: nat)
    requires Accepted(x, m0, ip0) && anchor <= ip0
    ensures anchor <= ip <= ip0 && m <= m0 && ip - m == ip0 - m0 && ip == ip0 - Back(x, m0, ip0, anchor)
    ensures x[m..m0 + 4] == x[ip..ip0 + 4]
    ensures ip == anchor || m == 0 || x[ip - 1] != x[m - 1]
  {
    m, ip := m0, ip0;
    while ip > anchor && m > 0 && x[ip - 1] == x[m - 1]
      invariant anchor <= ip <= ip0 && m <= m0 && ip - m == ip0 - m0
      invariant ip - Back(x, m, ip, anchor) == ip0 - Back(x, m0, ip0, anchor)
      invariant x[m..m0 + 4] == x[ip..ip0 + 4]
    {
      assert x[m - 1..m0 + 4] == [x[m - 1]] + x[m..m0 + 4];
      assert x[ip - 1..ip0 + 4] == [x[ip - 1]] + x[ip..ip0 + 4];
      ip, m := ip - 1, m - 1;
    }
  }

  // ------------------------------------------------------------------ writing

  lemma LengthBytesAre(n: nat)
    ensures LengthBytes(n) == Repeat<byte>(255, n / 255) + [n % 255]
  {
    LengthBytesRun(n / 255, n % 255);
  }

  lemma {:induction false} LengthBytesRun(q: nat, r: nat)
    requires r < 255
    ensures LengthBytes(255 * q + r) == Repeat<byte>(255, q) + [r]
  {
    if q > 0 {
      LengthBytesRun(q - 1, r);
      assert Repeat<byte>(255, q) == [255] + Repeat<byte>(255, q - 1);
    }
  }

  /** A literal length of at least 15 less 15. */
  method WriteLength(out: seq<byte>, n: nat) returns (r: seq<byte>)
    ensures r == out + LengthBytes(n)
  {
    r := out;
    var len := n;
    while len >= 255
      invariant r + LengthBytes(len) == out + LengthBytes(n)
    {
      assert r + LengthBytes(len) == (r + [255]) + LengthBytes(len - 255);
      r, len := r + [255], len - 255;
    }
    r := r + [len];
  }

  /** A match length of at least 19 less 19: four bytes of 255 at a time, then a division. */
  method WriteMatchLength(out: seq<byte>, n: nat) returns (r: seq<byte>)
    ensures r == out + LengthBytes(n)
  {
    r := out;
    var code := n;
    while code >= 4 * 255
      invariant r + LengthBytes(code) == out + LengthBytes(n)
    {
      FourMore(code);
      assert r + LengthBytes(code) == (r + [255, 255, 255, 255]) + LengthBytes(code - 1020);
      r, code := r + [255, 255, 255, 255], code - 4 * 255;
    }
    LengthBytesAre(code);
    assert r + LengthBytes(code) == r + Repeat<byte>(255, code / 255) + [code % 255];
    r := r + Repeat<byte>(255, code / 255) + [code % 255];
  }

  lemma FourMore(n: nat)
    requires n >= 1020
    ensures LengthBytes(n) == [255, 255, 255, 255] + LengthBytes(n - 1020)
  {
    assert LengthBytes(n - 255) == [255] + LengthBytes(n - 510);
    assert LengthBytes(n - 510) == [255] + LengthBytes(n - 765);
    assert LengthBytes(n - 765) == [255] + LengthBytes(n - 1020);
  }

  /** Token, literal length and literals; the low half of the token is filled in later. */
  method WriteLiterals(out: seq<byte>, x: seq<byte>, anchor: nat, n: nat) returns (r: seq<byte>)
    requires anchor + n <= |x|
    ensures r == out + LiteralBytes(x, anchor, n, 0)
  {
    if n >= 15 {
      r := WriteLength(out + [15 * 16], n - 15);
    } else {
      r := out + [n * 16];
    }
    LiteralsJoin(out, r, x, anchor, n);
    r := r + x[anchor..anchor + n];
  }

  lemma LiteralsJoin(out: seq<byte>, r: seq<byte>, x: seq<byte>, anchor: nat, n: nat)
    requires anchor + n <= |x|
    requires r == if n >= 15 then (out + [15 * 16]) + LengthBytes(n - 15) else out + [n * 16]
    ensures r + x[anchor..anchor + n] == out + LiteralBytes(x, anchor, n, 0)
  {
    hide LengthBytes;
    var text := x[anchor..anchor + n];
    if n >= 15 {
      var more := LengthBytes(n - 15);
      assert ((out + [240]) + more) + text == out + ([240] + more + text);
    } else {
      assert (out + [n * 16]) + text == out + ([n * 16] + text);
    }
  }

  lemma TokenFilled(x: seq<byte>, pos: nat, n: nat, code: nat)
    requires pos + n <= |x| && code <= 15
    ensures LiteralBytes(x, pos, n, 0)[0] + code < 256
    ensures LiteralBytes(x, pos, n, 0)[0 := LiteralBytes(x, pos, n, 0)[0] + code] == LiteralBytes(x, pos, n, code)
  {
  }

  function Bound(n: nat): nat {
    n + n / 255 + 16
  }

  lemma NoLiterals(x: seq<byte>, pos: nat)
    requires pos <= |x|
    ensures LiteralBytes(x, pos, 0, 0) == [0]
  {
  }

  /**
    Offset and length of a match whose token is already written; `same` bytes are known to agree.  Fails only
    when the output is limited and the match might not leave room for the last literals.
   */
  method WriteMatch(out: seq<byte>, token: nat, x: seq<byte>, anchor: nat, m: nat, ip: nat, limit: Limit,
                    ghost same: nat)
    returns (ok: bool, r: seq<byte>, end: nat)
    requires anchor <= ip && m < ip && ip - m <= DISTANCE_MAX && ip + MFLIMIT <= |x|
    requires MINMATCH <= same && ip + same + LASTLITERALS <= |x| && x[m..m + same] == x[ip..ip + same]
    requires token <= |out| && out[token..] == LiteralBytes(x, anchor, ip - anchor, 0)
    ensures ip + same <= end == MatchEnd(x, m, ip)
    ensures Allowed(x, ip, ip - m, end - ip)
    ensures ok ==> r == out[..token] + SequenceBytes(x, anchor, Sequence(ip - anchor, ip - m, end - ip))
    ensures !ok ==> Exceeds(token + |SequenceBytes(x, anchor, Sequence(ip - anchor, ip - m, end - ip))| + 1 + LASTLITERALS, limit)
  {
    hide Agree, LiteralBytes, Extra, LengthBytes, Repeats;
    var offset: nat := ip - m;
    r := out + [offset % 256, offset / 256];
    var code := Count(x, m + MINMATCH, ip + MINMATCH, |x| - LASTLITERALS);
    end := ip + code + MINMATCH;
    MatchAllowed(x, m, ip, same);
    MatchSize(x, anchor, Sequence(ip - anchor, offset, end - ip));
    if Exceeds(|r| + (1 + LASTLITERALS) + (code + 240) / 255, limit) {
      return false, r, end;
    }
    FillToken(out, token, x, anchor, ip - anchor, Nibble(code), OffsetBytes(offset));
    r := r[token := r[token] + Nibble(code)];
    ExtraIs(code);
    if code >= 15 {
      r := WriteMatchLength(r, code - 15);
    }
    assert r == out[..token] + (LiteralBytes(x, anchor, ip - anchor, Nibble(code)) + OffsetBytes(offset) + Extra(code));
    return true, r, end;
  }

  /** How many bytes a sequence takes. */
  lemma MatchSize(x: seq<byte>, pos: nat, q: Sequence)
    requires Allowed(x, pos + q.literals, q.offset, q.length)
    ensures |LiteralBytes(x, pos, q.literals, 0)| == 1 + (q.literals + 240) / 255 + q.literals
    ensures |SequenceBytes(x, pos, q)|
            == |LiteralBytes(x, pos, q.literals, 0)| + 2 + (q.length - MINMATCH + 240) / 255
  {
    ExtraIs(q.literals);
    ExtraIs(q.length - MINMATCH);
    hide LengthBytes;
    ExtraLength(q.literals);
    ExtraLength(q.length - MINMATCH);
  }

  lemma ExtraLength(n: nat)
    ensures |Extra(n)| == (n + 240) / 255
  {
    if n >= 15 {
      LengthBytesSize(n - 15);
    }
  }

  lemma FillToken(out: seq<byte>, token: nat, x: seq<byte>, pos: nat, n: nat, code: nat, more: seq<byte>)
    requires pos + n <= |x| && code <= 15 && token <= |out| && out[token..] == LiteralBytes(x, pos, n, 0)
    ensures token < |out| && out[token] + code < 256
    ensures (out + more)[token := (out + more)[token] + code] == out[..token] + LiteralBytes(x, pos, n, code) + more
  {
    TokenFilled(x, pos, n, code);
    var l := LiteralBytes(x, pos, n, 0);
    assert |l| > 0 && out[token] == l[0];
    hide LiteralBytes;
    assert (out + more)[token := (out + more)[token] + code] == out[..token] + l[0 := l[0] + code] + more;
  }

  /** What has been written so far covers the block up to the anchor. */
  ghost predicate Written(x: seq<byte>, s: seq<Sequence>, anchor: nat, out: seq<byte>) {
    Parses(x, 0, s) && End(0, s) == anchor && out == Body(x, 0, s)
  }

  lemma WrittenMore(x: seq<byte>, s: seq<Sequence>, anchor: nat, out: seq<byte>, q: Sequence)
    requires Written(x, s, anchor, out) && Allowed(x, anchor + q.literals, q.offset, q.length)
    ensures Written(x, s + [q], anchor + q.literals + q.length, out + SequenceBytes(x, anchor, q))
  {
    hide SequenceBytes, Allowed;
    ParsesSnoc(x, 0, s, q);
  }

  lemma EarlierLater(table: Table, before: nat, ip: nat)
    requires Earlier(table, before) && before <= ip
    ensures Earlier(table, ip)
  {
  }

  lemma EarlierPut(table: Table, h: nat, p: nat, before: nat, ip: nat)
    requires Earlier(table, before) && before <= ip && p < ip
    ensures Earlier(table[h := p], ip)
  {
  }

  lemma GetEarlier(table: Table, h: nat, ip: nat)
    requires Earlier(table, ip) && 0 < ip
    ensures Get(table, h) < ip
  {
  }

  /** Records the position two before ip and looks for a match right at ip. */
  method TestNext(x: seq<byte>, hash: nat -> nat, table0: Table, ip: nat) returns (found: bool, m: nat, table: Table)
    requires 2 <= ip && ip + MFLIMIT <= |x| && Earlier(table0, ip)
    ensures m == Proposed(hash, table0, ip) && table == Refilled(hash, table0, ip)
    ensures found <==> Accepted(x, m, ip)
    ensures Earlier(table, ip + 1)
  {
    hide Earlier, Get, Accepted;
    EarlierPut(table0, hash(ip - 2), ip - 2, ip, ip);
    table := table0[hash(ip - 2) := ip - 2];
    GetEarlier(table, hash(ip), ip);
    m := Get(table, hash(ip));
    EarlierPut(table, hash(ip), ip, ip, ip + 1);
    table := table[hash(ip) := ip];
    AcceptedIs(x, m, ip);
    found := Near(x, m, ip) && x[m..m + 4] == x[ip..ip + 4];
  }

  /** With the sequence at hand the block needs at least the room that is asked for. */
  lemma RoomNeeded(x: seq<byte>, hash: nat -> nat, acceleration: nat, table: Table, anchor: nat, m: nat, ip: nat, same: nat,
                   s: seq<Sequence>, body: seq<byte>, all: seq<Sequence>)
    requires 1 <= acceleration && Written(x, s, anchor, body) && Parses(x, 0, all)
    requires anchor <= ip && m < ip && ip - m <= DISTANCE_MAX && ip + MFLIMIT <= |x|
    requires MINMATCH <= same && ip + same + LASTLITERALS <= |x| && x[m..m + same] == x[ip..ip + same]
    requires s + FromMatch(x, hash, acceleration, table, anchor, m, ip) == all
    ensures
      var q := Sequence(ip - anchor, ip - m, MatchEnd(x, m, ip) - ip);
      && Allowed(x, ip, q.offset, q.length)
      && |body| + |SequenceBytes(x, anchor, q)| + 1 + LASTLITERALS <= |Block(x, 0, all)|
      && |body| + 1 + (ip - anchor) + (2 + 1 + LASTLITERALS) + (ip - anchor) / 255 <= |Block(x, 0, all)|
  {
    hide Agree, SequenceBytes, LiteralBytes, Allowed, Continued;
    var q := Sequence(ip - anchor, ip - m, MatchEnd(x, m, ip) - ip);
    MatchAllowed(x, m, ip, same);
    MatchSize(x, anchor, q);
    var rest := Continued(x, hash, acceleration, table, MatchEnd(x, m, ip));
    assert all == s + ([q] + rest);
    BlockHolds(x, 0, s, q, rest);
  }

  /** The sequences from one search on: a match, and as long as the next position matches too, further ones. */
  method WriteMatches(x: seq<byte>, hash: nat -> nat, limit: Limit, out0: seq<byte>, anchor0: nat, m0: nat, ip0: nat,
                      table0: Table, ghost acceleration: nat, ghost same0: nat, ghost s0: seq<Sequence>, ghost all: seq<Sequence>)
    returns (ok: bool, out: seq<byte>, anchor: nat, table: Table, ghost s: seq<Sequence>)
    requires Written(x, s0, anchor0, out0) && 1 <= acceleration
    requires Parses(x, 0, all)
    requires anchor0 <= ip0 && m0 < ip0 && ip0 - m0 <= DISTANCE_MAX && ip0 + MFLIMIT <= |x| && Earlier(table0, ip0 + same0)
    requires MINMATCH <= same0 && ip0 + same0 + LASTLITERALS <= |x| && x[m0..m0 + same0] == x[ip0..ip0 + same0]
    requires s0 + FromMatch(x, hash, acceleration, table0, anchor0, m0, ip0) == all
    ensures ok ==> Written(x, s, anchor, out) && ip0 + same0 <= anchor <= |x| && Earlier(table, anchor + 1)
    ensures ok ==> s + Ahead(x, hash, acceleration, table, anchor) == all
    ensures !ok ==> Exceeds(|Block(x, 0, all)|, limit)
  {
    hide Written, Earlier, LiteralBytes, SequenceBytes, Agree, Get, Bound, Allowed, Accepted, Searched, Continued,
         Refilled, Proposed, FromMatch, Ahead;
    anchor, table, s := anchor0, table0, s0;
    var m: nat, ip: nat := m0, ip0;
    ghost var same, body := same0, out0;
    RoomNeeded(x, hash, acceleration, table, anchor, m, ip, same, s, body, all);
    var token := |out0|;
    if Exceeds(|out0| + 1 + (ip - anchor) + (2 + 1 + LASTLITERALS) + (ip - anchor) / 255, limit) {
      return false, out0, anchor, table, s;
    }
    out := WriteLiterals(out0, x, anchor, ip - anchor);
    while true
      invariant anchor <= ip && ip0 + same0 <= ip + same && m < ip && ip - m <= DISTANCE_MAX && ip + MFLIMIT <= |x|
      invariant MINMATCH <= same && ip + same + LASTLITERALS <= |x| && x[m..m + same] == x[ip..ip + same]
      invariant Written(x, s, anchor, body) && Earlier(table, ip + same)
      invariant token == |body| && out == body + LiteralBytes(x, anchor, ip - anchor, 0)
      invariant s + FromMatch(x, hash, acceleration, table, anchor, m, ip) == all
      decreases |x| - ip
    {
      var end;
      RoomNeeded(x, hash, acceleration, table, anchor, m, ip, same, s, body, all);
      ok, out, end := WriteMatch(out, token, x, anchor, m, ip, limit, same);
      AllowedEnd(x, ip, ip - m, end - ip);
      if !ok {
        return false, out, anchor, table, s;
      }
      ghost var q := Sequence(ip - anchor, ip - m, end - ip);
      WrittenMore(x, s, anchor, body, q);
      NextSequence(x, hash, acceleration, table, anchor, m, ip, s, all);
      s, body := s + [q], out;
      EarlierLater(table, ip + same, end);
      anchor, ip := end, end;
      ContinuedIs(x, hash, acceleration, table, end);
      if ip >= |x| - MFLIMIT + 1 {
        EarlierLater(table, end, end + 1);
        return true, out, anchor, table, s;
      }
      var found;
      found, m, table := TestNext(x, hash, table, ip);
      AcceptedIs(x, m, ip);
      if !found {
        return true, out, anchor, table, s;
      }
      same := 4;
      EarlierLater(table, ip + 1, ip + 4);
      token := |out|;
      NoLiterals(x, anchor);
      out := out + [0];
    }
  }

  lemma AllowedEnd(x: seq<byte>, p: nat, offset: nat, length: nat)
    requires Allowed(x, p, offset, length)
    ensures MINMATCH <= length && p + length + LASTLITERALS <= |x|
  {
  }

  /** The last literals take exactly the room that is asked for. */
  lemma LastSize(x: seq<byte>, anchor: nat)
    requires anchor <= |x|
    ensures |LiteralBytes(x, anchor, |x| - anchor, 0)| == |x| - anchor + 1 + (|x| - anchor + 240) / 255
  {
    ExtraLength(|x| - anchor);
  }

  lemma WrittenBlock(x: seq<byte>, s: seq<Sequence>, anchor: nat, out: seq<byte>)
    requires Written(x, s, anchor, out)
    ensures anchor <= |x| && Parses(x, 0, s) && Block(x, 0, s) == out + LiteralBytes(x, anchor, |x| - anchor, 0)
  {
    hide LiteralBytes;
    ParsesEnd(x, 0, s);
  }

  lemma GreedyFits(x: seq<byte>, hash: nat -> nat, acceleration: nat)
    requires 1 <= acceleration
    ensures Parses(x, 0, Greedy(x, hash, acceleration))
    ensures |Block(x, 0, Greedy(x, hash, acceleration))| <= Bound(|x|)
  {
    hide Greedy, Block;
    GreedyParses(x, hash, acceleration);
    BlockSize(x, Greedy(x, hash, acceleration));
  }

  lemma NothingWritten(x: seq<byte>)
    ensures Written(x, [], 0, [])
  {
  }

  lemma FirstEarlier(h: nat)
    ensures Earlier(map[h := 0], 1)
  {
  }

  /** The sequences from the next match on, if the search finds one. */
  method NextMatches(x: seq<byte>, hash: nat -> nat, acceleration: nat, limit: Limit, out0: seq<byte>, anchor0: nat, ip: nat,
                     table0: Table, ghost s0: seq<Sequence>, ghost all: seq<Sequence>)
    returns (found: bool, ok: bool, out: seq<byte>, anchor: nat, table: Table, ghost s: seq<Sequence>)
    requires 1 <= acceleration && 1 <= ip && ip + MFLIMIT <= |x| + 1 && anchor0 < ip && Earlier(table0, ip)
    requires Written(x, s0, anchor0, out0) && Parses(x, 0, all)
    requires s0 + Searched(x, hash, acceleration, table0, anchor0, ip) == all
    ensures !found ==> s0 == all == s && out == out0 && anchor == anchor0
    ensures found && ok ==> Written(x, s, anchor, out) && ip < anchor <= |x| && Earlier(table, anchor + 1)
    ensures found && ok ==> s + Ahead(x, hash, acceleration, table, anchor) == all
    ensures found && !ok ==> Exceeds(|Block(x, 0, all)|, limit)
  {
    hide Earlier, Accepted, Written, Searched, FromMatch, FirstHit, Visit, Slot, Marked, Back, Near, Block, Get, Parses;
    SearchedHit(x, hash, acceleration, table0, anchor0, ip);
    ok, out, anchor, s := true, out0, anchor0, s0;
    var m, at;
    found, m, at, table := FindMatch(x, hash, acceleration, table0, ip);
    if !found {
      assert s0 + [] == s0;
      return;
    }
    AcceptedIs(x, m, at);
    ghost var filled := at;
    m, at := CatchUp(x, m, at, anchor);
    EarlierLater(table, filled + 1, filled + 4);
    ok, out, anchor, table, s := WriteMatches(x, hash, limit, out, anchor, m, at, table, acceleration, filled + 4 - at, s, all);
  }

  /**
    LZ4_compress_generic: the block for the greedy parse of the source, exactly when that is within the limit,
    which it always is when the limit is at least LZ4_COMPRESSBOUND.
   */
  method Compress(x: seq<byte>, hash: nat -> nat, acceleration: nat, limit: Limit)
    returns (r: Result)
    requires 1 <= acceleration
    ensures Parses(x, 0, Greedy(x, hash, acceleration))
    ensures
      var block := Block(x, 0, Greedy(x, hash, acceleration));
      |block| <= Bound(|x|) && r == if Exceeds(|block|, limit) then TooLarge else Fits(block)
  {
    hide Earlier, LiteralBytes, Bound, Written, Searched, Block, Parses, Get;
    ghost var s := Greedy(x, hash, acceleration);
    GreedyFits(x, hash, acceleration);
    ghost var done: seq<Sequence> := [];
    var out: seq<byte>, anchor: nat := [], 0;
    NothingWritten(x);
    FirstEarlier(hash(0));
    if |x| > MFLIMIT {
      var table: Table := map[hash(0) := 0];
      var ip: nat := 1;
      while true
        invariant 1 <= ip && ip + MFLIMIT <= |x| + 1 && anchor < ip && Earlier(table, ip)
        invariant Written(x, done, anchor, out)
        invariant done + Searched(x, hash, acceleration, table, anchor, ip) == s
        decreases |x| - ip
      {
        var found, ok;
        found, ok, out, anchor, table, done := NextMatches(x, hash, acceleration, limit, out, anchor, ip, table, done, s);
        if !found {
          break;
        }
        if !ok {
          return TooLarge;
        }
        if anchor >= |x| - MFLIMIT + 1 {
          break;
        }
        ip := anchor + 1;
      }
    }
    assert done == s;
    WrittenBlock(x, s, anchor, out);
    var lastRun := |x| - anchor;
    LastSize(x, anchor);
    if Exceeds(|out| + lastRun + 1 + (lastRun + 240) / 255, limit) {
      return TooLarge;
    }
    out := WriteLiterals(out, x, anchor, lastRun);
    return Fits(out);
  }
}
