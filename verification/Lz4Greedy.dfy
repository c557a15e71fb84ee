/**
  lz4.c: which matches the compressor takes, as a function of the source, the hashes of its positions and the
  acceleration.  It is greedy: the first position visited whose slot holds an acceptable match is taken.
 */
module Lz4Greedy {
  import opened Bytes
  import opened Lz4Format

  // ------------------------------------------------------------------ bytes in common

  /** How many bytes from i on, before the limit, equal those from m on. */
  function Agree(x: seq<byte>, m: nat, i: nat, limit: nat): (n: nat)
    requires m < i <= limit <= |x|
    ensures i + n <= limit
    decreases limit - i
  {
    if i < limit && x[m] == x[i] then Agree(x, m + 1, i + 1, limit) + 1 else 0
  }

  lemma {:induction false} AgreeSkip(x: seq<byte>, m: nat, i: nat, limit: nat, n: nat)
    requires m < i && i + n <= limit <= |x| && x[m..m + n] == x[i..i + n]
    ensures Agree(x, m, i, limit) == n + Agree(x, m + n, i + n, limit)
    decreases n
  {
    if n > 0 {
      assert x[m] == x[m..m + n][0] == x[i..i + n][0] == x[i];
      assert x[m + 1..m + n] == x[m..m + n][1..] == x[i..i + n][1..] == x[i + 1..i + n];
      AgreeSkip(x, m + 1, i + 1, limit, n - 1);
    }
  }

  lemma {:induction false} AgreeRepeats(x: seq<byte>, m: nat, i: nat, limit: nat)
    requires m < i <= limit <= |x|
    ensures Repeats(x, i, i - m, Agree(x, m, i, limit))
    decreases limit - i
  {
    if i < limit && x[m] == x[i] {
      AgreeRepeats(x, m + 1, i + 1, limit);
    }
  }

  lemma {:induction false} AgreeSame(x: seq<byte>, m: nat, i: nat, limit: nat, n: nat)
    requires m < i <= limit <= |x| && n <= Agree(x, m, i, limit)
    ensures x[m..m + n] == x[i..i + n]
    decreases n
  {
    if n > 0 {
      AgreeSame(x, m + 1, i + 1, limit, n - 1);
      assert x[m..m + n] == [x[m]] + x[m + 1..m + n];
      assert x[i..i + n] == [x[i]] + x[i + 1..i + n];
    }
  }

  lemma AgreeLess(x: seq<byte>, m: nat, i: nat, limit: nat, n: nat)
    requires m < i && i + n <= limit <= |x| && x[m..m + n] != x[i..i + n]
    ensures Agree(x, m, i, limit) < n
  {
    if n <= Agree(x, m, i, limit) {
      AgreeSame(x, m, i, limit, n);
    }
  }

  /** How many bytes before m and i agree, back to the anchor. */
  function Back(x: seq<byte>, m: nat, i: nat, anchor: nat): (n: nat)
    requires m < i <= |x|
    ensures n <= m && (anchor <= i ==> anchor + n <= i)
  {
    if i > anchor && m > 0 && x[i - 1] == x[m - 1] then Back(x, m - 1, i - 1, anchor) + 1 else 0
  }

  lemma {:induction false} BackAgrees(x: seq<byte>, m: nat, i: nat, anchor: nat, d: nat)
    requires m < i <= |x| && i == m + d
    ensures forall p :: m - Back(x, m, i, anchor) <= p < m ==> x[p] == x[p + d]
    decreases m
  {
    if i > anchor && m > 0 && x[i - 1] == x[m - 1] {
      BackAgrees(x, m - 1, i - 1, anchor, d);
    }
  }

  lemma BackSame(x: seq<byte>, m: nat, i: nat, anchor: nat, n: nat)
    requires m < i && i + n <= |x| && x[m..m + n] == x[i..i + n]
    ensures
      var b := Back(x, m, i, anchor);
      i - b >= 0 && x[m - b..m + n] == x[i - b..i + n]
  {
    hide Back;
    var b := Back(x, m, i, anchor);
    BackAgrees(x, m, i, anchor, i - m);
    assert x[m - b..m] == x[i - b..i];
    assert x[m - b..m + n] == x[m - b..m] + x[m..m + n];
    assert x[i - b..i + n] == x[i - b..i] + x[i..i + n];
  }

  // ------------------------------------------------------------------ one search

  type Table = map<nat, nat>

  /** Slots never written hold 0, the position of the first byte. */
  function Get(table: Table, h: nat): nat {
    if h in table then table[h] else 0
  }

  /** Below 64 KB and MFLIMIT - 1 bytes the table holds 16-bit positions, which are never too far. */
  predicate Near(x: seq<byte>, m: nat, ip: nat) {
    |x| < 65536 + 11 || ip <= m + DISTANCE_MAX
  }

  /** A match the code accepts: near enough and equal in four bytes. */
  predicate Accepted(x: seq<byte>, m: nat, ip: nat) {
    m < ip && ip + 4 <= |x| && Near(x, m, ip) && x[m..m + 4] == x[ip..ip + 4]
  }

  /** The k-th position visited: the first step is 1, the others grow by one after every 64. */
  function Visit(ip0: nat, acceleration: nat, k: nat): (ip: nat)
    requires 1 <= acceleration
    ensures ip >= ip0 + k
  {
    if k == 0 then ip0
    else Visit(ip0, acceleration, k - 1) + if k == 1 then 1 else acceleration + (k - 2) / 64
  }

  /** The table when k positions have been entered, each under its hash. */
  function Marked(hash: nat -> nat, acceleration: nat, table: Table, ip0: nat, k: nat): Table
    requires 1 <= acceleration
  {
    if k == 0 then table else
      var ip := Visit(ip0, acceleration, k - 1);
      Marked(hash, acceleration, table, ip0, k - 1)[hash(ip) := ip]
  }

  /** What the slot of the k-th position holds when that is visited. */
  function Slot(hash: nat -> nat, acceleration: nat, table: Table, ip0: nat, k: nat): nat
    requires 1 <= acceleration
  {
    Get(Marked(hash, acceleration, table, ip0, k), hash(Visit(ip0, acceleration, k)))
  }

  /** The k-th position is visited before the end of the search, and its slot holds an acceptable match. */
  predicate Hits(x: seq<byte>, hash: nat -> nat, acceleration: nat, table: Table, ip0: nat, k: nat)
    requires 1 <= acceleration
  {
    && Visit(ip0, acceleration, k + 1) + MFLIMIT <= |x| + 1
    && Accepted(x, Slot(hash, acceleration, table, ip0, k), Visit(ip0, acceleration, k))
  }

  datatype Option<T> = Some(value: T) | None

  /** The first hit from number k on. */
  function FirstHit(x: seq<byte>, hash: nat -> nat, acceleration: nat, table: Table, ip0: nat, k: nat): (r: Option<nat>)
    requires 1 <= acceleration
    ensures r.Some? ==> Hits(x, hash, acceleration, table, ip0, r.value)
    decreases |x| + 1 - Visit(ip0, acceleration, k + 1)
  {
    if Visit(ip0, acceleration, k + 1) + MFLIMIT > |x| + 1 then None
    else if Hits(x, hash, acceleration, table, ip0, k) then Some(k)
    else FirstHit(x, hash, acceleration, table, ip0, k + 1)
  }

  lemma VisitGrows(ip0: nat, acceleration: nat, k: nat)
    requires 1 <= acceleration
    ensures Visit(ip0, acceleration, k) < Visit(ip0, acceleration, k + 1)
  {
  }

  lemma {:induction false} VisitMono(ip0: nat, acceleration: nat, j: nat, k: nat)
    requires 1 <= acceleration && j <= k
    ensures Visit(ip0, acceleration, j) <= Visit(ip0, acceleration, k)
    decreases k
  {
    if j < k {
      VisitMono(ip0, acceleration, j, k - 1);
      VisitGrows(ip0, acceleration, k - 1);
    }
  }

  /** A search finds the first hit there is, and finds none only if there is none. */
  lemma {:induction false} FirstHitIs(x: seq<byte>, hash: nat -> nat, acceleration: nat, table: Table, ip0: nat, k: nat, j: nat)
    requires 1 <= acceleration && k <= j
    ensures
      var r := FirstHit(x, hash, acceleration, table, ip0, k);
      && (r.Some? ==> k <= r.value)
      && (Hits(x, hash, acceleration, table, ip0, j) ==> r.Some? && r.value <= j)
    decreases |x| + 1 - Visit(ip0, acceleration, k + 1)
  {
    hide Accepted, Slot, Visit;
    VisitMono(ip0, acceleration, k + 1, j + 1);
    VisitGrows(ip0, acceleration, k + 1);
    if Visit(ip0, acceleration, k + 1) + MFLIMIT <= |x| + 1 && !Hits(x, hash, acceleration, table, ip0, k) {
      FirstHitIs(x, hash, acceleration, table, ip0, k + 1, if j > k then j else k + 1);
    }
  }

  /** A slot holds the position visited last with that hash, and before there was one what it held at the start. */
  lemma {:induction false} MarkedIs(hash: nat -> nat, acceleration: nat, table: Table, ip0: nat, k: nat, h: nat, j: nat)
    requires 1 <= acceleration && j <= k
    requires forall i :: j <= i < k ==> hash(Visit(ip0, acceleration, i)) != h
    ensures
      var now := Get(Marked(hash, acceleration, table, ip0, k), h);
      && (j == 0 ==> now == Get(table, h))
      && (j > 0 && hash(Visit(ip0, acceleration, j - 1)) == h ==> now == Visit(ip0, acceleration, j - 1))
    decreases k
  {
    if j < k {
      MarkedIs(hash, acceleration, table, ip0, k - 1, h, j);
    }
  }

  // ------------------------------------------------------------------ all sequences

  /** Where a match ends. */
  function MatchEnd(x: seq<byte>, m: nat, ip: nat): (end: nat)
    requires m < ip && ip + MFLIMIT <= |x|
    ensures ip + MINMATCH <= end && end + LASTLITERALS <= |x|
  {
    ip + MINMATCH + Agree(x, m + MINMATCH, ip + MINMATCH, |x| - LASTLITERALS)
  }

  function Searched(x: seq<byte>, hash: nat -> nat, acceleration: nat, table: Table, anchor: nat, ip: nat): seq<Sequence>
    requires 1 <= acceleration && anchor < ip
    decreases |x| - ip, 0
  {
    var hit := FirstHit(x, hash, acceleration, table, ip, 0);
    if hit.None? then [] else
      VisitGrows(ip, acceleration, hit.value);
      var at, m := Visit(ip, acceleration, hit.value), Slot(hash, acceleration, table, ip, hit.value);
      var back := Back(x, m, at, anchor);
      [Sequence(at - back - anchor, at - m, MatchEnd(x, m, at) - (at - back))]
      + Continued(x, hash, acceleration, Marked(hash, acceleration, table, ip, hit.value + 1), MatchEnd(x, m, at))
  }

  /** The two entries made behind a match, and the position proposed for another right there. */
  function Refilled(hash: nat -> nat, table: Table, ip: nat): Table
    requires 2 <= ip
  {
    table[hash(ip - 2) := ip - 2][hash(ip) := ip]
  }

  function Proposed(hash: nat -> nat, table: Table, ip: nat): nat
    requires 2 <= ip
  {
    Get(table[hash(ip - 2) := ip - 2], hash(ip))
  }

  /** What follows a match that ends at ip. */
  function Continued(x: seq<byte>, hash: nat -> nat, acceleration: nat, table: Table, ip: nat): seq<Sequence>
    requires 1 <= acceleration && 2 <= ip
    decreases |x| - ip, 1
  {
    if ip + MFLIMIT > |x| then [] else
      var m := Proposed(hash, table, ip);
      if Accepted(x, m, ip) then
        [Sequence(0, ip - m, MatchEnd(x, m, ip) - ip)]
        + Continued(x, hash, acceleration, Refilled(hash, table, ip), MatchEnd(x, m, ip))
      else
        Searched(x, hash, acceleration, Refilled(hash, table, ip), ip, ip + 1)
  }

  /** The sequences of a source. */
  function Greedy(x: seq<byte>, hash: nat -> nat, acceleration: nat): seq<Sequence>
    requires 1 <= acceleration
  {
    if |x| <= MFLIMIT then [] else Searched(x, hash, acceleration, map[hash(0) := 0], 0, 1)
  }

  /** The sequences still to come when the code is behind a match without a direct successor. */
  ghost function Ahead(x: seq<byte>, hash: nat -> nat, acceleration: nat, table: Table, anchor: nat): seq<Sequence>
    requires 1 <= acceleration
  {
    if anchor + MFLIMIT > |x| then [] else Searched(x, hash, acceleration, table, anchor, anchor + 1)
  }

  /** The sequences still to come when the code is at a match. */
  ghost function FromMatch(x: seq<byte>, hash: nat -> nat, acceleration: nat, table: Table, anchor: nat, m: nat, ip: nat): seq<Sequence>
    requires 1 <= acceleration && anchor <= ip && m < ip && ip + MFLIMIT <= |x|
  {
    [Sequence(ip - anchor, ip - m, MatchEnd(x, m, ip) - ip)] + Continued(x, hash, acceleration, table, MatchEnd(x, m, ip))
  }

  lemma NextSequence(x: seq<byte>, hash: nat -> nat, acceleration: nat, table: Table, anchor: nat, m: nat, ip: nat,
                     s: seq<Sequence>, all: seq<Sequence>)
    requires 1 <= acceleration && anchor <= ip && m < ip && ip + MFLIMIT <= |x|
    requires s + FromMatch(x, hash, acceleration, table, anchor, m, ip) == all
    ensures
      var end := MatchEnd(x, m, ip);
      (s + [Sequence(ip - anchor, ip - m, end - ip)]) + Continued(x, hash, acceleration, table, end) == all
  {
    hide Continued, MatchEnd;
  }

  lemma ContinuedIs(x: seq<byte>, hash: nat -> nat, acceleration: nat, table: Table, ip: nat)
    requires 1 <= acceleration && 2 <= ip
    ensures
      var m := Proposed(hash, table, ip);
      Continued(x, hash, acceleration, table, ip)
      == if ip + MFLIMIT <= |x| && Accepted(x, m, ip)
         then FromMatch(x, hash, acceleration, Refilled(hash, table, ip), ip, m, ip)
         else if ip + MFLIMIT <= |x| then Ahead(x, hash, acceleration, Refilled(hash, table, ip), ip)
         else []
    ensures ip + MFLIMIT > |x| ==> Ahead(x, hash, acceleration, table, ip) == []
  {
    hide Accepted, Refilled, Proposed, Searched;
  }

  /** A match extended backwards ends where it ended. */
  lemma BackEnd(x: seq<byte>, m: nat, ip: nat, anchor: nat)
    requires m < ip && ip + MFLIMIT <= |x| && anchor <= ip && x[m..m + 4] == x[ip..ip + 4]
    ensures MatchEnd(x, m - Back(x, m, ip, anchor), ip - Back(x, m, ip, anchor)) == MatchEnd(x, m, ip)
  {
    hide Agree, Back;
    var b := Back(x, m, ip, anchor);
    BackSame(x, m, ip, anchor, 4);
    var s, t := x[m - b..m + 4], x[ip - b..ip + 4];
    assert x[m - b + 4..m + 4] == s[4..] && x[ip - b + 4..ip + 4] == t[4..];
    AgreeSkip(x, m - b + 4, ip - b + 4, |x| - LASTLITERALS, b);
  }

  /** A hit of the search, extended backwards, is where the next sequence begins. */
  lemma SearchedHit(x: seq<byte>, hash: nat -> nat, acceleration: nat, table: Table, anchor: nat, ip: nat)
    requires 1 <= acceleration && anchor < ip
    ensures
      var hit := FirstHit(x, hash, acceleration, table, ip, 0);
      if hit.None? then Searched(x, hash, acceleration, table, anchor, ip) == []
      else
        var at, m := Visit(ip, acceleration, hit.value), Slot(hash, acceleration, table, ip, hit.value);
        m < at && at + MFLIMIT <= |x| && anchor <= at
        && var b := Back(x, m, at, anchor);
        Searched(x, hash, acceleration, table, anchor, ip)
        == FromMatch(x, hash, acceleration, Marked(hash, acceleration, table, ip, hit.value + 1), anchor, m - b, at - b)
  {
    hide MatchEnd, Marked, Back, Visit, Slot, FirstHit;
    var hit := FirstHit(x, hash, acceleration, table, ip, 0);
    if hit.Some? {
      VisitGrows(ip, acceleration, hit.value);
      BackEnd(x, Slot(hash, acceleration, table, ip, hit.value), Visit(ip, acceleration, hit.value), anchor);
    }
  }

  /** The match that is counted is one the format allows, and covers what was known to agree. */
  lemma MatchAllowed(x: seq<byte>, m: nat, ip: nat, same: nat)
    requires m < ip && ip - m <= DISTANCE_MAX && ip + MFLIMIT <= |x|
    requires MINMATCH <= same && ip + same + LASTLITERALS <= |x| && x[m..m + same] == x[ip..ip + same]
    ensures
      ip + same <= MatchEnd(x, m, ip) && Allowed(x, ip, ip - m, MatchEnd(x, m, ip) - ip)
  {
    hide Agree;
    var limit := |x| - LASTLITERALS;
    AgreeSkip(x, m, ip, limit, same);
    assert x[m..m + MINMATCH] == x[m..m + same][..MINMATCH] == x[ip..ip + same][..MINMATCH] == x[ip..ip + MINMATCH];
    AgreeSkip(x, m, ip, limit, MINMATCH);
    AgreeRepeats(x, m, ip, limit);
  }

  /** In either kind of table the matches accepted are those of the format's distance. */
  lemma AcceptedIs(x: seq<byte>, m: nat, ip: nat)
    ensures Accepted(x, m, ip) <==> m < ip && ip + 4 <= |x| && Near(x, m, ip) && x[m..m + 4] == x[ip..ip + 4]
    ensures ip + MFLIMIT <= |x| ==>
      (Accepted(x, m, ip) <==> m < ip && ip - m <= DISTANCE_MAX && x[m..m + 4] == x[ip..ip + 4])
  {
  }

  /** An accepted match, extended backwards, is one the format allows. */
  lemma HitAllowed(x: seq<byte>, m: nat, ip: nat, anchor: nat)
    requires Accepted(x, m, ip) && ip + MFLIMIT <= |x| && anchor <= ip
    ensures
      var b := Back(x, m, ip, anchor);
      anchor <= ip - b && Allowed(x, ip - b, ip - m, MatchEnd(x, m, ip) - (ip - b))
  {
    hide Agree, Back, Allowed, Near;
    var b := Back(x, m, ip, anchor);
    AcceptedIs(x, m, ip);
    BackSame(x, m, ip, anchor, 4);
    BackEnd(x, m, ip, anchor);
    MatchAllowed(x, m - b, ip - b, 4 + b);
  }

  lemma ParsesAfter(x: seq<byte>, pos: nat, q: Sequence, rest: seq<Sequence>)
    requires Allowed(x, pos + q.literals, q.offset, q.length) && Parses(x, pos + q.literals + q.length, rest)
    ensures Parses(x, pos, [q] + rest)
  {
    assert ([q] + rest)[1..] == rest;
  }

  lemma {:induction false} SearchedParses(x: seq<byte>, hash: nat -> nat, acceleration: nat, table: Table, anchor: nat, ip: nat)
    requires 1 <= acceleration && anchor < ip && anchor <= |x|
    ensures Parses(x, anchor, Searched(x, hash, acceleration, table, anchor, ip))
    decreases |x| - ip, 0
  {
    hide Accepted, Allowed, Agree, Back, Marked, Visit, FirstHit, Slot, Continued, MatchEnd, Parses;
    var hit := FirstHit(x, hash, acceleration, table, ip, 0);
    if hit.None? {
      ParsesNothing(x, anchor);
    } else {
      VisitGrows(ip, acceleration, hit.value);
      var at, m := Visit(ip, acceleration, hit.value), Slot(hash, acceleration, table, ip, hit.value);
      AcceptedIs(x, m, at);
      var back := Back(x, m, at, anchor);
      HitAllowed(x, m, at, anchor);
      var marked := Marked(hash, acceleration, table, ip, hit.value + 1);
      ContinuedParses(x, hash, acceleration, marked, MatchEnd(x, m, at));
      ParsesAfter(x, anchor, Sequence(at - back - anchor, at - m, MatchEnd(x, m, at) - (at - back)),
                  Continued(x, hash, acceleration, marked, MatchEnd(x, m, at)));
    }
  }

  lemma ParsesNothing(x: seq<byte>, pos: nat)
    requires pos <= |x|
    ensures Parses(x, pos, [])
  {
  }

  lemma {:induction false} ContinuedParses(x: seq<byte>, hash: nat -> nat, acceleration: nat, table: Table, ip: nat)
    requires 1 <= acceleration && 2 <= ip <= |x|
    ensures Parses(x, ip, Continued(x, hash, acceleration, table, ip))
    decreases |x| - ip, 1
  {
    hide Accepted, Allowed, Agree, Proposed, Refilled, Searched, MatchEnd, Parses;
    ParsesNothing(x, ip);
    if ip + MFLIMIT <= |x| {
      var m := Proposed(hash, table, ip);
      if Accepted(x, m, ip) {
        AcceptedIs(x, m, ip);
        MatchAllowed(x, m, ip, 4);
        ContinuedParses(x, hash, acceleration, Refilled(hash, table, ip), MatchEnd(x, m, ip));
        ParsesAfter(x, ip, Sequence(0, ip - m, MatchEnd(x, m, ip) - ip),
                    Continued(x, hash, acceleration, Refilled(hash, table, ip), MatchEnd(x, m, ip)));
      } else {
        SearchedParses(x, hash, acceleration, Refilled(hash, table, ip), ip, ip + 1);
      }
    }
  }

  /** Whatever the hashes, the sequences are ones the format allows. */
  lemma GreedyParses(x: seq<byte>, hash: nat -> nat, acceleration: nat)
    requires 1 <= acceleration
    ensures Parses(x, 0, Greedy(x, hash, acceleration))
  {
    if |x| > MFLIMIT {
      SearchedParses(x, hash, acceleration, map[hash(0) := 0], 0, 1);
    }
  }

  // ------------------------------------------------------------------ one byte repeated

  lemma {:induction false} AgreeAll(x: seq<byte>, m: nat, i: nat, limit: nat)
    requires m < i <= limit <= |x| && forall j, k :: 0 <= j < k < |x| ==> x[j] == x[k]
    ensures Agree(x, m, i, limit) == limit - i
    decreases limit - i
  {
    if i < limit {
      AgreeAll(x, m + 1, i + 1, limit);
    }
  }

  /** Equal bytes, with equal hashes for the first two positions: one literal, and a match for all but the last five. */
  lemma EqualBytes(x: seq<byte>, hash: nat -> nat, acceleration: nat)
    requires 1 <= acceleration && |x| > MFLIMIT
    requires forall j, k :: 0 <= j < k < |x| ==> x[j] == x[k]
    requires hash(0) == hash(1)
    ensures Greedy(x, hash, acceleration) == [Sequence(1, 1, |x| - 6)]
  {
    hide FirstHit, Agree, Continued;
    var table: Table := map[hash(0) := 0];
    assert Visit(1, acceleration, 1) == 2;
    assert Slot(hash, acceleration, table, 1, 0) == 0;
    assert x[0..4] == x[1..5];
    assert Hits(x, hash, acceleration, table, 1, 0);
    FirstHitIs(x, hash, acceleration, table, 1, 0, 0);
    AgreeAll(x, MINMATCH, 1 + MINMATCH, |x| - LASTLITERALS);
    assert Continued(x, hash, acceleration, Marked(hash, acceleration, table, 1, 1), |x| - 5) == [] by {
      NothingBehind(x, hash, acceleration, Marked(hash, acceleration, table, 1, 1));
    }
  }

  lemma NothingBehind(x: seq<byte>, hash: nat -> nat, acceleration: nat, table: Table)
    requires 1 <= acceleration && |x| > MFLIMIT
    ensures Continued(x, hash, acceleration, table, |x| - 5) == []
  {
  }

  /** Their block has one byte for every 255 of the source and at most 11 more. */
  lemma EqualBytesBlock(x: seq<byte>, hash: nat -> nat, acceleration: nat)
    requires 1 <= acceleration && |x| > MFLIMIT
    requires forall j, k :: 0 <= j < k < |x| ==> x[j] == x[k]
    requires hash(0) == hash(1)
    ensures Parses(x, 0, Greedy(x, hash, acceleration))
    ensures |Block(x, 0, Greedy(x, hash, acceleration))| <= |x| / 255 + 11
  {
    hide LengthBytes;
    EqualBytes(x, hash, acceleration);
    var q := Sequence(1, 1, |x| - 6);
    ParsesOne(x, 0, q);
    ParsesEnd(x, 0, [q]);
    if |x| >= 25 {
      LengthBytesSize(|x| - 25);
    }
  }
}
