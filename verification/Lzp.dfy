/**
  LZP.c: a predictor that replaces repeats of what last followed the same four bytes, with escapes
  written in band.  Encoder and decoder fill their context tables from the bytes they have passed, so
  both name the same earlier positions at every step.
 */
module Lzp {
  import opened Bytes

  const MATCH_FLAG: byte := 0xF2
  const RUN_FLAG: byte := 0xF3

  /** Exclusive or with 0xFF ^ RUN_FLAG = 0x0C, which flips bits 2 and 3. */
  function Flip(b: byte): byte {
    Join(b / 16, 3 - b / 4 % 4, b % 4)
  }

  function Join(high: nat, mid: nat, low: nat): nat {
    16 * high + 4 * mid + low
  }

  lemma Joined(b: byte)
    ensures Join(b / 16, b / 4 % 4, b % 4) == b
  {
  }

  lemma Fields(high: nat, mid: nat, low: nat)
    requires mid < 4 && low < 4
    ensures var b := Join(high, mid, low); b / 16 == high && b / 4 % 4 == mid && b % 4 == low
  {
    assert Join(high, mid, low) / 4 == 4 * high + mid;
  }

  lemma FlipTwice(b: byte)
    ensures Flip(Flip(b)) == b
  {
    var high, mid, low := b / 16, b / 4 % 4, b % 4;
    Joined(b);
    Fields(high, 3 - mid, low);
    hide Join;
  }

  lemma FlipRun(b: byte)
    ensures Flip(b) == RUN_FLAG <==> b == 255
  {
    FlipTwice(b);
    RunFlags();
    hide Flip;
  }

  lemma RunFlags()
    ensures Flip(255) == RUN_FLAG && Flip(RUN_FLAG) == 255
  {
    Fields(15, 3, 3);
    Fields(15, 0, 3);
  }

  /** The four bytes before position i as a 32-bit word, the last one least significant. */
  function Ctx(x: seq<byte>, i: nat): (c: nat)
    requires 4 <= i <= |x|
    ensures c < 0x1_0000_0000
  {
    Word(x[i - 4], x[i - 3], x[i - 2], x[i - 1])
  }

  function Word(a: nat, b: nat, c: nat, d: nat): nat {
    d + 0x100 * c + 0x1_0000 * b + 0x100_0000 * a
  }

  function Shifted(ctx: nat, ch: byte): nat {
    ctx * 0x100 % 0x1_0000_0000 + ch
  }

  lemma Wrapped(low: nat, a: nat)
    requires low < 0x1_0000_0000
    ensures (low + a * 0x1_0000_0000) % 0x1_0000_0000 == low
  {
  }

  lemma ShiftedWord(a: nat, b: nat, c: nat, d: nat, e: byte)
    requires a < 256 && b < 256 && c < 256 && d < 256
    ensures Shifted(Word(a, b, c, d), e) == Word(b, c, d, e)
  {
    var low := 0x100 * d + 0x1_0000 * c + 0x100_0000 * b;
    Wrapped(low, a);
    assert Word(a, b, c, d) * 0x100 == low + a * 0x1_0000_0000;
  }

  lemma ShiftedCtx(x: seq<byte>, i: nat)
    requires 4 <= i < |x|
    ensures Shifted(Ctx(x, i), x[i]) == Ctx(x, i + 1)
  {
    ShiftedWord(x[i - 4], x[i - 3], x[i - 2], x[i - 1], x[i]);
  }

  /** The slot of the context table of mask + 1 entries, mask being LZP_HT_Size; a slot without an entry is NULL. */
  function Slot(ctx: bv32, mask: bv32): (s: bv32)
    ensures s <= mask
  {
    ((ctx >> 15) ^ ctx ^ (ctx >> 3)) & mask
  }

  function Hash(mask: bv32): nat -> nat {
    c => Slot((c % 0x1_0000_0000) as bv32, mask) as nat
  }

  // ------------------------------------------------------------------ the code of a block

  /** How far the text at p agrees with the text at i. */
  function Common(x: seq<byte>, p: nat, i: nat): (n: nat)
    requires p < i <= |x|
    ensures i + n <= |x|
    decreases |x| - i
  {
    if i < |x| && x[p] == x[i] then Common(x, p + 1, i + 1) + 1 else 0
  }

  /** The bytes counted agree, and no more do. */
  lemma {:induction false} CommonAgrees(x: seq<byte>, p: nat, i: nat, k: nat)
    requires p < i <= |x| && k <= Common(x, p, i)
    ensures i + k < |x| ==> (x[p + k] == x[i + k] <==> k < Common(x, p, i))
    decreases k
  {
    if k > 0 {
      CommonAgrees(x, p + 1, i + 1, k - 1);
    }
  }

  /** Table entries name earlier positions of the block. */
  predicate Names(t: map<nat, nat>, i: nat) {
    forall s :: s in t ==> 4 <= t[s] < i
  }

  /**
    The match taken at i when the table names p: none unless four bytes around the minimal length agree,
    a test that looks past the end of the block into the memory behind it.
   */
  function MatchLength(x: seq<byte>, behind: seq<byte>, min: nat, p: nat, i: nat): (n: nat)
    requires 4 <= p < i < |x| && min <= |behind|
    ensures n == 0 || (n == Common(x, p, i) && min <= n)
  {
    if (x + behind)[i + min - 4..i + min] == (x + behind)[p + min - 4..p + min] && Common(x, p, i) >= min then
      Common(x, p, i)
    else
      0
  }

  /** A match length less the minimum plus one, in runs of 255. */
  function RunCode(n: nat): (s: seq<byte>)
    ensures 1 <= |s|
  {
    if n > 254 then [RUN_FLAG] + RunCode(n - 255) else [Flip(n)]
  }

  /** How many bytes the step at i covers. */
  function Taken(x: seq<byte>, behind: seq<byte>, min: nat, hash: nat -> nat, t: map<nat, nat>, i: nat): (n: nat)
    requires 4 <= i < |x| && min <= |behind| && Names(t, i)
    ensures 1 <= n && i + n <= |x|
  {
    var s := hash(Ctx(x, i));
    if s in t && MatchLength(x, behind, min, t[s], i) > 0 then MatchLength(x, behind, min, t[s], i) else 1
  }

  /** What the step at i writes. */
  function Written(x: seq<byte>, behind: seq<byte>, min: nat, hash: nat -> nat, t: map<nat, nat>, i: nat): (s: seq<byte>)
    requires 4 <= i < |x| && min <= |behind| && Names(t, i)
    ensures 1 <= |s|
  {
    var s := hash(Ctx(x, i));
    if s !in t then
      [x[i]]
    else
      NamedCode(MatchLength(x, behind, min, t[s], i), min, x[i])
  }

  /** What a named step writes: a match, or a literal that is told from one. */
  function NamedCode(n: nat, min: nat, ch: byte): (s: seq<byte>)
    ensures 1 <= |s|
  {
    if n >= min && n > 0 then [MATCH_FLAG] + RunCode(n - min + 1)
    else if ch == MATCH_FLAG then [ch, Flip(0)]
    else [ch]
  }

  function Next(x: seq<byte>, hash: nat -> nat, t: map<nat, nat>, i: nat): (u: map<nat, nat>)
    requires 4 <= i < |x| && Names(t, i)
    ensures Names(u, i + 1)
  {
    var slot := hash(Ctx(x, i));
    hide Ctx;
    t[slot := i]
  }

  function Code(x: seq<byte>, behind: seq<byte>, min: nat, hash: nat -> nat, t: map<nat, nat>, i: nat): (s: seq<byte>)
    requires 4 <= i <= |x| && min <= |behind| && Names(t, i)
    ensures s == [] <==> i == |x|
    decreases |x| - i
  {
    hide Taken, Written, Next, Ctx;
    if i == |x| then
      []
    else
      var n := Taken(x, behind, min, hash, t, i);
      Written(x, behind, min, hash, t, i) + Code(x, behind, min, hash, Next(x, hash, t, i), i + n)
  }

  lemma CodeStep(x: seq<byte>, behind: seq<byte>, min: nat, hash: nat -> nat, t: map<nat, nat>, i: nat)
    requires 4 <= i < |x| && min <= |behind| && Names(t, i)
    ensures
      var n := Taken(x, behind, min, hash, t, i);
      var u := Next(x, hash, t, i);
      && u == t[hash(Ctx(x, i)) := i] && Names(u, i + n)
      && Code(x, behind, min, hash, t, i) ==
         Written(x, behind, min, hash, t, i) + Code(x, behind, min, hash, u, i + n)
  {
    hide Taken, Written, Ctx;
  }

  /** The whole output of the encoder. */
  function BlockCode(x: seq<byte>, behind: seq<byte>, min: nat, hash: nat -> nat): seq<byte>
    requires 4 <= |x| && min <= |behind|
  {
    x[..4] + Code(x, behind, min, hash, map[], 4)
  }

  /** Before the first step no position is named. */
  lemma NamesNone(x: seq<byte>, behind: seq<byte>, min: nat, hash: nat -> nat)
    requires 4 <= |x| && min <= |behind|
    ensures Names(map[], 4) && BlockCode(x, behind, min, hash) == x[..4] + Code(x, behind, min, hash, map[], 4)
  {
  }

  lemma Inside(x: seq<byte>, b: seq<byte>, k: nat)
    requires k + 4 <= |x|
    ensures (x + b)[k..k + 4] == x[k..k + 4]
  {
  }

  /** The memory behind the block is read, but what is there makes no difference. */
  lemma BehindIsIdle(x: seq<byte>, b: seq<byte>, c: seq<byte>, min: nat, p: nat, i: nat)
    requires 4 <= p < i < |x| && min <= |b| && min <= |c|
    ensures MatchLength(x, b, min, p, i) == MatchLength(x, c, min, p, i)
  {
    if Common(x, p, i) >= min {
      Inside(x, b, i + min - 4);
      Inside(x, c, i + min - 4);
      Inside(x, b, p + min - 4);
      Inside(x, c, p + min - 4);
    }
  }

  lemma StepIsIdle(x: seq<byte>, b: seq<byte>, c: seq<byte>, min: nat, hash: nat -> nat, t: map<nat, nat>, i: nat)
    requires 4 <= i < |x| && min <= |b| && min <= |c| && Names(t, i)
    ensures Taken(x, b, min, hash, t, i) == Taken(x, c, min, hash, t, i)
    ensures Written(x, b, min, hash, t, i) == Written(x, c, min, hash, t, i)
  {
    var s := hash(Ctx(x, i));
    if s in t {
      BehindIsIdle(x, b, c, min, t[s], i);
    }
    hide MatchLength, RunCode, Ctx, Common;
  }

  lemma {:induction false} CodeIsIdle(
    x: seq<byte>, b: seq<byte>, c: seq<byte>, min: nat, hash: nat -> nat, t: map<nat, nat>, i: nat
  )
    requires 4 <= i <= |x| && min <= |b| && min <= |c| && Names(t, i)
    ensures Code(x, b, min, hash, t, i) == Code(x, c, min, hash, t, i)
    decreases |x| - i
  {
    hide Taken, Written, Next, Ctx, Names, Code;
    if i < |x| {
      StepIsIdle(x, b, c, min, hash, t, i);
      CodeStep(x, b, min, hash, t, i);
      CodeStep(x, c, min, hash, t, i);
      CodeIsIdle(x, b, c, min, hash, Next(x, hash, t, i), i + Taken(x, b, min, hash, t, i));
    } else {
      CodeEnds(x, b, min, hash, t);
      CodeEnds(x, c, min, hash, t);
    }
  }

  lemma CodeEnds(x: seq<byte>, b: seq<byte>, min: nat, hash: nat -> nat, t: map<nat, nat>)
    requires 4 <= |x| && min <= |b| && Names(t, |x|)
    ensures Code(x, b, min, hash, t, |x|) == []
  {
  }

  /** The code of a block depends on the block alone. */
  lemma BlockIsIdle(x: seq<byte>, b: seq<byte>, c: seq<byte>, min: nat, hash: nat -> nat)
    requires 4 <= |x| && min <= |b| && min <= |c|
    ensures BlockCode(x, b, min, hash) == BlockCode(x, c, min, hash)
  {
    CodeIsIdle(x, b, c, min, hash, map[], 4);
  }

  /** With a minimum of four or more the early test changes nothing: every match that is long enough is taken. */
  lemma LongIsTaken(x: seq<byte>, behind: seq<byte>, min: nat, p: nat, i: nat)
    requires 4 <= p < i < |x| && 4 <= min <= |behind|
    ensures MatchLength(x, behind, min, p, i) == if Common(x, p, i) >= min then Common(x, p, i) else 0
  {
    hide Common;
    if Common(x, p, i) >= min {
      CommonAgrees(x, p, i, min - 4);
      CommonAgrees(x, p, i, min - 3);
      CommonAgrees(x, p, i, min - 2);
      CommonAgrees(x, p, i, min - 1);
      SameFour(x, behind, p + min - 4, i + min - 4);
    }
  }

  lemma SameFour(x: seq<byte>, behind: seq<byte>, a: nat, b: nat)
    requires a + 4 <= |x| && b + 4 <= |x|
    requires x[a] == x[b] && x[a + 1] == x[b + 1] && x[a + 2] == x[b + 2] && x[a + 3] == x[b + 3]
    ensures (x + behind)[a..a + 4] == (x + behind)[b..b + 4]
  {
    Inside(x, behind, a);
    Inside(x, behind, b);
  }

  lemma {:induction false} CommonAll(x: seq<byte>, p: nat, i: nat)
    requires p < i <= |x| && forall j, k :: 0 <= j < k < |x| ==> x[j] == x[k]
    ensures Common(x, p, i) == |x| - i
    decreases |x| - i
  {
    if i < |x| {
      CommonAll(x, p + 1, i + 1);
    }
  }

  lemma {:induction false} RunCodeSize(n: nat)
    ensures |RunCode(n)| == n / 255 + 1
  {
    if n > 254 {
      RunCodeSize(n - 255);
    }
  }

  /** Equal bytes are five literals and one match: one byte for every 255 and at most seven more. */
  lemma EqualBytes(x: seq<byte>, behind: seq<byte>, min: nat, hash: nat -> nat)
    requires 4 <= min <= |behind| && |x| >= 5 + min && forall j, k :: 0 <= j < k < |x| ==> x[j] == x[k]
    ensures |BlockCode(x, behind, min, hash)| <= |x| / 255 + 7
  {
    hide Code, Common, MatchLength, RunCode;
    NamesNone(x, behind, min, hash);
    CodeStep(x, behind, min, hash, map[], 4);
    var t := Next(x, hash, map[], 4);
    assert Ctx(x, 4) == Ctx(x, 5);
    CommonAll(x, 4, 5);
    LongIsTaken(x, behind, min, 4, 5);
    CodeStep(x, behind, min, hash, t, 5);
    CodeEnds(x, behind, min, hash, Next(x, hash, t, 5));
    RunCodeSize(|x| - 5 - min + 1);
  }

  // ------------------------------------------------------------------ encoder

  datatype Result = Packed(size: nat) | NotCompressible

  lemma CommonStep(x: seq<byte>, p: nat, i: nat)
    requires p < i < |x|
    ensures Common(x, p, i) == if x[p] == x[i] then Common(x, p + 1, i + 1) + 1 else 0
  {
  }

  method Count(x: seq<byte>, p: nat, i: nat) returns (n: nat)
    requires p < i <= |x|
    ensures n == Common(x, p, i)
  {
    hide Common;
    n := 0;
    while i + n < |x|
      invariant i + n <= |x| && n + Common(x, p + n, i + n) == Common(x, p, i)
    {
      CommonStep(x, p + n, i + n);
      if x[i + n] != x[p + n] {
        break;
      }
      n := n + 1;
    }
  }

  /** Writes a match length; stops when the output is as long as the block. */
  method WriteRuns(n: nat, output: array<byte>, at: nat) returns (o: nat, full: bool)
    requires at < output.Length
    modifies output
    ensures at <= o <= output.Length && output[..at] == old(output[..at])
    ensures !full ==> output[at..o] == RunCode(n)
    ensures full ==> output.Length - 1 <= o < at + |RunCode(n)|
  {
    var rest := n;
    o := at;
    while rest > 254
      invariant at <= o < output.Length && output[..at] == old(output[..at])
      invariant output[at..o] + RunCode(rest) == RunCode(n)
    {
      ghost var done := output[at..o];
      output[o] := RUN_FLAG;
      assert output[at..o + 1] == done + [RUN_FLAG];
      assert done + RunCode(rest) == (done + [RUN_FLAG]) + RunCode(rest - 255);
      o := o + 1;
      if o >= output.Length - 1 {
        assert |RunCode(n)| == (o - at) + |RunCode(rest - 255)|;
        return o, true;
      }
      rest := rest - 255;
    }
    ghost var done := output[at..o];
    output[o] := Flip(rest);
    assert output[at..o + 1] == done + [Flip(rest)];
    return o + 1, false;
  }

  /** The step at i when the table names p and n bytes agree, n = 0 for none. */
  lemma NamedStep(x: seq<byte>, behind: seq<byte>, min: nat, hash: nat -> nat, t: map<nat, nat>, i: nat, n: nat)
    requires 4 <= i < |x| && min <= |behind| && Names(t, i)
    requires hash(Ctx(x, i)) in t && n == MatchLength(x, behind, min, t[hash(Ctx(x, i))], i)
    ensures Taken(x, behind, min, hash, t, i) == if n > 0 then n else 1
    ensures Written(x, behind, min, hash, t, i) == NamedCode(n, min, x[i])
  {
    hide Ctx, MatchLength, RunCode, Flip, Common;
  }

  lemma PlainStep(x: seq<byte>, behind: seq<byte>, min: nat, hash: nat -> nat, t: map<nat, nat>, i: nat)
    requires 4 <= i < |x| && min <= |behind| && Names(t, i)
    requires hash(Ctx(x, i)) !in t
    ensures Taken(x, behind, min, hash, t, i) == 1
    ensures Written(x, behind, min, hash, t, i) == [x[i]]
  {
    hide Ctx, MatchLength, RunCode, Flip, Common;
  }

  /** The search for a match at i. */
  method Search(x: seq<byte>, behind: seq<byte>, min: nat, p: nat, i: nat) returns (n: nat)
    requires 4 <= p < i < |x| && min <= |behind|
    ensures n == MatchLength(x, behind, min, p, i)
  {
    n := 0;
    if (x + behind)[i + min - 4..i + min] == (x + behind)[p + min - 4..p + min] {
      n := Count(x, p, i);
    }
    if n < min {
      n := 0;
    }
  }

  method WriteLiteral(ch: byte, output: array<byte>, at: nat, escape: bool) returns (o: nat)
    requires at + 1 < output.Length
    modifies output
    ensures at < o <= output.Length
    ensures output[..o] == old(output[..at]) + if escape && ch == MATCH_FLAG then [ch, Flip(0)] else [ch]
  {
    output[at] := ch;
    o := at + 1;
    if escape && ch == MATCH_FLAG {
      output[o] := Flip(0);
      o := o + 1;
    }
  }

  /** Writes the step at i: a match or a literal byte. */
  method WriteStep(x: seq<byte>, behind: seq<byte>, output: array<byte>, min: nat, ghost hash: nat -> nat,
                   contexts: map<nat, nat>, slot: nat, i: nat, at: nat)
    returns (n: nat, o: nat, full: bool, matched: bool)
    requires 4 <= i < |x| && min <= |behind| && Names(contexts, i) && slot == hash(Ctx(x, i))
    requires output.Length == |x| && at < |x| - 1
    modifies output
    ensures !full ==> n == Taken(x, behind, min, hash, contexts, i) && at < o <= |x|
    ensures !full ==> output[..o] == old(output[..at]) + Written(x, behind, min, hash, contexts, i)
    ensures full ==> |x| - 1 < at + |Written(x, behind, min, hash, contexts, i)|
    ensures !full && !matched ==> n == 1
  {
    hide Ctx, MatchLength, Written, Taken, RunCode, Flip, Common, Names;
    NamesAt(contexts, i, slot);
    n, full := 0, false;
    if slot in contexts {
      n := Search(x, behind, min, contexts[slot], i);
      NamedStep(x, behind, min, hash, contexts, i, n);
    } else {
      PlainStep(x, behind, min, hash, contexts, i);
    }
    matched := n > 0;
    if matched {
      output[at] := MATCH_FLAG;
      assert output[..at + 1] == old(output[..at]) + [MATCH_FLAG];
      o, full := WriteRuns(n - min + 1, output, at + 1);
      assert !full ==> output[..o] == output[..at + 1] + output[at + 1..o];
    } else {
      n := 1;
      o := WriteLiteral(x[i], output, at, slot in contexts);
    }
  }

  /**
    Refuses exactly the blocks whose code would not save two bytes; otherwise writes that code.  The output
    buffer is only as long as the block.
   */
  method Encode(x: seq<byte>, behind: seq<byte>, output: array<byte>, min: nat, hash: nat -> nat) returns (r: Result)
    requires 4 <= |x| && min <= |behind| && output.Length == |x|
    modifies output
    ensures r.NotCompressible? <==> |BlockCode(x, behind, min, hash)| >= |x| - 1
    ensures r.Packed? ==> r.size < |x| && output[..r.size] == BlockCode(x, behind, min, hash)
  {
    hide Code, Ctx, Shifted, MatchLength, Written, Taken, RunCode, Names, BlockCode, Next;
    var contexts: map<nat, nat> := map[];
    NamesNone(x, behind, min, hash);
    output[0], output[1], output[2], output[3] := x[0], x[1], x[2], x[3];
    assert output[..4] == x[..4];
    var ctx, i, o := Ctx(x, 4), 4, 4;
    while i < |x| && o < |x| - 1
      invariant 4 <= i <= |x| && 4 <= o <= |x| && Names(contexts, i) && ctx == Ctx(x, i)
      invariant output[..o] + Code(x, behind, min, hash, contexts, i) == BlockCode(x, behind, min, hash)
    {
      CodeStep(x, behind, min, hash, contexts, i);
      ghost var done, code := output[..o], Written(x, behind, min, hash, contexts, i);
      ghost var rest := Code(x, behind, min, hash, Next(x, hash, contexts, i), i + Taken(x, behind, min, hash, contexts, i));
      assert BlockCode(x, behind, min, hash) == (done + code) + rest;
      var slot := hash(ctx);
      var n, full, matched;
      n, o, full, matched := WriteStep(x, behind, output, min, hash, contexts, slot, i, o);
      if full {
        return NotCompressible;
      }
      contexts := contexts[slot := i];
      if matched {
        ctx := Ctx(x, i + n);
      } else {
        ShiftedCtx(x, i);
        ctx := Shifted(ctx, x[i]);
      }
      i := i + n;
    }
    if o >= |x| - 1 {
      return NotCompressible;
    }
    return Packed(o);
  }

  // ------------------------------------------------------------------ decoder

  lemma RunHead(n: nat)
    ensures RunCode(n)[0] == RUN_FLAG <==> n > 254
    ensures Flip(RunCode(n)[0]) == if n > 254 then 255 else n
    ensures RunCode(n)[1..] == if n > 254 then RunCode(n - 255) else []
  {
    hide Flip;
    var b := if n > 254 then 255 else n;
    FlipTwice(b);
    FlipRun(b);
    RunFlags();
    assert RunCode(n) == [if n > 254 then RUN_FLAG else Flip(n)] + if n > 254 then RunCode(n - 255) else [];
  }

  /** Reads a match length from the front of what is left. */
  method ReadRuns(input: seq<byte>, at: nat, ghost n: nat) returns (sum: nat, ip: nat)
    requires at <= |input| && RunCode(n) <= input[at..]
    ensures sum == n && at < ip <= |input| && input[ip..] == input[at..][|RunCode(n)|..]
  {
    hide RunCode, Flip;
    sum, ip := 0, at;
    ghost var after := input[at..][|RunCode(n)|..];
    assert input[ip..] == RunCode(n) + after;
    while true
      invariant sum <= n && at <= ip <= |input| && input[ip..] == RunCode(n - sum) + after
      decreases |input| - ip
    {
      RunHead(n - sum);
      var b := input[ip];
      assert input[ip + 1..] == RunCode(n - sum)[1..] + after;
      sum := sum + Flip(b);
      ip := ip + 1;
      if b != RUN_FLAG {
        break;
      }
    }
  }

  /** The copy of n bytes from p to the end, byte by byte since the two may overlap. */
  method CopyMatch(output: array<byte>, p: nat, at: nat, n: nat, ghost x: seq<byte>)
    requires p < at && at + n <= |x| <= output.Length && output[..at] == x[..at] && n <= Common(x, p, at)
    modifies output
    ensures output[..at + n] == x[..at + n]
  {
    hide Common;
    for k := 0 to n
      invariant output[..at + k] == x[..at + k]
    {
      CommonAgrees(x, p, at, k);
      assert output[p + k] == output[..at + k][p + k];
      output[at + k] := output[p + k];
      assert output[..at + k + 1] == output[..at + k] + [output[at + k]];
      assert x[..at + k + 1] == x[..at + k] + [x[at + k]];
    }
  }

  /** The length behind a match flag; 0 for the flag as a literal. */
  method ReadLength(input: seq<byte>, at: nat, ghost m: nat, ghost min: nat, ghost ch: byte) returns (length: nat, ip: nat)
    requires at < |input| && NamedCode(m, min, ch) <= input[at..]
    requires (m == 0 && ch == MATCH_FLAG) || (m > 0 && m >= min)
    ensures length == if m > 0 then m - min + 1 else 0
    ensures at < ip <= |input| && input[ip..] == input[at..][|NamedCode(m, min, ch)|..]
  {
    hide RunCode, Flip, NamedCode;
    ghost var k: nat := if m > 0 then m - min + 1 else 0;
    FlaggedCode(m, min, ch);
    Behind(input, at, MATCH_FLAG, RunCode(k));
    length, ip := ReadRuns(input, at + 1, k);
  }

  lemma FlaggedCode(m: nat, min: nat, ch: byte)
    requires (m == 0 && ch == MATCH_FLAG) || (m > 0 && m >= min)
    ensures NamedCode(m, min, ch) == [MATCH_FLAG] + RunCode(if m > 0 then m - min + 1 else 0)
  {
    FirstRun(0);
    hide RunCode, Flip;
  }

  lemma Behind(s: seq<byte>, at: nat, c: byte, rest: seq<byte>)
    requires at < |s| && [c] + rest <= s[at..]
    ensures rest <= s[at + 1..] && s[at + 1..][|rest|..] == s[at..][|[c] + rest|..]
  {
    assert s[at + 1..] == s[at..][1..];
    assert s[at..][..|rest| + 1] == [c] + rest;
    assert s[at..][1..][..|rest|] == rest;
  }

  lemma NamesAt(t: map<nat, nat>, i: nat, slot: nat)
    requires Names(t, i)
    ensures slot in t ==> 4 <= t[slot] < i
  {
  }

  /** Reads back the step at i. */
  method ReadStep(input: seq<byte>, at: nat, output: array<byte>, min: nat, contexts: map<nat, nat>, slot: nat, i: nat,
                  ghost x: seq<byte>, ghost behind: seq<byte>, ghost hash: nat -> nat)
    returns (n: nat, ip: nat, matched: bool)
    requires 4 <= i < |x| <= output.Length && min <= |behind| && Names(contexts, i) && slot == hash(Ctx(x, i))
    requires at <= |input| && Written(x, behind, min, hash, contexts, i) <= input[at..] && output[..i] == x[..i]
    modifies output
    ensures n == Taken(x, behind, min, hash, contexts, i)
    ensures !matched ==> n == 1
    ensures output[..i + n] == x[..i + n]
    ensures at < ip <= |input| && input[ip..] == input[at..][|Written(x, behind, min, hash, contexts, i)|..]
  {
    hide Ctx, MatchLength, Written, Taken, RunCode, Flip, Common, Names;
    NamesAt(contexts, i, slot);
    matched := false;
    n := 1;
    ip := at + 1;
    if slot !in contexts {
      PlainStep(x, behind, min, hash, contexts, i);
      output[i] := input[at];
    } else {
      ghost var m := MatchLength(x, behind, min, contexts[slot], i);
      NamedStep(x, behind, min, hash, contexts, i, m);
      assert input[at] == if m > 0 then MATCH_FLAG else x[i];
      if input[at] != MATCH_FLAG {
        output[i] := input[at];
      } else {
        var length;
        length, ip := ReadLength(input, at, m, min, x[i]);
        if length > 0 {
          matched := true;
          n := length + min - 1;
          MatchIsCommon(x, behind, min, contexts[slot], i);
          CopyMatch(output, contexts[slot], i, n, x);
          return;
        }
        output[i] := MATCH_FLAG;
      }
    }
    OneMore(output[..], x, i);
  }

  lemma OneMore(a: seq<byte>, x: seq<byte>, i: nat)
    requires i < |a| && i < |x| && a[..i] == x[..i] && a[i] == x[i]
    ensures a[..i + 1] == x[..i + 1]
  {
    assert a[..i + 1] == a[..i] + [a[i]] && x[..i + 1] == x[..i] + [x[i]];
  }

  lemma FirstRun(n: nat)
    requires n <= 254
    ensures RunCode(n) == [Flip(n)]
  {
  }

  lemma MatchIsCommon(x: seq<byte>, behind: seq<byte>, min: nat, p: nat, i: nat)
    requires 4 <= p < i < |x| && min <= |behind| && MatchLength(x, behind, min, p, i) > 0
    ensures min <= MatchLength(x, behind, min, p, i) <= Common(x, p, i)
  {
  }

  /** Rebuilds the block from its code. */
  method Decode(input: seq<byte>, output: array<byte>, min: nat, hash: nat -> nat,
                ghost x: seq<byte>, ghost behind: seq<byte>) returns (size: nat)
    requires 4 <= |x| <= output.Length && min <= |behind| && input == BlockCode(x, behind, min, hash)
    modifies output
    ensures size == |x| && output[..size] == x
  {
    hide Code, Ctx, Shifted, MatchLength, Written, Taken, RunCode, Names, BlockCode, Next;
    var contexts: map<nat, nat> := map[];
    NamesNone(x, behind, min, hash);
    output[0], output[1], output[2], output[3] := input[0], input[1], input[2], input[3];
    var i, ip := 4, 4;
    var ctx := Ctx(input, 4);
    assert output[..4] == x[..4];
    CtxOfPrefix(input, x, 4);
    while ip < |input|
      invariant 4 <= i <= |x| && ip <= |input| && Names(contexts, i) && ctx == Ctx(x, i)
      invariant output[..i] == x[..i] && input[ip..] == Code(x, behind, min, hash, contexts, i)
    {
      CodeStep(x, behind, min, hash, contexts, i);
      var slot := hash(ctx);
      var n, matched;
      n, ip, matched := ReadStep(input, ip, output, min, contexts, slot, i, x, behind, hash);
      contexts := contexts[slot := i];
      if matched {
        CtxOfPrefix(output[..], x, i + n);
        ctx := Ctx(output[..], i + n);
      } else {
        ShiftedCtx(x, i);
        assert output[i] == output[..i + n][i] == x[i];
        ctx := Shifted(ctx, output[i]);
      }
      i := i + n;
    }
    return i;
  }

  lemma CtxOfPrefix(s: seq<byte>, x: seq<byte>, i: nat)
    requires 4 <= i <= |x| && i <= |s| && s[..i] == x[..i]
    ensures Ctx(s, i) == Ctx(x, i)
  {
    assert forall k :: 0 <= k < i ==> s[k] == s[..i][k] && x[k] == x[..i][k];
  }
}
