/**
  Dict/dict.cpp: which bytes stand for which words.  Bytes that hardly occur in the text are freed; a word gets
  one such byte, or two bytes of which the first is freed.
 */
module DictCodes {
  import opened Bytes

  datatype Option<T> = None | Some(value: T)

  const RESERVED: byte := 32

  datatype Code = One(c: byte) | Two(c: byte, d: byte)

  /** A word of the text, and how often it is used; 0 drops it. */
  datatype Word = Word(text: seq<byte>, count: nat)

  datatype Entry = Entry(text: seq<byte>, code: Code)

  /** No code is the beginning of another. */
  predicate Apart(a: Code, b: Code) {
    a.c != b.c || (a.Two? && b.Two? && a.d != b.d)
  }

  /** Neither in use in the text nor reserved. */
  predicate Usable(free: seq<bool>, c: int) {
    0 <= c < 256 && |free| == 256 && free[c] && c != RESERVED
  }

  predicate CodeOk(free: seq<bool>, k: Code) {
    Usable(free, k.c) && (k.Two? ==> k.d != RESERVED)
  }

  /** The codes given so far use freed bytes and are not the beginning of each other. */
  predicate Given(code: seq<Option<Code>>, free: seq<bool>) {
    && (forall i :: 0 <= i < |code| && code[i].Some? ==> CodeOk(free, code[i].value))
    && (forall i, j :: 0 <= i < j < |code| && code[i].Some? && code[j].Some? ==> Apart(code[i].value, code[j].value))
  }

  /** All first bytes are below c. */
  predicate Below(code: seq<Option<Code>>, c: int) {
    forall i :: 0 <= i < |code| && code[i].Some? ==> code[i].value.c < c
  }

  /** All codes start below c, or with c and go on below d. */
  predicate BelowPair(code: seq<Option<Code>>, c: int, d: int) {
    forall i :: 0 <= i < |code| && code[i].Some? ==>
      code[i].value.c < c || (code[i].value.Two? && code[i].value.c == c && code[i].value.d < d)
  }

  /** The words up to p have a code or were dropped. */
  predicate Served(code: seq<Option<Code>>, count: seq<nat>, p: nat) {
    |code| == |count| && forall i :: 0 <= i < p && i < |code| && count[i] != 0 ==> code[i].Some?
  }

  // ------------------------------------------------------------------ which word gets which code

  /** The codes given so far, the next byte and the next word. */
  datatype Giving = Giving(code: seq<Option<Code>>, c: nat, p: nat)

  /** Usable bytes from c on go to the words from p on. */
  function Ones(free: seq<bool>, g: Giving, end: nat): (r: Giving)
    requires |free| == 256 && g.c <= 256 && g.p <= end <= |g.code|
    ensures |r.code| == |g.code| && g.c <= r.c <= 256 && g.p <= r.p <= end
    decreases 256 - g.c
  {
    if g.c > 255 || g.p >= end then g
    else if free[g.c] && g.c != RESERVED then Ones(free, Giving(g.code[g.p := Some(One(g.c))], g.c + 1, g.p + 1), end)
    else Ones(free, Giving(g.code, g.c + 1, g.p), end)
  }

  /** The first word from p on that is long enough for a two-byte code. */
  function LongFrom(words: seq<Word>, p: nat): (q: nat)
    requires p <= |words|
    ensures p <= q <= |words| && (forall i :: p <= i < q ==> |words[i].text| < 4) && (q < |words| ==> 4 <= |words[q].text|)
    decreases |words| - p
  {
    if p < |words| && |words[p].text| < 4 then LongFrom(words, p + 1) else p
  }

  /** Pairs with the first byte c and second bytes from d on go to the long words from p on; g.c stays. */
  function PairsOf(words: seq<Word>, g: Giving, d: nat): (r: Giving)
    requires |g.code| == |words| && g.p <= |words| && g.c < 256 && d <= 256
    ensures |r.code| == |g.code| && r.c == g.c && g.p <= r.p <= |words|
    decreases 256 - d
  {
    if d > 255 || g.p >= |words| then g
    else if d == RESERVED then PairsOf(words, g, d + 1)
    else
      var q := LongFrom(words, g.p);
      if q < |words| then PairsOf(words, Giving(g.code[q := Some(Two(g.c, d))], g.c, q + 1), d + 1)
      else PairsOf(words, Giving(g.code, g.c, q), d + 1)
  }

  /** Pairs with all usable first bytes from g.c on. */
  function Pairs(words: seq<Word>, free: seq<bool>, g: Giving): (r: Giving)
    requires |free| == 256 && |g.code| == |words| && g.p <= |words| && g.c <= 256
    ensures |r.code| == |g.code| && g.c <= r.c <= 256 && g.p <= r.p <= |words|
    decreases 256 - g.c
  {
    if g.c > 255 || g.p >= |words| then g
    else if free[g.c] && g.c != RESERVED then
      var h := PairsOf(words, g, 0);
      Pairs(words, free, h.(c := h.c + 1))
    else
      Pairs(words, free, g.(c := g.c + 1))
  }

  /** After the first two loops, and all codes in the end. */
  function FirstRounds(words: seq<Word>, nodes: nat, free: seq<bool>): (g: Giving)
    requires nodes <= |words| && |free| == 256
    ensures |g.code| == |words| && g.c <= 256 && g.p <= |words|
  {
    Pairs(words, free, Ones(free, Giving(seq(|words|, _ => None), 0, 0), nodes))
  }

  function AllCodes(words: seq<Word>, nodes: nat, free: seq<bool>): (code: seq<Option<Code>>)
    requires nodes <= |words| && |free| == 256
    ensures |code| == |words|
  {
    var g := FirstRounds(words, nodes, free);
    if nodes <= g.p then Ones(free, Giving(g.code, g.c, nodes), g.p).code else g.code
  }

  /** Dropped are the words that were too short when only pairs were left: they had no code after the first rounds. */
  function Counts(words: seq<Word>, g: seq<Option<Code>>, n: nat): (count: seq<nat>)
    requires n <= |words| == |g|
    ensures |count| == |words|
  {
    seq(|words|, i requires 0 <= i < |words| => if i < n && g[i].None? then 0 else words[i].count)
  }

  /** The dictionary of phase4. */
  function Assigned(words: seq<Word>, nodes: nat, free: seq<bool>): seq<Entry>
    requires nodes <= |words| && |free| == 256
  {
    var g := FirstRounds(words, nodes, free);
    Kept(words, AllCodes(words, nodes, free), Counts(words, g.code, g.p), g.p)
  }

  /** What the counts say about dropped words; behind p no code has been given. */
  predicate CountsOk(words: seq<Word>, count: seq<nat>, code: seq<Option<Code>>, p: nat) {
    && |count| == |code| == |words| && p <= |words| && count == Counts(words, code, p)
    && forall i :: p <= i < |words| ==> code[i].None?
  }

  // ------------------------------------------------------------------ phase4

  /** One-byte codes for the words from p on, with the bytes from c on. */
  method GiveOne(code0: seq<Option<Code>>, count: seq<nat>, free: seq<bool>, c0: nat, p0: nat, end: nat)
    returns (code: seq<Option<Code>>, c: nat, p: nat)
    requires Given(code0, free) && Below(code0, c0) && |count| == |code0| && |free| == 256 && c0 <= 256
    requires Served(code0, count, p0) && p0 <= end <= |code0|
    ensures Given(code, free) && Below(code, c) && |code| == |code0| && c0 <= c <= 256 && p0 <= p <= end
    ensures Served(code, count, p) && Giving(code, c, p) == Ones(free, Giving(code0, c0, p0), end)
    ensures (forall i :: p0 <= i < p ==> code[i].Some?) && (forall i :: 0 <= i < |code| && !(p0 <= i < p) ==> code[i] == code0[i])
  {
    code, c, p := code0, c0, p0;
    while c <= 255 && p < end
      invariant c0 <= c <= 256 && p0 <= p <= end && |code| == |code0|
      invariant Given(code, free) && Below(code, c) && Served(code, count, p)
      invariant Ones(free, Giving(code, c, p), end) == Ones(free, Giving(code0, c0, p0), end)
      invariant (forall i :: p0 <= i < p ==> code[i].Some?) && (forall i :: 0 <= i < |code| && !(p0 <= i < p) ==> code[i] == code0[i])
      decreases 256 - c
    {
      if free[c] && c != RESERVED {
        code := code[p := Some(One(c))];
        p := p + 1;
      }
      c := c + 1;
    }
  }

  /** Spare bytes for the words from p on, whatever code they had. */
  method GiveMore(code0: seq<Option<Code>>, count: seq<nat>, free: seq<bool>, c0: nat, p0: nat, end: nat)
    returns (code: seq<Option<Code>>, c: nat, p: nat)
    requires Given(code0, free) && Below(code0, c0) && |count| == |code0| && |free| == 256 && c0 <= 256
    requires Served(code0, count, end) && p0 <= end <= |code0|
    ensures Given(code, free) && |code| == |code0| && Served(code, count, end)
    ensures Giving(code, c, p) == Ones(free, Giving(code0, c0, p0), end)
  {
    code, c, p := code0, c0, p0;
    while c <= 255 && p < end
      invariant c0 <= c <= 256 && p0 <= p <= end && |code| == |code0|
      invariant Given(code, free) && Below(code, c) && Served(code, count, end)
      invariant Ones(free, Giving(code, c, p), end) == Ones(free, Giving(code0, c0, p0), end)
      decreases 256 - c
    {
      if free[c] && c != RESERVED {
        code := code[p := Some(One(c))];
        p := p + 1;
      }
      c := c + 1;
    }
  }

  /** Two-byte codes that start with c; words that are too short for that are dropped. */
  method GivePairs(words: seq<Word>, code0: seq<Option<Code>>, count0: seq<nat>, free: seq<bool>, c: byte, p0: nat)
    returns (code: seq<Option<Code>>, count: seq<nat>, p: nat)
    requires Given(code0, free) && Below(code0, c) && |count0| == |code0| == |words| && Usable(free, c)
    requires Served(code0, count0, p0) && p0 <= |words| && CountsOk(words, count0, code0, p0)
    ensures Given(code, free) && Below(code, c + 1) && |code| == |count| == |words| && p0 <= p <= |words|
    ensures Served(code, count, p) && CountsOk(words, count, code, p)
    ensures Giving(code, c, p) == PairsOf(words, Giving(code0, c, p0), 0)
  {
    hide Counts, CountsOk, Served, Given, BelowPair, Below, PairsOf;
    code, count, p := code0, count0, p0;
    var d: nat := 0;
    PairStart(code0, c);
    while d <= 255 && p < |words|
      invariant 0 <= d <= 256 && p0 <= p <= |words| && |code| == |count| == |words|
      invariant Given(code, free) && BelowPair(code, c, d) && Served(code, count, p) && CountsOk(words, count, code, p)
      invariant PairsOf(words, Giving(code, c, p), d) == PairsOf(words, Giving(code0, c, p0), 0)
      decreases 256 - d
    {
      PairsNext(words, Giving(code, c, p), d);
      if d != RESERVED {
        count, p := SkipShort(words, count, code, p);
        if p < |words| {
          PairGiven(code, free, c, d, p);
          CodeOne(words, count, code, p, Two(c, d));
          code := code[p := Some(Two(c, d))];
          p := p + 1;
        } else {
          PairLater(code, c, d);
        }
      } else {
        PairLater(code, c, d);
      }
      d := d + 1;
    }
    PairsDone(words, Giving(code, c, p), d);
    PairEnd(code, c, d);
  }

  /** Drops words that are too short. */
  method SkipShort(words: seq<Word>, count0: seq<nat>, code: seq<Option<Code>>, p0: nat) returns (count: seq<nat>, p: nat)
    requires |count0| == |code| == |words| && p0 <= |words| && Served(code, count0, p0) && CountsOk(words, count0, code, p0)
    ensures p0 <= p <= |words| && p == LongFrom(words, p0) && |count| == |words|
    ensures Served(code, count, p) && CountsOk(words, count, code, p)
  {
    hide CountsOk;
    count, p := count0, p0;
    while p < |words| && |words[p].text| < 4
      invariant p0 <= p <= |words| && |count| == |words| && LongFrom(words, p) == LongFrom(words, p0)
      invariant Served(code, count, p) && CountsOk(words, count, code, p)
    {
      DropOne(words, count, code, p);
      count := count[p := 0];
      p := p + 1;
    }
  }

  lemma PairStart(code: seq<Option<Code>>, c: byte)
    requires Below(code, c)
    ensures BelowPair(code, c, 0)
  {
  }

  lemma PairLater(code: seq<Option<Code>>, c: byte, d: nat)
    requires BelowPair(code, c, d)
    ensures BelowPair(code, c, d + 1)
  {
  }

  lemma PairEnd(code: seq<Option<Code>>, c: byte, d: nat)
    requires BelowPair(code, c, d)
    ensures Below(code, c + 1)
  {
  }

  lemma PairGiven(code: seq<Option<Code>>, free: seq<bool>, c: byte, d: byte, p: nat)
    requires Given(code, free) && BelowPair(code, c, d) && p < |code| && Usable(free, c) && d != RESERVED
    ensures Given(code[p := Some(Two(c, d))], free) && BelowPair(code[p := Some(Two(c, d))], c, d + 1)
  {
  }

  lemma PairsNext(words: seq<Word>, g: Giving, d: nat)
    requires |g.code| == |words| && g.p < |words| && g.c < 256 && d <= 255
    ensures
      PairsOf(words, g, d) ==
      if d == RESERVED then PairsOf(words, g, d + 1)
      else
        var q := LongFrom(words, g.p);
        PairsOf(words, if q < |words| then Giving(g.code[q := Some(Two(g.c, d))], g.c, q + 1) else Giving(g.code, g.c, q), d + 1)
  {
  }

  lemma PairsDone(words: seq<Word>, g: Giving, d: nat)
    requires |g.code| == |words| && g.p <= |words| && g.c < 256 && d <= 256 && (d > 255 || g.p == |words|)
    ensures PairsOf(words, g, d) == g
  {
  }

  lemma DropOne(words: seq<Word>, count: seq<nat>, code: seq<Option<Code>>, p: nat)
    requires CountsOk(words, count, code, p) && p < |words|
    ensures CountsOk(words, count[p := 0], code, p + 1)
  {
  }

  lemma CodeOne(words: seq<Word>, count: seq<nat>, code: seq<Option<Code>>, p: nat, k: Code)
    requires CountsOk(words, count, code, p) && p < |words| && Served(code, count, p)
    ensures CountsOk(words, count, code[p := Some(k)], p + 1) && Served(code[p := Some(k)], count, p + 1)
  {
  }

  /** The words that have a code and were not dropped. */
  function Kept(words: seq<Word>, code: seq<Option<Code>>, count: seq<nat>, n: nat): seq<Entry>
    requires n <= |words| == |code| == |count|
  {
    if n == 0 then []
    else
      Kept(words, code, count, n - 1) +
      if count[n - 1] != 0 && code[n - 1].Some? then [Entry(words[n - 1].text, code[n - 1].value)] else []
  }

  /** The dictionary: freed bytes only, no code the beginning of another. */
  predicate Coded(es: seq<Entry>, free: seq<bool>) {
    && (forall i :: 0 <= i < |es| ==> CodeOk(free, es[i].code))
    && (forall i, j :: 0 <= i < j < |es| ==> Apart(es[i].code, es[j].code))
  }

  predicate FromWords(es: seq<Entry>, words: seq<Word>) {
    forall i :: 0 <= i < |es| ==> exists k :: 0 <= k < |words| && words[k].text == es[i].text
  }

  /** Entry i of the kept ones stems from some word. */
  lemma {:induction false} KeptOk(words: seq<Word>, code: seq<Option<Code>>, count: seq<nat>, n: nat, free: seq<bool>)
    requires n <= |words| == |code| == |count| && Served(code, count, n) && Given(code, free)
    ensures Coded(Kept(words, code, count, n), free) && FromWords(Kept(words, code, count, n), words)
    ensures
      forall i, m :: 0 <= i < |Kept(words, code, count, n)| && n <= m < |words| && code[m].Some? ==>
        Apart(Kept(words, code, count, n)[i].code, code[m].value)
  {
    if n > 0 {
      KeptOk(words, code, count, n - 1, free);
      assert n - 1 < |words| && words[n - 1].text == words[n - 1].text;
    }
  }

  /** phase4: codes for the words, those with the lowest numbers first. */
  method AssignCodes(words: seq<Word>, nodes: nat, free: seq<bool>) returns (coded: seq<Entry>)
    requires nodes <= |words| && |free| == 256
    ensures Coded(coded, free) && FromWords(coded, words) && coded == Assigned(words, nodes, free)
  {
    var code: seq<Option<Code>> := seq(|words|, _ => None);
    var count: seq<nat> := seq(|words|, i requires 0 <= i < |words| => words[i].count);
    var c: nat, p: nat;
    ghost var none := code;
    code, c, p := GiveOne(code, count, free, 0, 0, nodes);
    while c <= 255 && p < |words|
      invariant c <= 256 && p <= |words| && |code| == |count| == |words|
      invariant Given(code, free) && Below(code, c) && Served(code, count, p) && CountsOk(words, count, code, p)
      invariant Pairs(words, free, Giving(code, c, p)) == FirstRounds(words, nodes, free)
      decreases 256 - c
    {
      if free[c] && c != RESERVED {
        code, count, p := GivePairs(words, code, count, free, c, p);
      }
      c := c + 1;
    }
    var last := p;
    if nodes <= last {
      code, c, p := GiveMore(code, count, free, c, nodes, last);
    }
    KeptOk(words, code, count, last, free);
    coded := Kept(words, code, count, last);
  }

  /** The number of bytes at the front of the order that occur less often than the words they may stand for. */
  ghost predicate Weak(order: seq<byte>, counts: seq<nat>, words: seq<Word>, n: nat) {
    && n <= |words| && n <= |order| == 256 == |counts|
    && (forall i :: 0 <= i < n ==> counts[order[i]] < words[i].count)
    && (n < |words| && n < 256 ==> counts[order[n]] >= words[n].count)
  }

  /** How many bytes are weak. */
  function WeakBytes(order: seq<byte>, counts: seq<nat>, words: seq<Word>, n: nat): (m: nat)
    requires |order| == 256 == |counts| && n <= |words| && n <= 256
    ensures n <= m <= |words| && m <= 256
    decreases |words| - n
  {
    if n < |words| && n <= 255 && counts[order[n]] < words[n].count then WeakBytes(order, counts, words, n + 1) else n
  }

  lemma {:induction false} WeakOnes(order: seq<byte>, counts: seq<nat>, words: seq<Word>, n: nat)
    requires |order| == 256 == |counts| && n <= |words| && n <= 256
    requires forall i :: 0 <= i < n ==> counts[order[i]] < words[i].count
    ensures Weak(order, counts, words, WeakBytes(order, counts, words, n))
    decreases |words| - n
  {
    if n < |words| && n <= 255 && counts[order[n]] < words[n].count {
      WeakOnes(order, counts, words, n + 1);
    }
  }

  /** The free bytes, n of them being weak. */
  function FreeOnes(order: seq<byte>, counts: seq<nat>, n: nat): (free: seq<bool>)
    requires 0 < n <= 256 == |order| == |counts|
    ensures |free| == 256
  {
    seq(256, c requires 0 <= c < 256 => c != order[n - 1] && (counts[c] == 0 || c in order[..n]))
  }

  /** Free are the weak bytes and those that do not occur, but not the prefix. */
  ghost predicate Freed(free: seq<bool>, prefix: byte, weak: seq<byte>, counts: seq<nat>) {
    |free| == 256 == |counts| && forall c: byte :: free[c] <==> c != prefix && (counts[c] == 0 || c in weak)
  }

  /** The bytes whose count is 0 in the end. */
  lemma FreedOnes(order: seq<byte>, counts: seq<nat>, left: seq<nat>, n: nat)
    requires 0 < n <= 256 == |order| == |counts| == |left|
    requires forall c: byte :: left[c] == (if c in order[..n] then 0 else counts[c])
    ensures
      var free := FreeOnes(order, counts, n);
      && seq(256, c requires 0 <= c < 256 => left[order[n - 1] := 1][c] == 0) == free
      && !free[order[n - 1]] && Freed(free, order[n - 1], order[..n], counts)
  {
  }

  /** How many words are to have one byte. */
  function Nodes(words: nat, avail: nat, plain: bool): (n: nat)
    ensures n <= words
  {
    if plain || words <= avail then (if words < avail then words else avail)
    else if avail >= (words + 259) / 256 then avail - (words + 259) / 256
    else 0
  }

  /**
    phase3: the weak bytes are freed, except the last of them, which becomes the prefix.  The order is that of the
    counts and the words come by descending count; nothing below depends on it.
   */
  method FreeBytes(counts: seq<nat>, order: seq<byte>, words: seq<Word>, minimum: nat, plain: bool)
    returns (free: seq<bool>, prefix: byte, nodes: nat, ok: bool)
    requires |counts| == |order| == 256 && (forall i, j :: 0 <= i < j < 256 ==> order[i] != order[j])
    ensures
      ok ==> exists n: nat :: minimum < n && Weak(order, counts, words, n) && prefix == order[n - 1] && Freed(free, prefix, order[..n], counts)
    ensures ok ==> |free| == 256 && !free[prefix]
    ensures !ok ==> exists n: nat :: n <= minimum && Weak(order, counts, words, n)
    ensures nodes <= |words| && (ok ==> nodes < |words|)
    ensures
      var n := WeakBytes(order, counts, words, 0);
      (ok <==> minimum < n)
      && (ok ==> free == FreeOnes(order, counts, n) && prefix == order[n - 1] && nodes == Nodes(|words|, n - 1, plain))
  {
    hide FreeOnes, Freed;
    var n: nat := 0;
    var left := counts;
    while n < |words| && n <= 255 && counts[order[n]] < words[n].count
      invariant n <= |words| && n <= 256 && |left| == 256
      invariant WeakBytes(order, counts, words, n) == WeakBytes(order, counts, words, 0)
      invariant forall i :: 0 <= i < n ==> counts[order[i]] < words[i].count
      invariant forall c: byte :: left[c] == (if c in order[..n] then 0 else counts[c])
    {
      assert order[..n + 1] == order[..n] + [order[n]];
      left := left[order[n] := 0];
      n := n + 1;
    }
    assert Weak(order, counts, words, n);
    free, prefix, nodes, ok := [], 0, 0, false;
    if n > minimum {
      FreedOnes(order, counts, left, n);
      ok, prefix := true, order[n - 1];
      left := left[prefix := 1];
      free := seq(256, c requires 0 <= c < 256 => left[c] == 0);
      var avail := n - 1;
      nodes := Nodes(|words|, avail, plain);
    }
  }
}
