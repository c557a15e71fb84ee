/** GRZip_ST4_Encode: two counting passes, the second from the back. */
module St4Encode {
  import opened Bytes
  import opened CountingSort
  import opened St4Order

  const WORDS := 65536

  ghost predicate Counted(keys: seq<nat>, counter: seq<nat>, i: nat)
    requires i <= |keys|
  {
    |counter| == WORDS && forall w :: 0 <= w < WORDS ==> counter[w] == Count(keys, w, i)
  }

  ghost predicate Started(keys: seq<nat>, counter: seq<nat>, i: nat)
    requires i <= |keys|
  {
    |counter| == WORDS && forall w :: 0 <= w < WORDS ==> counter[w] == Start(keys, w) + Count(keys, w, i)
  }

  ghost predicate Words(keys: seq<nat>) {
    forall i :: 0 <= i < |keys| ==> keys[i] < WORDS
  }

  lemma CountedStep(keys: seq<nat>, counter: seq<nat>, i: nat)
    requires i < |keys| && keys[i] < WORDS && Counted(keys, counter, i)
    ensures |counter| == WORDS
    ensures Counted(keys, counter[keys[i] := counter[keys[i]] + 1], i + 1)
  {
  }

  lemma StartedStep(keys: seq<nat>, counter: seq<nat>, i: nat)
    requires i < |keys| && Words(keys) && Started(keys, counter, i)
    ensures counter[keys[i]] == Place(keys, i)
    ensures Started(keys, counter[keys[i] := counter[keys[i]] + 1], i + 1)
  {
  }

  lemma StartedBack(keys: seq<nat>, counter: seq<nat>, i: nat)
    requires i < |keys| && Words(keys) && Started(keys, counter, i + 1)
    ensures counter[keys[i]] == Place(keys, i) + 1
    ensures Started(keys, counter[keys[i] := counter[keys[i]] - 1], i)
  {
  }

  /** Turns counts into starting places. */
  method PrefixSums(counter: array<nat>, ghost keys: seq<nat>)
    requires Counted(keys, counter[..], |keys|)
    modifies counter
    ensures Started(keys, counter[..], 0)
  {
    hide Less, Count;
    var sum: nat := 0;
    LessZero(keys, |keys|);
    for i := 0 to WORDS
      invariant counter.Length == WORDS && sum == Start(keys, i)
      invariant forall w :: 0 <= w < i ==> counter[w] == Start(keys, w)
      invariant forall w :: i <= w < WORDS ==> counter[w] == Count(keys, w, |keys|)
    {
      LessNext(keys, i, |keys|);
      sum := sum + counter[i];
      counter[i] := sum - counter[i];
    }
    CountZero(keys);
  }

  lemma {:induction false} LessZero(keys: seq<nat>, m: nat)
    requires m <= |keys|
    ensures Less(keys, 0, m) == 0
  {
    if m > 0 {
      LessZero(keys, m - 1);
    }
  }

  lemma CountZero(keys: seq<nat>)
    ensures forall w :: Count(keys, w, 0) == 0
  {
  }

  /** The pairs the encoder counts: each byte with the one before it. */
  function Pairs(x: seq<byte>): (s: seq<nat>)
    requires x != []
    ensures |s| == |x| && forall i :: 0 <= i < |x| ==> s[i] == Key(x, i + 1, 2)
  {
    seq(|x|, i => Key(x, i + 1, 2))
  }

  function Shift(n: nat, d: nat): (f: seq<nat>)
    requires d < n
    ensures |f| == n && forall i :: 0 <= i < n ==> f[i] == if i + d < n then i + d else i + d - n
  {
    seq(n, i => if i + d < n then i + d else i + d - n)
  }

  /** The pairs are counted at other positions than they are used at; the counts agree. */
  lemma PairsAreLow(x: seq<byte>, w: nat)
    requires |x| > 3
    ensures Start(Pairs(x), w) == Start(LowKeys(x), w)
  {
    hide Key;
    var f := Shift(|x|, 3);
    forall i | 0 <= i < |x|
      ensures LowKeys(x)[f[i]] == Pairs(x)[i]
    {
      if i + 3 >= |x| {
        KeyPeriodic(x, i + 1 - |x|, 2);
      }
    }
    StartPermuted(Pairs(x), LowKeys(x), f, w);
  }

  lemma PlainIsLow(x: seq<byte>, w: nat)
    requires |x| > 3
    ensures Start(Keys(x, 2), w) == Start(LowKeys(x), w)
  {
    hide Key;
    var f := Shift(|x|, 2);
    forall i | 0 <= i < |x|
      ensures LowKeys(x)[f[i]] == Keys(x, 2)[i]
    {
      if i + 2 >= |x| {
        KeyPeriodic(x, i - |x|, 2);
      }
    }
    StartPermuted(Keys(x, 2), LowKeys(x), f, w);
  }

  lemma HighIsLow(x: seq<byte>, high: seq<nat>, w: nat)
    requires |x| > 3 && HighKeys(x, high)
    ensures Start(high, w) == Start(LowKeys(x), w)
  {
    hide Key, Less, Permutes;
    PlainIsLow(x, w);
    StartPermuted(Keys(x, 2), high, Places(LowKeys(x)), w);
  }

  lemma WordKeys(x: seq<byte>)
    requires x != []
    ensures Words(Pairs(x)) && Words(LowKeys(x))
  {
    hide Key;
    forall i | 0 <= i < |x|
      ensures Pairs(x)[i] < WORDS && LowKeys(x)[i] < WORDS
    {
      KeyTwo(x, i + 1);
      KeyTwo(x, i - 2);
    }
  }

  method CountPairs(x: seq<byte>) returns (counter: array<nat>)
    requires |x| > 3
    ensures fresh(counter) && Counted(Pairs(x), counter[..], |x|)
  {
    hide Count, Key, Counted, Pairs, At, Words;
    counter := new nat[WORDS](_ => 0);
    CountedNone(Pairs(x), counter[..]);
    WordKeys(x);
    var last: nat := x[|x| - 1];
    var w := last * 256;
    PairStart(x, w);
    for i := 0 to |x|
      invariant Counted(Pairs(x), counter[..], i) && w / 256 == At(x, i - 1)
    {
      PairStep(x, i, w);
      var c: nat := x[i];
      w := w / 256 + c * 256;
      CountedStep(Pairs(x), counter[..], i);
      counter[w] := counter[w] + 1;
    }
  }

  lemma PairStart(x: seq<byte>, w: nat)
    requires x != [] && w == x[|x| - 1] as nat * 256
    ensures w / 256 == At(x, -1)
  {
    hide At;
    AtPeriodic(x, -1);
    AtInside(x, |x| - 1);
  }

  lemma PairStep(x: seq<byte>, i: nat, w: nat)
    requires i < |x| && w / 256 == At(x, i - 1)
    ensures w / 256 + x[i] as nat * 256 == Pairs(x)[i] < WORDS && Pairs(x)[i] / 256 == At(x, i)
  {
    hide At, Key;
    KeyTwo(x, i + 1);
    AtInside(x, i);
  }

  lemma CountedNone(keys: seq<nat>, counter: seq<nat>)
    requires |counter| == WORDS && forall w :: 0 <= w < WORDS ==> counter[w] == 0
    ensures Counted(keys, counter, 0)
  {
  }

  // ------------------------------------------------------------------ the two passes

  lemma WordAt(x: seq<byte>, i: nat)
    requires i < |x|
    ensures Key(x, i, 4) % 65536 == LowKeys(x)[i] < WORDS && Key(x, i, 4) / 65536 == Key(x, i, 2)
    ensures Key(x, i, 4) / 256 + x[i] as nat * 0x100_0000 == Key(x, i + 1, 4)
  {
    hide At;
    KeySplit(x, i);
    KeyTwo(x, i - 2);
    assert Key(x, i, 4) == 256 * Key(x, i, 3) + At(x, i - 4);
    KeyHead(x, i + 1, 3);
    PowThree();
    AtInside(x, i);
  }

  lemma PowThree()
    ensures Pow256(3) == 0x100_0000
  {
    assert Pow256(2) == 65536;
  }

  lemma FirstWord(x: seq<byte>)
    requires |x| > 4
    ensures
      var a: nat, b: nat, c: nat, d: nat := x[|x| - 1], x[|x| - 2], x[|x| - 3], x[|x| - 4];
      Key(x, 0, 4) == a * 0x100_0000 + b * 65536 + c * 256 + d
    ensures
      var d: nat, e: nat := x[|x| - 4], x[|x| - 5];
      LowKeys(x)[|x| - 1] == d * 256 + e
  {
    hide At;
    AtPeriodic(x, -1);
    AtPeriodic(x, -2);
    AtPeriodic(x, -3);
    AtPeriodic(x, -4);
    AtInside(x, |x| - 1);
    AtInside(x, |x| - 2);
    AtInside(x, |x| - 3);
    AtInside(x, |x| - 4);
    AtInside(x, |x| - 5);
    assert Key(x, 0, 4) == 256 * (256 * Key(x, 0, 2) + At(x, 0 - 3)) + At(x, 0 - 4);
    assert Key(x, 0, 2) == 256 * (256 * Key(x, 0, 0) + At(x, 0 - 1)) + At(x, 0 - 2);
    KeyTwo(x, |x| - 3);
  }

  /** Entry s of the middle table: the high key of a position, and its byte. */
  ghost predicate MiddleUpTo(x: seq<byte>, context: seq<nat>, i: nat)
    requires i <= |x| && x != []
  {
    |context| == |x| && forall j :: 0 <= j < i ==>
      Place(LowKeys(x), j) < |x| && context[Place(LowKeys(x), j)] == Key(x, j, 2) * 65536 + x[j]
  }

  lemma MiddleStep(x: seq<byte>, context: seq<nat>, i: nat)
    requires i < |x| && MiddleUpTo(x, context, i)
    ensures Place(LowKeys(x), i) < |x|
    ensures MiddleUpTo(x, context[Place(LowKeys(x), i) := Key(x, i, 2) * 65536 + x[i]], i + 1)
  {
    hide Key, Place;
    PlacesPermute(LowKeys(x));
    var f := Places(LowKeys(x));
    assert f[i] < |x| && forall j :: 0 <= j < i ==> f[j] != f[i];
  }

  method FirstPass(x: seq<byte>, counter: array<nat>, context: array<nat>)
    requires |x| > 4 && counter != context && context.Length == |x|
    requires Started(LowKeys(x), counter[..], 0)
    modifies counter, context
    ensures Started(LowKeys(x), counter[..], |x|) && MiddleUpTo(x, context[..], |x|)
  {
    hide Key, Place, Started, MiddleUpTo, Words;
    WordKeys(x);
    FirstWord(x);
    NothingYet(x, context[..]);
    var a: nat, b: nat, c: nat, d: nat := x[|x| - 1], x[|x| - 2], x[|x| - 3], x[|x| - 4];
    var w := a * 0x100_0000 + b * 65536 + c * 256 + d;
    for i := 0 to |x|
      invariant w == Key(x, i, 4)
      invariant Started(LowKeys(x), counter[..], i) && MiddleUpTo(x, context[..], i)
    {
      WordAt(x, i);
      StartedStep(LowKeys(x), counter[..], i);
      StartedShape(LowKeys(x), counter[..], i);
      MiddleStep(x, context[..], i);
      var c: nat := x[i];
      context[counter[w % 65536]] := w / 65536 * 65536 + c;
      counter[w % 65536] := counter[w % 65536] + 1;
      w := w / 256 + c * 0x100_0000;
    }
  }

  lemma NothingYet(x: seq<byte>, context: seq<nat>)
    requires x != [] && |context| == |x|
    ensures MiddleUpTo(x, context, 0)
  {
  }

  lemma StartedShape(keys: seq<nat>, counter: seq<nat>, i: nat)
    requires i <= |keys| && Started(keys, counter, i)
    ensures |counter| == WORDS
  {
  }

  function HighOf(context: seq<nat>): (s: seq<nat>)
    ensures |s| == |context| && forall i :: 0 <= i < |s| ==> s[i] == context[i] / 65536
  {
    seq(|context|, i requires 0 <= i < |context| => context[i] / 65536)
  }

  lemma MiddleIsHigh(x: seq<byte>, context: seq<nat>)
    requires x != [] && MiddleUpTo(x, context, |x|)
    ensures HighKeys(x, HighOf(context)) && Words(HighOf(context))
  {
    hide Key, Place;
    var f := Places(LowKeys(x));
    PlacesPermute(LowKeys(x));
    forall i | 0 <= i < |x|
      ensures HighOf(context)[f[i]] == Key(x, i, 2) < WORDS
    {
      KeyTwo(x, i);
    }
    forall s | 0 <= s < |x|
      ensures HighOf(context)[s] < WORDS
    {
      var i := Onto(f, s);
    }
  }

  /** The counters after the first pass are the ends of the buckets of the second. */
  lemma EndsAgree(x: seq<byte>, high: seq<nat>, counter: seq<nat>)
    requires |x| > 3 && HighKeys(x, high) && Started(LowKeys(x), counter, |x|)
    ensures Started(high, counter, |x|)
  {
    hide Key, Less, Count, HighKeys;
    HighShape(x, high);
    forall w | 0 <= w < WORDS
      ensures counter[w] == Start(high, w) + Count(high, w, |x|)
    {
      LessNext(LowKeys(x), w, |x|);
      LessNext(high, w, |x|);
      HighIsLow(x, high, w);
      HighIsLow(x, high, w + 1);
    }
  }

  lemma HighShape(x: seq<byte>, high: seq<nat>)
    requires x != [] && HighKeys(x, high)
    ensures |high| == |x|
  {
  }

  /** The entries from place i on have been written to their rows. */
  ghost predicate WrittenFrom(high: seq<nat>, context: seq<nat>, output: seq<byte>, i: nat) {
    && |high| == |context| == |output|
    && forall s :: i <= s < |high| ==> Place(high, s) < |high| && output[Place(high, s)] == context[s] % 256
  }

  lemma WrittenStep(high: seq<nat>, context: seq<nat>, output: seq<byte>, i: nat)
    requires i < |high| && WrittenFrom(high, context, output, i + 1)
    ensures Place(high, i) < |high|
    ensures WrittenFrom(high, context, output[Place(high, i) := context[i] % 256], i)
  {
    hide Place;
    PlacesPermute(high);
    var f := Places(high);
    assert f[i] < |high| && forall j :: i < j < |high| ==> f[j] != f[i];
  }

  /** Distributes the entries hi - 1 down to lo. */
  method SecondPass(context: array<nat>, counter: array<nat>, output: array<byte>, lo: nat, hi: nat,
                    ghost high: seq<nat>)
    requires lo <= hi <= context.Length == output.Length && counter != context
    requires high == HighOf(context[..]) && Words(high) && Started(high, counter[..], hi)
    requires WrittenFrom(high, context[..], output[..], hi)
    modifies counter, output
    ensures context[..] == old(context[..]) && Started(high, counter[..], lo)
    ensures WrittenFrom(high, context[..], output[..], lo)
  {
    hide Place, Started, WrittenFrom, Words;
    var i := hi;
    while i > lo
      invariant lo <= i <= hi && Started(high, counter[..], i) && context[..] == old(context[..])
      invariant WrittenFrom(high, context[..], output[..], i)
    {
      i := i - 1;
      StartedBack(high, counter[..], i);
      StartedShape(high, counter[..], i + 1);
      WrittenStep(high, context[..], output[..], i);
      WordIs(high, i);
      counter[context[i] / 65536] := counter[context[i] / 65536] - 1;
      output[counter[context[i] / 65536]] := context[i] % 256;
    }
  }

  lemma WordIs(keys: seq<nat>, i: nat)
    requires Words(keys) && i < |keys|
    ensures keys[i] < WORDS
  {
  }

  lemma PairsStarted(x: seq<byte>, counter: seq<nat>)
    requires |x| > 3 && Started(Pairs(x), counter, 0)
    ensures Started(LowKeys(x), counter, 0)
  {
    hide Key, Less;
    forall w | 0 <= w < WORDS
      ensures counter[w] == Start(LowKeys(x), w) + Count(LowKeys(x), w, 0)
    {
      PairsAreLow(x, w);
    }
  }

  /** The last position takes the last place of its bucket. */
  lemma LastPlace(keys: seq<nat>)
    requires keys != []
    ensures Place(keys, |keys| - 1) + 1 == Start(keys, keys[|keys| - 1] + 1)
  {
    LessNext(keys, keys[|keys| - 1], |keys|);
  }

  lemma {:induction false} AllBelow(keys: seq<nat>, m: nat)
    requires Words(keys) && m <= |keys|
    ensures Less(keys, WORDS, m) == m
  {
    if m > 0 {
      AllBelow(keys, m - 1);
    }
  }

  /** Where the first pass puts the last position. */
  method FindLast(x: seq<byte>, counter: array<nat>) returns (place: nat)
    requires |x| > 4 && Started(LowKeys(x), counter[..], 0)
    ensures place == Place(LowKeys(x), |x| - 1) < |x|
  {
    hide Key;
    FirstWord(x);
    WordKeys(x);
    LastPlace(LowKeys(x));
    AllBelow(LowKeys(x), |x|);
    PlaceInGroup(LowKeys(x), |x| - 1);
    var d: nat, e: nat := x[|x| - 4], x[|x| - 5];
    var w := d * 256 + e;
    if w == 0xFFFF {
      place := |x| - 1;
    } else {
      assert counter[..][w + 1] == Start(LowKeys(x), w + 1);
      place := counter[w + 1] - 1;
    }
  }

  lemma RowsAreWritten(x: seq<byte>, high: seq<nat>, context: seq<nat>, output: seq<byte>)
    requires x != [] && MiddleUpTo(x, context, |x|) && high == HighOf(context) && HighKeys(x, high)
    requires WrittenFrom(high, context, output, 0)
    ensures Transformed(x, output)
  {
    hide WrittenFrom, MiddleUpTo, HighKeys;
    LengthsAgree(x, context, high, output);
    forall i | 0 <= i < |x|
      ensures output[Rows(x)[i]] == x[i]
    {
      RowIsWritten(x, high, context, output, i);
    }
  }

  lemma LengthsAgree(x: seq<byte>, context: seq<nat>, high: seq<nat>, output: seq<byte>)
    requires x != [] && MiddleUpTo(x, context, |x|) && WrittenFrom(high, context, output, 0)
    ensures |output| == |x|
  {
  }

  lemma RowIsWritten(x: seq<byte>, high: seq<nat>, context: seq<nat>, output: seq<byte>, i: nat)
    requires i < |x| && MiddleUpTo(x, context, |x|) && HighKeys(x, high)
    requires WrittenFrom(high, context, output, 0)
    ensures |output| == |x| && output[Rows(x)[i]] == x[i]
  {
    hide Key, Rows, Place, Permutes, MiddleUpTo, WrittenFrom, HighKeys;
    TwoPasses(x, high, i);
    MiddleAt(x, context, i);
    WrittenAt(high, context, output, Place(LowKeys(x), i));
  }

  lemma MiddleAt(x: seq<byte>, context: seq<nat>, i: nat)
    requires i < |x| && MiddleUpTo(x, context, |x|)
    ensures |context| == |x| && Place(LowKeys(x), i) < |x|
    ensures context[Place(LowKeys(x), i)] % 256 == x[i]
  {
    hide Key, Place;
    LowByte(Key(x, i, 2), x[i]);
  }

  lemma LowByte(k: nat, c: byte)
    ensures (k * 65536 + c) % 256 == c
  {
  }

  lemma WrittenAt(high: seq<nat>, context: seq<nat>, output: seq<byte>, s: nat)
    requires WrittenFrom(high, context, output, 0) && s < |context|
    ensures |high| == |context| == |output| && Places(high)[s] < |output|
    ensures output[Places(high)[s]] == context[s] % 256
  {
    hide Place;
  }

  /** Lists the bytes in the stable order of their four preceding bytes; the row of the last one is returned too. */
  method Encode(x: seq<byte>) returns (output: array<byte>, fbp: nat)
    requires 4 < |x|
    ensures fresh(output) && Transformed(x, output[..]) && fbp == Rows(x)[|x| - 1]
  {
    hide Key, Place, Started, MiddleUpTo, WrittenFrom, HighKeys, Transformed, Words;
    var counter := CountPairs(x);
    PrefixSums(counter, Pairs(x));
    PairsStarted(x, counter[..]);
    var last := FindLast(x, counter);
    var context := new nat[|x|];
    FirstPass(x, counter, context);
    ghost var middle, high := context[..], HighOf(context[..]);
    MiddleIsHigh(x, middle);
    EndsAgree(x, high, counter[..]);
    output := new byte[|x|];
    NotWritten(high, middle, output[..]);
    SecondPass(context, counter, output, last, |x|, high);
    LastRow(x, middle, counter[..], last);
    fbp := counter[context[last] / 65536];
    SecondPass(context, counter, output, 0, last, high);
    RowsAreWritten(x, high, middle, output[..]);
  }

  lemma NotWritten(high: seq<nat>, context: seq<nat>, output: seq<byte>)
    requires |high| == |context| == |output|
    ensures WrittenFrom(high, context, output, |high|)
  {
  }

  lemma LastRow(x: seq<byte>, context: seq<nat>, counter: seq<nat>, last: nat)
    requires |x| > 4 && MiddleUpTo(x, context, |x|) && HighKeys(x, HighOf(context)) && Words(HighOf(context))
    requires last == Place(LowKeys(x), |x| - 1) < |x| && Started(HighOf(context), counter, last)
    ensures |counter| == WORDS && context[last] / 65536 < WORDS
    ensures counter[context[last] / 65536] == Rows(x)[|x| - 1]
  {
    hide Key, Less, Count;
    TwoPasses(x, HighOf(context), |x| - 1);
    assert HighOf(context)[last] == context[last] / 65536 < WORDS;
  }
}
