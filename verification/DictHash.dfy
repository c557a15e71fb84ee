/**
  Dict/dict.cpp: the hash tables of the words' beginnings (phase6), and which word they give for a place in the
  text (FindWord).  The two hash functions and the size of the tables are parameters.
 */
module DictHash {
  import opened Bytes
  import opened DictCodes

  /** update_hash and rehash. */
  datatype Hashing = Hashing(update: (nat, byte) -> nat, rehash: (nat, byte) -> nat)

  /** hashbits and codewords_hash. */
  datatype Tables = Tables(bits: seq<nat>, slots: seq<Option<Entry>>)

  predicate Sized(t: Tables, size: nat) {
    |t.bits| == |t.slots| == size && size > 0
  }

  // ------------------------------------------------------------------ one probe

  const PROBES: nat := 13

  datatype Probed = Free(h: nat) | Found(h: nat) | Full

  /** The slot for a beginning that continues the one hashed to h0, or the free one met before it. */
  function Probing(bits: seq<nat>, h: nat, h0: nat, c: byte, hs: Hashing, n: nat): (r: Probed)
    requires |bits| > 0
    ensures r.Free? ==> bits[r.h % |bits|] == 0
    ensures r.Found? ==> bits[r.h % |bits|] == h0 % 65536 > 0
    decreases n
  {
    if n == 0 then Full
    else if bits[h % |bits|] == 0 then Free(h)
    else if bits[h % |bits|] == h0 % 65536 then Found(h)
    else Probing(bits, hs.rehash(h, c), h0, c, hs, n - 1)
  }

  function Probe(bits: seq<nat>, h0: nat, c: byte, hs: Hashing): Probed
    requires |bits| > 0
  {
    Probing(bits, hs.update(h0, c), h0, c, hs, PROBES)
  }

  // ------------------------------------------------------------------ entering words

  /**
    Enters the beginnings of e from the i-th byte on.  A beginning without a word of its own gets the longest
    word it begins with; the word itself gets the last slot.
   */
  function AddFrom(t: Tables, e: Entry, i: nat, hash: nat, longest: Option<nat>, hs: Hashing): (r: Tables)
    requires Sized(t, |t.bits|) && (longest.Some? ==> longest.value < |t.bits|)
    ensures Sized(r, |t.bits|)
    decreases |e.text| - i
  {
    var size := |t.bits|;
    if i >= |e.text| then t.(slots := t.slots[hash % size := Some(e)])
    else
      var p := Probe(t.bits, hash, e.text[i], hs);
      if p.Full? then t
      else
        AddFrom(Entered(t, hash, p.h, longest), e, i + 1, p.h,
                if t.slots[p.h % size].Some? then Some(p.h % size) else longest, hs)
  }

  /** The tables with one more beginning. */
  function Entered(t: Tables, hash: nat, h: nat, longest: Option<nat>): (r: Tables)
    requires Sized(t, |t.bits|) && (longest.Some? ==> longest.value < |t.bits|)
    ensures Sized(r, |t.bits|)
  {
    var at := h % |t.bits|;
    Tables(t.bits[at := hash % 65536],
           if t.slots[at].None? && longest.Some? then t.slots[at := t.slots[longest.value]] else t.slots)
  }

  function Added(t: Tables, e: Entry, hs: Hashing): (r: Tables)
    requires Sized(t, |t.bits|) && e.text != []
    ensures Sized(r, |t.bits|)
  {
    AddFrom(t, e, 1, |t.bits| + e.text[0], None, hs)
  }

  predicate Long(es: seq<Entry>) {
    forall i :: 0 <= i < |es| ==> 2 <= |es[i].text|
  }

  /** The tables of all words. */
  function Hashed(es: seq<Entry>, size: nat, hs: Hashing): (t: Tables)
    requires size > 0 && Long(es)
    ensures Sized(t, size)
  {
    if es == [] then Tables(seq(size, _ => 0), seq(size, _ => None))
    else Added(Hashed(es[..|es| - 1], size, hs), es[|es| - 1], hs)
  }

  // ------------------------------------------------------------------ finding words

  /** The hash of a beginning, as long as all its own beginnings are in the table. */
  function Path(bits: seq<nat>, s: seq<byte>, hs: Hashing): Option<nat>
    requires |bits| > 0 && s != []
    decreases |s|
  {
    if |s| == 1 then Some(|bits| + s[0])
    else
      var before := Path(bits, s[..|s| - 1], hs);
      if before.None? then None
      else
        var p := Probe(bits, before.value, s[|s| - 1], hs);
        if p.Found? then Some(p.h) else None
  }

  datatype Stop = Stop(p: nat, hash: nat)

  /** Follows the text from p on; the byte behind it may be read.  p is the last byte read. */
  function Follow(bits: seq<nat>, text: seq<byte>, behind: byte, p: nat, hash: nat, hs: Hashing): (r: Stop)
    requires |bits| > 0 && p <= |text|
    ensures p <= r.p <= |text|
    decreases |text| - p
  {
    var r := Probe(bits, hash, if p < |text| then text[p] else behind, hs);
    if r.Found? && p + 1 < |text| then Follow(bits, text, behind, p + 1, r.h, hs)
    else Stop(p, if r.Found? then r.h else hash)
  }

  function StopAt(bits: seq<nat>, text: seq<byte>, behind: byte, p0: nat, hs: Hashing): (r: Stop)
    requires |bits| > 0 && p0 < |text|
    ensures p0 < r.p <= |text|
  {
    Follow(bits, text, behind, p0 + 1, |bits| + text[p0], hs)
  }

  /** The word at p0: what the last slot holds, if it is there and no longer than what is left from the last byte read. */
  function TextWord(t: Tables, text: seq<byte>, behind: byte, p0: nat, hs: Hashing): (word: Option<Entry>)
    requires Sized(t, |t.bits|) && p0 < |text|
    ensures word.Some? ==> StandsAt(word.value, text, p0)
  {
    var stop := StopAt(t.bits, text, behind, p0, hs);
    var word := t.slots[stop.hash % |t.bits|];
    if word.Some? && word.value.text != [] && |word.value.text| <= |text| - stop.p && StandsAt(word.value, text, p0)
    then word else None
  }

  /** The text goes on with the word at p. */
  predicate StandsAt(e: Entry, text: seq<byte>, p: nat) {
    e.text != [] && p + |e.text| <= |text| && text[p..p + |e.text|] == e.text
  }

  // ------------------------------------------------------------------ nothing but words

  /** Nothing but words of the dictionary in the table. */
  predicate SlotsOk(slots: seq<Option<Entry>>, es: seq<Entry>) {
    forall i :: 0 <= i < |slots| && slots[i].Some? ==> slots[i].value in es
  }

  lemma {:induction false} AddFromOk(t: Tables, e: Entry, i: nat, hash: nat, longest: Option<nat>, hs: Hashing, es: seq<Entry>)
    requires Sized(t, |t.bits|) && (longest.Some? ==> longest.value < |t.bits|) && SlotsOk(t.slots, es) && e in es
    ensures SlotsOk(AddFrom(t, e, i, hash, longest, hs).slots, es)
    decreases |e.text| - i
  {
    hide Probing;
    if i < |e.text| {
      var p := Probe(t.bits, hash, e.text[i], hs);
      if !p.Full? {
        AddFromOk(Entered(t, hash, p.h, longest), e, i + 1, p.h,
                  if t.slots[p.h % |t.bits|].Some? then Some(p.h % |t.bits|) else longest, hs, es);
      }
    }
  }

  lemma {:induction false} HashedOk(es: seq<Entry>, size: nat, hs: Hashing, all: seq<Entry>)
    requires size > 0 && Long(es) && forall e :: e in es ==> e in all
    ensures SlotsOk(Hashed(es, size, hs).slots, all)
    decreases |es|
  {
    hide AddFrom;
    if es != [] {
      var e := es[|es| - 1];
      assert e in es;
      HashedOk(es[..|es| - 1], size, hs, all);
      var t := Hashed(es[..|es| - 1], size, hs);
      AddFromOk(t, e, 1, size + e.text[0], None, hs, all);
    }
  }

  // ------------------------------------------------------------------ what is entered is found

  /** Nothing entered is lost. */
  predicate Kept(bits: seq<nat>, later: seq<nat>) {
    |bits| == |later| && forall i :: 0 <= i < |bits| && bits[i] != 0 ==> later[i] == bits[i]
  }

  lemma {:induction false} AddKeeps(t: Tables, e: Entry, i: nat, hash: nat, longest: Option<nat>, hs: Hashing)
    requires Sized(t, |t.bits|) && (longest.Some? ==> longest.value < |t.bits|)
    ensures Kept(t.bits, AddFrom(t, e, i, hash, longest, hs).bits)
    decreases |e.text| - i
  {
    if i < |e.text| {
      var p := Probe(t.bits, hash, e.text[i], hs);
      if !p.Full? {
        AddKeeps(Entered(t, hash, p.h, longest), e, i + 1, p.h,
                 if t.slots[p.h % |t.bits|].Some? then Some(p.h % |t.bits|) else longest, hs);
      }
    }
  }

  /** A probe that succeeds in the end took the same slot when the beginning was entered. */
  lemma {:induction false} ProbeSame(bits: seq<nat>, last: seq<nat>, h: nat, h0: nat, c: byte, hs: Hashing, n: nat)
    requires |bits| > 0 && Kept(bits, last) && Probing(last, h, h0, c, hs, n).Found?
    requires var p := Probing(bits, h, h0, c, hs, n); p.Full? || Kept(bits[p.h % |bits| := h0 % 65536], last)
    ensures var p := Probing(bits, h, h0, c, hs, n); !p.Full? && p.h == Probing(last, h, h0, c, hs, n).h
    decreases n
  {
    var a, tag := h % |bits|, h0 % 65536;
    if n > 0 {
      assert bits[a] == 0 ==> tag == 0 || last[a] == tag by {
        assert bits[a := tag][a] == tag;
      }
      if last[a] != tag && bits[a] != 0 {
        ProbeSame(bits, last, hs.rehash(h, c), h0, c, hs, n - 1);
      }
    }
  }

  // ------------------------------------------------------------------ tables without collisions

  /** At least two bytes some word begins with. */
  ghost predicate Begins(es: seq<Entry>, s: seq<byte>) {
    |s| >= 2 && exists e :: e in es && s <= e.text
  }

  function SlotOf(bits: seq<nat>, s: seq<byte>, hs: Hashing): (k: nat)
    requires |bits| > 0 && s != [] && Path(bits, s, hs).Some?
    ensures k < |bits|
  {
    Path(bits, s, hs).value % |bits|
  }

  /** Every word can be followed to its end, nothing else can be followed, and no two beginnings share a slot. */
  ghost predicate Clean(bits: seq<nat>, es: seq<Entry>, hs: Hashing)
    requires |bits| > 0 && Long(es)
  {
    && (forall s :: Begins(es, s) ==> Path(bits, s, hs).Some?)
    && (forall s :: |s| >= 2 && Path(bits, s, hs).Some? ==> Begins(es, s))
    && (forall s, t :: Begins(es, s) && Begins(es, t) && s != t ==> SlotOf(bits, s, hs) != SlotOf(bits, t, hs))
  }

  /** The longest word that s begins with, if there is one. */
  ghost predicate Best(es: seq<Entry>, s: seq<byte>, o: Option<Entry>) {
    match o
    case None => forall e :: e in es ==> !(e.text <= s)
    case Some(b) => b in es && b.text <= s && forall e :: e in es && e.text <= s ==> |e.text| <= |b.text|
  }

  /** s begins one of the words, or is one of the first i bytes or less of w. */
  ghost predicate Node(es: seq<Entry>, w: seq<byte>, i: nat, s: seq<byte>) {
    Begins(es, s) || (2 <= |s| <= i && s <= w)
  }

  /** Beginnings have their best words, and all words in the table are there for a beginning. */
  ghost predicate Filled(slots: seq<Option<Entry>>, last: seq<nat>, es: seq<Entry>, w: seq<byte>, i: nat, hs: Hashing)
    requires |slots| == |last| > 0
  {
    && (forall s :: Node(es, w, i, s) ==> Path(last, s, hs).Some? && Best(es, s, slots[SlotOf(last, s, hs)]))
    && (forall k :: 0 <= k < |slots| && slots[k].Some? ==>
          exists s :: Node(es, w, i, s) && Path(last, s, hs).Some? && SlotOf(last, s, hs) == k)
  }

  lemma FilledAt(slots: seq<Option<Entry>>, last: seq<nat>, es: seq<Entry>, w: seq<byte>, i: nat, hs: Hashing, s: seq<byte>)
    requires |slots| == |last| > 0 && Filled(slots, last, es, w, i, hs) && Node(es, w, i, s)
    ensures s != [] && Path(last, s, hs).Some? && Best(es, s, slots[SlotOf(last, s, hs)])
  {
  }

  /** A slot that no beginning has is empty. */
  lemma EmptySlot(slots: seq<Option<Entry>>, last: seq<nat>, es: seq<Entry>, all: seq<Entry>, w: seq<byte>, i: nat, s: seq<byte>, hs: Hashing)
    requires |slots| == |last| > 0 && Filled(slots, last, es, w, i, hs) && Long(all) && Clean(last, all, hs)
    requires (forall t :: Node(es, w, i, t) ==> Begins(all, t)) && Begins(all, s) && !Node(es, w, i, s)
    ensures Path(last, s, hs).Some? && slots[SlotOf(last, s, hs)].None?
  {
    hide Filled, Clean, Path, Node, SlotOf;
    CleanAt(last, all, hs, s, s);
    var k := SlotOf(last, s, hs);
    if slots[k].Some? {
      var t := SlotOwner(slots, last, es, w, i, hs, k);
      CleanAt(last, all, hs, s, t);
    }
  }

  lemma SlotOwner(slots: seq<Option<Entry>>, last: seq<nat>, es: seq<Entry>, w: seq<byte>, i: nat, hs: Hashing, k: nat)
    returns (s: seq<byte>)
    requires |slots| == |last| > 0 && Filled(slots, last, es, w, i, hs) && k < |slots| && slots[k].Some?
    ensures Node(es, w, i, s) && |s| >= 2 && Path(last, s, hs).Some? && SlotOf(last, s, hs) == k
  {
    hide Path, Best, SlotOf;
    s :| Node(es, w, i, s) && Path(last, s, hs).Some? && SlotOf(last, s, hs) == k;
  }

  lemma CleanAt(bits: seq<nat>, es: seq<Entry>, hs: Hashing, s: seq<byte>, t: seq<byte>)
    requires |bits| > 0 && Long(es) && Clean(bits, es, hs) && Begins(es, s) && Begins(es, t)
    ensures |s| >= 2 && Path(bits, s, hs).Some? && |t| >= 2 && Path(bits, t, hs).Some?
    ensures s != t ==> SlotOf(bits, s, hs) != SlotOf(bits, t, hs)
  {
    hide Path, SlotOf;
  }

  lemma WordBegins(es: seq<Entry>, e: Entry)
    requires e in es && |e.text| >= 2
    ensures Begins(es, e.text)
  {
    assert e.text <= e.text;
  }

  /** The best word of one byte more is the same unless that is a word itself. */
  lemma BestGoesOn(es: seq<Entry>, w: seq<byte>, i: nat, o: Option<Entry>)
    requires 1 <= i < |w| && Best(es, w[..i], o) && !Begins(es, w[..i + 1])
    ensures Best(es, w[..i + 1], o)
  {
    hide Begins;
    assert w[..i] <= w[..i + 1];
    forall e | e in es && e.text <= w[..i + 1]
      ensures e.text <= w[..i]
    {
      if |e.text| == i + 1 {
        assert e.text == w[..i + 1];
        WordBegins(es, e);
      } else {
        assert w[..i][..|e.text|] == w[..i + 1][..|e.text|] == e.text;
      }
    }
  }

  lemma NoneBefore(es: seq<Entry>, w: seq<byte>, i: nat, o: Option<Entry>)
    requires 1 <= i < |w| && Best(es, w[..i], o) && Best(es, w[..i + 1], None)
    ensures o.None?
  {
    assert w[..i] <= w[..i + 1];
  }

  ghost predicate Among(es: seq<Entry>, e: Entry, all: seq<Entry>) {
    Long(all) && e in all && forall x :: x in es ==> x in all
  }

  lemma NodesBegin(es: seq<Entry>, e: Entry, all: seq<Entry>, i: nat)
    requires Among(es, e, all)
    ensures forall s :: Node(es, e.text, i, s) ==> Begins(all, s)
  {
  }

  function Current(slots: seq<Option<Entry>>, longest: Option<nat>): Option<Entry>
    requires longest.Some? ==> longest.value < |slots|
  {
    if longest.Some? then slots[longest.value] else None
  }

  /** A new beginning gets its slot. */
  lemma FillOne(slots: seq<Option<Entry>>, last: seq<nat>, es: seq<Entry>, e: Entry, all: seq<Entry>, i: nat, o: Option<Entry>, hs: Hashing)
    requires |slots| == |last| > 0 && Among(es, e, all) && Clean(last, all, hs) && 1 <= i < |e.text|
    requires Filled(slots, last, es, e.text, i, hs) && Best(es, e.text[..i + 1], o)
    ensures Path(last, e.text[..i + 1], hs).Some?
    ensures Filled(slots[SlotOf(last, e.text[..i + 1], hs) := o], last, es, e.text, i + 1, hs)
  {
    hide Path, Best, Begins, SlotOf, Among;
    var s := e.text[..i + 1];
    NodesBegin(es, e, all, i + 1);
    assert Node(es, e.text, i + 1, s);
    var at := SlotOf(last, s, hs);
    var slots' := slots[at := o];
    forall t | Node(es, e.text, i + 1, t)
      ensures |t| >= 2 && Path(last, t, hs).Some? && Best(es, t, slots'[SlotOf(last, t, hs)])
    {
      NodeSize(es, e.text, i + 1, t);
      if t != s {
        OtherNode(es, e.text, i, t);
        FilledAt(slots, last, es, e.text, i, hs, t);
      }
    }
    forall k | 0 <= k < |slots'| && slots'[k].Some?
      ensures exists t :: Node(es, e.text, i + 1, t) && Path(last, t, hs).Some? && SlotOf(last, t, hs) == k
    {
      if k != at {
        var t :| Node(es, e.text, i, t) && Path(last, t, hs).Some? && SlotOf(last, t, hs) == k;
        assert Node(es, e.text, i + 1, t);
      }
    }
  }

  lemma NodeSize(es: seq<Entry>, w: seq<byte>, i: nat, s: seq<byte>)
    requires Node(es, w, i, s)
    ensures |s| >= 2
  {
  }

  lemma OtherNode(es: seq<Entry>, w: seq<byte>, i: nat, s: seq<byte>)
    requires i < |w| && Node(es, w, i + 1, s) && s != w[..i + 1]
    ensures Node(es, w, i, s)
  {
    hide Begins;
  }

  /** One more beginning entered. */
  lemma EnterOne(t: Tables, e: Entry, i: nat, hash: nat, h: nat, longest: Option<nat>, last: seq<nat>, es: seq<Entry>, all: seq<Entry>, hs: Hashing)
    requires Sized(t, |last|) && (longest.Some? ==> longest.value < |last|) && Among(es, e, all) && Clean(last, all, hs)
    requires 1 <= i < |e.text| && Filled(t.slots, last, es, e.text, i, hs)
    requires Best(es, e.text[..i], Current(t.slots, longest)) && Path(last, e.text[..i + 1], hs) == Some(h)
    ensures
      var slots := Entered(t, hash, h, longest).slots;
      && Filled(slots, last, es, e.text, i + 1, hs)
      && Best(es, e.text[..i + 1], Current(slots, if t.slots[h % |last|].Some? then Some(h % |last|) else longest))
  {
    hide Path, Best, Clean, Filled, Begins;
    var s, at, o := e.text[..i + 1], h % |last|, Current(t.slots, longest);
    NodesBegin(es, e, all, i + 1);
    assert Node(es, e.text, i + 1, s);
    if Begins(es, s) {
      FilledAt(t.slots, last, es, e.text, i, hs, s);
      if t.slots[at].None? {
        NoneBefore(es, e.text, i, o);
      }
      FillOne(t.slots, last, es, e, all, i, t.slots[at], hs);
      assert t.slots[at := t.slots[at]] == t.slots;
    } else {
      BestGoesOn(es, e.text, i, o);
      EmptySlot(t.slots, last, es, all, e.text, i, s, hs);
      FillOne(t.slots, last, es, e, all, i, o, hs);
      assert t.slots[at := None] == t.slots;
    }
  }

  lemma KeptThrough(a: seq<nat>, b: seq<nat>, c: seq<nat>)
    requires Kept(a, b) && Kept(b, c)
    ensures Kept(a, c)
  {
  }

  /** The path of one byte more. */
  lemma PathNext(bits: seq<nat>, w: seq<byte>, i: nat, hs: Hashing)
    requires |bits| > 0 && 1 <= i < |w| && Path(bits, w[..i + 1], hs).Some?
    ensures Path(bits, w[..i], hs).Some?
    ensures
      var p := Probe(bits, Path(bits, w[..i], hs).value, w[i], hs);
      p.Found? && Path(bits, w[..i + 1], hs) == Some(p.h)
  {
    assert w[..i + 1][..i] == w[..i];
  }

  /** No earlier word goes on behind w. */
  ghost predicate NotBefore(es: seq<Entry>, w: seq<byte>) {
    forall e :: e in es && w <= e.text ==> e.text == w
  }

  /** The word itself in its slot. */
  lemma FillWord(slots: seq<Option<Entry>>, last: seq<nat>, es: seq<Entry>, e: Entry, all: seq<Entry>, hs: Hashing)
    requires |slots| == |last| > 0 && Among(es, e, all) && Clean(last, all, hs) && NotBefore(es, e.text)
    requires Filled(slots, last, es, e.text, |e.text|, hs)
    ensures |e.text| >= 2 && Path(last, e.text, hs).Some?
    ensures Filled(slots[SlotOf(last, e.text, hs) := Some(e)], last, es + [e], [], 0, hs)
  {
    hide Path, Best, Begins, SlotOf;
    WordBegins(all, e);
    CleanAt(last, all, hs, e.text, e.text);
    var at := SlotOf(last, e.text, hs);
    var slots' := slots[at := Some(e)];
    forall t | Node(es + [e], [], 0, t)
      ensures |t| >= 2 && Path(last, t, hs).Some? && Best(es + [e], t, slots'[SlotOf(last, t, hs)])
    {
      BeginsEither(es, e, t);
      NodeSize(es, e.text, |e.text|, t);
      FilledAt(slots, last, es, e.text, |e.text|, hs, t);
      NodesBegin(es, e, all, |e.text|);
      CleanAt(last, all, hs, t, e.text);
      BestWith(es, e, t, slots[SlotOf(last, t, hs)]);
    }
    forall k | 0 <= k < |slots'| && slots'[k].Some?
      ensures exists t :: Node(es + [e], [], 0, t) && Path(last, t, hs).Some? && SlotOf(last, t, hs) == k
    {
      if k == at {
        WordBegins(es + [e], e);
        assert Node(es + [e], [], 0, e.text);
      } else {
        var t := SlotOwner(slots, last, es, e.text, |e.text|, hs, k);
        EitherBegins(es, e, t);
      }
    }
  }

  lemma BeginsEither(es: seq<Entry>, e: Entry, t: seq<byte>)
    requires Node(es + [e], [], 0, t)
    ensures Node(es, e.text, |e.text|, t)
  {
  }

  lemma EitherBegins(es: seq<Entry>, e: Entry, t: seq<byte>)
    requires Node(es, e.text, |e.text|, t)
    ensures Node(es + [e], [], 0, t)
  {
    assert e in es + [e];
  }

  lemma BestWith(es: seq<Entry>, e: Entry, t: seq<byte>, o: Option<Entry>)
    requires Node(es, e.text, |e.text|, t) && Best(es, t, o) && NotBefore(es, e.text)
    ensures Best(es + [e], t, if t == e.text then Some(e) else o)
  {
    assert e in es + [e];
  }

  /** A word entered: from one of its beginnings on. */
  lemma {:induction false} AddFromFills(t: Tables, e: Entry, i: nat, hash: nat, longest: Option<nat>, last: seq<nat>, es: seq<Entry>,
                                        all: seq<Entry>, hs: Hashing)
    requires Sized(t, |last|) && (longest.Some? ==> longest.value < |last|) && Among(es, e, all) && Clean(last, all, hs)
    requires 1 <= i <= |e.text| && Filled(t.slots, last, es, e.text, i, hs) && NotBefore(es, e.text)
    requires Best(es, e.text[..i], Current(t.slots, longest)) && Path(last, e.text[..i], hs) == Some(hash)
    requires Kept(AddFrom(t, e, i, hash, longest, hs).bits, last)
    ensures Filled(AddFrom(t, e, i, hash, longest, hs).slots, last, es + [e], [], 0, hs)
    decreases |e.text| - i
  {
    hide Path, Best, Clean, Filled, Begins, Probing, Kept, NotBefore, Among;
    if i < |e.text| {
      var p := Probe(t.bits, hash, e.text[i], hs);
      AddKeeps(t, e, i, hash, longest, hs);
      KeptThrough(t.bits, AddFrom(t, e, i, hash, longest, hs).bits, last);
      var longest' := if !p.Full? && t.slots[p.h % |last|].Some? then Some(p.h % |last|) else longest;
      if !p.Full? {
        AddKeeps(Entered(t, hash, p.h, longest), e, i + 1, p.h, longest', hs);
        KeptThrough(Entered(t, hash, p.h, longest).bits, AddFrom(t, e, i, hash, longest, hs).bits, last);
      }
      BeginningHasPath(last, all, es, e, i + 1, hs);
      PathNext(last, e.text, i, hs);
      ProbeSame(t.bits, last, hs.update(hash, e.text[i]), hash, e.text[i], hs, PROBES);
      EnterOne(t, e, i, hash, p.h, longest, last, es, all, hs);
      AddFromFills(Entered(t, hash, p.h, longest), e, i + 1, p.h, longest', last, es, all, hs);
    } else {
      assert e.text[..i] == e.text;
      FillWord(t.slots, last, es, e, all, hs);
    }
  }

  lemma BeginningHasPath(last: seq<nat>, all: seq<Entry>, es: seq<Entry>, e: Entry, i: nat, hs: Hashing)
    requires |last| > 0 && Among(es, e, all) && Clean(last, all, hs) && 2 <= i <= |e.text|
    ensures Path(last, e.text[..i], hs).Some?
  {
    hide Path;
    assert e.text[..i] <= e.text;
    assert Begins(all, e.text[..i]);
  }

  // ------------------------------------------------------------------ words in order

  /** lexicographical_order: bytes first, then lengths. */
  predicate Precedes(a: seq<byte>, b: seq<byte>) {
    a == [] || (b != [] && (a[0] < b[0] || (a[0] == b[0] && Precedes(a[1..], b[1..]))))
  }

  ghost predicate InOrder(es: seq<Entry>) {
    forall i, j :: 0 <= i < j < |es| ==> Precedes(es[i].text, es[j].text)
  }

  /** Words come before the words that go on behind them. */
  lemma {:induction false} ShorterFirst(a: seq<byte>, b: seq<byte>)
    requires a <= b && Precedes(b, a)
    ensures a == b
  {
    if b != [] {
      assert a[0] == b[0];
      ShorterFirst(a[1..], b[1..]);
      assert a == [a[0]] + a[1..] && b == [b[0]] + b[1..];
    }
  }

  lemma OrderedNotBefore(es: seq<Entry>, n: nat)
    requires n < |es| && InOrder(es)
    ensures NotBefore(es[..n], es[n].text)
  {
    hide Precedes;
    forall e | e in es[..n] && es[n].text <= e.text
      ensures e.text == es[n].text
    {
      var i :| 0 <= i < n && es[..n][i] == e;
      ShorterFirst(es[n].text, e.text);
    }
  }

  lemma {:induction false} PrecedesTotal(a: seq<byte>, b: seq<byte>)
    ensures Precedes(a, b) || Precedes(b, a)
  {
    if a != [] && b != [] {
      PrecedesTotal(a[1..], b[1..]);
    }
  }

  lemma {:induction false} PrecedesThrough(a: seq<byte>, b: seq<byte>, c: seq<byte>)
    requires Precedes(a, b) && Precedes(b, c)
    ensures Precedes(a, c)
  {
    if a != [] && a[0] == b[0] == c[0] {
      PrecedesThrough(a[1..], b[1..], c[1..]);
    }
  }

  function Inserted(e: Entry, es: seq<Entry>): (r: seq<Entry>)
    ensures multiset(r) == multiset{e} + multiset(es)
  {
    if es == [] || Precedes(e.text, es[0].text) then [e] + es
    else
      assert es == [es[0]] + es[1..];
      [es[0]] + Inserted(e, es[1..])
  }

  /** The words as qsort leaves them. */
  function Sorted(es: seq<Entry>): (r: seq<Entry>)
    ensures multiset(r) == multiset(es)
  {
    if es == [] then [] else
      assert es == [es[0]] + es[1..];
      Inserted(es[0], Sorted(es[1..]))
  }

  lemma {:induction false} InsertedInOrder(e: Entry, es: seq<Entry>)
    requires InOrder(es)
    ensures InOrder(Inserted(e, es))
  {
    hide Precedes;
    if es != [] {
      PrecedesTotal(e.text, es[0].text);
      if Precedes(e.text, es[0].text) {
        forall i | 0 <= i < |es|
          ensures Precedes(e.text, es[i].text)
        {
          if i > 0 {
            PrecedesThrough(e.text, es[0].text, es[i].text);
          }
        }
      } else {
        InsertedInOrder(e, es[1..]);
        var r := Inserted(e, es[1..]);
        forall i | 0 <= i < |r|
          ensures Precedes(es[0].text, r[i].text)
        {
          assert r[i] in multiset(r);
          assert r[i] == e || r[i] in es[1..];
        }
      }
    }
  }

  lemma {:induction false} SortedInOrder(es: seq<Entry>)
    ensures InOrder(Sorted(es))
  {
    if es != [] {
      SortedInOrder(es[1..]);
      InsertedInOrder(es[0], Sorted(es[1..]));
    }
  }

  lemma SortedSame(es: seq<Entry>)
    ensures forall e :: e in Sorted(es) <==> e in es
    ensures Long(es) ==> Long(Sorted(es))
  {
    var r := Sorted(es);
    forall e
      ensures e in r <==> e in es
    {
      assert e in r <==> e in multiset(r);
      assert e in es <==> e in multiset(es);
    }
    forall i | Long(es) && 0 <= i < |r|
      ensures 2 <= |r[i].text|
    {
      assert r[i] in es;
    }
  }

  lemma HashedSnoc(es: seq<Entry>, n: nat, size: nat, hs: Hashing)
    requires size > 0 && Long(es) && n < |es|
    ensures Long(es[..n]) && Long(es[..n + 1]) && es[n].text != []
    ensures Hashed(es[..n + 1], size, hs) == Added(Hashed(es[..n], size, hs), es[n], hs)
    ensures Kept(Hashed(es[..n], size, hs).bits, Hashed(es[..n + 1], size, hs).bits)
  {
    hide Added, AddFrom, Kept;
    var t := Hashed(es[..n], size, hs);
    assert es[..n + 1][..n] == es[..n];
    AddedKeeps(t, es[n], hs);
  }

  lemma AddedKeeps(t: Tables, e: Entry, hs: Hashing)
    requires Sized(t, |t.bits|) && e.text != []
    ensures Kept(t.bits, Added(t, e, hs).bits)
  {
    hide AddFrom, Kept;
    AddKeeps(t, e, 1, |t.bits| + e.text[0], None, hs);
  }

  lemma {:induction false} HashedKeeps(es: seq<Entry>, n: nat, size: nat, hs: Hashing)
    requires size > 0 && Long(es) && n <= |es|
    ensures Long(es[..n]) && Kept(Hashed(es[..n], size, hs).bits, Hashed(es, size, hs).bits)
    decreases |es| - n
  {
    hide Hashed;
    if n < |es| {
      HashedSnoc(es, n, size, hs);
      HashedKeeps(es, n + 1, size, hs);
      KeptThrough(Hashed(es[..n], size, hs).bits, Hashed(es[..n + 1], size, hs).bits, Hashed(es, size, hs).bits);
    } else {
      assert es[..n] == es;
    }
  }

  lemma FilledStart(slots: seq<Option<Entry>>, last: seq<nat>, es: seq<Entry>, e: Entry, hs: Hashing)
    requires |slots| == |last| > 0 && Filled(slots, last, es, [], 0, hs)
    ensures Filled(slots, last, es, e.text, 1, hs)
  {
    hide Path, Best;
    assert forall s :: Node(es, e.text, 1, s) <==> Node(es, [], 0, s);
  }

  /** The words up to n give every beginning its longest word. */
  lemma {:induction false} HashedFills(es: seq<Entry>, n: nat, size: nat, hs: Hashing)
    requires size > 0 && Long(es) && InOrder(es) && n <= |es|
    requires Clean(Hashed(es, size, hs).bits, es, hs)
    ensures Long(es[..n]) && Filled(Hashed(es[..n], size, hs).slots, Hashed(es, size, hs).bits, es[..n], [], 0, hs)
    decreases n
  {
    hide Clean, InOrder, Filled, AddFrom, Kept, NotBefore, Path, Best, Long;
    var last := Hashed(es, size, hs).bits;
    LongPart(es, n);
    if n == 0 {
      NothingFilled(size, last, hs);
      assert es[..0] == [];
    } else {
      var k := n - 1;
      HashedFills(es, k, size, hs);
      HashedSnoc(es, k, size, hs);
      HashedKeeps(es, n, size, hs);
      OrderedNotBefore(es, k);
      var t, e := Hashed(es[..k], size, hs), es[k];
      FilledStart(t.slots, last, es[..k], e, hs);
      OneByte(last, es[..k], e, hs);
      IsAmong(es, k);
      AddFromFills(t, e, 1, size + e.text[0], None, last, es[..k], es, hs);
      assert es[..n] == es[..k] + [e];
    }
  }

  lemma LongPart(es: seq<Entry>, n: nat)
    requires Long(es) && n <= |es|
    ensures Long(es[..n])
  {
  }

  lemma IsAmong(es: seq<Entry>, k: nat)
    requires Long(es) && k < |es|
    ensures Among(es[..k], es[k], es)
  {
  }

  lemma NothingFilled(size: nat, last: seq<nat>, hs: Hashing)
    requires size > 0 && |last| == size
    ensures Filled(Hashed([], size, hs).slots, last, [], [], 0, hs)
  {
    hide Path;
  }

  lemma OneByte(last: seq<nat>, es: seq<Entry>, e: Entry, hs: Hashing)
    requires |last| > 0 && Long(es) && |e.text| >= 2
    ensures Path(last, e.text[..1], hs) == Some(|last| + e.text[0])
    ensures Best(es, e.text[..1], None)
  {
  }

  // ------------------------------------------------------------------ the longest word is found

  /** Where the text stops being followed: before the first byte that no word goes on with, or at its last byte. */
  ghost function Reach(es: seq<Entry>, text: seq<byte>, p0: nat, p: nat): (q: nat)
    requires p0 < p < |text|
    ensures p <= q < |text|
    decreases |text| - p
  {
    if p + 1 < |text| && Begins(es, text[p0..p + 1]) then Reach(es, text, p0, p + 1) else p
  }

  /** One of the words at p that are no shorter than any other. */
  ghost predicate Longest(es: seq<Entry>, text: seq<byte>, p: nat, b: Entry) {
    b in es && StandsAt(b, text, p) && forall e :: e in es && StandsAt(e, text, p) ==> |e.text| <= |b.text|
  }

  lemma CleanBegins(bits: seq<nat>, es: seq<Entry>, hs: Hashing, s: seq<byte>)
    requires |bits| > 0 && Long(es) && Clean(bits, es, hs) && |s| >= 2
    ensures Path(bits, s, hs).Some? <==> Begins(es, s)
  {
    hide Path;
  }

  lemma PathStep(bits: seq<nat>, text: seq<byte>, p0: nat, p: nat, hash: nat, hs: Hashing)
    requires |bits| > 0 && p0 < p < |text| && Path(bits, text[p0..p], hs) == Some(hash)
    ensures
      var r := Probe(bits, hash, text[p], hs);
      Path(bits, text[p0..p + 1], hs) == if r.Found? then Some(r.h) else None
  {
    assert text[p0..p + 1][..p - p0] == text[p0..p];
  }

  /** Following goes as far as words begin so, and the hash is that of the bytes followed. */
  lemma {:induction false} FollowIs(bits: seq<nat>, es: seq<Entry>, text: seq<byte>, behind: byte, p0: nat, p: nat, hash: nat, hs: Hashing)
    requires |bits| > 0 && Long(es) && Clean(bits, es, hs) && p0 < p < |text| && Path(bits, text[p0..p], hs) == Some(hash)
    ensures
      var r := Follow(bits, text, behind, p, hash, hs);
      && r.p == Reach(es, text, p0, p)
      && Path(bits, text[p0..if Begins(es, text[p0..r.p + 1]) then r.p + 1 else r.p], hs) == Some(r.hash)
    decreases |text| - p
  {
    hide Path, Clean, Begins, Probing;
    PathStep(bits, text, p0, p, hash, hs);
    CleanBegins(bits, es, hs, text[p0..p + 1]);
    var r := Probe(bits, hash, text[p], hs);
    if r.Found? && p + 1 < |text| {
      FollowIs(bits, es, text, behind, p0, p + 1, r.h, hs);
    }
  }

  /** How far the text was followed. */
  ghost function Followed(es: seq<Entry>, text: seq<byte>, p0: nat, p: nat): (end: nat)
    requires p0 < p < |text|
    ensures p <= end <= |text|
  {
    var q := Reach(es, text, p0, p);
    if Begins(es, text[p0..q + 1]) then q + 1 else q
  }

  lemma Beginning(text: seq<byte>, a: nat, b: nat, c: nat)
    requires a <= b <= c <= |text|
    ensures text[a..b] <= text[a..c]
  {
    assert text[a..c][..b - a] == text[a..b];
  }

  /** A word of the text is followed to its end. */
  lemma {:induction false} WordFollowed(es: seq<Entry>, text: seq<byte>, p0: nat, p: nat, e: Entry)
    requires p0 < p < |text| && e in es && StandsAt(e, text, p0)
    ensures p0 + |e.text| <= Followed(es, text, p0, p)
    decreases |text| - p
  {
    if p0 + |e.text| > p {
      Beginning(text, p0, p + 1, p0 + |e.text|);
      assert Begins(es, text[p0..p + 1]);
      if p + 1 < |text| {
        WordFollowed(es, text, p0, p + 1, e);
      }
    }
  }

  lemma BestIsLongest(es: seq<Entry>, text: seq<byte>, p0: nat, o: Option<Entry>)
    requires Long(es) && p0 + 1 < |text| && Best(es, text[p0..Followed(es, text, p0, p0 + 1)], o)
    ensures o.Some? ==> Longest(es, text, p0, o.value)
    ensures o.None? ==> forall e :: e in es ==> !StandsAt(e, text, p0)
  {
    hide Reach, Begins, Followed;
    var f := text[p0..Followed(es, text, p0, p0 + 1)];
    forall e | e in es && StandsAt(e, text, p0)
      ensures e.text <= f
    {
      WordFollowed(es, text, p0, p0 + 1, e);
      assert f[..|e.text|] == text[p0..p0 + |e.text|];
    }
    forall e | e in es && e.text <= f
      ensures StandsAt(e, text, p0)
    {
      assert f[..|e.text|] == text[p0..p0 + |e.text|];
    }
  }

  lemma SlotWord(slots: seq<Option<Entry>>, last: seq<nat>, es: seq<Entry>, hs: Hashing, k: nat)
    requires |slots| == |last| > 0 && Filled(slots, last, es, [], 0, hs) && k < |slots| && slots[k].Some?
    ensures slots[k].value in es
  {
    hide Filled, Path;
    var s := SlotOwner(slots, last, es, [], 0, hs, k);
    FilledAt(slots, last, es, [], 0, hs, s);
  }

  /** What the last slot holds: the longest word there, or one that is not there at all. */
  lemma StopSlot(es: seq<Entry>, size: nat, text: seq<byte>, behind: byte, p0: nat, hs: Hashing) returns (o: Option<Entry>)
    requires size > 0 && Long(es) && InOrder(es) && Clean(Hashed(es, size, hs).bits, es, hs) && p0 + 1 < |text|
    ensures
      var stop := StopAt(Hashed(es, size, hs).bits, text, behind, p0, hs);
      stop.p == Reach(es, text, p0, p0 + 1) && o == Hashed(es, size, hs).slots[stop.hash % size]
    ensures o.Some? && StandsAt(o.value, text, p0) ==> Longest(es, text, p0, o.value)
    ensures forall b :: Longest(es, text, p0, b) ==> o.Some? && StandsAt(o.value, text, p0)
  {
    hide Path, Clean, Filled, Hashed, InOrder, Best, Reach, StandsAt, Long, Begins, Follow;
    var t := Hashed(es, size, hs);
    assert es[..|es|] == es;
    HashedFills(es, |es|, size, hs);
    FirstPath(t.bits, text, p0, hs);
    FollowIs(t.bits, es, text, behind, p0, p0 + 1, size + text[p0], hs);
    var stop := StopAt(t.bits, text, behind, p0, hs);
    o := t.slots[stop.hash % size];
    var f := text[p0..Followed(es, text, p0, p0 + 1)];
    if |f| >= 2 {
      CleanBegins(t.bits, es, hs, f);
      FilledAt(t.slots, t.bits, es, [], 0, hs, f);
      BestIsLongest(es, text, p0, o);
    } else {
      OneFollowed(es, text, p0);
      if o.Some? {
        SlotWord(t.slots, t.bits, es, hs, stop.hash % size);
      }
    }
  }

  lemma FirstPath(bits: seq<nat>, text: seq<byte>, p0: nat, hs: Hashing)
    requires |bits| > 0 && p0 < |text|
    ensures Path(bits, text[p0..p0 + 1], hs) == Some(|bits| + text[p0])
  {
  }

  lemma OneFollowed(es: seq<Entry>, text: seq<byte>, p0: nat)
    requires Long(es) && p0 + 1 < |text| && Followed(es, text, p0, p0 + 1) < p0 + 2
    ensures forall e :: e in es ==> !StandsAt(e, text, p0)
  {
    hide Followed;
    forall e | e in es
      ensures !StandsAt(e, text, p0)
    {
      if StandsAt(e, text, p0) {
        WordFollowed(es, text, p0, p0 + 1, e);
      }
    }
  }

  /**
    Without collisions the hashes do not matter: the word found is the longest one there, unless that is longer
    than what is left from the last byte read, and then there is none.
   */
  lemma WordIsLongest(es: seq<Entry>, size: nat, text: seq<byte>, behind: byte, p0: nat, hs: Hashing)
    requires size > 0 && Long(es) && InOrder(es) && Clean(Hashed(es, size, hs).bits, es, hs) && p0 < |text|
    ensures
      var word := TextWord(Hashed(es, size, hs), text, behind, p0, hs);
      && (p0 + 1 == |text| ==> word.None?)
      && (p0 + 1 < |text| ==>
           && (word.Some? ==> Longest(es, text, p0, word.value))
           && (word.Some? <==>
                exists b :: Longest(es, text, p0, b) && |b.text| <= |text| - Reach(es, text, p0, p0 + 1)))
  {
    hide Clean, Hashed, InOrder, Reach, StandsAt, Long, Follow, Longest;
    if p0 + 1 < |text| {
      var o := StopSlot(es, size, text, behind, p0, hs);
      forall b | Longest(es, text, p0, b)
        ensures o.Some? && |b.text| == |o.value.text|
      {
        LongestSame(es, text, p0, b, o.value);
      }
      LongestStands(es, text, p0);
    }
  }

  lemma LongestSame(es: seq<Entry>, text: seq<byte>, p0: nat, a: Entry, b: Entry)
    requires Longest(es, text, p0, a) && Longest(es, text, p0, b)
    ensures a.text == b.text
  {
  }

  lemma LongestStands(es: seq<Entry>, text: seq<byte>, p0: nat)
    ensures forall b :: StandsAt(b, text, p0) ==> b.text != []
  {
  }

  // ------------------------------------------------------------------ an example

  /** The hash is the last byte. */
  const LAST_BYTE: Hashing := Hashing((h: nat, c: byte) => c, (h: nat, c: byte) => c)

  function OneWord(e: Entry): (t: Tables)
    requires |e.text| == 2
    ensures Sized(t, 256)
  {
    Hashed([e], 256, LAST_BYTE)
  }

  lemma OneWordTables(e: Entry)
    requires |e.text| == 2
    ensures
      var first: nat := e.text[0];
      OneWord(e) == Tables(seq(256, _ => 0)[e.text[1] := 256 + first], seq(256, _ => None)[e.text[1] := Some(e)])
  {
    assert [e][..0] == [];
    var t := Tables(seq(256, _ => 0), seq(256, _ => None));
    assert Hashed([], 256, LAST_BYTE) == t;
    var first: nat := e.text[0];
    var h0 := 256 + first;
    assert Probe(t.bits, h0, e.text[1], LAST_BYTE) == Free(e.text[1]);
    assert Added(t, e, LAST_BYTE) == AddFrom(Entered(t, h0, e.text[1], None), e, 2, e.text[1], None, LAST_BYTE);
  }

  lemma {:induction false} OneWordPath(e: Entry, s: seq<byte>)
    requires |e.text| == 2 && |s| >= 2
    ensures Path(OneWord(e).bits, s, LAST_BYTE) == if s == e.text then Some(s[1]) else None
    decreases |s|
  {
    hide Hashed;
    OneWordTables(e);
    var bits, c := OneWord(e).bits, s[|s| - 1];
    if |s| > 2 {
      OneWordPath(e, s[..|s| - 1]);
      if s[..|s| - 1] == e.text {
        ProbeLast(bits, e.text[1], c, PROBES);
      }
    } else {
      var first: nat := s[0];
      assert Path(bits, s[..1], LAST_BYTE) == Some(256 + first);
      ProbeLast(bits, 256 + first, c, PROBES);
    }
  }

  lemma {:induction false} ProbeLast(bits: seq<nat>, h0: nat, c: byte, n: nat)
    requires |bits| == 256
    ensures Probing(bits, c, h0, c, LAST_BYTE, n)
            == if n == 0 then Full else if bits[c] == 0 then Free(c) else if bits[c] == h0 % 65536 then Found(c) else Full
    decreases n
  {
    if n > 0 {
      ProbeLast(bits, h0, c, n - 1);
    }
  }

  /** Tables without collisions: those of one word of two bytes, for example. */
  lemma OneWordClean(e: Entry)
    requires |e.text| == 2
    ensures Clean(OneWord(e).bits, [e], LAST_BYTE)
  {
    hide OneWord, Path;
    forall s | |s| >= 2
      ensures Path(OneWord(e).bits, s, LAST_BYTE).Some? <==> Begins([e], s)
      ensures Begins([e], s) <==> s == e.text
    {
      OneWordPath(e, s);
      assert e in [e];
    }
  }
}
