/** Dict/dict.cpp: the text in codes and back (phase6, FindWord, phase7, DictEncode and DictDecode). */
module DictText {
  import opened Bytes
  import opened DictCodes
  import opened DictBook
  import opened DictRead
  import opened DictHash

  function Plus(a: seq<byte>, b: Option<seq<byte>>): Option<seq<byte>> {
    if b.None? then None else Some(a + b.value)
  }

  /** What a decoder with this book makes of s; None: s ends inside a code. */
  function TextOf(book: seq<Meaning>, s: seq<byte>): Option<seq<byte>>
    requires BookOk(book)
  {
    if s == [] then Some([])
    else match book[s[0]]
      case Unused => Plus([s[0]], TextOf(book, s[1..]))
      case Single(text) => Plus(text, TextOf(book, s[1..]))
      case Pairs(row) => if |s| < 2 then None else Plus(row[s[1]], TextOf(book, s[2..]))
  }

  lemma PlusBoth(a: seq<byte>, b: seq<byte>, c: Option<seq<byte>>)
    ensures Plus(a, Plus(b, c)) == Plus(a + b, c) && Plus([], c) == c && Plus(a, Some([])) == Some(a)
  {
    if c.Some? {
      assert a + (b + c.value) == a + b + c.value && [] + c.value == c.value;
    }
    assert a + [] == a;
  }

  /** Codes have no memory: what follows a complete text is decoded on its own. */
  lemma {:induction false} TextOfJoin(book: seq<Meaning>, a: seq<byte>, b: seq<byte>)
    requires BookOk(book) && TextOf(book, a).Some?
    ensures TextOf(book, a + b) == Plus(TextOf(book, a).value, TextOf(book, b))
  {
    if a == [] {
      assert a + b == b;
      PlusBoth([], [], TextOf(book, b));
    } else {
      var k := if book[a[0]].Pairs? then 2 else 1;
      assert (a + b)[k..] == a[k..] + b && (a + b)[0] == a[0] && (k == 2 ==> (a + b)[1] == a[1]);
      TextOfJoin(book, a[k..], b);
      PlusBoth(Meant(book, a), TextOf(book, a[k..]).value, TextOf(book, b));
    }
  }

  /** The word of the first code of s. */
  function Meant(book: seq<Meaning>, s: seq<byte>): seq<byte>
    requires BookOk(book) && s != [] && (book[s[0]].Pairs? ==> |s| >= 2)
  {
    match book[s[0]]
    case Unused => [s[0]]
    case Single(text) => text
    case Pairs(row) => row[s[1]]
  }

  /** A single code. */
  lemma OneCode(book: seq<Meaning>, s: seq<byte>)
    requires BookOk(book) && s != [] && |s| == if book[s[0]].Pairs? then 2 else 1
    ensures TextOf(book, s) == Some(Meant(book, s))
  {
    assert s[|s|..] == [] && TextOf(book, s[|s|..]) == Some([]);
    PlusBoth(Meant(book, s), [], Some([]));
  }

  function CodeBytes(k: Code): seq<byte> {
    match k
    case One(c) => [c]
    case Two(c, d) => [c, d]
  }

  /** The decoder's book agrees with the encoder: words for their codes, the prefix for any byte, the others bare. */
  predicate Agrees(book: seq<Meaning>, es: seq<Entry>, free: seq<bool>, prefix: byte) {
    && BookOk(book) && |free| == 256 && book[prefix] == Pairs(Escapes())
    && (forall i :: 0 <= i < |es| ==> Holds(book, es[i]))
    && (forall c :: 0 <= c < 256 && !free[c] && c != prefix ==> book[c].Unused?)
  }

  lemma EscapesOk(book: seq<Meaning>, prefix: byte)
    requires BookOk(book)
    ensures |book| == 256 && BookOk(WithEscapes(book, prefix))
  {
  }

  lemma Agree(book: seq<Meaning>, es: seq<Entry>, free: seq<bool>, prefix: byte)
    requires BookOk(book) && |free| == 256 && !free[prefix] && Coded(es, free) && Bound(book, es, |es|) && OnlyFreed(book, free)
    ensures Agrees(WithEscapes(book, prefix), es, free, prefix)
  {
    forall i | 0 <= i < |es|
      ensures Holds(WithEscapes(book, prefix), es[i])
    {
      assert Holds(book, es[i]) && CodeOk(free, es[i].code);
    }
  }

  lemma AgreesIs(book: seq<Meaning>, es: seq<Entry>, free: seq<bool>, prefix: byte)
    requires Agrees(book, es, free, prefix)
    ensures BookOk(book) && |free| == 256 && forall i :: 0 <= i < |es| ==> Holds(book, es[i])
  {
  }

  lemma TextOfNone(book: seq<Meaning>)
    requires BookOk(book)
    ensures TextOf(book, []) == Some([])
  {
  }

  /** One code is decoded to its word. */
  lemma WordDecodes(book: seq<Meaning>, e: Entry)
    requires BookOk(book) && Holds(book, e)
    ensures TextOf(book, CodeBytes(e.code)) == Some(e.text)
  {
    OneCode(book, CodeBytes(e.code));
  }

  /** A byte of the text as phase7 writes it. */
  function Bare(c: byte, free: seq<bool>, prefix: byte): seq<byte>
    requires |free| == 256
  {
    if free[c] || c == prefix then [prefix, c] else [c]
  }

  lemma BareDecodes(book: seq<Meaning>, es: seq<Entry>, free: seq<bool>, prefix: byte, c: byte)
    requires Agrees(book, es, free, prefix)
    ensures TextOf(book, Bare(c, free, prefix)) == Some([c])
  {
    OneCode(book, Bare(c, free, prefix));
  }

  // ------------------------------------------------------------------ the hash tables

  /** The loop of phase6 and FindWord over the slots of a beginning. */
  method ProbeSlots(bits: seq<nat>, h0: nat, c: byte, hs: Hashing) returns (hash: nat, free: bool, found: bool)
    requires |bits| > 0
    ensures Probe(bits, h0, c, hs) == if free then Free(hash) else if found then Found(hash) else Full
  {
    hash, free, found := hs.update(h0, c), false, false;
    var n: nat := PROBES;
    while n > 0
      invariant Probing(bits, hash, h0, c, hs, n) == Probe(bits, h0, c, hs)
    {
      if bits[hash % |bits|] == 0 {
        return hash, true, false;
      }
      if bits[hash % |bits|] == h0 % 65536 {
        return hash, false, true;
      }
      hash := hs.rehash(hash, c);
      n := n - 1;
    }
  }

  /** The body of the loop of phase6; a beginning that finds no slot ends it. */
  method AddWord(t0: Tables, e: Entry, hs: Hashing) returns (t: Tables)
    requires Sized(t0, |t0.bits|) && e.text != []
    ensures t == Added(t0, e, hs)
  {
    hide Probe;
    t := t0;
    var size := |t.bits|;
    var hash: nat := size + e.text[0];
    var longest: Option<nat> := None;
    var i := 1;
    while i < |e.text|
      invariant 1 <= i <= |e.text| && Sized(t, size) && (longest.Some? ==> longest.value < size)
      invariant AddFrom(t, e, i, hash, longest, hs) == Added(t0, e, hs)
    {
      var h, free, found := ProbeSlots(t.bits, hash, e.text[i], hs);
      if !free && !found {
        return;
      }
      var at: nat := h % size;
      var bits, slots := t.bits[at := hash % 65536], t.slots;
      var last := longest;
      if t.slots[at].Some? {
        longest := Some(at);
      } else if longest.Some? {
        slots := slots[at := slots[longest.value]];
      }
      assert Tables(bits, slots) == Entered(t, hash, h, last);
      t, hash, i := Tables(bits, slots), h, i + 1;
    }
    t := t.(slots := t.slots[hash % size := Some(e)]);
  }

  /** phase6. */
  method HashWords(es: seq<Entry>, size: nat, hs: Hashing) returns (t: Tables)
    requires size > 0 && Long(es)
    ensures Long(Sorted(es)) && t == Hashed(Sorted(es), size, hs)
  {
    hide Added;
    SortedSame(es);
    var words := Sorted(es);
    t := Tables(seq(size, _ => 0), seq(size, _ => None));
    assert words[..0] == [];
    for k := 0 to |words|
      invariant Long(words[..k]) && t == Hashed(words[..k], size, hs)
    {
      HashedSnoc(words, k, size, hs);
      t := AddWord(t, words[k], hs);
    }
    assert words[..|words|] == words;
  }

  /** A word found through the hash tables, whatever they hold; the byte behind the text may be read. */
  method FindWord(text: seq<byte>, p0: nat, behind: byte, t: Tables, hs: Hashing) returns (word: Option<Entry>)
    requires p0 < |text| && Sized(t, |t.bits|)
    ensures word == TextWord(t, text, behind, p0, hs)
  {
    hide Probe;
    var size := |t.bits|;
    var p, hash: nat := p0 + 1, size + text[p0];
    var going := true;
    while going
      invariant p0 < p <= |text| + 1 && (going ==> p <= |text|)
      invariant StopAt(t.bits, text, behind, p0, hs)
             == if going then Follow(t.bits, text, behind, p, hash, hs) else Stop(p - 1, hash)
      decreases |text| + 1 - p, going
    {
      var c := if p < |text| then text[p] else behind;
      p := p + 1;
      var h, free, found := ProbeSlots(t.bits, hash, c, hs);
      if found && !free {
        hash := h;
      }
      going := found && !free && p < |text|;
    }
    p := p - 1;
    word := t.slots[hash % size];
    if word.Some? {
      var len := |word.value.text|;
      if len == 0 || len > |text| - p || text[p0..p0 + len] != word.value.text {
        word := None;
      }
    }
  }

  // ------------------------------------------------------------------ phase7 and back

  /** The text from p on in codes: words found by their codes, other bytes bare. */
  function Encoded(text: seq<byte>, p: nat, behind: byte, t: Tables, hs: Hashing, free: seq<bool>, prefix: byte): seq<byte>
    requires p <= |text| && Sized(t, |t.bits|) && |free| == 256
    decreases |text| - p
  {
    if p == |text| then [] else
      var word := TextWord(t, text, behind, p, hs);
      if word.Some? then
        CodeBytes(word.value.code) + Encoded(text, p + |word.value.text|, behind, t, hs, free, prefix)
      else
        Bare(text[p], free, prefix) + Encoded(text, p + 1, behind, t, hs, free, prefix)
  }

  lemma WordOf(t: Tables, text: seq<byte>, behind: byte, p: nat, hs: Hashing, es: seq<Entry>)
    requires Sized(t, |t.bits|) && p < |text| && SlotsOk(t.slots, es)
    ensures var word := TextWord(t, text, behind, p, hs); word.Some? ==> word.value in es && StandsAt(word.value, text, p)
  {
  }

  lemma EncodedStep(
    text: seq<byte>, p: nat, behind: byte, t: Tables, hs: Hashing, free: seq<bool>, prefix: byte, out: seq<byte>
  )
    requires p < |text| && Sized(t, |t.bits|) && |free| == 256
    ensures
      var word := TextWord(t, text, behind, p, hs);
      out + Encoded(text, p, behind, t, hs, free, prefix)
      == if word.Some? then
           (out + CodeBytes(word.value.code)) + Encoded(text, p + |word.value.text|, behind, t, hs, free, prefix)
         else
           (out + Bare(text[p], free, prefix)) + Encoded(text, p + 1, behind, t, hs, free, prefix)
  {
    hide TextWord, Bare, CodeBytes;
  }

  lemma EncodedEnd(text: seq<byte>, behind: byte, t: Tables, hs: Hashing, free: seq<bool>, prefix: byte, out: seq<byte>)
    requires Sized(t, |t.bits|) && |free| == 256
    ensures out + Encoded(text, |text|, behind, t, hs, free, prefix) == out
  {
  }

  lemma StandsThere(e: Entry, text: seq<byte>, p: nat)
    requires StandsAt(e, text, p)
    ensures e.text != [] && p + |e.text| <= |text| && text[p..p + |e.text|] == e.text
  {
  }

  /** Codes for the next bytes of the text. */
  lemma DecodesOn(book: seq<Meaning>, out: seq<byte>, code: seq<byte>, text: seq<byte>, p: nat, n: nat)
    requires BookOk(book) && p + n <= |text|
    requires TextOf(book, out) == Some(text[..p]) && TextOf(book, code) == Some(text[p..p + n])
    ensures TextOf(book, out + code) == Some(text[..p + n])
  {
    hide TextOf, BookOk;
    TextOfJoin(book, out, code);
    assert text[..p] + text[p..p + n] == text[..p + n];
  }

  method PutBare(out0: seq<byte>, c: byte, free: seq<bool>, prefix: byte) returns (out: seq<byte>)
    requires |free| == 256
    ensures out == out0 + Bare(c, free, prefix)
  {
    if free[c] || c == prefix {
      out := out0 + [prefix, c];
    } else {
      out := out0 + [c];
    }
  }

  /** phase7: the text in codes. */
  method EncodeText(
    text: seq<byte>, behind: byte, t: Tables, hs: Hashing, free: seq<bool>, prefix: byte, ghost es: seq<Entry>, ghost book: seq<Meaning>
  ) returns (out: seq<byte>)
    requires text != [] && Sized(t, |t.bits|) && SlotsOk(t.slots, es) && Agrees(book, es, free, prefix)
    ensures out == Encoded(text, 0, behind, t, hs, free, prefix)
    ensures TextOf(book, out) == Some(text)
  {
    hide TextOf, Agrees, SlotsOk, BookOk, TextWord, Encoded, Bare, CodeBytes, StandsAt, Holds;
    AgreesIs(book, es, free, prefix);
    TextOfNone(book);
    out := [];
    var p: nat := 0;
    while p < |text|
      invariant p <= |text| && TextOf(book, out) == Some(text[..p])
      invariant out + Encoded(text, p, behind, t, hs, free, prefix) == Encoded(text, 0, behind, t, hs, free, prefix)
      decreases |text| - p
    {
      var word := FindWord(text, p, behind, t, hs);
      WordOf(t, text, behind, p, hs, es);
      EncodedStep(text, p, behind, t, hs, free, prefix, out);
      if word.Some? {
        var e := word.value;
        StandsThere(e, text, p);
        WordDecodes(book, e);
        DecodesOn(book, out, CodeBytes(e.code), text, p, |e.text|);
        out := out + CodeBytes(e.code);
        p := p + |e.text|;
      } else {
        var c := text[p];
        BareDecodes(book, es, free, prefix, c);
        assert text[p..p + 1] == [c];
        DecodesOn(book, out, Bare(c, free, prefix), text, p, 1);
        out := PutBare(out, c, free, prefix);
        p := p + 1;
      }
    }
    assert text[..p] == text;
    EncodedEnd(text, behind, t, hs, free, prefix, out);
  }

  /** Two words of the same text are the same word. */
  ghost predicate Different(es: seq<Entry>) {
    forall a, b :: a in es && b in es && a.text == b.text ==> a == b
  }

  /** Hashes without collisions all lead to the same code. */
  lemma {:induction false} HashesDoNotMatter(
    text: seq<byte>, p: nat, behind: byte, behind': byte, es: seq<Entry>, size: nat, hs: Hashing, size': nat, hs': Hashing,
    free: seq<bool>, prefix: byte
  )
    requires p <= |text| && |free| == 256 && size > 0 && size' > 0 && Long(es) && InOrder(es) && Different(es)
    requires Clean(Hashed(es, size, hs).bits, es, hs) && Clean(Hashed(es, size', hs').bits, es, hs')
    ensures Encoded(text, p, behind, Hashed(es, size, hs), hs, free, prefix)
            == Encoded(text, p, behind', Hashed(es, size', hs'), hs', free, prefix)
    decreases |text| - p
  {
    hide Clean, InOrder, Hashed, TextWord, Long, Different, Bare;
    if p < |text| {
      SameWord(text, p, behind, behind', es, size, hs, size', hs');
      var word := TextWord(Hashed(es, size, hs), text, behind, p, hs);
      var next := if word.Some? then p + |word.value.text| else p + 1;
      HashesDoNotMatter(text, next, behind, behind', es, size, hs, size', hs', free, prefix);
    }
  }

  lemma SameWord(
    text: seq<byte>, p: nat, behind: byte, behind': byte, es: seq<Entry>, size: nat, hs: Hashing, size': nat, hs': Hashing
  )
    requires p < |text| && size > 0 && size' > 0 && Long(es) && InOrder(es) && Different(es)
    requires Clean(Hashed(es, size, hs).bits, es, hs) && Clean(Hashed(es, size', hs').bits, es, hs')
    ensures TextWord(Hashed(es, size, hs), text, behind, p, hs) == TextWord(Hashed(es, size', hs'), text, behind', p, hs')
  {
    hide Clean, InOrder, Hashed, TextWord, Long, Longest;
    WordIsLongest(es, size, text, behind, p, hs);
    WordIsLongest(es, size', text, behind', p, hs');
    var a, b := TextWord(Hashed(es, size, hs), text, behind, p, hs), TextWord(Hashed(es, size', hs'), text, behind', p, hs');
    if a.Some? && b.Some? {
      LongestSame(es, text, p, a.value, b.value);
      LongestIn(es, text, p, a.value);
      LongestIn(es, text, p, b.value);
    }
  }

  lemma LongestIn(es: seq<Entry>, text: seq<byte>, p: nat, b: Entry)
    requires Longest(es, text, p, b)
    ensures b in es
  {
  }

  function Times(s: seq<byte>, n: nat): seq<byte> {
    if n == 0 then [] else s + Times(s, n - 1)
  }

  /** A text that is one word of two bytes over and over. */
  predicate Repeated(text: seq<byte>, e: Entry) {
    |e.text| == 2 && |text| >= 2 && |text| % 2 == 0 && forall i :: 0 <= i < |text| ==> text[i] == e.text[i % 2]
  }

  /** Where the word is taken: everywhere but in the last two bytes, where the byte behind it could not be read. */
  lemma RepeatedWord(text: seq<byte>, e: Entry, p: nat, behind: byte)
    requires Repeated(text, e) && p < |text| && (p % 2 == 0 || p + 1 == |text|)
    ensures TextWord(OneWord(e), text, behind, p, LAST_BYTE) == if p + 2 < |text| then Some(e) else None
  {
    hide Clean, Path, TextWord, Reach, Longest;
    OneWordClean(e);
    WordIsLongest([e], 256, text, behind, p, LAST_BYTE);
    if p + 1 < |text| {
      RepeatedReach(text, e, p);
    }
  }

  lemma RepeatedReach(text: seq<byte>, e: Entry, p: nat)
    requires Repeated(text, e) && p + 1 < |text| && p % 2 == 0
    ensures Longest([e], text, p, e) && forall b :: Longest([e], text, p, b) ==> b == e
    ensures Reach([e], text, p, p + 1) == if p + 2 < |text| then p + 2 else p + 1
  {
    assert e in [e] && text[p..p + 2] == e.text;
    assert Begins([e], text[p..p + 2]);
    if p + 2 < |text| {
      assert !Begins([e], text[p..p + 3]);
    }
  }

  /** So it is n codes and the last word bare. */
  lemma {:induction false} RepeatedText(text: seq<byte>, e: Entry, p: nat, n: nat, behind: byte, free: seq<bool>, prefix: byte)
    requires Repeated(text, e) && p + 2 * n + 2 == |text| && p % 2 == 0 && |free| == 256
    ensures Encoded(text, p, behind, OneWord(e), LAST_BYTE, free, prefix) == Times(CodeBytes(e.code), n) + Spelt(e, free, prefix)
    decreases n
  {
    hide TextWord, OneWord, Bare, CodeBytes, Encoded, Spelt, Repeated, Times;
    RepeatedSize(text, e);
    var code, last := CodeBytes(e.code), Spelt(e, free, prefix);
    if n == 0 {
      LastWord(text, e, p, behind, free, prefix);
      NoTimes(code, last);
    } else {
      RepeatedWord(text, e, p, behind);
      EncodedFirst(text, p, behind, OneWord(e), LAST_BYTE, free, prefix);
      RepeatedText(text, e, p + 2, n - 1, behind, free, prefix);
      OnceMore(code, n - 1, last);
    }
  }

  lemma EncodedFirst(text: seq<byte>, p: nat, behind: byte, t: Tables, hs: Hashing, free: seq<bool>, prefix: byte)
    requires p < |text| && Sized(t, |t.bits|) && |free| == 256
    ensures
      var word := TextWord(t, text, behind, p, hs);
      Encoded(text, p, behind, t, hs, free, prefix)
      == if word.Some? then
           CodeBytes(word.value.code) + Encoded(text, p + |word.value.text|, behind, t, hs, free, prefix)
         else
           Bare(text[p], free, prefix) + Encoded(text, p + 1, behind, t, hs, free, prefix)
    ensures Encoded(text, |text|, behind, t, hs, free, prefix) == []
  {
    hide TextWord, Bare, CodeBytes;
  }

  /** The two bytes of a word, each on its own. */
  function Spelt(e: Entry, free: seq<bool>, prefix: byte): seq<byte>
    requires |e.text| == 2 && |free| == 256
  {
    Bare(e.text[0], free, prefix) + Bare(e.text[1], free, prefix)
  }

  lemma RepeatedSize(text: seq<byte>, e: Entry)
    requires Repeated(text, e)
    ensures |e.text| == 2 && |text| >= 2 && |text| % 2 == 0
    ensures text[|text| - 2] == e.text[0] && text[|text| - 1] == e.text[1]
  {
  }

  lemma NoTimes(s: seq<byte>, rest: seq<byte>)
    ensures Times(s, 0) + rest == rest
  {
  }

  lemma OnceMore(s: seq<byte>, n: nat, rest: seq<byte>)
    ensures s + (Times(s, n) + rest) == Times(s, n + 1) + rest
  {
    assert Times(s, n + 1) == s + Times(s, n);
  }

  lemma LastWord(text: seq<byte>, e: Entry, p: nat, behind: byte, free: seq<bool>, prefix: byte)
    requires Repeated(text, e) && p + 2 == |text| && |free| == 256
    ensures |e.text| == 2 && Encoded(text, p, behind, OneWord(e), LAST_BYTE, free, prefix) == Spelt(e, free, prefix)
  {
    hide TextWord, OneWord, Bare, CodeBytes, Encoded, Repeated;
    RepeatedSize(text, e);
    RepeatedWord(text, e, p, behind);
    RepeatedWord(text, e, p + 1, behind);
    EncodedFirst(text, p, behind, OneWord(e), LAST_BYTE, free, prefix);
    EncodedFirst(text, p + 1, behind, OneWord(e), LAST_BYTE, free, prefix);
    Both(Bare(e.text[0], free, prefix), Bare(e.text[1], free, prefix));
  }

  lemma Both(a: seq<byte>, b: seq<byte>)
    ensures a + (b + []) == a + b
  {
  }

  /** DictDecode, on every dictionary and every text in its codes. */
  method DictDecode(s: seq<byte>, ghost book: seq<Meaning>, ghost sep: byte, ghost prefix: byte, ghost body: seq<byte>)
    returns (ok: bool, out: seq<byte>)
    requires BookOk(book) && Apart2(book, sep) && s == Dictionary(book, sep, prefix) + body
    requires TextOf(WithEscapes(book, prefix), body).Some?
    ensures ok && Some(out) == TextOf(WithEscapes(book, prefix), body)
  {
    hide Dictionary, TextOf, BookOk, Apart2, WithEscapes;
    out := [];
    var read, p;
    assert s[0..0 + |Dictionary(book, sep, prefix)|] == Dictionary(book, sep, prefix);
    ok, read, p := ReadDictionary(s, book, sep, prefix);
    if !ok {
      return;
    }
    assert s[p..] == body;
    EscapesOk(book, prefix);
    out := DecodeBody(s, p, read);
  }

  method DecodeBody(s: seq<byte>, p0: nat, book: seq<Meaning>) returns (out: seq<byte>)
    requires BookOk(book) && p0 <= |s| && TextOf(book, s[p0..]).Some?
    ensures Some(out) == TextOf(book, s[p0..])
  {
    hide TextOf, BookOk;
    TextOfNone(book);
    out := [];
    var p := p0;
    PlusBoth([], [], TextOf(book, s[p0..]));
    while p < |s|
      invariant p0 <= p <= |s| && TextOf(book, s[p..]).Some? && TextOf(book, s[p0..]) == Plus(out, TextOf(book, s[p..]))
      decreases |s| - p
    {
      var c := s[p];
      FirstCode(book, s, p);
      PlusBoth(out, Meant(book, s[p..]), TextOf(book, s[p + CodeSize(book, c)..]));
      p := p + 1;
      match book[c] {
        case Unused =>
          out := out + [c];
        case Single(text) =>
          out := out + text;
        case Pairs(row) =>
          out := out + row[s[p]];
          p := p + 1;
      }
    }
    assert s[p..] == [];
    PlusBoth(out, [], None);
  }

  function CodeSize(book: seq<Meaning>, c: byte): nat
    requires |book| == 256
  {
    if book[c].Pairs? then 2 else 1
  }

  /** The code at p and what follows it. */
  lemma FirstCode(book: seq<Meaning>, s: seq<byte>, p: nat)
    requires BookOk(book) && p < |s| && TextOf(book, s[p..]).Some?
    ensures |book| == 256 && (book[s[p]].Pairs? ==> |book[s[p]].row| == 256)
    ensures p + CodeSize(book, s[p]) <= |s| && s[p] == s[p..][0] && (book[s[p]].Pairs? ==> s[p + 1] == s[p..][1])
    ensures TextOf(book, s[p + CodeSize(book, s[p])..]).Some?
    ensures TextOf(book, s[p..]) == Plus(Meant(book, s[p..]), TextOf(book, s[p + CodeSize(book, s[p])..]))
  {
    var k := CodeSize(book, s[p]);
    assert s[p..][1..] == s[p + 1..];
    if k == 2 {
      assert s[p..][2..] == s[p + 2..];
    }
  }

  /** What phase3 frees, and what it keeps as the prefix. */
  function FreedOf(words: seq<Word>, counts: seq<nat>, order: seq<byte>): (free: seq<bool>)
    requires |counts| == |order| == 256 && WeakBytes(order, counts, words, 0) > 0
    ensures |free| == 256
  {
    FreeOnes(order, counts, WeakBytes(order, counts, words, 0))
  }

  function PrefixOf(words: seq<Word>, counts: seq<nat>, order: seq<byte>): byte
    requires |counts| == |order| == 256 && WeakBytes(order, counts, words, 0) > 0
  {
    order[WeakBytes(order, counts, words, 0) - 1]
  }

  /** The words that get codes, with their codes. */
  function Chosen(words: seq<Word>, sorted: seq<Word>, counts: seq<nat>, order: seq<byte>, plain: bool): seq<Entry>
    requires |words| == |sorted| && |counts| == |order| == 256 && WeakBytes(order, counts, words, 0) > 0
  {
    Assigned(sorted, Nodes(|words|, WeakBytes(order, counts, words, 0) - 1, plain), FreedOf(words, counts, order))
  }

  lemma ChosenLong(words: seq<Word>, es: seq<Entry>)
    requires FromWords(es, words) && forall i :: 0 <= i < |words| ==> 2 <= |words[i].text| <= 254
    ensures TextsOk(es) && Long(es)
  {
  }

  /** Too few bytes are weak, or the words of two-byte codes leave no byte to separate them. */
  ghost predicate Refused(words: seq<Word>, sorted: seq<Word>, counts: seq<nat>, order: seq<byte>, minimum: nat, plain: bool)
    requires |words| == |sorted| && |counts| == |order| == 256
  {
    var n := WeakBytes(order, counts, words, 0);
    n <= minimum ||
    var es := Chosen(words, sorted, counts, order, plain);
    forall b: byte :: Used(es, |es|, b)
  }

  /** DictEncode from phase3 on; phases 1 and 2 supply the words and the counts.  None: an error of phase3 or phase5. */
  method DictEncode(
    text: seq<byte>, behind: byte, words: seq<Word>, sorted: seq<Word>, counts: seq<nat>, order: seq<byte>, minimum: nat, plain: bool,
    size: nat, hs: Hashing
  ) returns (out: Option<seq<byte>>, ghost book: seq<Meaning>, ghost sep: byte, ghost prefix: byte, ghost body: seq<byte>)
    requires text != [] && size > 0 && |words| == |sorted| && forall i :: 0 <= i < |sorted| ==> 2 <= |sorted[i].text| <= 254
    requires |counts| == |order| == 256 && (forall i, j :: 0 <= i < j < 256 ==> order[i] != order[j])
    ensures out.None? <==> Refused(words, sorted, counts, order, minimum, plain)
    ensures out.Some? ==> BookOk(book) && Apart2(book, sep) && out.value == Dictionary(book, sep, prefix) + body
    ensures out.Some? ==>
      && prefix == PrefixOf(words, counts, order)
      && Long(Sorted(Chosen(words, sorted, counts, order, plain)))
      && body == Encoded(text, 0, behind, Hashed(Sorted(Chosen(words, sorted, counts, order, plain)), size, hs), hs,
                         FreedOf(words, counts, order), prefix)
      && TextOf(WithEscapes(book, prefix), body) == Some(text)
  {
    hide Dictionary, TextOf, BookOk, Apart2, WithEscapes, Coded, Bound, OnlyFreed, Agrees, SlotsOk, Weak, Freed, FreeOnes,
         Assigned, Nodes, WeakBytes, Sorted, Hashed, Encoded, FromWords, TextsOk, Long, Used;
    book, sep, body := [], 0, [];
    var free, esc, nodes, ok := FreeBytes(counts, order, words, minimum, plain);
    prefix := esc;
    if !ok {
      return None, book, sep, prefix, body;
    }
    var es := AssignCodes(sorted, nodes, free);
    ChosenLong(sorted, es);
    assert es == Chosen(words, sorted, counts, order, plain);
    var dict;
    dict, book, sep := WriteDictionary(es, esc, free);
    if dict.None? {
      return None, book, sep, prefix, body;
    }
    var t := HashWords(es, size, hs);
    SortedSame(es);
    HashedOk(Sorted(es), size, hs, es);
    EscapesOk(book, esc);
    Agree(book, es, free, esc);
    var codes := EncodeText(text, behind, t, hs, free, esc, es, WithEscapes(book, esc));
    body := codes;
    out := Some(dict.value + codes);
  }

  /** Whatever the words, the counts and the hashes: what DictEncode writes, DictDecode turns back into the text. */
  method RoundTrip(
    text: seq<byte>, behind: byte, words: seq<Word>, sorted: seq<Word>, counts: seq<nat>, order: seq<byte>, minimum: nat, plain: bool,
    size: nat, hs: Hashing
  ) returns (coded: Option<seq<byte>>, ok: bool, back: seq<byte>)
    requires text != [] && size > 0 && |words| == |sorted| && forall i :: 0 <= i < |sorted| ==> 2 <= |sorted[i].text| <= 254
    requires |counts| == |order| == 256 && (forall i, j :: 0 <= i < j < 256 ==> order[i] != order[j])
    ensures coded.None? <==> Refused(words, sorted, counts, order, minimum, plain)
    ensures coded.Some? ==> ok && back == text
  {
    ghost var book, sep, prefix, body;
    coded, book, sep, prefix, body := DictEncode(text, behind, words, sorted, counts, order, minimum, plain, size, hs);
    ok, back := false, [];
    if coded.Some? {
      hide Dictionary, TextOf, BookOk, Apart2, WithEscapes;
      ok, back := DictDecode(coded.value, book, sep, prefix, body);
    }
  }
}
