/**
  Dict/dict.cpp: the dictionary that precedes the text.  phase5 writes it in five parts, and DictDecode reads it
  back: what each of the 256 bytes means, with the second bytes of those that start a pair.
 */
module DictBook {
  import opened Bytes
  import opened DictCodes

  /** What a byte stands for: itself, a word, or with the next byte one of 256 words, some of them empty. */
  datatype Meaning = Unused | Single(text: seq<byte>) | Pairs(row: seq<seq<byte>>)

  predicate MeaningOk(m: Meaning) {
    && (m.Single? ==> 2 <= |m.text| <= 254)
    && (m.Pairs? ==> |m.row| == 256 && forall j :: 0 <= j < 256 ==> |m.row[j]| <= 254)
  }

  predicate BookOk(book: seq<Meaning>) {
    |book| == 256 && forall i :: 0 <= i < 256 ==> MeaningOk(book[i])
  }

  /** No second-level word has the separator in it. */
  predicate Apart2(book: seq<Meaning>, sep: byte) {
    forall i, j :: 0 <= i < |book| && book[i].Pairs? && 0 <= j < |book[i].row| ==> sep !in book[i].row[j]
  }

  // ------------------------------------------------------------------ the book of a list of words

  /** The book says what the entry says. */
  predicate Holds(book: seq<Meaning>, e: Entry) {
    |book| == 256 &&
    match e.code
    case One(c) => book[c] == Single(e.text)
    case Two(c, d) => book[c].Pairs? && |book[c].row| == 256 && book[c].row[d] == e.text
  }

  /** Only freed bytes mean something else than themselves. */
  predicate OnlyFreed(book: seq<Meaning>, free: seq<bool>) {
    forall c :: 0 <= c < |book| && !book[c].Unused? ==> Usable(free, c)
  }

  predicate TextsOk(es: seq<Entry>) {
    forall i :: 0 <= i < |es| ==> 2 <= |es[i].text| <= 254
  }

  predicate Bound(book: seq<Meaning>, es: seq<Entry>, n: nat) {
    n <= |es| && forall i :: 0 <= i < n ==> Holds(book, es[i])
  }

  function NoWords(): (r: seq<seq<byte>>)
    ensures |r| == 256 && forall j :: 0 <= j < 256 ==> r[j] == []
  {
    seq(256, _ => [])
  }

  function Enter(book: seq<Meaning>, e: Entry): seq<Meaning>
    requires BookOk(book)
  {
    match e.code
    case One(c) => book[c := Single(e.text)]
    case Two(c, d) =>
      var row := if book[c].Pairs? then book[c].row else NoWords();
      book[c := Pairs(row[d := e.text])]
  }

  lemma EnterOk(book: seq<Meaning>, es: seq<Entry>, k: nat, free: seq<bool>)
    requires BookOk(book) && k < |es| && TextsOk(es) && Coded(es, free) && Bound(book, es, k) && OnlyFreed(book, free)
    ensures BookOk(Enter(book, es[k])) && Bound(Enter(book, es[k]), es, k + 1) && OnlyFreed(Enter(book, es[k]), free)
  {
    var next := Enter(book, es[k]);
    assert BookOk(next);
    forall i | 0 <= i < k + 1
      ensures Holds(next, es[i])
    {
      if i < k {
        assert Holds(book, es[i]) && Apart(es[i].code, es[k].code);
      }
    }
  }

  // ------------------------------------------------------------------ its five parts

  function Shared(a: seq<byte>, b: seq<byte>): (n: nat)
    ensures n <= |a| && n <= |b| && a[..n] == b[..n]
    ensures n < |a| && n < |b| ==> a[n] != b[n]
  {
    if a == [] || b == [] || a[0] != b[0] then 0
    else
      var n := Shared(a[1..], b[1..]);
      assert a[..n + 1] == [a[0]] + a[1..][..n] && b[..n + 1] == [b[0]] + b[1..][..n];
      1 + n
  }

  /** A word of 0 for no word, 1 for pairs. */
  function LenOf(m: Meaning): byte
    requires MeaningOk(m)
  {
    match m
    case Unused => 0
    case Single(text) => |text|
    case Pairs(_) => 1
  }

  function Lens(book: seq<Meaning>): (s: seq<byte>)
    requires BookOk(book)
    ensures |s| == 256
  {
    seq(256, i requires 0 <= i < 256 => LenOf(book[i]))
  }

  /** The word before word j of a row. */
  function Prev(before: seq<byte>, row: seq<seq<byte>>, j: nat): seq<byte>
    requires j <= |row|
  {
    if j == 0 then before else row[j - 1]
  }

  /** The word before row i. */
  function Before(book: seq<Meaning>, i: nat): (s: seq<byte>)
    requires BookOk(book) && i <= 256
    ensures |s| <= 254
  {
    if i == 0 then [] else if book[i - 1].Pairs? then book[i - 1].row[255] else Before(book, i - 1)
  }

  predicate RowOk(row: seq<seq<byte>>) {
    |row| == 256 && forall j :: 0 <= j < 256 ==> |row[j]| <= 254
  }

  function RowHeads(before: seq<byte>, row: seq<seq<byte>>): (s: seq<byte>)
    requires RowOk(row)
    ensures |s| == 256
  {
    seq(256, j requires 0 <= j < 256 => Shared(row[j], Prev(before, row, j)))
  }

  /** The first n parts, one after the other. */
  function Concat(parts: seq<seq<byte>>, n: nat): seq<byte>
    requires n <= |parts|
  {
    if n == 0 then [] else Concat(parts, n - 1) + parts[n - 1]
  }

  /** The lengths shared with the word before, for every row. */
  function Heads(book: seq<Meaning>): (parts: seq<seq<byte>>)
    requires BookOk(book)
    ensures |parts| == 256
  {
    seq(256, i requires 0 <= i < 256 => if book[i].Pairs? then RowHeads(Before(book, i), book[i].row) else [])
  }

  function Texts(book: seq<Meaning>): (parts: seq<seq<byte>>)
    requires BookOk(book)
    ensures |parts| == 256
  {
    seq(256, i requires 0 <= i < 256 => if book[i].Single? then book[i].text else [])
  }

  /** What the words of a row do not share, each followed by the separator. */
  function RowTails(before: seq<byte>, row: seq<seq<byte>>, sep: byte): (parts: seq<seq<byte>>)
    requires RowOk(row)
    ensures |parts| == 256
  {
    seq(256, j requires 0 <= j < 256 => row[j][Shared(row[j], Prev(before, row, j))..] + [sep])
  }

  function Tails(book: seq<Meaning>, sep: byte): (parts: seq<seq<byte>>)
    requires BookOk(book)
    ensures |parts| == 256
  {
    seq(256, i requires 0 <= i < 256 => if book[i].Pairs? then Concat(RowTails(Before(book, i), book[i].row, sep), 256) else [])
  }

  function Dictionary(book: seq<Meaning>, sep: byte, prefix: byte): seq<byte>
    requires BookOk(book)
  {
    Lens(book) + Concat(Heads(book), 256) + Concat(Texts(book), 256) + [sep] + Concat(Tails(book, sep), 256) + [prefix]
  }

  // ------------------------------------------------------------------ phase5

  predicate Used(es: seq<Entry>, n: nat, b: byte)
    requires n <= |es|
  {
    exists i :: 0 <= i < n && es[i].code.Two? && b in es[i].text
  }

  /** Which bytes occur in the words of two-byte codes. */
  predicate Marked(used: seq<bool>, es: seq<Entry>, n: nat)
    requires n <= |es|
  {
    |used| == 256 && forall b: byte :: used[b] <==> Used(es, n, b)
  }

  /** All bytes of second-level words are marked. */
  predicate RowsMarked(book: seq<Meaning>, used: seq<bool>) {
    |used| == 256 &&
    forall i, j, b :: 0 <= i < |book| && book[i].Pairs? && 0 <= j < |book[i].row| && b in book[i].row[j] ==> used[b]
  }

  method Mark(used0: seq<bool>, text: seq<byte>) returns (used: seq<bool>)
    requires |used0| == 256
    ensures |used| == 256 && forall b: byte :: used[b] <==> used0[b] || b in text
  {
    used := used0;
    var k := 0;
    while k < |text|
      invariant k <= |text| && |used| == 256
      invariant forall b: byte :: used[b] <==> used0[b] || b in text[..k]
    {
      assert text[..k + 1] == text[..k] + [text[k]];
      used := used[text[k] := true];
      k := k + 1;
    }
    assert text[..k] == text;
  }

  /** The matrix of words and the bytes used in it. */
  method FillBook(es: seq<Entry>, ghost free: seq<bool>) returns (book: seq<Meaning>, used: seq<bool>)
    requires Coded(es, free) && TextsOk(es)
    ensures BookOk(book) && Bound(book, es, |es|) && OnlyFreed(book, free)
    ensures Marked(used, es, |es|) && RowsMarked(book, used)
  {
    book := seq(256, _ => Unused);
    used := seq(256, _ => false);
    var k := 0;
    while k < |es|
      invariant k <= |es| && BookOk(book) && Bound(book, es, k) && OnlyFreed(book, free)
      invariant Marked(used, es, k) && RowsMarked(book, used)
    {
      EnterOk(book, es, k, free);
      ghost var was := used;
      ghost var old' := book;
      book := Enter(book, es[k]);
      if es[k].code.Two? {
        used := Mark(used, es[k].text);
      }
      MarkedStep(was, used, es, k);
      RowsMarkedStep(old', was, used, es[k]);
      k := k + 1;
    }
  }

  lemma MarkedStep(was: seq<bool>, now: seq<bool>, es: seq<Entry>, k: nat)
    requires k < |es| && Marked(was, es, k) && |now| == 256
    requires forall b: byte :: now[b] <==> was[b] || (es[k].code.Two? && b in es[k].text)
    ensures Marked(now, es, k + 1)
  {
    forall b: byte
      ensures now[b] <==> Used(es, k + 1, b)
    {
      assert was[b] <==> Used(es, k, b);
    }
  }

  lemma RowsMarkedStep(book: seq<Meaning>, was: seq<bool>, now: seq<bool>, e: Entry)
    requires BookOk(book) && RowsMarked(book, was) && |now| == 256
    requires forall b: byte :: now[b] <==> was[b] || (e.code.Two? && b in e.text)
    ensures RowsMarked(Enter(book, e), now)
  {
  }

  method FindSeparator(used: seq<bool>) returns (sep: Option<byte>)
    requires |used| == 256
    ensures sep.Some? ==> !used[sep.value]
    ensures sep.None? ==> forall b: byte :: used[b]
  {
    var c: int := 255;
    while c >= 0
      invariant -1 <= c <= 255 && forall b :: c < b <= 255 ==> used[b]
    {
      if !used[c] {
        return Some(c);
      }
      c := c - 1;
    }
    sep := None;
  }

  method PutRowHeads(row: seq<seq<byte>>, before: seq<byte>) returns (out: seq<byte>, prev: seq<byte>)
    requires RowOk(row)
    ensures out == RowHeads(before, row) && prev == row[255]
  {
    out, prev := [], before;
    var j := 0;
    while j < 256
      invariant j <= 256 && prev == Prev(before, row, j) && out == RowHeads(before, row)[..j]
    {
      out := out + [Shared(row[j], prev)];
      prev := row[j];
      j := j + 1;
    }
  }

  method PutHeads(book: seq<Meaning>) returns (out: seq<byte>)
    requires BookOk(book)
    ensures out == Concat(Heads(book), 256)
  {
    out := [];
    var prev: seq<byte> := [];
    var i := 0;
    while i < 256
      invariant i <= 256 && out == Concat(Heads(book), i) && prev == Before(book, i)
    {
      if book[i].Pairs? {
        var part;
        part, prev := PutRowHeads(book[i].row, prev);
        out := out + part;
      }
      i := i + 1;
    }
  }

  method PutTexts(book: seq<Meaning>) returns (out: seq<byte>)
    requires BookOk(book)
    ensures out == Concat(Texts(book), 256)
  {
    out := [];
    var i := 0;
    while i < 256
      invariant i <= 256 && out == Concat(Texts(book), i)
    {
      if book[i].Single? {
        out := out + book[i].text;
      }
      i := i + 1;
    }
  }

  method PutRowTails(row: seq<seq<byte>>, before: seq<byte>, sep: byte) returns (out: seq<byte>, prev: seq<byte>)
    requires RowOk(row)
    ensures out == Concat(RowTails(before, row, sep), 256) && prev == row[255]
  {
    out, prev := [], before;
    var j := 0;
    while j < 256
      invariant j <= 256 && prev == Prev(before, row, j) && out == Concat(RowTails(before, row, sep), j)
    {
      out := out + (row[j][Shared(row[j], prev)..] + [sep]);
      prev := row[j];
      j := j + 1;
    }
  }

  method PutTails(book: seq<Meaning>, sep: byte) returns (out: seq<byte>)
    requires BookOk(book)
    ensures out == Concat(Tails(book, sep), 256)
  {
    out := [];
    var prev: seq<byte> := [];
    var i := 0;
    while i < 256
      invariant i <= 256 && out == Concat(Tails(book, sep), i) && prev == Before(book, i)
    {
      if book[i].Pairs? {
        var part;
        part, prev := PutRowTails(book[i].row, prev, sep);
        out := out + part;
      }
      i := i + 1;
    }
  }

  /** phase5: the dictionary, unless the words with two-byte codes leave no byte to separate them. */
  method WriteDictionary(es: seq<Entry>, prefix: byte, ghost free: seq<bool>)
    returns (out: Option<seq<byte>>, ghost book: seq<Meaning>, ghost sep: byte)
    requires Coded(es, free) && TextsOk(es)
    ensures out.None? <==> forall b: byte :: Used(es, |es|, b)
    ensures BookOk(book) && Bound(book, es, |es|) && OnlyFreed(book, free)
    ensures out.Some? ==> Apart2(book, sep) && out.value == Dictionary(book, sep, prefix)
  {
    hide Coded, OnlyFreed, Bound, Concat, Before;
    var matrix, used := FillBook(es, free);
    book, sep := matrix, 0;
    var found := FindSeparator(used);
    if found.None? {
      return None, book, sep;
    }
    sep := found.value;
    assert Apart2(book, sep);
    var lens := seq(256, i requires 0 <= i < 256 => LenOf(matrix[i]));
    var heads := PutHeads(matrix);
    var texts := PutTexts(matrix);
    var tails := PutTails(matrix, found.value);
    out := Some(lens + heads + texts + [found.value] + tails + [prefix]);
  }
}
