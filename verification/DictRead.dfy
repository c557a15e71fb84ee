/** Dict/dict.cpp, the first half of DictDecode: the dictionary is read back. */
module DictRead {
  import opened Bytes
  import opened DictCodes
  import opened DictBook

  predicate Starts(s: seq<byte>, p: nat, part: seq<byte>) {
    p + |part| <= |s| && s[p..p + |part|] == part
  }

  lemma StartsBoth(s: seq<byte>, p: nat, a: seq<byte>, b: seq<byte>)
    requires Starts(s, p, a + b)
    ensures Starts(s, p, a) && Starts(s, p + |a|, b)
  {
    assert s[p..p + |a|] == (a + b)[..|a|];
    assert s[p + |a|..p + |a| + |b|] == (a + b)[|a|..];
  }

  /** Part j of the parts stands where the ones before it end. */
  lemma {:induction false} PartAt(s: seq<byte>, p: nat, parts: seq<seq<byte>>, n: nat, j: nat)
    requires j < n <= |parts| && Starts(s, p, Concat(parts, n))
    ensures Starts(s, p + |Concat(parts, j)|, parts[j])
    ensures Concat(parts, j + 1) == Concat(parts, j) + parts[j]
  {
    StartsBoth(s, p, Concat(parts, n - 1), parts[n - 1]);
    if j < n - 1 {
      PartAt(s, p, parts, n - 1, j);
    }
  }

  lemma WordAt(s: seq<byte>, p: nat, word: seq<byte>, sep: byte)
    requires Starts(s, p, word + [sep]) && sep !in word
    ensures p + |word| < |s| && s[p + |word|] == sep && s[p..p + |word|] == word
    ensures forall k :: p <= k < p + |word| ==> s[k] != sep
  {
    StartsBoth(s, p, word, [sep]);
    var q := p + |word|;
    assert s[q] == s[q..q + 1][0];
    forall k | p <= k < q
      ensures s[k] != sep
    {
      assert s[k] == s[p..q][k - p];
    }
  }

  lemma ConcatNone(parts: seq<seq<byte>>)
    ensures Concat(parts, 0) == []
  {
  }

  lemma NoneBefore(book: seq<Meaning>)
    requires BookOk(book)
    ensures |book| == 256 && Known(None, Before(book, 0))
  {
  }

  /** A word up to the separator. */
  method ReadWord(s: seq<byte>, p: nat, sep: byte, ghost word: seq<byte>) returns (w: seq<byte>, q: nat)
    requires Starts(s, p, word + [sep]) && sep !in word
    ensures w == word && q == p + |word| + 1
  {
    WordAt(s, p, word, sep);
    w, q := [], p;
    while s[q] != sep
      invariant p <= q <= p + |word| && w == s[p..q]
      decreases p + |word| - q
    {
      w := w + [s[q]];
      q := q + 1;
    }
    q := q + 1;
  }

  /** What stands for byte i in the parts. */
  lemma MeaningAt(book: seq<Meaning>, i: nat, sep: byte)
    requires BookOk(book) && i < 256
    ensures |book| == 256 && Lens(book)[i] == LenOf(book[i]) && MeaningOk(book[i]) && (book[i].Pairs? ==> RowOk(book[i].row))
    ensures Heads(book)[i] == if book[i].Pairs? then RowHeads(Before(book, i), book[i].row) else []
    ensures Texts(book)[i] == if book[i].Single? then book[i].text else []
    ensures Tails(book, sep)[i] == if book[i].Pairs? then Concat(RowTails(Before(book, i), book[i].row, sep), 256) else []
  {
  }

  lemma TakeMore<T>(s: seq<T>, i: nat)
    requires i < |s|
    ensures s[..i + 1] == s[..i] + [s[i]]
  {
  }

  /** The lengths shared with the words before, in the rows of pairs. */
  method ReadHeads(s: seq<byte>, p: nat, lens: seq<byte>, ghost book: seq<Meaning>)
    returns (heads: seq<seq<byte>>, q: nat)
    requires BookOk(book) && lens == Lens(book) && Starts(s, p, Concat(Heads(book), 256))
    ensures heads == Heads(book) && q == p + |Concat(Heads(book), 256)|
  {
    hide Concat, Heads, Lens, RowHeads, Texts, Tails, BookOk;
    ghost var all := Heads(book);
    ConcatNone(all);
    heads, q := [], p;
    var i := 0;
    while i < 256
      invariant i <= 256 && heads == all[..i] && q == p + |Concat(all, i)|
    {
      PartAt(s, p, all, 256, i);
      MeaningAt(book, i, 0);
      TakeMore(all, i);
      if lens[i] == 1 {
        heads := heads + [s[q..q + 256]];
        q := q + 256;
      } else {
        heads := heads + [[]];
      }
      i := i + 1;
    }
    assert all[..256] == all;
  }

  /** The words of the one-byte codes. */
  method ReadTexts(s: seq<byte>, p: nat, lens: seq<byte>, ghost book: seq<Meaning>)
    returns (texts: seq<seq<byte>>, q: nat)
    requires BookOk(book) && lens == Lens(book) && Starts(s, p, Concat(Texts(book), 256))
    ensures texts == Texts(book) && q == p + |Concat(Texts(book), 256)|
  {
    hide Concat, Heads, Lens, RowHeads, Texts, Tails, BookOk;
    ghost var all := Texts(book);
    ConcatNone(all);
    texts, q := [], p;
    var i := 0;
    while i < 256
      invariant i <= 256 && texts == all[..i] && q == p + |Concat(all, i)|
    {
      PartAt(s, p, all, 256, i);
      MeaningAt(book, i, 0);
      TakeMore(all, i);
      if lens[i] != 1 {
        texts := texts + [s[q..q + lens[i]]];
        q := q + lens[i];
      } else {
        texts := texts + [[]];
      }
      i := i + 1;
    }
    assert all[..256] == all;
  }

  /** The word before, if there is one. */
  predicate Known(prev: Option<seq<byte>>, before: seq<byte>) {
    (prev.None? ==> before == []) && (prev.Some? ==> prev.value == before)
  }

  lemma WordParts(before: seq<byte>, row: seq<seq<byte>>, j: nat, sep: byte)
    requires RowOk(row) && j < 256
    ensures
      var n := RowHeads(before, row)[j];
      && n <= |Prev(before, row, j)| && n <= |row[j]|
      && Prev(before, row, j)[..n] + row[j][n..] == row[j] && [] + row[j][n..] == row[j][n..]
      && RowTails(before, row, sep)[j] == row[j][n..] + [sep]
  {
  }

  /** A row of words.  Not ok: a word shares bytes with the word before the first. */
  method ReadRow(
    s: seq<byte>, p: nat, heads: seq<byte>, prev0: Option<seq<byte>>, sep: byte, ghost before: seq<byte>, ghost row: seq<seq<byte>>
  ) returns (ok: bool, words: seq<seq<byte>>, prev: Option<seq<byte>>, q: nat)
    requires RowOk(row) && heads == RowHeads(before, row) && Known(prev0, before)
    requires forall j :: 0 <= j < 256 ==> sep !in row[j]
    requires Starts(s, p, Concat(RowTails(before, row, sep), 256))
    ensures ok && words == row && prev == Some(row[255]) && q == p + |Concat(RowTails(before, row, sep), 256)|
  {
    hide Concat, Starts, RowTails, RowHeads;
    ghost var tails := RowTails(before, row, sep);
    ConcatNone(tails);
    words, prev, q := [], prev0, p;
    var j := 0;
    while j < 256
      invariant j <= 256 && words == row[..j] && Known(prev, Prev(before, row, j)) && (j > 0 ==> prev.Some?)
      invariant q == p + |Concat(tails, j)|
    {
      PartAt(s, p, tails, 256, j);
      WordParts(before, row, j, sep);
      TakeMore(row, j);
      var word: seq<byte> := [];
      if heads[j] > 0 {
        if prev.None? {
          return false, words, prev, q;
        }
        word := prev.value[..heads[j]];
      }
      var rest;
      rest, q := ReadWord(s, q, sep, row[j][heads[j]..]);
      word := word + rest;
      words := words + [word];
      prev := Some(word);
      j := j + 1;
    }
    ok := true;
  }

  function Escapes(): (r: seq<seq<byte>>)
    ensures |r| == 256 && forall j :: 0 <= j < 256 ==> r[j] == [j]
  {
    seq(256, j requires 0 <= j < 256 => [j])
  }

  /** The book of the decoder: the prefix gives every byte as it is. */
  function WithEscapes(book: seq<Meaning>, prefix: byte): seq<Meaning>
    requires |book| == 256
  {
    book[prefix := Pairs(Escapes())]
  }

  lemma RowApart(book: seq<Meaning>, sep: byte, i: nat)
    requires BookOk(book) && Apart2(book, sep) && i < 256 && book[i].Pairs?
    ensures forall j :: 0 <= j < 256 ==> sep !in book[i].row[j]
  {
  }

  /** What byte i stands for. */
  method ReadMeaning(
    s: seq<byte>, p: nat, len: byte, heads: seq<byte>, text: seq<byte>, prev0: Option<seq<byte>>, sep: byte,
    ghost book: seq<Meaning>, ghost i: nat
  ) returns (ok: bool, m: Meaning, prev: Option<seq<byte>>, q: nat)
    requires BookOk(book) && Apart2(book, sep) && i < 256 && Known(prev0, Before(book, i))
    requires len == Lens(book)[i] && heads == Heads(book)[i] && text == Texts(book)[i] && Starts(s, p, Tails(book, sep)[i])
    ensures ok && m == book[i] && q == p + |Tails(book, sep)[i]| && Known(prev, Before(book, i + 1))
  {
    hide Concat, Starts, Tails, Heads, Lens, Texts, RowHeads, RowTails, BookOk, Apart2;
    MeaningAt(book, i, sep);
    ok, prev, q := true, prev0, p;
    if len == 1 {
      var row;
      RowApart(book, sep, i);
      ok, row, prev, q := ReadRow(s, p, heads, prev0, sep, Before(book, i), book[i].row);
      m := Pairs(row);
    } else {
      m := if len == 0 then Unused else Single(text);
    }
  }

  method ReadRows(
    s: seq<byte>, p: nat, lens: seq<byte>, heads: seq<seq<byte>>, texts: seq<seq<byte>>, sep: byte, ghost book: seq<Meaning>
  ) returns (ok: bool, read: seq<Meaning>, q: nat)
    requires BookOk(book) && Apart2(book, sep) && lens == Lens(book) && heads == Heads(book) && texts == Texts(book)
    requires Starts(s, p, Concat(Tails(book, sep), 256))
    ensures ok && read == book && q == p + |Concat(Tails(book, sep), 256)|
  {
    hide Concat, Starts, Tails, Heads, Lens, Texts, BookOk, Apart2, Before, Known;
    ghost var tails := Tails(book, sep);
    ConcatNone(tails);
    NoneBefore(book);
    read, q := [], p;
    var prev: Option<seq<byte>> := None;
    var i := 0;
    while i < 256
      invariant i <= 256 && read == book[..i] && q == p + |Concat(tails, i)| && Known(prev, Before(book, i))
    {
      PartAt(s, p, tails, 256, i);
      TakeMore(book, i);
      var m;
      ok, m, prev, q := ReadMeaning(s, q, lens[i], heads[i], texts[i], prev, sep, book, i);
      if !ok {
        return;
      }
      read := read + [m];
      i := i + 1;
    }
    assert book[..256] == book;
    ok := true;
  }

  /** The dictionary at the start of s. */
  method ReadDictionary(s: seq<byte>, ghost book: seq<Meaning>, ghost sep: byte, ghost prefix: byte)
    returns (ok: bool, read: seq<Meaning>, p: nat)
    requires BookOk(book) && Apart2(book, sep) && Starts(s, 0, Dictionary(book, sep, prefix))
    ensures ok && read == WithEscapes(book, prefix) && p == |Dictionary(book, sep, prefix)|
  {
    hide Concat, Tails, Heads, Texts, Starts;
    assert Starts(s, 0, Dictionary(book, sep, prefix));
    ghost var l, h, t, e := Lens(book), Concat(Heads(book), 256), Concat(Texts(book), 256), Concat(Tails(book, sep), 256);
    PartsAt(s, l, h, t, [sep], e, [prefix]);
    StartsAt(s, l);
    var lens := s[..256];
    var heads, texts;
    heads, p := ReadHeads(s, 256, lens, book);
    texts, p := ReadTexts(s, p, lens, book);
    var separator := s[p];
    p := p + 1;
    ok, read, p := ReadRows(s, p, lens, heads, texts, separator, book);
    if !ok {
      return;
    }
    var c := s[p];
    p := p + 1;
    read := read[c := Pairs(Escapes())];
  }

  lemma StartsAt(s: seq<byte>, part: seq<byte>)
    requires Starts(s, 0, part)
    ensures |part| <= |s| && s[..|part|] == part
  {
  }

  lemma PartsAt(s: seq<byte>, a: seq<byte>, b: seq<byte>, c: seq<byte>, d: seq<byte>, e: seq<byte>, f: seq<byte>)
    requires Starts(s, 0, a + b + c + d + e + f) && |d| == |f| == 1
    ensures Starts(s, 0, a) && Starts(s, |a|, b) && Starts(s, |a| + |b|, c) && Starts(s, |a| + |b| + |c|, d)
    ensures Starts(s, |a| + |b| + |c| + 1, e) && Starts(s, |a| + |b| + |c| + 1 + |e|, f)
    ensures s[|a| + |b| + |c|] == d[0] && s[|a| + |b| + |c| + 1 + |e|] == f[0]
  {
    StartsBoth(s, 0, a + b + c + d + e, f);
    StartsBoth(s, 0, a + b + c + d, e);
    StartsBoth(s, 0, a + b + c, d);
    StartsBoth(s, 0, a + b, c);
    StartsBoth(s, 0, a, b);
    var p, q := |a| + |b| + |c|, |a| + |b| + |c| + 1 + |e|;
    assert s[p] == s[p..p + 1][0] && s[q] == s[q..q + 1][0];
  }
}
