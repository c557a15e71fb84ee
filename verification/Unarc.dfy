/**
  Unarc/unarc.cpp: the unpacker's write callback cuts the stream of a solid block into files.  The decompressor
  may hand over the stream in pieces of any size.
 */
module Unarc {
  import opened Bytes
  import opened Crc32

  /** What the directory of the archive says of a file; directories hold no data. */
  datatype FileInfo = FileInfo(size: nat, crc: Bits, isdir: bool)

  /** The reply to a write: all bytes accepted, no more wanted, or the program gave up on a bad checksum. */
  datatype Answer = Taken(n: nat) | NoMore | Quit

  function InitCrc(): (c: Bits)
    ensures IsWord(c)
  {
    seq(32, _ => true)
  }

  /** Where file k starts in the stream of the block that starts with file `first`. */
  function Offset(dir: seq<FileInfo>, first: nat, k: nat): nat
    requires first <= k <= |dir|
  {
    if k == first then 0 else Offset(dir, first, k - 1) + dir[k - 1].size
  }

  lemma {:induction false} OffsetGrows(dir: seq<FileInfo>, first: nat, i: nat, k: nat)
    requires first <= i <= k <= |dir|
    ensures Offset(dir, first, i) <= Offset(dir, first, k)
  {
    if i < k {
      OffsetGrows(dir, first, i, k - 1);
    }
  }

  lemma OffsetNext(dir: seq<FileInfo>, first: nat, k: nat)
    requires first <= k < |dir|
    ensures Offset(dir, first, k + 1) == Offset(dir, first, k) + dir[k].size
  {
  }

  /** The part of file i in the stream s so far. */
  function Slice(dir: seq<FileInfo>, first: nat, s: seq<byte>, i: nat): seq<byte>
    requires first <= i < |dir|
  {
    var p, q := Offset(dir, first, i), Offset(dir, first, i + 1);
    if |s| <= p then [] else if |s| <= q then s[p..] else s[p..q]
  }

  predicate GoodCrc(dir: seq<FileInfo>, first: nat, s: seq<byte>, i: nat)
    requires first <= i < |dir|
  {
    Xor(Crc(Slice(dir, first, s, i), InitCrc()), InitCrc()) == dir[i].crc
  }

  /** All of file i is in s. */
  predicate Whole(dir: seq<FileInfo>, first: nat, s: seq<byte>, i: nat)
    requires first <= i < |dir|
  {
    Offset(dir, first, i + 1) <= |s|
  }

  /** What is in s of a file no longer changes once all of it is there. */
  lemma SliceGrows(dir: seq<FileInfo>, first: nat, s: seq<byte>, more: seq<byte>, i: nat)
    requires first <= i < |dir| && Whole(dir, first, s, i)
    ensures Slice(dir, first, s + more, i) == Slice(dir, first, s, i)
  {
    OffsetGrows(dir, first, i, i + 1);
  }

  lemma SliceExtends(dir: seq<FileInfo>, first: nat, s: seq<byte>, more: seq<byte>, i: nat)
    requires first <= i < |dir| && Offset(dir, first, i) <= |s| && |s + more| <= Offset(dir, first, i + 1)
    ensures Slice(dir, first, s + more, i) == Slice(dir, first, s, i) + more
  {
  }

  /** Files `first` to `end` (not included) that were opened hold their slices; nothing else changed. */
  ghost predicate Stored(
    dir: seq<FileInfo>, first: nat, end: nat, opens: nat -> bool, files0: map<nat, seq<byte>>, files: map<nat, seq<byte>>, s: seq<byte>
  ) {
    && first <= end <= |dir|
    && (forall i: nat :: first <= i < end && dir[i].size > 0 && opens(i) ==> i in files && files[i] == Slice(dir, first, s, i))
    && (forall i: nat :: !(first <= i < end && dir[i].size > 0 && opens(i)) ==>
      (i in files <==> i in files0) && (i in files ==> files[i] == files0[i]))
  }

  /** The checksums of files `first` to `end` (not included) are right. */
  ghost predicate Checked(dir: seq<FileInfo>, first: nat, end: nat, checks: nat -> bool, s: seq<byte>) {
    first <= end <= |dir| && forall i: nat :: first <= i < end && dir[i].size > 0 && checks(i) ==> GoodCrc(dir, first, s, i)
  }

  /** No file that ends in s, up to file `end`, has a wrong checksum. */
  ghost predicate AllGood(dir: seq<FileInfo>, first: nat, end: nat, checks: nat -> bool, s: seq<byte>) {
    first <= end <= |dir| &&
    forall i: nat :: first <= i < end && dir[i].size > 0 && checks(i) && Whole(dir, first, s, i) ==> GoodCrc(dir, first, s, i)
  }

  /** While file cur is not complete, the files that end in s are those before it. */
  lemma GoodBefore(dir: seq<FileInfo>, first: nat, cur: nat, end: nat, checks: nat -> bool, s: seq<byte>)
    requires first <= cur <= end <= |dir| && Offset(dir, first, cur) <= |s| && Checked(dir, first, cur, checks, s)
    requires cur < end ==> |s| < Offset(dir, first, cur + 1) || (dir[cur].size == 0 && |s| == Offset(dir, first, cur))
    ensures AllGood(dir, first, end, checks, s)
  {
    hide Slice, Crc, Xor;
    forall i: nat | first <= i < end && dir[i].size > 0 && checks(i) && Whole(dir, first, s, i)
      ensures GoodCrc(dir, first, s, i)
    {
      if cur < i {
        OffsetGrows(dir, first, cur + 1, i);
      }
    }
  }

  lemma StoredNone(dir: seq<FileInfo>, first: nat, opens: nat -> bool, files: map<nat, seq<byte>>)
    requires first <= |dir|
    ensures Stored(dir, first, first, opens, files, files, [])
  {
  }

  lemma CheckedNone(dir: seq<FileInfo>, first: nat, checks: nat -> bool)
    requires first <= |dir|
    ensures Checked(dir, first, first, checks, [])
  {
  }

  lemma SlicesStay(dir: seq<FileInfo>, first: nat, end: nat, s: seq<byte>, more: seq<byte>)
    requires first <= end <= |dir| && Offset(dir, first, end) <= |s|
    ensures forall i :: first <= i < end ==> Slice(dir, first, s + more, i) == Slice(dir, first, s, i)
  {
    forall i | first <= i < end
      ensures Slice(dir, first, s + more, i) == Slice(dir, first, s, i)
    {
      OffsetGrows(dir, first, i + 1, end);
      SliceGrows(dir, first, s, more, i);
    }
  }

  lemma StoredGrows(
    dir: seq<FileInfo>, first: nat, end: nat, opens: nat -> bool, files0: map<nat, seq<byte>>, files: map<nat, seq<byte>>, s: seq<byte>,
    more: seq<byte>
  )
    requires Stored(dir, first, end, opens, files0, files, s) && Offset(dir, first, end) <= |s|
    ensures Stored(dir, first, end, opens, files0, files, s + more)
  {
    hide Slice, Offset;
    SlicesStay(dir, first, end, s, more);
  }

  lemma CheckedGrows(dir: seq<FileInfo>, first: nat, end: nat, checks: nat -> bool, s: seq<byte>, more: seq<byte>)
    requires first <= end <= |dir| && Offset(dir, first, end) <= |s|
    ensures Checked(dir, first, end, checks, s) <==> Checked(dir, first, end, checks, s + more)
  {
    hide Slice, Offset;
    SlicesStay(dir, first, end, s, more);
  }

  /** File cur is opened, if it is to be written. */
  lemma StoredOpen(
    dir: seq<FileInfo>, first: nat, cur: nat, opens: nat -> bool, files0: map<nat, seq<byte>>, files: map<nat, seq<byte>>,
    now: map<nat, seq<byte>>, s: seq<byte>
  )
    requires cur < |dir| && Stored(dir, first, cur, opens, files0, files, s) && Offset(dir, first, cur) == |s|
    requires now == if dir[cur].size > 0 && opens(cur) then files[cur := []] else files
    ensures Stored(dir, first, cur + 1, opens, files0, now, s)
  {
    assert Slice(dir, first, s, cur) == [];
    hide Slice, Offset;
    forall i: nat
      ensures i != cur ==> (i in now <==> i in files) && (i in now ==> now[i] == files[i])
    {
    }
  }

  /** A piece of file cur. */
  lemma StoredMore(
    dir: seq<FileInfo>, first: nat, cur: nat, opens: nat -> bool, files0: map<nat, seq<byte>>, files: map<nat, seq<byte>>,
    now: map<nat, seq<byte>>, s: seq<byte>, more: seq<byte>
  )
    requires first <= cur < |dir| && Stored(dir, first, cur + 1, opens, files0, files, s)
    requires Offset(dir, first, cur) <= |s| && |s + more| <= Offset(dir, first, cur + 1)
    requires now == if dir[cur].size > 0 && opens(cur) then files[cur := Slice(dir, first, s, cur) + more] else files
    ensures Stored(dir, first, cur + 1, opens, files0, now, s + more)
  {
    hide Slice, Offset;
    SliceExtends(dir, first, s, more, cur);
    SlicesStay(dir, first, cur, s, more);
  }

  lemma EmptySlice(dir: seq<FileInfo>, first: nat, s: seq<byte>, cur: nat)
    requires first <= cur < |dir| && |s| == Offset(dir, first, cur)
    ensures Slice(dir, first, s, cur) == [] && Crc(Slice(dir, first, s, cur), InitCrc()) == InitCrc()
    ensures Offset(dir, first, cur + 1) == |s| + dir[cur].size
  {
  }

  /** One more file with the right checksum, or with none to compare. */
  lemma CheckedMore(dir: seq<FileInfo>, first: nat, cur: nat, checks: nat -> bool, s: seq<byte>)
    requires Checked(dir, first, cur, checks, s) && cur < |dir|
    requires dir[cur].size > 0 && checks(cur) ==> GoodCrc(dir, first, s, cur)
    ensures Checked(dir, first, cur + 1, checks, s)
  {
  }

  /** A wrong checksum stays wrong. */
  lemma BadStays(dir: seq<FileInfo>, first: nat, cur: nat, end: nat, checks: nat -> bool, s: seq<byte>, more: seq<byte>)
    requires first <= cur < end <= |dir| && Whole(dir, first, s, cur)
    requires dir[cur].size > 0 && checks(cur) && !GoodCrc(dir, first, s, cur)
    ensures !AllGood(dir, first, end, checks, s + more)
  {
    SliceGrows(dir, first, s, more, cur);
    assert Whole(dir, first, s + more, cur) && !GoodCrc(dir, first, s + more, cur);
  }

  /** With all files complete and right, nothing that follows matters. */
  lemma GoodAfter(dir: seq<FileInfo>, first: nat, end: nat, checks: nat -> bool, s: seq<byte>, more: seq<byte>)
    requires Checked(dir, first, end, checks, s) && Offset(dir, first, end) <= |s|
    ensures AllGood(dir, first, end, checks, s + more)
  {
    CheckedGrows(dir, first, end, checks, s, more);
    GoodBefore(dir, first, end, end, checks, s + more);
  }

  /** A file that is being written holds what came of it so far. */
  lemma StoredAt(
    dir: seq<FileInfo>, first: nat, cur: nat, opens: nat -> bool, files0: map<nat, seq<byte>>, files: map<nat, seq<byte>>, s: seq<byte>
  )
    requires first <= cur < |dir| && Stored(dir, first, cur + 1, opens, files0, files, s)
    ensures
      dir[cur].size > 0 && opens(cur) ==>
        cur in files && files[cur] == Slice(dir, first, s, cur) && files == files[cur := Slice(dir, first, s, cur) + []]
  {
    assert Slice(dir, first, s, cur) + [] == Slice(dir, first, s, cur);
  }

  class Unpacker {
    const dir: seq<FileInfo>
    /** The command names the file. */
    const accepts: nat -> bool
    /** The file is on disk already and is to stay as it is. */
    const declines: nat -> bool
    /** Archives are only tested. */
    const testing: bool
    /** The files of the block. */
    const first: nat
    const last: nat

    var curfile: nat
    var extractUntil: int
    var left: nat
    var included: bool
    var crc: Bits
    var files: map<nat, seq<byte>>

    ghost predicate Valid()
      reads this`crc, this`extractUntil
    {
      first <= last <= |dir| && IsWord(crc) && extractUntil < last && EmptyDirs()
    }

    ghost predicate EmptyDirs() {
      forall i :: 0 <= i < |dir| && dir[i].isdir ==> dir[i].size == 0
    }

    /** The file is unpacked and its checksum compared. */
    predicate Checks(i: nat) {
      accepts(i) && (testing || !declines(i))
    }

    /** The file is written. */
    predicate Opens(i: nat) {
      accepts(i) && !testing && !declines(i)
    }

    /** s went through the callback, and file curfile is being written. */
    ghost predicate At(s: seq<byte>, files0: map<nat, seq<byte>>)
      reads this
    {
      && Valid() && first <= curfile <= extractUntil && dir[extractUntil].size > 0
      && left <= dir[curfile].size && |s| == Offset(dir, first, curfile + 1) - left
      && included == (dir[curfile].size > 0 && Checks(curfile))
      && crc == Crc(Slice(dir, first, s, curfile), InitCrc())
      && Stored(dir, first, curfile + 1, Opens, files0, files, s) && Checked(dir, first, curfile, Checks, s)
    }

    /** The same, with bytes to come for file curfile unless it has none. */
    ghost predicate Running(s: seq<byte>, files0: map<nat, seq<byte>>)
      reads this
    {
      At(s, files0) && (dir[curfile].size > 0 ==> left > 0)
    }

    /** The last file that is wanted is complete. */
    ghost predicate Finished(s: seq<byte>, files0: map<nat, seq<byte>>)
      reads this
    {
      && Valid() && first <= extractUntil && dir[extractUntil].size > 0 && curfile == extractUntil + 1 && !included
      && |s| == Offset(dir, first, curfile)
      && Stored(dir, first, curfile, Opens, files0, files, s) && Checked(dir, first, curfile, Checks, s)
    }

    /** outfile_open in the second pass. */
    method OpenNext(ghost s: seq<byte>, ghost files0: map<nat, seq<byte>>)
      requires Valid() && first <= curfile <= extractUntil && dir[extractUntil].size > 0 && !included && |s| == Offset(dir, first, curfile)
      requires Stored(dir, first, curfile, Opens, files0, files, s) && Checked(dir, first, curfile, Checks, s)
      modifies this`crc, this`left, this`included, this`files
      ensures Running(s, files0)
    {
      hide Stored, Checked, Crc, EmptyDirs;
      ghost var files1 := files;
      crc := InitCrc();
      left := dir[curfile].size;
      if left > 0 {
        included := accepts(curfile);
        if included && !testing {
          if declines(curfile) {
            included := false;
          } else {
            files := files[curfile := []];
          }
        }
      }
      EmptySlice(dir, first, s, curfile);
      StoredOpen(dir, first, curfile, Opens, files0, files1, files, s);
    }

    /** outfile_write of what belongs to file curfile. */
    method WritePiece(piece: seq<byte>, ghost s: seq<byte>, ghost files0: map<nat, seq<byte>>)
      requires At(s, files0) && |piece| <= left
      modifies this`crc, this`files, this`left
      ensures At(s + piece, files0) && left == old(left) - |piece|
    {
      hide Stored, Checked, Slice, Crc, EmptyDirs, Offset;
      OffsetNext(dir, first, curfile);
      StoredAt(dir, first, curfile, Opens, files0, files, s);
      ghost var files1 := files;
      SliceExtends(dir, first, s, piece, curfile);
      CrcAppend(Slice(dir, first, s, curfile), piece, InitCrc());
      CheckedGrows(dir, first, curfile, Checks, s, piece);
      crc := Crc(piece, crc);
      if included && !testing && |piece| > 0 {
        files := files[curfile := files[curfile] + piece];
      }
      left := left - |piece|;
      StoredMore(dir, first, curfile, Opens, files0, files1, files, s, piece);
    }

    /** outfile_close: not alive if the checksum is wrong. */
    method Close() returns (alive: bool)
      requires IsWord(crc) && (included ==> curfile < |dir|)
      modifies this`included
      ensures alive <==> (old(included) ==> Xor(crc, InitCrc()) == dir[curfile].crc)
      ensures alive ==> !included
    {
      if included && Xor(crc, InitCrc()) != dir[curfile].crc {
        return false;
      }
      included := false;
      alive := true;
    }

    /** The bytes that are wanted. */
    ghost function Need(): nat
      reads this`extractUntil
      requires first - 1 <= extractUntil < |dir|
    {
      Offset(dir, first, extractUntil + 1)
    }

    /** What the stream so far makes of the unpacker. */
    ghost predicate After(seen: seq<byte>, files0: map<nat, seq<byte>>)
      reads this
    {
      && first <= extractUntil < |dir|
      && if |seen| < Need() then Running(seen, files0) else Finished(seen[..Need()], files0)
    }

    lemma AfterStart(s: seq<byte>, files0: map<nat, seq<byte>>)
      requires Running(s, files0) && |s| < Need()
      ensures After(s, files0)
    {
    }

    lemma RunningWants(s: seq<byte>, files0: map<nat, seq<byte>>)
      requires Running(s, files0)
      ensures |s| < Need() && AllGood(dir, first, extractUntil + 1, Checks, s)
    {
      hide Slice, Stored, Crc;
      OffsetGrows(dir, first, curfile + 1, extractUntil + 1);
      if curfile < extractUntil {
        OffsetGrows(dir, first, curfile + 1, extractUntil);
      }
      GoodBefore(dir, first, curfile, extractUntil + 1, Checks, s);
    }

    /** File curfile is complete: the next one, if there is one to come. */
    method NextFile(ghost s: seq<byte>, ghost files0: map<nat, seq<byte>>) returns (answer: Answer)
      requires At(s, files0) && left == 0
      modifies this`crc, this`files, this`left, this`included, this`curfile
      ensures
        answer == Quit ==>
          first <= old(curfile) <= extractUntil < |dir| && dir[old(curfile)].size > 0 && Checks(old(curfile)) &&
          Whole(dir, first, s, old(curfile)) && !GoodCrc(dir, first, s, old(curfile))
      ensures answer == NoMore ==> Finished(s, files0)
      ensures answer.Taken? ==> Running(s, files0) && curfile == old(curfile) + 1
    {
      hide Slice, Stored, Crc, Checked, Xor;
      assert GoodCrc(dir, first, s, curfile) <==> Xor(crc, InitCrc()) == dir[curfile].crc;
      var alive := Close();
      if !alive {
        return Quit;
      }
      CheckedMore(dir, first, curfile, Checks, s);
      curfile := curfile + 1;
      if curfile > extractUntil {
        return NoMore;
      }
      OpenNext(s, files0);
      answer := Taken(0);
    }

    /** The part of the buffer that belongs to file curfile. */
    method Piece(buf: seq<byte>, k: nat, ghost seen: seq<byte>, ghost files0: map<nat, seq<byte>>) returns (k': nat, answer: Answer)
      requires k < |buf| && Running(seen + buf[..k], files0)
      modifies this`crc, this`files, this`left, this`included, this`curfile
      ensures k <= k' <= |buf|
      ensures answer == Quit ==> !AllGood(dir, first, extractUntil + 1, Checks, seen + buf)
      ensures
        answer == NoMore ==>
          After(seen + buf, files0) && |seen + buf| >= Need() && AllGood(dir, first, extractUntil + 1, Checks, seen + buf)
      ensures answer.Taken? ==> Running(seen + buf[..k'], files0) && (k' > k || curfile == old(curfile) + 1) && curfile <= extractUntil
    {
      hide AllGood, Checked, Stored, Offset, Crc, Slice;
      var n := if left < |buf| - k then left else |buf| - k;
      ghost var s := seen + buf[..k];
      ghost var s' := seen + buf[..k + n];
      assert s + buf[k..k + n] == s' && s' + buf[k + n..] == seen + buf;
      WritePiece(buf[k..k + n], s, files0);
      k' := k + n;
      answer := Taken(0);
      if left == 0 {
        ghost var cur := curfile;
        answer := NextFile(s', files0);
        if answer == Quit {
          BadStays(dir, first, cur, extractUntil + 1, Checks, s', buf[k'..]);
        } else if answer == NoMore {
          JustFinished(s', buf[k'..], files0);
        }
      }
    }

    /** callback_func for "write". */
    method Write(buf: seq<byte>, ghost seen: seq<byte>, ghost files0: map<nat, seq<byte>>) returns (answer: Answer)
      requires After(seen, files0)
      modifies this`crc, this`files, this`left, this`included, this`curfile
      ensures answer == Quit <==> !AllGood(dir, first, extractUntil + 1, Checks, seen + buf)
      ensures answer != Quit ==> After(seen + buf, files0)
      ensures answer != Quit ==> answer == if |seen + buf| < Need() then Taken(|buf|) else NoMore
    {
      hide AllGood, Running, Checked, Stored, Offset;
      assert curfile <= extractUntil ==> Running(seen, files0);
      hide Finished;
      if curfile > extractUntil {
        FinishedStays(seen, buf, files0);
        return NoMore;
      }
      var k := 0;
      assert seen + buf[..0] == seen;
      while k < |buf|
        invariant k <= |buf| && Running(seen + buf[..k], files0)
        decreases |buf| - k, extractUntil + 1 - curfile
      {
        k, answer := Piece(buf, k, seen, files0);
        if !answer.Taken? {
          return;
        }
      }
      assert seen + buf[..k] == seen + buf;
      RunningWants(seen + buf, files0);
      answer := Taken(|buf|);
    }

    lemma JustFinished(s: seq<byte>, more: seq<byte>, files0: map<nat, seq<byte>>)
      requires Finished(s, files0)
      ensures After(s + more, files0) && |s + more| >= Need() && AllGood(dir, first, extractUntil + 1, Checks, s + more)
    {
      hide Slice, Stored, AllGood, Checked;
      assert (s + more)[..|s|] == s;
      GoodAfter(dir, first, curfile, Checks, s, more);
    }

    lemma FinishedStays(seen: seq<byte>, buf: seq<byte>, files0: map<nat, seq<byte>>)
      requires After(seen, files0) && curfile > extractUntil
      ensures After(seen + buf, files0) && |seen + buf| >= Need() && AllGood(dir, first, extractUntil + 1, Checks, seen + buf)
    {
      hide Slice, Stored, AllGood, Checked, Offset, Crc, GoodCrc;
      var s := seen[..Need()];
      assert Finished(s, files0);
      hide Finished;
      assert s + (seen[Need()..] + buf) == seen + buf;
      JustFinished(s, seen[Need()..] + buf, files0);
    }

    /** An empty file or directory is made in the first pass, and its checksum compared. */
    predicate Empty(i: nat)
      requires i < |dir|
    {
      dir[i].size == 0 && accepts(i) && (testing || dir[i].isdir || !declines(i))
    }

    lemma EmptyIs(i: nat)
      requires i < |dir|
      ensures Empty(i) ==> dir[i].size == 0 && accepts(i)
    {
    }

    /** The checksum of no data. */
    predicate EmptyCrc(i: nat)
      requires i < |dir|
    {
      Xor(InitCrc(), InitCrc()) == dir[i].crc
    }

    /** Files `first` to `end` (not included) that are empty and to be written are there; nothing else changed. */
    ghost predicate Made(end: nat, files0: map<nat, seq<byte>>, now: map<nat, seq<byte>>) {
      && end <= |dir|
      && (forall i: nat :: first <= i < end && dir[i].size == 0 && !dir[i].isdir && Opens(i) ==> i in now && now[i] == [])
      && (forall i: nat :: !(first <= i < end && dir[i].size == 0 && !dir[i].isdir && Opens(i)) ==>
        (i in now <==> i in files0) && (i in now ==> now[i] == files0[i]))
    }

    /** The last file before `end` that has data and is named by the command. */
    ghost predicate LastWanted(until: int, end: nat) {
      && end <= |dir| && until < end
      && (until >= 0 ==> first <= until && dir[until].size > 0 && accepts(until))
      && (forall i: nat :: first <= i < end && i > until ==> dir[i].size == 0 || !accepts(i))
      && until >= -1
    }

    lemma MadeMore(cur: nat, files0: map<nat, seq<byte>>, was: map<nat, seq<byte>>, now: map<nat, seq<byte>>)
      requires first <= cur < |dir| && Made(cur, files0, was)
      requires now == if dir[cur].size == 0 && !dir[cur].isdir && Opens(cur) then was[cur := []] else was
      ensures Made(cur + 1, files0, now)
    {
    }

    /** An empty file or directory, in the first pass. */
    method MakeEmpty() returns (alive: bool)
      requires Valid() && !included && first <= curfile < last && dir[curfile].size == 0 && accepts(curfile)
      modifies this`crc, this`left, this`included, this`files
      ensures alive <==> (Empty(curfile) ==> EmptyCrc(curfile))
      ensures alive ==> Valid() && !included
      ensures files == if !dir[curfile].isdir && Opens(curfile) then old(files)[curfile := []] else old(files)
    {
      hide Xor;
      crc, left, included := InitCrc(), 0, true;
      if !testing && !dir[curfile].isdir {
        if declines(curfile) {
          included := false;
        } else {
          files := files[curfile := []];
        }
      }
      alive := Close();
    }

    lemma WantedIs(until: int, end: nat)
      requires LastWanted(until, end) && until >= 0
      ensures first <= until < end <= |dir| && dir[until].size > 0
    {
    }

    /** The first loop of ExtractFiles. */
    method FirstPass() returns (alive: bool)
      requires Valid() && !included
      modifies this
      ensures alive <==> forall i: nat :: first <= i < last && Empty(i) ==> EmptyCrc(i)
      ensures alive ==> Valid() && !included && Made(last, old(files), files) && LastWanted(extractUntil, last)
    {
      ghost var files0 := files;
      extractUntil := -1;
      curfile := first;
      assert Made(first, files0, files);
      hide Xor, Made, EmptyCrc, Empty;
      while curfile < last
        invariant Valid() && !included && first <= curfile <= last
        invariant Made(curfile, files0, files) && LastWanted(extractUntil, curfile)
        invariant forall i: nat :: first <= i < curfile && Empty(i) ==> EmptyCrc(i)
      {
        ghost var was := files;
        if accepts(curfile) {
          if dir[curfile].size == 0 {
            alive := MakeEmpty();
            if !alive {
              return;
            }
          } else {
            extractUntil := curfile;
          }
        }
        EmptyIs(curfile);
        MadeMore(curfile, files0, was, files);
        curfile := curfile + 1;
      }
      alive := true;
    }

    /** Every file to be written has its part of the stream; the last of a stream that ends early has a matching checksum. */
    ghost predicate Unpacked(s: seq<byte>, made: map<nat, seq<byte>>)
      reads this
    {
      && first <= extractUntil < |dir|
      && if |s| >= Need() then Stored(dir, first, extractUntil + 1, Opens, made, files, s)
        else exists i: nat :: first <= i <= extractUntil && OpenAt(s, made, i)
    }

    /** The stream ends with file i. */
    ghost predicate OpenAt(s: seq<byte>, made: map<nat, seq<byte>>, i: nat)
      reads this`files
    {
      && first <= i < |dir| && Offset(dir, first, i) <= |s| <= Offset(dir, first, i + 1)
      && Stored(dir, first, i + 1, Opens, made, files, s)
      && (dir[i].size > 0 && Checks(i) ==> GoodCrc(dir, first, s, i))
    }

    /** The stream ends in file i, and what there is of it has a wrong checksum. */
    ghost predicate BadAt(s: seq<byte>, i: nat) {
      && first <= i < |dir| && Offset(dir, first, i) <= |s| < Offset(dir, first, i + 1)
      && dir[i].size > 0 && Checks(i) && !GoodCrc(dir, first, s, i)
    }

    /** The stream ends too early, in a file whose checksum is wrong. */
    ghost predicate BrokenOff(s: seq<byte>)
      reads this`extractUntil
    {
      first <= extractUntil < |dir| && |s| < Need() && exists i: nat :: i <= extractUntil && BadAt(s, i)
    }

    lemma AfterIsGood(seen: seq<byte>, made: map<nat, seq<byte>>)
      requires After(seen, made)
      ensures AllGood(dir, first, extractUntil + 1, Checks, seen) && IsWord(crc) && (included ==> curfile < |dir| && |seen| < Need())
      ensures |seen| >= Need() ==> Stored(dir, first, extractUntil + 1, Opens, made, files, seen)
      ensures
        |seen| < Need() ==>
          Running(seen, made) && first <= curfile <= extractUntil < |dir| &&
          (included <==> dir[curfile].size > 0 && Checks(curfile)) &&
          (!included || Xor(crc, InitCrc()) == dir[curfile].crc ==> OpenAt(seen, made, curfile)) &&
          (included && Xor(crc, InitCrc()) != dir[curfile].crc ==> BadAt(seen, curfile))
    {
      if |seen| < Need() {
        RunningWants(seen, made);
      } else {
        var s, more := seen[..Need()], seen[Need()..];
        assert s + more == seen;
        GoodAfter(dir, first, curfile, Checks, s, more);
        StoredGrows(dir, first, curfile, Opens, made, files, s, more);
      }
    }

    /**
      ExtractFiles.  The decompressor hands over the pieces; one that ignores the replies goes on after the last file.
      Not alive: some file was unpacked with a checksum that is not the one recorded.
     */
    method ExtractFiles(pieces: seq<seq<byte>>) returns (alive: bool, replies: seq<Answer>)
      requires Valid() && !included
      modifies this
      ensures alive ==> LastWanted(extractUntil, last) && forall i: nat :: first <= i < last && Empty(i) ==> EmptyCrc(i)
      ensures alive && extractUntil < 0 ==> replies == [] && Made(last, old(files), files)
      ensures
        alive && extractUntil >= 0 ==>
          && AllGood(dir, first, extractUntil + 1, Checks, Flat(pieces, |pieces|)) && |replies| == |pieces|
          && (forall k :: 0 <= k < |pieces| ==> (replies[k] == NoMore <==> |Flat(pieces, k + 1)| >= Need()))
          && (exists made :: Made(last, old(files), made) && Unpacked(Flat(pieces, |pieces|), made))
      ensures
        !alive ==>
          || (exists i: nat :: first <= i < last && Empty(i) && !EmptyCrc(i))
          || (LastWanted(extractUntil, last) && 0 <= extractUntil &&
              (!AllGood(dir, first, extractUntil + 1, Checks, Flat(pieces, |pieces|)) || BrokenOff(Flat(pieces, |pieces|))))
    {
      hide Empty, EmptyCrc, LastWanted, Made, AllGood, Unpacked, Flat, Running, After, Need, Xor, Stored;
      replies := [];
      alive := FirstPass();
      if !alive || extractUntil < 0 {
        return;
      }
      WantedIs(extractUntil, last);
      alive, replies := SecondPass(pieces);
    }

    /** The data of the block goes through the callback. */
    method SecondPass(pieces: seq<seq<byte>>) returns (alive: bool, replies: seq<Answer>)
      requires Valid() && !included && first <= extractUntil < last && dir[extractUntil].size > 0
      modifies this`crc, this`files, this`left, this`included, this`curfile
      ensures
        alive ==>
          && AllGood(dir, first, extractUntil + 1, Checks, Flat(pieces, |pieces|)) && |replies| == |pieces|
          && (forall k :: 0 <= k < |pieces| ==> (replies[k] == NoMore <==> |Flat(pieces, k + 1)| >= Need()))
          && Unpacked(Flat(pieces, |pieces|), old(files))
      ensures
        !alive ==>
          !AllGood(dir, first, extractUntil + 1, Checks, Flat(pieces, |pieces|)) || BrokenOff(Flat(pieces, |pieces|))
    {
      hide AllGood, Running, After, Need, Xor, Stored, OpenAt, GoodCrc, Flat, Checked, Slice, Crc, Unpacked, EmptyDirs;
      ghost var made := files;
      curfile := first;
      CheckedNone(dir, first, Checks);
      FlatNone(pieces);
      StoredNone(dir, first, Opens, files);
      OpenNext([], files);
      RunningWants([], made);
      replies := [];
      var k := 0;
      AfterStart([], made);
      while k < |pieces|
        invariant k <= |pieces| && |replies| == k && After(Flat(pieces, k), made)
        invariant forall j :: 0 <= j < k ==> (replies[j] == NoMore <==> |Flat(pieces, j + 1)| >= Need())
      {
        FlatNext(pieces, k);
        var reply := Write(pieces[k], Flat(pieces, k), made);
        if reply == Quit {
          BadAtEnd(dir, first, extractUntil + 1, Checks, pieces, k + 1, |pieces|);
          return false, replies;
        }
        replies := replies + [reply];
        k := k + 1;
      }
      alive := CloseLast(Flat(pieces, k), made);
    }

    /** outfile_close at the end of ExtractFiles. */
    method CloseLast(ghost seen: seq<byte>, ghost made: map<nat, seq<byte>>) returns (alive: bool)
      requires After(seen, made)
      modifies this`included
      ensures AllGood(dir, first, extractUntil + 1, Checks, seen)
      ensures alive ==> Unpacked(seen, made)
      ensures !alive ==> BrokenOff(seen)
    {
      hide AllGood, Running, Xor, Stored, GoodCrc, Finished, At, OpenAt, BadAt, Offset, Slice, Crc, Checked, EmptyDirs;
      AfterIsGood(seen, made);
      ghost var cur := curfile;
      alive := Close();
      if alive && |seen| < Need() {
        assert OpenAt(seen, made, cur);
      }
    }
  }

  function Flat(pieces: seq<seq<byte>>, n: nat): seq<byte>
    requires n <= |pieces|
  {
    if n == 0 then [] else Flat(pieces, n - 1) + pieces[n - 1]
  }

  lemma FlatNone(pieces: seq<seq<byte>>)
    ensures Flat(pieces, 0) == []
  {
  }

  lemma FlatNext(pieces: seq<seq<byte>>, k: nat)
    requires k < |pieces|
    ensures Flat(pieces, k + 1) == Flat(pieces, k) + pieces[k]
  {
  }

  lemma {:induction false} FlatSplit(pieces: seq<seq<byte>>, k: nat, n: nat)
    requires k <= n <= |pieces|
    ensures |Flat(pieces, k)| <= |Flat(pieces, n)| && Flat(pieces, n) == Flat(pieces, k) + Flat(pieces, n)[|Flat(pieces, k)|..]
  {
    if k < n {
      FlatSplit(pieces, k, n - 1);
    }
  }

  lemma BadAtEnd(dir: seq<FileInfo>, first: nat, end: nat, checks: nat -> bool, pieces: seq<seq<byte>>, k: nat, n: nat)
    requires k <= n <= |pieces| && first <= end <= |dir| && !AllGood(dir, first, end, checks, Flat(pieces, k))
    ensures !AllGood(dir, first, end, checks, Flat(pieces, n))
  {
    hide Slice, Offset, Flat, GoodCrc, Whole;
    FlatSplit(pieces, k, n);
    var s := Flat(pieces, k);
    var i: nat :| first <= i < end && dir[i].size > 0 && checks(i) && Whole(dir, first, s, i) && !GoodCrc(dir, first, s, i);
    BadStays(dir, first, i, end, checks, s, Flat(pieces, n)[|s|..]);
  }
}
