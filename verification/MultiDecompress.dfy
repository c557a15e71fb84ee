/**
  The chain of decompressors in CompressionLibrary.cpp: one thread per method, and between two neighbours a
  buffer handed over with two semaphores.  A step is what a thread does between two synchronisation points
  or one access to the shared fields; the invariant holds in every interleaving.

  A stage may read, write and finish as it likes, except that it must finish once a write was refused.
 */
module MultiDecompress {

  type item = int

  /** Where a thread is; each case names what it does next. */
  datatype Pc =
    | Begin                                  // wait for the first data or the end of the predecessor
    | BeginGive                              // give the permission to read back
    | Running                                // inside the method
    | WritePut(data: seq<item>)              // set buf and size
    | WriteGive                              // release the reader
    | WriteWait                              // wait until the data are taken
    | WriteReturn                            // look whether more data are wanted
    | Stopped                                // the write was refused
    | ReadWait(need: nat, got: seq<item>)    // wait for data
    | ReadTake(need: nat, got: seq<item>)    // look at size and copy
    | ReadMore(need: nat, got: seq<item>)    // the buffer is used up: release the writer
    | ReadKeep(got: seq<item>, eof: bool)    // give the permission to read back and return
    | Ending(code: int)                      // the method has returned
    | ClosePrev                              // set the size of the predecessor to -1
    | WakePrev                               // release its write
    | CloseNext                              // set the own size to -1
    | WakeNext                               // release the successor's read
    | Last                                   // report the end of the last stage
    | Done

  /** Between a stage and its successor: buf and size, the two semaphores, and what went through so far. */
  datatype Link = Link(buf: seq<item>, closed: bool, read: bool, write: bool, sent: seq<item>, received: seq<item>)

  /** The field `size`: -1 when no more data will come or are wanted. */
  function Size(k: Link): int {
    if k.closed then -1 else |k.buf|
  }

  datatype Exit = Exit(retcode: int, done: bool, log: seq<int>)

  /** SetExitCode: the first code other than 0 stays. */
  function Signal(e: Exit, code: int): Exit {
    Exit(if e.retcode == 0 then code else e.retcode, true, e.log + [code])
  }

  /** What a stage may do next from inside its method. */
  predicate Chooses(first: bool, last: bool, q: Pc) {
    q == Running || (!last && q.WritePut?) || (!first && q.ReadWait? && q.got == []) || q.Ending?
  }

  /**
    One step of a stage: p to q, with its link to the predecessor (l) and to the successor (r).  Raising a
    semaphore that is already up has no effect.
   */
  predicate Moves(first: bool, last: bool, p: Pc, q: Pc, l: Link, l': Link, r: Link, r': Link, e: Exit, e': Exit) {
    match p
    case Begin => q == BeginGive && l.read && l' == l.(read := false) && r' == r && e' == e
    case BeginGive => q == Running && l' == l.(read := true) && r' == r && e' == e
    case Running => Chooses(first, last, q) && l' == l && r' == r && e' == e
    case WritePut(data) =>
      q == WriteGive && l' == l && r' == r.(buf := data, closed := false, sent := r.sent + data) && e' == e
    case WriteGive => q == WriteWait && l' == l && r' == r.(read := true) && e' == e
    case WriteWait => q == WriteReturn && r.write && l' == l && r' == r.(write := false) && e' == e
    case WriteReturn => q == (if Size(r) < 0 then Stopped else Running) && l' == l && r' == r && e' == e
    case Stopped => q.Ending? && l' == l && r' == r && e' == e
    case ReadWait(need, got) => q == ReadTake(need, got) && l.read && l' == l.(read := false) && r' == r && e' == e
    case ReadTake(need, got) =>
      && r' == r && e' == e
      && if Size(l) < 0 then
           q == ReadKeep(got, true) && l' == l
         else if need <= |l.buf| then
           && q == ReadKeep(got + l.buf[..need], false)
           && l' == l.(buf := l.buf[need..], received := l.received + l.buf[..need])
         else
           && q == ReadMore(need - |l.buf|, got + l.buf)
           && l' == l.(received := l.received + l.buf)
    case ReadMore(need, got) => q == ReadWait(need, got) && l' == l.(write := true) && r' == r && e' == e
    case ReadKeep(got, eof) => q == Running && l' == l.(read := true) && r' == r && e' == e
    case Ending(code) =>
      && q == (if !first then ClosePrev else if !last then CloseNext else Last)
      && l' == l && r' == r && e' == if code < 0 then Signal(e, code) else e
    case ClosePrev => q == WakePrev && l' == l.(closed := true) && r' == r && e' == e
    case WakePrev => q == (if last then Last else CloseNext) && l' == l.(write := true) && r' == r && e' == e
    case CloseNext => q == WakeNext && l' == l && r' == r.(closed := true) && e' == e
    case WakeNext => q == Done && l' == l && r' == r.(read := true) && e' == e
    case Last => q == Done && l' == l && r' == r && e' == Signal(e, 0)
    case Done => false
  }

  /** pc[i] is the place of stage i, link[i] the link between stages i and i + 1. */
  datatype State = State(pc: seq<Pc>, link: seq<Link>, exit: Exit)

  const NO_LINK: Link := Link([], false, false, false, [], [])

  predicate Shape(s: State) {
    |s.pc| >= 1 && |s.link| == |s.pc| - 1
  }

  function Left(s: State, i: nat): Link
    requires Shape(s) && i < |s.pc|
  {
    if i == 0 then NO_LINK else s.link[i - 1]
  }

  function Right(s: State, i: nat): Link
    requires Shape(s) && i < |s.pc|
  {
    if i == |s.pc| - 1 then NO_LINK else s.link[i]
  }

  predicate Initial(s: State) {
    && Shape(s) && s.exit == Exit(0, false, [])
    && (forall i :: 0 <= i < |s.pc| ==> s.pc[i] == if i == 0 then Running else Begin)
    && (forall i :: 0 <= i < |s.link| ==> s.link[i] == NO_LINK)
  }

  predicate Step(s: State, t: State, i: nat) {
    && Shape(s) && Shape(t) && |t.pc| == |s.pc| && i < |s.pc|
    && Moves(i == 0, i == |s.pc| - 1, s.pc[i], t.pc[i], Left(s, i), Left(t, i), Right(s, i), Right(t, i), s.exit, t.exit)
    && (forall j :: 0 <= j < |s.pc| && j != i ==> t.pc[j] == s.pc[j])
    && (forall j :: 0 <= j < |s.link| && j != i && j != i - 1 ==> t.link[j] == s.link[j])
  }

  // ------------------------------------------------------------------ the invariant of a link

  /** Waiting for the permission to read. */
  predicate Waits(c: Pc) {
    c.Begin? || c.ReadWait?
  }

  /** Holding the permission to read. */
  predicate Holds(c: Pc) {
    c.BeginGive? || c.ReadTake? || c.ReadMore? || c.ReadKeep?
  }

  /** Past telling the predecessor that no more data are needed. */
  predicate Gone(c: Pc) {
    c.CloseNext? || c.WakeNext? || c.Last? || c.Done?
  }

  /** A stage that will not write any more. */
  predicate Leaving(p: Pc) {
    p.Stopped? || p.Ending? || p.ClosePrev? || p.WakePrev? || p.CloseNext? || p.WakeNext? || p.Done?
  }

  /** The producer has the buffer; the consumer waits. */
  predicate ProducersTurn(p: Pc, c: Pc, k: Link) {
    && Waits(c) && !k.read && !p.Done? && !p.Stopped? && !p.Last?
    && k.write == p.WriteWait? && k.closed == p.WakeNext?
    && k.sent == k.received + (if p.WriteGive? then k.buf else [])
  }

  /** The producer is blocked in its write until the consumer releases it. */
  predicate ConsumersTurn(p: Pc, c: Pc, k: Link) {
    && p.WriteWait? && !k.write && !Gone(c)
    && k.read == !Holds(c) && k.closed == c.WakePrev?
    && k.sent == k.received + (if c.ReadMore? then [] else k.buf)
    && (c.ReadKeep? ==> !c.eof)
  }

  /** The producer has finished. */
  predicate ProducerDone(p: Pc, c: Pc, k: Link) {
    && p.Done? && !c.ReadMore? && !Gone(c)
    && k.closed && k.read == !Holds(c) && k.sent == k.received
  }

  /** The consumer has gone; the producer will find out when its write returns. */
  predicate ConsumerGone(p: Pc, c: Pc, k: Link) {
    && Gone(c) && k.closed && k.read && k.received <= k.sent
    && (Leaving(p) || p.WriteReturn? || (p.WriteWait? && k.write))
  }

  /** What a read call hands over is the tail of what has gone through. */
  predicate Handed(c: Pc, k: Link) {
    c.ReadWait? || c.ReadTake? || c.ReadMore? || c.ReadKeep? ==>
      |c.got| <= |k.received| && k.received[|k.received| - |c.got|..] == c.got
  }

  predicate LinkOk(p: Pc, c: Pc, k: Link) {
    && Handed(c, k)
    && (ProducersTurn(p, c, k) || ConsumersTurn(p, c, k) || ProducerDone(p, c, k) || ConsumerGone(p, c, k))
  }

  /** The part of a step that concerns the link to the successor. */
  predicate ProducerMoves(p: Pc, q: Pc, k: Link, k': Link) {
    match p
    case WritePut(data) => q.WriteGive? && k' == k.(buf := data, closed := false, sent := k.sent + data)
    case WriteGive => q.WriteWait? && k' == k.(read := true)
    case WriteWait => q.WriteReturn? && k.write && k' == k.(write := false)
    case WriteReturn => k' == k && if k.closed then q.Stopped? else q.Running?
    case CloseNext => q.WakeNext? && k' == k.(closed := true)
    case WakeNext => q.Done? && k' == k.(read := true)
    case Stopped => k' == k && q.Ending?
    case Ending(_) => k' == k && (q.ClosePrev? || q.CloseNext?)
    case ClosePrev => k' == k && q.WakePrev?
    case WakePrev => k' == k && q.CloseNext?
    case Last => false
    case Done => false
    case _ => k' == k && (q.BeginGive? || q.Running? || q.WritePut? || q.Ending? || Reads(q))
  }

  predicate Reads(c: Pc) {
    c.ReadWait? || c.ReadTake? || c.ReadMore? || c.ReadKeep?
  }

  lemma MovesProducer(first: bool, p: Pc, q: Pc, l: Link, l': Link, k: Link, k': Link, e: Exit, e': Exit)
    requires Moves(first, false, p, q, l, l', k, k', e, e') && !p.Last?
    ensures ProducerMoves(p, q, k, k')
  {
  }

  lemma ProducersTurnMoves(p: Pc, q: Pc, c: Pc, k: Link, k': Link)
    requires ProducersTurn(p, c, k) && ProducerMoves(p, q, k, k')
    ensures ProducersTurn(q, c, k') || ConsumersTurn(q, c, k') || ProducerDone(q, c, k')
  {
    if p.WakeNext? {
      assert ProducerDone(q, c, k');
    } else if p.WriteGive? {
      assert ConsumersTurn(q, c, k');
    } else {
      hide ConsumersTurn, ProducerDone;
      assert ProducersTurn(q, c, k');
    }
  }

  lemma OtherTurnsMove(p: Pc, q: Pc, c: Pc, k: Link, k': Link)
    requires ProducerMoves(p, q, k, k') && (ConsumersTurn(p, c, k) || ProducerDone(p, c, k) || ConsumerGone(p, c, k))
    ensures ConsumerGone(q, c, k')
  {
  }

  lemma ProducerKeeps(p: Pc, q: Pc, c: Pc, k: Link, k': Link)
    requires LinkOk(p, c, k) && ProducerMoves(p, q, k, k')
    ensures LinkOk(q, c, k')
  {
    assert k'.received == k.received;
    hide ProducersTurn, ConsumersTurn, ProducerDone, ConsumerGone, ProducerMoves;
    if ProducersTurn(p, c, k) {
      ProducersTurnMoves(p, q, c, k, k');
    } else {
      OtherTurnsMove(p, q, c, k, k');
    }
  }

  /** The part of a step that concerns the link to the predecessor. */
  predicate ConsumerMoves(c: Pc, d: Pc, k: Link, k': Link) {
    match c
    case Begin => d.BeginGive? && k.read && k' == k.(read := false)
    case BeginGive => d.Running? && k' == k.(read := true)
    case Running => k' == k && (d.Running? || d.WritePut? || d.Ending? || (d.ReadWait? && d.got == []))
    case ReadWait(need, got) => d == ReadTake(need, got) && k.read && k' == k.(read := false)
    case ReadTake(need, got) =>
      if k.closed then d == ReadKeep(got, true) && k' == k
      else if d.ReadKeep? then
        && need <= |k.buf| && d == ReadKeep(got + k.buf[..need], false)
        && k' == k.(buf := k.buf[need..], received := k.received + k.buf[..need])
      else
        && d.ReadMore? && d.got == got + k.buf
        && k' == k.(received := k.received + k.buf)
    case ReadMore(need, got) => d == ReadWait(need, got) && k' == k.(write := true)
    case ReadKeep(got, eof) => d.Running? && k' == k.(read := true)
    case Ending(_) => k' == k && d.ClosePrev?
    case ClosePrev => d.WakePrev? && k' == k.(closed := true)
    case WakePrev => Gone(d) && k' == k.(write := true)
    case CloseNext => k' == k && d.WakeNext?
    case WakeNext => k' == k && d.Done?
    case Last => k' == k && d.Done?
    case Done => false
    case _ => k' == k && (d.WriteGive? || d.WriteWait? || d.WriteReturn? || d.Running? || d.Stopped? || d.Ending?)
  }

  lemma MovesConsumer(last: bool, c: Pc, d: Pc, k: Link, k': Link, r: Link, r': Link, e: Exit, e': Exit)
    requires Moves(false, last, c, d, k, k', r, r', e, e')
    ensures ConsumerMoves(c, d, k, k')
  {
  }

  lemma HandedKeeps(c: Pc, d: Pc, k: Link, k': Link)
    requires Handed(c, k) && ConsumerMoves(c, d, k, k')
    ensures Handed(d, k')
  {
    if c.ReadTake? && !k.closed {
      var more := if d.ReadKeep? then k.buf[..c.need] else k.buf;
      Tail(k.received, c.got, more);
    }
  }

  lemma Tail(received: seq<item>, got: seq<item>, more: seq<item>)
    requires |got| <= |received| && received[|received| - |got|..] == got
    ensures (received + more)[|received + more| - |got + more|..] == got + more
  {
    assert (received + more)[|received| - |got|..] == received[|received| - |got|..] + more;
  }

  lemma ConsumersTurnKeeps(p: Pc, c: Pc, d: Pc, k: Link, k': Link)
    requires ConsumersTurn(p, c, k) && ConsumerMoves(c, d, k, k')
    ensures ConsumersTurn(p, d, k') || ProducersTurn(p, d, k') || ConsumerGone(p, d, k')
  {
    if c.ReadMore? {
      assert ProducersTurn(p, d, k');
    } else if c.WakePrev? {
      assert ConsumerGone(p, d, k');
    } else {
      if c.ReadTake? && d.ReadKeep? {
        assert k.buf == k.buf[..c.need] + k.buf[c.need..];
      }
      assert ConsumersTurn(p, d, k');
    }
  }

  lemma OtherTurnsKeep(p: Pc, c: Pc, d: Pc, k: Link, k': Link)
    requires ConsumerMoves(c, d, k, k') && (ProducersTurn(p, c, k) || ProducerDone(p, c, k) || ConsumerGone(p, c, k))
    ensures ProducerDone(p, d, k') || ConsumerGone(p, d, k')
  {
    if ProducerDone(p, c, k) {
      hide ProducersTurn;
      if c.WakePrev? {
        assert ConsumerGone(p, d, k');
      } else {
        hide ConsumerGone;
        assert ProducerDone(p, d, k');
      }
    } else {
      hide ProducerDone;
      assert ConsumerGone(p, d, k');
    }
  }

  lemma ConsumerKeeps(p: Pc, c: Pc, d: Pc, k: Link, k': Link)
    requires LinkOk(p, c, k) && ConsumerMoves(c, d, k, k')
    ensures LinkOk(p, d, k')
  {
    hide Handed, ProducersTurn, ConsumersTurn, ProducerDone, ConsumerGone, ConsumerMoves;
    HandedKeeps(c, d, k, k');
    if ConsumersTurn(p, c, k) {
      ConsumersTurnKeeps(p, c, d, k, k');
    } else {
      OtherTurnsKeep(p, c, d, k, k');
    }
  }

  // ------------------------------------------------------------------ every run

  function FirstNonZero(log: seq<int>): int {
    if log == [] then 0 else if log[0] != 0 then log[0] else FirstNonZero(log[1..])
  }

  /** The return code is the first code other than 0 that was signalled. */
  predicate ExitOk(e: Exit) {
    && e.retcode == FirstNonZero(e.log) && e.done == (e.log != [])
    && forall k :: 0 <= k < |e.log| ==> e.log[k] <= 0
  }

  lemma {:induction false} FirstNonZeroSnoc(log: seq<int>, code: int)
    ensures FirstNonZero(log + [code]) == if FirstNonZero(log) == 0 then code else FirstNonZero(log)
  {
    if log != [] {
      assert (log + [code])[1..] == log[1..] + [code];
      FirstNonZeroSnoc(log[1..], code);
    }
  }

  lemma SignalOk(e: Exit, code: int)
    requires ExitOk(e) && code <= 0
    ensures ExitOk(Signal(e, code))
  {
    FirstNonZeroSnoc(e.log, code);
  }

  /** The first stage reads from outside. */
  predicate FirstOk(p: Pc) {
    !Waits(p) && !Holds(p) && !p.ClosePrev? && !p.WakePrev?
  }

  /** The last stage writes to outside and reports its end. */
  predicate LastOk(p: Pc, e: Exit) {
    && !p.WritePut? && !p.WriteGive? && !p.WriteWait? && !p.WriteReturn? && !p.Stopped? && !p.CloseNext? && !p.WakeNext?
    && (p.Done? ==> e.log != [])
  }

  predicate LinkOkAt(s: State, j: nat)
    requires Shape(s) && j < |s.link|
  {
    LinkOk(s.pc[j], s.pc[j + 1], s.link[j])
  }

  predicate Inv(s: State) {
    && Shape(s) && ExitOk(s.exit) && FirstOk(s.pc[0]) && LastOk(s.pc[|s.pc| - 1], s.exit)
    && forall j :: 0 <= j < |s.link| ==> LinkOkAt(s, j)
  }

  lemma InitialInv(s: State)
    requires Initial(s)
    ensures Inv(s)
  {
    forall j | 0 <= j < |s.link|
      ensures LinkOkAt(s, j)
    {
      assert ProducersTurn(s.pc[j], s.pc[j + 1], s.link[j]);
    }
  }

  /** What a step does to the parts of the invariant that concern no link. */
  lemma MovesEnds(first: bool, last: bool, p: Pc, q: Pc, l: Link, l': Link, r: Link, r': Link, e: Exit, e': Exit)
    requires Moves(first, last, p, q, l, l', r, r', e, e')
    ensures ExitOk(e) ==> ExitOk(e')
    ensures first && FirstOk(p) ==> FirstOk(q)
    ensures last && LastOk(p, e) ==> LastOk(q, e')
    ensures e'.log == e.log || (p.Ending? && p.code < 0 && e'.log == e.log + [p.code]) || (p.Last? && e'.log == e.log + [0])
  {
    MovesExit(first, last, p, q, l, l', r, r', e, e');
    MovesFirst(first, last, p, q, l, l', r, r', e, e');
    MovesLast(first, last, p, q, l, l', r, r', e, e');
    hide Moves, ExitOk, FirstOk, LastOk;
  }

  lemma MovesExit(first: bool, last: bool, p: Pc, q: Pc, l: Link, l': Link, r: Link, r': Link, e: Exit, e': Exit)
    requires Moves(first, last, p, q, l, l', r, r', e, e')
    ensures ExitOk(e) ==> ExitOk(e')
    ensures e'.log == e.log || (p.Ending? && p.code < 0 && e'.log == e.log + [p.code]) || (p.Last? && e'.log == e.log + [0])
  {
    hide ExitOk;
    if ExitOk(e) {
      if p.Ending? && p.code < 0 {
        SignalOk(e, p.code);
      } else if p.Last? {
        SignalOk(e, 0);
      }
    }
  }

  lemma MovesFirst(first: bool, last: bool, p: Pc, q: Pc, l: Link, l': Link, r: Link, r': Link, e: Exit, e': Exit)
    requires Moves(first, last, p, q, l, l', r, r', e, e')
    ensures first && FirstOk(p) ==> FirstOk(q)
  {
  }

  lemma MovesLast(first: bool, last: bool, p: Pc, q: Pc, l: Link, l': Link, r: Link, r': Link, e: Exit, e': Exit)
    requires Moves(first, last, p, q, l, l', r, r', e, e')
    ensures last && LastOk(p, e) ==> LastOk(q, e')
  {
  }

  lemma StepInv(s: State, t: State, i: nat)
    requires Inv(s) && Step(s, t, i)
    ensures Inv(t)
  {
    hide LinkOk, ExitOk, FirstOk, Moves;
    var n := |s.pc|;
    var first, last := i == 0, i == n - 1;
    assert Moves(first, last, s.pc[i], t.pc[i], Left(s, i), Left(t, i), Right(s, i), Right(t, i), s.exit, t.exit);
    MovesEnds(first, last, s.pc[i], t.pc[i], Left(s, i), Left(t, i), Right(s, i), Right(t, i), s.exit, t.exit);
    forall j | 0 <= j < |t.link|
      ensures LinkOkAt(t, j)
    {
      assert LinkOkAt(s, j);
      if j == i {
        NotLast(s.pc[j], s.pc[j + 1], s.link[j]);
        MovesProducer(first, s.pc[i], t.pc[i], Left(s, i), Left(t, i), s.link[j], t.link[j], s.exit, t.exit);
        ProducerKeeps(s.pc[i], t.pc[i], s.pc[j + 1], s.link[j], t.link[j]);
      } else if j + 1 == i {
        MovesConsumer(last, s.pc[i], t.pc[i], s.link[j], t.link[j], Right(s, i), Right(t, i), s.exit, t.exit);
        ConsumerKeeps(s.pc[j], s.pc[i], t.pc[i], s.link[j], t.link[j]);
      }
    }
  }

  lemma NotLast(p: Pc, c: Pc, k: Link)
    requires LinkOk(p, c, k)
    ensures !p.Last?
  {
  }

  ghost predicate Steps(s: State, t: State) {
    exists i: nat :: Step(s, t, i)
  }

  /** A run: any interleaving of the stages from the start. */
  ghost predicate IsRun(run: seq<State>) {
    run != [] && Initial(run[0]) && forall k :: 0 <= k < |run| - 1 ==> Steps(run[k], run[k + 1])
  }

  lemma {:induction false} RunInv(run: seq<State>, k: nat)
    requires IsRun(run) && k < |run|
    ensures Inv(run[k])
  {
    if k == 0 {
      InitialInv(run[0]);
    } else {
      RunInv(run, k - 1);
      assert Steps(run[k - 1], run[k - 1 + 1]);
      var i: nat :| Step(run[k - 1], run[k], i);
      StepInv(run[k - 1], run[k], i);
    }
  }

  // ------------------------------------------------------------------ what the invariant gives

  /** Started, not inside its read callback, and not yet past telling its predecessor to stop. */
  predicate OutsideRead(c: Pc) {
    !Waits(c) && !Holds(c) && !c.WakePrev? && !Gone(c)
  }

  /** A thread about to look at or change buf and size of its link to the successor, or to its predecessor. */
  predicate TouchesNext(p: Pc) {
    p.WritePut? || p.WriteReturn? || p.CloseNext?
  }

  predicate TouchesPrev(c: Pc) {
    c.ReadTake? || c.ClosePrev?
  }

  /** While a stage works outside its read callback its predecessor is blocked in write or has finished. */
  lemma PredecessorBlocked(run: seq<State>, k: nat, i: nat)
    requires IsRun(run) && k < |run| && i + 1 < |run[k].pc| && OutsideRead(run[k].pc[i + 1])
    ensures Shape(run[k]) && ((run[k].pc[i].WriteWait? && !run[k].link[i].write) || run[k].pc[i].Done?)
  {
    RunInv(run, k);
    assert LinkOkAt(run[k], i);
  }

  /** No two threads use the same buffer at the same time. */
  lemma NoRace(run: seq<State>, k: nat, i: nat)
    requires IsRun(run) && k < |run| && i + 1 < |run[k].pc|
    ensures !(TouchesNext(run[k].pc[i]) && TouchesPrev(run[k].pc[i + 1]))
  {
    RunInv(run, k);
    assert LinkOkAt(run[k], i);
  }

  /** What a stage has read is a prefix of what its predecessor has written. */
  lemma ReadsPrefix(run: seq<State>, k: nat, i: nat)
    requires IsRun(run) && k < |run| && i + 1 < |run[k].pc|
    ensures Shape(run[k]) && run[k].link[i].received <= run[k].link[i].sent
  {
    RunInv(run, k);
    assert LinkOkAt(run[k], i);
  }

  /** A read that ends early does so because the predecessor has finished and all its data have been read. */
  lemma EndOfData(run: seq<State>, k: nat, i: nat)
    requires IsRun(run) && k < |run| && i + 1 < |run[k].pc| && run[k].pc[i + 1].ReadKeep? && run[k].pc[i + 1].eof
    ensures Shape(run[k]) && run[k].pc[i].Done? && run[k].link[i].received == run[k].link[i].sent
  {
    RunInv(run, k);
    assert LinkOkAt(run[k], i);
  }

  /** Blocked in a semaphore. */
  predicate Blocked(s: State, i: nat)
    requires Shape(s) && i < |s.pc|
  {
    (Waits(s.pc[i]) && !Left(s, i).read) || (s.pc[i].WriteWait? && !Right(s, i).write)
  }

  /** If all stages before i have finished and i has not, someone from i on can go on. */
  lemma {:induction false} SomeoneRuns(s: State, i: nat, inWrite: bool) returns (j: nat)
    requires Inv(s) && i < |s.pc| && !s.pc[i].Done?
    requires if inWrite then i > 0 && s.pc[i - 1].WriteWait? && !s.link[i - 1].write
             else forall k :: 0 <= k < i ==> s.pc[k].Done?
    ensures j < |s.pc| && !s.pc[j].Done? && !Blocked(s, j)
    decreases |s.pc| - i
  {
    if i > 0 {
      assert LinkOkAt(s, i - 1);
    }
    if !Blocked(s, i) {
      return i;
    }
    assert s.pc[i].WriteWait?;
    assert LinkOkAt(s, i);
    j := SomeoneRuns(s, i + 1, true);
  }

  /** The state after stage i has gone to q. */
  function Put(s: State, i: nat, q: Pc, l: Link, r: Link, e: Exit): (t: State)
    requires Shape(s) && i < |s.pc|
    ensures Shape(t) && |t.pc| == |s.pc|
  {
    var links := if i > 0 then s.link[i - 1 := l] else s.link;
    State(s.pc[i := q], if i < |s.pc| - 1 then links[i := r] else links, e)
  }

  lemma PutSteps(s: State, i: nat, q: Pc, l: Link, r: Link, e: Exit)
    requires Shape(s) && i < |s.pc|
    requires Moves(i == 0, i == |s.pc| - 1, s.pc[i], q, Left(s, i), l, Right(s, i), r, s.exit, e)
    requires i == 0 ==> l == NO_LINK
    requires i == |s.pc| - 1 ==> r == NO_LINK
    ensures Steps(s, Put(s, i, q, l, r, e))
  {
    hide Moves;
    assert Step(s, Put(s, i, q, l, r, e), i);
  }

  lemma UnblockedSteps(s: State, i: nat)
    requires Inv(s) && i < |s.pc| && !s.pc[i].Done? && !Blocked(s, i)
    ensures exists t :: Steps(s, t)
  {
    hide LinkOk, ExitOk, Handed;
    var n, p, l, r, e := |s.pc|, s.pc[i], Left(s, i), Right(s, i), s.exit;
    match p {
      case Begin => PutSteps(s, i, BeginGive, l.(read := false), r, e);
      case BeginGive => PutSteps(s, i, Running, l.(read := true), r, e);
      case Running => PutSteps(s, i, Ending(0), l, r, e);
      case WritePut(data) => PutSteps(s, i, WriteGive, l, r.(buf := data, closed := false, sent := r.sent + data), e);
      case WriteGive => PutSteps(s, i, WriteWait, l, r.(read := true), e);
      case WriteWait => PutSteps(s, i, WriteReturn, l, r.(write := false), e);
      case WriteReturn => PutSteps(s, i, if Size(r) < 0 then Stopped else Running, l, r, e);
      case Stopped => PutSteps(s, i, Ending(0), l, r, e);
      case ReadWait(need, got) => PutSteps(s, i, ReadTake(need, got), l.(read := false), r, e);
      case ReadTake(need, got) =>
        if Size(l) < 0 {
          PutSteps(s, i, ReadKeep(got, true), l, r, e);
        } else if need <= |l.buf| {
          PutSteps(s, i, ReadKeep(got + l.buf[..need], false),
                   l.(buf := l.buf[need..], received := l.received + l.buf[..need]), r, e);
        } else {
          PutSteps(s, i, ReadMore(need - |l.buf|, got + l.buf), l.(received := l.received + l.buf), r, e);
        }
      case ReadMore(need, got) => PutSteps(s, i, ReadWait(need, got), l.(write := true), r, e);
      case ReadKeep(got, eof) => PutSteps(s, i, Running, l.(read := true), r, e);
      case Ending(code) =>
        PutSteps(s, i, if i > 0 then ClosePrev else if i < n - 1 then CloseNext else Last, l, r,
                 if code < 0 then Signal(e, code) else e);
      case ClosePrev => PutSteps(s, i, WakePrev, l.(closed := true), r, e);
      case WakePrev => PutSteps(s, i, if i == n - 1 then Last else CloseNext, l.(write := true), r, e);
      case CloseNext => PutSteps(s, i, WakeNext, l, r.(closed := true), e);
      case WakeNext => PutSteps(s, i, Done, l, r.(read := true), e);
      case Last => PutSteps(s, i, Done, l, r, Signal(e, 0));
    }
  }

  predicate AllDone(s: State) {
    forall i :: 0 <= i < |s.pc| ==> s.pc[i].Done?
  }

  function LowestRunning(s: State, i: nat): (j: nat)
    requires i <= |s.pc| && (forall k :: 0 <= k < i ==> s.pc[k].Done?) && !AllDone(s)
    ensures j < |s.pc| && !s.pc[j].Done? && forall k :: 0 <= k < j ==> s.pc[k].Done?
    decreases |s.pc| - i
  {
    if i < |s.pc| && s.pc[i].Done? then LowestRunning(s, i + 1) else i
  }

  /** No run deadlocks: until all threads have finished one of them can go on. */
  lemma NoDeadlock(run: seq<State>, k: nat)
    requires IsRun(run) && k < |run| && !AllDone(run[k])
    ensures exists t :: Steps(run[k], t)
  {
    RunInv(run, k);
    var j := SomeoneRuns(run[k], LowestRunning(run[k], 0), false);
    UnblockedSteps(run[k], j);
  }

  /**
    When all threads have finished, `done` has been set, so MultiDecompress returns; what it returns is the
    first code other than 0 signalled, which is 0 only if no stage signalled an error.
   */
  lemma Returned(run: seq<State>, k: nat)
    requires IsRun(run) && k < |run| && AllDone(run[k])
    ensures run[k].exit.done && run[k].exit.retcode == FirstNonZero(run[k].exit.log)
    ensures run[k].exit.retcode == 0 <==> NoError(run[k].exit.log)
  {
    RunInv(run, k);
    ZeroMeansNone(run[k].exit.log);
  }

  predicate NoError(log: seq<int>) {
    forall k :: 0 <= k < |log| ==> log[k] == 0
  }

  lemma {:induction false} ZeroMeansNone(log: seq<int>)
    ensures FirstNonZero(log) == 0 <==> NoError(log)
  {
    if log != [] {
      ZeroMeansNone(log[1..]);
      assert log == [log[0]] + log[1..];
    }
  }
}
