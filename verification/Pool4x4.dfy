/**
  The job pool of 4x4/C_4x4.cpp: a reader fills jobs, workers process them in any order, a writer emits them in
  the order they were read and gives them back.  A step is one queue operation, one event operation or one
  callback of one thread; the invariant holds in every interleaving.

  The NULLs that end the pool are always put behind all jobs, so a queue is its jobs and the number of NULLs.
 */
module Pool4x4 {

  datatype Fifo = Fifo(jobs: seq<nat>, nulls: nat)

  function Size(q: Fifo): nat {
    |q.jobs| + q.nulls
  }

  datatype Reader =
    | Check                  // look at the error code
    | Get                    // take a free job
    | Fill(j: nat)           // read a block
    | PutWork(j: nat)        // hand the block to the workers
    | Signal(j: nat)         // a stored block needs no worker: mark it ready
    | PutWriter(j: nat)      // hand the block to the writer
    | Return(j: nat)         // nothing read: give the job back
    | StopWorkers(n: nat)    // n NULLs are put
    | JoinWorkers
    | StopWriter
    | JoinWriter
    | Finished

  /** Ready carries whether the block was processed without an error. */
  datatype Worker = Take | Run(j: nat) | Ready(j: nat, fine: bool) | Exited

  datatype Writer =
    | Next                   // take the next job
    | Wait(j: nat)           // until it is ready
    | Emit(j: nat)           // write it unless there was an error
    | Reset(j: nat)          // reset its event
    | PutFree(j: nat)        // give it back
    | Gone

  /** Blocks are numbered in the order they are read; num[j] is the number of the block in job j. */
  datatype State = State(
    free: seq<nat>, work: Fifo, out: Fifo, reader: Reader, workers: seq<Worker>, writer: Writer,
    ready: seq<bool>, good: seq<bool>, num: seq<nat>, err: int, errcode: int,
    read: nat, retired: nat, written: seq<nat>)

  /** Threads, and blocks in the input. */
  datatype Config = Config(workers: nat, blocks: nat)

  function Jobs(c: Config): nat {
    c.workers + 2
  }

  /** The capacity of the queues. */
  function Cap(c: Config): nat {
    Jobs(c) + 1
  }

  function Range(n: nat): (s: seq<nat>)
    ensures |s| == n && forall i :: 0 <= i < n ==> s[i] == i
  {
    seq(n, i => i)
  }

  predicate Shape(c: Config, s: State) {
    && c.workers >= 1 && |s.workers| == c.workers
    && |s.ready| == Jobs(c) && |s.good| == Jobs(c) && |s.num| == Jobs(c)
  }

  predicate Initial(c: Config, s: State) {
    && Shape(c, s) && s.free == Range(Jobs(c)) && s.work == Fifo([], 0) && s.out == Fifo([], 0)
    && s.reader == Check && s.writer == Next && s.err == 0 && s.errcode == 0
    && (forall w :: 0 <= w < |s.workers| ==> s.workers[w] == Take)
    && (forall j :: 0 <= j < |s.ready| ==> !s.ready[j])
    && s.read == 0 && s.retired == 0 && s.written == []
  }

  /** set_err keeps the first negative code. */
  function SetErr(err: int, e: int): int {
    if e < 0 && err == 0 then e else err
  }

  // ------------------------------------------------------------------ steps

  predicate ReaderStep(c: Config, s: State, t: State)
    requires Shape(c, s)
  {
    match s.reader
    case Check =>
      if s.err != 0 then t == s.(reader := StopWorkers(0), errcode := s.err)
      else t == s.(reader := Get) || (t.errcode < 0 && t == s.(reader := StopWorkers(0), errcode := t.errcode))
           || (s.read == c.blocks && t == s.(reader := StopWorkers(0)))
    case Get =>
      s.free != [] && t == s.(reader := Fill(s.free[0]), free := s.free[1..])
    case Fill(j) =>
      if s.read < c.blocks then
        && j < |s.num|
        && (|| t == s.(reader := PutWork(j), read := s.read + 1, num := s.num[j := s.read])
            || t == s.(reader := Signal(j), read := s.read + 1, num := s.num[j := s.read])
            || (t.errcode < 0 && t == s.(reader := Return(j), errcode := t.errcode, err := t.err)
                && (t.err == s.err || t.err == SetErr(s.err, t.errcode))))
      else
        t == s.(reader := Return(j))
    case PutWork(j) =>
      && s.work.nulls == 0 && Size(s.work) < Cap(c)
      && t == s.(reader := PutWriter(j), work := s.work.(jobs := s.work.jobs + [j]))
    case Signal(j) =>
      j < |s.ready| && j < |s.good| && t == s.(reader := PutWriter(j), ready := s.ready[j := true], good := s.good[j := true])
    case PutWriter(j) =>
      && s.out.nulls == 0 && Size(s.out) < Cap(c)
      && t == s.(reader := Check, out := s.out.(jobs := s.out.jobs + [j]))
    case Return(j) =>
      |s.free| < Cap(c) && t == s.(reader := StopWorkers(0), free := s.free + [j])
    case StopWorkers(n) =>
      if n < c.workers then
        Size(s.work) < Cap(c) && t == s.(reader := StopWorkers(n + 1), work := s.work.(nulls := s.work.nulls + 1))
      else
        t == s.(reader := JoinWorkers)
    case JoinWorkers =>
      (forall w :: 0 <= w < |s.workers| ==> s.workers[w].Exited?) && t == s.(reader := StopWriter)
    case StopWriter =>
      Size(s.out) < Cap(c) && t == s.(reader := JoinWriter, out := s.out.(nulls := s.out.nulls + 1))
    case JoinWriter =>
      s.writer.Gone? && t == s.(reader := Finished, errcode := if s.errcode == 0 && s.err < 0 then s.err else s.errcode)
    case Finished => false
  }

  predicate WorkerStep(c: Config, s: State, t: State, w: nat)
    requires Shape(c, s) && w < |s.workers|
  {
    |t.workers| == |s.workers| &&
    match s.workers[w]
    case Take =>
      if s.work.jobs != [] then
        t == s.(workers := s.workers[w := Run(s.work.jobs[0])], work := s.work.(jobs := s.work.jobs[1..]))
      else
        s.work.nulls > 0 && t == s.(workers := s.workers[w := Exited], work := s.work.(nulls := s.work.nulls - 1))
    case Run(j) =>
      && t == s.(workers := s.workers[w := t.workers[w]], err := t.err)
      && (t.workers[w] == Ready(j, true) || t.workers[w] == Ready(j, false))
      && if t.workers[w].fine then t.err == s.err else t.err < 0 && (s.err == 0 || t.err == s.err)
    case Ready(j, fine) =>
      && j < |s.ready| && j < |s.good|
      && t == s.(workers := s.workers[w := Take], ready := s.ready[j := true], good := s.good[j := fine])
    case Exited => false
  }

  predicate WriterStep(c: Config, s: State, t: State)
    requires Shape(c, s)
  {
    match s.writer
    case Next =>
      if s.out.jobs != [] then
        t == s.(writer := Wait(s.out.jobs[0]), out := s.out.(jobs := s.out.jobs[1..]))
      else
        s.out.nulls > 0 && t == s.(writer := Gone, out := s.out.(nulls := s.out.nulls - 1))
    case Wait(j) => j < |s.ready| && s.ready[j] && t == s.(writer := Emit(j))
    case Emit(j) =>
      if s.err != 0 then
        t == s.(writer := Reset(j))
      else
        || (j < |s.num| && t == s.(writer := Reset(j), written := s.written + [s.num[j]]))
        || (t.err < 0 && t == s.(writer := Reset(j), err := t.err))
    case Reset(j) => j < |s.ready| && t == s.(writer := PutFree(j), ready := s.ready[j := false])
    case PutFree(j) =>
      |s.free| < Cap(c) && t == s.(writer := Next, free := s.free + [j], retired := s.retired + 1)
    case Gone => false
  }

  datatype Thread = TheReader | TheWriter | AWorker(w: nat)

  predicate Step(c: Config, s: State, t: State, who: Thread) {
    && Shape(c, s)
    && match who
       case TheReader => ReaderStep(c, s, t)
       case TheWriter => WriterStep(c, s, t)
       case AWorker(w) => w < |s.workers| && WorkerStep(c, s, t, w)
  }

  // ------------------------------------------------------------------ where a job is

  function Count(s: seq<nat>, j: nat): nat {
    multiset(s)[j]
  }

  lemma CountSnoc(s: seq<nat>, x: nat, j: nat)
    ensures Count(s + [x], j) == Count(s, j) + if x == j then 1 else 0
  {
  }

  lemma CountHead(s: seq<nat>, j: nat)
    requires s != []
    ensures Count(s, j) == Count(s[1..], j) + if s[0] == j then 1 else 0
  {
    assert s == [s[0]] + s[1..];
  }

  function One(b: bool): nat {
    if b then 1 else 0
  }

  /** In the reader's hand, without a block. */
  function Empty(r: Reader, j: nat): nat {
    One(r == Fill(j) || r == Return(j))
  }

  /** In the reader's hand, with a block. */
  function Filled(r: Reader, j: nat): nat {
    One(r == PutWork(j) || r == Signal(j) || r == PutWriter(j))
  }

  function Held(w: Writer, j: nat): nat {
    One(w == Wait(j) || w == Emit(j) || w == Reset(j) || w == PutFree(j))
  }

  function Holds(w: Worker, j: nat): nat {
    One(w == Run(j) || w == Ready(j, true) || w == Ready(j, false))
  }

  function WorkersHold(ws: seq<Worker>, j: nat): nat {
    if ws == [] then 0 else Holds(ws[0], j) + WorkersHold(ws[1..], j)
  }

  lemma {:induction false} WorkerChanges(ws: seq<Worker>, w: nat, x: Worker, j: nat)
    requires w < |ws|
    ensures WorkersHold(ws[w := x], j) + Holds(ws[w], j) == WorkersHold(ws, j) + Holds(x, j)
  {
    hide Holds;
    if w == 0 {
      assert ws[w := x][1..] == ws[1..];
    } else {
      WorkerChanges(ws[1..], w - 1, x, j);
      assert ws[w := x][1..] == ws[1..][w - 1 := x];
    }
  }

  /** Holding a block, on the way from the reader to the writer. */
  function InFlight(s: State, j: nat): nat {
    Held(s.writer, j) + Count(s.out.jobs, j) + Filled(s.reader, j)
  }

  /** In the work queue or with a worker. */
  function Processed(s: State, j: nat): nat {
    Count(s.work.jobs, j) + WorkersHold(s.workers, j)
  }

  /** No longer only with the reader, and not yet only with the writer. */
  predicate Handed(s: State, j: nat) {
    s.reader != PutWork(j) && s.reader != Signal(j) && s.writer != PutFree(j)
  }

  /** With the workers: in flight, handed over, not yet ready. */
  predicate Expected(s: State, j: nat)
    requires j < |s.ready|
  {
    InFlight(s, j) > 0 && !s.ready[j] && Handed(s, j)
  }

  /** Each job is in exactly one place, and with the workers exactly when that is expected. */
  predicate PlaceOk(c: Config, s: State, j: nat)
    requires Shape(c, s)
  {
    && Count(s.free, j) + Empty(s.reader, j) + InFlight(s, j) == One(j < Jobs(c))
    && Processed(s, j) == One(j < Jobs(c) && Expected(s, j))
    && (j < Jobs(c) && s.ready[j] ==> InFlight(s, j) > 0 && Handed(s, j))
    && (j < Jobs(c) && (s.writer == Emit(j) || s.writer == Reset(j)) ==> s.ready[j])
  }

  ghost predicate PlacesOk(c: Config, s: State)
    requires Shape(c, s)
  {
    forall j: nat :: PlaceOk(c, s, j)
  }

  /** Steps of the reader that move a job. */
  predicate Moving(r: Reader) {
    r.Get? || r.Fill? || r.PutWork? || r.Signal? || r.PutWriter? || r.Return?
  }

  lemma ReaderMoves(c: Config, s: State, t: State, j: nat)
    requires Shape(c, s) && PlaceOk(c, s, j) && ReaderStep(c, s, t) && Moving(s.reader)
    ensures Shape(c, t) && PlaceOk(c, t, j)
  {
    hide Count, WorkersHold;
    match s.reader {
      case Get => CountHead(s.free, j);
      case Fill(k) =>
      case PutWork(k) => CountSnoc(s.work.jobs, k, j);
      case Signal(k) =>
      case PutWriter(k) => CountSnoc(s.out.jobs, k, j);
      case Return(k) => CountSnoc(s.free, k, j);
    }
  }

  lemma ReaderStays(c: Config, s: State, t: State, j: nat)
    requires Shape(c, s) && PlaceOk(c, s, j) && ReaderStep(c, s, t) && !Moving(s.reader)
    ensures Shape(c, t) && PlaceOk(c, t, j)
  {
    hide Count, WorkersHold;
  }

  lemma ReaderPlace(c: Config, s: State, t: State, j: nat)
    requires Shape(c, s) && PlacesOk(c, s) && ReaderStep(c, s, t)
    ensures Shape(c, t) && PlaceOk(c, t, j)
  {
    assert PlaceOk(c, s, j);
    hide PlaceOk, PlacesOk, ReaderStep;
    if Moving(s.reader) {
      ReaderMoves(c, s, t, j);
    } else {
      ReaderStays(c, s, t, j);
    }
  }

  lemma WriterMoves(c: Config, s: State, t: State, j: nat)
    requires Shape(c, s) && PlaceOk(c, s, j) && WriterStep(c, s, t) && (s.writer.Next? || s.writer.PutFree?)
    ensures Shape(c, t) && PlaceOk(c, t, j)
  {
    hide Count, WorkersHold;
    if s.writer.PutFree? {
      CountSnoc(s.free, s.writer.j, j);
    } else if s.out.jobs != [] {
      CountHead(s.out.jobs, j);
    }
  }

  lemma WriterStays(c: Config, s: State, t: State, j: nat)
    requires Shape(c, s) && PlaceOk(c, s, j) && WriterStep(c, s, t) && !s.writer.Next? && !s.writer.PutFree?
    ensures Shape(c, t) && PlaceOk(c, t, j)
  {
    hide Count, WorkersHold;
  }

  lemma WriterPlace(c: Config, s: State, t: State, j: nat)
    requires Shape(c, s) && PlacesOk(c, s) && WriterStep(c, s, t)
    ensures Shape(c, t) && PlaceOk(c, t, j)
  {
    assert PlaceOk(c, s, j);
    hide PlaceOk, PlacesOk, WriterStep;
    if s.writer.Next? || s.writer.PutFree? {
      WriterMoves(c, s, t, j);
    } else {
      WriterStays(c, s, t, j);
    }
  }

  lemma WorkerTakes(c: Config, s: State, t: State, w: nat, j: nat)
    requires Shape(c, s) && PlaceOk(c, s, j) && w < |s.workers| && WorkerStep(c, s, t, w) && s.workers[w].Take?
    ensures Shape(c, t) && PlaceOk(c, t, j)
  {
    hide Count, WorkersHold;
    WorkerChanges(s.workers, w, t.workers[w], j);
    if s.work.jobs != [] {
      CountHead(s.work.jobs, j);
    }
  }

  lemma WorkerWorks(c: Config, s: State, t: State, w: nat, j: nat)
    requires Shape(c, s) && PlaceOk(c, s, j) && w < |s.workers| && WorkerStep(c, s, t, w) && !s.workers[w].Take?
    ensures Shape(c, t) && PlaceOk(c, t, j)
  {
    hide Count, WorkersHold;
    WorkerChanges(s.workers, w, t.workers[w], j);
  }

  lemma WorkerPlace(c: Config, s: State, t: State, w: nat, j: nat)
    requires Shape(c, s) && PlacesOk(c, s) && w < |s.workers| && WorkerStep(c, s, t, w)
    ensures Shape(c, t) && PlaceOk(c, t, j)
  {
    assert PlaceOk(c, s, j);
    hide PlaceOk, PlacesOk, WorkerStep;
    if s.workers[w].Take? {
      WorkerTakes(c, s, t, w, j);
    } else {
      WorkerWorks(c, s, t, w, j);
    }
  }

  // ------------------------------------------------------------------ order

  function HeldAny(w: Writer): nat {
    One(w.Wait? || w.Emit? || w.Reset? || w.PutFree?)
  }

  function FilledAny(r: Reader): nat {
    One(r.PutWork? || r.Signal? || r.PutWriter?)
  }

  /** Past writing the block, before counting it as done. */
  function Emitted(w: Writer): nat {
    One(w.Reset? || w.PutFree?)
  }

  predicate Numbered(s: State, j: nat, n: nat) {
    j < |s.num| && s.num[j] == n
  }

  /** The blocks on their way are numbered without gaps, in the order in which the writer will take them. */
  predicate OrderOk(s: State) {
    var base := s.retired + HeldAny(s.writer);
    && (HeldAny(s.writer) == 1 ==> Numbered(s, s.writer.j, s.retired))
    && (forall k :: 0 <= k < |s.out.jobs| ==> Numbered(s, s.out.jobs[k], base + k))
    && (FilledAny(s.reader) == 1 ==> Numbered(s, s.reader.j, base + |s.out.jobs|))
    && s.read == base + |s.out.jobs| + FilledAny(s.reader)
  }

  /** What was written are the first blocks in order; all that are done, unless there was an error. */
  predicate WrittenOk(s: State) {
    && s.written == Range(|s.written|) && |s.written| <= s.retired + Emitted(s.writer)
    && (s.err == 0 ==> |s.written| == s.retired + Emitted(s.writer))
  }

  lemma CountIn(s: seq<nat>, k: nat)
    requires k < |s|
    ensures Count(s, s[k]) > 0
  {
    assert s[k] in multiset(s);
  }

  lemma EmptyInside(c: Config, s: State, j: nat)
    requires Shape(c, s) && PlacesOk(c, s) && Empty(s.reader, j) == 1
    ensures j < Jobs(c) && InFlight(s, j) == 0
  {
    assert PlaceOk(c, s, j);
    hide Count;
  }

  lemma FillOrder(c: Config, s: State, t: State)
    requires Shape(c, s) && PlacesOk(c, s) && OrderOk(s) && s.reader.Fill? && ReaderStep(c, s, t)
    ensures OrderOk(t)
  {
    var j := s.reader.j;
    EmptyInside(c, s, j);
    forall k | 0 <= k < |s.out.jobs|
      ensures s.out.jobs[k] != j
    {
      CountIn(s.out.jobs, k);
    }
    hide PlacesOk, Count;
  }

  lemma ReaderOrder(c: Config, s: State, t: State)
    requires Shape(c, s) && PlacesOk(c, s) && OrderOk(s) && ReaderStep(c, s, t)
    ensures OrderOk(t)
  {
    if s.reader.Fill? {
      hide OrderOk, ReaderStep, PlacesOk;
      FillOrder(c, s, t);
    } else {
      hide PlacesOk;
      if s.reader.PutWriter? {
        PutOrder(c, s, t);
      } else {
        OtherOrder(c, s, t);
      }
    }
  }

  lemma PutOrder(c: Config, s: State, t: State)
    requires Shape(c, s) && OrderOk(s) && ReaderStep(c, s, t) && s.reader.PutWriter?
    ensures OrderOk(t)
  {
    forall k | 0 <= k < |t.out.jobs|
      ensures Numbered(t, t.out.jobs[k], t.retired + HeldAny(t.writer) + k)
    {
      if k < |s.out.jobs| {
        assert Numbered(s, s.out.jobs[k], s.retired + HeldAny(s.writer) + k);
      }
    }
  }

  lemma OtherOrder(c: Config, s: State, t: State)
    requires Shape(c, s) && OrderOk(s) && ReaderStep(c, s, t) && !s.reader.Fill? && !s.reader.PutWriter?
    ensures OrderOk(t)
  {
    assert t.out.jobs == s.out.jobs && t.writer == s.writer && t.num == s.num && t.retired == s.retired && t.read == s.read;
    assert FilledAny(t.reader) == FilledAny(s.reader);
    assert FilledAny(s.reader) == 1 ==> t.reader.j == s.reader.j;
    hide ReaderStep, HeldAny, FilledAny;
    forall k | 0 <= k < |t.out.jobs|
      ensures Numbered(t, t.out.jobs[k], t.retired + HeldAny(t.writer) + k)
    {
      assert Numbered(s, s.out.jobs[k], s.retired + HeldAny(s.writer) + k);
    }
  }

  lemma WriterOrder(c: Config, s: State, t: State)
    requires Shape(c, s) && OrderOk(s) && WrittenOk(s) && WriterStep(c, s, t)
    ensures OrderOk(t) && WrittenOk(t)
  {
    if s.writer.Emit? && s.err == 0 {
      assert Range(|s.written| + 1) == Range(|s.written|) + [|s.written|];
    }
    hide Range;
    if s.writer.Next? && s.out.jobs != [] {
      forall k | 0 <= k < |t.out.jobs|
        ensures Numbered(t, t.out.jobs[k], t.retired + 1 + k)
      {
        assert Numbered(s, s.out.jobs[k + 1], s.retired + (k + 1));
      }
    }
  }

  lemma WorkerOrder(c: Config, s: State, t: State, w: nat)
    requires Shape(c, s) && OrderOk(s) && WrittenOk(s) && w < |s.workers| && WorkerStep(c, s, t, w)
    ensures OrderOk(t) && WrittenOk(t)
  {
    assert t.num == s.num && t.out == s.out && t.writer == s.writer && t.reader == s.reader;
    assert forall k :: 0 <= k < |s.out.jobs| ==> Numbered(s, s.out.jobs[k], s.retired + HeldAny(s.writer) + k);
  }

  // ------------------------------------------------------------------ outcomes and ends

  /** A job that failed is never ready without an error being noted. */
  predicate OutcomesOk(c: Config, s: State)
    requires Shape(c, s)
  {
    && s.err <= 0
    && (forall j :: 0 <= j < Jobs(c) && s.ready[j] ==> s.good[j] || s.err != 0)
    && (forall w :: 0 <= w < |s.workers| && s.workers[w].Ready? ==> s.workers[w].fine || s.err != 0)
  }

  function Exits(ws: seq<Worker>): (n: nat)
    ensures n <= |ws|
  {
    if ws == [] then 0 else One(ws[0].Exited?) + Exits(ws[1..])
  }

  lemma {:induction false} ExitsChange(ws: seq<Worker>, w: nat, x: Worker)
    requires w < |ws|
    ensures Exits(ws[w := x]) + One(ws[w].Exited?) == Exits(ws) + One(x.Exited?)
  {
    if w == 0 {
      assert ws[w := x][1..] == ws[1..];
    } else {
      ExitsChange(ws[1..], w - 1, x);
      assert ws[w := x][1..] == ws[1..][w - 1 := x];
    }
  }

  lemma {:induction false} ExitsAll(ws: seq<Worker>)
    ensures Exits(ws) == |ws| <==> AllExited(ws)
  {
    if ws != [] {
      ExitsAll(ws[1..]);
      assert AllExited(ws) <==> ws[0].Exited? && AllExited(ws[1..]);
    }
  }

  predicate AllExited(ws: seq<Worker>) {
    forall w :: 0 <= w < |ws| ==> ws[w].Exited?
  }

  /** How many NULLs the workers have been sent. */
  function Sent(c: Config, r: Reader): nat {
    if r.StopWorkers? then r.n
    else if r.JoinWorkers? || r.StopWriter? || r.JoinWriter? || r.Finished? then c.workers
    else 0
  }

  predicate Late(r: Reader) {
    r.StopWriter? || r.JoinWriter? || r.Finished?
  }

  predicate Stopping(r: Reader) {
    r.StopWorkers? || r.JoinWorkers? || Late(r)
  }

  /** The NULLs that were sent are in the queue or have ended a thread, and no job is behind them. */
  predicate EndsOk(c: Config, s: State)
    requires Shape(c, s)
  {
    && Sent(c, s.reader) <= c.workers
    && s.work.nulls + Exits(s.workers) == Sent(c, s.reader)
    && (Exits(s.workers) > 0 ==> s.work.jobs == [])
    && (Late(s.reader) ==> AllExited(s.workers))
    && s.out.nulls + One(s.writer.Gone?) == One(s.reader.JoinWriter? || s.reader.Finished?)
    && (s.writer.Gone? ==> s.out.jobs == [])
    && (s.reader.Finished? ==> s.writer.Gone?)
  }

  /** Without an error code the whole input was read. */
  predicate ResultOk(c: Config, s: State) {
    && s.read <= c.blocks && s.errcode <= 0
    && (!Stopping(s.reader) && !s.reader.Return? ==> s.errcode == 0)
    && (s.reader.Return? || Stopping(s.reader) ==> s.errcode != 0 || s.read == c.blocks)
    && (s.reader.Finished? && s.errcode == 0 ==> s.err == 0)
  }

  ghost predicate Inv(c: Config, s: State) {
    Shape(c, s) && PlacesOk(c, s) && OrderOk(s) && WrittenOk(s) && OutcomesOk(c, s) && EndsOk(c, s) && ResultOk(c, s)
  }

  lemma ReaderNulls(c: Config, s: State, t: State)
    requires Shape(c, s) && EndsOk(c, s) && ReaderStep(c, s, t)
    ensures Shape(c, t) && EndsOk(c, t)
  {
    hide EndsOk, ReaderStep, Shape;
    if Moving(s.reader) {
      NullsMoving(c, s, t);
    } else {
      NullsStopping(c, s, t);
    }
  }

  lemma NullsMoving(c: Config, s: State, t: State)
    requires Shape(c, s) && EndsOk(c, s) && ReaderStep(c, s, t) && Moving(s.reader)
    ensures Shape(c, t) && EndsOk(c, t)
  {
    hide Exits;
  }

  lemma NullsStopping(c: Config, s: State, t: State)
    requires Shape(c, s) && EndsOk(c, s) && ReaderStep(c, s, t) && !Moving(s.reader)
    ensures Shape(c, t) && EndsOk(c, t)
  {
    hide Exits;
  }

  lemma ReaderOutcomes(c: Config, s: State, t: State)
    requires Shape(c, s) && OutcomesOk(c, s) && ResultOk(c, s) && ReaderStep(c, s, t)
    ensures Shape(c, t) && OutcomesOk(c, t) && ResultOk(c, t)
  {
  }

  lemma ReaderWritten(c: Config, s: State, t: State)
    requires Shape(c, s) && WrittenOk(s) && ReaderStep(c, s, t)
    ensures WrittenOk(t)
  {
    hide Range;
  }

  lemma ReaderEnds(c: Config, s: State, t: State)
    requires Shape(c, s) && OutcomesOk(c, s) && EndsOk(c, s) && ResultOk(c, s) && WrittenOk(s) && ReaderStep(c, s, t)
    ensures Shape(c, t) && OutcomesOk(c, t) && EndsOk(c, t) && ResultOk(c, t) && WrittenOk(t)
  {
    ReaderNulls(c, s, t);
    ReaderOutcomes(c, s, t);
    ReaderWritten(c, s, t);
    hide EndsOk, OutcomesOk, ResultOk, WrittenOk, ReaderStep;
  }

  lemma WriterEnds(c: Config, s: State, t: State)
    requires Shape(c, s) && OutcomesOk(c, s) && EndsOk(c, s) && ResultOk(c, s) && WriterStep(c, s, t)
    ensures Shape(c, t) && OutcomesOk(c, t) && EndsOk(c, t) && ResultOk(c, t)
  {
    hide Range, Exits;
  }

  lemma WorkerEnds(c: Config, s: State, t: State, w: nat)
    requires Shape(c, s) && OutcomesOk(c, s) && EndsOk(c, s) && ResultOk(c, s)
    requires w < |s.workers| && WorkerStep(c, s, t, w)
    ensures Shape(c, t) && OutcomesOk(c, t) && EndsOk(c, t) && ResultOk(c, t)
  {
    ExitsChange(s.workers, w, t.workers[w]);
    hide Range, Exits;
    assert t.workers == s.workers[w := t.workers[w]];
  }

  lemma StepInv(c: Config, s: State, t: State, who: Thread)
    requires Inv(c, s) && Step(c, s, t, who)
    ensures Inv(c, t)
  {
    hide PlaceOk, OrderOk, WrittenOk, OutcomesOk, EndsOk, ResultOk, ReaderStep, WriterStep, WorkerStep, Shape;
    match who
    case TheReader =>
      ReaderEnds(c, s, t);
      ReaderOrder(c, s, t);
      forall j: nat
        ensures PlaceOk(c, t, j)
      {
        ReaderPlace(c, s, t, j);
      }
    case TheWriter =>
      WriterEnds(c, s, t);
      WriterOrder(c, s, t);
      forall j: nat
        ensures PlaceOk(c, t, j)
      {
        WriterPlace(c, s, t, j);
      }
    case AWorker(w) =>
      WorkerEnds(c, s, t, w);
      WorkerOrder(c, s, t, w);
      forall j: nat
        ensures PlaceOk(c, t, j)
      {
        WorkerPlace(c, s, t, w, j);
      }
  }

  lemma InitialInv(c: Config, s: State)
    requires Initial(c, s)
    ensures Inv(c, s)
  {
    forall j: nat
      ensures PlaceOk(c, s, j)
    {
      RangeOnce(Jobs(c), j);
      NoneHeld(s.workers, j);
      assert Count([], j) == 0;
    }
    NoExits(s.workers);
    assert s.written == Range(0);
  }

  lemma {:induction false} RangeOnce(n: nat, j: nat)
    ensures Count(Range(n), j) == One(j < n)
  {
    if n > 0 {
      RangeOnce(n - 1, j);
      CountSnoc(Range(n - 1), n - 1, j);
      assert Range(n) == Range(n - 1) + [n - 1];
    }
  }

  lemma {:induction false} NoneHeld(ws: seq<Worker>, j: nat)
    requires forall w :: 0 <= w < |ws| ==> ws[w] == Take || ws[w] == Exited
    ensures WorkersHold(ws, j) == 0
  {
    if ws != [] {
      NoneHeld(ws[1..], j);
    }
  }

  lemma {:induction false} NoExits(ws: seq<Worker>)
    ensures (forall w :: 0 <= w < |ws| ==> !ws[w].Exited?) <==> Exits(ws) == 0
  {
    if ws != [] {
      NoExits(ws[1..]);
      if Exits(ws) == 0 {
        forall w | 0 <= w < |ws|
          ensures !ws[w].Exited?
        {
          assert w > 0 ==> ws[w] == ws[1..][w - 1];
        }
      } else if !ws[0].Exited? {
        var v :| 0 <= v < |ws[1..]| && ws[1..][v].Exited?;
        assert ws[v + 1].Exited?;
      }
    }
  }

  ghost predicate Steps(c: Config, s: State, t: State) {
    exists who :: Step(c, s, t, who)
  }

  /** A run: any interleaving of the threads from the start. */
  ghost predicate IsRun(c: Config, run: seq<State>) {
    run != [] && Initial(c, run[0]) && forall k :: 0 <= k < |run| - 1 ==> Steps(c, run[k], run[k + 1])
  }

  lemma {:induction false} RunInv(c: Config, run: seq<State>, k: nat)
    requires IsRun(c, run) && k < |run|
    ensures Inv(c, run[k])
  {
    hide Inv, Step, Initial;
    if k == 0 {
      InitialInv(c, run[0]);
    } else {
      RunInv(c, run, k - 1);
      assert Steps(c, run[k - 1], run[k - 1 + 1]);
      var who :| Step(c, run[k - 1], run[k], who);
      StepInv(c, run[k - 1], run[k], who);
    }
  }

  // ------------------------------------------------------------------ what the invariant gives

  /** In every run each job is free, in the reader's hand, or on its way to the writer, and only there. */
  lemma JobInOnePlace(c: Config, run: seq<State>, k: nat, j: nat)
    requires IsRun(c, run) && k < |run| && j < Jobs(c)
    ensures Count(run[k].free, j) + Empty(run[k].reader, j) + InFlight(run[k], j) == 1
  {
    RunInv(c, run, k);
    assert PlaceOk(c, run[k], j);
  }

  predicate Distinct(s: seq<nat>) {
    forall i, k :: 0 <= i < k < |s| ==> s[i] != s[k]
  }

  lemma {:induction false} Pigeonhole(s: seq<nat>, n: nat)
    requires Distinct(s) && forall k :: 0 <= k < |s| ==> s[k] < n
    ensures |s| <= n
    decreases n
  {
    if s != [] {
      assert s[0] < n;
      if exists k :: 0 <= k < |s| && s[k] == n - 1 {
        var k :| 0 <= k < |s| && s[k] == n - 1;
        Pigeonhole(s[..k] + s[k + 1..], n - 1);
      } else {
        Pigeonhole(s, n - 1);
      }
    }
  }

  lemma CountTwice(s: seq<nat>, i: nat, k: nat)
    requires i < k < |s| && s[i] == s[k]
    ensures Count(s, s[i]) >= 2
  {
    assert s == s[..k] + [s[k]] + s[k + 1..];
    assert s[i] in s[..k] && multiset(s[..k])[s[i]] >= 1;
  }

  lemma CountNone(j: nat)
    ensures Count([], j) == 0
  {
  }

  lemma AtMostOnce(s: seq<nat>, n: nat)
    requires forall j: nat :: Count(s, j) <= One(j < n)
    ensures Distinct(s) && |s| <= n
  {
    forall i, k | 0 <= i < k < |s|
      ensures s[i] != s[k]
    {
      if s[i] == s[k] {
        CountTwice(s, i, k);
      }
    }
    forall k | 0 <= k < |s|
      ensures s[k] < n
    {
      CountIn(s, k);
    }
    Pigeonhole(s, n);
  }

  /** No put of a job ever finds its queue full. */
  lemma QueuesHold(c: Config, s: State)
    requires Inv(c, s)
    ensures |s.free| <= Jobs(c) && |s.out.jobs| <= Jobs(c) && |s.work.jobs| <= Jobs(c)
  {
    forall j: nat
      ensures Count(s.free, j) <= One(j < Jobs(c)) && Count(s.out.jobs, j) <= One(j < Jobs(c))
      ensures Count(s.work.jobs, j) <= One(j < Jobs(c))
    {
      assert PlaceOk(c, s, j);
      hide Count;
    }
    hide Count;
    AtMostOnce(s.free, Jobs(c));
    AtMostOnce(s.out.jobs, Jobs(c));
    AtMostOnce(s.work.jobs, Jobs(c));
  }

  /** However the workers finish, the writer emits the blocks in the order they were read, each once. */
  lemma InReadOrder(c: Config, run: seq<State>, k: nat)
    requires IsRun(c, run) && k < |run|
    ensures run[k].written == Range(|run[k].written|) && |run[k].written| <= run[k].read
  {
    RunInv(c, run, k);
  }

  /** The writer never emits a block whose processing failed. */
  lemma OnlyGoodBlocks(c: Config, run: seq<State>, k: nat, j: nat)
    requires IsRun(c, run) && k < |run| && run[k].writer == Emit(j) && run[k].err == 0
    ensures j < |run[k].good| && run[k].good[j]
  {
    RunInv(c, run, k);
    assert PlaceOk(c, run[k], j);
    hide Count;
  }

  /** When the pool has shut down without an error code, all blocks were written in order. */
  lemma Complete(c: Config, run: seq<State>, k: nat)
    requires IsRun(c, run) && k < |run| && run[k].reader.Finished? && run[k].errcode == 0
    ensures run[k].written == Range(c.blocks)
  {
    RunInv(c, run, k);
  }

  // ------------------------------------------------------------------ no deadlock

  ghost predicate CanStep(c: Config, s: State) {
    exists t :: Steps(c, s, t)
  }

  lemma Witness(c: Config, s: State, t: State, who: Thread)
    requires Step(c, s, t, who)
    ensures CanStep(c, s)
  {
    assert Steps(c, s, t);
  }

  /** A worker with a job, or with something to take, can go on. */
  lemma WorkerRuns(c: Config, s: State, w: nat)
    requires Inv(c, s) && w < |s.workers| && !s.workers[w].Exited?
    requires s.workers[w].Take? ==> Size(s.work) > 0
    ensures CanStep(c, s)
  {
    hide OrderOk, WrittenOk, EndsOk, ResultOk, OutcomesOk;
    var t: State;
    match s.workers[w] {
      case Take =>
        if s.work.jobs != [] {
          t := s.(workers := s.workers[w := Run(s.work.jobs[0])], work := s.work.(jobs := s.work.jobs[1..]));
        } else {
          t := s.(workers := s.workers[w := Exited], work := s.work.(nulls := s.work.nulls - 1));
        }
      case Run(j) =>
        t := s.(workers := s.workers[w := Ready(j, true)]);
      case Ready(j, fine) =>
        HeldBy(s.workers, w, j);
        assert PlaceOk(c, s, j);
        t := s.(workers := s.workers[w := Take], ready := s.ready[j := true], good := s.good[j := fine]);
      case Exited =>
    }
    hide PlacesOk;
    Witness(c, s, t, AWorker(w));
  }

  lemma {:induction false} HeldBy(ws: seq<Worker>, w: nat, j: nat)
    requires w < |ws| && Holds(ws[w], j) == 1
    ensures WorkersHold(ws, j) > 0
  {
    if w > 0 {
      HeldBy(ws[1..], w - 1, j);
    }
  }

  lemma {:induction false} SomeHolder(ws: seq<Worker>, j: nat) returns (w: nat)
    requires WorkersHold(ws, j) > 0
    ensures w < |ws| && Holds(ws[w], j) == 1
  {
    if Holds(ws[0], j) == 1 {
      w := 0;
    } else {
      w := SomeHolder(ws[1..], j);
      w := w + 1;
    }
  }

  /** While a job is expected from the workers, one of them can go on. */
  lemma ExpectedRuns(c: Config, s: State, j: nat)
    requires Inv(c, s) && j < Jobs(c) && Expected(s, j)
    ensures CanStep(c, s)
  {
    assert PlaceOk(c, s, j);
    if WorkersHold(s.workers, j) > 0 {
      var w := SomeHolder(s.workers, j);
      WorkerRuns(c, s, w);
    } else {
      CountNone(j);
      assert s.work.jobs != [];
      NoExits(s.workers);
      WorkerRuns(c, s, 0);
    }
  }

  /** The writer can go on, or a worker can, unless the writer waits for a job to come. */
  lemma WriterRuns(c: Config, s: State)
    requires Inv(c, s) && !s.writer.Gone? && (s.writer.Next? ==> Size(s.out) > 0)
    ensures CanStep(c, s)
  {
    QueuesHold(c, s);
    var t: State;
    match s.writer {
      case Next =>
        if s.out.jobs != [] {
          t := s.(writer := Wait(s.out.jobs[0]), out := s.out.(jobs := s.out.jobs[1..]));
        } else {
          t := s.(writer := Gone, out := s.out.(nulls := s.out.nulls - 1));
        }
      case Wait(j) =>
        assert PlaceOk(c, s, j);
        if !s.ready[j] {
          HeldNotFilled(c, s, j);
          ExpectedRuns(c, s, j);
          return;
        }
        t := s.(writer := Emit(j));
      case Emit(j) =>
        if s.err != 0 {
          t := s.(writer := Reset(j));
        } else {
          t := s.(writer := Reset(j), written := s.written + [s.num[j]]);
        }
      case Reset(j) =>
        assert PlaceOk(c, s, j);
        t := s.(writer := PutFree(j), ready := s.ready[j := false]);
      case PutFree(j) =>
        t := s.(writer := Next, free := s.free + [j], retired := s.retired + 1);
      case Gone =>
    }
    hide PlacesOk, OutcomesOk, EndsOk, ResultOk, WrittenOk;
    Witness(c, s, t, TheWriter);
  }

  /** A job the writer holds is not with the reader. */
  lemma HeldNotFilled(c: Config, s: State, j: nat)
    requires Shape(c, s) && PlaceOk(c, s, j) && Held(s.writer, j) == 1
    ensures j < Jobs(c) && s.reader != PutWork(j) && s.reader != Signal(j)
  {
  }

  /** With no free job, a job is on its way, so the writer or a worker can go on. */
  lemma NoFreeJob(c: Config, s: State)
    requires Inv(c, s) && s.reader == Get && s.free == []
    ensures CanStep(c, s)
  {
    CountNone(0);
    assert PlaceOk(c, s, 0);
    if s.out.jobs == [] {
      assert Held(s.writer, 0) == 1;
    }
    WriterRuns(c, s);
  }

  lemma WorkersStop(c: Config, s: State)
    requires Inv(c, s) && !AllExited(s.workers)
    requires (s.reader.StopWorkers? && s.reader.n < c.workers && Size(s.work) > 0) || s.reader.JoinWorkers?
    ensures CanStep(c, s)
  {
    var w :| 0 <= w < |s.workers| && !s.workers[w].Exited?;
    ExitsAll(s.workers);
    WorkerRuns(c, s, w);
  }

  lemma WriterStops(c: Config, s: State)
    requires Inv(c, s) && s.reader.JoinWriter? && !s.writer.Gone?
    ensures CanStep(c, s)
  {
    WriterRuns(c, s);
  }

  /** The reader can go on, or someone it waits for can. */
  lemma ReaderRuns(c: Config, s: State)
    requires Inv(c, s) && !s.reader.Finished?
    ensures CanStep(c, s)
  {
    QueuesHold(c, s);
    var t: State;
    match s.reader {
      case Check =>
        t := if s.err != 0 then s.(reader := StopWorkers(0), errcode := s.err) else s.(reader := Get);
      case Get =>
        if s.free == [] {
          NoFreeJob(c, s);
          return;
        }
        t := s.(reader := Fill(s.free[0]), free := s.free[1..]);
      case Fill(j) =>
        EmptyInside(c, s, j);
        t := if s.read < c.blocks then s.(reader := PutWork(j), read := s.read + 1, num := s.num[j := s.read])
             else s.(reader := Return(j));
      case PutWork(j) =>
        t := s.(reader := PutWriter(j), work := s.work.(jobs := s.work.jobs + [j]));
      case Signal(j) =>
        assert PlaceOk(c, s, j);
        t := s.(reader := PutWriter(j), ready := s.ready[j := true], good := s.good[j := true]);
      case PutWriter(j) =>
        t := s.(reader := Check, out := s.out.(jobs := s.out.jobs + [j]));
      case Return(j) =>
        t := s.(reader := StopWorkers(0), free := s.free + [j]);
      case StopWorkers(n) =>
        if n < c.workers && Size(s.work) >= Cap(c) {
          ExitsAll(s.workers);
          WorkersStop(c, s);
          return;
        }
        t := if n < c.workers then s.(reader := StopWorkers(n + 1), work := s.work.(nulls := s.work.nulls + 1))
             else s.(reader := JoinWorkers);
      case JoinWorkers =>
        if !AllExited(s.workers) {
          WorkersStop(c, s);
          return;
        }
        t := s.(reader := StopWriter);
      case StopWriter =>
        t := s.(reader := JoinWriter, out := s.out.(nulls := s.out.nulls + 1));
      case JoinWriter =>
        if !s.writer.Gone? {
          WriterStops(c, s);
          return;
        }
        t := s.(reader := Finished, errcode := if s.errcode == 0 && s.err < 0 then s.err else s.errcode);
      case Finished =>
    }
    hide PlacesOk, OrderOk, WrittenOk, OutcomesOk, ResultOk;
    Witness(c, s, t, TheReader);
  }

  /** Until the pool has shut down, errors included, some thread can go on. */
  lemma NoDeadlock(c: Config, run: seq<State>, k: nat)
    requires IsRun(c, run) && k < |run| && !run[k].reader.Finished?
    ensures CanStep(c, run[k])
  {
    RunInv(c, run, k);
    ReaderRuns(c, run[k]);
  }

  // ------------------------------------------------------------------ every run ends

  function WorkerWeight(w: Worker): nat {
    match w
    case Take => 0
    case Run(_) => 2
    case Ready(_, _) => 1
    case Exited => 0
  }

  function WorkersWeight(ws: seq<Worker>): nat {
    if ws == [] then 0 else WorkerWeight(ws[0]) + WorkersWeight(ws[1..])
  }

  lemma {:induction false} WeightChanges(ws: seq<Worker>, w: nat, x: Worker)
    requires w < |ws|
    ensures WorkersWeight(ws[w := x]) + WorkerWeight(ws[w]) == WorkersWeight(ws) + WorkerWeight(x)
  {
    if w == 0 {
      assert ws[w := x][1..] == ws[1..];
    } else {
      WeightChanges(ws[1..], w - 1, x);
      assert ws[w := x][1..] == ws[1..][w - 1 := x];
    }
  }

  function WriterWeight(w: Writer): nat {
    match w
    case Next => 1
    case Wait(_) => 6
    case Emit(_) => 5
    case Reset(_) => 4
    case PutFree(_) => 3
    case Gone => 0
  }

  function ReaderWeight(c: Config, r: Reader): int {
    var b := 2 * c.workers + 10;
    match r
    case Check => b
    case Get => b - 1
    case Fill(_) => b - 2
    case PutWork(_) => b + 11
    case Signal(_) => b + 8
    case PutWriter(_) => b + 7
    case Return(_) => b - 3
    case StopWorkers(n) => 2 * (c.workers - n) + 6
    case JoinWorkers => 5
    case StopWriter => 4
    case JoinWriter => 2
    case Finished => 0
  }

  /** What is left to do. */
  function Measure(c: Config, s: State): int {
    20 * (c.blocks - s.read) + ReaderWeight(c, s.reader) + 3 * |s.work.jobs| + s.work.nulls
    + WorkersWeight(s.workers) + 6 * |s.out.jobs| + s.out.nulls + WriterWeight(s.writer)
  }

  lemma MeasureNat(c: Config, s: State)
    requires Inv(c, s)
    ensures Measure(c, s) >= 0
  {
    hide WorkersWeight, PlacesOk, OrderOk, WrittenOk, OutcomesOk;
  }

  lemma ReaderShrinks(c: Config, s: State, t: State)
    requires Shape(c, s) && ReaderStep(c, s, t) && Sent(c, s.reader) <= c.workers
    ensures Measure(c, t) < Measure(c, s)
  {
    hide WorkersWeight;
  }

  lemma WriterShrinks(c: Config, s: State, t: State)
    requires Shape(c, s) && WriterStep(c, s, t)
    ensures Measure(c, t) < Measure(c, s)
  {
    hide WorkersWeight;
  }

  lemma WorkerShrinks(c: Config, s: State, t: State, w: nat)
    requires Shape(c, s) && w < |s.workers| && WorkerStep(c, s, t, w)
    ensures Measure(c, t) < Measure(c, s)
  {
    hide WorkersWeight;
    WeightChanges(s.workers, w, t.workers[w]);
    assert t.workers == s.workers[w := t.workers[w]];
  }

  lemma StepShrinks(c: Config, s: State, t: State, who: Thread)
    requires Inv(c, s) && Step(c, s, t, who)
    ensures Measure(c, t) < Measure(c, s)
  {
    hide Measure, ReaderStep, WriterStep, WorkerStep;
    match who
    case TheReader => ReaderShrinks(c, s, t);
    case TheWriter => WriterShrinks(c, s, t);
    case AWorker(w) => WorkerShrinks(c, s, t, w);
  }

  /** No run is longer than what there is to do: the pool always shuts down. */
  lemma {:induction false} RunEnds(c: Config, run: seq<State>, k: nat)
    requires IsRun(c, run) && k < |run|
    ensures 0 <= Measure(c, run[k]) <= Measure(c, run[0]) - k
  {
    RunInv(c, run, k);
    MeasureNat(c, run[k]);
    hide Inv, Step, Measure, Initial;
    if k > 0 {
      RunInv(c, run, k - 1);
      RunEnds(c, run, k - 1);
      assert Steps(c, run[k - 1], run[k - 1 + 1]);
      var who :| Step(c, run[k - 1], run[k], who);
      StepShrinks(c, run[k - 1], run[k], who);
    }
  }
}
