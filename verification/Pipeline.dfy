/**
  The solid-block pipeline of Environment.cpp: a reader, any number of compression methods and a writer, each
  a thread, joined by bounded queues of buffers.  Actor 0 is the reader, actor |queues| the writer; queue j
  leads from actor j to actor j + 1.

  A method may read and write as it likes.  What it writes depends on what it has read: at most `partial` of it
  before the end of its input, all of `output` behind it.  It returns only when it has read to the end.
 */
module Pipeline {
  import opened Bytes

  const RING_SLOTS: nat := 6

  type Chunk = s: seq<byte> | s != [] witness [0]

  function Flat(cs: seq<Chunk>): seq<byte> {
    if cs == [] then [] else cs[0] + Flat(cs[1..])
  }

  /** A queue with the bytes that were ever pushed and popped. */
  datatype Queue = Queue(contents: seq<Chunk>, closed: bool, pushed: seq<byte>, popped: seq<byte>)

  /** What a thread is about to do. */
  datatype Act = Idle | WantPop | WantPush(c: Chunk) | Finished

  datatype State = State(act: seq<Act>, eof: seq<bool>, q: seq<Queue>)

  /** What a method has written at most when it has read that much, and what it writes for a whole input. */
  datatype Method = Method(partial: seq<byte> -> seq<byte>, output: seq<byte> -> seq<byte>)

  /** What is written before the end of the input is right however the input goes on. */
  ghost predicate Causal(m: Method) {
    forall r, whole :: r <= whole ==> m.partial(r) <= m.output(whole)
  }

  datatype Plan = Plan(files: seq<byte>, method_: seq<Method>)

  ghost predicate AllCausal(p: Plan) {
    forall i :: 0 <= i < |p.method_| ==> Causal(p.method_[i])
  }

  /** All bytes that go through queue j: the methods one after the other, applied to the files. */
  function Full(p: Plan, j: nat): seq<byte>
    requires j <= |p.method_|
  {
    if j == 0 then p.files else p.method_[j - 1].output(Full(p, j - 1))
  }

  predicate Shape(p: Plan, s: State) {
    |s.q| == |p.method_| + 1 && |s.act| == |s.q| + 1 && |s.eof| == |s.q| + 1
  }

  predicate Initial(p: Plan, s: State) {
    && Shape(p, s)
    && (forall j :: 0 <= j < |s.act| ==> s.act[j] == Idle && s.eof[j] == (j == 0))
    && (forall j :: 0 <= j < |s.q| ==> s.q[j] == Queue([], false, [], []))
  }

  /** What actor j may have written by now. */
  function SoFar(p: Plan, s: State, j: nat): seq<byte>
    requires Shape(p, s) && j < |s.q|
  {
    if j > 0 && !s.eof[j] then p.method_[j - 1].partial(s.q[j - 1].popped) else Output(p, s, j)
  }

  /** What comes next in an idle thread: read, write a piece of the output, or finish. */
  predicate Choose(p: Plan, s: State, t: State, j: nat)
    requires Shape(p, s) && j < |s.act|
  {
    && s.act[j] == Idle && t.eof == s.eof
    && (|| (!s.eof[j] && t == s.(act := s.act[j := WantPop]))
        || (j < |s.q| && j < |t.act| && t.act[j].WantPush? && s.q[j].pushed + t.act[j].c <= SoFar(p, s, j)
            && t == s.(act := s.act[j := t.act[j]])))
  }

  predicate Push(p: Plan, s: State, t: State, j: nat)
    requires Shape(p, s) && j < |s.act|
  {
    && j < |s.q| && s.act[j].WantPush? && |s.q[j].contents| < RING_SLOTS
    && var c := s.act[j].c;
       t == s.(act := s.act[j := Idle],
               q := s.q[j := s.q[j].(contents := s.q[j].contents + [c], pushed := s.q[j].pushed + c)])
  }

  predicate Pop(p: Plan, s: State, t: State, j: nat)
    requires Shape(p, s) && j < |s.act|
  {
    && 0 < j && s.act[j] == WantPop && s.q[j - 1].contents != []
    && var k := s.q[j - 1];
       t == s.(act := s.act[j := Idle],
               q := s.q[j - 1 := k.(contents := k.contents[1..], popped := k.popped + k.contents[0])])
  }

  /** A read that finds the queue closed and drained. */
  predicate End(p: Plan, s: State, t: State, j: nat)
    requires Shape(p, s) && j < |s.act|
  {
    && 0 < j && s.act[j] == WantPop && s.q[j - 1].contents == [] && s.q[j - 1].closed
    && t == s.(act := s.act[j := Idle], eof := s.eof[j := true])
  }

  /** The output of actor j for what it has read. */
  function Output(p: Plan, s: State, j: nat): seq<byte>
    requires Shape(p, s) && j < |s.q|
  {
    if j == 0 then p.files else p.method_[j - 1].output(s.q[j - 1].popped)
  }

  /** The thread returns and closes its output queue. */
  predicate Finish(p: Plan, s: State, t: State, j: nat)
    requires Shape(p, s) && j < |s.act|
  {
    && s.act[j] == Idle && s.eof[j]
    && if j < |s.q| then
         s.q[j].pushed == Output(p, s, j) && t == s.(act := s.act[j := Finished], q := s.q[j := s.q[j].(closed := true)])
       else
         t == s.(act := s.act[j := Finished])
  }

  predicate Step(p: Plan, s: State, t: State, j: nat) {
    && Shape(p, s) && Shape(p, t) && j < |s.act|
    && (Choose(p, s, t, j) || Push(p, s, t, j) || Pop(p, s, t, j) || End(p, s, t, j) || Finish(p, s, t, j))
  }

  // ------------------------------------------------------------------ the invariant

  /** Queue j loses nothing, keeps the order, and holds at most six buffers. */
  predicate QueueOk(p: Plan, s: State, j: nat)
    requires Shape(p, s) && j < |s.q|
  {
    var k := s.q[j];
    && |k.contents| <= RING_SLOTS && k.pushed == k.popped + Flat(k.contents) && k.pushed <= Full(p, j)
    && k.closed == s.act[j].Finished? && (k.closed ==> k.pushed == Full(p, j))
  }

  predicate ActorOk(p: Plan, s: State, j: nat)
    requires Shape(p, s) && j < |s.act|
  {
    && (j == 0 ==> s.eof[j])
    && (s.eof[j] && j > 0 ==> s.q[j - 1].closed && s.q[j - 1].contents == [])
    && (s.act[j].WantPop? ==> !s.eof[j])
    && (s.act[j].WantPush? ==> j < |s.q| && s.q[j].pushed + s.act[j].c <= Full(p, j))
    && (s.act[j].Finished? ==> s.eof[j])
  }

  ghost predicate Inv(p: Plan, s: State) {
    && AllCausal(p) && Shape(p, s)
    && (forall j :: 0 <= j < |s.q| ==> QueueOk(p, s, j))
    && (forall j :: 0 <= j < |s.act| ==> ActorOk(p, s, j))
  }

  lemma InitialInv(p: Plan, s: State)
    requires AllCausal(p) && Initial(p, s)
    ensures Inv(p, s)
  {
  }

  lemma {:induction false} FlatSnoc(cs: seq<Chunk>, c: Chunk)
    ensures Flat(cs + [c]) == Flat(cs) + c
  {
    if cs == [] {
      assert [c][1..] == [];
    } else {
      assert (cs + [c])[1..] == cs[1..] + [c];
      FlatSnoc(cs[1..], c);
    }
  }

  /** At the end of its input a thread has read everything there is. */
  lemma ReadAll(p: Plan, s: State, j: nat)
    requires Inv(p, s) && 0 < j < |s.act| && s.eof[j]
    ensures s.q[j - 1].popped == s.q[j - 1].pushed == Full(p, j - 1)
  {
    assert QueueOk(p, s, j - 1) && ActorOk(p, s, j);
  }

  /** Whatever an actor has written by now belongs to what it writes in the end. */
  lemma SoFarIsPart(p: Plan, s: State, j: nat)
    requires Inv(p, s) && j < |s.q|
    ensures SoFar(p, s, j) <= Full(p, j)
    ensures j == 0 || s.eof[j] ==> SoFar(p, s, j) == Output(p, s, j) == Full(p, j)
  {
    if j > 0 {
      assert QueueOk(p, s, j - 1);
      if s.eof[j] {
        ReadAll(p, s, j);
      } else {
        assert Causal(p.method_[j - 1]);
      }
    } else {
      assert ActorOk(p, s, 0);
    }
  }

  /** What the step of actor j does not touch. */
  predicate OthersKept(s: State, t: State, j: nat) {
    && |t.q| == |s.q| && |t.act| == |s.act| == |s.eof| == |t.eof|
    && (forall i :: 0 <= i < |s.act| && i != j ==> t.act[i] == s.act[i] && t.eof[i] == s.eof[i])
    && (forall i :: 0 <= i < |s.q| && i != j && i + 1 != j ==> t.q[i] == s.q[i])
    && (j < |s.q| && j < |t.q| ==> t.q[j].popped == s.q[j].popped)
    && (0 < j <= |s.q| ==> t.q[j - 1].pushed == s.q[j - 1].pushed && t.q[j - 1].closed == s.q[j - 1].closed)
  }

  lemma StepKeepsOthers(p: Plan, s: State, t: State, j: nat)
    requires Step(p, s, t, j)
    ensures OthersKept(s, t, j)
  {
    hide Full, Output, SoFar;
  }

  /** The queues and the state of the actor that moves. */
  lemma MoverOk(p: Plan, s: State, t: State, j: nat)
    requires Inv(p, s) && Step(p, s, t, j)
    ensures ActorOk(p, t, j) && (j < |t.q| ==> QueueOk(p, t, j)) && (j > 0 ==> QueueOk(p, t, j - 1))
    ensures j > 0 && s.eof[j - 1] ==> t.eof[j - 1]
  {
    assert ActorOk(p, s, j);
    if j < |s.q| {
      assert QueueOk(p, s, j);
      SoFarIsPart(p, s, j);
      if s.act[j].WantPush? {
        FlatSnoc(s.q[j].contents, s.act[j].c);
      }
    }
    if j > 0 {
      assert QueueOk(p, s, j - 1);
      if s.eof[j] {
        ReadAll(p, s, j);
      }
    }
  }

  lemma StepInv(p: Plan, s: State, t: State, j: nat)
    requires Inv(p, s) && Step(p, s, t, j)
    ensures Inv(p, t)
  {
    StepKeepsOthers(p, s, t, j);
    MoverOk(p, s, t, j);
    hide Flat, Full, Step;
    forall i | 0 <= i < |t.q|
      ensures QueueOk(p, t, i)
    {
      assert QueueOk(p, s, i);
    }
    forall i | 0 <= i < |t.act|
      ensures ActorOk(p, t, i)
    {
      assert ActorOk(p, s, i);
      if i + 1 == j {
        assert i < |s.q| && QueueOk(p, s, i);
      } else if i == j + 1 {
        assert QueueOk(p, s, j) && QueueOk(p, t, j);
      }
    }
  }

  ghost predicate Steps(p: Plan, s: State, t: State) {
    exists j: nat :: Step(p, s, t, j)
  }

  /** A run: any interleaving of the threads from the start. */
  ghost predicate IsRun(p: Plan, run: seq<State>) {
    AllCausal(p) && run != [] && Initial(p, run[0]) && forall k :: 0 <= k < |run| - 1 ==> Steps(p, run[k], run[k + 1])
  }

  lemma {:induction false} RunInv(p: Plan, run: seq<State>, k: nat)
    requires IsRun(p, run) && k < |run|
    ensures Inv(p, run[k])
  {
    if k == 0 {
      InitialInv(p, run[0]);
    } else {
      RunInv(p, run, k - 1);
      assert Steps(p, run[k - 1], run[k - 1 + 1]);
      var j: nat :| Step(p, run[k - 1], run[k], j);
      StepInv(p, run[k - 1], run[k], j);
    }
  }

  /** A queue delivers what was pushed, in order, without loss or repetition, and holds at most six buffers. */
  lemma Delivers(p: Plan, run: seq<State>, k: nat, j: nat)
    requires IsRun(p, run) && k < |run| && j < |run[k].q|
    ensures run[k].q[j].pushed == run[k].q[j].popped + Flat(run[k].q[j].contents)
    ensures |run[k].q[j].contents| <= RING_SLOTS
  {
    RunInv(p, run, k);
    assert QueueOk(p, run[k], j);
  }

  /** A thread sees the end of its input only when its predecessor has finished and everything has been read. */
  lemma EndMeansAll(p: Plan, run: seq<State>, k: nat, j: nat)
    requires IsRun(p, run) && k < |run| && 0 < j < |run[k].act| && j < |run[k].eof| && run[k].eof[j]
    ensures Shape(p, run[k]) && run[k].act[j - 1].Finished?
    ensures run[k].q[j - 1].popped == run[k].q[j - 1].pushed == Full(p, j - 1)
  {
    RunInv(p, run, k);
    ReadAll(p, run[k], j);
    assert ActorOk(p, run[k], j) && QueueOk(p, run[k], j - 1);
  }

  // ------------------------------------------------------------------ every run ends

  /** What actor j still has to do. */
  function Work(p: Plan, s: State, j: nat): nat
    requires Inv(p, s) && j < |s.act|
  {
    assert j > 0 ==> QueueOk(p, s, j - 1);
    assert j < |s.q| ==> QueueOk(p, s, j);
    (if s.act[j] == Idle then 1 else 0) + (if s.eof[j] then 0 else 2)
    + (if j < |s.q| then 2 * (|Full(p, j)| - |s.q[j].pushed|) else 0)
    + (if j > 0 then 2 * (|Full(p, j - 1)| - |s.q[j - 1].popped|) else 0)
  }

  function Measure(p: Plan, s: State, n: nat): nat
    requires Inv(p, s) && n <= |s.act|
  {
    if n == 0 then 0 else Measure(p, s, n - 1) + Work(p, s, n - 1)
  }

  lemma WorkShrinks(p: Plan, s: State, t: State, j: nat)
    requires Inv(p, s) && Inv(p, t) && Step(p, s, t, j)
    ensures j < |s.act| && Work(p, t, j) < Work(p, s, j)
  {
    assert ActorOk(p, s, j);
    assert j > 0 ==> QueueOk(p, s, j - 1);
    assert j < |s.q| ==> QueueOk(p, s, j);
    hide Full, Output, SoFar, Inv;
  }

  lemma {:induction false} MeasureKept(p: Plan, s: State, t: State, j: nat, n: nat)
    requires Inv(p, s) && Inv(p, t) && Step(p, s, t, j) && n <= |s.act|
    ensures Measure(p, t, n) + (if j < n then 1 else 0) <= Measure(p, s, n)
  {
    StepKeepsOthers(p, s, t, j);
    hide Step, Inv, Full;
    if n > 0 {
      MeasureKept(p, s, t, j, n - 1);
      if j == n - 1 {
        WorkShrinks(p, s, t, j);
      }
    }
  }

  /** No run is longer than the work there is. */
  lemma {:induction false} RunEnds(p: Plan, run: seq<State>, k: nat)
    requires IsRun(p, run) && k < |run|
    ensures Inv(p, run[0]) && Inv(p, run[k])
    ensures k + Measure(p, run[k], |run[k].act|) <= Measure(p, run[0], |run[0].act|)
  {
    RunInv(p, run, 0);
    RunInv(p, run, k);
    if k > 0 {
      RunEnds(p, run, k - 1);
      assert Steps(p, run[k - 1], run[k - 1 + 1]);
      var j: nat :| Step(p, run[k - 1], run[k], j);
      assert j < |run[k - 1].act| == |run[k].act|;
      MeasureKept(p, run[k - 1], run[k], j, |run[k].act|);
    }
  }

  // ------------------------------------------------------------------ no deadlock

  predicate AllFinished(s: State) {
    forall j :: 0 <= j < |s.act| ==> s.act[j].Finished?
  }

  predicate Blocked(p: Plan, s: State, j: nat)
    requires Shape(p, s) && j < |s.act|
  {
    || (s.act[j] == WantPop && j > 0 && s.q[j - 1].contents == [] && !s.q[j - 1].closed)
    || (s.act[j].WantPush? && j < |s.q| && |s.q[j].contents| == RING_SLOTS)
  }

  /** A thread that is neither blocked nor finished can go on. */
  lemma UnblockedSteps(p: Plan, s: State, j: nat)
    requires Inv(p, s) && j < |s.act| && !s.act[j].Finished? && !Blocked(p, s, j)
    ensures exists t :: Steps(p, s, t)
  {
    assert ActorOk(p, s, j);
    assert j < |s.q| ==> QueueOk(p, s, j);
    if j < |s.q| {
      SoFarIsPart(p, s, j);
    }
    var t: State;
    match s.act[j] {
      case Idle =>
        if !s.eof[j] {
          t := s.(act := s.act[j := WantPop]);
        } else if j < |s.q| && s.q[j].pushed != Full(p, j) {
          Remaining(s.q[j].pushed, Full(p, j));
          t := s.(act := s.act[j := WantPush(Full(p, j)[|s.q[j].pushed|..])]);
          assert Choose(p, s, t, j);
        } else if j < |s.q| {
          t := s.(act := s.act[j := Finished], q := s.q[j := s.q[j].(closed := true)]);
          assert Finish(p, s, t, j);
        } else {
          t := s.(act := s.act[j := Finished]);
          assert Finish(p, s, t, j);
        }
      case WantPop =>
        var k := s.q[j - 1];
        if k.contents != [] {
          t := s.(act := s.act[j := Idle],
                  q := s.q[j - 1 := k.(contents := k.contents[1..], popped := k.popped + k.contents[0])]);
        } else {
          t := s.(act := s.act[j := Idle], eof := s.eof[j := true]);
        }
      case WantPush(c) =>
        t := s.(act := s.act[j := Idle],
                q := s.q[j := s.q[j].(contents := s.q[j].contents + [c], pushed := s.q[j].pushed + c)]);
      case Finished =>
    }
    assert Step(p, s, t, j);
    assert Steps(p, s, t);
  }

  lemma Remaining(a: seq<byte>, b: seq<byte>)
    requires a <= b && a != b
    ensures b[|a|..] != [] && a + b[|a|..] == b
  {
    assert a == b[..|a|];
  }

  /** Some thread among the first j + 1 can go on if actor j has not finished and waits for input in vain. */
  lemma {:induction false} UpstreamRuns(p: Plan, s: State, j: nat) returns (i: nat)
    requires Inv(p, s) && j < |s.q| && !s.q[j].closed && s.q[j].contents == []
    ensures i < |s.act| && !s.act[i].Finished? && !Blocked(p, s, i)
  {
    assert QueueOk(p, s, j) && ActorOk(p, s, j);
    if Blocked(p, s, j) {
      i := UpstreamRuns(p, s, j - 1);
    } else {
      i := j;
    }
  }

  lemma {:induction false} FinishedUpstream(p: Plan, s: State, j: nat, i: nat)
    requires Inv(p, s) && i <= j < |s.act| && s.act[j].Finished?
    ensures s.act[i].Finished?
    decreases j - i
  {
    if i < j {
      assert ActorOk(p, s, j) && QueueOk(p, s, j - 1);
      FinishedUpstream(p, s, j - 1, i);
    }
  }

  /** Until all threads have finished one of them can go on. */
  lemma NoDeadlock(p: Plan, run: seq<State>, k: nat)
    requires IsRun(p, run) && k < |run| && !AllFinished(run[k])
    ensures exists t :: Steps(p, run[k], t)
  {
    RunInv(p, run, k);
    var s := run[k];
    var w := |s.q|;
    assert ActorOk(p, s, w);
    if s.act[w].Finished? {
      forall i | 0 <= i < |s.act|
        ensures s.act[i].Finished?
      {
        FinishedUpstream(p, s, w, i);
      }
    } else if Blocked(p, s, w) {
      var i := UpstreamRuns(p, s, w - 1);
      UnblockedSteps(p, s, i);
    } else {
      UnblockedSteps(p, s, w);
    }
  }

  ghost predicate Stuck(p: Plan, s: State) {
    forall t :: !Steps(p, s, t)
  }

  /**
    A run that cannot go on has ended with all threads finished, and what was written to the archive is the
    composition of the methods applied to the concatenated files.
   */
  lemma Written(p: Plan, run: seq<State>)
    requires IsRun(p, run) && Stuck(p, run[|run| - 1])
    ensures Shape(p, run[|run| - 1]) && AllFinished(run[|run| - 1])
    ensures run[|run| - 1].q[|p.method_|].popped == Full(p, |p.method_|)
  {
    var k := |run| - 1;
    RunInv(p, run, k);
    if !AllFinished(run[k]) {
      NoDeadlock(p, run, k);
    }
    var w := |run[k].q|;
    assert ActorOk(p, run[k], w);
    ReadAll(p, run[k], w);
  }

  // ------------------------------------------------------------------ the read callback

  /** What a method has still to read: the rest of the current buffer and the buffers behind it. */
  function Unread(cur: seq<byte>, pos: nat, queue: seq<Chunk>): seq<byte>
    requires pos <= |cur|
  {
    cur[pos..] + Flat(queue)
  }

  /**
    The read callback: copies from as many buffers as it takes.  `queue` holds the buffers that sq_pop will
    deliver before the end.  Less than asked for comes back only at the end.
   */
  method ReadCallback(size: nat, cur0: seq<byte>, pos0: nat, queue0: seq<Chunk>)
    returns (buf: seq<byte>, cur: seq<byte>, pos: nat, queue: seq<Chunk>)
    requires pos0 <= |cur0|
    ensures pos <= |cur| && Unread(cur0, pos0, queue0) == buf + Unread(cur, pos, queue)
    ensures |buf| <= size && (|buf| < size ==> Unread(cur, pos, queue) == [])
  {
    hide Unread, Flat;
    ghost var whole := Unread(cur0, pos0, queue0);
    buf, cur, pos, queue := [], cur0, pos0, queue0;
    assert Copied(whole, buf, cur, pos, queue);
    hide Copied;
    while |buf| < size
      invariant |buf| <= size && Copied(whole, buf, cur, pos, queue)
      decreases size - |buf| + |queue|
    {
      PosInside(whole, buf, cur, pos, queue);
      if pos >= |cur| {
        if queue == [] {
          AtEnd(cur);
          break;
        }
        NextBuffer(whole, buf, cur, queue);
        cur, pos, queue := queue[0], 0, queue[1..];
      }
      var avail := |cur| - pos;
      var want := size - |buf|;
      var take := if avail < want then avail else want;
      TakeSome(whole, buf, cur, pos, queue, take);
      buf := buf + cur[pos..pos + take];
      pos := pos + take;
    }
    PosInside(whole, buf, cur, pos, queue);
  }

  ghost predicate Copied(whole: seq<byte>, buf: seq<byte>, cur: seq<byte>, pos: nat, queue: seq<Chunk>) {
    pos <= |cur| && whole == buf + Unread(cur, pos, queue)
  }

  lemma PosInside(whole: seq<byte>, buf: seq<byte>, cur: seq<byte>, pos: nat, queue: seq<Chunk>)
    requires Copied(whole, buf, cur, pos, queue)
    ensures pos <= |cur| && whole == buf + Unread(cur, pos, queue)
  {
  }

  lemma AtEnd(cur: seq<byte>)
    ensures Unread(cur, |cur|, []) == []
  {
  }

  lemma NextBuffer(whole: seq<byte>, buf: seq<byte>, cur: seq<byte>, queue: seq<Chunk>)
    requires queue != [] && Copied(whole, buf, cur, |cur|, queue)
    ensures Copied(whole, buf, queue[0], 0, queue[1..])
  {
    assert Unread(cur, |cur|, queue) == Unread(queue[0], 0, queue[1..]);
  }

  lemma TakeSome(whole: seq<byte>, buf: seq<byte>, cur: seq<byte>, pos: nat, queue: seq<Chunk>, take: nat)
    requires pos + take <= |cur| && Copied(whole, buf, cur, pos, queue)
    ensures Copied(whole, buf + cur[pos..pos + take], cur, pos + take, queue)
  {
    hide Flat;
    assert cur[pos..] == cur[pos..pos + take] + cur[pos + take..];
    var a, b, f := cur[pos..pos + take], cur[pos + take..], Flat(queue);
    assert buf + ((a + b) + f) == (buf + a) + (b + f);
  }
}
