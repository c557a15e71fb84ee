/**
  DisPack.cpp: where the filter cuts the code, as a function of the code and its origin alone: jump tables
  first, then instructions, escapes for what is neither, and at the end what would read too far.
 */
module DisPackCut {
  import opened Bytes
  import opened DisPackCode
  import opened DisPackUnits
  import opened DisPackStreams

  // ------------------------------------------------------------------ jump tables

  predicate InCode(v: nat, start: nat, end: nat) {
    start <= v < end
  }

  /** How many of the n words of w from the j-th on are addresses inside the code, up to the first that is not. */
  function Run(w: seq<byte>, j: nat, n: nat, start: nat, end: nat): (r: nat)
    requires j <= n && 4 * n <= |w|
    ensures r <= n - j
    decreases n - j
  {
    if j < n && InCode(Word(w[4 * j..4 * j + 4]), start, end) then Run(w, j + 1, n, start, end) + 1 else 0
  }

  /** Fewer than three entries are no jump table. */
  function Jumps(w: seq<byte>, n: nat, start: nat, end: nat): (r: nat)
    requires 4 * n <= |w|
    ensures r <= n
  {
    if Run(w, 0, n, start, end) < 3 then 0 else Run(w, 0, n, start, end)
  }

  /** The words of w from the j-th on. */
  function Words(w: seq<byte>, j: nat, n: nat): (ts: seq<nat>)
    requires 4 * (j + n) <= |w|
    ensures |ts| == n
    decreases n
  {
    if n == 0 then [] else [Word(w[4 * j..4 * j + 4])] + Words(w, j + 1, n - 1)
  }

  lemma {:induction false} WordsBytes(w: seq<byte>, j: nat, n: nat)
    requires 4 * (j + n) <= |w|
    ensures Littles(Words(w, j, n)) == w[4 * j..4 * (j + n)]
    ensures forall i :: 0 <= i < n ==> Words(w, j, n)[i] < 0x1_0000_0000
    decreases n
  {
    hide Word;
    if n > 0 {
      WordBound(w[4 * j..4 * j + 4]);
      WordsBytes(w, j + 1, n - 1);
      assert Words(w, j, n)[1..] == Words(w, j + 1, n - 1);
      assert w[4 * j..4 * (j + n)] == w[4 * j..4 * j + 4] + w[4 * (j + 1)..4 * (j + n)];
    }
  }

  lemma {:induction false} WordsSnoc(w: seq<byte>, j: nat, n: nat)
    requires 4 * (j + n + 1) <= |w|
    ensures Words(w, j, n + 1) == Words(w, j, n) + [Word(w[4 * (j + n)..4 * (j + n) + 4])]
    decreases n
  {
    hide Word;
    if n > 0 {
      WordsSnoc(w, j + 1, n - 1);
    }
  }

  function GroupSize(n: nat): nat {
    if n < 256 then n else 256
  }

  /** n entries of a jump table from the j-th on, in groups of at most 256. */
  function Groups(w: seq<byte>, j: nat, n: nat): (us: seq<Unit>)
    requires 4 * (j + n) <= |w|
    decreases n
  {
    if n == 0 then [] else [Group(Words(w, j, GroupSize(n)))] + Groups(w, j + GroupSize(n), n - GroupSize(n))
  }

  lemma GroupsNext(w: seq<byte>, j: nat, n: nat, us: seq<Unit>, all: seq<Unit>)
    requires n > 0 && 4 * (j + n) <= |w| && us + Groups(w, j, n) == all
    ensures (us + [Group(Words(w, j, GroupSize(n)))]) + Groups(w, j + GroupSize(n), n - GroupSize(n)) == all
  {
    hide Words;
  }

  lemma NoGroups(w: seq<byte>, j: nat, us: seq<Unit>)
    requires 4 * j <= |w|
    ensures us + Groups(w, j, 0) == us
  {
  }

  // ------------------------------------------------------------------ one step

  /** What a step makes of the window w, of which n words belong to the code. */
  function StepUnits(w: seq<byte>, n: nat, start: nat, end: nat): seq<Unit>
    requires 4 * n <= |w| && w != []
  {
    if Jumps(w, n, start, end) > 0 then Groups(w, 0, Jumps(w, n, start, end))
    else if FlagsOf(w) != E then [Code(w)]
    else [Escaped(w[0])]
  }

  function StepSize(w: seq<byte>, n: nat, start: nat, end: nat): (size: nat)
    requires 4 * n <= |w|
    ensures 1 <= size <= MAX_INSTR || (size == 4 * Jumps(w, n, start, end))
    ensures size >= 1
  {
    SizeBound(w);
    if Jumps(w, n, start, end) > 0 then 4 * Jumps(w, n, start, end)
    else if FlagsOf(w) != E then Size(w)
    else 1
  }

  // ------------------------------------------------------------------ the whole code

  /** The bytes a step at pos sees: the rest of the code, in the last bytes filled up with zeros. */
  function Window(x: seq<byte>, pos: nat): (w: seq<byte>)
    requires pos <= |x|
    ensures |w| >= MAX_INSTR && x[pos..] <= w
  {
    x[pos..] + if |x| - pos < MAX_INSTR then Repeat(0, MAX_INSTR - (|x| - pos)) else []
  }

  function JumpsAt(x: seq<byte>, pos: nat, origin: nat): (n: nat)
    requires pos <= |x|
    ensures 4 * n <= |x| - pos
  {
    Jumps(Window(x, pos), (|x| - pos) / 4, origin, origin + |x|)
  }

  function UnitsAt(x: seq<byte>, pos: nat, origin: nat): seq<Unit>
    requires pos < |x|
  {
    StepUnits(Window(x, pos), (|x| - pos) / 4, origin, origin + |x|)
  }

  function SizeAt(x: seq<byte>, pos: nat, origin: nat): (size: nat)
    requires pos < |x|
    ensures 1 <= size && (size <= MAX_INSTR || pos + size <= |x|)
  {
    StepSize(Window(x, pos), (|x| - pos) / 4, origin, origin + |x|)
  }

  /** The first position reached from pos at which the next step would read past the end, or the end. */
  function Stop(x: seq<byte>, pos: nat, origin: nat): (stop: nat)
    requires pos <= |x|
    ensures pos <= stop <= |x|
    decreases |x| - pos
  {
    if pos == |x| || pos + SizeAt(x, pos, origin) > |x| then pos else Stop(x, pos + SizeAt(x, pos, origin), origin)
  }

  /** The units of all steps before that. */
  function Cut(x: seq<byte>, pos: nat, origin: nat): seq<Unit>
    requires pos <= |x|
    decreases |x| - pos
  {
    if pos == |x| || pos + SizeAt(x, pos, origin) > |x| then []
    else UnitsAt(x, pos, origin) + Cut(x, pos + SizeAt(x, pos, origin), origin)
  }

  function Escapes(bytes: seq<byte>): (us: seq<Unit>)
    ensures |us| == |bytes|
  {
    seq(|bytes|, i requires 0 <= i < |bytes| => Escaped(bytes[i]))
  }

  /** All units of the code. */
  function AllUnits(x: seq<byte>, origin: nat): seq<Unit> {
    Cut(x, 0, origin) + Escapes(x[Stop(x, 0, origin)..])
  }

  /** The steps from the start to pos make the units `us`. */
  ghost predicate Reached(us: seq<Unit>, x: seq<byte>, pos: nat, origin: nat)
    requires pos <= |x|
  {
    us + Cut(x, pos, origin) == Cut(x, 0, origin) && Stop(x, pos, origin) == Stop(x, 0, origin)
  }

  lemma CutNext(us: seq<Unit>, x: seq<byte>, pos: nat, origin: nat)
    requires pos < |x| && Reached(us, x, pos, origin)
    ensures
      var next := pos + SizeAt(x, pos, origin);
      if next > |x| then AllUnits(x, origin) == us + Escapes(x[pos..])
      else
        Reached(us + UnitsAt(x, pos, origin), x, next, origin)
  {
    hide UnitsAt, SizeAt;
    var next := pos + SizeAt(x, pos, origin);
    if next <= |x| {
      assert us + (UnitsAt(x, pos, origin) + Cut(x, next, origin)) == us + UnitsAt(x, pos, origin) + Cut(x, next, origin);
    }
  }

  lemma WholeWindow(x: seq<byte>, pos: nat)
    requires pos + MAX_INSTR <= |x|
    ensures Window(x, pos) == x[pos..]
  {
  }

  /** Only what could be an instruction longer than the rest is left to escapes, never more than 14 bytes. */
  lemma {:induction false} StopReason(x: seq<byte>, pos: nat, origin: nat)
    requires pos <= |x|
    ensures
      var stop := Stop(x, pos, origin);
      stop == |x|
      || (JumpsAt(x, stop, origin) == 0 && FlagsOf(Window(x, stop)) != E
          && |x| - stop < Size(Window(x, stop)) <= MAX_INSTR)
    decreases |x| - pos
  {
    hide Jumps, FlagsOf, Size, Window;
    if pos < |x| {
      SizeBound(Window(x, pos));
      if pos + SizeAt(x, pos, origin) <= |x| {
        StopReason(x, pos + SizeAt(x, pos, origin), origin);
      }
    }
  }

  // ------------------------------------------------------------------ what stands where

  /** How many addresses inside the code stand one behind the other at pos. */
  function RunAt(x: seq<byte>, pos: nat, origin: nat): (n: nat)
    requires pos <= |x|
    ensures 4 * n <= |x| - pos
  {
    Run(Window(x, pos), 0, (|x| - pos) / 4, origin, origin + |x|)
  }

  function Length(u: Unit): nat {
    match u
    case Group(ts) => 4 * |ts|
    case Code(w) => Size(w)
    case Escaped(_) => 1
  }

  /**
    Three addresses or more are always a group of entries; fewer can only be the rest of a longer table.
    Otherwise a valid opcode makes an instruction and only an invalid one an escape.
   */
  ghost predicate Stands(u: Unit, x: seq<byte>, pos: nat, origin: nat) {
    && pos < |x| && pos + Length(u) <= |x|
    && (RunAt(x, pos, origin) >= 3 ==> u.Group?)
    && match u
       case Group(ts) =>
         RunAt(x, pos, origin) > 0 && ts == Words(Window(x, pos), 0, GroupSize(RunAt(x, pos, origin)))
       case Code(w) => w == Window(x, pos) && FlagsOf(w) != E
       case Escaped(b) => b == x[pos] && FlagsOf(Window(x, pos)) == E
  }

  /** The units stand one behind the other from pos to stop. */
  ghost predicate AllStand(us: seq<Unit>, x: seq<byte>, pos: nat, stop: nat, origin: nat)
    decreases |us|
  {
    if us == [] then pos == stop
    else Stands(us[0], x, pos, origin) && AllStand(us[1..], x, pos + Length(us[0]), stop, origin)
  }

  lemma FirstWord(w: seq<byte>, j: nat, n: nat)
    requires j < n && 4 * n <= |w|
    ensures w[4 * j..4 * n][..4] == w[4 * j..4 * j + 4] && w[4 * j..4 * n][4..] == w[4 * (j + 1)..4 * n]
  {
  }

  lemma {:induction false} RunSame(w: seq<byte>, j: nat, n: nat, v: seq<byte>, i: nat, m: nat, start: nat, end: nat)
    requires j <= n && 4 * n <= |w| && i <= m && 4 * m <= |v| && n - j == m - i
    requires w[4 * j..4 * n] == v[4 * i..4 * m]
    ensures Run(w, j, n, start, end) == Run(v, i, m, start, end)
    decreases n - j
  {
    hide Word;
    if j < n {
      FirstWord(w, j, n);
      FirstWord(v, i, m);
      RunSame(w, j + 1, n, v, i + 1, m, start, end);
    }
  }

  lemma {:induction false} RunRest(w: seq<byte>, i: nat, j: nat, n: nat, start: nat, end: nat)
    requires i <= j <= n && 4 * n <= |w| && j <= i + Run(w, i, n, start, end)
    ensures Run(w, i, n, start, end) == j - i + Run(w, j, n, start, end)
    decreases j - i
  {
    hide Word;
    if i < j {
      RunRest(w, i + 1, j, n, start, end);
    }
  }

  lemma {:induction false} WordsSame(w: seq<byte>, j: nat, v: seq<byte>, i: nat, n: nat)
    requires 4 * (j + n) <= |w| && 4 * (i + n) <= |v| && w[4 * j..4 * (j + n)] == v[4 * i..4 * (i + n)]
    ensures Words(w, j, n) == Words(v, i, n)
    decreases n
  {
    hide Word;
    if n > 0 {
      FirstWord(w, j, j + n);
      FirstWord(v, i, i + n);
      WordsSame(w, j + 1, v, i + 1, n - 1);
    }
  }

  /** A table goes on the same way j entries further. */
  lemma TableGoesOn(x: seq<byte>, pos: nat, j: nat, n: nat, origin: nat)
    requires pos <= |x| && j + n <= RunAt(x, pos, origin)
    ensures RunAt(x, pos + 4 * j, origin) == RunAt(x, pos, origin) - j
    ensures Words(Window(x, pos), j, n) == Words(Window(x, pos + 4 * j), 0, n)
  {
    hide Run, Words, Window;
    var w, v := Window(x, pos), Window(x, pos + 4 * j);
    var all := (|x| - pos) / 4;
    assert all - j == (|x| - (pos + 4 * j)) / 4;
    SameBytes(x, pos, j, all);
    RunRest(w, 0, j, all, origin, origin + |x|);
    RunSame(w, j, all, v, 0, all - j, origin, origin + |x|);
    SameBytes(x, pos, j, j + n);
    WordsSame(w, j, v, 0, n);
  }

  lemma SameBytes(x: seq<byte>, pos: nat, j: nat, n: nat)
    requires pos <= |x| && j <= n && 4 * n <= |x| - pos
    ensures Window(x, pos)[4 * j..4 * n] == Window(x, pos + 4 * j)[..4 * (n - j)]
  {
    assert Window(x, pos)[4 * j..4 * n] == x[pos + 4 * j..pos + 4 * n];
    assert Window(x, pos + 4 * j)[..4 * (n - j)] == x[pos + 4 * j..pos + 4 * n];
  }

  lemma GroupStands(x: seq<byte>, pos: nat, j: nat, n: nat, origin: nat) returns (u: Unit)
    requires pos <= |x| && n > 0 && j + n == RunAt(x, pos, origin)
    ensures u == Group(Words(Window(x, pos), j, GroupSize(n))) && Length(u) == 4 * GroupSize(n)
    ensures Stands(u, x, pos + 4 * j, origin)
  {
    hide Words, Window, RunAt, FlagsOf, Size;
    TableGoesOn(x, pos, j, GroupSize(n), origin);
    u := Group(Words(Window(x, pos), j, GroupSize(n)));
  }

  lemma StandBehind(u: Unit, us: seq<Unit>, x: seq<byte>, pos: nat, stop: nat, origin: nat)
    requires Stands(u, x, pos, origin) && AllStand(us, x, pos + Length(u), stop, origin)
    ensures AllStand([u] + us, x, pos, stop, origin)
  {
    hide Stands, Length;
    assert ([u] + us)[1..] == us;
  }

  lemma {:induction false} GroupsStand(x: seq<byte>, pos: nat, j: nat, n: nat, origin: nat, rest: seq<Unit>, stop: nat)
    requires pos <= |x| && j + n == RunAt(x, pos, origin) && AllStand(rest, x, pos + 4 * (j + n), stop, origin)
    ensures AllStand(Groups(Window(x, pos), j, n) + rest, x, pos + 4 * j, stop, origin)
    decreases n
  {
    hide Words, Window, RunAt, Stands, AllStand, Length;
    var us := Groups(Window(x, pos), j, n);
    if n == 0 {
      assert us + rest == rest;
    } else {
      var c := GroupSize(n);
      var more := Groups(Window(x, pos), j + c, n - c);
      GroupsStand(x, pos, j + c, n - c, origin, rest, stop);
      var u := GroupStands(x, pos, j, n, origin);
      StandBehind(u, more + rest, x, pos + 4 * j, stop, origin);
      assert us + rest == [u] + (more + rest);
    }
  }

  /** Every unit before the stop stands where it should, and the next one would read past the end. */
  lemma {:induction false} CutStands(x: seq<byte>, pos: nat, origin: nat)
    requires pos <= |x|
    ensures AllStand(Cut(x, pos, origin), x, pos, Stop(x, pos, origin), origin)
    decreases |x| - pos
  {
    hide Run, Words, Window, FlagsOf, Size;
    if pos < |x| && pos + SizeAt(x, pos, origin) <= |x| {
      var next := pos + SizeAt(x, pos, origin);
      CutStands(x, next, origin);
      var units, rest := UnitsAt(x, pos, origin), Cut(x, next, origin);
      if JumpsAt(x, pos, origin) > 0 {
        GroupsStand(x, pos, 0, RunAt(x, pos, origin), origin, rest, Stop(x, pos, origin));
      } else {
        FirstOfWindow(x, pos);
        StandBehind(units[0], rest, x, pos, Stop(x, pos, origin), origin);
      }
    }
  }

  /** Units that stand one behind the other are legal and spell the code. */
  lemma {:induction false} StandCover(us: seq<Unit>, x: seq<byte>, pos: nat, stop: nat, origin: nat)
    requires AllStand(us, x, pos, stop, origin) && pos <= stop <= |x|
    ensures AllLegal(us) && AllBytes(us) == x[pos..stop]
    decreases |us|
  {
    hide Stands, UnitBytes, Legal;
    if us != [] {
      var next := pos + Length(us[0]);
      UnitSpells(us[0], x, pos, origin);
      StandForward(us[1..], x, next, stop, origin);
      StandCover(us[1..], x, next, stop, origin);
      assert x[pos..stop] == x[pos..next] + x[next..stop];
    }
  }

  lemma {:induction false} StandForward(us: seq<Unit>, x: seq<byte>, pos: nat, stop: nat, origin: nat)
    requires AllStand(us, x, pos, stop, origin)
    ensures pos <= stop
    decreases |us|
  {
    hide Stands, Length;
    if us != [] {
      StandForward(us[1..], x, pos + Length(us[0]), stop, origin);
    }
  }

  lemma UnitSpells(u: Unit, x: seq<byte>, pos: nat, origin: nat)
    requires Stands(u, x, pos, origin)
    ensures Legal(u) && UnitBytes(u) == x[pos..pos + Length(u)]
  {
    hide FlagsOf, Size, Words, Run, Littles;
    var w := Window(x, pos);
    assert w[..Length(u)] == x[pos..pos + Length(u)];
    if u.Group? {
      WordsBytes(w, 0, GroupSize(RunAt(x, pos, origin)));
    } else {
      FirstOfWindow(x, pos);
    }
  }

  lemma FirstOfWindow(x: seq<byte>, pos: nat)
    requires pos < |x|
    ensures Window(x, pos)[0] == x[pos]
  {
  }

  // ------------------------------------------------------------------ code without tables, calls and errors

  /** No table starts here, the opcode is valid, and it is no near call. */
  ghost predicate PlainAt(x: seq<byte>, pos: nat, origin: nat)
    requires pos < |x|
  {
    JumpsAt(x, pos, origin) == 0 && FlagsOf(Window(x, pos)) != E && Kept(Code(Window(x, pos)))
  }

  lemma {:induction false} PlainCut(x: seq<byte>, pos: nat, origin: nat)
    requires pos <= |x| && forall p :: pos <= p < |x| ==> PlainAt(x, p, origin)
    ensures forall i :: 0 <= i < |Cut(x, pos, origin)| ==> Kept(Cut(x, pos, origin)[i])
    decreases |x| - pos
  {
    hide Jumps, Window, FlagsOf, Kept, Size;
    if pos < |x| {
      assert PlainAt(x, pos, origin);
      if pos + SizeAt(x, pos, origin) <= |x| {
        PlainCut(x, pos + SizeAt(x, pos, origin), origin);
      }
    }
  }

  /** Plain code that ends with an instruction is as long behind the 76 bytes of sizes as it was. */
  lemma PlainSize(x: seq<byte>, origin: nat)
    requires Stop(x, 0, origin) == |x| && forall p :: 0 <= p < |x| ==> PlainAt(x, p, origin)
    ensures AllLegal(AllUnits(x, origin))
    ensures |Flushed(AllItems(AllUnits(x, origin), origin, Start()))| == 4 * ST_MAX + |x|
  {
    hide Cut, Stop, Kept, PlainAt, Flushed, AllItems, AllBytes, AllLegal, Start, AllStand;
    PlainCut(x, 0, origin);
    assert AllUnits(x, origin) == Cut(x, 0, origin);
    CutStands(x, 0, origin);
    StandCover(Cut(x, 0, origin), x, 0, |x|, origin);
    assert x[0..|x|] == x;
    KeptSize(AllUnits(x, origin), origin);
  }

  const NOP: byte := 0x90

  /** For example padding, as long as its own words are no addresses inside it. */
  lemma PaddingIsPlain(x: seq<byte>, origin: nat)
    requires origin + |x| <= 0x9090_9090 && forall i :: 0 <= i < |x| ==> x[i] == NOP
    ensures Stop(x, 0, origin) == |x| && forall p :: 0 <= p < |x| ==> PlainAt(x, p, origin)
  {
    hide Stop, PlainAt;
    forall p | 0 <= p < |x|
      ensures PlainAt(x, p, origin)
    {
      PaddingAt(x, p, origin);
    }
    PaddingStop(x, 0, origin);
  }

  lemma PaddingAt(x: seq<byte>, pos: nat, origin: nat)
    requires pos < |x| && origin + |x| <= 0x9090_9090 && forall i :: 0 <= i < |x| ==> x[i] == NOP
    ensures PlainAt(x, pos, origin) && SizeAt(x, pos, origin) == 1
  {
    var w := Window(x, pos);
    assert w[0] == NOP;
    assert Table1(NOP) == N && HeadOf(w) == Head(false, NOP, 0, 1);
    assert Fields(w) == [Field(ST_OP, 1)];
    if (|x| - pos) / 4 > 0 {
      assert w[0..4] == [NOP, NOP, NOP, NOP];
      PaddingWord();
    }
  }

  lemma PaddingWord()
    ensures Word([NOP, NOP, NOP, NOP]) == 0x9090_9090
  {
    var s := Reversed([NOP, NOP, NOP, NOP]);
    assert s == [NOP, NOP, NOP, NOP];
    assert [NOP][..0] == [] && [NOP, NOP][..1] == [NOP] && [NOP, NOP, NOP][..2] == [NOP, NOP];
    assert s[..3] == [NOP, NOP, NOP];
    assert Num([NOP]) == 0x90;
    assert Num([NOP, NOP]) == 0x9090;
    assert Num([NOP, NOP, NOP]) == 0x90_9090;
    assert Num(s) == 0x9090_9090;
  }

  lemma {:induction false} PaddingStop(x: seq<byte>, pos: nat, origin: nat)
    requires pos <= |x| && origin + |x| <= 0x9090_9090 && forall i :: 0 <= i < |x| ==> x[i] == NOP
    ensures Stop(x, pos, origin) == |x|
    decreases |x| - pos
  {
    hide SizeAt, PlainAt;
    if pos < |x| {
      PaddingAt(x, pos, origin);
      PaddingStop(x, pos + 1, origin);
    }
  }
}
