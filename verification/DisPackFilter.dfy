/** DisPack.cpp: the filter, which splits code into 19 streams. */
module DisPackFilter {
  import opened Bytes
  import opened DisPackCode
  import opened DisPackUnits
  import opened DisPackStreams
  import opened DisPackCut

  // ------------------------------------------------------------------ move to front

  /** The table with the entries from p to pos - 1 moved up by one. */
  function Opened(was: seq<nat>, p: nat, pos: nat): (r: seq<nat>)
    requires p <= pos < |was|
    ensures |r| == |was|
  {
    was[..p + 1] + was[p..pos] + was[pos + 1..]
  }

  lemma OpenedStep(was: seq<nat>, p: nat, pos: nat)
    requires 0 < p <= pos < |was|
    ensures Opened(was, p, pos)[p := Opened(was, p, pos)[p - 1]] == Opened(was, p - 1, pos)
  {
  }

  lemma OpenedEnd(was: seq<nat>, pos: nat, val: nat)
    requires pos < |was|
    ensures Opened(was, 0, pos)[0 := val] == Front(was, pos, val)
  {
  }

  /** MoveToFront: drops the entry at pos and puts val in front. */
  method MoveToFront(table: array<nat>, pos: nat, val: nat)
    requires pos < table.Length
    modifies table
    ensures table[..] == Front(old(table[..]), pos, val)
  {
    ghost var was := table[..];
    var p: nat := pos;
    assert was == Opened(was, pos, pos);
    hide Opened;
    while p > 0
      invariant p <= pos && table[..] == Opened(was, p, pos)
    {
      OpenedStep(was, p, pos);
      table[p] := table[p - 1];
      p := p - 1;
    }
    OpenedEnd(was, pos, val);
    table[0] := val;
  }

  method FindMTF(table: array<nat>, val: nat) returns (ind: int)
    requires table.Length == 256
    modifies table
    ensures ind == Find(old(table[..]), val, 0)
    ensures table[..] == FrontOf(old(table[..]), val)
  {
    hide Front;
    for i := 0 to 255
      invariant table[..] == old(table[..])
      invariant Find(old(table[..]), val, 0) == Find(old(table[..]), val, i)
    {
      if table[i] == val {
        MoveToFront(table, i, val);
        return i;
      }
    }
    MoveToFront(table, 255, val);
    return -1;
  }

  // ------------------------------------------------------------------ targets of a table

  lemma {:induction false} TargetsSnoc(table: seq<nat>, ts: seq<nat>, t: nat)
    requires |table| == 256
    ensures TargetsItems(table, ts + [t]) == TargetsItems(table, ts) + TargetItems(TargetsTable(table, ts), t)
    ensures TargetsTable(table, ts + [t]) == FrontOf(TargetsTable(table, ts), t)
    decreases |ts|
  {
    hide FrontOf, TargetItems;
    if ts == [] {
      assert [t][1..] == [];
    } else {
      assert (ts + [t])[1..] == ts[1..] + [t];
      TargetsSnoc(FrontOf(table, ts[0]), ts[1..], t);
    }
  }

  lemma NoWords(w: seq<byte>, j: nat, table: seq<nat>)
    requires 4 * j <= |w| && |table| == 256
    ensures Words(w, j, 0) == [] && TargetsItems(table, []) == [] && TargetsTable(table, []) == table
  {
  }

  // ------------------------------------------------------------------ the filter

  class DisFilterCtx {
    var buffer: seq<seq<byte>>
    const funcTable: array<nat>
    var nextIsFunc: bool
    const codeStart: nat
    const codeEnd: nat
    ghost var items: seq<Item>

    ghost predicate Valid()
      reads this`buffer, this`items
    {
      && |buffer| == ST_MAX && funcTable.Length == 256
      && forall k :: 0 <= k < ST_MAX ==> buffer[k] == Project(items, k)
    }

    ghost function State(): (st: St)
      reads this, funcTable
    {
      St(funcTable[..], nextIsFunc)
    }

    constructor (codeStart: nat, codeEnd: nat)
      ensures Valid() && items == [] && State() == Start() && fresh(funcTable)
      ensures this.codeStart == codeStart && this.codeEnd == codeEnd
    {
      buffer := seq(ST_MAX, _ => []);
      funcTable := new nat[256](_ => 0);
      nextIsFunc := true;
      this.codeStart := codeStart;
      this.codeEnd := codeEnd;
      items := [];
      new;
      assert funcTable[..] == Repeat(0, 256);
    }

    /** Put8, Put16 and Put32. */
    method Put(stream: nat, data: seq<byte>)
      requires Valid() && stream < ST_MAX
      modifies this`buffer, this`items
      ensures Valid() && items == old(items) + [Item(stream, data)]
    {
      var item := Item(stream, data);
      forall k: nat | k < ST_MAX
        ensures Project(items + [item], k) == Project(items, k) + if k == stream then data else []
      {
        ProjectAppend(items, [item], k);
        ProjectHead([item], k);
      }
      buffer := buffer[stream := buffer[stream] + data];
      items := items + [item];
    }

    /** Copy8, Copy16 and Copy32: fetched least significant byte first, stored most significant byte first. */
    method Copy(stream: nat, w: seq<byte>, at: nat, width: nat)
      requires Valid() && stream < ST_MAX && at + width <= |w|
      modifies this`buffer, this`items
      ensures Valid() && items == old(items) + [Item(stream, Reversed(w[at..at + width]))]
    {
      BigEndianNum(Reversed(w[at..at + width]));
      Put(stream, BigEndian(Num(Reversed(w[at..at + width])), width));
    }

    method PutTarget(target: nat)
      requires Valid()
      modifies this`buffer, this`items, funcTable
      ensures Valid() && items == old(items) + TargetItems(old(funcTable[..]), target)
      ensures funcTable[..] == FrontOf(old(funcTable[..]), target)
    {
      hide FrontOf, Project;
      var ind := FindMTF(funcTable, target);
      Put(ST_CALL_IDX, [ind + 1]);
      if ind == -1 {
        Put(ST_CALL32, BigEndian(target, 4));
      }
    }

    method DetectJumpTable(w: seq<byte>, addr: nat) returns (count: nat)
      requires addr < codeEnd && 4 * ((codeEnd - addr) / 4) <= |w|
      ensures count == Jumps(w, (codeEnd - addr) / 4, codeStart, codeEnd)
    {
      var nMax := (codeEnd - addr) / 4;
      count := 0;
      while count < nMax
        invariant count <= nMax
        invariant Run(w, 0, nMax, codeStart, codeEnd) == count + Run(w, count, nMax, codeStart, codeEnd)
      {
        var codedAddr := Word(w[4 * count..4 * count + 4]);
        if codeStart <= codedAddr < codeEnd {
          count := count + 1;
        } else {
          break;
        }
      }
      if count < 3 {
        count := 0;
      }
    }

    /** One group of at most 256 entries of a jump table, from the j-th on. */
    method PutGroup(w: seq<byte>, j: nat, count: nat, memory: nat) returns (ghost u: Unit)
      requires Valid() && 1 <= count <= 256 && 4 * (j + count) <= |w|
      modifies this`buffer, this`items, funcTable
      ensures Valid() && u == Group(Words(w, j, count)) && Legal(u) && UnitBytes(u) == w[4 * j..4 * (j + count)]
      ensures items == old(items) + UnitItems(u, memory, old(State())) && State() == UnitNext(u, memory, old(State()))
    {
      hide FrontOf, TargetItems, TargetsItems, TargetsTable, Word, Words, Project;
      ghost var items0, table0 := items, funcTable[..];
      NoWords(w, j, table0);
      u := Group(Words(w, j, count));
      WordsBytes(w, j, count);
      Put(ST_OP, [JUMP_TAB]);
      Put(ST_OP, [count - 1]);
      ghost var head := [Item(ST_OP, [JUMP_TAB]), Item(ST_OP, [count - 1])];
      for i := 0 to count
        invariant Valid() && nextIsFunc == old(nextIsFunc)
        invariant items == items0 + head + TargetsItems(table0, Words(w, j, i))
        invariant funcTable[..] == TargetsTable(table0, Words(w, j, i))
      {
        WordsSnoc(w, j, i);
        TargetsSnoc(table0, Words(w, j, i), Word(w[4 * (j + i)..4 * (j + i) + 4]));
        PutTarget(Word(w[4 * (j + i)..4 * (j + i) + 4]));
      }
      assert items == items0 + (head + TargetsItems(table0, Words(w, j, count)));
    }

    /** The fields written so far. */
    ghost predicate Wrote(items0: seq<Item>, w: seq<byte>, fs: seq<Field>, at: nat)
      reads this, funcTable
    {
      Valid() && at == Width(fs) <= |w| && items == items0 + FieldItems(w, 0, fs)
    }

    lemma WroteIs(items0: seq<Item>, w: seq<byte>, fs: seq<Field>, at: nat)
      requires Wrote(items0, w, fs, at)
      ensures Valid() && at == Width(fs) <= |w| && items == items0 + FieldItems(w, 0, fs)
    {
    }

    lemma TableSize()
      requires Valid()
      ensures funcTable.Length == 256 && StOk(State())
    {
    }

    lemma BufferIs()
      requires Valid()
      ensures |buffer| == ST_MAX && forall k :: 0 <= k < ST_MAX ==> buffer[k] == Project(items, k)
    {
    }

    method PutField(stream: nat, w: seq<byte>, at: nat, width: nat, ghost items0: seq<Item>, ghost fs: seq<Field>)
      requires Wrote(items0, w, fs, at) && stream < ST_MAX && at + width <= |w|
      modifies this`buffer, this`items
      ensures Wrote(items0, w, fs + [Field(stream, width)], at + width)
    {
      FieldSnoc(w, fs, Field(stream, width), fs + [Field(stream, width)]);
      Copy(stream, w, at, width);
    }

    /** The opcode: prefix, first and second byte. */
    method PutOpcode(w: seq<byte>, h: Head, ghost items0: seq<Item>)
      requires Valid() && |w| >= MAX_INSTR && h == HeadOf(w) && items == items0
      modifies this`buffer, this`items
      ensures Wrote(items0, w, HeadFields(h), h.size)
    {
      hide Valid;
      ghost var fs: seq<Field> := [];
      var at := 0;
      if h.o16 {
        PutField(ST_OP, w, at, 1, items0, fs);
        fs, at := fs + [Field(ST_OP, 1)], at + 1;
      }
      PutField(ST_OP, w, at, 1, items0, fs);
      fs, at := fs + [Field(ST_OP, 1)], at + 1;
      if h.code == TWO_BYTE {
        PutField(ST_OP, w, at, 1, items0, fs);
        fs, at := fs + [Field(ST_OP, 1)], at + 1;
      }
      assert fs == HeadFields(h);
    }

    /** ModRM byte, SIB byte and displacement. */
    method PutModRM(w: seq<byte>, at0: nat, ghost items0: seq<Item>, ghost fs0: seq<Field>) returns (at: nat)
      requires Wrote(items0, w, fs0, at0) && at0 + Width(ModFields(At(w, at0), SibOf(w, at0))) <= |w|
      modifies this`buffer, this`items
      ensures Wrote(items0, w, fs0 + ModFields(At(w, at0), SibOf(w, at0)), at)
      ensures at == at0 + Width(ModFields(At(w, at0), SibOf(w, at0)))
    {
      hide Wrote;
      ModWidth(At(w, at0), SibOf(w, at0));
      var modrm, sib := w[at0], 0;
      ghost var fs := fs0 + [Field(ST_OP, 1)];
      PutField(ST_OP, w, at0, 1, items0, fs0);
      at := at0 + 1;
      if modrm % 8 == 4 && modrm < 0xc0 {
        sib := w[at];
        PutField(ST_SIB, w, at, 1, items0, fs);
        fs, at := fs + [Field(ST_SIB, 1)], at + 1;
      }
      assert sib == SibOf(w, at0);
      if modrm / 64 == 1 {
        PutField(ST_DISP8 + modrm % 8, w, at, 1, items0, fs);
        fs, at := fs + [Field(ST_DISP8 + modrm % 8, 1)], at + 1;
      }
      if modrm / 64 == 2 || (modrm / 64 == 0 && modrm % 8 == 5) || (modrm < 0x40 && sib % 8 == 5) {
        var stream := if modrm / 64 == 0 && modrm % 8 == 5 then ST_ADDR32 else ST_DISP32;
        PutField(stream, w, at, 4, items0, fs);
        fs, at := fs + [Field(stream, 4)], at + 4;
      }
      assert fs == fs0 + ModFields(modrm, sib);
    }

    /** The operand, unless it is a relative jump target of four bytes. */
    method PutOperand(w: seq<byte>, at0: nat, flags: nat, o16: bool, ghost items0: seq<Item>, ghost fs0: seq<Field>)
      returns (at: nat)
      requires Wrote(items0, w, fs0, at0) && at0 + Width(OperandFields(flags, o16)) <= |w|
      modifies this`buffer, this`items
      ensures Wrote(items0, w, fs0 + OperandFields(flags, o16), at)
    {
      hide Wrote;
      var stream, width := 0, 0;
      if Mode(flags) == 1 {
        if Type(flags) == 0 {
          stream, width := ST_ADDR32, 4;
        } else if Type(flags) == 1 {
          stream, width := ST_JUMP32, 4;
        } else if Type(flags) == 2 {
          stream, width := ST_JUMP8, 1;
        }
      } else {
        if Type(flags) == 0 {
        } else if Type(flags) == 1 {
          stream, width := ST_IMM8, 1;
        } else if Type(flags) == 2 {
          stream, width := ST_IMM16, 2;
        } else if o16 {
          stream, width := ST_IMM16, 2;
        } else {
          stream, width := ST_IMM32, 4;
        }
      }
      at := at0 + width;
      if width > 0 {
        assert OperandFields(flags, o16) == [Field(stream, width)];
        assert Width([Field(stream, width)]) == width;
        PutField(stream, w, at0, width, items0, fs0);
      } else {
        assert fs0 + [] == fs0;
      }
    }

    /** A relative jump or call target of four bytes at the end of the instruction. */
    method PutRelative(w: seq<byte>, memory: nat, code: byte, ghost items0: seq<Item>, ghost st: St)
      requires Relative(FlagsOf(w)) && Size(w) <= |w| && Wrote(items0, w, Fields(w), Width(Fields(w)))
      requires code == HeadOf(w).code && StOk(st) && State() == Before(w, memory, st)
      modifies this`buffer, this`items, funcTable
      ensures Valid() && items == items0 + CodeItems(w, memory, st) && State() == CodeNext(w, memory, st)
    {
      hide Project, FieldItems, Fields, FlagsOf, HeadOf, FrontOf, TargetItems, Before;
      var target := Target(w, memory);
      if code != CALLN {
        Put(ST_JUMP32, BigEndian(target, 4));
      } else {
        PutTarget(target);
      }
      assert items == items0 + (FieldItems(w, 0, Fields(w)) + RelativeItems(w, memory, st));
    }

    /** The fields of a valid instruction. */
    method PutInstr(w: seq<byte>, memory: nat, h: Head, flags: nat, ghost st: St) returns (n: nat)
      requires Valid() && |w| >= MAX_INSTR && h == HeadOf(w) && flags == FlagsOf(w) != E
      requires StOk(st) && State() == Before(w, memory, st)
      modifies this`buffer, this`items, funcTable
      ensures Valid() && n == Size(w) <= |w|
      ensures items == old(items) + CodeItems(w, memory, st) && State() == CodeNext(w, memory, st)
    {
      hide Project, FieldItems, FlagsOf, HeadOf, FrontOf, TargetItems, Before, HeadFields, ModFields, OperandFields,
           Width, Valid, Wrote;
      ghost var items0 := items;
      SizeBound(w);
      FieldsWidth(w);
      FlagsRegular(w);
      PutOpcode(w, h, items0);
      ghost var fs := HeadFields(h);
      n := h.size;
      ghost var far := FarFields(h.code);
      if h.code == CALLF || h.code == JMPF || h.code == ENTER {
        FieldOne(w, n, Field(ST_IMM16, 2));
        PutField(ST_IMM16, w, n, 2, items0, fs);
        n := n + 2;
      } else {
        NoWidthOf(far);
        assert fs + far == fs;
      }
      fs := fs + far;
      ghost var mod := ModFieldsOf(w, n, flags);
      if Mode(flags) == 2 {
        n := PutModRM(w, n, items0, fs);
      } else {
        NoWidthOf(mod);
        assert fs + mod == fs;
      }
      fs := fs + mod;
      n := PutOperand(w, n, flags, h.o16, items0, fs);
      fs := fs + OperandFields(flags, h.o16);
      assert fs == Fields(w);
      WroteIs(items0, w, fs, n);
      if flags == L {
        PutRelative(w, memory, h.code, items0, st);
        n := n + 4;
      }
    }

    /** The entries of a jump table, in groups. */
    method PutJumps(w: seq<byte>, nJump: nat, memory: nat) returns (ghost us: seq<Unit>)
      requires Valid() && 4 * nJump <= |w|
      modifies this`buffer, this`items, funcTable
      ensures Valid() && AllLegal(us) && AllBytes(us) == w[..4 * nJump] && us == Groups(w, 0, nJump)
      ensures items == old(items) + AllItems(us, memory, old(State())) && State() == AllNext(us, memory, old(State()))
    {
      hide Valid, UnitItems, UnitNext, UnitBytes, Legal, AllItems, AllBytes, AllNext, AllLegal, Groups, Words;
      us := [];
      ghost var items0, st := items, State();
      TableSize();
      NoUnits(memory, st);
      var remaining: nat := nJump;
      while remaining > 0
        invariant Valid() && remaining <= nJump && AllLegal(us) && AllBytes(us) == w[..4 * (nJump - remaining)]
        invariant items == items0 + AllItems(us, memory, st) && State() == AllNext(us, memory, st)
        invariant us + Groups(w, nJump - remaining, remaining) == Groups(w, 0, nJump)
      {
        var count := if remaining < 256 then remaining else 256;
        var j := nJump - remaining;
        GroupsNext(w, j, remaining, us, Groups(w, 0, nJump));
        ghost var u := PutGroup(w, j, count, memory + 4 * j);
        AllSnoc(us, u, memory, st);
        us := us + [u];
        assert w[..4 * (j + count)] == w[..4 * j] + w[4 * j..4 * (j + count)];
        remaining := remaining - count;
      }
      NoGroups(w, nJump, us);
    }

    /**
      One step of the filter: a jump table, an instruction, or an escaped byte.  The window w starts at
      `memory` and holds all words up to the end of the code.
     */
    method ProcessInstr(w: seq<byte>, memory: nat) returns (n: nat, ghost us: seq<Unit>)
      requires Valid() && |w| >= MAX_INSTR && memory < codeEnd && 4 * ((codeEnd - memory) / 4) <= |w|
      modifies this, funcTable
      ensures Valid() && AllLegal(us) && 1 <= n <= |w| && AllBytes(us) == w[..n]
      ensures n <= MAX_INSTR || n <= codeEnd - memory
      ensures items == old(items) + AllItems(us, memory, old(State())) && State() == AllNext(us, memory, old(State()))
      ensures n == StepSize(w, (codeEnd - memory) / 4, codeStart, codeEnd)
      ensures us == StepUnits(w, (codeEnd - memory) / 4, codeStart, codeEnd)
    {
      hide Valid, Width, Fields, FieldItems, Jumps, TargetItems, FrontOf, Front, TableX, Table1, Table2, AllNext, AllItems, AllBytes, AllLegal;
      ghost var items0, st := items, State();
      var nJump := DetectJumpTable(w, memory);
      if nJump > 0 {
        us := PutJumps(w, nJump, memory);
        return 4 * nJump, us;
      }
      var code, code2, o16, size, flags: nat := w[0], 0, false, 1, 0;
      TableSize();
      if nextIsFunc && code != INT3 {
        MoveToFront(funcTable, 255, memory);
        nextIsFunc := false;
      }
      assert State() == Entered(st, w[0], memory);
      if code == OSIZE {
        o16 := true;
        code, size := w[1], 2;
      }
      if code == TWO_BYTE {
        code2, size := w[size], size + 1;
        flags := Table2(code2);
      } else {
        flags := Table1(code);
      }
      assert HeadOf(w) == Head(o16, code, code2, size);
      if code == RETNI || code == RETN || code == INT3 {
        nextIsFunc := true;
      }
      assert State() == Before(w, memory, st);
      if flags == X {
        flags := TableX(w[size], code);
      }
      assert flags == FlagsOf(w);
      if flags != E {
        us := [Code(w)];
        n := PutInstr(w, memory, Head(o16, code, code2, size), flags, st);
        SizeBound(w);
        OneUnit(Code(w), memory, st);
      } else {
        us := [Escaped(w[0])];
        EscapedIsPlain(w);
        hide Before;
        Put(ST_OP, [ESCAPE]);
        Put(ST_OP, [w[0]]);
        n := 1;
        OneUnit(Escaped(w[0]), memory, st);
      }
    }

    /** Takes the sizes of the streams back to what they were. */
    method Restore(checkpt: seq<nat>, ghost items0: seq<Item>)
      requires Valid() && |checkpt| == ST_MAX && items0 <= items
      requires forall k :: 0 <= k < ST_MAX ==> checkpt[k] == |Project(items0, k)|
      modifies this`buffer, this`items
      ensures Valid() && items == items0
    {
      assert items == items0 + items[|items0|..];
      forall k: nat | k < ST_MAX
        ensures Project(items0, k) <= buffer[k]
      {
        ProjectAppend(items0, items[|items0|..], k);
      }
      var was := buffer;
      buffer := seq(ST_MAX, k requires 0 <= k < ST_MAX && checkpt[k] <= |was[k]| => was[k][..checkpt[k]]);
      items := items0;
    }

    method Flush() returns (out: seq<byte>)
      requires Valid()
      ensures out == Flushed(items)
    {
      hide Project, Little, Sizes, Bodies;
      out := [];
      for i := 0 to ST_MAX
        invariant out + Sizes(items, i) == Sizes(items, 0)
      {
        StreamStep(items, i);
        out := out + Little(|buffer[i]|);
      }
      StreamEnd(items);
      for i := 0 to ST_MAX
        invariant out + Bodies(items, i) == Flushed(items)
      {
        StreamStep(items, i);
        out := out + buffer[i];
      }
    }
  }

  lemma StreamStep(items: seq<Item>, k: nat)
    requires k < ST_MAX
    ensures Sizes(items, k) == Little(|Project(items, k)|) + Sizes(items, k + 1)
    ensures Bodies(items, k) == Project(items, k) + Bodies(items, k + 1)
  {
  }

  lemma StreamEnd(items: seq<Item>)
    ensures Sizes(items, ST_MAX) == [] && Bodies(items, ST_MAX) == []
  {
  }

  lemma OneUnit(u: Unit, memory: nat, st: St)
    requires Legal(u) && StOk(st)
    ensures AllLegal([u]) && AllBytes([u]) == UnitBytes(u)
    ensures AllItems([u], memory, st) == UnitItems(u, memory, st) && AllNext([u], memory, st) == UnitNext(u, memory, st)
  {
    AllSnoc([], u, memory, st);
    assert [] + [u] == [u];
  }

  lemma NoWidthOf(fs: seq<Field>)
    requires fs == []
    ensures Width(fs) == 0
  {
  }

  /** Neither padding nor a return is ever escaped. */
  lemma EscapedIsPlain(w: seq<byte>)
    requires |w| >= MAX_INSTR && FlagsOf(w) == E
    ensures w[0] != INT3 && !Returns(HeadOf(w).code)
  {
    SpecialOpcodes();
    hide Table1, Table2, TableX;
  }

  lemma FieldOne(w: seq<byte>, at: nat, f: Field)
    requires at + f.width <= |w|
    ensures Width([f]) == f.width
    ensures FieldItems(w, at, [f]) == [Item(f.stream, Reversed(w[at..at + f.width]))]
  {
    assert [f][1..] == [];
  }

  lemma FieldSnoc(w: seq<byte>, fs: seq<Field>, f: Field, more: seq<Field>)
    requires Width(fs) + f.width <= |w| && more == fs + [f]
    ensures Width(more) == Width(fs) + f.width
    ensures FieldItems(w, 0, more) ==
            FieldItems(w, 0, fs) + [Item(f.stream, Reversed(w[Width(fs)..Width(fs) + f.width]))]
  {
    hide FieldItems, Width, Reversed;
    FieldOne(w, Width(fs), f);
    FieldItemsAppend(w, 0, fs, [f]);
  }

  lemma EscapeSnoc(us: seq<Unit>, b: byte, memory: nat)
    requires AllLegal(us)
    ensures AllLegal(us + [Escaped(b)]) && AllBytes(us + [Escaped(b)]) == AllBytes(us) + [b]
    ensures AllItems(us + [Escaped(b)], memory, Start()) ==
            AllItems(us, memory, Start()) + [Item(ST_OP, [ESCAPE]), Item(ST_OP, [b])]
  {
    hide AllItems, AllBytes, AllNext, AllLegal, Start, Entered;
    AllSnoc(us, Escaped(b), memory, Start());
  }

  lemma NoUnits(memory: nat, st: St)
    requires StOk(st)
    ensures AllLegal([]) && AllBytes([]) == [] && AllItems([], memory, st) == [] && AllNext([], memory, st) == st
  {
  }

  /** Units after units. */
  lemma {:induction false} AllAppend(us: seq<Unit>, more: seq<Unit>, memory: nat, st: St)
    requires AllLegal(us) && AllLegal(more) && StOk(st)
    ensures AllLegal(us + more) && AllBytes(us + more) == AllBytes(us) + AllBytes(more)
    ensures AllItems(us + more, memory, st) ==
            AllItems(us, memory, st) + AllItems(more, memory + |AllBytes(us)|, AllNext(us, memory, st))
    ensures AllNext(us + more, memory, st) == AllNext(more, memory + |AllBytes(us)|, AllNext(us, memory, st))
    decreases |us|
  {
    hide UnitBytes, UnitItems, UnitNext, Legal;
    if us == [] {
      assert us + more == more;
    } else {
      assert (us + more)[1..] == us[1..] + more;
      AllAppend(us[1..], more, memory + |UnitBytes(us[0])|, UnitNext(us[0], memory, st));
    }
  }

  /** Up to pos the code has been filtered; `us` are its units. */
  ghost predicate Filtered(ctx: DisFilterCtx, us: seq<Unit>, x: seq<byte>, pos: nat, origin: nat)
    reads ctx, ctx.funcTable
  {
    && ctx.Valid() && pos <= |x| && AllLegal(us) && AllBytes(us) == x[..pos]
    && ctx.items == AllItems(us, origin, Start())
  }

  lemma FilteredIs(ctx: DisFilterCtx, us: seq<Unit>, x: seq<byte>, pos: nat, origin: nat)
    requires Filtered(ctx, us, x, pos, origin)
    ensures ctx.Valid() && pos <= |x| && AllLegal(us) && AllBytes(us) == x[..pos]
    ensures ctx.items == AllItems(us, origin, Start())
  {
  }

  lemma FilteredAgain(ctx: DisFilterCtx, us: seq<Unit>, x: seq<byte>, pos: nat, origin: nat)
    requires ctx.Valid() && pos <= |x| && AllLegal(us) && AllBytes(us) == x[..pos]
    requires ctx.items == AllItems(us, origin, Start())
    ensures Filtered(ctx, us, x, pos, origin)
  {
  }

  /** The state of the context is that of the decoder behind the units. */
  ghost predicate InStep(ctx: DisFilterCtx, us: seq<Unit>, origin: nat)
    requires AllLegal(us)
    reads ctx, ctx.funcTable
  {
    ctx.State() == AllNext(us, origin, Start())
  }

  /** One step at pos in the window w, kept only if it does not read past the end of the code. */
  method FilterStep(ctx: DisFilterCtx, x: seq<byte>, pos: nat, w: seq<byte>, origin: nat, ghost us0: seq<Unit>)
    returns (bytes: nat, ghost us: seq<Unit>)
    requires Filtered(ctx, us0, x, pos, origin) && InStep(ctx, us0, origin) && pos < |x|
    requires ctx.codeStart == origin && ctx.codeEnd == origin + |x|
    requires w == Window(x, pos)
    modifies ctx, ctx.funcTable
    ensures ctx.Valid() && old(ctx.items) <= ctx.items
    ensures bytes == SizeAt(x, pos, origin) && us == us0 + UnitsAt(x, pos, origin)
    ensures pos + bytes <= |x| ==> Filtered(ctx, us, x, pos + bytes, origin) && InStep(ctx, us, origin)
  {
    hide AllItems, AllNext, AllBytes, Start, AllLegal, Legal, Window, StepSize, StepUnits;
    assert |w| >= |x| - pos;
    ghost var more;
    bytes, more := ctx.ProcessInstr(w, origin + pos);
    AllAppend(us0, more, origin, Start());
    us := us0 + more;
    if pos + bytes <= |x| {
      assert w[..bytes] == x[pos..][..bytes];
      assert x[..pos + bytes] == x[..pos] + x[pos..][..bytes];
    }
  }

  /** So far the code has been cut as it should be and filtered. */
  ghost predicate Going(ctx: DisFilterCtx, us: seq<Unit>, x: seq<byte>, pos: nat, origin: nat)
    reads ctx, ctx.funcTable
  {
    && ctx.codeStart == origin && ctx.codeEnd == origin + |x|
    && Filtered(ctx, us, x, pos, origin) && InStep(ctx, us, origin) && Reached(us, x, pos, origin)
  }

  lemma StartGoing(ctx: DisFilterCtx, x: seq<byte>, origin: nat)
    requires ctx.Valid() && ctx.items == [] && ctx.State() == Start()
    requires ctx.codeStart == origin && ctx.codeEnd == origin + |x|
    ensures Going(ctx, [], x, 0, origin)
  {
    hide DisFilterCtx.Valid;
    NoUnits(origin, Start());
  }

  /** A step of the main loop. */
  method FilterOne(ctx: DisFilterCtx, x: seq<byte>, pos: nat, origin: nat, ghost us0: seq<Unit>)
    returns (bytes: nat, ghost us: seq<Unit>)
    requires pos + MAX_INSTR < |x| && Going(ctx, us0, x, pos, origin)
    modifies ctx, ctx.funcTable
    ensures 1 <= bytes && pos + bytes <= |x| && Going(ctx, us, x, pos + bytes, origin)
  {
    hide Filtered, InStep, Window, UnitsAt, SizeAt, Reached, AllLegal, AllUnits, Escapes, DisFilterCtx.Valid;
    FilteredIs(ctx, us0, x, pos, origin);
    WholeWindow(x, pos);
    CutNext(us0, x, pos, origin);
    bytes, us := FilterStep(ctx, x, pos, x[pos..], origin, us0);
  }

  /** A step in the last bytes; if it read past the end, what it put out is taken back. */
  method FilterLast(ctx: DisFilterCtx, x: seq<byte>, pos: nat, origin: nat, ghost us0: seq<Unit>)
    returns (bytes: nat, ghost us: seq<Unit>)
    requires |x| - MAX_INSTR <= pos < |x| && Going(ctx, us0, x, pos, origin)
    modifies ctx, ctx.funcTable
    ensures 1 <= bytes
    ensures if pos + bytes <= |x| then Going(ctx, us, x, pos + bytes, origin) else Gone(ctx, us, x, pos, origin)
  {
    hide AllItems, AllNext, AllBytes, Project, Start, AllLegal, Filtered, InStep, DisFilterCtx.Valid, UnitsAt, SizeAt, Reached, AllUnits;
    var instrBuf := x[pos..] + Repeat(0, MAX_INSTR - (|x| - pos));
    assert instrBuf == Window(x, pos);
    CutNext(us0, x, pos, origin);
    FilteredIs(ctx, us0, x, pos, origin);
    ctx.BufferIs();
    var was := ctx.buffer;
    var checkpt := seq(|was|, k requires 0 <= k < |was| => |was[k]|);
    ghost var items0 := ctx.items;
    bytes, us := FilterStep(ctx, x, pos, instrBuf, origin, us0);
    if pos + bytes > |x| {
      ctx.Restore(checkpt, items0);
      us := us0;
      FilteredAgain(ctx, us, x, pos, origin);
    }
  }

  /** From pos on only escapes are missing. */
  ghost predicate Gone(ctx: DisFilterCtx, us: seq<Unit>, x: seq<byte>, pos: nat, origin: nat)
    reads ctx, ctx.funcTable
  {
    Filtered(ctx, us, x, pos, origin) && AllUnits(x, origin) == us + Escapes(x[pos..])
  }

  lemma AtEnd(ctx: DisFilterCtx, us: seq<Unit>, x: seq<byte>, origin: nat)
    requires Going(ctx, us, x, |x|, origin)
    ensures Gone(ctx, us, x, |x|, origin)
  {
  }

  /** The last loop: what is left goes out as escapes. */
  method FilterRest(ctx: DisFilterCtx, x: seq<byte>, pos0: nat, origin: nat, ghost us0: seq<Unit>) returns (ghost us: seq<Unit>)
    requires Gone(ctx, us0, x, pos0, origin)
    modifies ctx
    ensures Filtered(ctx, us, x, |x|, origin) && us == AllUnits(x, origin)
  {
    hide AllItems, AllNext, AllBytes, Start, AllLegal, Legal, Project, AllUnits;
    us := us0;
    var pos := pos0;
    while pos < |x|
      invariant pos0 <= pos && Filtered(ctx, us, x, pos, origin) && us == us0 + Escapes(x[pos0..pos])
    {
      EscapeSnoc(us, x[pos], origin);
      ghost var items0 := ctx.items;
      ctx.Put(ST_OP, [ESCAPE]);
      ctx.Put(ST_OP, [x[pos]]);
      us := us + [Escaped(x[pos])];
      assert ctx.items == items0 + [Item(ST_OP, [ESCAPE]), Item(ST_OP, [x[pos]])];
      assert x[..pos + 1] == x[..pos] + [x[pos]];
      assert x[pos0..pos + 1] == x[pos0..pos] + [x[pos]];
      pos := pos + 1;
    }
    assert x[pos0..|x|] == x[pos0..];
  }

  /**
    DisFilter: the code is cut as AllUnits says, whatever was rolled back at its end, and the units cover it
    exactly.  The streams hold the items of these units.
   */
  method DisFilter(x: seq<byte>, origin: nat) returns (out: seq<byte>, ghost us: seq<Unit>)
    requires origin + |x| < 0x1_0000_0000
    ensures us == AllUnits(x, origin)
    ensures AllLegal(us) && AllBytes(us) == x && out == Flushed(AllItems(us, origin, Start()))
    ensures |out| <= 4 * ST_MAX + 2 * |x|
  {
    hide AllItems, AllNext, AllBytes, Project, Start, Flushed, Legal, AllLegal, Going;
    hide Filtered, DisFilterCtx.Valid, Reached, Gone, AllUnits, Escapes, Window, UnitsAt, SizeAt;
    var ctx := new DisFilterCtx(origin, origin + |x|);
    us := [];
    StartGoing(ctx, x, origin);
    var pos := 0;
    while pos < |x| - MAX_INSTR
      invariant 0 <= pos <= |x| && Going(ctx, us, x, pos, origin)
    {
      var bytes;
      bytes, us := FilterOne(ctx, x, pos, origin, us);
      pos := pos + bytes;
    }
    while pos < |x|
      invariant |x| - MAX_INSTR <= pos <= |x| && 0 <= pos && Going(ctx, us, x, pos, origin)
    {
      var bytes;
      bytes, us := FilterLast(ctx, x, pos, origin, us);
      if pos + bytes > |x| {
        break;
      }
      pos := pos + bytes;
    }
    if pos == |x| {
      AtEnd(ctx, us, x, origin);
    }
    us := FilterRest(ctx, x, pos, origin, us);
    FilteredIs(ctx, us, x, |x|, origin);
    assert x[..|x|] == x;
    FlushedSize(us, origin);
    out := ctx.Flush();
  }
}
