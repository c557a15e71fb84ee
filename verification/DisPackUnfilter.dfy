/**
  DisPack.cpp: the decoder, which puts the streams together again.  It checks every read and write, so it is
  safe on any input; on the output of the filter it rebuilds the code.
 */
module DisPackUnfilter {
  import opened Bytes
  import opened DisPackCode
  import opened DisPackUnits
  import opened DisPackStreams
  import opened DisPackFilter

  /** The 19 read positions, the output and the table of call targets. */
  class Reader {
    const source: seq<byte>
    var pos: seq<nat>
    const end: seq<nat>
    var dest: seq<byte>
    const destSize: nat
    const funcTable: array<nat>
    var nextIsFunc: bool

    ghost predicate StreamsOk()
      reads this`pos
    {
      |pos| == ST_MAX && |end| == ST_MAX && forall k :: 0 <= k < ST_MAX ==> pos[k] <= end[k] <= |source|
    }

    ghost predicate Ok()
      reads this`pos, this`dest
    {
      StreamsOk() && funcTable.Length == 256 && |dest| <= destSize
    }

    /** What is left in the streams are these items. */
    ghost predicate Serves(items: seq<Item>)
      requires StreamsOk()
      reads this`pos
    {
      forall k :: 0 <= k < ST_MAX ==> source[pos[k]..end[k]] == Project(items, k)
    }

    lemma ServesFrom(items: seq<Item>)
      requires Ok() && Located(source, pos, end, items, ST_MAX)
      ensures Serves(items)
    {
    }

    ghost function State(): (st: St)
      reads this, funcTable
    {
      St(funcTable[..], nextIsFunc)
    }

    constructor (source: seq<byte>, pos: seq<nat>, end: seq<nat>, destSize: nat)
      requires |pos| == ST_MAX && |end| == ST_MAX
      requires forall k :: 0 <= k < ST_MAX ==> pos[k] <= end[k] <= |source|
      ensures Ok() && dest == [] && State() == Start() && fresh(funcTable)
      ensures this.source == source && this.pos == pos && this.end == end && this.destSize == destSize
    {
      this.source := source;
      this.pos := pos;
      this.end := end;
      this.destSize := destSize;
      dest := [];
      funcTable := new nat[256](_ => 0);
      nextIsFunc := true;
      new;
      assert funcTable[..] == Repeat(0, 256);
    }

    /** Reads n bytes of a stream, after the test that they are there. */
    method Fetch(stream: nat, n: nat, ghost items: seq<Item>, ghost valid: bool) returns (ok: bool, data: seq<byte>)
      requires Ok() && stream < ST_MAX
      requires valid ==> Serves(items) && items != [] && items[0].stream == stream && |items[0].data| == n
      modifies this`pos
      ensures Ok() && pos == old(pos)[stream := old(pos)[stream] + if ok then n else 0] && (ok ==> |data| == n)
      ensures valid ==> ok && data == items[0].data && Serves(items[1..])
    {
      ghost var was := pos;
      ok, data := pos[stream] + n <= end[stream], [];
      if valid {
        forall k: nat | k < ST_MAX
          ensures source[pos[k]..end[k]] == (if k == stream then items[0].data else []) + Project(items[1..], k)
        {
          ProjectHead(items, k);
        }
        assert |source[pos[stream]..end[stream]]| == end[stream] - pos[stream];
      }
      hide Project;
      if ok {
        data := source[pos[stream]..pos[stream] + n];
        pos := pos[stream := pos[stream] + n];
        if valid {
          assert source[was[stream]..end[stream]][..n] == data;
          assert source[pos[stream]..end[stream]] == source[was[stream]..end[stream]][n..];
        }
      }
    }

    /** The copying macros: tests both sides, then copies with the bytes in the opposite order. */
    method Copy(stream: nat, n: nat, ghost items: seq<Item>, ghost valid: bool) returns (ok: bool)
      requires Ok() && stream < ST_MAX
      requires valid ==> Serves(items) && items != [] && items[0].stream == stream && |items[0].data| == n
      requires valid ==> |dest| + n <= destSize
      modifies this`pos, this`dest
      ensures Ok() && pos == old(pos)[stream := old(pos)[stream] + if ok then n else 0]
      ensures |dest| == |old(dest)| + if ok then n else 0
      ensures valid ==> ok && dest == old(dest) + Reversed(items[0].data) && Serves(items[1..])
    {
      if |dest| + n > destSize {
        return false;
      }
      var data;
      ok, data := Fetch(stream, n, items, valid);
      if ok {
        dest := dest + Reversed(data);
      }
    }

    /** In the middle of the instruction s, of which `at` bytes are written and the fields fs are still to come. */
    ghost predicate Mid(before: seq<byte>, s: seq<byte>, at: nat, fs: seq<Field>, after: seq<Item>)
      reads this`pos, this`dest
    {
      && Ok() && at + Width(fs) <= |s| && |before| + at + Width(fs) <= destSize
      && dest == before + s[..at] && Serves(FieldItems(s, at, fs) + after)
    }

    method CopyField(stream: nat, width: nat, ghost before: seq<byte>, ghost s: seq<byte>, ghost at: nat,
                     ghost fs: seq<Field>, ghost after: seq<Item>, ghost valid: bool) returns (ok: bool)
      requires Ok() && stream < ST_MAX
      requires valid ==> Mid(before, s, at, fs, after) && fs != [] && fs[0] == Field(stream, width)
      modifies this`pos, this`dest
      ensures Ok() && pos == old(pos)[stream := old(pos)[stream] + if ok then width else 0]
      ensures |dest| == |old(dest)| + if ok then width else 0
      ensures valid ==> ok && at + width <= |s| && Mid(before, s, at + width, fs[1..], after)
    {
      hide Project, FieldItems, Width, Serves, Reversed, Mid;
      ghost var items: seq<Item> := [];
      if valid {
        MidItems(before, s, at, fs, after);
        items := FieldItems(s, at, fs) + after;
        FieldItemsHead(s, at, fs, after);
        ReversedTwice(s[at..at + width]);
        PrefixGrows(before, s, at, width);
      }
      ok := Copy(stream, width, items, valid);
      if valid {
        MidAgain(before, s, at + width, fs[1..], after);
      }
    }

    lemma MidItems(before: seq<byte>, s: seq<byte>, at: nat, fs: seq<Field>, after: seq<Item>)
      requires Mid(before, s, at, fs, after)
      ensures Ok() && at + Width(fs) <= |s| && |before| + at + Width(fs) <= destSize
      ensures dest == before + s[..at] && Serves(FieldItems(s, at, fs) + after)
    {
    }

    lemma MidAgain(before: seq<byte>, s: seq<byte>, at: nat, fs: seq<Field>, after: seq<Item>)
      requires Ok() && at + Width(fs) <= |s| && |before| + at + Width(fs) <= destSize
      requires dest == before + s[..at] && Serves(FieldItems(s, at, fs) + after)
      ensures Mid(before, s, at, fs, after)
    {
    }

    /** A target: by its index in the table, or in full. */
    method FetchTarget(ghost t: nat, ghost after: seq<Item>, ghost valid: bool) returns (ok: bool, target: nat)
      requires Ok() && t < 0x1_0000_0000
      requires valid ==> Serves(TargetItems(funcTable[..], t) + after)
      modifies this`pos, funcTable
      ensures Ok() && nextIsFunc == old(nextIsFunc) && pos[ST_OP] == old(pos)[ST_OP]
      ensures valid ==> ok && target == t && funcTable[..] == FrontOf(old(funcTable[..]), t) && Serves(after)
    {
      hide Project, Serves, Front;
      ghost var items := TargetItems(funcTable[..], t) + after;
      target := 0;
      var data;
      ok, data := Fetch(ST_CALL_IDX, 1, items, valid);
      if !ok {
        return;
      }
      ghost var i := Find(funcTable[..], t, 0);
      var ind := data[0];
      if ind > 0 {
        target := funcTable[ind - 1];
        assert valid ==> items[1..] == after;
        MoveToFront(funcTable, ind - 1, target);
      } else {
        assert valid ==> items[1..] == [Item(ST_CALL32, BigEndian(t, 4))] + after;
        ok, data := Fetch(ST_CALL32, 4, items[1..], valid);
        if !ok {
          return;
        }
        assert valid ==> items[1..][1..] == after;
        target := Num(data);
        Pow256Four();
        NumBigEndian(t, 4);
        MoveToFront(funcTable, 255, target);
      }
      assert Ok();
    }

    /** CheckDst and Write32. */
    method Write32(v: nat) returns (ok: bool)
      requires Ok()
      modifies this`dest
      ensures Ok() && ok == (|old(dest)| + 4 <= destSize)
      ensures dest == old(dest) + if ok then Little(v) else []
    {
      ok := |dest| + 4 <= destSize;
      if ok {
        dest := dest + Little(v);
      }
    }

    /** A group of jump table entries behind its escape code. */
    method ReadGroup(ghost ts: seq<nat>, ghost after: seq<Item>, ghost valid: bool) returns (ok: bool)
      requires Ok()
      requires valid ==> Legal(Group(ts)) && |dest| + 4 * |ts| <= destSize
      requires valid ==> Serves([Item(ST_OP, [|ts| - 1])] + TargetsItems(funcTable[..], ts) + after)
      modifies this`pos, this`dest, funcTable
      ensures Ok() && old(pos)[ST_OP] <= pos[ST_OP]
      ensures valid ==> ok && dest == old(dest) + Littles(ts) && Serves(after)
      ensures valid ==> State() == St(TargetsTable(old(funcTable[..]), ts), old(nextIsFunc))
    {
      hide Project, Serves, TargetItems, FrontOf, Little, TargetsItems, TargetsTable, Littles;
      ghost var table0, dest0 := funcTable[..], dest;
      ghost var items := if valid then [Item(ST_OP, [|ts| - 1])] + TargetsItems(table0, ts) + after else [];
      var data;
      ok, data := Fetch(ST_OP, 1, items, valid);
      if !ok {
        return;
      }
      assert valid ==> items[1..] == TargetsItems(table0, ts) + after;
      var last: nat := data[0];
      var count := last + 1;
      ghost var rest := ts;
      assert valid ==> count == |ts|;
      for i := 0 to count
        invariant Ok() && old(pos)[ST_OP] <= pos[ST_OP] && nextIsFunc == old(nextIsFunc)
        invariant valid ==> count == |ts| && rest == ts[i..] && |dest| + 4 * (count - i) <= destSize
        invariant valid ==> Serves(TargetsItems(funcTable[..], rest) + after)
        invariant valid ==> TargetsTable(funcTable[..], rest) == TargetsTable(table0, ts)
        invariant valid ==> dest + Littles(rest) == dest0 + Littles(ts)
      {
        ghost var t := if valid then rest[0] else 0;
        ghost var items1: seq<Item> := [];
        ghost var was := funcTable[..];
        if valid {
          TargetsHead(was, rest);
          items1 := TargetsItems(FrontOf(was, t), rest[1..]) + after;
          assert TargetsItems(was, rest) + after == TargetItems(was, t) + items1;
        }
        var target;
        ok, target := FetchTarget(t, items1, valid);
        if !ok {
          return;
        }
        ok := Write32(target);
        if !ok {
          return;
        }
        if valid {
          rest := rest[1..];
        }
      }
      if valid {
        NoTargets(funcTable[..]);
        assert [] + after == after;
      }
    }

    /** ModRM byte, SIB byte and displacement; the ModRM byte decides the flags when the opcode leaves them open. */
    method ReadModRM(code: byte, flags0: nat, ghost before: seq<byte>, ghost s: seq<byte>, ghost at0: nat,
                     ghost more: seq<Field>, ghost after: seq<Item>, ghost valid: bool)
      returns (ok: bool, flags: nat)
      requires Ok() && dest != []
      requires valid ==> at0 < |s| && Mid(before, s, at0, ModFields(At(s, at0), SibOf(s, at0)) + more, after)
      modifies this`pos, this`dest
      ensures Ok() && old(pos)[ST_OP] <= pos[ST_OP] && |old(dest)| <= |dest|
      ensures valid ==> ok && flags == if flags0 == X then TableX(At(s, at0), code) else flags0
      ensures
        valid ==>
          var w := Width(ModFields(At(s, at0), SibOf(s, at0)));
          |dest| == |old(dest)| + w && Mid(before, s, at0 + w, more, after)
    {
      hide Mid, Width, TableX;
      ghost var modrm0, sib0 := At(s, at0), SibOf(s, at0);
      ghost var fs, at := ModFields(modrm0, sib0) + more, at0;
      if valid {
        ModWidth(modrm0, sib0);
      }
      flags := flags0;
      ok := CopyField(ST_OP, 1, before, s, at, fs, after, valid);
      if !ok {
        return;
      }
      var modrm, sib := dest[|dest| - 1], 0;
      if valid {
        MidLast(before, s, at + 1, fs[1..], after);
        assert modrm == modrm0;
        fs, at := fs[1..], at + 1;
      }
      if flags == X {
        flags := TableX(modrm, code);
      }
      if modrm % 8 == 4 && modrm < 0xc0 {
        ok := CopyField(ST_SIB, 1, before, s, at, fs, after, valid);
        if !ok {
          return;
        }
        sib := dest[|dest| - 1];
        if valid {
          MidLast(before, s, at + 1, fs[1..], after);
          fs, at := fs[1..], at + 1;
        }
      }
      assert valid ==> sib == sib0;
      if modrm / 64 == 1 {
        ok := CopyField(ST_DISP8 + modrm % 8, 1, before, s, at, fs, after, valid);
        if !ok {
          return;
        }
        if valid {
          fs, at := fs[1..], at + 1;
        }
      }
      if modrm / 64 == 2 || (modrm / 64 == 0 && modrm % 8 == 5) || (modrm < 0x40 && sib % 8 == 5) {
        var stream := if modrm / 64 == 0 && modrm % 8 == 5 then ST_ADDR32 else ST_DISP32;
        ok := CopyField(stream, 4, before, s, at, fs, after, valid);
        if !ok {
          return;
        }
        if valid {
          fs, at := fs[1..], at + 4;
        }
      }
      assert valid ==> fs == more;
    }

    /** The operand, unless it is a relative jump target of four bytes. */
    method ReadOperand(flags: nat, o16: bool, ghost before: seq<byte>, ghost s: seq<byte>, ghost at: nat,
                       ghost after: seq<Item>, ghost valid: bool) returns (ok: bool)
      requires Ok()
      requires valid ==> Mid(before, s, at, OperandFields(flags, o16), after)
      modifies this`pos, this`dest
      ensures Ok() && pos[ST_OP] == old(pos)[ST_OP] && |old(dest)| <= |dest|
      ensures
        valid ==>
          var w := Width(OperandFields(flags, o16));
          ok && |dest| == |old(dest)| + w && Mid(before, s, at + w, [], after)
    {
      hide Mid;
      var stream, width := 0, 0;
      if Mode(flags) == 1 {
        if Type(flags) == 0 {
          stream, width := ST_ADDR32, 4;
        } else if Type(flags) == 1 {
          stream, width := ST_JUMP32, 4;
        } else if Type(flags) == 2 {
          stream, width := ST_JUMP8, 1;
        }
      } else {
        if Type(flags) == 0 {
        } else if Type(flags) == 1 {
          stream, width := ST_IMM8, 1;
        } else if Type(flags) == 2 {
          stream, width := ST_IMM16, 2;
        } else if o16 {
          stream, width := ST_IMM16, 2;
        } else {
          stream, width := ST_IMM32, 4;
        }
      }
      ghost var fs := OperandFields(flags, o16);
      if width == 0 {
        return true;
      }
      assert fs == [Field(stream, width)] && fs[1..] == [];
      assert Width([Field(stream, width)]) == width;
      ok := CopyField(stream, width, before, s, at, fs, after, valid);
    }

    /** A relative jump or call target: back from the absolute address. */
    method ReadRelative(code: byte, start: nat, memory: nat, ghost s: seq<byte>, ghost st: St, ghost after: seq<Item>,
                        ghost valid: bool) returns (ok: bool)
      requires Ok() && start <= |dest|
      requires valid ==> StOk(st) && 4 <= Size(s) <= |s| && code == HeadOf(s).code && State() == Before(s, memory, st)
      requires valid ==> |dest| - start + 4 == Size(s) && |dest| + 4 <= destSize
      requires valid ==> Serves(RelativeItems(s, memory, st) + after)
      modifies this`pos, this`dest, funcTable
      ensures Ok() && pos[ST_OP] == old(pos)[ST_OP] && |old(dest)| <= |dest| && nextIsFunc == old(nextIsFunc)
      ensures valid ==> ok && dest == old(dest) + s[Size(s) - 4..Size(s)] && Serves(after)
      ensures
        valid ==>
          State() == if code == CALLN then St(FrontOf(old(funcTable[..]), Target(s, memory)), old(nextIsFunc)) else old(State())
    {
      hide Project, Serves, Front, TargetItems, FrontOf, Size, HeadOf, Before, Little;
      ghost var t := if valid then Target(s, memory) else 0;
      ghost var items := if valid then RelativeItems(s, memory, st) + after else [];
      var target;
      if code == CALLN {
        ok, target := FetchTarget(t, after, valid);
        if !ok {
          return;
        }
      } else {
        var data;
        ok, data := Fetch(ST_JUMP32, 4, items, valid);
        if !ok {
          return;
        }
        target := Num(data);
        if valid {
          Pow256Four();
          NumBigEndian(t, 4);
          assert items[1..] == after;
        }
      }
      var v := (target - (|dest| - start + 4) - memory) % 0x1_0000_0000;
      if valid {
        TargetBack(s, memory);
      }
      ok := Write32(v);
    }

    /** The opcode behind its first byte: operand size prefix and second byte. */
    method ReadOpcode(first: byte, ghost before: seq<byte>, ghost s: seq<byte>, ghost more: seq<Field>,
                      ghost after: seq<Item>, ghost valid: bool)
      returns (ok: bool, code: byte, flags: nat, o16: bool)
      requires Ok() && dest != [] && dest[|dest| - 1] == first
      requires valid ==> At(s, 0) == first && Mid(before, s, 1, HeadFields(HeadOf(s))[1..] + more, after)
      modifies this`pos, this`dest, this`nextIsFunc
      ensures Ok() && old(pos)[ST_OP] <= pos[ST_OP] && |old(dest)| <= |dest|
      ensures valid ==> ok && HeadOf(s).code == code && HeadOf(s).o16 == o16
      ensures valid ==> flags == if code == TWO_BYTE then Table2(HeadOf(s).code2) else Table1(code)
      ensures valid ==> Mid(before, s, HeadOf(s).size, more, after) && |dest| == |old(dest)| + HeadOf(s).size - 1
      ensures valid ==> nextIsFunc == (old(nextIsFunc) || Returns(code))
    {
      hide Mid, Table1, Table2;
      ghost var h := HeadOf(s);
      ghost var fs, at := HeadFields(h)[1..] + more, 1;
      code, flags, o16 := first, 0, false;
      if code == OSIZE {
        o16 := true;
        ok := CopyField(ST_OP, 1, before, s, at, fs, after, valid);
        if !ok {
          return;
        }
        code := dest[|dest| - 1];
        if valid {
          MidLast(before, s, at + 1, fs[1..], after);
          fs, at := fs[1..], at + 1;
        }
      }
      if code == RETNI || code == RETN || code == INT3 {
        nextIsFunc := true;
      }
      if code == TWO_BYTE {
        ok := CopyField(ST_OP, 1, before, s, at, fs, after, valid);
        if !ok {
          return;
        }
        flags := Table2(dest[|dest| - 1]);
        if valid {
          MidLast(before, s, at + 1, fs[1..], after);
          fs, at := fs[1..], at + 1;
        }
      } else {
        flags := Table1(code);
      }
      assert valid ==> fs == more;
      ok := true;
    }

    /** What follows the opcode, unless it is a relative jump target of four bytes. */
    method ReadBody(code: byte, flags0: nat, o16: bool, ghost before: seq<byte>, ghost s: seq<byte>, ghost at: nat,
                    ghost far: seq<Field>, ghost mod: seq<Field>, ghost oper: seq<Field>, ghost after: seq<Item>,
                    ghost valid: bool)
      returns (ok: bool, flags: nat)
      requires Ok() && dest != []
      requires valid ==> Mid(before, s, at, far + (mod + oper), after)
      requires valid ==> far == if IsFar(code) then [Field(ST_IMM16, 2)] else []
      requires valid ==> mod == if flags0 / 2 % 2 == 1 then ModFields(At(s, at + Width(far)), SibOf(s, at + Width(far))) else []
      requires
        valid ==>
          oper == OperandFields(if flags0 / 2 % 2 == 1 && flags0 == X then TableX(At(s, at + Width(far)), code) else flags0, o16)
      modifies this`pos, this`dest
      ensures Ok() && old(pos)[ST_OP] <= pos[ST_OP] && |old(dest)| <= |dest|
      ensures
        valid ==>
          ok && flags == if flags0 / 2 % 2 == 1 && flags0 == X then TableX(At(s, at + Width(far)), code) else flags0
      ensures valid ==> Mid(before, s, at + Width(far) + Width(mod) + Width(oper), [], after)
    {
      hide Mid, Width, TableX, ModFields, OperandFields;
      flags := flags0;
      ok := true;
      if valid {
        NoWidth();
        FieldWidth(Field(ST_IMM16, 2));
      }
      if code == CALLF || code == JMPF || code == ENTER {
        ok := CopyField(ST_IMM16, 2, before, s, at, far + (mod + oper), after, valid);
        if !ok {
          return;
        }
        assert valid ==> (far + (mod + oper))[1..] == mod + oper;
      } else {
        assert valid ==> far + (mod + oper) == mod + oper;
      }
      assert valid ==> Mid(before, s, at + Width(far), mod + oper, after);
      if flags / 2 % 2 == 1 {
        if valid {
          ModRoom(before, s, at + Width(far), mod, oper, after);
        }
        ok, flags := ReadModRM(code, flags, before, s, at + Width(far), oper, after, valid);
        if !ok {
          return;
        }
      } else {
        assert valid ==> mod + oper == oper;
      }
      assert valid ==> Mid(before, s, at + Width(far) + Width(mod), oper, after);
      ok := ReadOperand(flags, o16, before, s, at + Width(far) + Width(mod), after, valid);
    }

    lemma ModRoom(before: seq<byte>, s: seq<byte>, at: nat, mod: seq<Field>, oper: seq<Field>, after: seq<Item>)
      requires Mid(before, s, at, mod + oper, after) && mod == ModFields(At(s, at), SibOf(s, at))
      ensures at < |s|
    {
      WidthAppend(mod, oper);
      ModWidth(At(s, at), SibOf(s, at));
    }

    /** An instruction behind the first byte of its opcode. */
    method ReadInstr(first: byte, memory: nat, ghost s: seq<byte>, ghost st: St, ghost after: seq<Item>, ghost valid: bool)
      returns (ok: bool)
      requires Ok()
      requires valid ==> StOk(st) && FlagsOf(s) != E && Size(s) <= |s| && |dest| + Size(s) <= destSize
      requires valid ==> At(s, 0) == first && State() == Entered(st, first, memory)
      requires valid ==> Serves(CodeItems(s, memory, st)[1..] + after)
      modifies this`pos, this`dest, this`nextIsFunc, funcTable
      ensures Ok() && old(pos)[ST_OP] <= pos[ST_OP]
      ensures valid ==> ok && dest == old(dest) + s[..Size(s)] && Serves(after) && State() == CodeNext(s, memory, st)
    {
      hide Mid, Serves, HeadOf, FlagsOf, HeadFields, FarFields, ModFieldsOf, OperandFields, Width, Fields, ModFields,
           RelativeItems, FrontOf, Before, Entered, Table1, Table2, TableX, CodeItems, Target, SibOf;
      ghost var before := dest;
      var start := |dest|;
      ghost var h, rel := HeadOf(s), if valid && Relative(FlagsOf(s)) then RelativeItems(s, memory, st) else [];
      ghost var far, oper := FarFields(h.code), OperandFields(FlagsOf(s), h.o16);
      ghost var mod := ModFieldsOf(s, h.size + Width(far), FlagsOf(s));
      if |dest| + 1 > destSize {
        if valid {
          SizeBound(s);
        }
        return false;
      }
      dest := dest + [first];
      if valid {
        FirstByte(before, s, memory, st, after);
        BehindFar(s);
        FieldsWidth(s);
      }
      var code, flags, o16;
      ok, code, flags, o16 := ReadOpcode(first, before, s, far + (mod + oper), rel + after, valid);
      if !ok {
        return;
      }
      if valid {
        BeforeIs(s, memory, st);
      }
      ok, flags := ReadBody(code, flags, o16, before, s, h.size, far, mod, oper, rel + after, valid);
      if !ok {
        return;
      }
      if valid {
        MidEnd(before, s, Width(Fields(s)), rel + after);
        assert rel == [] ==> rel + after == after;
      }
      if Mode(flags) == 1 && Type(flags) == 3 {
        ok := ReadRelative(code, start, memory, s, st, after, valid);
      }
    }

    /** One turn of the decoder: a group of jump table entries, an escaped byte or an instruction. */
    method ReadUnit(memory: nat, ghost u: Unit, ghost after: seq<Item>, ghost valid: bool) returns (ok: bool)
      requires Ok()
      requires valid ==> Legal(u) && |dest| + |UnitBytes(u)| <= destSize
      requires valid ==> Serves(UnitItems(u, memory, State()) + after)
      modifies this`pos, this`dest, this`nextIsFunc, funcTable
      ensures Ok() && (ok ==> old(pos)[ST_OP] < pos[ST_OP])
      ensures valid ==> ok && dest == old(dest) + UnitBytes(u) && Serves(after)
      ensures valid ==> State() == UnitNext(u, memory, old(State()))
    {
      hide Serves, Project, CodeItems, CodeNext, TargetsItems, TargetsTable, Littles, FlagsOf, Size, Front;
      ghost var st := State();
      ghost var items := if valid then UnitItems(u, memory, st) + after else [];
      if valid {
        FirstItem(u, memory, st);
        UnitPositive(u);
      }
      var data;
      ok, data := Fetch(ST_OP, 1, items, valid);
      if !ok {
        return;
      }
      var code := data[0];
      if code == JUMP_TAB {
        ghost var ts := if valid then u.targets else [];
        assert valid ==> items[1..] == [Item(ST_OP, [|ts| - 1])] + TargetsItems(st.table, ts) + after;
        ok := ReadGroup(ts, after, valid);
        return;
      }
      if nextIsFunc && code != INT3 {
        MoveToFront(funcTable, 255, memory);
        nextIsFunc := false;
      }
      assert State() == Entered(st, code, memory);
      if code == ESCAPE {
        assert valid ==> items[1..] == [Item(ST_OP, [u.b])] + after && items[1..][1..] == after;
        ok := Copy(ST_OP, 1, if valid then items[1..] else [], valid);
      } else {
        ghost var s := if valid then u.s else [];
        assert valid ==> items[1..] == CodeItems(s, memory, st)[1..] + after;
        ok := ReadInstr(code, memory, s, st, after, valid);
      }
    }

    /** The first byte is written: the other fields are to come. */
    lemma FirstByte(before: seq<byte>, s: seq<byte>, memory: nat, st: St, after: seq<Item>)
      requires Ok() && StOk(st) && Size(s) <= |s| && |before| + Size(s) <= destSize
      requires dest == before + [At(s, 0)] && Serves(CodeItems(s, memory, st)[1..] + after)
      ensures
        var h, flags := HeadOf(s), FlagsOf(s);
        var far, oper := FarFields(h.code), OperandFields(flags, h.o16);
        var mod := ModFieldsOf(s, h.size + Width(far), flags);
        var rel := if Relative(flags) then RelativeItems(s, memory, st) else [];
        Mid(before, s, 1, HeadFields(h)[1..] + (far + (mod + oper)), rel + after)
    {
      hide HeadOf, FlagsOf, FarFields, ModFieldsOf, OperandFields, RelativeItems, Serves;
      var h, flags := HeadOf(s), FlagsOf(s);
      var far, oper := FarFields(h.code), OperandFields(flags, h.o16);
      var mod := ModFieldsOf(s, h.size + Width(far), flags);
      var rel := if Relative(flags) then RelativeItems(s, memory, st) else [];
      var fs := Fields(s);
      assert HeadFields(h) != [] && HeadFields(h)[0] == Field(ST_OP, 1);
      assert CodeItems(s, memory, st) == FieldItems(s, 0, fs) + rel;
      hide FieldItems, Width, HeadFields, CodeItems, Size;
      RestFields(HeadFields(h), far, mod, oper);
      FieldItemsHead(s, 0, fs, rel);
      MidStart(before, s, fs, CodeItems(s, memory, st), rel, after);
    }

    lemma MidStart(before: seq<byte>, s: seq<byte>, fs: seq<Field>, items: seq<Item>, rel: seq<Item>, after: seq<Item>)
      requires Ok() && s != [] && fs != [] && fs[0] == Field(ST_OP, 1)
      requires Width(fs) <= |s| && Width(fs) == 1 + Width(fs[1..]) && |before| + Width(fs) <= destSize
      requires dest == before + [At(s, 0)] && items != [] && items[1..] == FieldItems(s, 1, fs[1..]) + rel
      requires Serves(items[1..] + after)
      ensures Mid(before, s, 1, fs[1..], rel + after)
    {
      hide FieldItems, Width, Serves;
      assert s[..1] == [At(s, 0)];
      assert (FieldItems(s, 1, fs[1..]) + rel) + after == FieldItems(s, 1, fs[1..]) + (rel + after);
    }

    lemma MidEnd(before: seq<byte>, s: seq<byte>, at: nat, after: seq<Item>)
      requires Mid(before, s, at, [], after)
      ensures at <= |s| && dest == before + s[..at] && Serves(after)
    {
      assert [] + after == after;
    }

    /** The last byte written is the one the decoder looks at. */
    lemma MidLast(before: seq<byte>, s: seq<byte>, at: nat, fs: seq<Field>, after: seq<Item>)
      requires Mid(before, s, at, fs, after) && 1 <= at
      ensures at <= |s| && dest != [] && dest[|dest| - 1] == s[at - 1]
    {
    }
  }

  /** What the decoder makes of the flags agrees with the encoder, although it looks at them earlier. */
  lemma BehindFar(s: seq<byte>)
    requires FlagsOf(s) != E
    ensures
      var h := HeadOf(s);
      var flags := if h.code == TWO_BYTE then Table2(h.code2) else Table1(h.code);
      var far := FarFields(h.code);
      var at := h.size + Width(far);
      && (IsFar(h.code) ==> far == [Field(ST_IMM16, 2)] && Width(far) == 2)
      && (!IsFar(h.code) ==> far == [] && Width(far) == 0)
      && FlagsOf(s) == (if flags == X then TableX(At(s, at), h.code) else flags)
      && ModFieldsOf(s, at, FlagsOf(s)) ==
         (if flags / 2 % 2 == 1 then ModFields(At(s, at), SibOf(s, at)) else [])
      && (Relative(FlagsOf(s)) <==> Mode(FlagsOf(s)) == 1 && Type(FlagsOf(s)) == 3)
  {
    FarOpcodes();
    hide Table1, Table2, TableX, ModFields;
    var h := HeadOf(s);
    Table1Regular(h.code);
    Table2Regular(h.code2);
    TableXModRM(At(s, h.size), h.code);
    hide HeadOf;
  }

  lemma NoWidth()
    ensures Width([]) == 0
  {
  }

  lemma FieldWidth(f: Field)
    ensures Width([f]) == f.width
  {
    assert [f][1..] == [];
  }

  lemma RestFields(head: seq<Field>, far: seq<Field>, mod: seq<Field>, oper: seq<Field>)
    requires head != []
    ensures (head + far + mod + oper)[0] == head[0] && (head + far + mod + oper)[1..] == head[1..] + (far + (mod + oper))
  {
  }

  lemma BeforeIs(s: seq<byte>, memory: nat, st: St)
    requires StOk(st)
    ensures
      var r := Entered(st, At(s, 0), memory);
      Before(s, memory, st) == St(r.table, r.next || Returns(HeadOf(s).code))
  {
  }

  lemma FarOpcodes()
    ensures Table1(CALLF) != X && Table1(JMPF) != X && Table1(ENTER) != X
  {
  }

  lemma TargetIs(s: seq<byte>, memory: nat)
    requires 4 <= Size(s) <= |s|
    ensures Target(s, memory) == (Word(s[Size(s) - 4..Size(s)]) + Size(s) + memory) % 0x1_0000_0000
  {
    hide Size, Num, Reversed;
  }

  /** Subtracting the place of the instruction and its length gives the operand back. */
  lemma TargetBack(s: seq<byte>, memory: nat)
    requires 4 <= Size(s) <= |s|
    ensures
      var n := Size(s);
      Little((Target(s, memory) - n - memory) % 0x1_0000_0000) == s[n - 4..n]
  {
    hide Size, Little, Word;
    var n := Size(s);
    var w := s[n - 4..n];
    WordBound(w);
    TargetIs(s, memory);
    WrapBack(Word(w), n + memory);
    assert Target(s, memory) - n - memory == Target(s, memory) - (n + memory);
  }

  lemma WrapBack(v: nat, k: nat)
    requires v < 0x1_0000_0000
    ensures ((v + k) % 0x1_0000_0000 - k) % 0x1_0000_0000 == v
  {
    var q := (v + k) / 0x1_0000_0000;
    assert (v + k) % 0x1_0000_0000 - k == v - q * 0x1_0000_0000;
  }

  lemma PrefixGrows(before: seq<byte>, s: seq<byte>, at: nat, width: nat)
    requires at + width <= |s|
    ensures before + s[..at + width] == before + s[..at] + s[at..at + width]
  {
  }

  lemma TargetsHead(table: seq<nat>, ts: seq<nat>)
    requires |table| == 256 && ts != []
    ensures TargetsItems(table, ts) == TargetItems(table, ts[0]) + TargetsItems(FrontOf(table, ts[0]), ts[1..])
    ensures TargetsTable(table, ts) == TargetsTable(FrontOf(table, ts[0]), ts[1..])
    ensures Littles(ts) == Little(ts[0]) + Littles(ts[1..])
  {
  }

  lemma NoTargets(table: seq<nat>)
    requires |table| == 256
    ensures TargetsItems(table, []) == [] && TargetsTable(table, []) == table && Littles([]) == []
  {
  }

  lemma FieldItemsHead(s: seq<byte>, at: nat, fs: seq<Field>, after: seq<Item>)
    requires fs != [] && at + Width(fs) <= |s|
    ensures
      var items, w := FieldItems(s, at, fs) + after, fs[0].width;
      && Width(fs) == w + Width(fs[1..]) && items != []
      && items[0] == Item(fs[0].stream, Reversed(s[at..at + w])) && |items[0].data| == w
      && items[1..] == FieldItems(s, at + w, fs[1..]) + after
  {
    var w := fs[0].width;
    FieldItemsIs(s, at, fs);
    hide FieldItems, Width, Reversed;
    var first, rest := Item(fs[0].stream, Reversed(s[at..at + w])), FieldItems(s, at + w, fs[1..]);
    assert ([first] + rest) + after == [first] + (rest + after);
  }

  /** Every unit starts with a byte of the first stream, which tells what kind of unit it is. */
  lemma FirstItem(u: Unit, memory: nat, st: St)
    requires Legal(u) && StOk(st)
    ensures
      var items := UnitItems(u, memory, st);
      && items != [] && items[0].stream == ST_OP && |items[0].data| == 1
      && (items[0].data[0] == JUMP_TAB <==> u.Group?)
      && (items[0].data[0] == ESCAPE <==> u.Escaped?)
      && (u.Code? ==> items[0].data == [At(u.s, 0)])
  {
    if u.Code? {
      var s := u.s;
      SpecialOpcodes();
      hide Table1, Table2, TableX;
      assert At(s, 0) != JUMP_TAB && At(s, 0) != ESCAPE;
      SizeBound(s);
      hide FlagsOf, HeadOf, FarFields, ModFieldsOf, OperandFields;
      assert Fields(s) != [] && Fields(s)[0] == Field(ST_OP, 1);
      FieldItemsHead(s, 0, Fields(s), []);
      assert s[..1] == [At(s, 0)];
    }
  }

  lemma UnitPositive(u: Unit)
    requires Legal(u)
    ensures 1 <= |UnitBytes(u)| && (u.Group? ==> |UnitBytes(u)| == 4 * |u.targets|)
  {
    match u
    case Group(ts) => LittlesSize(ts);
    case Code(s) => SizeBound(s);
    case Escaped(_) =>
  }

  /** The first stream is used up exactly when no unit is left. */
  lemma UnitsLeft(us: seq<Unit>, memory: nat, st: St)
    requires AllLegal(us) && StOk(st)
    ensures us == [] <==> Project(AllItems(us, memory, st), ST_OP) == []
  {
    if us != [] {
      FirstItem(us[0], memory, st);
      var items := AllItems(us, memory, st);
      assert items[0] == UnitItems(us[0], memory, st)[0];
      ProjectHead(items, ST_OP);
    }
  }

  // ------------------------------------------------------------------ the header

  /** The positions that the header gives for the first k streams serve them. */
  ghost predicate Located(source: seq<byte>, pos: seq<nat>, end: seq<nat>, items: seq<Item>, k: nat) {
    && |pos| == k && |end| == k
    && forall j :: 0 <= j < k ==> pos[j] <= end[j] <= |source| && source[pos[j]..end[j]] == Project(items, j)
  }

  lemma SizeStep(source: seq<byte>, at: nat, p: seq<byte>, sizes: seq<byte>, bodies: seq<byte>)
    requires at <= |source| < 0x1_0000_0000 && |p| <= |source| && source[at..] == Little(|p|) + sizes + bodies
    ensures at + 4 <= |source| && Word(source[at..at + 4]) == |p| && source[at + 4..] == sizes + bodies
  {
    hide Little, Word;
    assert Little(|p|) + sizes + bodies == Little(|p|) + (sizes + bodies);
    Peel(source, at, Little(|p|), sizes + bodies);
    WordLittle(|p|);
  }

  lemma HeaderStep(source: seq<byte>, items: seq<Item>, i: nat, at: nat, cur: nat)
    requires i < ST_MAX && at <= |source| && cur <= |source| < 0x1_0000_0000
    requires source[at..] == Sizes(items, i) + Bodies(items, 0) && source[cur..] == Bodies(items, i)
    ensures
      var n := |Project(items, i)|;
      && at + 4 <= |source| && Word(source[at..at + 4]) == n && cur + n <= |source|
      && source[at + 4..] == Sizes(items, i + 1) + Bodies(items, 0)
      && source[cur..cur + n] == Project(items, i) && source[cur + n..] == Bodies(items, i + 1)
  {
    StreamStep(items, i);
    hide Project, Sizes, Bodies, Little, Word;
    Peel(source, cur, Project(items, i), Bodies(items, i + 1));
    SizeStep(source, at, Project(items, i), Sizes(items, i + 1), Bodies(items, 0));
  }

  lemma Peel(s: seq<byte>, at: nat, a: seq<byte>, b: seq<byte>)
    requires at <= |s| && s[at..] == a + b
    ensures at + |a| <= |s| && s[at..at + |a|] == a && s[at + |a|..] == b
  {
    assert |s[at..]| == |s| - at;
    assert s[at..at + |a|] == s[at..][..|a|];
    assert s[at + |a|..] == s[at..][|a|..];
  }

  /** Reads the sizes of the streams; refuses them unless they add up to the input. */
  method ReadHeader(source: seq<byte>, ghost items: seq<Item>, ghost valid: bool)
    returns (ok: bool, pos: seq<nat>, end: seq<nat>)
    requires valid ==> source == Flushed(items) && |source| < 0x1_0000_0000
    ensures ok ==> |pos| == ST_MAX && |end| == ST_MAX && forall k :: 0 <= k < ST_MAX ==> pos[k] <= end[k] <= |source|
    ensures valid ==> ok && Located(source, pos, end, items, ST_MAX)
  {
    hide Project, Sizes, Bodies, Word;
    pos, end := [], [];
    if |source| < 4 * ST_MAX {
      return false, pos, end;
    }
    var cur := 4 * ST_MAX;
    for i := 0 to ST_MAX
      invariant |pos| == i && |end| == i && 4 * ST_MAX <= cur
      invariant forall k :: 0 <= k < i ==> pos[k] <= end[k] <= cur
      invariant valid ==> source[4 * i..] == Sizes(items, i) + Bodies(items, 0)
      invariant valid ==> cur <= |source| && source[cur..] == Bodies(items, i) && Located(source, pos, end, items, i)
    {
      if valid {
        HeaderStep(source, items, i, 4 * i, cur);
      }
      pos := pos + [cur];
      cur := cur + Word(source[4 * i..4 * i + 4]);
      end := end + [cur];
    }
    if valid {
      StreamEnd(items);
      assert |source[cur..]| == |source| - cur;
    }
    ok := cur == |source|;
  }

  /**
    DisUnFilter: safe on every input, within destSize; rebuilds the code from the output of the filter for any
    cutting of the code into units.
   */
  method DisUnFilter(source: seq<byte>, destSize: nat, memStart: nat, ghost us: seq<Unit>, ghost valid: bool)
    returns (ok: bool, dest: seq<byte>)
    requires valid ==> AllLegal(us) && source == Flushed(AllItems(us, memStart, Start())) && |source| < 0x1_0000_0000
    requires valid ==> |AllBytes(us)| <= destSize && memStart + |AllBytes(us)| < 0x1_0000_0000
    ensures |dest| <= destSize
    ensures valid ==> ok && dest == AllBytes(us)
  {
    hide Project, UnitItems, UnitNext, UnitBytes, Legal, Flushed, Start, Located, Reader.Serves;
    ghost var rest := us;
    ghost var items := if valid then AllItems(us, memStart, Start()) else [];
    var pos, end;
    ok, pos, end := ReadHeader(source, items, valid);
    if !ok {
      return false, [];
    }
    var r := new Reader(source, pos, end, destSize);
    if valid {
      r.ServesFrom(items);
    }
    while r.pos[ST_OP] < r.end[ST_OP]
      invariant r.Ok() && r.source == source && r.destSize == destSize && fresh(r) && fresh(r.funcTable)
      invariant valid ==> AllLegal(rest) && r.dest + AllBytes(rest) == AllBytes(us)
      invariant valid ==> r.Serves(AllItems(rest, memStart + |r.dest|, r.State()))
      decreases r.end[ST_OP] - r.pos[ST_OP]
    {
      var memory := (memStart + |r.dest|) % 0x1_0000_0000;
      ghost var u, after: seq<Item> := Escaped(0), [];
      if valid {
        StreamLeft(r, rest, memStart + |r.dest|);
        assert |r.dest + AllBytes(rest)| == |AllBytes(us)|;
        u := rest[0];
        after := AllItems(rest[1..], memory + |UnitBytes(u)|, UnitNext(u, memory, r.State()));
      }
      ok := r.ReadUnit(memory, u, after, valid);
      if !ok {
        return false, r.dest;
      }
      if valid {
        rest := rest[1..];
      }
    }
    if valid {
      StreamLeft(r, rest, memStart + |r.dest|);
    }
    return true, r.dest;
  }

  /** The loop goes on as long as units are left. */
  lemma StreamLeft(r: Reader, rest: seq<Unit>, memory: nat)
    requires r.Ok() && AllLegal(rest) && r.Serves(AllItems(rest, memory, r.State()))
    ensures rest == [] <==> r.pos[ST_OP] >= r.end[ST_OP]
  {
    UnitsLeft(rest, memory, r.State());
    assert |r.source[r.pos[ST_OP]..r.end[ST_OP]]| == r.end[ST_OP] - r.pos[ST_OP];
  }
}
