/**
  DisPack.cpp: what the filter writes, as a list of items, each a few bytes for one of the 19 streams.  The
  code is cut into units: instructions, groups of jump table entries, and escaped bytes.  Encoder and decoder
  handle the items one after the other, and so agree on the contents of every stream.
 */
module DisPackUnits {
  import opened Bytes
  import opened DisPackCode

  datatype Item = Item(stream: nat, data: seq<byte>)

  /** The contents of stream k. */
  function Project(items: seq<Item>, k: nat): seq<byte> {
    if items == [] then []
    else (if items[0].stream == k then items[0].data else []) + Project(items[1..], k)
  }

  lemma ProjectHead(items: seq<Item>, k: nat)
    requires items != []
    ensures Project(items, k) == (if items[0].stream == k then items[0].data else []) + Project(items[1..], k)
  {
  }

  lemma {:induction false} ProjectAppend(a: seq<Item>, b: seq<Item>, k: nat)
    ensures Project(a + b, k) == Project(a, k) + Project(b, k)
  {
    hide Project;
    if a == [] {
      assert a + b == b;
      ProjectNone(k);
    } else {
      var first := if a[0].stream == k then a[0].data else [];
      ProjectAppend(a[1..], b, k);
      assert (a + b)[1..] == a[1..] + b && (a + b)[0] == a[0];
      ProjectHead(a, k);
      ProjectHead(a + b, k);
      assert first + (Project(a[1..], k) + Project(b, k)) == (first + Project(a[1..], k)) + Project(b, k);
    }
  }

  lemma ProjectNone(k: nat)
    ensures Project([], k) == []
  {
  }

  // ------------------------------------------------------------------ the table of call targets

  /** FuncTable and NextIsFunc. */
  datatype St = St(table: seq<nat>, next: bool)

  predicate StOk(st: St) {
    |st.table| == 256
  }

  /** The first of the 255 leading entries equal to val, -1 if there is none. */
  function Find(table: seq<nat>, val: nat, from: nat): (i: int)
    requires |table| == 256 && from <= 255
    ensures i == -1 || (from <= i < 255 && table[i] == val)
    ensures forall j :: from <= j < (if i == -1 then 255 else i) ==> table[j] != val
    decreases 255 - from
  {
    if from == 255 then -1 else if table[from] == val then from else Find(table, val, from + 1)
  }

  function Front(table: seq<nat>, pos: nat, val: nat): (r: seq<nat>)
    requires pos < |table|
    ensures |r| == |table|
  {
    [val] + table[..pos] + table[pos + 1..]
  }

  function FrontOf(table: seq<nat>, val: nat): (r: seq<nat>)
    requires |table| == 256
    ensures |r| == 256
  {
    var i := Find(table, val, 0);
    Front(table, if i == -1 then 255 else i, val)
  }

  /** An index into the table, and the target itself when it is not there. */
  function TargetItems(table: seq<nat>, t: nat): seq<Item>
    requires |table| == 256
  {
    var i := Find(table, t, 0);
    [Item(ST_CALL_IDX, [i + 1])] + if i == -1 then [Item(ST_CALL32, BigEndian(t, 4))] else []
  }

  // ------------------------------------------------------------------ the fields of an instruction

  /** Some bytes of an instruction that go to one stream, most significant first. */
  datatype Field = Field(stream: nat, width: nat)

  datatype Head = Head(o16: bool, code: byte, code2: byte, size: nat)

  function At(s: seq<byte>, i: nat): byte {
    if i < |s| then s[i] else 0
  }

  /** Operand size prefix, opcode, second byte of the opcode. */
  function HeadOf(s: seq<byte>): (h: Head)
    ensures 1 <= h.size <= 3
  {
    var k := if At(s, 0) == OSIZE then 1 else 0;
    if At(s, k) == TWO_BYTE then Head(k == 1, At(s, k), At(s, k + 1), k + 2) else Head(k == 1, At(s, k), 0, k + 1)
  }

  function FlagsOf(s: seq<byte>): nat {
    var h := HeadOf(s);
    var f := if h.code == TWO_BYTE then Table2(h.code2) else Table1(h.code);
    if f == X then TableX(At(s, h.size), h.code) else f
  }

  function HeadFields(h: Head): seq<Field> {
    (if h.o16 then [Field(ST_OP, 1)] else []) + [Field(ST_OP, 1)] + (if h.code == TWO_BYTE then [Field(ST_OP, 1)] else [])
  }

  predicate IsFar(code: byte) {
    code == CALLF || code == JMPF || code == ENTER
  }

  function FarFields(code: byte): seq<Field> {
    if IsFar(code) then [Field(ST_IMM16, 2)] else []
  }

  predicate HasSib(modrm: byte) {
    modrm % 8 == 4 && modrm / 64 != 3
  }

  predicate HasDisp32(modrm: byte, sib: byte) {
    modrm / 64 == 2 || (modrm / 64 == 0 && modrm % 8 == 5) || (modrm / 64 == 0 && sib % 8 == 5)
  }

  function Disp32Stream(modrm: byte): nat {
    if modrm / 64 == 0 && modrm % 8 == 5 then ST_ADDR32 else ST_DISP32
  }

  /** ModRM byte, SIB byte, displacement. */
  function ModFields(modrm: byte, sib: byte): seq<Field> {
    [Field(ST_OP, 1)] + (if HasSib(modrm) then [Field(ST_SIB, 1)] else [])
    + (if modrm / 64 == 1 then [Field(ST_DISP8 + modrm % 8, 1)] else [])
    + (if HasDisp32(modrm, sib) then [Field(Disp32Stream(modrm), 4)] else [])
  }

  /** The operand, unless it is a relative jump target of four bytes. */
  function OperandFields(flags: nat, o16: bool): seq<Field> {
    if Mode(flags) == 1 then
      match Type(flags)
      case 0 => [Field(ST_ADDR32, 4)]
      case 1 => [Field(ST_JUMP32, 4)]
      case 2 => [Field(ST_JUMP8, 1)]
      case _ => []
    else
      match Type(flags)
      case 0 => []
      case 1 => [Field(ST_IMM8, 1)]
      case 2 => [Field(ST_IMM16, 2)]
      case _ => if o16 then [Field(ST_IMM16, 2)] else [Field(ST_IMM32, 4)]
  }

  predicate Relative(flags: nat) {
    flags == L
  }

  function Width(fs: seq<Field>): nat {
    if fs == [] then 0 else fs[0].width + Width(fs[1..])
  }

  function SibOf(s: seq<byte>, at: nat): byte {
    if HasSib(At(s, at)) then At(s, at + 1) else 0
  }

  function ModFieldsOf(s: seq<byte>, at: nat, flags: nat): seq<Field> {
    if ModRM(flags) then ModFields(At(s, at), SibOf(s, at)) else []
  }

  function Fields(s: seq<byte>): seq<Field> {
    var h, flags := HeadOf(s), FlagsOf(s);
    HeadFields(h) + FarFields(h.code) + ModFieldsOf(s, h.size + Width(FarFields(h.code)), flags)
    + OperandFields(flags, h.o16)
  }

  /** The length of the instruction at the start of s. */
  function Size(s: seq<byte>): nat {
    Width(Fields(s)) + if Relative(FlagsOf(s)) then 4 else 0
  }

  function FieldItems(s: seq<byte>, at: nat, fs: seq<Field>): seq<Item>
    requires at + Width(fs) <= |s|
    decreases |fs|
  {
    if fs == [] then []
    else [Item(fs[0].stream, Reversed(s[at..at + fs[0].width]))] + FieldItems(s, at + fs[0].width, fs[1..])
  }

  lemma {:induction false} WidthAppend(a: seq<Field>, b: seq<Field>)
    ensures Width(a + b) == Width(a) + Width(b)
  {
    if a == [] {
      assert a + b == b;
    } else {
      WidthAppend(a[1..], b);
      assert (a + b)[1..] == a[1..] + b;
    }
  }

  lemma {:induction false} FieldItemsAppend(s: seq<byte>, at: nat, a: seq<Field>, b: seq<Field>)
    requires at + Width(a) + Width(b) <= |s|
    ensures Width(a + b) == Width(a) + Width(b)
    ensures FieldItems(s, at, a + b) == FieldItems(s, at, a) + FieldItems(s, at + Width(a), b)
    decreases |a|
  {
    hide FieldItems, Reversed, Width;
    WidthAppend(a, b);
    if a == [] {
      assert a + b == b;
      NoFieldItems(s, at);
    } else {
      var c := a + b;
      assert c[1..] == a[1..] + b && c[0] == a[0];
      FieldItemsIs(s, at, a);
      FieldItemsIs(s, at, c);
      var next := at + a[0].width;
      FieldItemsAppend(s, next, a[1..], b);
      var first := Item(a[0].stream, Reversed(s[at..next]));
      JoinItems(first, FieldItems(s, next, a[1..]), FieldItems(s, at + Width(a), b));
    }
  }

  lemma JoinItems(first: Item, more: seq<Item>, rest: seq<Item>)
    ensures [first] + (more + rest) == ([first] + more) + rest
  {
  }

  lemma NoFieldItems(s: seq<byte>, at: nat)
    requires at <= |s|
    ensures Width([]) == 0 && FieldItems(s, at, []) == []
  {
  }

  lemma FieldItemsIs(s: seq<byte>, at: nat, fs: seq<Field>)
    requires fs != [] && at + Width(fs) <= |s|
    ensures Width(fs) == fs[0].width + Width(fs[1..])
    ensures
      var w := fs[0].width;
      FieldItems(s, at, fs) == [Item(fs[0].stream, Reversed(s[at..at + w]))] + FieldItems(s, at + w, fs[1..])
  {
    hide Reversed;
  }

  // ------------------------------------------------------------------ units

  datatype Unit =
    | Group(targets: seq<nat>)      // entries of a jump table
    | Code(s: seq<byte>)            // the instruction at the start of s
    | Escaped(b: byte)

  predicate Legal(u: Unit) {
    match u
    case Group(ts) => 1 <= |ts| <= 256 && forall i :: 0 <= i < |ts| ==> ts[i] < 0x1_0000_0000
    case Code(s) => FlagsOf(s) != E && Size(s) <= |s|
    case Escaped(_) => true
  }

  function Littles(ts: seq<nat>): seq<byte> {
    if ts == [] then [] else Little(ts[0]) + Littles(ts[1..])
  }

  function UnitBytes(u: Unit): seq<byte>
    requires Legal(u)
  {
    match u
    case Group(ts) => Littles(ts)
    case Code(s) => s[..Size(s)]
    case Escaped(b) => [b]
  }

  /** The absolute target of a relative jump at memory, modulo 2^32. */
  function Target(s: seq<byte>, memory: nat): nat
    requires 4 <= Size(s) <= |s|
  {
    (Num(Reversed(s[Size(s) - 4..Size(s)])) + Size(s) + memory) % 0x1_0000_0000
  }

  /** The start of an instruction that is likely to be the first of a function enters the table. */
  function Entered(st: St, first: byte, memory: nat): (r: St)
    requires StOk(st)
    ensures StOk(r)
  {
    if st.next && first != INT3 then St(Front(st.table, 255, memory), false) else st
  }

  predicate Returns(code: byte) {
    code == RETNI || code == RETN || code == INT3
  }

  /** The state when the target, if any, is coded. */
  function Before(s: seq<byte>, memory: nat, st: St): (r: St)
    requires StOk(st)
    ensures StOk(r)
  {
    var r := Entered(st, At(s, 0), memory);
    St(r.table, r.next || Returns(HeadOf(s).code))
  }

  function TargetsTable(table: seq<nat>, ts: seq<nat>): (r: seq<nat>)
    requires |table| == 256
    ensures |r| == 256
    decreases |ts|
  {
    if ts == [] then table else TargetsTable(FrontOf(table, ts[0]), ts[1..])
  }

  function TargetsItems(table: seq<nat>, ts: seq<nat>): seq<Item>
    requires |table| == 256
    decreases |ts|
  {
    if ts == [] then [] else TargetItems(table, ts[0]) + TargetsItems(FrontOf(table, ts[0]), ts[1..])
  }

  function RelativeItems(s: seq<byte>, memory: nat, st: St): seq<Item>
    requires StOk(st) && 4 <= Size(s) <= |s|
  {
    if HeadOf(s).code == CALLN then TargetItems(Before(s, memory, st).table, Target(s, memory))
    else [Item(ST_JUMP32, BigEndian(Target(s, memory), 4))]
  }

  function CodeItems(s: seq<byte>, memory: nat, st: St): seq<Item>
    requires StOk(st) && Size(s) <= |s|
  {
    FieldItems(s, 0, Fields(s)) + if Relative(FlagsOf(s)) then RelativeItems(s, memory, st) else []
  }

  function CodeNext(s: seq<byte>, memory: nat, st: St): (r: St)
    requires StOk(st) && Size(s) <= |s|
    ensures StOk(r)
  {
    var b := Before(s, memory, st);
    if Relative(FlagsOf(s)) && HeadOf(s).code == CALLN then St(FrontOf(b.table, Target(s, memory)), b.next) else b
  }

  function UnitItems(u: Unit, memory: nat, st: St): seq<Item>
    requires Legal(u) && StOk(st)
  {
    match u
    case Group(ts) => [Item(ST_OP, [JUMP_TAB]), Item(ST_OP, [|ts| - 1])] + TargetsItems(st.table, ts)
    case Code(s) => CodeItems(s, memory, st)
    case Escaped(b) => [Item(ST_OP, [ESCAPE]), Item(ST_OP, [b])]
  }

  function UnitNext(u: Unit, memory: nat, st: St): (r: St)
    requires Legal(u) && StOk(st)
    ensures StOk(r)
  {
    match u
    case Group(ts) => St(TargetsTable(st.table, ts), st.next)
    case Code(s) => CodeNext(s, memory, st)
    case Escaped(b) => Entered(st, ESCAPE, memory)
  }

  predicate AllLegal(us: seq<Unit>) {
    forall i :: 0 <= i < |us| ==> Legal(us[i])
  }

  function AllBytes(us: seq<Unit>): seq<byte>
    requires AllLegal(us)
  {
    if us == [] then [] else UnitBytes(us[0]) + AllBytes(us[1..])
  }

  /** The items of units that start at memory. */
  function AllItems(us: seq<Unit>, memory: nat, st: St): seq<Item>
    requires AllLegal(us) && StOk(st)
    decreases |us|
  {
    if us == [] then []
    else
      UnitItems(us[0], memory, st)
      + AllItems(us[1..], memory + |UnitBytes(us[0])|, UnitNext(us[0], memory, st))
  }

  function AllNext(us: seq<Unit>, memory: nat, st: St): (r: St)
    requires AllLegal(us) && StOk(st)
    ensures StOk(r)
    decreases |us|
  {
    if us == [] then st
    else AllNext(us[1..], memory + |UnitBytes(us[0])|, UnitNext(us[0], memory, st))
  }

  /** One more unit at the end. */
  lemma {:induction false} AllSnoc(us: seq<Unit>, u: Unit, memory: nat, st: St)
    requires AllLegal(us) && Legal(u) && StOk(st)
    ensures AllLegal(us + [u])
    ensures AllBytes(us + [u]) == AllBytes(us) + UnitBytes(u)
    ensures AllItems(us + [u], memory, st) ==
            AllItems(us, memory, st) + UnitItems(u, memory + |AllBytes(us)|, AllNext(us, memory, st))
    ensures AllNext(us + [u], memory, st) == UnitNext(u, memory + |AllBytes(us)|, AllNext(us, memory, st))
    decreases |us|
  {
    hide UnitBytes, UnitItems, UnitNext, Legal;
    if us == [] {
      assert [u][1..] == [];
    } else {
      assert (us + [u])[1..] == us[1..] + [u];
      AllSnoc(us[1..], u, memory + |UnitBytes(us[0])|, UnitNext(us[0], memory, st));
    }
  }

  function Start(): (st: St)
    ensures StOk(st)
  {
    St(Repeat(0, 256), true)
  }
}
