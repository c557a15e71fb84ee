/** DisPack.cpp: how long instructions are, and how the streams are put one behind the other. */
module DisPackStreams {
  import opened Bytes
  import opened DisPackCode
  import opened DisPackUnits

  const MAX_INSTR: nat := 15

  lemma HeadWidth(h: Head)
    ensures Width(HeadFields(h)) == (if h.o16 then 1 else 0) + 1 + if h.code == TWO_BYTE then 1 else 0
  {
    var a := if h.o16 then [Field(ST_OP, 1)] else [];
    var b := [Field(ST_OP, 1)];
    WidthAppend(a, b);
    if h.code == TWO_BYTE {
      WidthAppend(a + b, b);
      assert HeadFields(h) == a + b + b;
    } else {
      assert HeadFields(h) == a + b;
    }
  }

  lemma HeadSize(s: seq<byte>)
    ensures HeadOf(s).size == Width(HeadFields(HeadOf(s)))
  {
    HeadWidth(HeadOf(s));
  }

  lemma ModWidth(modrm: byte, sib: byte)
    ensures Width(ModFields(modrm, sib)) ==
            1 + (if HasSib(modrm) then 1 else 0) + (if modrm / 64 == 1 then 1 else 0)
            + (if HasDisp32(modrm, sib) then 4 else 0)
    ensures Width(ModFields(modrm, sib)) <= 6
  {
    var a := [Field(ST_OP, 1)];
    var b := if HasSib(modrm) then [Field(ST_SIB, 1)] else [];
    var c := if modrm / 64 == 1 then [Field(ST_DISP8 + modrm % 8, 1)] else [];
    var d := if HasDisp32(modrm, sib) then [Field(Disp32Stream(modrm), 4)] else [];
    WidthAppend(a, b);
    WidthAppend(a + b, c);
    WidthAppend(a + b + c, d);
    assert ModFields(modrm, sib) == a + b + c + d;
  }

  lemma FieldsWidth(s: seq<byte>)
    ensures
      var h, flags := HeadOf(s), FlagsOf(s);
      Width(Fields(s)) == h.size + Width(FarFields(h.code))
      + Width(ModFieldsOf(s, h.size + Width(FarFields(h.code)), flags)) + Width(OperandFields(flags, h.o16))
  {
    hide FlagsOf, HeadOf, HeadFields, FarFields, ModFieldsOf, OperandFields, Width;
    var h, flags := HeadOf(s), FlagsOf(s);
    HeadSize(s);
    var a, b := HeadFields(h), FarFields(h.code);
    var c, d := ModFieldsOf(s, h.size + Width(b), flags), OperandFields(flags, h.o16);
    WidthAppend(a, b);
    WidthAppend(a + b, c);
    WidthAppend(a + b + c, d);
  }

  /** No instruction is longer than MAXINSTR. */
  lemma SizeBound(s: seq<byte>)
    ensures 1 <= Size(s) <= MAX_INSTR
  {
    hide FlagsOf, HeadOf, ModFields;
    FieldsWidth(s);
    var h, flags := HeadOf(s), FlagsOf(s);
    var at := h.size + Width(FarFields(h.code));
    ModWidth(At(s, at), SibOf(s, at));
  }

  lemma FlagsRegular(s: seq<byte>)
    ensures FlagsOf(s) == E || PlainMode(FlagsOf(s)) || ModRM(FlagsOf(s))
  {
    hide Table1, Table2, TableX;
    var h := HeadOf(s);
    Table1Regular(h.code);
    Table2Regular(h.code2);
    TableXModRM(At(s, h.size), h.code);
  }

  // ------------------------------------------------------------------ the stream of streams

  /** The sizes of the streams from the k-th on. */
  function Sizes(items: seq<Item>, k: nat): (s: seq<byte>)
    requires k <= ST_MAX
    ensures |s| == 4 * (ST_MAX - k)
    decreases ST_MAX - k
  {
    if k == ST_MAX then [] else Little(|Project(items, k)|) + Sizes(items, k + 1)
  }

  function Bodies(items: seq<Item>, k: nat): seq<byte>
    requires k <= ST_MAX
    decreases ST_MAX - k
  {
    if k == ST_MAX then [] else Project(items, k) + Bodies(items, k + 1)
  }

  function Flushed(items: seq<Item>): seq<byte> {
    Sizes(items, 0) + Bodies(items, 0)
  }

  // ------------------------------------------------------------------ the size of the output

  function Data(items: seq<Item>): nat {
    if items == [] then 0 else |items[0].data| + Data(items[1..])
  }

  predicate InStreams(items: seq<Item>) {
    forall i :: 0 <= i < |items| ==> items[i].stream < ST_MAX
  }

  lemma {:induction false} DataAppend(a: seq<Item>, b: seq<Item>)
    ensures Data(a + b) == Data(a) + Data(b)
  {
    if a == [] {
      assert a + b == b;
    } else {
      assert (a + b)[1..] == a[1..] + b;
      DataAppend(a[1..], b);
    }
  }

  lemma {:induction false} BodiesNone(k: nat)
    requires k <= ST_MAX
    ensures Bodies([], k) == []
    decreases ST_MAX - k
  {
    if k < ST_MAX {
      BodiesNone(k + 1);
    }
  }

  lemma {:induction false} BodiesHead(items: seq<Item>, k: nat)
    requires items != [] && k <= ST_MAX && items[0].stream < ST_MAX
    ensures |Bodies(items, k)| == |Bodies(items[1..], k)| + if k <= items[0].stream then |items[0].data| else 0
    decreases ST_MAX - k
  {
    hide Project, Bodies;
    BodiesNext(items, k);
    BodiesNext(items[1..], k);
    if k < ST_MAX {
      ProjectHead(items, k);
      BodiesHead(items, k + 1);
    }
  }

  lemma BodiesNext(items: seq<Item>, k: nat)
    requires k <= ST_MAX
    ensures Bodies(items, k) == if k == ST_MAX then [] else Project(items, k) + Bodies(items, k + 1)
  {
    hide Project;
  }

  lemma {:induction false} BodiesSize(items: seq<Item>)
    requires InStreams(items)
    ensures |Bodies(items, 0)| == Data(items)
  {
    hide Bodies, Project;
    if items == [] {
      BodiesNone(0);
    } else {
      BodiesHead(items, 0);
      BodiesSize(items[1..]);
    }
  }

  lemma {:induction false} FieldData(s: seq<byte>, at: nat, fs: seq<Field>)
    requires at + Width(fs) <= |s| && forall i :: 0 <= i < |fs| ==> fs[i].stream < ST_MAX
    ensures Data(FieldItems(s, at, fs)) == Width(fs) && InStreams(FieldItems(s, at, fs))
    decreases |fs|
  {
    if fs != [] {
      FieldData(s, at + fs[0].width, fs[1..]);
      var rest := FieldItems(s, at + fs[0].width, fs[1..]);
      assert FieldItems(s, at, fs)[1..] == rest;
    }
  }

  lemma FieldStreams(s: seq<byte>)
    ensures AllStreams(Fields(s))
  {
    hide FlagsOf, HeadOf, HeadFields, FarFields, ModFieldsOf, OperandFields, Width, AllStreams;
    var h, flags := HeadOf(s), FlagsOf(s);
    var at := h.size + Width(FarFields(h.code));
    HeadStreams(h);
    ModStreams(s, at, flags);
    OperandStreams(flags, h.o16);
    JoinStreams(HeadFields(h), FarFields(h.code), ModFieldsOf(s, at, flags), OperandFields(flags, h.o16));
  }

  predicate AllStreams(fs: seq<Field>) {
    forall i :: 0 <= i < |fs| ==> fs[i].stream < ST_MAX
  }

  lemma JoinStreams(a: seq<Field>, b: seq<Field>, c: seq<Field>, d: seq<Field>)
    requires AllStreams(a) && AllStreams(b) && AllStreams(c) && AllStreams(d)
    ensures AllStreams(a + b + c + d)
  {
  }

  lemma HeadStreams(h: Head)
    ensures AllStreams(HeadFields(h)) && AllStreams(FarFields(h.code))
  {
  }

  lemma ModStreams(s: seq<byte>, at: nat, flags: nat)
    ensures AllStreams(ModFieldsOf(s, at, flags))
  {
    hide HasSib, HasDisp32;
  }

  lemma OperandStreams(flags: nat, o16: bool)
    ensures AllStreams(OperandFields(flags, o16))
  {
  }

  lemma TargetData(table: seq<nat>, t: nat)
    requires |table| == 256
    ensures Data(TargetItems(table, t)) <= 5 && InStreams(TargetItems(table, t))
  {
    var i := Find(table, t, 0);
    var a, b := [Item(ST_CALL_IDX, [i + 1])], if i == -1 then [Item(ST_CALL32, BigEndian(t, 4))] else [];
    assert a[1..] == [] && (b != [] ==> b[1..] == []);
    DataAppend(a, b);
  }

  lemma {:induction false} TargetsData(table: seq<nat>, ts: seq<nat>)
    requires |table| == 256
    ensures Data(TargetsItems(table, ts)) <= 5 * |ts| && InStreams(TargetsItems(table, ts))
    decreases |ts|
  {
    hide FrontOf, TargetItems;
    if ts != [] {
      TargetData(table, ts[0]);
      TargetsData(FrontOf(table, ts[0]), ts[1..]);
      DataAppend(TargetItems(table, ts[0]), TargetsItems(FrontOf(table, ts[0]), ts[1..]));
    }
  }

  lemma {:induction false} LittlesSize(ts: seq<nat>)
    ensures |Littles(ts)| == 4 * |ts|
  {
    if ts != [] {
      LittlesSize(ts[1..]);
    }
  }

  /** A unit takes at most twice its size in the streams. */
  lemma UnitData(u: Unit, memory: nat, st: St)
    requires Legal(u) && StOk(st)
    ensures Data(UnitItems(u, memory, st)) <= 2 * |UnitBytes(u)| && InStreams(UnitItems(u, memory, st))
  {
    match u {
      case Group(ts) =>
        hide TargetsItems, Littles, Find;
        TargetsData(st.table, ts);
        LittlesSize(ts);
        PairData(Item(ST_OP, [JUMP_TAB]), Item(ST_OP, [|ts| - 1]));
        DataAppend([Item(ST_OP, [JUMP_TAB]), Item(ST_OP, [|ts| - 1])], TargetsItems(st.table, ts));
      case Code(s) =>
        FieldStreams(s);
        FieldData(s, 0, Fields(s));
        SizeBound(s);
        hide Fields, FieldItems, FlagsOf, HeadOf, TargetItems, Width;
        if Relative(FlagsOf(s)) {
          var r := RelativeItems(s, memory, st);
          if HeadOf(s).code == CALLN {
            TargetData(Before(s, memory, st).table, Target(s, memory));
          } else {
            assert r[1..] == [];
          }
          DataAppend(FieldItems(s, 0, Fields(s)), r);
        } else {
          assert CodeItems(s, memory, st) == FieldItems(s, 0, Fields(s));
        }
      case Escaped(b) =>
        PairData(Item(ST_OP, [ESCAPE]), Item(ST_OP, [b]));
    }
  }

  lemma PairData(a: Item, b: Item)
    ensures Data([a, b]) == |a.data| + |b.data|
  {
    assert [a, b][1..] == [b] && [b][1..] == [];
    assert Data([b]) == |b.data|;
  }

  lemma {:induction false} AllData(us: seq<Unit>, memory: nat, st: St)
    requires AllLegal(us) && StOk(st)
    ensures Data(AllItems(us, memory, st)) <= 2 * |AllBytes(us)| && InStreams(AllItems(us, memory, st))
    decreases |us|
  {
    hide UnitItems, UnitNext, UnitBytes, Legal;
    if us != [] {
      UnitData(us[0], memory, st);
      AllData(us[1..], memory + |UnitBytes(us[0])|, UnitNext(us[0], memory, st));
      DataAppend(UnitItems(us[0], memory, st), AllItems(us[1..], memory + |UnitBytes(us[0])|, UnitNext(us[0], memory, st)));
    }
  }

  /** The output of the filter is at most 76 bytes longer than twice the code. */
  lemma FlushedSize(us: seq<Unit>, memory: nat)
    requires AllLegal(us)
    ensures |Flushed(AllItems(us, memory, Start()))| <= 4 * ST_MAX + 2 * |AllBytes(us)|
  {
    AllData(us, memory, Start());
    BodiesSize(AllItems(us, memory, Start()));
  }

  /** An instruction other than a near call: it takes in the streams what it took in the code. */
  predicate Kept(u: Unit) {
    u.Code? && !(Relative(FlagsOf(u.s)) && HeadOf(u.s).code == CALLN)
  }

  lemma KeptData(u: Unit, memory: nat, st: St)
    requires Legal(u) && StOk(st) && Kept(u)
    ensures Data(UnitItems(u, memory, st)) == |UnitBytes(u)|
  {
    var s := u.s;
    FieldStreams(s);
    FieldData(s, 0, Fields(s));
    SizeBound(s);
    hide Fields, FieldItems, FlagsOf, HeadOf, TargetItems, Width;
    if Relative(FlagsOf(s)) {
      var r := RelativeItems(s, memory, st);
      assert r[1..] == [];
      DataAppend(FieldItems(s, 0, Fields(s)), r);
    } else {
      assert CodeItems(s, memory, st) == FieldItems(s, 0, Fields(s));
    }
  }

  lemma {:induction false} KeptAll(us: seq<Unit>, memory: nat, st: St)
    requires AllLegal(us) && StOk(st) && forall i :: 0 <= i < |us| ==> Kept(us[i])
    ensures Data(AllItems(us, memory, st)) == |AllBytes(us)|
    decreases |us|
  {
    hide UnitItems, UnitNext, UnitBytes, Legal, Kept;
    if us != [] {
      KeptData(us[0], memory, st);
      KeptAll(us[1..], memory + |UnitBytes(us[0])|, UnitNext(us[0], memory, st));
      DataAppend(UnitItems(us[0], memory, st), AllItems(us[1..], memory + |UnitBytes(us[0])|, UnitNext(us[0], memory, st)));
    }
  }

  /** Such code grows by the sizes of the streams alone. */
  lemma KeptSize(us: seq<Unit>, memory: nat)
    requires AllLegal(us) && forall i :: 0 <= i < |us| ==> Kept(us[i])
    ensures |Flushed(AllItems(us, memory, Start()))| == 4 * ST_MAX + |AllBytes(us)|
  {
    hide Kept;
    AllData(us, memory, Start());
    KeptAll(us, memory, Start());
    BodiesSize(AllItems(us, memory, Start()));
  }
}
