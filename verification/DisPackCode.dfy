/**
  DisPack.cpp: the opcode tables, and how an instruction is cut into fields that go to different streams.

  Flags are four bits: the mode in the low two (no ModRM, address, ModRM, ModRM with opcode bits), the type
  of operand in the high two.
 */
module DisPackCode {
  import opened Bytes

  const OSIZE: byte := 0x66
  const TWO_BYTE: byte := 0x0f
  const CALLF: byte := 0x9a
  const RETNI: byte := 0xc2
  const RETN: byte := 0xc3
  const ENTER: byte := 0xc8
  const INT3: byte := 0xcc
  const CALLN: byte := 0xe8
  const JMPF: byte := 0xea
  const ESCAPE: byte := 0xf1
  const JUMP_TAB: byte := 0xce

  const ST_OP: nat := 0
  const ST_SIB: nat := 1
  const ST_CALL_IDX: nat := 2
  const ST_DISP8: nat := 3
  const ST_JUMP8: nat := 11
  const ST_IMM8: nat := 12
  const ST_IMM16: nat := 13
  const ST_IMM32: nat := 14
  const ST_DISP32: nat := 15
  const ST_ADDR32: nat := 16
  const ST_CALL32: nat := 17
  const ST_JUMP32: nat := 18
  const ST_MAX: nat := 19

  // no ModRM: no, byte, word, dword immediate
  const N: nat := 0
  const B: nat := 4
  const W: nat := 8
  const D: nat := 12
  // address: absolute, absolute jump, byte relative, dword relative
  const A: nat := 1
  const J: nat := 5
  const R: nat := 9
  const L: nat := 13
  // ModRM: no, byte, dword immediate
  const M: nat := 2
  const I: nat := 6
  const K: nat := 14
  // ModRM with opcode bits, and invalid
  const X: nat := 3
  const E: nat := 15

  function Row1(h: nat): (r: seq<nat>)
    ensures |r| == 16
  {
    match h
    case 0 => [M, M, M, M, B, D, N, N, M, M, M, M, B, D, N, N]
    case 1 => [M, M, M, M, B, D, N, N, M, M, M, M, B, D, N, N]
    case 2 => [M, M, M, M, B, D, N, N, M, M, M, M, B, D, N, N]
    case 3 => [M, M, M, M, B, D, N, N, M, M, M, M, B, D, N, N]
    case 4 => Repeat(N, 16)
    case 5 => Repeat(N, 16)
    case 6 => [N, N, M, M, N, N, N, N, D, K, B, I, N, N, N, N]
    case 7 => Repeat(R, 16)
    case 8 => [I, K, I, I, M, M, M, M, M, M, M, M, M, M, M, M]
    case 9 => [N, N, N, N, N, N, N, N, N, N, J, N, N, N, N, N]
    case 10 => [A, A, A, A, N, N, N, N, B, D, N, N, N, N, N, N]
    case 11 => [B, B, B, B, B, B, B, B, D, D, D, D, D, D, D, D]
    case 12 => [I, I, W, N, M, M, I, K, B, N, W, N, N, B, E, N]
    case 13 => [M, M, M, M, B, B, N, N, M, M, M, M, M, M, M, M]
    case 14 => [R, R, R, R, B, B, B, B, L, L, A, R, N, N, N, N]
    case _ => [N, E, N, N, N, N, X, X, N, N, N, N, N, N, X, X]
  }

  function Row2(h: nat): (r: seq<nat>)
    ensures |r| == 16
  {
    match h
    case 0 => [E, E, E, E, E, E, N, E, N, N, E, E, E, E, E, E]
    case 1 => [M, M, M, M, M, M, M, M, M, E, E, E, E, E, E, E]
    case 2 => [M, M, M, M, E, E, E, E, M, M, M, M, M, M, M, M]
    case 3 => [N, N, N, N, N, N, E, N, E, E, E, E, E, E, E, E]
    case 4 => Repeat(M, 16)
    case 5 => Repeat(M, 16)
    case 6 => Repeat(M, 16)
    case 7 => [I, I, I, I, M, M, M, N, E, E, E, E, E, E, M, M]
    case 8 => Repeat(L, 16)
    case 9 => Repeat(M, 16)
    case 10 => [N, N, N, M, I, M, M, M, E, E, E, M, I, M, E, M]
    case 11 => [M, M, M, M, M, M, M, M, E, E, E, M, M, M, M, M]
    case 12 => [M, M, M, M, M, M, M, M, N, N, N, N, N, N, N, N]
    case 13 => Repeat(M, 16)
    case 14 => Repeat(M, 16)
    case _ => [M, M, M, M, M, M, M, M, M, M, M, M, M, M, M, E]
  }

  /** The variants of 0xf6, 0xf7, 0xfe and 0xff by three bits of the ModRM byte. */
  function RowX(h: nat): (r: seq<nat>)
    ensures |r| == 8
  {
    match h
    case 0 => [I, E, M, M, M, M, M, M]
    case 1 => [K, E, M, M, M, M, M, M]
    case 2 => [M, M, E, E, E, E, E, E]
    case _ => [M, M, M, E, M, E, M, E]
  }

  function Table1(code: byte): nat {
    Row1(code / 16)[code % 16]
  }

  function Table2(code: byte): nat {
    Row2(code / 16)[code % 16]
  }

  function TableX(modrm: byte, code: byte): nat {
    RowX(code % 2 + 2 * (code / 8 % 2))[modrm / 8 % 8]
  }

  function Mode(flags: nat): nat {
    flags % 4
  }

  function Type(flags: nat): nat {
    flags / 4
  }

  /** The flags that occur: only X and E have both mode bits set. */
  predicate Regular(flags: nat) {
    flags == E || flags == X || PlainMode(flags) || ModRM(flags)
  }

  predicate PlainMode(flags: nat) {
    || flags == N || flags == B || flags == W || flags == D
    || flags == A || flags == J || flags == R || flags == L
  }

  predicate ModRM(flags: nat) {
    flags == M || flags == I || flags == K
  }

  lemma Table1Regular(code: byte)
    ensures Regular(Table1(code))
  {
    var r := Row1(code / 16);
    assert forall f :: f in r ==> Regular(f);
    assert Table1(code) in r;
  }

  lemma Table2Regular(code: byte)
    ensures Regular(Table2(code)) && Table2(code) != X
  {
    var r := Row2(code / 16);
    assert forall f :: f in r ==> Regular(f) && f != X;
    assert Table2(code) in r;
  }

  /** The variants all have a plain ModRM byte. */
  lemma TableXModRM(modrm: byte, code: byte)
    ensures TableX(modrm, code) == E || ModRM(TableX(modrm, code))
  {
    var r := RowX(code % 2 + 2 * (code / 8 % 2));
    assert forall j :: 0 <= j < 8 ==> r[j] == E || ModRM(r[j]);
  }

  /** The escape codes are invalid as opcodes; returns and padding are valid ones. */
  lemma SpecialOpcodes()
    ensures Table1(ESCAPE) == E && Table1(JUMP_TAB) == E
    ensures Table1(RETNI) == W && Table1(RETN) == N && Table1(INT3) == N
  {
  }
}
