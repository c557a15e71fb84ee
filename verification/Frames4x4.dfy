/**
  The stream of 4x4/C_4x4.cpp: a version, then for each block its size (-1 when stored), the size of what
  follows, and the block compressed or stored.  The inner method is a parameter.
 */
module Frames4x4 {
  import opened Bytes

  datatype Option<T> = None | Some(value: T)

  datatype Error = Io | BadData | Inner

  datatype Result = Ok(output: seq<byte>) | Err(error: Error)

  /** Compress is None when the output does not fit its buffer; Decompress gets the size of its buffer. */
  datatype Method = Method(compress: seq<byte> -> Option<seq<byte>>, decompress: (seq<byte>, nat) -> Option<seq<byte>>)

  const LIMIT: nat := 0x8000_0000

  /** What compress makes of a block, decompress takes back, given room for the block. */
  ghost predicate Inverts(m: Method, b: seq<byte>) {
    m.compress(b).Some? ==> forall cap :: |b| <= cap ==> m.decompress(m.compress(b).value, cap) == Some(b)
  }

  /** A block that the method does not make smaller is stored. */
  function Frame(m: Method, b: seq<byte>): seq<byte> {
    var r := m.compress(b);
    if r.Some? && |r.value| < |b| then Little(|b|) + Little(|r.value|) + r.value
    else Little(0xFFFF_FFFF) + Little(|b|) + b
  }

  function Frames(m: Method, bs: seq<seq<byte>>): seq<byte> {
    if bs == [] then [] else Frame(m, bs[0]) + Frames(m, bs[1..])
  }

  function Packed(m: Method, bs: seq<seq<byte>>): seq<byte> {
    Little(0) + Frames(m, bs)
  }

  function Flat(bs: seq<seq<byte>>): seq<byte> {
    if bs == [] then [] else bs[0] + Flat(bs[1..])
  }

  /** A 32-bit number as a signed one. */
  function Signed(v: nat): int {
    if v < LIMIT then v else v - 0x1_0000_0000
  }

  function Max(a: int, b: int): int {
    if a < b then b else a
  }

  /** What is to be written for the frame at the start of the input, and the length of the frame. */
  datatype Parsed = Whole(body: seq<byte>, size: nat) | Bad(error: Error)

  function ParseFrame(m: Method, input: seq<byte>, outCap: nat): (r: Parsed)
    requires input != []
    ensures r.Whole? ==> 8 <= r.size <= |input|
  {
    if |input| < 8 then
      Bad(Io)
    else
      var orig, size := Signed(Word(input[..4])), Signed(Word(input[4..8]));
      if size < 0 then Bad(BadData)
      else if |input| < 8 + size then Bad(Io)
      else
        var payload := input[8..8 + size];
        if orig == -1 then
          Whole(payload, 8 + size)
        else
          var d := m.decompress(payload, Max(outCap, Max(size, orig)));
          if d.None? then Bad(Inner) else Whole(d.value, 8 + size)
  }

  function ParseFrames(m: Method, input: seq<byte>, outCap: nat): Result
    decreases |input|
  {
    if input == [] then Ok([])
    else
      var f := ParseFrame(m, input, outCap);
      if f.Bad? then Err(f.error)
      else
        var r := ParseFrames(m, input[f.size..], outCap);
        if r.Err? then r else Ok(f.body + r.output)
  }

  /** The decompressor as one thread: version, then frame after frame. */
  method Unpack(m: Method, input: seq<byte>, outCap: nat) returns (r: Result)
    ensures r == if |input| < 4 then Err(Io) else if Word(input[..4]) != 0 then Err(BadData)
                 else ParseFrames(m, input[4..], outCap)
  {
    if |input| < 4 {
      return Err(Io);
    }
    if Word(input[..4]) != 0 {
      return Err(BadData);
    }
    var rest, out := input[4..], [];
    while rest != []
      invariant
        ParseFrames(m, input[4..], outCap) ==
        (var q := ParseFrames(m, rest, outCap); if q.Err? then q else Ok(out + q.output))
      decreases |rest|
    {
      var f := ParseFrame(m, rest, outCap);
      if f.Bad? {
        return Err(f.error);
      }
      ghost var q := ParseFrames(m, rest[f.size..], outCap);
      assert q.Ok? ==> out + (f.body + q.output) == (out + f.body) + q.output;
      rest, out := rest[f.size..], out + f.body;
    }
    return Ok(out);
  }

  lemma FrameBack(m: Method, b: seq<byte>, more: seq<byte>, outCap: nat)
    requires b != [] && |b| < LIMIT && Inverts(m, b)
    ensures ParseFrame(m, Frame(m, b) + more, outCap) == Whole(b, |Frame(m, b)|)
  {
    hide Little, Word;
    var r := m.compress(b);
    var raw := !(r.Some? && |r.value| < |b|);
    var body := if raw then b else r.value;
    var first := if raw then 0xFFFF_FFFF else |b|;
    var input := Frame(m, b) + more;
    assert Frame(m, b) == Little(first) + Little(|body|) + body;
    assert input[..4] == Little(first) && input[4..8] == Little(|body|) && input[8..8 + |body|] == body;
    WordLittle(first);
    WordLittle(|body|);
  }

  /** Decompression gives back the blocks, whatever the method does to them, if it inverts itself. */
  lemma {:induction false} FramesBack(m: Method, bs: seq<seq<byte>>, outCap: nat)
    requires forall i :: 0 <= i < |bs| ==> bs[i] != [] && |bs[i]| < LIMIT && Inverts(m, bs[i])
    ensures ParseFrames(m, Frames(m, bs), outCap) == Ok(Flat(bs))
  {
    if bs != [] {
      FrameBack(m, bs[0], Frames(m, bs[1..]), outCap);
      FramesBack(m, bs[1..], outCap);
      FrameSize(m, bs[0]);
      hide Frame, ParseFrame, Inverts;
      var input := Frames(m, bs);
      assert input[|Frame(m, bs[0])|..] == Frames(m, bs[1..]);
    }
  }

  lemma FrameSize(m: Method, b: seq<byte>)
    ensures |Frame(m, b)| >= 8
  {
  }

  lemma RoundTrip(m: Method, bs: seq<seq<byte>>, outCap: nat)
    requires forall i :: 0 <= i < |bs| ==> bs[i] != [] && |bs[i]| < LIMIT && Inverts(m, bs[i])
    ensures
      var input := Packed(m, bs);
      |input| >= 4 && Word(input[..4]) == 0 && ParseFrames(m, input[4..], outCap) == Ok(Flat(bs))
  {
    var input := Packed(m, bs);
    assert input[..4] == Little(0) && input[4..] == Frames(m, bs);
    WordLittle(0);
    FramesBack(m, bs, outCap);
  }
}
