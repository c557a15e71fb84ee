/**
  Delta.cpp: where a table begins and ends.  A column of 16-bit numbers is followed as long as it runs up or down
  in stretches that are not too short; every change of direction ends a stretch.
 */
module DeltaSearch {
  import opened Bytes

  const LONG: nat := 4

  function Word16(low: nat, high: nat): nat {
    low + 256 * high
  }

  /** A signed 16-bit number, least significant byte first. */
  function Int16(s: seq<byte>, i: int): int
    requires 0 <= i && i + 2 <= |s|
  {
    var v := Word16(s[i], s[i + 1]);
    if v < 0x8000 then v else v - 0x1_0000
  }

  function Abs(v: int): nat {
    if v < 0 then -v else v
  }

  /** The binary logarithm, rounded down. */
  function Lb(v: nat): (l: nat)
    ensures v > 0 ==> Pow2(l) <= v < 2 * Pow2(l)
  {
    if v < 2 then 0 else 1 + Lb(v / 2)
  }

  // ------------------------------------------------------------------ places of a column

  /** The place k elements of n bytes from t. */
  function Place(t: int, n: int, k: nat): int {
    t + n * k
  }

  lemma PlaceNext(t: int, n: int, k: nat)
    ensures Place(t, n, k + 1) == Place(t, n, k) + n
  {
    assert n * (k + 1) == n * k + n;
  }

  lemma PlaceBack(t: int, n: int, k: nat, omit: nat)
    requires omit <= k
    ensures Place(t, n, k) - n * omit == Place(t, n, k - omit)
    ensures n > 0 ==> t <= Place(t, n, k - omit) <= Place(t, n, k)
    ensures n < 0 ==> Place(t, n, k) <= Place(t, n, k - omit) <= t
  {
    assert n * k == n * (k - omit) + n * omit;
    if n > 0 {
      MulMono(0, k - omit, n);
      MulMono(0, omit, n);
    } else {
      assert n * (k - omit) == -((-n) * (k - omit)) && n * omit == -((-n) * omit);
    }
  }

  lemma PlaceStart(t: int, n: int)
    ensures Place(t, n, 0) == t && Place(t, n, 1) == t + n
  {
  }

  // ------------------------------------------------------------------ stretches

  function Int16At(s: seq<byte>, i: int): int {
    if 0 <= i && i + 2 <= |s| then Int16(s, i) else 0
  }

  /** The search looks at t only if the next place is inside too. */
  predicate Inside(s: seq<byte>, n: int, t: int, bufstart: nat) {
    bufstart <= t + n && t + n + 2 <= |s|
  }

  function Step(s: seq<byte>, n: int, t: int): int {
    Int16At(s, t) - Int16At(s, t - n)
  }

  /** The direction from t on. */
  function Direction(s: seq<byte>, n: int, t: int): (dir: int)
    ensures dir == 1 || dir == -1
  {
    if Int16At(s, t + n) - Int16At(s, t) < 0 then -1 else 1
  }

  /** The step to t is smaller than the number there, in bits; beyond ten bits, one bit less. */
  function Small(s: seq<byte>, n: int, t: int): bool {
    var itemlb := Lb(1 + Abs(Int16At(s, t)));
    Lb(1 + Abs(Step(s, n, t))) < if itemlb > 10 then itemlb - 1 else itemlb
  }

  /** Small steps of the stretch, steps from the last small one on, and all steps that are no use. */
  datatype Counts = Counts(len: nat, omit: nat, useless: nat)

  /**
    A step in the direction, or to an equal number.  omit is incremented in either case of the comparison: the
    comma binds less tightly than the conditional.
   */
  function Counted(s: seq<byte>, n: int, t: int, c: Counts): Counts {
    if Step(s, n, t) == 0 then c.(useless := c.useless + 1)
    else if Small(s, n, t) then Counts(c.len + 1, 1, c.useless)
    else Counts(c.len, c.omit + 1, c.useless + 1)
  }

  /** A stretch that ended: where it is cut off, how many small steps it has, and the useless steps so far. */
  datatype Turn = Turn(place: int, len: nat, useless: nat)

  /** A step in the direction. */
  predicate Along(dir: int, step: int) {
    (dir < 0 && step < 0) || (dir > 0 && step > 0)
  }

  /** How much of the buffer is left. */
  function Left(s: seq<byte>, n: int, t: int, bufstart: nat): int {
    if n > 0 then |s| - t else t - bufstart
  }

  /** All stretches from t on that end in a change of direction. */
  function Turns(s: seq<byte>, n: int, t: int, dir: int, c: Counts, bufstart: nat): seq<Turn>
    requires n != 0
    decreases Left(s, n, t, bufstart), if Along(dir, Step(s, n, t)) then 0 else 1
  {
    if !Inside(s, n, t, bufstart) then []
    else if Along(dir, Step(s, n, t)) || Step(s, n, t) == 0 then Turns(s, n, t + n, dir, Counted(s, n, t, c), bufstart)
    else
      [Turn(t - n * c.omit, c.len, c.useless)]
      + var next, none := Direction(s, n, t), Counts(0, 0, c.useless);
        if Along(next, Step(s, n, t)) then Turns(s, n, t, next, none, bufstart)
        else Turns(s, n, t + n, next, none, bufstart)
  }

  // ------------------------------------------------------------------ which stretch is the last

  predicate Good(turns: seq<Turn>, i: nat)
    requires i < |turns|
  {
    i == 0 || turns[i].len >= LONG
  }

  /** A long stretch, or the first one, with two short ones behind it, or fewer and no more. */
  predicate Final(turns: seq<Turn>, i: nat) {
    && i < |turns| && Good(turns, i)
    && (i + 1 < |turns| ==> !Good(turns, i + 1)) && (i + 2 < |turns| ==> !Good(turns, i + 2))
  }

  function FirstFinal(turns: seq<Turn>, i: nat): (r: nat)
    requires i < |turns|
    ensures i <= r < |turns| && forall j :: i <= j < r ==> !Final(turns, j)
    decreases |turns| - i
  {
    if Final(turns, i) || i + 1 == |turns| then i else FirstFinal(turns, i + 1)
  }

  /** The stretches are read until two in a row are short; the last long one before counts. */
  function Pick(turns: seq<Turn>, bad: nat, first: bool, best: Turn): Turn {
    if turns == [] then best
    else if turns[0].len >= LONG || first then Pick(turns[1..], 0, false, turns[0])
    else if bad + 1 >= 2 then best
    else Pick(turns[1..], bad + 1, false, best)
  }

  lemma {:induction false} PickFrom(turns: seq<Turn>, i: nat, bad: nat)
    requires i + bad < |turns| && bad <= 1 && Good(turns, i) && (bad == 1 ==> !Good(turns, i + 1))
    ensures
      var r := FirstFinal(turns, i);
      Final(turns, r) && Pick(turns[i + 1 + bad..], bad, false, turns[i]) == turns[r]
    decreases |turns| - i, 1 - bad
  {
    var k := i + 1 + bad;
    if k < |turns| {
      assert turns[k..][1..] == turns[k + 1..];
      if Good(turns, k) {
        PickFrom(turns, k, 0);
        SkipTo(turns, i, k);
      } else if bad == 0 {
        PickFrom(turns, i, 1);
      }
    }
  }

  lemma SkipTo(turns: seq<Turn>, i: nat, k: nat)
    requires i < k <= i + 2 && k < |turns| && Good(turns, k) && (k == i + 2 ==> !Good(turns, i + 1))
    ensures FirstFinal(turns, i) == FirstFinal(turns, k)
  {
    assert !Final(turns, i);
    if k == i + 2 {
      assert !Final(turns, i + 1);
      assert FirstFinal(turns, i) == FirstFinal(turns, i + 1);
    }
  }

  /** So it is the first final stretch there is. */
  lemma PickIsFinal(turns: seq<Turn>, best: Turn)
    requires turns != []
    ensures Final(turns, FirstFinal(turns, 0)) && Pick(turns, 0, true, best) == turns[FirstFinal(turns, 0)]
  {
    PickFrom(turns, 0, 0);
  }

  /** Where the column from t0 on ends; without any turn, at t0. */
  function Boundary(s: seq<byte>, n: int, t0: int, bufstart: nat): Turn
    requires n != 0
  {
    var turns := Turns(s, n, t0 + n, Direction(s, n, t0), Counts(0, 0, 0), bufstart);
    if turns == [] then Turn(t0, 0, 0) else turns[FirstFinal(turns, 0)]
  }

  // ------------------------------------------------------------------ the search

  /** What the search does with the next number. */
  lemma TurnsNext(s: seq<byte>, n: int, t: int, dir: int, c: Counts, bufstart: nat, bad: nat, first: bool, best: Turn)
    requires n != 0
    ensures
      var now := Pick(Turns(s, n, t, dir, c, bufstart), bad, first, best);
      var turn, next, none := Turn(t - n * c.omit, c.len, c.useless), Direction(s, n, t), Counts(0, 0, c.useless);
      var after := if Along(next, Step(s, n, t)) then t else t + n;
      if !Inside(s, n, t, bufstart) then now == best
      else if Along(dir, Step(s, n, t)) || Step(s, n, t) == 0 then
        now == Pick(Turns(s, n, t + n, dir, Counted(s, n, t, c), bufstart), bad, first, best)
      else if c.len >= LONG || first then
        now == Pick(Turns(s, n, after, next, none, bufstart), 0, false, turn)
      else if bad + 1 >= 2 then
        now == best
      else
        now == Pick(Turns(s, n, after, next, none, bufstart), bad + 1, false, best)
  {
    hide Int16, Lb, Int16At, Step, Counted, Direction;
  }

  lemma SearchEnds(s: seq<byte>, n: int, t0: int, bufstart: nat)
    requires n != 0
    ensures
      Boundary(s, n, t0, bufstart)
      == Pick(Turns(s, n, t0 + n, Direction(s, n, t0), Counts(0, 0, 0), bufstart), 0, true, Turn(t0, 0, 0))
  {
    hide Turns, FirstFinal;
    var turns := Turns(s, n, t0 + n, Direction(s, n, t0), Counts(0, 0, 0), bufstart);
    if turns != [] {
      PickIsFinal(turns, Turn(t0, 0, 0));
    }
  }

  /** search_for_table_boundary, in steps of n, which may be negative. */
  method SearchForTableBoundary(s: seq<byte>, n: int, t0: int, bufstart: nat, bufend: nat) returns (lastpoint: int, useless: nat)
    requires n != 0 && bufend == |s|
    requires 0 <= t0 + n && t0 + n + 2 <= bufend && bufstart <= t0 && t0 + 2 <= bufend
    ensures var b := Boundary(s, n, t0, bufstart); lastpoint == b.place && useless == b.useless
  {
    hide Int16, Lb, Turns, Pick, FirstFinal, Boundary;
    SearchEnds(s, n, t0, bufstart);
    var dir := if Int16(s, t0 + n) - Int16(s, t0) < 0 then -1 else 1;
    var len, omit, bad, count: nat := 0, 0, 0, 0;
    var firstTime := true;
    useless := 0;
    lastpoint := t0;
    var t := t0 + n;
    ghost var best := Turn(t0, 0, 0);
    ghost var all := Pick(Turns(s, n, t, dir, Counts(0, 0, 0), bufstart), 0, true, best);
    // once true, the element at t is looked at again with the new direction
    var again := false;
    while bufstart <= t + n && t + n + 2 <= bufend
      invariant (if n > 0 then t0 + n <= t else t <= t0 + n) && (dir == 1 || dir == -1)
      invariant best.place == lastpoint && best.useless == useless
      invariant Pick(Turns(s, n, t, dir, Counts(len, omit, count), bufstart), bad, firstTime, best) == all
      invariant again ==> Along(dir, Step(s, n, t))
      decreases Left(s, n, t, bufstart) + 1, if again then 0 else 1
    {
      TurnsNext(s, n, t, dir, Counts(len, omit, count), bufstart, bad, firstTime, best);
      var diff := Int16(s, t) - Int16(s, t - n);
      var itemlb := Lb(1 + Abs(Int16(s, t)));
      var difflb := Lb(1 + Abs(diff));
      if itemlb > 10 {
        itemlb := itemlb - 1;
      }
      again := false;
      if (dir < 0 && diff < 0) || (dir > 0 && diff > 0) {
        if difflb < itemlb {
          len, omit := len + 1, 0;
        } else {
          count := count + 1;
        }
        omit := omit + 1;
      } else if diff == 0 {
        count := count + 1;
      } else {
        if len >= 4 || firstTime {
          bad, lastpoint, useless, firstTime := 0, t - n * omit, count, false;
          best := Turn(lastpoint, len, useless);
        } else {
          bad := bad + 1;
          if bad >= 2 {
            return;
          }
        }
        dir := if Int16(s, t + n) - Int16(s, t) < 0 then -1 else 1;
        len, omit := 0, 0;
        again := dir * diff > 0;
      }
      if !again {
        t := t + n;
      }
    }
    TurnsNext(s, n, t, dir, Counts(len, omit, count), bufstart, bad, firstTime, best);
  }

  // ------------------------------------------------------------------ where the boundary lies

  /** A whole number of steps from t0 on, and inside the buffer. */
  ghost predicate OnColumn(s: seq<byte>, n: int, t0: int, bufstart: nat, place: int) {
    && (exists k: nat :: place == Place(t0, n, k))
    && if n > 0 then t0 <= place && place + 2 <= |s| else bufstart <= place <= t0
  }

  lemma TurnPlace(s: seq<byte>, n: int, t0: int, bufstart: nat, t: int, k: nat, omit: nat)
    requires n != 0 && t == Place(t0, n, k) && omit < k && Inside(s, n, t, bufstart) && bufstart <= t0
    ensures OnColumn(s, n, t0, bufstart, t - n * omit)
  {
    hide Place;
    PlaceBack(t0, n, k, omit);
  }

  lemma {:induction false} TurnsPlaces(s: seq<byte>, n: int, t: int, dir: int, c: Counts, bufstart: nat, t0: int, k: nat)
    requires n != 0 && t == Place(t0, n, k) && c.omit < k && bufstart <= t0
    ensures forall i :: 0 <= i < |Turns(s, n, t, dir, c, bufstart)| ==>
      OnColumn(s, n, t0, bufstart, Turns(s, n, t, dir, c, bufstart)[i].place)
    decreases Left(s, n, t, bufstart), if Along(dir, Step(s, n, t)) then 0 else 1
  {
    hide Int16, Lb, Int16At, Step, Direction, Place, Small, OnColumn;
    PlaceNext(t0, n, k);
    if Inside(s, n, t, bufstart) {
      if Along(dir, Step(s, n, t)) || Step(s, n, t) == 0 {
        TurnsPlaces(s, n, t + n, dir, Counted(s, n, t, c), bufstart, t0, k + 1);
      } else {
        TurnPlace(s, n, t0, bufstart, t, k, c.omit);
        var next, none := Direction(s, n, t), Counts(0, 0, c.useless);
        if Along(next, Step(s, n, t)) {
          TurnsPlaces(s, n, t, next, none, bufstart, t0, k);
        } else {
          TurnsPlaces(s, n, t + n, next, none, bufstart, t0, k + 1);
        }
      }
    }
  }

  /** The boundary is a whole number of rows from the start, and inside the buffer. */
  lemma BoundaryPlace(s: seq<byte>, n: int, t0: int, bufstart: nat)
    requires n != 0 && bufstart <= t0 && t0 + 2 <= |s|
    ensures OnColumn(s, n, t0, bufstart, Boundary(s, n, t0, bufstart).place)
  {
    hide Place, Turns;
    PlaceStart(t0, n);
    TurnsPlaces(s, n, t0 + n, Direction(s, n, t0), Counts(0, 0, 0), bufstart, t0, 1);
    assert t0 == Place(t0, n, 0);
  }

  /** A column without short stretches ends with its last stretch. */
  lemma {:induction false} AllGood(turns: seq<Turn>, i: nat)
    requires i < |turns| && forall j :: 0 <= j < |turns| ==> Good(turns, j)
    ensures FirstFinal(turns, i) == |turns| - 1
    decreases |turns| - i
  {
    if i + 1 < |turns| {
      AllGood(turns, i + 1);
    }
  }
}
