/**
  The ranking list of WFC_Ari.c: bytes ordered by weight, kept up to date by shifting single entries.

  The list has 257 places; the last one holds the sentinel 256, whose weight -1 stops every search.
 */
module WfcList {
  import opened Bytes
  import opened WfcWeights

  const SENTINEL := 256

  /** The list and the table of positions undo each other, sentinel last. */
  ghost predicate Inverse(list: seq<int>, index: seq<int>) {
    && |list| == |index| == 257
    && (forall i :: 0 <= i < 257 ==> 0 <= list[i] < 257 && index[list[i]] == i)
    && (forall v :: 0 <= v < 257 ==> 0 <= index[v] < 257 && list[index[v]] == v)
    && list[256] == SENTINEL
  }

  /** Entry i and all later ones are in order of falling weight. */
  ghost predicate SortedFrom(list: seq<int>, weight: seq<int>, i: nat) {
    && |list| == |weight| == 257 && (forall k :: 0 <= k < 257 ==> 0 <= list[k] < 257)
    && forall j, k :: i <= j < k < 257 ==> weight[list[j]] >= weight[list[k]]
  }

  /** Takes the entry at place j and puts it back at place p. */
  function Moved(list: seq<int>, j: nat, p: nat): (r: seq<int>)
    requires j < |list| && p < |list|
    ensures |r| == |list|
  {
    if p < j then list[..p] + [list[j]] + list[p..j] + list[j + 1..]
    else list[..j] + list[j + 1..p + 1] + [list[j]] + list[p + 1..]
  }

  /** Where the entry at place j comes to rest when it sinks past all heavier entries. */
  function SinkPlace(list: seq<int>, weight: seq<int>, w: int, j: nat): (p: nat)
    requires |list| == |weight| == 257 && forall k :: 0 <= k < 257 ==> 0 <= list[k] < 257
    requires list[256] == SENTINEL && weight[SENTINEL] < w
    requires j < 256
    ensures j <= p < 256
    ensures weight[list[p + 1]] <= w && forall k :: j < k <= p ==> weight[list[k]] > w
    decreases 256 - j
  {
    if weight[list[j + 1]] > w then SinkPlace(list, weight, w, j + 1) else j
  }

  /** The list once c, standing at place j, has sunk. */
  function Sunk(list: seq<int>, weight: seq<int>, c: int, j: nat): (r: seq<int>)
    requires |list| == |weight| == 257 && forall k :: 0 <= k < 257 ==> 0 <= list[k] < 257
    requires list[256] == SENTINEL && weight[SENTINEL] == -1
    requires 0 <= c < 256 && weight[c] >= 0 && j < 256 && list[j] == c
    ensures |r| == 257
  {
    Moved(list, j, SinkPlace(list, weight, weight[c], j))
  }

  // ------------------------------------------------------------------ the specification of one step

  datatype Ranking = Ranking(list: seq<int>, weight: seq<int>)

  /** Every byte stands in the list once, the sentinel last. */
  ghost predicate Listing(list: seq<int>) {
    && |list| == 257 && list[256] == SENTINEL
    && (forall k :: 0 <= k < 257 ==> 0 <= list[k] < 257)
    && (forall j, k :: 0 <= j < k < 257 ==> list[j] != list[k])
    && (forall v :: 0 <= v < 257 ==> v in list)
  }

  /** The weights follow from the history and the list is in their order. */
  ghost predicate RankingOf(r: Ranking, h: seq<byte>) {
    && Listing(r.list) && |r.weight| == 257 && r.weight[SENTINEL] == -1
    && (forall c :: 0 <= c < 256 ==> r.weight[c] == Weight(h, c))
    && SortedFrom(r.list, r.weight, 0)
    && (h != [] ==> r.list[0] == h[|h| - 1])
  }

  /** The last byte of h has been raised and the first k decay constants have been subtracted. */
  ghost predicate Halfway(r: Ranking, h: seq<byte>, k: nat) {
    && h != [] && k <= 12
    && Listing(r.list) && |r.weight| == 257 && r.weight[SENTINEL] == -1
    && (forall c :: 0 <= c < 256 ==> r.weight[c] == Weight(h, c) + DecayList(h, c, k))
    && r.list[0] == h[|h| - 1]
    && SortedFrom(r.list, r.weight, 1)
  }

  ghost function Raised(r: Ranking, c: byte): Ranking
    requires Listing(r.list) && |r.weight| == 257
  {
    assert (c as int) in r.list;
    Ranking(Moved(r.list, IndexOf(r.list, c), 0), r.weight[c := r.weight[c] + VAL0])
  }

  ghost function Lowered(r: Ranking, c: byte, amount: nat, cur: byte): Ranking
    requires Listing(r.list) && |r.weight| == 257 && r.weight[SENTINEL] == -1 && r.weight[c] >= amount
  {
    assert (c as int) in r.list;
    var weight := r.weight[c := r.weight[c] - amount];
    Ranking(if c == cur then r.list else Sunk(r.list, weight, c, IndexOf(r.list, c)), weight)
  }

  /** Subtracts the constants numbered k and up from the bytes standing at their distances. */
  ghost function Decayed(r: Ranking, h: seq<byte>, k: nat): (r': Ranking)
    requires Halfway(r, h, k)
    ensures Halfway(r', h, 12)
    decreases 12 - k
  {
    if k == 12 then r else
      var d := DISTS[k];
      if d < |h| then
        LoweredKeeps(r, h, k);
        Decayed(Lowered(r, h[|h| - 1 - d], VALS[k], h[|h| - 1]), h, k + 1)
      else
        Decayed(r, h, k + 1)
  }

  /** The ranking after a history of runs. */
  ghost function RankingAfter(h: seq<byte>): (r: Ranking)
    requires Alternating(h)
    ensures RankingOf(r, h)
  {
    if h == [] then
      InitialOk();
      Initial()
    else
      var r := RankingAfter(h[..|h| - 1]);
      RaisedKeeps(r, h);
      var r' := Decayed(Raised(r, h[|h| - 1]), h, 0);
      HalfwayEnds(r', h);
      r'
  }

  lemma DecayedUnfold(r: Ranking, h: seq<byte>, k: nat)
    requires Halfway(r, h, k) && k < 12
    ensures Listing(r.list) && |r.weight| == 257 && r.weight[SENTINEL] == -1
    ensures
      var d := DISTS[k];
      if d < |h| then
        var c := h[|h| - 1 - d];
        && r.weight[c] >= VALS[k]
        && Halfway(Lowered(r, c, VALS[k], h[|h| - 1]), h, k + 1)
        && Decayed(r, h, k) == Decayed(Lowered(r, c, VALS[k], h[|h| - 1]), h, k + 1)
      else
        Halfway(r, h, k + 1) && Decayed(r, h, k) == Decayed(r, h, k + 1)
  {
    hide Lowered, Halfway;
    LoweredKeeps(r, h, k);
    HalfwayShape(r, h, k);
  }

  lemma HalfwayShape(r: Ranking, h: seq<byte>, k: nat)
    requires Halfway(r, h, k)
    ensures Listing(r.list) && |r.weight| == 257 && r.weight[SENTINEL] == -1
  {
  }

  lemma DecayedAll(r: Ranking, h: seq<byte>)
    requires Halfway(r, h, 12)
    ensures Decayed(r, h, 12) == r
  {
  }

  lemma IdentityInverse(list: seq<int>, index: seq<int>)
    requires |list| == |index| == 257
    requires forall i :: 0 <= i < 257 ==> list[i] == i && index[i] == i
    ensures Inverse(list, index)
  {
  }

  lemma EmptyHistory()
    ensures Alternating([]) && RankingAfter([]) == Initial()
  {
  }

  lemma RankingUnfold(h: seq<byte>, c: byte)
    requires Alternating(h + [c])
    ensures
      && Alternating(h)
      && Listing(RankingAfter(h).list) && |RankingAfter(h).weight| == 257
      && Halfway(Raised(RankingAfter(h), c), h + [c], 0)
      && RankingAfter(h + [c]) == Decayed(Raised(RankingAfter(h), c), h + [c], 0)
  {
    var g := h + [c];
    assert g[..|g| - 1] == h;
    assert Alternating(h) by {
      assert forall i :: 0 <= i < |h| ==> g[i] == h[i];
    }
    RaisedKeeps(RankingAfter(h), g);
  }

  function Initial(): (r: Ranking)
    ensures |r.list| == |r.weight| == 257 && forall i :: 0 <= i < 257 ==> r.list[i] == i
    ensures forall i :: 0 <= i < 257 ==> r.weight[i] == if i == SENTINEL then -1 else 0
  {
    Ranking(seq(257, i => i), seq(257, i => if i == SENTINEL then -1 else 0))
  }

  lemma InitialOk()
    ensures RankingOf(Initial(), [])
  {
    hide Initial;
    forall v | 0 <= v < 257
      ensures v in Initial().list
    {
      assert Initial().list[v] == v;
    }
  }

  /** Where the entry at place k of a moved list comes from, and where entry i goes. */
  function Source(j: nat, p: nat, k: nat): (i: nat) {
    if k == p then j else if j <= k < p then k + 1 else if p < k <= j then k - 1 else k
  }

  lemma MovedAt(list: seq<int>, j: nat, p: nat, k: nat)
    requires j < |list| && p < |list| && k < |list|
    ensures Source(j, p, k) < |list| && Moved(list, j, p)[k] == list[Source(j, p, k)]
    ensures Source(j, p, Source(p, j, k)) == k && Source(p, j, k) < |list|
  {
    if p < j {
      MovedUp(list, j, p, k);
    } else {
      MovedDown(list, j, p, k);
    }
  }

  lemma MovedUp(list: seq<int>, j: nat, p: nat, k: nat)
    requires p < j < |list| && k < |list|
    ensures Moved(list, j, p)[k] == list[Source(j, p, k)]
  {
    var front, rest := list[..p] + [list[j]], list[j + 1..];
    if k <= p {
      assert Moved(list, j, p)[k] == front[k];
    } else if k <= j {
      assert Moved(list, j, p)[k] == list[p..j][k - p - 1];
    } else {
      assert Moved(list, j, p)[k] == rest[k - j - 1];
    }
  }

  lemma MovedDown(list: seq<int>, j: nat, p: nat, k: nat)
    requires j <= p < |list| && k < |list|
    ensures Moved(list, j, p)[k] == list[Source(j, p, k)]
  {
    var front, rest := list[..j] + list[j + 1..p + 1], list[p + 1..];
    if k < p {
      assert Moved(list, j, p)[k] == front[k];
    } else if k > p {
      assert Moved(list, j, p)[k] == rest[k - p - 1];
    }
  }

  lemma MovedListing(list: seq<int>, j: nat, p: nat)
    requires Listing(list) && j < 256 && p < 256
    ensures Listing(Moved(list, j, p))
  {
    hide Moved;
    var r := Moved(list, j, p);
    forall k | 0 <= k < 257
      ensures r[k] == list[Source(j, p, k)]
    {
      MovedAt(list, j, p, k);
    }
    forall v | 0 <= v < 257
      ensures v in r
    {
      assert v in list;
      var i :| 0 <= i < 257 && list[i] == v;
      MovedAt(list, j, p, i);
      assert r[Source(p, j, i)] == v;
    }
  }

  lemma RaisedKeeps(r: Ranking, h: seq<byte>)
    requires h != [] && RankingOf(r, h[..|h| - 1])
    ensures Halfway(Raised(r, h[|h| - 1]), h, 0)
  {
    var c := h[|h| - 1];
    assert (c as int) in r.list;
    var j := IndexOf(r.list, c);
    assert j < 256;
    MovedListing(r.list, j, 0);
    var r' := Raised(r, c);
    assert h == h[..|h| - 1] + [c];
    forall b | 0 <= b < 256
      ensures r'.weight[b] == Weight(h, b) + DecayList(h, b, 0)
    {
      WeightStep(h[..|h| - 1], c, b);
      DecayListIsDecay(h, b, 0);
    }
    RaisedSorted(r, c, j);
  }

  lemma RaisedSorted(r: Ranking, c: byte, j: nat)
    requires Listing(r.list) && SortedFrom(r.list, r.weight, 0) && j < 256 && r.list[j] == c
    ensures SortedFrom(Moved(r.list, j, 0), r.weight[c := r.weight[c] + VAL0], 1)
  {
    hide Moved, Listing;
    var list := Moved(r.list, j, 0);
    ListingDistinct(r.list, j);
    forall k | 0 <= k < 257
      ensures list[k] == r.list[Source(j, 0, k)]
    {
      MovedAt(r.list, j, 0, k);
    }
  }

  lemma ListingDistinct(list: seq<int>, j: nat)
    requires Listing(list) && j < 257
    ensures forall k :: 0 <= k < 257 && k != j ==> list[k] != list[j]
  {
  }

  lemma LoweredKeeps(r: Ranking, h: seq<byte>, k: nat)
    requires Halfway(r, h, k) && k < 12
    ensures
      var d := DISTS[k];
      if d < |h| then
        && r.weight[h[|h| - 1 - d]] >= VALS[k]
        && Halfway(Lowered(r, h[|h| - 1 - d], VALS[k], h[|h| - 1]), h, k + 1)
      else Halfway(r, h, k + 1)
  {
    hide Weight, Moved, SinkPlace, SortedFrom, DecayList;
    var d := DISTS[k];
    DecayStep(h, k);
    if d < |h| {
      var c := h[|h| - 1 - d];
      WeightNotNegative(h, c);
      if c != h[|h| - 1] {
        LoweredSinks(r, c, VALS[k], h[|h| - 1]);
      } else {
        HeavierFirst(r, VALS[k]);
      }
    }
  }

  /** A byte that is not first sinks. */
  lemma LoweredSinks(r: Ranking, c: byte, amount: nat, cur: byte)
    requires Listing(r.list) && |r.weight| == 257 && SortedFrom(r.list, r.weight, 1) && r.weight[SENTINEL] == -1
    requires r.weight[c] >= amount && c != cur && r.list[0] == cur
    ensures
      var l := Lowered(r, c, amount, cur);
      Listing(l.list) && l.list[0] == cur && SortedFrom(l.list, l.weight, 1)
  {
    hide Moved, SinkPlace, SortedFrom;
    assert (c as int) in r.list;
    var j := IndexOf(r.list, c);
    assert 0 < j < 256;
    SunkSorted(r, c, amount, j);
  }

  lemma WeightNotNegative(h: seq<byte>, c: int)
    ensures Weight(h, c) >= 0
  {
  }

  lemma DecayStep(h: seq<byte>, k: nat)
    requires k < 12
    ensures forall b ::
      DecayList(h, b, k)
      == DecayList(h, b, k + 1) + if DISTS[k] < |h| && b == h[|h| - 1 - DISTS[k]] then VALS[k] else 0
  {
  }

  /** The order behind the first place does not depend on the first entry's weight. */
  lemma HeavierFirst(r: Ranking, amount: nat)
    requires Listing(r.list) && SortedFrom(r.list, r.weight, 1)
    ensures SortedFrom(r.list, r.weight[r.list[0] := r.weight[r.list[0]] - amount], 1)
  {
    ListingDistinct(r.list, 0);
  }

  lemma SunkSorted(r: Ranking, c: byte, amount: nat, j: nat)
    requires Listing(r.list) && |r.weight| == 257 && SortedFrom(r.list, r.weight, 1)
    requires r.weight[SENTINEL] == -1 && r.weight[c] >= amount && 0 < j < 256 && r.list[j] == c
    ensures
      var weight := r.weight[c := r.weight[c] - amount];
      var list := Sunk(r.list, weight, c, j);
      Listing(list) && list[0] == r.list[0] && SortedFrom(list, weight, 1)
  {
    var weight := r.weight[c := r.weight[c] - amount];
    var p := SinkPlace(r.list, weight, weight[c], j);
    MovedListing(r.list, j, p);
    hide Moved, Listing, SinkPlace;
    ListingDistinct(r.list, j);
    var list := Moved(r.list, j, p);
    forall k | 0 <= k < 257
      ensures list[k] == r.list[Source(j, p, k)]
    {
      MovedAt(r.list, j, p, k);
    }
    SunkOrder(r, c, amount, j, p, list);
  }

  /** The order of a list in which c has sunk from j to p. */
  lemma SunkOrder(r: Ranking, c: byte, amount: nat, j: nat, p: nat, list: seq<int>)
    requires |r.list| == |r.weight| == |list| == 257 && SortedFrom(r.list, r.weight, 1)
    requires 0 < j <= p < 256 && r.list[j] == c && (forall k :: 0 <= k < 257 && k != j ==> r.list[k] != c)
    requires forall k :: 0 <= k < 257 ==> list[k] == r.list[Source(j, p, k)]
    requires
      var weight := r.weight[c := r.weight[c] - amount];
      weight[r.list[p + 1]] <= weight[c] && forall k :: j < k <= p ==> weight[r.list[k]] > weight[c]
    ensures SortedFrom(list, r.weight[c := r.weight[c] - amount], 1)
  {
    var weight := r.weight[c := r.weight[c] - amount];
    forall x, y | 1 <= x < y < 257
      ensures weight[list[x]] >= weight[list[y]]
    {
      var a, b := Source(j, p, x), Source(j, p, y);
      assert list[x] == r.list[a] && list[y] == r.list[b];
      if x == p {
        assert weight[r.list[p + 1]] <= weight[c];
      } else if y != p {
        assert 1 <= a < b && a != j && b != j;
      } else {
        assert a < j || j < a <= p;
      }
    }
  }

  lemma HalfwayEnds(r: Ranking, h: seq<byte>)
    requires Halfway(r, h, 12) && Alternating(h)
    ensures RankingOf(r, h)
  {
    forall k | 0 < k < 257
      ensures r.weight[r.list[0]] >= r.weight[r.list[k]]
    {
      assert r.list[0] != r.list[k];
      if r.list[k] < 256 {
        LastOutweighs(h, r.list[k]);
      } else {
        LastOutweighs(h, r.list[0]);
      }
    }
  }

  /** The byte of the last run stands strictly before all others, and every weight fits 32 bits. */
  lemma LastStrictlyFirst(h: seq<byte>)
    requires Alternating(h) && h != []
    ensures
      var r := RankingAfter(h);
      && r.list[0] == h[|h| - 1]
      && (forall k :: 0 < k < 257 ==> r.weight[r.list[k]] < r.weight[r.list[0]])
      && (forall c :: 0 <= c < 256 ==> 0 <= r.weight[c] <= 229056)
  {
    hide Weight, SortedFrom, RankingAfter, Alternating;
    var r := RankingAfter(h);
    forall c | 0 <= c < 256
      ensures 0 <= r.weight[c] <= 229056 && (c != h[|h| - 1] ==> r.weight[c] < r.weight[h[|h| - 1]])
    {
      LastOutweighs(h, c);
      WeightNotNegative(h, c);
    }
    forall k | 0 < k < 257
      ensures r.weight[r.list[k]] < r.weight[r.list[0]]
    {
      assert r.list[k] != r.list[0];
    }
  }

  // ------------------------------------------------------------------ the tables themselves

  class WfcTables {
    const list: array<int>
    const index: array<int>
    const weight: array<int>
    var buf: seq<byte>          // the bytes of all runs so far

    ghost function State(): Ranking
      reads list, weight
    {
      Ranking(list[..], weight[..])
    }

    /** The tables hold the ranking that follows from the runs seen so far. */
    ghost predicate InStep()
      reads this, list, index, weight
    {
      Valid() && Alternating(buf) && State() == RankingAfter(buf)
    }

    ghost predicate Valid()
      reads list, index, weight
    {
      && list.Length == index.Length == weight.Length == 257
      && list != index && list != weight && index != weight
      && Inverse(list[..], index[..]) && weight[SENTINEL] == -1
    }

    constructor ()
      ensures InStep() && buf == [] && fresh(list) && fresh(index) && fresh(weight)
    {
      hide Inverse, RankingAfter, Initial, Alternating;
      buf := [];
      list, index, weight := new int[257], new int[257], new int[257];
      new;
      for i := 0 to 257
        invariant buf == [] && forall k :: 0 <= k < i ==> list[k] == k
        invariant forall k :: 0 <= k < i ==> index[k] == k
        invariant forall k :: 0 <= k < i ==> weight[k] == 0
      {
        list[i], index[i], weight[i] := i, i, 0;
      }
      weight[SENTINEL] := -1;
      assert list[..] == Initial().list && weight[..] == Initial().weight;
      IdentityInverse(list[..], index[..]);
      EmptyHistory();
      assert State() == Initial();
    }

    /** Notes a run of cur: its weight rises, and twelve earlier runs lose some of theirs. */
    method Push(cur: byte)
      requires InStep() && Alternating(buf + [cur])
      modifies this, list, index, weight
      ensures InStep() && buf == old(buf) + [cur]
    {
      hide Valid, RankingAfter, RankingOf, Raised, Halfway, Decayed;
      RankingUnfold(buf, cur);
      Raise(cur);
      buf := buf + [cur];
      for k := 0 to 12
        invariant Valid() && buf == old(buf) + [cur]
        invariant Halfway(State(), buf, k) && Decayed(State(), buf, k) == RankingAfter(buf)
      {
        Age(k, cur);
      }
      DecayedAll(State(), buf);
    }

    /** The run standing at distance number k, if there is one, loses constant number k. */
    method Age(k: nat, cur: byte)
      requires Valid() && k < 12 && Halfway(State(), buf, k) && buf != [] && buf[|buf| - 1] == cur
      modifies list, index, weight
      ensures Valid() && Halfway(State(), buf, k + 1)
      ensures Decayed(State(), buf, k + 1) == old(Decayed(State(), buf, k))
    {
      hide Valid, Lowered, Halfway, Listing, Decayed;
      DecayedUnfold(State(), buf, k);
      if |buf| - 1 >= DISTS[k] {
        var c := buf[|buf| - 1 - DISTS[k]];
        Lower(c, VALS[k], cur);
      }
    }

    lemma PlaceIs(c: byte)
      requires Valid()
      ensures (c as int) in list[..] && IndexOf(list[..], c) == index[c]
    {
      assert index[..][c] == index[c] && list[..][index[c]] == c;
      assert index[..][list[..][IndexOf(list[..], c)]] == IndexOf(list[..], c);
    }

    /** Adds the full weight to c and moves it to the front. */
    method Raise(c: byte)
      requires Valid() && Listing(list[..])
      modifies list, index, weight
      ensures Valid() && State() == Raised(old(State()), c)
    {
      hide Inverse, PartlyRaised, Moved, Listing;
      PlaceIs(c);
      weight[c] := weight[c] + VAL0;
      var j := index[c];
      ghost var j0, before, places, weights := j, list[..], index[..], weight[..];
      SinkStart(before, places, c);
      RaiseStart(before, places, j0);
      if j > 0 {
        while j != 0
          invariant 0 <= j <= j0 < 256 && PartlyRaised(before, places, list[..], index[..], j0, j)
          invariant weight[..] == weights
        {
          RaiseShift(before, places, list[..], index[..], j0, j);
          list[j] := list[j - 1];
          index[list[j]] := j;
          j := j - 1;
        }
      }
      RaiseEnd(before, places, list[..], index[..], j0);
      list[0] := c;
      index[c] := 0;
    }

    /** Subtracts from c's weight and lets c sink, unless it is the byte being coded. */
    method Lower(c: byte, amount: nat, cur: byte)
      requires Valid() && Listing(list[..]) && amount <= weight[c]
      modifies list, index, weight
      ensures Valid() && State() == Lowered(old(State()), c, amount, cur)
    {
      hide Inverse, Sunk, Listing;
      PlaceIs(c);
      weight[c] := weight[c] - amount;
      if c != cur {
        Sink(c);
      }
    }

    /** Lets c fall behind every heavier entry: these shift one place forward. */
    method Sink(c: byte)
      requires Valid() && weight[c] >= 0
      modifies list, index
      ensures Valid()
      ensures list[..] == Sunk(old(list[..]), weight[..], c, old(index[c]))
    {
      hide SinkPlace, Inverse, PartlySunk, Moved;
      var w := weight[c];
      var j := index[c];
      ghost var j0, before, places, weights := j, list[..], index[..], weight[..];
      SinkStart(before, places, c);
      SinkStep(before, weights, w, j);
      while weight[list[j + 1]] > w
        invariant j0 <= j < 256 && PartlySunk(before, places, list[..], index[..], j0, j)
        invariant SinkPlace(before, weights, w, j0) == SinkPlace(before, weights, w, j)
        invariant weight[..] == weights && 0 <= list[j + 1] < 257 && list[j + 1] == before[j + 1]
        decreases 256 - j
      {
        SinkStep(before, weights, w, j);
        SinkShift(before, places, list[..], index[..], j0, j);
        list[j] := list[j + 1];
        index[list[j]] := j;
        j := j + 1;
      }
      SinkStep(before, weights, w, j);
      SinkEnd(before, places, list[..], index[..], j0, j);
      list[j] := c;
      index[c] := j;
    }
  }

  /** The entries between places j0 and j have moved one place forward; place j is free. */
  ghost predicate PartlySunk(before: seq<int>, places: seq<int>, list: seq<int>, index: seq<int>, j0: nat, j: nat) {
    && Inverse(before, places) && |list| == |index| == 257 && j0 <= j < 256
    && (forall k :: 0 <= k < j0 ==> list[k] == before[k])
    && (forall k :: j0 <= k < j ==> list[k] == before[k + 1])
    && (forall k :: j < k < 257 ==> list[k] == before[k])
    && forall v :: 0 <= v < 257 && v != before[j0] ==>
         index[v] == if j0 < places[v] <= j then places[v] - 1 else places[v]
  }

  /** The entries between places j and j0 have moved one place back; place j is free. */
  ghost predicate PartlyRaised(before: seq<int>, places: seq<int>, list: seq<int>, index: seq<int>, j0: nat, j: nat) {
    && Inverse(before, places) && |list| == |index| == 257 && j <= j0 < 256
    && (forall k :: 0 <= k < j ==> list[k] == before[k])
    && (forall k :: j < k <= j0 ==> list[k] == before[k - 1])
    && (forall k :: j0 < k < 257 ==> list[k] == before[k])
    && forall v :: 0 <= v < 257 && v != before[j0] ==>
         index[v] == if j <= places[v] < j0 then places[v] + 1 else places[v]
  }

  lemma RaiseStart(list: seq<int>, index: seq<int>, j0: nat)
    requires Inverse(list, index) && j0 < 256
    ensures PartlyRaised(list, index, list, index, j0, j0)
  {
  }

  lemma RaiseShift(before: seq<int>, places: seq<int>, list: seq<int>, index: seq<int>, j0: nat, j: nat)
    requires PartlyRaised(before, places, list, index, j0, j) && j > 0
    ensures 0 <= list[j - 1] < 257
    ensures PartlyRaised(before, places, list[j := list[j - 1]], index[list[j - 1] := j], j0, j - 1)
  {
    assert places[before[j - 1]] == j - 1 && places[before[j0]] == j0;
  }

  lemma RaiseEnd(before: seq<int>, places: seq<int>, list: seq<int>, index: seq<int>, j0: nat)
    requires PartlyRaised(before, places, list, index, j0, 0)
    ensures 0 <= before[j0] < 257
    ensures list[0 := before[j0]] == Moved(before, j0, 0)
    ensures Inverse(list[0 := before[j0]], index[before[j0] := 0])
  {
    assert list[0 := before[j0]] == Moved(before, j0, 0);
    assert places[before[j0]] == j0;
    RaisedInverse(before, places, j0, Moved(before, j0, 0), index[before[j0] := 0]);
  }

  /** Moving one entry to the front and renumbering the entries it passes keeps list and index inverse. */
  lemma RaisedInverse(list: seq<int>, index: seq<int>, j: nat, list': seq<int>, index': seq<int>)
    requires Inverse(list, index) && j < 256 && list' == Moved(list, j, 0) && |index'| == 257
    requires index'[list[j]] == 0
    requires forall v :: 0 <= v < 257 && v != list[j] ==> index'[v] == if index[v] < j then index[v] + 1 else index[v]
    ensures Inverse(list', index')
  {
    forall i | 0 <= i < 257
      ensures 0 <= list'[i] < 257 && index'[list'[i]] == i
    {
      assert list'[i] == if i == 0 then list[j] else if i <= j then list[i - 1] else list[i];
    }
    forall v | 0 <= v < 257
      ensures 0 <= index'[v] < 257 && list'[index'[v]] == v
    {
      assert list[index[v]] == v;
    }
  }

  lemma SinkStart(list: seq<int>, index: seq<int>, c: int)
    requires Inverse(list, index) && 0 <= c < 256
    ensures 0 <= index[c] < 256 && list[index[c]] == c && PartlySunk(list, index, list, index, index[c], index[c])
    ensures list[256] == SENTINEL && forall k :: 0 <= k < 257 ==> 0 <= list[k] < 257
  {
  }

  lemma SinkShift(before: seq<int>, places: seq<int>, list: seq<int>, index: seq<int>, j0: nat, j: nat)
    requires PartlySunk(before, places, list, index, j0, j) && j + 1 < 256
    ensures 0 <= list[j + 1] < 257 && 0 <= before[j + 2] < 257 && list[j + 2] == before[j + 2]
    ensures PartlySunk(before, places, list[j := list[j + 1]], index[list[j + 1] := j], j0, j + 1)
  {
    assert places[before[j + 1]] == j + 1 && places[before[j0]] == j0;
  }

  lemma SinkEnd(before: seq<int>, places: seq<int>, list: seq<int>, index: seq<int>, j0: nat, j: nat)
    requires PartlySunk(before, places, list, index, j0, j)
    ensures 0 <= before[j0] < 257
    ensures list[j := before[j0]] == Moved(before, j0, j)
    ensures Inverse(list[j := before[j0]], index[before[j0] := j])
  {
    assert list[j := before[j0]] == Moved(before, j0, j);
    MovedInverse(before, places, j0, j, Moved(before, j0, j), index[before[j0] := j]);
  }

  lemma SinkStep(list: seq<int>, weight: seq<int>, w: int, j: nat)
    requires |list| == |weight| == 257 && forall k :: 0 <= k < 257 ==> 0 <= list[k] < 257
    requires list[256] == SENTINEL && weight[SENTINEL] < w && j < 256
    ensures weight[list[j + 1]] <= w ==> SinkPlace(list, weight, w, j) == j
    ensures weight[list[j + 1]] > w ==>
      j + 1 < 256 && SinkPlace(list, weight, w, j) == SinkPlace(list, weight, w, j + 1)
  {
  }

  /** Moving one entry back and renumbering the entries it passes keeps list and index inverse. */
  lemma MovedInverse(list: seq<int>, index: seq<int>, j: nat, p: nat, list': seq<int>, index': seq<int>)
    requires Inverse(list, index) && j <= p < 256 && list' == Moved(list, j, p) && |index'| == 257
    requires index'[list[j]] == p
    requires forall v :: 0 <= v < 257 && v != list[j] ==>
      index'[v] == if j < index[v] <= p then index[v] - 1 else index[v]
    ensures Inverse(list', index')
  {
    forall i | 0 <= i < 257
      ensures 0 <= list'[i] < 257 && index'[list'[i]] == i
    {
      assert list'[i] == if i < j || i > p then list[i] else if i < p then list[i + 1] else list[j];
    }
    forall v | 0 <= v < 257
      ensures 0 <= index'[v] < 257 && list'[index'[v]] == v
    {
      assert list[index[v]] == v;
    }
  }
}
