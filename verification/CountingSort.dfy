/**
  Stable counting sort as arithmetic: the place of an entry is the number of entries that must stand
  before it.  ST4.c and BWT.c both live on this function.
 */
module CountingSort {

  /** How many of the first m keys are below w. */
  function Less(keys: seq<nat>, w: nat, m: nat): (c: nat)
    requires m <= |keys|
    ensures c <= m
  {
    if m == 0 then 0 else Less(keys, w, m - 1) + if keys[m - 1] < w then 1 else 0
  }

  /** How many of the first m keys equal w. */
  function Count(keys: seq<nat>, w: nat, m: nat): (c: nat)
    requires m <= |keys|
    ensures c <= m
  {
    if m == 0 then 0 else Count(keys, w, m - 1) + if keys[m - 1] == w then 1 else 0
  }

  /** The place of entry i in the stable order of the keys. */
  function Place(keys: seq<nat>, i: nat): nat
    requires i < |keys|
  {
    Less(keys, keys[i], |keys|) + Count(keys, keys[i], i)
  }

  /** The first place of the entries with key w. */
  function Start(keys: seq<nat>, w: nat): nat {
    Less(keys, w, |keys|)
  }

  lemma {:induction false} LessNext(keys: seq<nat>, w: nat, m: nat)
    requires m <= |keys|
    ensures Less(keys, w + 1, m) == Less(keys, w, m) + Count(keys, w, m)
  {
    if m > 0 {
      LessNext(keys, w, m - 1);
    }
  }

  lemma {:induction false} LessMono(keys: seq<nat>, v: nat, w: nat, m: nat)
    requires m <= |keys| && v <= w
    ensures Less(keys, v, m) <= Less(keys, w, m)
  {
    if m > 0 {
      LessMono(keys, v, w, m - 1);
    }
  }

  lemma {:induction false} CountMono(keys: seq<nat>, w: nat, i: nat, j: nat)
    requires i <= j <= |keys|
    ensures Count(keys, w, i) <= Count(keys, w, j)
    ensures i < j && keys[i] == w ==> Count(keys, w, i) < Count(keys, w, j)
    decreases j
  {
    if i < j {
      CountMono(keys, w, i, j - 1);
    }
  }

  /** An entry's place lies among the places of its key. */
  lemma PlaceInGroup(keys: seq<nat>, i: nat)
    requires i < |keys|
    ensures Start(keys, keys[i]) <= Place(keys, i) < Start(keys, keys[i] + 1) <= |keys|
  {
    LessNext(keys, keys[i], |keys|);
    CountMono(keys, keys[i], i, |keys|);
  }

  /** Entry i comes before entry j: smaller key, or same key and earlier. */
  predicate Before(keys: seq<nat>, i: nat, j: nat)
    requires i < |keys| && j < |keys|
  {
    keys[i] < keys[j] || (keys[i] == keys[j] && i < j)
  }

  /** Places are in the stable order of the keys. */
  lemma PlaceOrder(keys: seq<nat>, i: nat, j: nat)
    requires i < |keys| && j < |keys| && Before(keys, i, j)
    ensures Place(keys, i) < Place(keys, j)
  {
    if keys[i] < keys[j] {
      PlaceInGroup(keys, i);
      PlaceInGroup(keys, j);
      LessMono(keys, keys[i] + 1, keys[j], |keys|);
    } else {
      CountMono(keys, keys[i], i, j);
    }
  }

  function Places(keys: seq<nat>): (f: seq<nat>)
    ensures |f| == |keys| && forall i :: 0 <= i < |f| ==> f[i] == Place(keys, i)
  {
    seq(|keys|, i requires 0 <= i < |keys| => Place(keys, i))
  }

  // ------------------------------------------------------------------ permutations

  /** f sends the entries to distinct places below |f|. */
  predicate Permutes(f: seq<nat>) {
    && (forall i :: 0 <= i < |f| ==> f[i] < |f|)
    && (forall i, j :: 0 <= i < j < |f| ==> f[i] != f[j])
  }

  lemma PlacesPermute(keys: seq<nat>)
    ensures Permutes(Places(keys))
  {
    var f := Places(keys);
    forall i | 0 <= i < |f|
      ensures f[i] < |f|
    {
      PlaceInGroup(keys, i);
    }
    forall i, j | 0 <= i < j < |f|
      ensures f[i] != f[j]
    {
      if Before(keys, i, j) {
        PlaceOrder(keys, i, j);
      } else {
        PlaceOrder(keys, j, i);
      }
    }
  }

  function Below(n: nat): (s: set<nat>)
    ensures |s| == n && forall i :: i in s <==> 0 <= i < n
  {
    if n == 0 then {} else Below(n - 1) + {n - 1}
  }

  lemma {:induction false} SubsetSize(a: set<nat>, b: set<nat>)
    requires a <= b
    ensures |a| <= |b| && (|a| == |b| ==> a == b)
  {
    if a != {} {
      var x :| x in a;
      SubsetSize(a - {x}, b - {x});
      assert a == (a - {x}) + {x} && b == (b - {x}) + {x};
    } else if b != {} {
      assert |b| > 0;
    }
  }

  /** The places some entries are sent to: as many as the entries. */
  function Image(f: seq<nat>, s: set<nat>): set<nat>
    requires forall i :: i in s ==> i < |f|
  {
    set i | i in s :: f[i]
  }

  lemma {:induction false} ImageSize(f: seq<nat>, s: set<nat>)
    requires Permutes(f) && forall i :: i in s ==> i < |f|
    ensures |Image(f, s)| == |s|
  {
    if s != {} {
      var x :| x in s;
      ImageSize(f, s - {x});
      assert Image(f, s) == Image(f, s - {x}) + {f[x]};
      assert f[x] !in Image(f, s - {x});
    }
  }

  /** Every place is taken. */
  lemma Onto(f: seq<nat>, r: nat) returns (i: nat)
    requires Permutes(f) && r < |f|
    ensures i < |f| && f[i] == r
  {
    ImageSize(f, Below(|f|));
    SubsetSize(Image(f, Below(|f|)), Below(|f|));
    assert r in Image(f, Below(|f|));
    i :| i in Below(|f|) && f[i] == r;
  }

  ghost function KeysBelow(keys: seq<nat>, w: nat, m: nat): (s: set<nat>)
    requires m <= |keys|
  {
    set i | 0 <= i < m && keys[i] < w
  }

  lemma {:induction false} LessIsSize(keys: seq<nat>, w: nat, m: nat)
    requires m <= |keys|
    ensures |KeysBelow(keys, w, m)| == Less(keys, w, m)
  {
    if m > 0 {
      LessIsSize(keys, w, m - 1);
      assert KeysBelow(keys, w, m) == KeysBelow(keys, w, m - 1) + if keys[m - 1] < w then {m - 1} else {};
    }
  }

  /** Counting keys does not depend on their arrangement. */
  lemma StartPermuted(a: seq<nat>, b: seq<nat>, f: seq<nat>, w: nat)
    requires |a| == |b| == |f| && Permutes(f) && forall i :: 0 <= i < |f| ==> b[f[i]] == a[i]
    ensures Start(a, w) == Start(b, w)
  {
    var s, t := KeysBelow(a, w, |a|), KeysBelow(b, w, |b|);
    LessIsSize(a, w, |a|);
    LessIsSize(b, w, |b|);
    ImageSize(f, s);
    forall r | r in t
      ensures r in Image(f, s)
    {
      var i := Onto(f, r);
      assert i in s;
    }
    assert Image(f, s) == t;
  }

  /** f puts smaller keys before larger ones. */
  ghost predicate Respects(f: seq<nat>, keys: seq<nat>) {
    && |f| == |keys|
    && forall i, j :: 0 <= i < |f| && 0 <= j < |f| && keys[i] < keys[j] ==> f[i] < f[j]
  }

  lemma GroupLow(f: seq<nat>, keys: seq<nat>, i: nat)
    requires Permutes(f) && Respects(f, keys) && i < |keys|
    ensures Start(keys, keys[i]) <= f[i]
  {
    hide Permutes, Less;
    var low := KeysBelow(keys, keys[i], |keys|);
    LessIsSize(keys, keys[i], |keys|);
    ImageSize(f, low);
    SubsetSize(Image(f, low), Below(f[i]));
  }

  /** A place not above another's has a key not above the other's. */
  lemma RespectsAt(f: seq<nat>, keys: seq<nat>, j: nat, i: nat)
    requires Permutes(f) && Respects(f, keys) && i < |keys| && j < |keys| && f[j] <= f[i]
    ensures keys[j] <= keys[i]
  {
  }

  lemma GroupHigh(f: seq<nat>, keys: seq<nat>, i: nat)
    requires Permutes(f) && Respects(f, keys) && i < |keys|
    ensures f[i] < Start(keys, keys[i] + 1)
  {
    hide KeysBelow, Image, Below, Less, Respects, Permutes;
    var n := |keys|;
    var upto := KeysBelow(keys, keys[i] + 1, n);
    Covered(f, keys, i, upto);
    LessIsSize(keys, keys[i] + 1, n);
    ImageSize(f, upto);
    assert |Image(f, upto)| == Start(keys, keys[i] + 1);
    SubsetSize(Below(f[i] + 1), Image(f, upto));
  }

  /** The places up to that of entry i are those of entries with keys up to its own. */
  lemma Covered(f: seq<nat>, keys: seq<nat>, i: nat, upto: set<nat>)
    requires Permutes(f) && Respects(f, keys) && i < |keys| && upto == KeysBelow(keys, keys[i] + 1, |keys|)
    ensures |f| == |keys| && (forall j :: j in upto ==> j < |f|) && Below(f[i] + 1) <= Image(f, upto)
  {
    assert f[i] < |keys|;
    hide Permutes, Less, Respects;
    forall r | r in Below(f[i] + 1)
      ensures r in Image(f, upto)
    {
      var j := Onto(f, r);
      RespectsAt(f, keys, j, i);
      assert j in upto;
    }
  }

  /** Whatever the order within a key, the entries of one key fill the same places. */
  lemma GroupInterval(f: seq<nat>, keys: seq<nat>, i: nat)
    requires Permutes(f) && Respects(f, keys) && i < |keys|
    ensures Start(keys, keys[i]) <= f[i] < Start(keys, keys[i] + 1)
  {
    GroupLow(f, keys, i);
    GroupHigh(f, keys, i);
  }

  /** The place decides the key. */
  lemma GroupUnique(g: seq<nat>, keys: seq<nat>, j: nat, w: nat)
    requires Permutes(g) && Respects(g, keys)
    requires j < |keys| && Start(keys, w) <= g[j] < Start(keys, w + 1)
    ensures keys[j] == w
  {
    hide Permutes, Respects, Less;
    GroupInterval(g, keys, j);
    if w < keys[j] {
      LessMono(keys, w + 1, keys[j], |keys|);
    } else if keys[j] < w {
      LessMono(keys, keys[j] + 1, w, |keys|);
    }
  }

  predicate Sends(f: seq<nat>, i: nat, r: nat) {
    i < |f| && f[i] == r
  }

  ghost predicate Hit(f: seq<nat>, r: nat) {
    exists i: nat :: Sends(f, i, r)
  }

  lemma OntoAll(f: seq<nat>)
    requires Permutes(f)
    ensures forall r: nat :: r < |f| ==> Hit(f, r)
  {
    forall r: nat | r < |f|
      ensures Hit(f, r)
    {
      var i := Onto(f, r);
      assert Sends(f, i, r);
    }
  }

  /** The entry sent to each place. */
  ghost function Inverse(f: seq<nat>): (g: seq<nat>)
    requires Permutes(f)
    ensures |g| == |f| && forall r :: 0 <= r < |f| ==> g[r] < |f| && f[g[r]] == r
  {
    OntoAll(f);
    var g := seq(|f|, r requires 0 <= r < |f| => assert Hit(f, r); var i: nat :| Sends(f, i, r); i);
    assert forall r :: 0 <= r < |f| ==> Sends(f, g[r], r);
    g
  }

  lemma InverseAt(f: seq<nat>, i: nat)
    requires Permutes(f) && i < |f|
    ensures f[i] < |f| && Inverse(f)[f[i]] == i
  {
    assert f[Inverse(f)[f[i]]] == f[i];
  }

  /** Two permutations in the same strict order are the same. */
  lemma {:induction false} SameOrder(f: seq<nat>, g: seq<nat>, i: nat)
    requires Permutes(f) && Permutes(g) && |f| == |g| && i < |f|
    requires forall j, k :: 0 <= j < |f| && 0 <= k < |f| && f[j] < f[k] ==> g[j] < g[k]
    ensures f[i] <= g[i]
    decreases f[i]
  {
    if f[i] > 0 {
      var j := Onto(f, f[i] - 1);
      SameOrder(f, g, j);
    }
  }
}
