/** Slice arithmetic: Python's slice semantics, and the views that native/common/jp_array.cpp and
    native/python/pyjp_array.cpp compute for slices of Java arrays. */
module Slices {
  import opened Arithmetic
  import opened Wrappers

  /** PY_SSIZE_T_MAX; PY_SSIZE_T_MIN is -MAX - 1. */
  const MAX: int := 0x7fff_ffff_ffff_ffff

  /** A Python slice object start:stop:step. */
  datatype Slice = Slice(start: Option<int>, stop: Option<int>, step: Option<int>)

  datatype Bounds = Bounds(start: int, stop: int, step: int)

  predicate Legal(s: Slice) { s.step != Some(0) }

  /** PySlice_Unpack for a slice with a non-zero step. */
  function Unpack(s: Slice): (b: Bounds)
    requires Legal(s)
    ensures b.step != 0
  {
    var step := if s.step.Some? then s.step.value else 1;
    var start := if s.start.Some? then s.start.value else if step < 0 then MAX else 0;
    var stop := if s.stop.Some? then s.stop.value else if step < 0 then -MAX - 1 else MAX;
    Bounds(start, stop, step)
  }

  /** One bound, clipped as PySlice_AdjustIndices does. */
  function Clip(length: nat, x: int, step: int): int {
    if x < 0 then
      if x + length < 0 then (if step < 0 then -1 else 0) else x + length
    else if x >= length then (if step < 0 then length - 1 else length)
    else x
  }

  predicate Ahead(start: int, stop: int, step: int) { if step > 0 then start < stop else start > stop }

  /** Python's list positions of a slice, one step at a time. */
  function Positions(start: int, stop: int, step: int): seq<int>
    requires step != 0
    decreases if step > 0 then stop - start else start - stop
  {
    if Ahead(start, stop, step)
    then [start] + Positions(start + step, stop, step) else []
  }

  function Chosen(length: nat, s: Slice): seq<int>
    requires Legal(s)
  {
    var b := Unpack(s);
    Positions(Clip(length, b.start, b.step), Clip(length, b.stop, b.step), b.step)
  }

  /** list[s] in Python. */
  function ListSlice<T>(list: seq<T>, s: Slice): seq<T>
    requires Legal(s)
  {
    ChosenInRange(|list|, s);
    var at := Chosen(|list|, s);
    seq(|at|, i requires 0 <= i < |at| => list[at[i]])
  }

  // ----- the arithmetic of the source

  /** The slice length computed by PySlice_AdjustIndices. */
  function Count(start: int, stop: int, step: int): int
    requires step != 0
  {
    if step < 0 then (if stop < start then (start - stop - 1) / (-step) + 1 else 0)
    else if start < stop then (stop - start - 1) / step + 1 else 0
  }

  /** Division as C++ does it, towards zero. */
  function Quotient(a: int, b: int): int
    requires b != 0
  {
    if (a >= 0) == (b > 0) then Abs(a) / Abs(b) else -(Abs(a) / Abs(b))
  }

  function Abs(a: int): nat { if a < 0 then -a else a }

  /** m_Start, m_Step and m_Length of a JPArray. */
  datatype View = View(start: int, step: int, length: nat)

  function Whole(length: nat): View { View(0, 1, length) }

  /** The slice constructor of JPArray. */
  function Sub(v: View, start: int, stop: int, step: int): View
    requires step != 0
  {
    var length := if step > 0 then Quotient(stop - start - 1 + step, step) else Quotient(stop - start + 1 + step, step);
    View(v.start + v.step * start, step * v.step, if length < 0 then 0 else length)
  }

  /** PyJPArray_getItem on a slice. */
  function Sliced(v: View, s: Slice): View
    requires Legal(s)
  {
    var b := Unpack(s);
    var start, stop := Clip(v.length, b.start, b.step), Clip(v.length, b.stop, b.step);
    if Count(start, stop, b.step) <= 0 then Sub(v, 0, 0, 1) else Sub(v, start, stop, b.step)
  }

  /** The k-th position of an arithmetic progression. */
  function Spot(start: int, step: int, k: int): int { start + k * step }

  /** Position in the Java array of element i. */
  function At(v: View, i: int): int { Spot(v.start, v.step, i) }

  /** Every element of the view lies in an array of n elements. */
  ghost predicate Inside(v: View, n: nat) {
    && v.step != 0
    && forall i :: 0 <= i < v.length ==> 0 <= At(v, i) < n
  }

  function Elements<T>(base: seq<T>, v: View): seq<T>
    requires Inside(v, |base|)
  {
    seq(v.length, i requires 0 <= i < v.length => base[At(v, i)])
  }

  // ----- counting positions

  lemma {:induction false} DivStep(a: int, b: int)
    requires 0 < b <= a
    ensures a / b == (a - b) / b + 1
  {
    var q, r := (a - b) / b, (a - b) % b;
    assert a == b * (q + 1) + r;
    QuotientUnique(a, b, q + 1, r);
  }

  /** There are Count positions, and position i is start + i * step. */
  lemma {:induction false} PositionsAre(start: int, stop: int, step: int)
    requires step != 0
    ensures var at := Positions(start, stop, step);
            && |at| == Count(start, stop, step)
            && forall i :: 0 <= i < |at| ==> at[i] == Spot(start, step, i)
    decreases if step > 0 then stop - start else start - stop
  {
    var at := Positions(start, stop, step);
    if at != [] {
      PositionsAre(start + step, stop, step);
      var rest := Positions(start + step, stop, step);
      forall i | 0 <= i < |at| ensures at[i] == Spot(start, step, i) {
        if i > 0 { assert at[i] == rest[i - 1] == Spot(start + step, step, i - 1); }
      }
      CountStep(start, stop, step);
    }
  }

  lemma CountStep(start: int, stop: int, step: int)
    requires step != 0 && Ahead(start, stop, step)
    ensures Count(start, stop, step) == Count(start + step, stop, step) + 1
  {
    var gap, size := if step > 0 then stop - start - 1 else start - stop - 1, Abs(step);
    if gap >= size { DivStep(gap, size); } else { QuotientUnique(gap, size, 0, gap); }
  }

  /** The clipped positions of a slice are indices of the list. */
  lemma {:induction false} PositionsInRange(start: int, stop: int, step: int, lo: int, hi: int)
    requires step > 0 ==> lo <= start && stop <= hi
    requires step < 0 ==> start < hi && lo - 1 <= stop
    requires step != 0
    ensures forall i :: 0 <= i < |Positions(start, stop, step)| ==> lo <= Positions(start, stop, step)[i] < hi
    decreases if step > 0 then stop - start else start - stop
  {
    if Ahead(start, stop, step) {
      PositionsInRange(start + step, stop, step, lo, hi);
    }
  }

  lemma ChosenInRange(length: nat, s: Slice)
    requires Legal(s)
    ensures forall i :: 0 <= i < |Chosen(length, s)| ==> 0 <= Chosen(length, s)[i] < length
    ensures var b := Unpack(s);
            var start, stop := Clip(length, b.start, b.step), Clip(length, b.stop, b.step);
            |Chosen(length, s)| == Count(start, stop, b.step)
  {
    var b := Unpack(s);
    var start, stop := Clip(length, b.start, b.step), Clip(length, b.stop, b.step);
    PositionsInRange(start, stop, b.step, 0, length);
    PositionsAre(start, stop, b.step);
  }

  /** The length the JPArray constructor computes by truncating division is Python's. */
  lemma SubLength(v: View, start: int, stop: int, step: int)
    requires step != 0 && Count(start, stop, step) > 0
    ensures Sub(v, start, stop, step).length == Count(start, stop, step)
  {
    var gap, size := if step > 0 then stop - start - 1 else start - stop - 1, Abs(step);
    DivStep(gap + size, size);
    assert Quotient(if step > 0 then gap + size else -(gap + size), step) == (gap + size) / size;
  }

  lemma EmptySub(v: View)
    ensures Sub(v, 0, 0, 1) == View(v.start, v.step, 0)
  {
  }

  // ----- what a Python slice selects, by Python's own account of its bounds

  /** The position a bound means, in a list of n elements: negative ones count from the end, and what
      lies outside is moved to the nearest of lo, lo + 1, ..., lo + n. */
  function Meant(n: nat, bound: Option<int>, default: int, lo: int): int {
    match bound
    case None => default
    case Some(x) =>
      var p := if x < 0 then n + x else x;
      if p < lo then lo else if p > lo + n then lo + n else p
  }

  /** d is zero, step, twice step or a further multiple. */
  predicate Multiple(d: int, step: int)
    requires step > 0
  {
    d >= 0 && d % step == 0
  }

  /** The positions in `at`, in ascending order, are a, a + step and so on as far as before b. */
  ghost predicate Ascends(at: seq<int>, a: int, b: int, step: int)
    requires step > 0
  {
    && (forall j: int :: j in at <==> j < b && Multiple(j - a, step))
    && (forall i, k :: 0 <= i < k < |at| ==> at[i] < at[k])
  }

  /** In descending order: a, a - step and so on as far as behind b. */
  ghost predicate Descends(at: seq<int>, a: int, b: int, step: int)
    requires step > 0
  {
    && (forall j: int :: j in at <==> b < j && Multiple(a - j, step))
    && (forall i, k :: 0 <= i < k < |at| ==> at[i] > at[k])
  }

  /** With a positive step the slice selects, from left to right, every step-th position from the start
      bound on that lies before the stop bound. */
  lemma ForwardSlice(n: nat, s: Slice)
    requires n <= MAX && (s.step.Some? ==> s.step.value > 0)
    ensures Ascends(Chosen(n, s), Meant(n, s.start, 0, 0), Meant(n, s.stop, n, 0),
                    if s.step.Some? then s.step.value else 1)
  {
    var a, b := Meant(n, s.start, 0, 0), Meant(n, s.stop, n, 0);
    PositionsAscend(a, b, if s.step.Some? then s.step.value else 1);
  }

  lemma {:induction false} PositionsAscend(a: int, b: int, step: int)
    requires step > 0
    ensures Ascends(Positions(a, b, step), a, b, step)
    decreases b - a
  {
    if a < b {
      PositionsAscend(a + step, b, step);
      AscendsFrom(Positions(a + step, b, step), a, b, step);
    }
  }

  lemma AscendsFrom(rest: seq<int>, a: int, b: int, step: int)
    requires step > 0 && a < b && Ascends(rest, a + step, b, step)
    ensures Ascends([a] + rest, a, b, step)
  {
    forall j: int ensures j in [a] + rest <==> j < b && Multiple(j - a, step) {
      MultipleStep(j - a, step);
      assert Multiple(j - (a + step), step) == Multiple(j - a - step, step);
    }
    forall k | 0 <= k < |rest| ensures a < rest[k] { assert rest[k] in rest; }
  }

  lemma MultipleStep(d: int, step: int)
    requires step > 0
    ensures Multiple(d, step) <==> d == 0 || Multiple(d - step, step)
  {
    assert d % step == (d - step) % step by {
      var q := d / step;
      assert d - step == step * (q - 1) + d % step;
      QuotientUnique(d - step, step, q - 1, d % step);
    }
    if 0 <= d < step { QuotientUnique(d, step, 0, d); }
  }

  /** With a negative step it goes from right to left, down from the start bound, by default the last
      position, to behind the stop bound, by default the one in front of the first. */
  lemma BackwardSlice(n: nat, s: Slice)
    requires n <= MAX && s.step.Some? && s.step.value < 0
    ensures Descends(Chosen(n, s), Meant(n, s.start, n - 1, -1), Meant(n, s.stop, -1, -1), -s.step.value)
  {
    PositionsDescend(Meant(n, s.start, n - 1, -1), Meant(n, s.stop, -1, -1), -s.step.value);
  }

  lemma {:induction false} PositionsDescend(a: int, b: int, step: int)
    requires step > 0
    ensures Descends(Positions(a, b, -step), a, b, step)
    decreases a - b
  {
    if b < a {
      PositionsDescend(a - step, b, step);
      DescendsFrom(Positions(a - step, b, -step), a, b, step);
    }
  }

  lemma DescendsFrom(rest: seq<int>, a: int, b: int, step: int)
    requires step > 0 && b < a && Descends(rest, a - step, b, step)
    ensures Descends([a] + rest, a, b, step)
  {
    forall j: int ensures j in [a] + rest <==> b < j && Multiple(a - j, step) {
      MultipleStep(a - j, step);
      assert Multiple(a - step - j, step) == Multiple(a - j - step, step);
    }
    forall k | 0 <= k < |rest| ensures a > rest[k] { assert rest[k] in rest; }
  }

  /** A bound counted from the end selects what the same position counted from the start does. */
  lemma NegativeBound<T>(list: seq<T>, s: Slice, x: int)
    requires Legal(s) && -|list| <= x < 0 && |list| <= MAX
    ensures ListSlice(list, s.(start := Some(x))) == ListSlice(list, s.(start := Some(x + |list|)))
    ensures ListSlice(list, s.(stop := Some(x))) == ListSlice(list, s.(stop := Some(x + |list|)))
  {
    hide Positions;
  }

  /** list[a:b] is the part of the list from a up to b. */
  lemma PartOfList<T>(list: seq<T>, a: nat, b: nat)
    requires a <= b <= |list| <= MAX
    ensures ListSlice(list, Slice(Some(a), Some(b), None)) == list[a..b]
  {
    var at := Chosen(|list|, Slice(Some(a), Some(b), None));
    PositionsAre(a, b, 1);
    assert |at| == b - a && forall i :: 0 <= i < |at| ==> at[i] == a + i;
  }

  /** list[-k:] is the last k elements, list[:-k] all the others. */
  lemma EndsOfList<T>(list: seq<T>, k: int)
    requires 0 < k <= |list| <= MAX
    ensures ListSlice(list, Slice(Some(-k), None, None)) == list[|list| - k..]
    ensures ListSlice(list, Slice(None, Some(-k), None)) == list[..|list| - k]
  {
    var n: nat := |list|;
    PartOfList(list, n - k, n);
    PartOfList(list, 0, n - k);
    assert Chosen(n, Slice(Some(-k), None, None)) == Chosen(n, Slice(Some(n - k), Some(n), None));
    assert Chosen(n, Slice(None, Some(-k), None)) == Chosen(n, Slice(Some(0), Some(n - k), None));
    assert list[|list| - k..|list|] == list[|list| - k..];
  }

  /** list[::-1] is the list backwards. */
  lemma ListBackwards<T>(list: seq<T>)
    requires |list| <= MAX
    ensures var r := ListSlice(list, Slice(None, None, Some(-1)));
            |r| == |list| && forall i :: 0 <= i < |r| ==> r[i] == list[|list| - 1 - i]
  {
    PositionsAre(|list| - 1, -1, -1);
  }

  // ----- slices of views are slices of lists

  lemma Compose(v: View, w: View, i: int, start: int, step: int)
    requires w.start == v.start + v.step * start && w.step == step * v.step
    ensures At(w, i) == At(v, Spot(start, step, i))
  {
    assert i * (step * v.step) == (i * step) * v.step;
    assert v.step * start + (i * step) * v.step == Spot(start, step, i) * v.step;
  }

  /** Element i of a slice of a view sits where element at[i] of the view does. */
  lemma SlicedAt(v: View, s: Slice)
    requires v.step != 0 && Legal(s)
    ensures var w, at := Sliced(v, s), Chosen(v.length, s);
            && w.length == |at| && w.step != 0
            && forall i :: 0 <= i < |at| ==> At(w, i) == At(v, at[i])
  {
    var b, w, at := Unpack(s), Sliced(v, s), Chosen(v.length, s);
    var start, stop := Clip(v.length, b.start, b.step), Clip(v.length, b.stop, b.step);
    hide Clip, Unpack, Count, Sub;
    PositionsAre(start, stop, b.step);
    if |at| == 0 {
      EmptySub(v);
    } else {
      SubLength(v, start, stop, b.step);
      MulNonZero(b.step, v.step);
      forall i | 0 <= i < |at| ensures At(w, i) == At(v, at[i]) {
        Compose(v, w, i, start, b.step);
      }
    }
  }

  /** Slicing a view gives exactly what slicing the list of its elements gives: the same length, every
      index inside the array, the same elements in order. */
  lemma SliceOfView<T>(base: seq<T>, v: View, s: Slice)
    requires Inside(v, |base|) && Legal(s)
    ensures Inside(Sliced(v, s), |base|)
    ensures Sliced(v, s).length == |Chosen(v.length, s)|
    ensures Elements(base, Sliced(v, s)) == ListSlice(Elements(base, v), s)
  {
    SlicedAt(v, s);
    ChosenInRange(v.length, s);
    hide Sliced, Chosen, At;
  }

  function ViewChain(v: View, ss: seq<Slice>): View
    requires forall i :: 0 <= i < |ss| ==> Legal(ss[i])
  {
    if ss == [] then v else Sliced(ViewChain(v, ss[..|ss| - 1]), ss[|ss| - 1])
  }

  function ListChain<T>(list: seq<T>, ss: seq<Slice>): seq<T>
    requires forall i :: 0 <= i < |ss| ==> Legal(ss[i])
  {
    if ss == [] then list else ListSlice(ListChain(list, ss[..|ss| - 1]), ss[|ss| - 1])
  }

  /** For slices of slices to any depth and any mix of signs of step. */
  lemma {:induction false} SliceChains<T>(base: seq<T>, ss: seq<Slice>)
    requires forall i :: 0 <= i < |ss| ==> Legal(ss[i])
    ensures var v := ViewChain(Whole(|base|), ss);
            Inside(v, |base|) && Elements(base, v) == ListChain(base, ss)
    decreases |ss|
  {
    if ss == [] {
      assert Elements(base, Whole(|base|)) == base;
    } else {
      SliceChains(base, ss[..|ss| - 1]);
      SliceOfView(base, ViewChain(Whole(|base|), ss[..|ss| - 1]), ss[|ss| - 1]);
    }
  }

  // ----- writing through views

  /** base with vals[k] stored at start + k * step, for every k. */
  function Scatter<T>(base: seq<T>, start: int, step: int, vals: seq<T>): (r: seq<T>)
    requires forall k :: 0 <= k < |vals| ==> 0 <= Spot(start, step, k) < |base|
    ensures |r| == |base|
    decreases |vals|
  {
    if vals == [] then base
    else
      var n := |vals| - 1;
      Scatter(base, start, step, vals[..n])[Spot(start, step, n) := vals[n]]
  }

  /** Exactly the selected positions change, to the given values. */
  lemma {:induction false} ScatterWrites<T>(base: seq<T>, start: int, step: int, vals: seq<T>)
    requires step != 0 && forall k :: 0 <= k < |vals| ==> 0 <= Spot(start, step, k) < |base|
    ensures forall k :: 0 <= k < |vals| ==> Scatter(base, start, step, vals)[Spot(start, step, k)] == vals[k]
    ensures forall j :: 0 <= j < |base| && (forall k :: 0 <= k < |vals| ==> j != Spot(start, step, k))
              ==> Scatter(base, start, step, vals)[j] == base[j]
    decreases |vals|
  {
    if vals != [] {
      var n := |vals| - 1;
      ScatterWrites(base, start, step, vals[..n]);
      forall k | 0 <= k < n ensures Spot(start, step, k) != Spot(start, step, n) { Distinct(start, step, k, n); }
    }
  }

  lemma Distinct(start: int, step: int, k: int, n: int)
    requires k != n && step != 0
    ensures Spot(start, step, k) != Spot(start, step, n)
  {
    MulNonZero(n - k, step);
    assert (n - k) * step == n * step - k * step;
  }

  /** Writing through a view is writing into the list of its elements. */
  lemma {:induction false} ScatterThroughView<T>(base: seq<T>, v: View, start: int, step: int, vals: seq<T>)
    requires Inside(v, |base|) && forall k :: 0 <= k < |vals| ==> 0 <= Spot(start, step, k) < v.length
    ensures forall k :: 0 <= k < |vals| ==> 0 <= Spot(At(v, start), v.step * step, k) < |base|
    ensures Elements(Scatter(base, At(v, start), v.step * step, vals), v)
         == Scatter(Elements(base, v), start, step, vals)
    decreases |vals|
  {
    forall k | 0 <= k < |vals|
      ensures Spot(At(v, start), v.step * step, k) == At(v, Spot(start, step, k))
    {
      Compose(v, View(At(v, start), step * v.step, 0), k, start, step);
    }
    if vals != [] {
      var n := |vals| - 1;
      ScatterThroughView(base, v, start, step, vals[..n]);
      UpdateThroughView(Scatter(base, At(v, start), v.step * step, vals[..n]), v, Spot(start, step, n), vals[n]);
    }
  }

  lemma UpdateThroughView<T>(base: seq<T>, v: View, i: nat, x: T)
    requires Inside(v, |base|) && i < v.length
    ensures Elements(base[At(v, i) := x], v) == Elements(base, v)[i := x]
  {
    forall j | 0 <= j < v.length && j != i ensures At(v, j) != At(v, i) { Distinct(v.start, v.step, j, i); }
  }

  /** list[s] = vals in Python, for equal lengths. */
  function ListAssign<T>(list: seq<T>, s: Slice, vals: seq<T>): (r: seq<T>)
    requires Legal(s) && |vals| == |Chosen(|list|, s)|
    ensures |r| == |list|
  {
    ChosenInRange(|list|, s);
    Stored(list, Chosen(|list|, s), vals)
  }

  /** list with vals[k] stored at position at[k]. */
  function Stored<T>(list: seq<T>, at: seq<int>, vals: seq<T>): (r: seq<T>)
    requires |vals| == |at| && forall k :: 0 <= k < |at| ==> 0 <= at[k] < |list|
    ensures |r| == |list|
    decreases |at|
  {
    if at == [] then list
    else
      var n := |at| - 1;
      Stored(list, at[..n], vals[..n])[at[n] := vals[n]]
  }

  lemma {:induction false} StoredIsScatter<T>(list: seq<T>, at: seq<int>, start: int, step: int, vals: seq<T>)
    requires |vals| == |at| && forall k :: 0 <= k < |at| ==> 0 <= at[k] < |list| && at[k] == Spot(start, step, k)
    requires forall k :: 0 <= k < |vals| ==> 0 <= Spot(start, step, k) < |list|
    ensures Stored(list, at, vals) == Scatter(list, start, step, vals)
    decreases |at|
  {
    if at != [] { StoredIsScatter(list, at[..|at| - 1], start, step, vals[..|at| - 1]); }
  }

  /** Assigning to a slice is a regular scatter, and reading the slice back gives the values. */
  lemma AssignMeans<T>(list: seq<T>, s: Slice, vals: seq<T>)
    requires Legal(s) && |vals| == |Chosen(|list|, s)|
    ensures var b := Unpack(s);
            var start := Clip(|list|, b.start, b.step);
            && (forall k :: 0 <= k < |vals| ==> 0 <= Spot(start, b.step, k) < |list|)
            && ListAssign(list, s, vals) == Scatter(list, start, b.step, vals)
    ensures ListSlice(ListAssign(list, s, vals), s) == vals
  {
    var b, at := Unpack(s), Chosen(|list|, s);
    var start, stop := Clip(|list|, b.start, b.step), Clip(|list|, b.stop, b.step);
    ChosenInRange(|list|, s);
    PositionsAre(start, stop, b.step);
    hide Clip, Unpack, Chosen;
    forall k | 0 <= k < |vals| ensures 0 <= Spot(start, b.step, k) < |list| && at[k] == Spot(start, b.step, k) {
      assert at[k] == Spot(start, b.step, k);
    }
    StoredIsScatter(list, at, start, b.step, vals);
    ScatterWrites(list, start, b.step, vals);
  }

  /** Position j of the Java array is not that of an element of the slice of the view. */
  ghost predicate Unselected(v: View, s: Slice, j: int)
    requires Legal(s)
  {
    forall k :: 0 <= k < |Chosen(v.length, s)| ==> j != At(v, Chosen(v.length, s)[k])
  }

  lemma ScatterKeeps<T>(base: seq<T>, start: int, step: int, vals: seq<T>, j: nat)
    requires step != 0 && j < |base| && forall k :: 0 <= k < |vals| ==> 0 <= Spot(start, step, k) < |base|
    requires forall k :: 0 <= k < |vals| ==> j != Spot(start, step, k)
    ensures Scatter(base, start, step, vals)[j] == base[j]
  {
    ScatterWrites(base, start, step, vals);
  }

  /** Writing the chosen elements leaves every other position of the Java array alone. */
  lemma WritesOnlyChosen<T>(base: seq<T>, v: View, s: Slice, vals: seq<T>, j: nat)
    requires Inside(v, |base|) && Legal(s) && |vals| == |Chosen(v.length, s)|
    requires j < |base| && Unselected(v, s, j)
    ensures var b := Unpack(s);
            var start := Clip(v.length, b.start, b.step);
            && (forall k :: 0 <= k < |vals| ==> 0 <= Spot(At(v, start), v.step * b.step, k) < |base|)
            && Scatter(base, At(v, start), v.step * b.step, vals)[j] == base[j]
  {
    var b, at := Unpack(s), Chosen(v.length, s);
    var start, stop := Clip(v.length, b.start, b.step), Clip(v.length, b.stop, b.step);
    ChosenInRange(v.length, s);
    PositionsAre(start, stop, b.step);
    hide Clip, Unpack, Chosen;
    MulNonZero(v.step, b.step);
    forall k | 0 <= k < |vals|
      ensures 0 <= Spot(At(v, start), v.step * b.step, k) < |base| && j != Spot(At(v, start), v.step * b.step, k)
    {
      assert 0 <= at[k] < v.length && j != At(v, at[k]);
      Compose(v, View(At(v, start), b.step * v.step, 0), k, start, b.step);
    }
    ScatterKeeps(base, At(v, start), v.step * b.step, vals, j);
  }
}
