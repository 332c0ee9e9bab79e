/** Model of the Java side of a buffer over a multidimensional array: collecting the innermost rows of a
    rectangular array of arrays (native/jpype_module/src/main/java/org/jpype/JPypeContext.java). */
module NestedArrays {
  import opened Wrappers
  import opened BufferLayout

  /** A Java array of primitives, or an array of arrays, some of which may be null. */
  datatype Nested<T> = Null | Leaf(items: seq<T>) | Node(subs: seq<Nested<T>>)

  /** Of a Java type with d pairs of brackets. */
  ghost predicate Typed<T>(o: Nested<T>, d: nat) {
    match o
    case Null => d >= 1
    case Leaf(_) => d == 1
    case Node(subs) => d >= 2 && forall i :: 0 <= i < |subs| ==> Typed(subs[i], d - 1)
  }

  /** Every array at depth i is there and has length shape[i]. */
  ghost predicate Rectangular<T>(o: Nested<T>, shape: seq<nat>) {
    match o
    case Null => false
    case Leaf(items) => shape == [|items|]
    case Node(subs) =>
      |shape| >= 2 && |subs| == shape[0] && forall i :: 0 <= i < |subs| ==> Rectangular(subs[i], shape[1..])
  }

  /** o[index[0]][index[1]]... */
  function At<T>(o: Nested<T>, shape: seq<nat>, index: seq<int>): T
    requires Rectangular(o, shape) && InRange(shape, index)
    decreases o
  {
    match o
    case Leaf(items) => items[index[0]]
    case Node(subs) => At(subs[index[0]], shape[1..], index[1..])
  }

  // ----- the rows in order

  /** All innermost arrays, from left to right. */
  function Leaves<T>(o: Nested<T>): seq<seq<T>>
    decreases o, 1, 0
  {
    match o
    case Null => []
    case Leaf(items) => [items]
    case Node(subs) => LeavesOf(o, |subs|)
  }

  /** The innermost arrays of the first k elements of o. */
  function LeavesOf<T>(o: Nested<T>, k: nat): seq<seq<T>>
    requires o.Node? && k <= |o.subs|
    decreases o, 0, k
  {
    if k == 0 then [] else LeavesOf(o, k - 1) + Leaves(o.subs[k - 1])
  }

  lemma {:induction false} FlattenSplit<T>(a: seq<seq<T>>, b: seq<seq<T>>)
    ensures Flatten(a + b) == Flatten(a) + Flatten(b)
    decreases |b|
  {
    if b == [] {
      assert a + b == a;
    } else {
      assert (a + b)[..|a + b| - 1] == a + b[..|b| - 1];
      FlattenSplit(a, b[..|b| - 1]);
    }
  }

  /** The items of the first k elements of o, one after another. */
  lemma {:induction false} ItemsOf<T>(o: Nested<T>, k: nat)
    requires o.Node? && k <= |o.subs|
    ensures Flatten(LeavesOf(o, k)) == Flatten(seq(k, i requires 0 <= i < k => Flatten(Leaves(o.subs[i]))))
    decreases k
  {
    var parts := seq(k, i requires 0 <= i < k => Flatten(Leaves(o.subs[i])));
    if k > 0 {
      ItemsOf(o, k - 1);
      FlattenSplit(LeavesOf(o, k - 1), Leaves(o.subs[k - 1]));
      assert parts[..k - 1] == seq(k - 1, i requires 0 <= i < k - 1 => Flatten(Leaves(o.subs[i])));
    }
  }

  lemma ProductFront(shape: seq<nat>)
    requires |shape| >= 1
    ensures Product(shape) == shape[0] * Product(shape[1..])
  {
    assert shape == [shape[0]] + shape[1..];
    ProductSplit([shape[0]], shape[1..]);
    ProductOne(shape[0]);
  }

  /** Horner's rule from the outermost dimension. */
  lemma {:induction false} HornerFront(shape: seq<nat>, index: seq<int>)
    requires |index| == |shape| >= 1
    ensures Horner(shape, index) == index[0] * Product(shape[1..]) + Horner(shape[1..], index[1..])
    decreases |shape|
  {
    hide Product;
    var n := |shape| - 1;
    if n == 0 {
      ProductEmpty(shape[1..]);
      assert Horner(shape[..0], index[..0]) == 0;
    } else {
      HornerFront(shape[..n], index[..n]);
      assert shape[..n][1..] == shape[1..][..n - 1] && index[..n][1..] == index[1..][..n - 1];
      assert shape[1..] == shape[1..n] + [shape[n]] && shape[..n][1..] == shape[1..n];
      ProductSplit(shape[1..n], [shape[n]]);
      ProductOne(shape[n]);
      Regroup(index[0], Product(shape[1..n]), Horner(shape[..n][1..], index[..n][1..]), shape[n], index[n]);
    }
  }

  lemma Regroup(i: int, p: int, h: int, extent: int, last: int)
    ensures (i * p + h) * extent + last == i * (p * extent) + (h * extent + last)
  {
  }

  /** The rows of a rectangular array are as many as the leading extents say, and all as long as the
      last one. */
  lemma {:induction false} LeavesAre<T>(o: Nested<T>, shape: seq<nat>)
    requires Rectangular(o, shape)
    ensures |shape| >= 1 && Even(Leaves(o), shape[|shape| - 1])
    ensures |Leaves(o)| == Product(shape[..|shape| - 1])
    decreases o, 1, 0
  {
    hide Product;
    if o.Leaf? {
      ProductEmpty(shape[..0]);
    } else {
      LeavesOfAre(o, shape, |o.subs|);
      var front := shape[..|shape| - 1];
      ProductFront(front);
      assert front[1..] == shape[1..][..|shape| - 2];
    }
  }

  lemma {:induction false} LeavesOfAre<T>(o: Nested<T>, shape: seq<nat>, k: nat)
    requires Rectangular(o, shape) && o.Node? && k <= |o.subs|
    ensures Even(LeavesOf(o, k), shape[|shape| - 1])
    ensures |LeavesOf(o, k)| == k * Product(shape[1..][..|shape| - 2])
    decreases o, 0, k
  {
    hide Product;
    if k > 0 {
      LeavesOfAre(o, shape, k - 1);
      LeavesAre(o.subs[k - 1], shape[1..]);
      NextBlock(k, Product(shape[1..][..|shape| - 2]));
    }
  }

  lemma NextBlock(k: int, p: int)
    ensures (k - 1) * p + p == k * p
  {
  }

  /** The rows of a rectangular array, one after another, hold the element at every index vector at the
      item that Horner's rule gives. */
  lemma {:induction false} ItemIsElement<T>(o: Nested<T>, shape: seq<nat>, index: seq<int>)
    requires Rectangular(o, shape) && InRange(shape, index)
    ensures |Flatten(Leaves(o))| == Product(shape) && 0 <= Horner(shape, index) < Product(shape)
    ensures Flatten(Leaves(o))[Horner(shape, index)] == At(o, shape, index)
    decreases o
  {
    HornerInRange(shape, index);
    HornerFront(shape, index);
    match o
    case Leaf(items) =>
      hide Horner, Product;
      ProductOne(|items|);
      ProductEmpty(shape[1..]);
      HornerEmpty(shape[1..], index[1..]);
      assert Leaves(o)[..0] == [];
    case Node(subs) =>
      hide Horner, Product;
      ItemIsElement(subs[index[0]], shape[1..], index[1..]);
      SubsEven(o, shape);
      ItemsOf(o, |subs|);
      ProductFront(shape);
      var parts := seq(|subs|, i requires 0 <= i < |subs| => Flatten(Leaves(subs[i])));
      FlattenAt(parts, Product(shape[1..]));
      assert ItemAt(parts, Product(shape[1..]), index[0], Horner(shape[1..], index[1..]));
  }

  lemma HornerEmpty(shape: seq<nat>, index: seq<int>)
    requires |shape| == |index| == 0
    ensures Horner(shape, index) == 0
  {
  }

  lemma SubsEven<T>(o: Nested<T>, shape: seq<nat>)
    requires Rectangular(o, shape) && o.Node?
    ensures forall i :: 0 <= i < |o.subs| ==> |Flatten(Leaves(o.subs[i]))| == Product(shape[1..])
  {
    forall i | 0 <= i < |o.subs| ensures |Flatten(Leaves(o.subs[i]))| == Product(shape[1..]) {
      var rest := shape[1..];
      LeavesAre(o.subs[i], rest);
      FlattenAt(Leaves(o.subs[i]), rest[|rest| - 1]);
    }
  }

  /** What is read through the buffer at an index vector is the element of the Java array at that index
      vector. */
  lemma BufferReadsElement<T>(o: Nested<T>, shape: seq<nat>, itemsize: nat, index: seq<int>)
    requires Rectangular(o, shape) && InRange(shape, index) && itemsize > 0
    ensures var offset, memory := Horner(shape, index) * itemsize, Flatten(Leaves(o));
            && offset % itemsize == 0 && 0 <= offset / itemsize < |memory|
            && memory[offset / itemsize] == At(o, shape, index)
  {
    ItemIsElement(o, shape, index);
    DivMod(Horner(shape, index), itemsize, 0, Product(shape));
  }

  // ----- the code

  /** collect: appends the innermost arrays to l, and gives up at the first length that differs. */
  method Collect<T>(l: seq<seq<T>>, o: Nested<T>, q: nat, shape: seq<nat>) returns (ok: bool, out: seq<seq<T>>)
    requires q < |shape| && Typed(o, |shape| - q)
    ensures ok <==> Rectangular(o, shape[q..])
    ensures ok ==> out == l + Leaves(o)
    decreases |shape| - q
  {
    out := l;
    match o
    case Null => return false, out;
    case Leaf(items) =>
      if |items| != shape[q] { return false, out; }
      return true, out + [items];
    case Node(subs) =>
      if |subs| != shape[q] { return false, out; }
      for i := 0 to |subs|
        invariant out == l + LeavesOf(o, i)
        invariant forall k :: 0 <= k < i ==> Rectangular(subs[k], shape[q + 1..])
      {
        ok, out := Collect(out, subs[i], q + 1, shape);
        if !ok { return; }
      }
      return true, out;
  }

  const MAX_DIMS: nat := 5

  ghost predicate Positive(shape: seq<nat>) { forall i :: 0 <= i < |shape| ==> shape[i] > 0 }

  /** Extents s of the array o start with `shape` and go on with those of `first`. */
  ghost predicate Agrees<T>(first: Nested<T>, shape: seq<nat>, d: nat, s: seq<nat>) {
    |shape| <= |s| && shape == s[..|shape|] && if |shape| < d then Rectangular(first, s[|shape|..]) else |s| == d
  }

  lemma AgreesNext<T>(first: Nested<T>, shape: seq<nat>, d: nat, s: seq<nat>)
    requires |shape| < d && Typed(first, d - |shape|) && !first.Null? && Agrees(first, shape, d, s)
    ensures var length := if first.Leaf? then |first.items| else |first.subs|;
            && |shape| < |s| && s[|shape|] == length
            && (first.Leaf? ==> d == |shape| + 1 && Agrees(first, shape + [length], d, s))
            && (first.Node? ==> |shape| + 1 < d)
            && (first.Node? && length > 0 ==>
                  Agrees(first.subs[0], shape + [length], d, s) && !first.subs[0].Null?)
  {
    var rest := s[|shape|..];
    assert s[..|shape| + 1] == s[..|shape|] + [s[|shape|]];
    assert rest[1..] == s[|shape| + 1..];
  }

  lemma TypedStep<T>(first: Nested<T>, d: nat)
    requires Typed(first, d) && !first.Null?
    ensures first.Leaf? <==> d == 1
    ensures first.Node? ==> d >= 2 && forall i :: 0 <= i < |first.subs| ==> Typed(first.subs[i], d - 1)
  {
  }

  /** collectRectangular, for a primitive array type with d pairs of brackets: extents and rows, if the
      array is rectangular, has no extent of zero and fewer than five dimensions. */
  method CollectRectangular<T>(o: Nested<T>, d: nat) returns (r: Option<(seq<nat>, seq<seq<T>>)>)
    requires Typed(o, d)
    ensures r.Some? <==> d < MAX_DIMS && exists shape :: Positive(shape) && Rectangular(o, shape)
    ensures r.Some? ==> Positive(r.value.0) && Rectangular(o, r.value.0) && r.value.1 == Leaves(o)
  {
    if o.Null? { return None; }
    var shape: seq<nat>, first := [], o;
    TypedStep(o, d);
    hide Rectangular, Typed;
    while |shape| < MAX_DIMS && |shape| < d
      invariant |shape| <= MAX_DIMS && |shape| <= d && Positive(shape)
      invariant |shape| < d ==> Typed(first, d - |shape|) && !first.Null?
      invariant forall s :: Positive(s) && Rectangular(o, s) ==> Agrees(first, shape, d, s)
      decreases d - |shape|
    {
      TypedStep(first, d - |shape|);
      var length := if first.Leaf? then |first.items| else |first.subs|;
      forall s | Positive(s) && Rectangular(o, s)
        ensures |shape| < |s| && s[|shape|] == length > 0
        ensures Agrees(if first.Node? then first.subs[0] else first, shape + [length], d, s)
        ensures first.Node? ==> !first.subs[0].Null?
      {
        AgreesNext(first, shape, d, s);
      }
      if length == 0 { return None; }
      shape := shape + [length];
      if first.Node? {
        first := first.subs[0];
        if first.Null? { return None; }
      }
    }
    if d > MAX_DIMS || |shape| == MAX_DIMS { return None; }
    assert shape[0..] == shape;
    forall s | Positive(s) && Rectangular(o, s) ensures s == shape { assert s[..|s|] == s; }
    var ok, rows := Collect([], o, 0, shape);
    if !ok { return None; }
    return Some((shape, rows));
  }
}
