/** Model of JPArray (native/common/jp_array.cpp), of subscripting in
    native/python/pyjp_array.cpp, and of JPClass::setArrayRange (native/common/jp_class.cpp). */
module JavaArrays {
  import opened Slices
  import opened Wrappers

  datatype Error = IndexError | ValueError | TypeError
  datatype Outcome = Done | Failed(error: Error)

  /** The Python java on the right of a slice assignment. */
  datatype Value<+P> = Items(items: seq<P>) | NoSequence

  /** How a component type converts Python objects: None below an implicit match. */
  type Conversion<!P, !T> = P -> Option<T>

  predicate Converts<P, T>(convert: Conversion<P, T>, vals: seq<P>) {
    forall i :: 0 <= i < |vals| ==> convert(vals[i]).Some?
  }

  function Converted<P, T>(convert: Conversion<P, T>, vals: seq<P>): seq<T>
    requires Converts(convert, vals)
  {
    seq(|vals|, i requires 0 <= i < |vals| => convert(vals[i]).value)
  }

  /** What assigning a value to `count` selected elements comes to. */
  function AssignOutcome<P, T>(convert: Conversion<P, T>, count: int, value: Value<P>): (r: Outcome)
    ensures r.Done? <==> value.Items? && |value.items| == count && Converts(convert, value.items)
    ensures r == Failed(ValueError) <==> value.Items? && |value.items| != count
    ensures r != Failed(IndexError)
  {
    if value.NoSequence? then Failed(TypeError)
    else if |value.items| != count then Failed(ValueError)
    else if !Converts(convert, value.items) then Failed(TypeError)
    else Done
  }

  /** JPClass::setArrayRange: verify every value, only then start to write. */
  method SetArrayRange<P, T>(convert: Conversion<P, T>, a: array<T>, start: int, step: int, vals: seq<P>)
    returns (outcome: Outcome)
    requires forall k :: 0 <= k < |vals| ==> 0 <= Spot(start, step, k) < a.Length
    modifies a
    ensures outcome == if Converts(convert, vals) then Done else Failed(TypeError)
    ensures a[..] == if Converts(convert, vals) then Scatter(old(a[..]), start, step, Converted(convert, vals))
                     else old(a[..])
  {
    for i := 0 to |vals|
      invariant Converts(convert, vals[..i])
    {
      if convert(vals[i]).None? { return Failed(TypeError); }
      assert vals[..i + 1] == vals[..i] + [vals[i]];
    }
    assert vals[..|vals|] == vals;
    ghost var was, news := a[..], Converted(convert, vals);
    var index := start;
    for i := 0 to |vals|
      invariant index == Spot(start, step, i)
      invariant a[..] == Scatter(was, start, step, news[..i])
    {
      assert news[..i + 1][..i] == news[..i];
      a[index] := convert(vals[i]).value;
      index := index + step;
    }
    assert news[..|news|] == news;
    return Done;
  }

  class JPArray<!P, !T> {
    const java: array<T>
    const convert: Conversion<P, T>
    const start: int
    const step: int
    const length: nat

    function ViewOf(): View { View(start, step, length) }

    ghost predicate Valid() { Inside(ViewOf(), java.Length) }

    /** The array as the Python list it stands for. */
    ghost function List(): seq<T>
      requires Valid()
      reads java
    {
      Elements(java[..], ViewOf())
    }

    constructor (java: array<T>, convert: Conversion<P, T>)
      ensures Valid() && this.java == java && this.convert == convert
      ensures ViewOf() == Whole(java.Length) && List() == java[..]
    {
      this.java, this.convert := java, convert;
      start, step, length := 0, 1, java.Length;
    }

    constructor Slice(instance: JPArray<P, T>, start: int, stop: int, step: int)
      requires step != 0
      ensures java == instance.java && convert == instance.convert
      ensures ViewOf() == Sub(instance.ViewOf(), start, stop, step)
    {
      java, convert := instance.java, instance.convert;
      this.step := step * instance.step;
      this.start := instance.start + instance.step * start;
      var n: int := if step > 0 then Quotient(stop - start - 1 + step, step)
                    else Quotient(stop - start + 1 + step, step);
      length := if n < 0 then 0 else n;
    }

    method GetItem(index: int) returns (r: Result<T, Error>)
      requires Valid()
      ensures r == if 0 <= index + length && index < length then Ok(List()[if index < 0 then index + length else index])
                   else Err(IndexError)
    {
      var ndx := index;
      if ndx < 0 { ndx := ndx + length; }
      if ndx >= length || ndx < 0 { return Err(IndexError); }
      return Ok(java[At(ViewOf(), ndx)]);
    }

    method SetItem(index: int, val: P) returns (outcome: Outcome)
      requires Valid()
      modifies java
      ensures var ndx := if index < 0 then index + length else index;
              && (!(0 <= ndx < length) ==> outcome == Failed(IndexError))
              && (0 <= ndx < length && convert(val).None? ==> outcome == Failed(TypeError))
              && (0 <= ndx < length && convert(val).Some? ==>
                    && outcome == Done && List() == old(List())[ndx := convert(val).value]
                    && java[..] == old(java[..])[At(ViewOf(), ndx) := convert(val).value])
      ensures outcome.Failed? ==> java[..] == old(java[..])
    {
      var ndx := index;
      if ndx < 0 { ndx := ndx + length; }
      if ndx >= length || ndx < 0 { return Failed(IndexError); }
      match convert(val)
      case None => return Failed(TypeError);
      case Some(x) =>
        UpdateThroughView(java[..], ViewOf(), ndx, x);
        java[At(ViewOf(), ndx)] := x;
        return Done;
    }

    /** PyJPArray_getItem with a slice: a view of the same Java array, equal to the list slice. */
    method GetSlice(s: Slice) returns (r: Result<JPArray<P, T>, Error>)
      requires Valid()
      ensures !Legal(s) ==> r == Err(ValueError)
      ensures Legal(s) ==> r.Ok? && r.value.Valid() && r.value.java == java && r.value.convert == convert
      ensures Legal(s) ==> r.value.ViewOf() == Sliced(ViewOf(), s) && r.value.List() == ListSlice(List(), s)
    {
      if s.step == Some(0) { return Err(ValueError); }
      var b := Unpack(s);
      var start, stop, step := Clip(length, b.start, b.step), Clip(length, b.stop, b.step), b.step;
      if Count(start, stop, step) <= 0 {
        start, stop, step := 0, 0, 1;
      }
      var view := new JPArray<P, T>.Slice(this, start, stop, step);
      SliceOfView(java[..], ViewOf(), s);
      return Ok(view);
    }

    /** JPArray::setRange on positions already adjusted to the length of the view. */
    method SetRange(start: int, count: int, step: int, value: Value<P>) returns (outcome: Outcome)
      requires Valid() && step != 0
      requires forall k :: 0 <= k < count ==> 0 <= Spot(start, step, k) < length
      modifies java
      ensures outcome == AssignOutcome(convert, count, value)
      ensures outcome.Failed? ==> java[..] == old(java[..])
      ensures outcome.Done? ==>
                && (forall k :: 0 <= k < count ==> 0 <= Spot(At(ViewOf(), start), this.step * step, k) < java.Length)
                && java[..] == Scatter(old(java[..]), At(ViewOf(), start), this.step * step,
                                       Converted(convert, value.items))
                && List() == Scatter(old(List()), start, step, Converted(convert, value.items))
    {
      if value.NoSequence? { return Failed(TypeError); }
      if count != |value.items| { return Failed(ValueError); }
      var i0 := this.start + this.step * start;
      forall k | 0 <= k < count ensures 0 <= Spot(i0, this.step * step, k) < java.Length {
        Compose(ViewOf(), View(i0, step * this.step, 0), k, start, step);
      }
      ghost var was := java[..];
      outcome := SetArrayRange(convert, java, i0, this.step * step, value.items);
      if outcome.Done? {
        ScatterThroughView(was, ViewOf(), start, step, Converted(convert, value.items));
      }
    }

    /** PyJPArray_assignSubscript with a slice. An empty selection accepts any value silently; otherwise
        the assignment is Python's, or fails and changes nothing. */
    method AssignSlice(s: Slice, value: Value<P>) returns (outcome: Outcome)
      requires Valid()
      modifies java
      ensures outcome == if !Legal(s) then Failed(ValueError) else if Chosen(length, s) == [] then Done
                         else AssignOutcome(convert, |Chosen(length, s)|, value)
      ensures outcome.Failed? || (Legal(s) && Chosen(length, s) == []) ==> java[..] == old(java[..])
      ensures outcome.Done? && Chosen(length, s) != [] ==>
                && List() == ListAssign(old(List()), s, Converted(convert, value.items))
                && ListSlice(List(), s) == Converted(convert, value.items)
      ensures Legal(s) ==> forall j :: 0 <= j < java.Length && Unselected(ViewOf(), s, j) ==> java[j] == old(java[j])
    {
      if s.step == Some(0) { return Failed(ValueError); }
      var b := Unpack(s);
      var start, stop := Clip(length, b.start, b.step), Clip(length, b.stop, b.step);
      var count := Count(start, stop, b.step);
      PositionsAre(start, stop, b.step);
      ChosenInRange(length, s);
      if count <= 0 { return Done; }
      forall k | 0 <= k < count ensures 0 <= Spot(start, b.step, k) < length {
        assert Chosen(length, s)[k] == Spot(start, b.step, k);
      }
      ghost var was, list := java[..], List();
      outcome := SetRange(start, count, b.step, value);
      if outcome.Done? {
        AssignMeans(list, s, Converted(convert, value.items));
        forall j | 0 <= j < java.Length && Unselected(ViewOf(), s, j) ensures java[j] == was[j] {
          WritesOnlyChosen(was, ViewOf(), s, Converted(convert, value.items), j);
        }
      }
    }
  }
}
