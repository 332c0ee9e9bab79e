/** Model of the buffer over a rectangular multidimensional Java array: the strides and the packing of
    JPArrayView (native/common/jp_array.cpp) and the addressing of JPPyBuffer::getBufferPtr
    (native/python/jp_pythontypes.cpp). */
module BufferLayout {
  import opened Arithmetic

  // ----- specification

  function Product(shape: seq<nat>): nat {
    if shape == [] then 1 else Product(shape[..|shape| - 1]) * shape[|shape| - 1]
  }

  ghost predicate InRange(shape: seq<nat>, index: seq<int>) {
    |index| == |shape| && forall i :: 0 <= i < |shape| ==> 0 <= index[i] < shape[i]
  }

  /** The item number of an index vector when no strides are given. */
  function Horner(shape: seq<nat>, index: seq<int>): int
    requires |shape| == |index|
  {
    if shape == [] then 0
    else
      var n := |shape| - 1;
      Horner(shape[..n], index[..n]) * shape[n] + index[n]
  }

  /** Bytes from the start of the buffer when strides are given. */
  function Dot(strides: seq<int>, index: seq<int>): int
    requires |strides| == |index|
  {
    if strides == [] then 0
    else
      var n := |strides| - 1;
      Dot(strides[..n], index[..n]) + strides[n] * index[n]
  }

  /** Row-major strides: each one is the extent of everything behind it. */
  ghost predicate RowMajor(shape: seq<nat>, itemsize: nat, strides: seq<int>) {
    |strides| == |shape| && forall i :: 0 <= i < |shape| ==> strides[i] == itemsize * Product(shape[i + 1..])
  }

  // ----- Horner form and strides agree

  lemma {:induction false} ProductSplit(a: seq<nat>, b: seq<nat>)
    ensures Product(a + b) == Product(a) * Product(b)
    decreases |b|
  {
    if b == [] {
      assert a + b == a;
    } else {
      var n := |b| - 1;
      assert (a + b)[..|a + b| - 1] == a + b[..n];
      ProductSplit(a, b[..n]);
      Associate(Product(a), Product(b[..n]), b[n]);
    }
  }

  lemma Associate(a: int, b: int, c: int)
    ensures a * b * c == a * (b * c)
  {
  }

  /** Dropping the last dimension scales all strides by its extent. */
  lemma {:induction false} DotScales(strides: seq<int>, wider: seq<int>, factor: int, index: seq<int>)
    requires |strides| == |wider| == |index|
    requires forall i :: 0 <= i < |strides| ==> wider[i] == strides[i] * factor
    ensures Dot(wider, index) == Dot(strides, index) * factor
    decreases |strides|
  {
    if strides != [] {
      var n := |strides| - 1;
      DotScales(strides[..n], wider[..n], factor, index[..n]);
      Distribute(Dot(strides[..n], index[..n]), strides[n], index[n], factor);
    }
  }

  lemma Distribute(a: int, b: int, c: int, f: int)
    ensures (a + b * c) * f == a * f + (b * f) * c
  {
  }

  /** For any number of dimensions both ways of addressing reach the same byte. */
  lemma {:induction false} HornerIsDot(shape: seq<nat>, itemsize: nat, strides: seq<int>, index: seq<int>)
    requires RowMajor(shape, itemsize, strides) && |index| == |shape|
    ensures Dot(strides, index) == Horner(shape, index) * itemsize
    decreases |shape|
  {
    hide Product;
    if shape != [] {
      var n := |shape| - 1;
      var inner := seq(n, i requires 0 <= i < n => itemsize * Product(shape[..n][i + 1..]));
      HornerIsDot(shape[..n], itemsize, inner, index[..n]);
      forall i | 0 <= i < n ensures strides[..n][i] == inner[i] * shape[n] {
        assert shape[i + 1..] == shape[..n][i + 1..] + [shape[n]];
        ProductSplit(shape[..n][i + 1..], [shape[n]]);
        ProductOne(shape[n]);
        Associate(itemsize, Product(shape[..n][i + 1..]), shape[n]);
      }
      DotScales(inner, strides[..n], shape[n], index[..n]);
      ProductEmpty(shape[n + 1..]);
      assert strides[n] == itemsize;
      LastTerm(Horner(shape[..n], index[..n]), itemsize, shape[n], index[n]);
    }
  }

  lemma LastTerm(h: int, itemsize: int, extent: int, i: int)
    ensures h * itemsize * extent + itemsize * i == (h * extent + i) * itemsize
  {
  }

  lemma ProductOne(n: nat)
    ensures Product([n]) == n
  {
    assert [n][..0] == [];
  }

  lemma ProductEmpty(s: seq<nat>)
    requires s == []
    ensures Product(s) == 1
  {
  }

  // ----- index vectors and items correspond one to one

  /** The index vector of an item. */
  function Unflatten(shape: seq<nat>, item: nat): seq<int>
    requires forall i :: 0 <= i < |shape| ==> shape[i] > 0
  {
    if shape == [] then []
    else
      var n := |shape| - 1;
      Unflatten(shape[..n], item / shape[n]) + [item % shape[n]]
  }

  lemma {:induction false} HornerInRange(shape: seq<nat>, index: seq<int>)
    requires InRange(shape, index)
    ensures 0 <= Horner(shape, index) < Product(shape)
    ensures Unflatten(shape, Horner(shape, index)) == index
    decreases |shape|
  {
    if shape != [] {
      var n := |shape| - 1;
      HornerInRange(shape[..n], index[..n]);
      DivMod(Horner(shape[..n], index[..n]), shape[n], index[n], Product(shape[..n]));
      assert index == index[..n] + [index[n]];
    }
  }

  lemma DivMod(h: int, extent: int, i: int, rows: int)
    requires 0 <= i < extent && 0 <= h < rows
    ensures 0 <= h * extent + i < rows * extent
    ensures (h * extent + i) / extent == h && (h * extent + i) % extent == i
  {
    MulMonotone(h + 1, rows, extent);
    QuotientUnique(h * extent + i, extent, h, i);
  }

  lemma {:induction false} UnflattenInRange(shape: seq<nat>, item: nat)
    requires item < Product(shape)
    ensures forall i :: 0 <= i < |shape| ==> shape[i] > 0
    ensures InRange(shape, Unflatten(shape, item)) && Horner(shape, Unflatten(shape, item)) == item
    decreases |shape|
  {
    if shape != [] {
      var n := |shape| - 1;
      RowOfItem(item, shape[n], Product(shape[..n]));
      UnflattenInRange(shape[..n], item / shape[n]);
      forall i | 0 <= i < |shape| ensures shape[i] > 0 { assert i < n ==> shape[i] == shape[..n][i]; }
      var front := Unflatten(shape[..n], item / shape[n]);
      assert Unflatten(shape, item) == front + [item % shape[n]];
      assert Unflatten(shape, item)[..n] == front;
    }
  }

  lemma RowOfItem(item: nat, extent: nat, rows: nat)
    requires item < rows * extent
    ensures extent > 0 && item / extent < rows
    ensures (item / extent) * extent + item % extent == item
  {
    assert extent > 0;
    var q := item / extent;
    assert item == extent * q + item % extent;
    assert q >= rows ==> q * extent >= rows * extent;
  }

  /** For an unsliced array the in-range index vectors correspond one to one to the item-aligned byte
      offsets of the allocation, and to nothing outside it. */
  lemma OffsetsAreBijective(shape: seq<nat>, itemsize: nat, strides: seq<int>, offset: int)
    requires RowMajor(shape, itemsize, strides) && itemsize > 0
    ensures Aligned(shape, itemsize, offset)
       <==> exists index :: InRange(shape, index) && Dot(strides, index) == offset
    ensures forall a, b :: InRange(shape, a) && InRange(shape, b) && Dot(strides, a) == Dot(strides, b) ==> a == b
  {
    hide Product, Horner, Dot, Unflatten;
    forall a | InRange(shape, a)
      ensures Aligned(shape, itemsize, Dot(strides, a)) && Unflatten(shape, Dot(strides, a) / itemsize) == a
    {
      OffsetOfIndex(shape, itemsize, strides, a);
    }
    if Aligned(shape, itemsize, offset) {
      IndexOfOffset(shape, itemsize, strides, offset);
    }
  }

  predicate Aligned(shape: seq<nat>, itemsize: nat, offset: int)
    requires itemsize > 0
  {
    0 <= offset < Product(shape) * itemsize && offset % itemsize == 0
  }

  lemma OffsetOfIndex(shape: seq<nat>, itemsize: nat, strides: seq<int>, index: seq<int>)
    requires RowMajor(shape, itemsize, strides) && itemsize > 0 && InRange(shape, index)
    ensures Aligned(shape, itemsize, Dot(strides, index)) && Unflatten(shape, Dot(strides, index) / itemsize) == index
  {
    hide RowMajor, Product, Dot;
    HornerIsDot(shape, itemsize, strides, index);
    HornerInRange(shape, index);
    DivMod(Horner(shape, index), itemsize, 0, Product(shape));
  }

  lemma IndexOfOffset(shape: seq<nat>, itemsize: nat, strides: seq<int>, offset: nat)
    requires RowMajor(shape, itemsize, strides) && itemsize > 0 && Aligned(shape, itemsize, offset)
    ensures exists index :: InRange(shape, index) && Dot(strides, index) == offset
  {
    hide RowMajor, Product, Dot, Horner;
    RowOfItem(offset, itemsize, Product(shape));
    UnflattenInRange(shape, offset / itemsize);
    HornerIsDot(shape, itemsize, strides, Unflatten(shape, offset / itemsize));
  }

  // ----- the code

  function Flatten<T>(rows: seq<seq<T>>): seq<T> {
    if rows == [] then [] else Flatten(rows[..|rows| - 1]) + rows[|rows| - 1]
  }

  ghost predicate Even<T>(rows: seq<seq<T>>, last: nat) {
    forall r :: 0 <= r < |rows| ==> |rows[r]| == last
  }

  lemma {:induction false} FlattenAt<T>(rows: seq<seq<T>>, last: nat)
    requires Even(rows, last)
    ensures |Flatten(rows)| == |rows| * last
    ensures forall r, j :: 0 <= r < |rows| && 0 <= j < last ==> ItemAt(rows, last, r, j)
    decreases |rows|
  {
    if rows != [] {
      var n := |rows| - 1;
      FlattenAt(rows[..n], last);
      assert n * last + last == |rows| * last;
      forall r, j | 0 <= r < |rows| && 0 <= j < last ensures ItemAt(rows, last, r, j) {
        if r < n {
          MulMonotone(r + 1, n, last);
          assert ItemAt(rows[..n], last, r, j);
        }
      }
    }
  }

  ghost predicate ItemAt<T>(rows: seq<seq<T>>, last: nat, r: nat, j: nat)
    requires r < |rows|
  {
    0 <= r * last + j < |Flatten(rows)| && j < |rows[r]| && Flatten(rows)[r * last + j] == rows[r][j]
  }

  /** JPArrayView over a rectangular array collected into its innermost rows. `memory` holds items;
      offsets are in bytes, as in the source. */
  class ArrayView<T(0)> {
    const shape: array<nat>
    const strides: array<int>
    const memory: array<T>
    const itemsize: nat

    ghost predicate Valid()
      reads shape, strides
    {
      && itemsize > 0 && RowMajor(shape[..], itemsize, strides[..])
      && memory.Length == Product(shape[..])
    }

    /** The constructor's loops: the strides from the last dimension forward, then the rows. */
    constructor (extents: seq<nat>, itemsize: nat, rows: seq<seq<T>>)
      requires |extents| >= 1 && itemsize > 0
      requires |rows| == Product(extents[..|extents| - 1]) && Even(rows, extents[|extents| - 1])
      ensures Valid() && this.itemsize == itemsize && shape[..] == extents
      ensures memory[..] == Flatten(rows)
    {
      var dims, last := |extents|, extents[|extents| - 1];
      var shape := new nat[dims](i requires 0 <= i < dims => extents[i]);
      assert shape[..] == extents;
      var sz := SizeOf(extents, itemsize);
      var strides := StridesOf(extents, itemsize);
      this.shape, this.strides, this.itemsize := shape, strides, itemsize;
      DivMod(Product(extents), itemsize, 0, Product(extents) + 1);
      memory := new T[sz / itemsize];
      new;
      CopyRows(rows, last);
    }

    static method SizeOf(extents: seq<nat>, itemsize: nat) returns (sz: nat)
      ensures sz == Product(extents) * itemsize
    {
      sz := itemsize;
      for i := 0 to |extents|
        invariant sz == itemsize * Product(extents[..i])
      {
        assert extents[..i + 1][..i] == extents[..i];
        Associate(itemsize, Product(extents[..i]), extents[i]);
        sz := sz * extents[i];
      }
      assert extents[..|extents|] == extents;
    }

    static method StridesOf(extents: seq<nat>, itemsize: nat) returns (strides: array<int>)
      ensures fresh(strides) && RowMajor(extents, itemsize, strides[..])
    {
      var dims := |extents|;
      strides := new int[dims](_ => 0);
      var stride := itemsize;
      ProductEmpty(extents[dims..]);
      for i := 0 to dims
        invariant stride == itemsize * Product(extents[dims - i..])
        invariant forall k :: dims - i <= k < dims ==> strides[k] == itemsize * Product(extents[k + 1..])
      {
        var n := dims - 1 - i;
        strides[n] := stride;
        assert extents[n..] == [extents[n]] + extents[n + 1..];
        ProductSplit([extents[n]], extents[n + 1..]);
        ProductOne(extents[n]);
        Commute(itemsize, Product(extents[n + 1..]), extents[n]);
        stride := stride * extents[n];
      }
    }

    method CopyRows(rows: seq<seq<T>>, last: nat)
      requires itemsize > 0 && memory.Length == |rows| * last && Even(rows, last)
      modifies memory
      ensures memory[..] == Flatten(rows)
    {
      var offset := 0;
      for r := 0 to |rows|
        invariant offset == (r * last) * itemsize && r * last <= memory.Length
        invariant memory[..r * last] == Flatten(rows[..r])
      {
        assert rows[..r + 1][..r] == rows[..r];
        assert (r + 1) * last == r * last + last;
        MulMonotone(r + 1, |rows|, last);
        DivMod(r * last, itemsize, 0, r * last + 1);
        CopyElements(rows[r], offset, r * last);
        NextRow(r * last, last, itemsize);
        offset := offset + itemsize * last;
      }
      assert rows[..|rows|] == rows;
    }

    /** copyElements: one row to consecutive items from a byte offset, that of item `at`. */
    method CopyElements(row: seq<T>, offset: nat, ghost at: nat)
      requires itemsize > 0 && offset / itemsize == at && at + |row| <= memory.Length
      modifies memory
      ensures memory[..at + |row|] == old(memory[..at]) + row
    {
      var first := offset / itemsize;
      for j := 0 to |row|
        invariant memory[..first + j] == old(memory[..at]) + row[..j]
      {
        memory[first + j] := row[j];
      }
    }

    /** JPPyBuffer::getBufferPtr, as an offset: by Horner's rule without strides, else by strides. */
    method BufferOffset(strided: bool, indices: seq<int>) returns (offset: int)
      requires Valid() && |indices| == shape.Length
      ensures offset == Horner(shape[..], indices) * itemsize == Dot(strides[..], indices)
    {
      HornerIsDot(shape[..], itemsize, strides[..], indices);
      hide Horner, Dot, RowMajor, Product;
      NoDimensions(shape[..0], indices[..0], strides[..0]);
      if !strided {
        var index := 0;
        for i := 0 to shape.Length
          invariant index == Horner(shape[..i], indices[..i])
        {
          HornerStep(shape[..], indices, i);
          assert shape[..][..i + 1] == shape[..i + 1] && shape[..][..i] == shape[..i];
          index := index * shape[i] + indices[i];
        }
        assert shape[..shape.Length] == shape[..] && indices[..shape.Length] == indices;
        return index * itemsize;
      }
      offset := 0;
      for i := 0 to shape.Length
        invariant offset == Dot(strides[..i], indices[..i])
      {
        DotStep(strides[..], indices, i);
        assert strides[..][..i + 1] == strides[..i + 1] && strides[..][..i] == strides[..i];
        offset := offset + strides[i] * indices[i];
      }
      assert strides[..shape.Length] == strides[..] && indices[..shape.Length] == indices;
    }
  }

  lemma NoDimensions(shape: seq<nat>, index: seq<int>, strides: seq<int>)
    requires |shape| == |index| == |strides| == 0
    ensures Horner(shape, index) == Dot(strides, index) == 0
  {
  }

  lemma HornerStep(shape: seq<nat>, index: seq<int>, i: nat)
    requires |index| == |shape| && i < |shape|
    ensures Horner(shape[..i + 1], index[..i + 1]) == Horner(shape[..i], index[..i]) * shape[i] + index[i]
  {
    assert shape[..i + 1][..i] == shape[..i] && index[..i + 1][..i] == index[..i];
  }

  lemma DotStep(strides: seq<int>, index: seq<int>, i: nat)
    requires |index| == |strides| && i < |strides|
    ensures Dot(strides[..i + 1], index[..i + 1]) == Dot(strides[..i], index[..i]) + strides[i] * index[i]
  {
    assert strides[..i + 1][..i] == strides[..i] && index[..i + 1][..i] == index[..i];
  }

  lemma Commute(a: int, b: int, c: int)
    ensures a * b * c == a * (c * b)
  {
  }

  lemma NextRow(at: int, last: int, itemsize: int)
    ensures at * itemsize + itemsize * last == (at + last) * itemsize
  {
  }
}
