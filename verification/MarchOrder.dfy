/** The order in which the strided double loops of `test_algorithm_t` (cmd_mem.c) visit a range. */
module MarchOrder {
  import opened Common
  import opened Arithmetic

  /** `for (i = offset; i < size; i += stride)`. */
  function Column(offset: nat, size: nat, stride: nat): seq<nat>
    requires stride > 0
    decreases size - offset
  {
    if offset >= size then [] else [offset] + Column(offset + stride, size, stride)
  }

  /** `for (; offset < stride; offset += 4)` around it. */
  function Columns(offset: nat, size: nat, stride: nat): seq<nat>
    requires stride > 0
    decreases stride - offset
  {
    if offset >= stride then [] else Column(offset, size, stride) + Columns(offset + 4, size, stride)
  }

  function Order(size: nat, stride: nat): seq<nat>
    requires stride > 0
  {
    Columns(0, size, stride)
  }

  predicate NoRepeats(s: seq<nat>) {
    forall a, b :: 0 <= a < b < |s| ==> s[a] != s[b]
  }

  lemma OneMore(q: int, stride: int)
    ensures (q + 1) * stride == q * stride + stride
  {
  }

  /** A column holds its offset plus multiples of the stride. */
  lemma {:induction false} ColumnHolds(offset: nat, size: nat, stride: nat, i: nat) returns (q: nat)
    requires stride > 0 && i in Column(offset, size, stride)
    ensures i == offset + q * stride && i < size
    decreases size - offset
  {
    if i == offset {
      q := 0;
    } else {
      q := ColumnHolds(offset + stride, size, stride, i);
      OneMore(q, stride);
      q := q + 1;
    }
  }

  lemma NextWord(offset: nat, stride: nat)
    requires stride % 4 == 0
    ensures (offset + stride) % 4 == offset % 4
  {
  }

  lemma {:induction false} ColumnWords(offset: nat, size: nat, stride: nat, i: nat)
    requires stride > 0 && stride % 4 == 0 && i in Column(offset, size, stride)
    ensures i % 4 == offset % 4
    decreases size - offset
  {
    if i != offset {
      NextWord(offset, stride);
      ColumnWords(offset + stride, size, stride, i);
    }
  }

  lemma {:induction false} ColumnReaches(offset: nat, size: nat, stride: nat, q: nat)
    requires stride > 0 && offset + q * stride < size
    ensures offset + q * stride in Column(offset, size, stride)
    decreases q
  {
    if q > 0 {
      OneMore(q - 1, stride);
      ColumnReaches(offset + stride, size, stride, q - 1);
    }
  }

  lemma {:induction false} ColumnAscends(offset: nat, size: nat, stride: nat)
    requires stride > 0
    ensures forall a, b :: 0 <= a < b < |Column(offset, size, stride)|
                       ==> Column(offset, size, stride)[a] < Column(offset, size, stride)[b]
    ensures forall a :: 0 <= a < |Column(offset, size, stride)| ==> offset <= Column(offset, size, stride)[a]
    decreases size - offset
  {
    if offset < size {
      ColumnAscends(offset + stride, size, stride);
      assert Column(offset, size, stride) == [offset] + Column(offset + stride, size, stride);
    }
  }

  /** The columns from `offset` on hold the words that are in one of them. */
  lemma {:induction false} ColumnsHold(offset: nat, size: nat, stride: nat, i: nat) returns (o: nat, q: nat)
    requires stride > 0 && stride % 4 == 0 && offset % 4 == 0 && i in Columns(offset, size, stride)
    ensures offset <= o < stride && i == o + q * stride && i < size && i % 4 == 0
    decreases stride - offset
  {
    if i in Column(offset, size, stride) {
      o := offset;
      q := ColumnHolds(offset, size, stride, i);
      ColumnWords(offset, size, stride, i);
    } else {
      o, q := ColumnsHold(offset + 4, size, stride, i);
    }
  }

  lemma {:induction false} ColumnsReach(offset: nat, size: nat, stride: nat, o: nat, q: nat)
    requires stride > 0 && offset % 4 == o % 4 && offset <= o < stride && o + q * stride < size
    ensures o + q * stride in Columns(offset, size, stride)
    decreases stride - offset
  {
    if o == offset {
      ColumnReaches(offset, size, stride, q);
    } else {
      ColumnsReach(offset + 4, size, stride, o, q);
    }
  }

  lemma MulBound(k: int, m: nat)
    ensures k >= 1 ==> k * m >= m
    ensures k <= 0 ==> k * m <= 0
  {
  }

  /** An offset belongs to one column only. */
  lemma ColumnsApart(o: nat, q: nat, o': nat, q': nat, stride: nat)
    requires o < o' < stride
    ensures o + q * stride != o' + q' * stride
  {
    MulBound(q - q', stride);
    assert (q - q') * stride == q * stride - q' * stride;
  }

  lemma {:induction false} ColumnsNoRepeats(offset: nat, size: nat, stride: nat)
    requires stride > 0 && stride % 4 == 0 && offset % 4 == 0
    ensures NoRepeats(Columns(offset, size, stride))
    decreases stride - offset
  {
    if offset < stride {
      var head, tail := Column(offset, size, stride), Columns(offset + 4, size, stride);
      ColumnAscends(offset, size, stride);
      ColumnsNoRepeats(offset + 4, size, stride);
      forall a, b | 0 <= a < |head| && 0 <= b < |tail|
        ensures head[a] != tail[b]
      {
        var q := ColumnHolds(offset, size, stride, head[a]);
        var o', q' := ColumnsHold(offset + 4, size, stride, tail[b]);
        ColumnsApart(offset, q, o', q', stride);
      }
    }
  }

  /** The column that an offset belongs to. */
  lemma {:induction false} ColumnOf(i: nat, stride: nat) returns (o: nat, q: nat)
    requires stride > 0 && stride % 4 == 0
    ensures o < stride && i == o + q * stride && o % 4 == i % 4
    decreases i
  {
    if i < stride {
      o, q := i, 0;
    } else {
      o, q := ColumnOf(i - stride, stride);
      NextWord(i - stride, stride);
      OneMore(q, stride);
      q := q + 1;
    }
  }

  lemma InOrderIff(size: nat, stride: nat, i: nat)
    requires stride > 0 && stride % 4 == 0
    ensures i in Order(size, stride) <==> i < size && i % 4 == 0
  {
    if i in Order(size, stride) {
      var o, q := ColumnsHold(0, size, stride, i);
    }
    if i < size && i % 4 == 0 {
      var o, q := ColumnOf(i, stride);
      ColumnsReach(0, size, stride, o, q);
    }
  }

  /** Each double loop visits every word of the range exactly once, whatever the stride. */
  lemma OrderVisitsOnce(size: nat, stride: nat)
    requires stride > 0 && stride % 4 == 0
    ensures NoRepeats(Order(size, stride))
    ensures forall i: nat :: i in Order(size, stride) <==> i < size && i % 4 == 0
  {
    ColumnsNoRepeats(0, size, stride);
    forall i: nat
      ensures i in Order(size, stride) <==> i < size && i % 4 == 0
    {
      InOrderIff(size, stride, i);
    }
  }

  /** The column of an offset and its place in it, in the order in which the loops count. */
  predicate Before(o: nat, q: nat, o': nat, q': nat) {
    o < o' || (o == o' && q < q')
  }

  lemma {:induction false} ColumnAt(offset: nat, size: nat, stride: nat, a: nat)
    requires stride > 0 && a < |Column(offset, size, stride)|
    ensures Column(offset, size, stride)[a] == offset + a * stride
    decreases a
  {
    if a > 0 {
      ColumnAt(offset + stride, size, stride, a - 1);
      OneMore(a - 1, stride);
    }
  }

  /** A word by its column and its place in it. */
  predicate IsAt(i: nat, o: nat, q: nat, stride: nat) {
    i == o + Times(q, stride)
  }

  function Times(q: nat, stride: nat): nat {
    if q == 0 then 0 else Times(q - 1, stride) + stride
  }

  lemma {:induction false} TimesIs(q: nat, stride: nat)
    ensures Times(q, stride) == q * stride
  {
    if q > 0 {
      TimesIs(q - 1, stride);
      OneMore(q - 1, stride);
    }
  }

  lemma ColumnPart(offset: nat, size: nat, stride: nat, a: nat)
    requires stride > 0 && offset < stride && a < |Columns(offset, size, stride)|
    ensures var head := |Column(offset, size, stride)|;
            if a < head then IsAt(Columns(offset, size, stride)[a], offset, a, stride)
            else a - head < |Columns(offset + 4, size, stride)|
                 && Columns(offset, size, stride)[a] == Columns(offset + 4, size, stride)[a - head]
  {
    if a < |Column(offset, size, stride)| {
      ColumnAt(offset, size, stride, a);
      TimesIs(a, stride);
    }
  }

  lemma {:induction false} ColumnsAt(offset: nat, size: nat, stride: nat, a: nat) returns (o: nat, q: nat)
    requires stride > 0 && a < |Columns(offset, size, stride)|
    ensures offset <= o < stride && IsAt(Columns(offset, size, stride)[a], o, q, stride)
    decreases stride - offset
  {
    var head := |Column(offset, size, stride)|;
    ColumnPart(offset, size, stride, a);
    if a < head {
      o, q := offset, a;
    } else {
      o, q := ColumnsAt(offset + 4, size, stride, a - head);
    }
  }

  lemma {:induction false} ColumnsOrdered(offset: nat, size: nat, stride: nat, a: nat, b: nat)
      returns (o: nat, q: nat, o': nat, q': nat)
    requires stride > 0 && a < b < |Columns(offset, size, stride)|
    ensures IsAt(Columns(offset, size, stride)[a], o, q, stride) && IsAt(Columns(offset, size, stride)[b], o', q', stride)
    ensures offset <= o < stride && o' < stride && Before(o, q, o', q')
    decreases stride - offset
  {
    var head := |Column(offset, size, stride)|;
    ColumnPart(offset, size, stride, a);
    ColumnPart(offset, size, stride, b);
    if b < head {
      o, q, o', q' := offset, a, offset, b;
    } else if a < head {
      o, q := offset, a;
      o', q' := ColumnsAt(offset + 4, size, stride, b - head);
    } else {
      o, q, o', q' := ColumnsOrdered(offset + 4, size, stride, a - head, b - head);
    }
  }

  /** Words are visited by their distance from a multiple of the stride, and then upwards. */
  lemma {:induction false} OrderIsStrided(size: nat, stride: nat, a: nat, b: nat)
    requires stride > 0 && a < b < |Order(size, stride)|
    ensures var i, j := Order(size, stride)[a], Order(size, stride)[b];
            i % stride < j % stride || (i % stride == j % stride && i / stride < j / stride)
  {
    var o, q, o', q' := ColumnsOrdered(0, size, stride, a, b);
    TimesIs(q, stride);
    TimesIs(q', stride);
    Remainder(q, o, stride);
    Remainder(q', o', stride);
  }

  // ---- the stride loop

  /** The stride after `k` doublings in 32 bits. */
  function Stride(k: nat): word {
    if k == 0 then 4 else Stride(k - 1) * 2 % WORD_MOD
  }

  /** Powers of two up to 2^31, and then 0. */
  predicate StrideValue(s: word) {
    s in {4, 8, 0x10, 0x20, 0x40, 0x80, 0x100, 0x200, 0x400, 0x800, 0x1000, 0x2000, 0x4000, 0x8000, 0x1_0000, 0x2_0000,
          0x4_0000, 0x8_0000, 0x10_0000, 0x20_0000, 0x40_0000, 0x80_0000, 0x100_0000, 0x200_0000, 0x400_0000, 0x800_0000,
          0x1000_0000, 0x2000_0000, 0x4000_0000, 0x8000_0000, 0}
  }

  lemma {:induction false} StrideValues(k: nat)
    ensures StrideValue(Stride(k))
  {
    if k > 0 {
      StrideValues(k - 1);
    }
  }

  /** Some doubling reaches 2^31. */
  lemma {:induction false} StrideReaches(k: nat) returns (top: nat)
    requires 4 <= Stride(k)
    ensures Stride(top) == 0x8000_0000
    decreases 0x8000_0000 - Stride(k)
  {
    StrideValues(k);
    if Stride(k) == 0x8000_0000 {
      top := k;
    } else {
      assert Stride(k + 1) == Stride(k) * 2;
      top := StrideReaches(k + 1);
    }
  }

  /** The loop `for (stride = 4; stride < size; stride *= 2)` ends exactly for sizes up to 2^31: beyond, the stride
      wraps to 0 and stays below the size forever. */
  lemma StrideLoopEndsIff(size: word)
    ensures (exists k: nat :: Stride(k) >= size) <==> size <= 0x8000_0000
  {
    var top := StrideReaches(0);
    if size > 0x8000_0000 {
      forall k: nat
        ensures Stride(k) < size
      {
        StrideValues(k);
      }
    }
  }
}
