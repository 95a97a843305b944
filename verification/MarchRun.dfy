/** `test_algorithm_t` itself: the loops over memory. */
module MarchRun {
  import opened Common
  import opened MarchOrder
  import opened MarchCore
  import opened MarchTest

  class Tester {
    const faults: Faults
    const size: nat
    const discard: bool       // DISCARD_ERROR: go on after a mismatch instead of waiting for ^C
    const cells: array<bv32>
    var failStatus: bool
    var mode: Mode

    ghost predicate Valid()
      reads cells
    {
      ValidFaults(faults, size, cells[..])
    }

    constructor (faults: Faults, size: nat, discard: bool, cells: array<bv32>)
      requires ValidFaults(faults, size, cells[..])
      ensures this.faults == faults && this.size == size && this.discard == discard && this.cells == cells
    {
      this.faults, this.size, this.discard, this.cells := faults, size, discard, cells;
      failStatus, mode := false, Mode(false, 0);
    }

    ghost function State(): Bank<bv32>
      reads this, cells
    {
      Bank(cells[..], failStatus)
    }

    method FillWord(i: nat, ghost n: nat, pattern: bv32)
      requires Valid() && i == 4 * n < size
      modifies cells
      ensures Valid() && State() == old(State()).(cells := old(cells[..])[faults.decode[n] := Expected(mode, pattern, n)])
    {
      assert i / 4 == n;
      cells[faults.decode[i / 4]] := Expected(mode, pattern, i / 4);
      assert cells[..] == old(cells[..])[faults.decode[n] := Expected(mode, pattern, n)];
    }

    /** The initial writes. */
    method FillMemory(pattern: bv32)
      requires Valid()
      modifies cells
      ensures Valid() && State() == Fill(SetupOf(faults, mode, pattern), old(State()), Words(size))
    {
      var i: nat := 0;
      ghost var n: nat := 0;
      while i < size
        invariant i == 4 * n && n <= Words(size) && Valid()
        invariant State() == Fill(SetupOf(faults, mode, pattern), old(State()), n)
      {
        FillWord(i, n, pattern);
        i, n := i + 4, n + 1;
      }
    }

    /** One word: compare with the pattern, write its complement. */
    method VisitWord(i: nat, checkPattern: bv32, ghost s: Setup<bv32>) returns (stopped: bool)
      requires Valid() && i < size && MarchCore.Valid(s, State()) && s.decode == faults.decode
      requires s.exp[i / 4] == checkPattern && s.neg[i / 4] == !checkPattern
      requires s.observe(faults.decode[i / 4], cells[faults.decode[i / 4]])
            == Observe(faults, faults.decode[i / 4], cells[faults.decode[i / 4]])
      modifies `failStatus, cells
      ensures Valid() && (stopped ==> failStatus && !discard)
      ensures if stopped then Visit(s, old(State()), i).failed else State() == Visit(s, old(State()), i)
    {
      var w := i / 4;
      var c := faults.decode[w];
      var checkData := Observe(faults, c, cells[c]);
      stopped := false;
      if checkData != checkPattern {
        failStatus := true;
        if discard {
          cells[c] := checkPattern;
        } else {
          return true;
        }
      }
      cells[c] := !checkPattern;
    }

    /** A sweep has got as far as `visited`. */
    ghost predicate Reached(s: Setup<bv32>, b: Bank<bv32>, visited: seq<nat>)
      reads this, cells
    {
      Valid() && MarchCore.Valid(s, b) && Within(s, visited) && State() == Sweep(s, b, visited)
    }

    /** The next word of a sweep. */
    method VisitNext(i: nat, pattern: bv32, ghost s: Setup<bv32>, ghost b: Bank<bv32>, ghost visited: seq<nat>,
                     ghost order: seq<nat>) returns (stopped: bool)
      requires Reached(s, b, visited) && i < size && s == SetupOf(faults, mode, pattern)
      requires Within(s, order) && visited + [i] <= order
      modifies `failStatus, cells
      ensures Valid() && (stopped ==> failStatus && !discard && Sweep(s, b, order).failed)
      ensures !stopped ==> Reached(s, b, visited + [i])
    {
      WithinPrefix(s, visited + [i], order);
      assert (visited + [i])[..|visited|] == visited;
      SetupAt(faults, mode, size, cells[..], pattern, i);
      stopped := VisitWord(i, Expected(mode, pattern, i / 4), s);
      if stopped {
        StaysFailed(s, b, order, |visited| + 1);
      }
    }

    /** One turn of the inner loop. */
    method ColumnTurn(i: nat, stride: nat, pattern: bv32, ghost s: Setup<bv32>, ghost b: Bank<bv32>,
                      ghost visited: seq<nat>, ghost column: seq<nat>, ghost order: seq<nat>)
        returns (stopped: bool, ghost visited': seq<nat>)
      requires Reached(s, b, visited) && stride > 0 && i < size && s == SetupOf(faults, mode, pattern)
      requires Within(s, order) && visited + Column(i, size, stride) == column <= order
      modifies `failStatus, cells
      ensures Valid() && (stopped ==> failStatus && !discard && Sweep(s, b, order).failed)
      ensures !stopped ==> Reached(s, b, visited') && visited' + Column(i + stride, size, stride) == column
    {
      visited' := visited + [i];
      ColumnStep(visited, i, size, stride, column);
      stopped := VisitNext(i, pattern, s, b, visited, order);
    }

    /** The inner loop: one column, behind what the sweep has visited before. */
    method SweepColumn(offset: nat, stride: nat, pattern: bv32, ghost s: Setup<bv32>, ghost b: Bank<bv32>,
                       ghost before: seq<nat>, ghost order: seq<nat>) returns (stopped: bool)
      requires Reached(s, b, before) && stride > 0 && s == SetupOf(faults, mode, pattern)
      requires Within(s, order) && before + Column(offset, size, stride) <= order
      modifies `failStatus, cells
      ensures Valid() && (stopped ==> failStatus && !discard && Sweep(s, b, order).failed)
      ensures !stopped ==> Reached(s, b, before + Column(offset, size, stride))
    {
      ghost var visited, column: seq<nat> := before, before + Column(offset, size, stride);
      var i: nat := offset;
      while i < size
        invariant Reached(s, b, visited) && visited + Column(i, size, stride) == column
        decreases size - i
      {
        stopped, visited := ColumnTurn(i, stride, pattern, s, b, visited, column, order);
        if stopped { return; }
        i := i + stride;
      }
      assert visited + [] == visited;
      stopped := false;
    }

    /** One turn of the outer loop. */
    method SweepTurn(offset: nat, stride: nat, pattern: bv32, ghost s: Setup<bv32>, ghost b: Bank<bv32>,
                     ghost visited: seq<nat>, ghost order: seq<nat>) returns (stopped: bool, ghost visited': seq<nat>)
      requires Reached(s, b, visited) && offset < stride && s == SetupOf(faults, mode, pattern)
      requires Within(s, order) && visited + Columns(offset, size, stride) == order
      modifies `failStatus, cells
      ensures Valid() && (stopped ==> failStatus && !discard && Sweep(s, b, order).failed)
      ensures !stopped ==> Reached(s, b, visited') && visited' + Columns(offset + 4, size, stride) == order
    {
      visited' := visited + Column(offset, size, stride);
      ColumnsStep(visited, offset, size, stride, order);
      stopped := SweepColumn(offset, stride, pattern, s, b, visited, order);
    }

    /** A double loop over the range with one pattern. */
    method SweepMemory(stride: nat, pattern: bv32, ghost s: Setup<bv32>) returns (stopped: bool)
      requires Valid() && stride > 0 && s == SetupOf(faults, mode, pattern)
      requires Within(s, Order(size, stride))
      modifies `failStatus, cells
      ensures Valid() && (stopped ==> failStatus && !discard && Sweep(s, old(State()), Order(size, stride)).failed)
      ensures !stopped ==> State() == Sweep(s, old(State()), Order(size, stride))
    {
      ghost var b, order := State(), Order(size, stride);
      ghost var visited: seq<nat> := [];
      assert visited + order == order;
      var offset: nat := 0;
      while offset < stride
        invariant Reached(s, b, visited) && visited + Columns(offset, size, stride) == order
      {
        stopped, visited := SweepTurn(offset, stride, pattern, s, b, visited, order);
        if stopped { return; }
        offset := offset + 4;
      }
      assert visited + [] == visited;
      stopped := false;
    }

    /** The two double loops of one stride. */
    method RoundMemory(stride: nat, pattern: bv32, ghost s: Setup<bv32>) returns (stopped: bool)
      requires Valid() && stride > 0 && s == SetupOf(faults, mode, pattern)
      requires Within(s, Order(size, stride))
      modifies `failStatus, cells
      ensures Valid() && (stopped ==> failStatus && !discard && Both(s, old(State()), Order(size, stride)).failed)
      ensures !stopped ==> State() == Both(s, old(State()), Order(size, stride))
    {
      BothStayFailed(s, State(), Order(size, stride));
      SwapIsComplement(faults, mode, pattern);
      stopped := SweepMemory(stride, pattern, s);
      if !stopped {
        stopped := SweepMemory(stride, !pattern, s.Swap());
      }
    }

    method OneStride(stride: nat, pattern: bv32, ghost s: Setup<bv32>, ghost q: nat) returns (stopped: bool)
      requires Valid() && 0 < stride < size && stride == 4 * q && s == SetupOf(faults, mode, pattern)
      modifies `failStatus, cells
      ensures Valid() && (stopped ==> failStatus && !discard && Rounds(s, old(State()), size, q).failed)
      ensures !stopped ==> Rounds(s, State(), size, 2 * q) == Rounds(s, old(State()), size, q)
    {
      RoundsStep(s, State(), size, q);
      stopped := RoundMemory(stride, pattern, s);
    }

    /** The loop over strides, which ends because the range is at most 2^31 bytes. */
    method RunStrides(pattern: bv32, ghost s: Setup<bv32>) returns (stopped: bool)
      requires Valid() && s == SetupOf(faults, mode, pattern) && size <= 0x8000_0000
      modifies `failStatus, cells
      ensures failStatus == Rounds(s, old(State()), size, 1).failed && (stopped ==> failStatus && !discard)
    {
      var stride: nat := 4;
      ghost var q: nat := 1;
      while stride < size
        invariant stride == 4 * q > 0 && Valid()
        invariant Rounds(s, State(), size, q) == Rounds(s, old(State()), size, 1)
        decreases size - stride
      {
        stopped := OneStride(stride, pattern, s, q);
        if stopped {
          return;
        }
        stride, q := stride * 2, 2 * q;
      }
      stopped := false;
    }

    /** `test_algorithm_t`; `selector` 2 selects the address as data, 1 the random seed. */
    method TestAlgorithm(start: bv32, selector: bv32, seed: bv32) returns (code: int)
      requires Valid() && size <= 0x8000_0000
      modifies this, cells
      ensures mode == Mode(selector == 2, start)
      ensures failStatus == Test(faults, mode, size, old(cells[..]), PatternOf(selector, seed)).failed
      ensures code == 0 || (failStatus && !discard)
    {
      failStatus := false;
      mode := Mode(selector == 2, start);
      var pattern := PatternOf(selector, seed);
      FillMemory(pattern);
      var stopped := RunStrides(pattern, SetupOf(faults, mode, pattern));
      code := if stopped then 1 else 0;
    }
  }

  function PatternOf(selector: bv32, seed: bv32): bv32 {
    if selector == 2 then 0 else if selector == 1 then seed else selector
  }

  lemma SetupAt(f: Faults, m: Mode, size: nat, cells: seq<bv32>, pattern: bv32, i: nat)
    requires ValidFaults(f, size, cells) && i < size
    ensures var s, w := SetupOf(f, m, pattern), i / 4;
            && s.exp[w] == Expected(m, pattern, w) && s.neg[w] == !Expected(m, pattern, w)
            && s.observe(f.decode[w], cells[f.decode[w]]) == Observe(f, f.decode[w], cells[f.decode[w]])
  {
    ComplementOfPattern(m, pattern, i / 4);
  }

  /** A word of a column visited ... */
  lemma ColumnStep(visited: seq<nat>, i: nat, size: nat, stride: nat, all: seq<nat>)
    requires stride > 0 && i < size && visited + Column(i, size, stride) == all
    ensures (visited + [i]) + Column(i + stride, size, stride) == all && visited + [i] <= all
  {
    var rest := Column(i + stride, size, stride);
    assert visited + ([i] + rest) == (visited + [i]) + rest;
  }

  /** ... and a whole column. */
  lemma ColumnsStep(visited: seq<nat>, offset: nat, size: nat, stride: nat, all: seq<nat>)
    requires offset < stride && visited + Columns(offset, size, stride) == all
    ensures var next := visited + Column(offset, size, stride);
            next + Columns(offset + 4, size, stride) == all && next <= all
  {
    var column, rest := Column(offset, size, stride), Columns(offset + 4, size, stride);
    assert visited + (column + rest) == (visited + column) + rest;
  }

  lemma WithinPrefix<W>(s: Setup<W>, a: seq<nat>, order: seq<nat>)
    requires a <= order && Within(s, order)
    ensures Within(s, a) && a == order[..|a|]
  {
  }

  /** Testing with the complemented pattern is expecting the complements. */
  lemma SwapIsComplement(f: Faults, m: Mode, pattern: bv32)
    ensures SetupOf(f, m, !pattern) == SetupOf(f, m, pattern).Swap()
  {
    DoubleComplement(pattern);
  }

  lemma DoubleComplement(x: bv32)
    ensures !!x == x
  {
  }
}
