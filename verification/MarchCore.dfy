/** One stride round of the RAM test, for words of any type: read, compare, write the complement, in some order. */
module MarchCore {
  import opened Common
  import opened MarchOrder

  /** Where each word is decoded to, what a cell gives back of a value written to it, and for each word the value
      expected and its complement. */
  datatype Setup<!W> = Setup(decode: seq<nat>, observe: (nat, W) -> W, exp: seq<W>, neg: seq<W>)
  {
    /** The same memory when the complements are expected. */
    function Swap(): Setup<W> {
      Setup(decode, observe, neg, exp)
    }
  }

  /** The cells, and `fail_status`. */
  datatype Bank<W> = Bank(cells: seq<W>, failed: bool)

  predicate Valid<W>(s: Setup<W>, b: Bank<W>) {
    |s.exp| == |s.neg| == |s.decode| && forall w :: 0 <= w < |s.decode| ==> s.decode[w] < |b.cells|
  }

  /** The number of words in a range of `size` bytes. */
  function Words(size: nat): nat {
    (size + 3) / 4
  }

  /** Offsets of tested words. */
  predicate Within<W>(s: Setup<W>, order: seq<nat>) {
    forall k :: 0 <= k < |order| ==> order[k] / 4 < |s.decode|
  }

  function Visit<W(==)>(s: Setup<W>, b: Bank<W>, i: nat): (r: Bank<W>)
    requires Valid(s, b) && i / 4 < |s.decode|
    ensures Valid(s, r) && |r.cells| == |b.cells|
  {
    var w := i / 4;
    var c := s.decode[w];
    Bank(b.cells[c := s.neg[w]], b.failed || s.observe(c, b.cells[c]) != s.exp[w])
  }

  /** One double loop over the range, as far as `order` goes. */
  function Sweep<W(==)>(s: Setup<W>, b: Bank<W>, order: seq<nat>): (r: Bank<W>)
    requires Valid(s, b) && Within(s, order)
    ensures Valid(s, r) && |r.cells| == |b.cells|
  {
    if order == [] then b else Visit(s, Sweep(s, b, order[..|order| - 1]), order[|order| - 1])
  }

  /** The two sweeps of one stride: there, and back with the complement. */
  function Both<W(==)>(s: Setup<W>, b: Bank<W>, order: seq<nat>): (r: Bank<W>)
    requires Valid(s, b) && Within(s, order)
    ensures Valid(s, r) && |r.cells| == |b.cells|
  {
    Sweep(s.Swap(), Sweep(s, b, order), order)
  }

  // ---- what a pass tells

  lemma {:induction false} StaysFailed<W>(s: Setup<W>, b: Bank<W>, order: seq<nat>, k: nat)
    requires Valid(s, b) && Within(s, order) && k <= |order|
    ensures Sweep(s, b, order[..k]).failed ==> Sweep(s, b, order).failed
  {
    if k == |order| {
      assert order[..k] == order;
    } else {
      var init := order[..|order| - 1];
      assert init[..k] == order[..k];
      StaysFailed(s, b, init, k);
    }
  }

  lemma BothStayFailed<W>(s: Setup<W>, b: Bank<W>, order: seq<nat>)
    requires Valid(s, b) && Within(s, order)
    ensures b.failed ==> Sweep(s, b, order).failed
    ensures Sweep(s, b, order).failed ==> Both(s, b, order).failed
  {
    assert order[..0] == [];
    StaysFailed(s, b, order, 0);
    StaysFailed(s.Swap(), Sweep(s, b, order), order, 0);
  }

  /** In a sweep that does not fail every visited word was read as expected. */
  lemma ReadAsExpected<W>(s: Setup<W>, b: Bank<W>, order: seq<nat>, k: nat) returns (x: W)
    requires Valid(s, b) && Within(s, order) && k < |order| && !Sweep(s, b, order).failed
    ensures x == Sweep(s, b, order[..k]).cells[s.decode[order[k] / 4]]
    ensures s.observe(s.decode[order[k] / 4], x) == s.exp[order[k] / 4]
  {
    StaysFailed(s, b, order, k + 1);
    assert order[..k + 1][..k] == order[..k];
    x := Sweep(s, b, order[..k]).cells[s.decode[order[k] / 4]];
  }

  /** The cell of a visited word holds the complement that some visited word has written. */
  lemma {:induction false} LastWrite<W>(s: Setup<W>, b: Bank<W>, order: seq<nat>, a: nat) returns (u: nat)
    requires Valid(s, b) && Within(s, order) && a < |order|
    ensures u < |s.decode| && Sweep(s, b, order).cells[s.decode[order[a] / 4]] == s.neg[u]
  {
    var init, last := order[..|order| - 1], order[|order| - 1];
    if s.decode[last / 4] == s.decode[order[a] / 4] {
      u := last / 4;
    } else {
      assert init[a] == order[a];
      u := LastWrite(s, b, init, a);
    }
  }

  /** A round without failure: a visited cell has given back the expected value and its complement. */
  lemma BothRead<W>(s: Setup<W>, b: Bank<W>, order: seq<nat>, k: nat) returns (x: W, y: W)
    requires Valid(s, b) && Within(s, order) && k < |order| && !Both(s, b, order).failed
    ensures s.observe(s.decode[order[k] / 4], x) == s.exp[order[k] / 4]
    ensures s.observe(s.decode[order[k] / 4], y) == s.neg[order[k] / 4]
  {
    BothStayFailed(s, b, order);
    x := ReadAsExpected(s, b, order, k);
    y := ReadAsExpected(s.Swap(), Sweep(s, b, order), order, k);
  }

  /** ... and of two words with one cell the later has read a complement as what it expects. */
  lemma AliasRead<W>(s: Setup<W>, b: Bank<W>, order: seq<nat>, k: nat, l: nat) returns (u: nat)
    requires Valid(s, b) && Within(s, order) && k < l < |order| && !Both(s, b, order).failed
    requires s.decode[order[k] / 4] == s.decode[order[l] / 4]
    ensures u < |s.decode| && s.observe(s.decode[order[l] / 4], s.neg[u]) == s.exp[order[l] / 4]
  {
    BothStayFailed(s, b, order);
    var x := ReadAsExpected(s, b, order, l);
    assert order[..l][k] == order[k];
    u := LastWrite(s, b, order[..l], k);
  }

  // ---- fault-free memory

  /** Tested cells give back what was written, and no two words share one. */
  ghost predicate Healthy<W(!new)>(s: Setup<W>) {
    && (forall w, x :: 0 <= w < |s.decode| ==> s.observe(s.decode[w], x) == x)
    && forall v, w :: 0 <= v < w < |s.decode| ==> s.decode[v] != s.decode[w]
  }

  predicate Holds<W(==)>(s: Setup<W>, b: Bank<W>)
    requires Valid(s, b)
  {
    forall w :: 0 <= w < |s.decode| ==> b.cells[s.decode[w]] == s.exp[w]
  }

  /** A word in a sweep that has got as far as `order`. */
  function Swept<W>(s: Setup<W>, order: seq<nat>, w: nat): W
    requires w < |s.exp| == |s.neg|
  {
    if 4 * w in order then s.neg[w] else s.exp[w]
  }

  /** Part of the way through a sweep the visited words are complemented and the others as they were. */
  lemma {:induction false} SweepComplements<W(!new)>(s: Setup<W>, b: Bank<W>, order: seq<nat>)
    requires Valid(s, b) && Within(s, order) && Healthy(s) && Holds(s, b)
    requires NoRepeats(order) && forall k :: 0 <= k < |order| ==> order[k] % 4 == 0
    ensures Sweep(s, b, order).failed == b.failed
    ensures forall w :: 0 <= w < |s.decode| ==> Sweep(s, b, order).cells[s.decode[w]] == Swept(s, order, w)
  {
    if order != [] {
      var init, last := order[..|order| - 1], order[|order| - 1];
      SweepComplements(s, b, init);
      assert order == init + [last];
      assert last !in init && 4 * (last / 4) == last;
      assert Swept(s, init, last / 4) == s.exp[last / 4];
    }
  }

  lemma OrderWithin<W>(s: Setup<W>, size: nat, stride: nat)
    requires stride > 0 && stride % 4 == 0 && |s.decode| == Words(size)
    ensures Within(s, Order(size, stride))
  {
    OrderVisitsOnce(size, stride);
    assert forall k :: 0 <= k < |Order(size, stride)| ==> Order(size, stride)[k] in Order(size, stride);
  }

  /** A whole sweep turns the memory into its complement ... */
  lemma SweepFlips<W(!new)>(s: Setup<W>, b: Bank<W>, size: nat, stride: nat)
    requires Valid(s, b) && Healthy(s) && Holds(s, b) && stride > 0 && stride % 4 == 0
    requires |s.decode| == Words(size) && Within(s, Order(size, stride))
    ensures Sweep(s, b, Order(size, stride)).failed == b.failed
    ensures Holds(s.Swap(), Sweep(s, b, Order(size, stride)))
  {
    var order := Order(size, stride);
    OrderHoldsAll(size, stride);
    SweepComplements(s, b, order);
    forall w | 0 <= w < |s.decode|
      ensures Sweep(s, b, order).cells[s.decode[w]] == s.neg[w]
    {
      assert 4 * w in order && Swept(s, order, w) == s.neg[w];
    }
  }

  lemma OrderHoldsAll(size: nat, stride: nat)
    requires stride > 0 && stride % 4 == 0
    ensures NoRepeats(Order(size, stride))
    ensures forall k :: 0 <= k < |Order(size, stride)| ==> Order(size, stride)[k] % 4 == 0
    ensures forall w :: 0 <= w < Words(size) ==> 4 * w in Order(size, stride)
  {
    var order := Order(size, stride);
    OrderVisitsOnce(size, stride);
    assert forall k :: 0 <= k < |order| ==> order[k] in order;
  }

  /** ... and a round restores it. */
  lemma BothRestore<W(!new)>(s: Setup<W>, b: Bank<W>, size: nat, stride: nat)
    requires Valid(s, b) && Healthy(s) && Holds(s, b) && stride > 0 && stride % 4 == 0
    requires |s.decode| == Words(size) && Within(s, Order(size, stride))
    ensures Both(s, b, Order(size, stride)).failed == b.failed && Holds(s, Both(s, b, Order(size, stride)))
  {
    SweepFlips(s, b, size, stride);
    SweepFlips(s.Swap(), Sweep(s, b, Order(size, stride)), size, stride);
  }

  // ---- all strides

  /** The initial writes, up to word `n`. */
  function Fill<W>(s: Setup<W>, b: Bank<W>, n: nat): (r: Bank<W>)
    requires Valid(s, b) && n <= |s.decode|
    ensures Valid(s, r) && |r.cells| == |b.cells| && r.failed == b.failed
  {
    if n == 0 then b
    else Fill(s, b, n - 1).(cells := Fill(s, b, n - 1).cells[s.decode[n - 1] := s.exp[n - 1]])
  }

  lemma WholeWords(q: nat)
    ensures 4 * q % 4 == 0
  {
  }

  /** The rounds from stride `4 * q` on, doubling. */
  function Rounds<W(==)>(s: Setup<W>, b: Bank<W>, size: nat, q: nat): (r: Bank<W>)
    requires Valid(s, b) && q > 0 && |s.decode| == Words(size)
    ensures Valid(s, r) && |r.cells| == |b.cells|
    decreases size - 4 * q
  {
    if 4 * q >= size then b
    else
      WholeWords(q);
      OrderWithin(s, size, 4 * q);
      Rounds(s, Both(s, b, Order(size, 4 * q)), size, 2 * q)
  }

  lemma {:induction false} FillHolds<W(!new)>(s: Setup<W>, b: Bank<W>, n: nat)
    requires Valid(s, b) && Healthy(s) && n <= |s.decode|
    ensures forall w :: 0 <= w < n ==> Fill(s, b, n).cells[s.decode[w]] == s.exp[w]
  {
    if n > 0 {
      FillHolds(s, b, n - 1);
    }
  }

  lemma {:induction false} RoundsRestore<W(!new)>(s: Setup<W>, b: Bank<W>, size: nat, q: nat)
    requires Valid(s, b) && q > 0 && |s.decode| == Words(size)
    requires Healthy(s) && Holds(s, b)
    ensures var r := Rounds(s, b, size, q); r.failed == b.failed && Holds(s, r)
    decreases size - 4 * q
  {
    if 4 * q < size {
      WholeWords(q);
      OrderWithin(s, size, 4 * q);
      BothRestore(s, b, size, 4 * q);
      RoundsRestore(s, Both(s, b, Order(size, 4 * q)), size, 2 * q);
    }
  }

  function Doubled(n: nat): nat {
    if n == 0 then 1 else 2 * Doubled(n - 1)
  }

  lemma {:induction false} DoubledPositive(n: nat)
    ensures Doubled(n) > 0
  {
    if n > 0 {
      DoubledPositive(n - 1);
    }
  }

  /** The memory after rounds of stride 4, 8, 16 and so on, `n` of them. */
  function AfterRounds<W(==)>(s: Setup<W>, b: Bank<W>, size: nat, n: nat): (r: Bank<W>)
    requires Valid(s, b) && |s.decode| == Words(size)
    ensures Valid(s, r) && |r.cells| == |b.cells|
  {
    if n == 0 then b
    else
      WholeWords(Doubled(n - 1));
      DoubledPositive(n - 1);
      OrderWithin(s, size, 4 * Doubled(n - 1));
      Both(s, AfterRounds(s, b, size, n - 1), Order(size, 4 * Doubled(n - 1)))
  }

  /** The strides of the rounds from `n` to `last` are below the size. */
  predicate AllBelow(size: nat, n: nat, last: nat)
    decreases last - n
  {
    n >= last || (4 * Doubled(n) < size && AllBelow(size, n + 1, last))
  }

  lemma {:induction false} LastBelow(size: nat, n: nat, last: nat)
    requires n < last && AllBelow(size, n, last)
    ensures 4 * Doubled(last - 1) < size
    decreases last - n
  {
    if n + 1 < last {
      LastBelow(size, n + 1, last);
    }
  }

  /** How many doublings the size takes. */
  lemma {:induction false} LastRound(size: nat, n: nat, q: nat) returns (last: nat)
    requires q == Doubled(n) > 0
    ensures n <= last && 4 * Doubled(last) >= size
    ensures AllBelow(size, n, last)
    decreases size - 4 * q
  {
    if 4 * q >= size {
      last := n;
    } else {
      last := LastRound(size, n + 1, 2 * q);
    }
  }

  lemma {:induction false} RoundsTo<W>(s: Setup<W>, b: Bank<W>, size: nat, n: nat, last: nat)
    requires Valid(s, b) && |s.decode| == Words(size) && n <= last && Doubled(n) > 0
    requires 4 * Doubled(last) >= size && AllBelow(size, n, last)
    ensures Rounds(s, AfterRounds(s, b, size, n), size, Doubled(n)) == AfterRounds(s, b, size, last)
    decreases last - n
  {
    if n < last {
      RoundTurn(s, b, size, n);
      RoundsTo(s, b, size, n + 1, last);
    } else {
      RoundsDone(s, AfterRounds(s, b, size, n), size, Doubled(n));
    }
  }

  lemma RoundsDone<W>(s: Setup<W>, b: Bank<W>, size: nat, q: nat)
    requires Valid(s, b) && |s.decode| == Words(size) && q > 0 && 4 * q >= size
    ensures Rounds(s, b, size, q) == b
  {
  }

  lemma RoundTurn<W>(s: Setup<W>, b: Bank<W>, size: nat, n: nat)
    requires Valid(s, b) && |s.decode| == Words(size) && 0 < 4 * Doubled(n) < size
    ensures Doubled(n + 1) > 0
    ensures Rounds(s, AfterRounds(s, b, size, n), size, Doubled(n))
         == Rounds(s, AfterRounds(s, b, size, n + 1), size, Doubled(n + 1))
  {
    RoundsStep(s, AfterRounds(s, b, size, n), size, Doubled(n));
    NextRound(s, b, size, n);
  }

  lemma NextRound<W>(s: Setup<W>, b: Bank<W>, size: nat, n: nat)
    requires Valid(s, b) && |s.decode| == Words(size) && Doubled(n) > 0 && Within(s, Order(size, 4 * Doubled(n)))
    ensures Doubled(n + 1) == 2 * Doubled(n)
    ensures AfterRounds(s, b, size, n + 1) == Both(s, AfterRounds(s, b, size, n), Order(size, 4 * Doubled(n)))
  {
  }

  /** All strides 4, 8, 16 and so on below the size are run through, each once, and no others. */
  lemma RoundsAreAll<W>(s: Setup<W>, b: Bank<W>, size: nat) returns (last: nat)
    requires Valid(s, b) && |s.decode| == Words(size)
    ensures Rounds(s, b, size, 1) == AfterRounds(s, b, size, last)
    ensures 4 * Doubled(last) >= size && (last > 0 ==> 4 * Doubled(last - 1) < size)
  {
    last := LastRound(size, 0, 1);
    if last > 0 {
      LastBelow(size, 0, last);
    }
    RoundsTo(s, b, size, 0, last);
  }

  lemma {:induction false} RoundsStayFailed<W>(s: Setup<W>, b: Bank<W>, size: nat, q: nat)
    requires Valid(s, b) && q > 0 && |s.decode| == Words(size)
    ensures b.failed ==> Rounds(s, b, size, q).failed
    decreases size - 4 * q
  {
    if 4 * q < size {
      WholeWords(q);
      OrderWithin(s, size, 4 * q);
      BothStayFailed(s, b, Order(size, 4 * q));
      RoundsStayFailed(s, Both(s, b, Order(size, 4 * q)), size, 2 * q);
    }
  }

  lemma RoundsStep<W>(s: Setup<W>, b: Bank<W>, size: nat, q: nat)
    requires Valid(s, b) && 0 < 4 * q < size && |s.decode| == Words(size)
    ensures Within(s, Order(size, 4 * q))
    ensures Rounds(s, b, size, q) == Rounds(s, Both(s, b, Order(size, 4 * q)), size, 2 * q)
    ensures Both(s, b, Order(size, 4 * q)).failed ==> Rounds(s, b, size, q).failed
  {
    WholeWords(q);
    OrderWithin(s, size, 4 * q);
    RoundsStayFailed(s, Both(s, b, Order(size, 4 * q)), size, 2 * q);
  }
}
