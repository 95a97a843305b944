/** The RAM test `test_algorithm_t` of cmd_mem.c against memory with stuck bits and address faults. */
module MarchTest {
  import opened Common
  import opened MarchOrder
  import opened MarchCore

  /** Which cell each tested word is decoded to, and the bits of each cell that are stuck at 0 or 1. */
  datatype Faults = Faults(decode: seq<nat>, zeros: seq<bv32>, ones: seq<bv32>)

  predicate ValidFaults(f: Faults, size: nat, cells: seq<bv32>) {
    && |f.zeros| == |f.ones| == |cells| && |f.decode| == Words(size)
    && forall w :: 0 <= w < |f.decode| ==> f.decode[w] < |cells|
  }

  function Masked(x: bv32, zeros: bv32, ones: bv32): bv32 {
    (x & !zeros) | ones
  }

  /** What a cell gives back when `x` was written to it. */
  function Observe(f: Faults, c: nat, x: bv32): bv32
    requires c < |f.zeros| && c < |f.ones|
  {
    Masked(x, f.zeros[c], f.ones[c])
  }

  /** No bit of a tested word is stuck, and no two tested words share a cell. */
  predicate NoFault(f: Faults, size: nat, cells: seq<bv32>)
    requires ValidFaults(f, size, cells)
  {
    && (forall w :: 0 <= w < |f.decode| ==> f.zeros[f.decode[w]] == 0 && f.ones[f.decode[w]] == 0)
    && forall v, w :: 0 <= v < w < |f.decode| ==> f.decode[v] != f.decode[w]
  }

  /** The constant pattern, or the word's address as data. */
  datatype Mode = Mode(asData: bool, start: bv32)

  /** `START_ADDR + i` for the word at `i == 4 * w`. */
  function Addr(start: bv32, w: nat): bv32 {
    if w == 0 then start else Addr(start, w - 1) + 4
  }

  function Expected(m: Mode, pattern: bv32, w: nat): bv32 {
    if m.asData then pattern ^ Addr(m.start, w) else pattern
  }

  function Expectations(m: Mode, pattern: bv32, n: nat): seq<bv32> {
    seq(n, w requires 0 <= w < n => Expected(m, pattern, w))
  }

  /** The memory under test with a pattern. */
  function SetupOf(f: Faults, m: Mode, pattern: bv32): Setup<bv32> {
    Setup(f.decode, (c: nat, x: bv32) => if c < |f.zeros| && c < |f.ones| then Observe(f, c, x) else x,
          Expectations(m, pattern, |f.decode|), Expectations(m, !pattern, |f.decode|))
  }

  /** The whole test on memory in any state. */
  function Test(f: Faults, m: Mode, size: nat, cells: seq<bv32>, pattern: bv32): Bank<bv32>
    requires ValidFaults(f, size, cells)
  {
    var s := SetupOf(f, m, pattern);
    Rounds(s, Fill(s, Bank(cells, false), Words(size)), size, 1)
  }

  /** A word's address lies four bytes behind that of the word before, in 32 bits. */
  lemma AddrIs(start: bv32, w: nat)
    ensures Addr(start, 0) == start && Addr(start, w + 1) == Addr(start, w) + 4
  {
  }

  // ---- bits

  lemma XorComplement(p: bv32, a: bv32)
    ensures (!p) ^ a == !(p ^ a)
  {
  }

  lemma {:induction false} AddrLowBits(start: bv32, w: nat)
    ensures Addr(start, w) & 3 == start & 3
  {
    if w > 0 {
      AddrLowBits(start, w - 1);
      AddFour(Addr(start, w - 1));
    }
  }

  lemma AddFour(a: bv32)
    ensures (a + 4) & 3 == a & 3
  {
  }

  lemma XorApart(p: bv32, a: bv32, b: bv32)
    requires a & 3 == b & 3
    ensures !(p ^ a) != p ^ b
  {
  }

  lemma ComplementOfPattern(m: Mode, pattern: bv32, w: nat)
    ensures Expected(m, !pattern, w) == !Expected(m, pattern, w)
  {
    var a := Addr(m.start, w);
    XorComplement(pattern, a);
  }

  /** A written complement is never what another word expects: word addresses agree in their low bits. */
  lemma ComplementUnexpected(m: Mode, pattern: bv32, v: nat, w: nat)
    ensures Expected(m, !pattern, v) != Expected(m, pattern, w)
  {
    ComplementOfPattern(m, pattern, v);
    if m.asData {
      AddrLowBits(m.start, v);
      AddrLowBits(m.start, w);
      XorApart(pattern, Addr(m.start, v), Addr(m.start, w));
    }
  }

  /** A cell that gives back a value and its complement has no stuck bit. */
  lemma StuckBits(z: bv32, o: bv32, x: bv32, y: bv32, e: bv32)
    requires Masked(x, z, o) == e && Masked(y, z, o) == !e
    ensures z == 0 && o == 0
  {
  }

  lemma NotStuck(z: bv32, o: bv32, x: bv32)
    requires z == 0 && o == 0
    ensures Masked(x, z, o) == x
  {
  }

  // ---- completeness and soundness

  lemma FaultFreeHealthy(f: Faults, m: Mode, size: nat, cells: seq<bv32>, pattern: bv32)
    requires ValidFaults(f, size, cells) && NoFault(f, size, cells)
    ensures Healthy(SetupOf(f, m, pattern))
  {
    var s := SetupOf(f, m, pattern);
    forall w, x: bv32 | 0 <= w < |s.decode|
      ensures s.observe(s.decode[w], x) == x
    {
      NotStuck(f.zeros[f.decode[w]], f.ones[f.decode[w]], x);
    }
  }

  /** A round that does not fail has shown a visited word free of stuck bits ... */
  lemma RoundFindsStuckBits(f: Faults, m: Mode, size: nat, b: Bank<bv32>, pattern: bv32, order: seq<nat>, k: nat)
    requires ValidFaults(f, size, b.cells) && k < |order|
    requires var s := SetupOf(f, m, pattern); Within(s, order) && !Both(s, b, order).failed
    ensures var c := f.decode[order[k] / 4]; f.zeros[c] == 0 && f.ones[c] == 0
  {
    var x, y := BothRead(SetupOf(f, m, pattern), b, order, k);
    var w := order[k] / 4;
    ComplementOfPattern(m, pattern, w);
    CellClean(f, f.decode[w], x, y, Expected(m, pattern, w));
  }

  lemma CellClean(f: Faults, c: nat, x: bv32, y: bv32, e: bv32)
    requires c < |f.zeros| && c < |f.ones|
    requires Observe(f, c, x) == e && Observe(f, c, y) == !e
    ensures f.zeros[c] == 0 && f.ones[c] == 0
  {
    StuckBits(f.zeros[c], f.ones[c], x, y, e);
  }

  /** ... and two visited words in different cells. */
  lemma RoundFindsAliases(f: Faults, m: Mode, size: nat, b: Bank<bv32>, pattern: bv32, order: seq<nat>, k: nat, l: nat)
    requires ValidFaults(f, size, b.cells) && k < l < |order|
    requires var s := SetupOf(f, m, pattern); Within(s, order) && !Both(s, b, order).failed
    ensures f.decode[order[k] / 4] != f.decode[order[l] / 4]
  {
    var s := SetupOf(f, m, pattern);
    if f.decode[order[k] / 4] == f.decode[order[l] / 4] {
      var u := AliasRead(s, b, order, k, l);
      RoundFindsStuckBits(f, m, size, b, pattern, order, l);
      var c := f.decode[order[l] / 4];
      NotStuck(f.zeros[c], f.ones[c], s.neg[u]);
      ComplementUnexpected(m, pattern, u, order[l] / 4);
      assert false;
    }
  }

  /** The place in the order at which a tested word is visited. */
  lemma VisitedAt(size: nat, stride: nat, w: nat) returns (k: nat)
    requires stride > 0 && stride % 4 == 0 && w < Words(size)
    ensures k < |Order(size, stride)| && Order(size, stride)[k] == 4 * w && Order(size, stride)[k] / 4 == w
  {
    InOrderIff(size, stride, 4 * w);
    k :| 0 <= k < |Order(size, stride)| && Order(size, stride)[k] == 4 * w;
  }

  lemma RoundFindsStuck(f: Faults, m: Mode, size: nat, b: Bank<bv32>, pattern: bv32, stride: nat, w: nat)
    requires ValidFaults(f, size, b.cells) && stride > 0 && stride % 4 == 0 && w < |f.decode|
    requires Within(SetupOf(f, m, pattern), Order(size, stride))
    requires !Both(SetupOf(f, m, pattern), b, Order(size, stride)).failed
    ensures f.zeros[f.decode[w]] == 0 && f.ones[f.decode[w]] == 0
  {
    var k := VisitedAt(size, stride, w);
    RoundFindsStuckBits(f, m, size, b, pattern, Order(size, stride), k);
  }

  lemma RoundFindsAlias(f: Faults, m: Mode, size: nat, b: Bank<bv32>, pattern: bv32, stride: nat, v: nat, w: nat)
    requires ValidFaults(f, size, b.cells) && stride > 0 && stride % 4 == 0 && v < w < |f.decode|
    requires Within(SetupOf(f, m, pattern), Order(size, stride))
    requires !Both(SetupOf(f, m, pattern), b, Order(size, stride)).failed
    ensures f.decode[v] != f.decode[w]
  {
    var k := VisitedAt(size, stride, v);
    var l := VisitedAt(size, stride, w);
    RoundFindsAliases(f, m, size, b, pattern, Order(size, stride), if k < l then k else l, if k < l then l else k);
  }

  lemma RoundFindsFaults(f: Faults, m: Mode, size: nat, b: Bank<bv32>, pattern: bv32, stride: nat)
    requires ValidFaults(f, size, b.cells) && stride > 0 && stride % 4 == 0
    requires Within(SetupOf(f, m, pattern), Order(size, stride))
    requires !Both(SetupOf(f, m, pattern), b, Order(size, stride)).failed
    ensures NoFault(f, size, b.cells)
  {
    forall w | 0 <= w < |f.decode|
      ensures f.zeros[f.decode[w]] == 0 && f.ones[f.decode[w]] == 0
    {
      RoundFindsStuck(f, m, size, b, pattern, stride, w);
    }
    forall v, w | 0 <= v < w < |f.decode|
      ensures f.decode[v] != f.decode[w]
    {
      RoundFindsAlias(f, m, size, b, pattern, stride, v, w);
    }
  }

  /** Main result: with more than one word tested, the test passes exactly on memory without stuck bits and without
      two words in one cell, whatever the pattern, the addresses and the memory's contents. */
  lemma TestPassesIff(f: Faults, m: Mode, size: nat, cells: seq<bv32>, pattern: bv32)
    requires ValidFaults(f, size, cells) && size > 4
    ensures !Test(f, m, size, cells, pattern).failed <==> NoFault(f, size, cells)
  {
    var s := SetupOf(f, m, pattern);
    var b := Fill(s, Bank(cells, false), Words(size));
    OrderWithin(s, size, 4);
    if NoFault(f, size, cells) {
      TestRestores(f, m, size, cells, pattern);
    } else if !Both(s, b, Order(size, 4)).failed {
      RoundFindsFaults(f, m, size, b, pattern, 4);
    } else {
      RoundsStayFailed(s, Both(s, b, Order(size, 4)), size, 2);
    }
  }

  /** Fault-free memory is never reported, and ends up holding the pattern. */
  lemma TestRestores(f: Faults, m: Mode, size: nat, cells: seq<bv32>, pattern: bv32)
    requires ValidFaults(f, size, cells) && NoFault(f, size, cells)
    ensures var r := Test(f, m, size, cells, pattern);
            && !r.failed
            && forall w :: 0 <= w < |f.decode|
                       ==> r.cells[f.decode[w]] == if m.asData then pattern ^ Addr(m.start, w) else pattern
  {
    var s := SetupOf(f, m, pattern);
    FaultFreeHealthy(f, m, size, cells, pattern);
    FillHolds(s, Bank(cells, false), Words(size));
    RoundsRestore(s, Fill(s, Bank(cells, false), Words(size)), size, 1);
  }
}
