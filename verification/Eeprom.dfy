/** EEPROM reads and paged writes over I2C (cmd_eeprom.c), on a device whose address counter wraps. */
module Eeprom {
  import opened Common
  import opened Arithmetic

  const BLOCK := 0x100               // where the counter wraps on reads

  /** The cell the device's counter points at after `j` bytes: it counts inside an aligned window only. */
  function Cell(at: nat, j: nat, window: nat): nat
    requires window > 0
  {
    at / window * window + (at % window + j) % window
  }

  lemma CellStraight(at: nat, j: nat, window: nat)
    requires window > 0 && at % window + j < window
    ensures Cell(at, j, window) == at + j
  {
    DivMod(at, window);
    Remainder(0, at % window + j, window);
  }

  /** What a write of `data` in one transfer does to the cells. */
  function Burst(cells: seq<byte>, at: nat, window: nat, data: seq<byte>): (r: seq<byte>)
    requires window > 0 && forall j :: 0 <= j < |data| ==> Cell(at, j, window) < |cells|
    ensures |r| == |cells|
  {
    if data == [] then cells
    else
      var n := |data| - 1;
      Burst(cells, at, window, data[..n])[Cell(at, n, window) := data[n]]
  }

  /** What a read of `n` bytes in one transfer gives. */
  function Gather(cells: seq<byte>, at: nat, window: nat, n: nat): (data: seq<byte>)
    requires window > 0 && forall j :: 0 <= j < n ==> Cell(at, j, window) < |cells|
    ensures |data| == n
  {
    if n == 0 then [] else Gather(cells, at, window, n - 1) + [cells[Cell(at, n - 1, window)]]
  }

  lemma OverlayLonger(cells: seq<byte>, at: nat, a: seq<byte>, b: seq<byte>)
    requires at + |a| + |b| <= |cells|
    ensures Overlay(Overlay(cells, at, a), at + |a|, b) == Overlay(cells, at, a + b)
  {
  }

  lemma StraightCells(at: nat, window: nat, n: nat, size: nat)
    requires window > 0 && at % window + n <= window && at + n <= size
    ensures forall j :: 0 <= j < n ==> Cell(at, j, window) == at + j < size
  {
    forall j | 0 <= j < n
      ensures Cell(at, j, window) == at + j < size
    {
      CellStraight(at, j, window);
    }
  }

  /** Inside its window a write is a plain copy. */
  lemma {:induction false} BurstInside(cells: seq<byte>, at: nat, window: nat, data: seq<byte>)
    requires window > 0 && at % window + |data| <= window && at + |data| <= |cells|
    ensures forall j :: 0 <= j < |data| ==> Cell(at, j, window) < |cells|
    ensures Burst(cells, at, window, data) == Overlay(cells, at, data)
  {
    StraightCells(at, window, |data|, |cells|);
    if data != [] {
      var n := |data| - 1;
      BurstInside(cells, at, window, data[..n]);
      assert data == data[..n] + [data[n]];
    }
  }

  /** A write that crosses the end of its window comes back to its start: the cell behind the window keeps its byte. */
  lemma {:induction false} BurstCrossing(cells: seq<byte>, at: nat, window: nat, data: seq<byte>)
    requires window > 0 && forall j :: 0 <= j < |data| ==> Cell(at, j, window) < |cells|
    requires at / window * window + window < |cells|
    ensures var behind := at / window * window + window;
            Burst(cells, at, window, data)[behind] == cells[behind]
  {
    if data != [] {
      var n := |data| - 1;
      BurstCrossing(cells, at, window, data[..n]);
      DivMod(at % window + n, window);
    }
  }

  lemma {:induction false} GatherInside(cells: seq<byte>, at: nat, window: nat, n: nat)
    requires window > 0 && at % window + n <= window && at + n <= |cells|
    ensures forall j :: 0 <= j < n ==> Cell(at, j, window) < |cells|
    ensures Gather(cells, at, window, n) == cells[at..at + n]
  {
    StraightCells(at, window, n, |cells|);
    if n > 0 {
      GatherInside(cells, at, window, n - 1);
    }
  }

  lemma OverlayAt(cells: seq<byte>, at: nat, data: seq<byte>)
    requires at + |data| <= |cells|
    ensures Overlay(cells, at, data)[at..at + |data|] == data
  {
  }

  /** The page offset is taken of the block offset; pages divide blocks. */
  lemma {:induction false} PageOffset(at: nat, page: nat, pages: nat)
    requires page > 0 && page * pages == BLOCK
    ensures at % BLOCK % page == at % page
  {
    var q, r := at / BLOCK, at % BLOCK;
    DivMod(at, BLOCK);
    DivMod(r, page);
    assert q * BLOCK == q * pages * page;
    MulDiff(q * pages + r / page, q * pages, page);
    Remainder(q * pages + r / page, r % page, page);
  }
}
