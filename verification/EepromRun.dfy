/** `eeprom_read` and `eeprom_write` as they run, chunk by chunk. */
module EepromRun {
  import opened Common
  import opened Arithmetic
  import opened Eeprom

  const I2C_RXTX_LEN := 128

  /** Transfers that cover `[from, to)` in order, none empty, none too long, none across the end of a window. */
  predicate Covers(chunks: seq<(nat, nat)>, from: nat, to: nat, window: nat)
    requires window > 0
  {
    if chunks == [] then from == to
    else
      var (at, len) := chunks[0];
      at == from && 0 < len <= I2C_RXTX_LEN && at % window + len <= window && Covers(chunks[1..], from + len, to, window)
  }

  lemma {:induction false} CoversSnoc(chunks: seq<(nat, nat)>, from: nat, to: nat, len: nat, window: nat)
    requires window > 0 && Covers(chunks, from, to, window) && 0 < len <= I2C_RXTX_LEN && to % window + len <= window
    ensures Covers(chunks + [(to, len)], from, to + len, window)
  {
    if chunks == [] {
      assert ([] + [(to, len)])[1..] == [];
    } else {
      CoversSnoc(chunks[1..], from + chunks[0].1, to, len, window);
      assert (chunks + [(to, len)])[1..] == chunks[1..] + [(to, len)];
    }
  }

  lemma BufferLonger(buffer: seq<byte>, from: nat, len: nat)
    requires from + len <= |buffer|
    ensures buffer[..from + len] == buffer[..from] + buffer[from..from + len]
  {
  }

  class Device {
    const cells: array<byte>
    const page: nat                    // the write page
    const pages: nat                   // write pages to a block
    ghost var chunks: seq<(nat, nat)>  // the transfers of the call at hand

    ghost predicate Valid()
      reads this
    {
      page > 0 && page * pages == BLOCK && cells.Length % BLOCK == 0 && cells.Length < WORD_MOD
    }

    /** The window around a cell lies inside the device. */
    lemma WindowInside(at: nat, n: nat, window: nat, windows: nat)
      requires Valid() && window > 0 && window * windows == BLOCK && at < cells.Length
      ensures forall j :: 0 <= j < n ==> Cell(at, j, window) < cells.Length
    {
      var blocks := cells.Length / BLOCK;
      DivMod(cells.Length, BLOCK);
      assert cells.Length == blocks * windows * window;
      QuotientBelow(at, window, blocks * windows);
      MulDiff(blocks * windows, at / window, window);
      AtLeast(blocks * windows - at / window, window);
      forall j | 0 <= j < n
        ensures Cell(at, j, window) < cells.Length
      {
        DivMod(at % window + j, window);
      }
    }

    /** `i2c_write`: a transfer that fails stores anything in the place of its bytes. */
    method I2cWrite(at: nat, buffer: array<byte>, from: nat, len: nat) returns (ok: bool, ghost stored: seq<byte>)
      requires Valid() && at < cells.Length && from + len <= buffer.Length && buffer != cells
      requires forall j :: 0 <= j < len ==> Cell(at, j, page) < cells.Length
      modifies cells
      ensures |stored| == len && (ok ==> stored == buffer[from..from + len])
      ensures cells[..] == Burst(old(cells[..]), at, page, stored)
    {
      ok := *;
      stored := [];
      var j := 0;
      while j < len
        invariant 0 <= j <= len && |stored| == j && (ok ==> stored == buffer[from..from + j])
        invariant cells[..] == Burst(old(cells[..]), at, page, stored)
      {
        var noise: int := *;
        var b: byte := if ok then buffer[from + j] else noise % 256;
        ghost var before := cells[..];
        cells[Cell(at, j, page)] := b;
        assert cells[..] == before[Cell(at, j, page) := b];
        assert (stored + [b])[..j] == stored;
        stored := stored + [b];
        j := j + 1;
      }
    }

    /** `i2c_read`: a transfer that fails leaves anything in its part of the buffer. */
    method I2cRead(at: nat, buffer: array<byte>, from: nat, len: nat) returns (ok: bool)
      requires Valid() && at < cells.Length && from + len <= buffer.Length && buffer != cells
      requires forall j :: 0 <= j < len ==> Cell(at, j, BLOCK) < cells.Length
      modifies buffer
      ensures ok ==> buffer[from..from + len] == Gather(cells[..], at, BLOCK, len)
      ensures buffer[..from] == old(buffer[..from])
    {
      ok := *;
      var j := 0;
      while j < len
        invariant 0 <= j <= len && buffer[..from] == old(buffer[..from])
        invariant ok ==> buffer[from..from + j] == Gather(cells[..], at, BLOCK, j)
      {
        var noise: int := *;
        buffer[from + j] := if ok then cells[Cell(at, j, BLOCK)] else noise % 256;
        j := j + 1;
      }
    }

    /** One chunk of a write: as far as the page goes. */
    method WriteChunk(offset: nat, end: nat, buffer: array<byte>, from: nat)
        returns (ok: bool, len: nat, ghost stored: seq<byte>)
      requires Valid() && offset < end <= cells.Length && from + (end - offset) <= buffer.Length && buffer != cells
      modifies cells
      ensures 0 < len <= end - offset && len <= I2C_RXTX_LEN && offset % page + len <= page
      ensures len == end - offset || len == 128 || offset % page + len == page
      ensures |stored| == len && (ok ==> stored == buffer[from..from + len])
      ensures cells[..] == Overlay(old(cells[..]), offset, stored)
    {
      var blkOff := offset % BLOCK;
      PageOffset(offset, page, pages);
      len := end - offset;
      var maxlen := page - blkOff % page;
      if maxlen > I2C_RXTX_LEN { maxlen := I2C_RXTX_LEN; }
      if len > maxlen { len := maxlen; }
      WindowInside(offset, len, page, pages);
      ok, stored := I2cWrite(offset, buffer, from, len);
      BurstInside(old(cells[..]), offset, page, stored);
    }

    /** One turn of the loop. */
    method WriteTurn(at: nat, end: nat, buffer: array<byte>, from: nat, ghost offset: nat, ghost cells0: seq<byte>,
                     ghost stored: seq<byte>)
        returns (ok: bool, len: nat, ghost longer: seq<byte>)
      requires Valid() && at < end <= cells.Length && from + (end - at) <= buffer.Length && buffer != cells
      requires |cells0| == cells.Length && offset + |stored| == at && cells[..] == Overlay(cells0, offset, stored)
      requires Covers(chunks, offset, at, page)
      modifies cells, `chunks
      ensures 0 < len <= end - at && |longer| == |stored| + len
      ensures ok && stored == buffer[..from] ==> longer == buffer[..from + len]
      ensures cells[..] == Overlay(cells0, offset, longer) && Covers(chunks, offset, at + len, page)
    {
      ghost var more;
      ok, len, more := WriteChunk(at, end, buffer, from);
      longer := stored + more;
      BufferLonger(buffer[..], from, len);
      OverlayLonger(cells0, offset, stored, more);
      CoversSnoc(chunks, offset, at, len, page);
      chunks := chunks + [(at, len)];
    }

    /** The loop of `eeprom_write`. */
    method WriteRange(offset: nat, end: nat, buffer: array<byte>) returns (ok: bool, ghost stored: seq<byte>)
      requires Valid() && offset <= end <= cells.Length && end - offset <= buffer.Length && buffer != cells
      modifies cells, `chunks
      ensures Covers(chunks, offset, end, page) && |stored| == end - offset
      ensures ok ==> stored == buffer[..end - offset]
      ensures cells[..] == Overlay(old(cells[..]), offset, stored)
    {
      ok, stored, chunks := true, [], [];
      var at: nat, from: nat := offset, 0;
      ghost var cells0 := cells[..];
      assert Overlay(cells0, offset, []) == cells0;
      while at < end
        invariant offset <= at <= end && from == at - offset && |stored| == from
        invariant ok ==> stored == buffer[..from]
        invariant cells[..] == Overlay(cells0, offset, stored) && Covers(chunks, offset, at, page)
        decreases end - at
      {
        var good, len;
        good, len, stored := WriteTurn(at, end, buffer, from, offset, cells0, stored);
        if !good { ok := false; }
        from := from + len;
        at := at + len;
      }
    }

    /** `eeprom_write`. Success means the buffer was copied to `[offset, offset + cnt)`; nothing else changes either way. An
        end that wraps around writes nothing. */
    method Write(offset: word, buffer: array<byte>, cnt: word) returns (ok: bool, ghost stored: seq<byte>)
      requires Valid() && cnt <= buffer.Length && buffer != cells
      requires offset + cnt < WORD_MOD ==> offset + cnt <= cells.Length
      modifies cells, `chunks
      ensures offset + cnt >= WORD_MOD ==> ok && cells[..] == old(cells[..])
      ensures offset + cnt < WORD_MOD ==> Covers(chunks, offset, offset + cnt, page)
      ensures offset + cnt < WORD_MOD ==> |stored| == cnt && (ok ==> stored == buffer[..cnt])
      ensures offset + cnt < WORD_MOD ==> cells[..] == Overlay(old(cells[..]), offset, stored)
    {
      ok, stored := true, [];
      var end: nat := (offset + cnt) % WORD_MOD;
      if offset <= end {
        ok, stored := WriteRange(offset, end, buffer);
      }
    }

    /** One chunk of a read: as far as the block goes. */
    method ReadChunk(offset: nat, end: nat, buffer: array<byte>, from: nat) returns (ok: bool, len: nat)
      requires Valid() && offset < end <= cells.Length && from + (end - offset) <= buffer.Length && buffer != cells
      modifies buffer
      ensures 0 < len <= end - offset && len <= I2C_RXTX_LEN && offset % BLOCK + len <= BLOCK
      ensures len == end - offset || len == 128 || offset % BLOCK + len == 256
      ensures ok ==> buffer[..from + len] == old(buffer[..from]) + cells[offset..offset + len]
    {
      var blkOff := offset % BLOCK;
      len := end - offset;
      var maxlen := BLOCK - blkOff;
      if maxlen > I2C_RXTX_LEN { maxlen := I2C_RXTX_LEN; }
      if len > maxlen { len := maxlen; }
      WindowInside(offset, len, BLOCK, 1);
      ok := I2cRead(offset, buffer, from, len);
      GatherInside(cells[..], offset, BLOCK, len);
      assert cells[..][offset..offset + len] == cells[offset..offset + len];
      assert buffer[..from + len] == buffer[..from] + buffer[from..from + len];
    }

    /** One turn of the loop. */
    method ReadTurn(at: nat, end: nat, buffer: array<byte>, offset: nat) returns (ok: bool, len: nat)
      requires Valid() && offset <= at < end <= cells.Length && end - offset <= buffer.Length && buffer != cells
      requires Covers(chunks, offset, at, BLOCK)
      modifies buffer, `chunks
      ensures 0 < len <= end - at && Covers(chunks, offset, at + len, BLOCK)
      ensures ok && old(buffer[..at - offset]) == cells[offset..at] ==> buffer[..at + len - offset] == cells[offset..at + len]
    {
      ok, len := ReadChunk(at, end, buffer, at - offset);
      CoversSnoc(chunks, offset, at, len, BLOCK);
      chunks := chunks + [(at, len)];
      assert cells[offset..at + len] == cells[offset..at] + cells[at..at + len];
    }

    /** The loop of `eeprom_read`. */
    method ReadRange(offset: nat, end: nat, buffer: array<byte>) returns (ok: bool)
      requires Valid() && offset <= end <= cells.Length && end - offset <= buffer.Length && buffer != cells
      modifies buffer, `chunks
      ensures Covers(chunks, offset, end, BLOCK)
      ensures ok ==> buffer[..end - offset] == cells[offset..end]
    {
      ok, chunks := true, [];
      var at: nat, from: nat := offset, 0;
      while at < end
        invariant offset <= at <= end && from == at - offset
        invariant ok ==> buffer[..from] == cells[offset..at]
        invariant Covers(chunks, offset, at, BLOCK)
        decreases end - at
      {
        var good, len := ReadTurn(at, end, buffer, offset);
        if !good { ok := false; }
        from := from + len;
        at := at + len;
      }
    }

    /** `eeprom_read`. Success means the buffer starts with the bytes of `[offset, offset + cnt)`. */
    method Read(offset: word, buffer: array<byte>, cnt: word) returns (ok: bool)
      requires Valid() && cnt <= buffer.Length && buffer != cells
      requires offset + cnt < WORD_MOD ==> offset + cnt <= cells.Length
      modifies buffer, `chunks
      ensures offset + cnt >= WORD_MOD ==> ok && buffer[..] == old(buffer[..])
      ensures offset + cnt < WORD_MOD ==> Covers(chunks, offset, offset + cnt, BLOCK)
      ensures offset + cnt < WORD_MOD && ok ==> buffer[..cnt] == cells[offset..offset + cnt]
    {
      ok := true;
      var end: nat := (offset + cnt) % WORD_MOD;
      if offset <= end {
        ok := ReadRange(offset, end, buffer);
      }
    }

    /** A write and then a read of the same range: when both succeed, what was written is read back. */
    method WriteThenRead(offset: word, source: array<byte>, target: array<byte>, cnt: word) returns (ok: bool)
      requires Valid() && cnt <= source.Length && cnt <= target.Length
      requires source != cells && target != cells && source != target
      requires offset + cnt < WORD_MOD ==> offset + cnt <= cells.Length
      modifies cells, target, `chunks
      ensures ok && offset + cnt < WORD_MOD ==> target[..cnt] == source[..cnt]
    {
      ghost var before, stored: seq<byte> := cells[..], [];
      ok, stored := Write(offset, source, cnt);
      if !ok { return; }
      ok := Read(offset, target, cnt);
      if ok && offset + cnt < WORD_MOD {
        OverlayAt(before, offset, stored);
      }
    }
  }
}
