/** What loading S-records does to memory, and the size it reports. */
module SRecordMemory {
  import opened Common
  import opened SRecordCoding
  import opened SRecordTransfer

  /** The whole 32-bit address space. */
  predicate IsMemory(mem: seq<byte>) {
    |mem| == WORD_MOD
  }

  /** memcpy to an address, around the end of the address space. */
  function StoreBytes(mem: seq<byte>, at: word, data: seq<byte>): (r: seq<byte>)
    requires IsMemory(mem)
    ensures IsMemory(r)
  {
    if data == [] then mem
    else
      var n := |data| - 1;
      StoreBytes(mem, at, data[..n])[(at + n) % WORD_MOD := data[n]]
  }

  function StoreChunks(mem: seq<byte>, chunks: seq<Chunk>): (r: seq<byte>)
    requires IsMemory(mem)
    ensures IsMemory(r)
  {
    if chunks == [] then mem
    else
      var n := |chunks| - 1;
      StoreBytes(StoreChunks(mem, chunks[..n]), chunks[n].at, chunks[n].data)
  }

  /** The bytes of a range. */
  function Fetch(mem: seq<byte>, a: word, count: word): (bytes: seq<byte>)
    requires IsMemory(mem)
    ensures |bytes| == count && forall k :: 0 <= k < count ==> bytes[k] == mem[Ahead(a, k)]
  {
    if count == 0 then [] else Fetch(mem, a, count - 1) + [mem[Ahead(a, count - 1)]]
  }

  /** How far `x` lies behind `a`, around the address space. */
  function Distance(a: word, x: word): nat {
    if x >= a then x - a else x - a + WORD_MOD
  }

  lemma LastPlace(at: word, n: nat, x: word)
    requires n < WORD_MOD
    ensures (at + n) % WORD_MOD == x <==> Distance(at, x) == n
  {
  }

  lemma {:induction false} StoreBytesAt(mem: seq<byte>, at: word, data: seq<byte>, x: word)
    requires IsMemory(mem) && |data| <= WORD_MOD
    ensures StoreBytes(mem, at, data)[x] == if Distance(at, x) < |data| then data[Distance(at, x)] else mem[x]
  {
    if data != [] {
      var n := |data| - 1;
      StoreBytesAt(mem, at, data[..n], x);
      LastPlace(at, n, x);
    }
  }

  lemma StoreSnoc(mem: seq<byte>, chunks: seq<Chunk>, c: Chunk)
    requires IsMemory(mem)
    ensures StoreChunks(mem, chunks + [c]) == StoreBytes(StoreChunks(mem, chunks), c.at, c.data)
  {
    assert (chunks + [c])[..|chunks|] == chunks;
  }

  lemma {:induction false} StoreCons(mem: seq<byte>, c: Chunk, chunks: seq<Chunk>)
    requires IsMemory(mem)
    ensures StoreChunks(mem, [c] + chunks) == StoreChunks(StoreBytes(mem, c.at, c.data), chunks)
  {
    var n := |chunks|;
    if n > 0 {
      StoreCons(mem, c, chunks[..n - 1]);
      assert ([c] + chunks)[..n] == [c] + chunks[..n - 1];
    } else {
      assert ([c] + chunks)[..0] == [];
    }
  }

  lemma DistanceShift(b: word, n: nat, x: word)
    requires n <= PER_RECORD
    ensures Distance(Ahead(b, n), x)
         == if Distance(b, x) >= n then Distance(b, x) - n else Distance(b, x) - n + WORD_MOD
  {
  }

  /** What the target holds at `x` after `bytes` are stored from `b` on. */
  function Placed(mem: seq<byte>, b: word, bytes: seq<byte>, x: word): byte
    requires IsMemory(mem)
  {
    if Distance(b, x) < |bytes| then bytes[Distance(b, x)] else mem[x]
  }

  lemma PlacedSplit(mem: seq<byte>, mem': seq<byte>, b: word, bytes: seq<byte>, n: nat, x: word)
    requires IsMemory(mem) && IsMemory(mem') && n <= |bytes| <= WORD_MOD && n <= PER_RECORD
    requires mem'[x] == Placed(mem, b, bytes[..n], x)
    ensures Placed(mem', Ahead(b, n), bytes[n..], x) == Placed(mem, b, bytes, x)
  {
    DistanceShift(b, n, x);
  }

  /** The runs of a save, stored, are the saved bytes in their place; everything else is unchanged. */
  lemma {:induction false} StoreChunksAt(mem: seq<byte>, b: word, bytes: seq<byte>, x: word)
    requires IsMemory(mem) && |bytes| <= WORD_MOD
    ensures StoreChunks(mem, Chunks(b, bytes))[x] == Placed(mem, b, bytes, x)
    decreases |bytes|
  {
    if bytes != [] {
      var n := Run(|bytes|);
      var b', mem' := Ahead(b, n), StoreBytes(mem, b, bytes[..n]);
      StoreCons(mem, Chunk(b, n, bytes[..n]), Chunks(b', bytes[n..]));
      StoreChunksAt(mem', b', bytes[n..], x);
      StoreBytesAt(mem, b, bytes[..n], x);
      PlacedSplit(mem, mem', b, bytes, n, x);
    }
  }

  lemma SavedPlaced(src: seq<byte>, a: word, count: word, dst: seq<byte>, b: word, x: word)
    requires IsMemory(src) && IsMemory(dst)
    ensures StoreChunks(dst, Chunks(b, Fetch(src, a, count)))[x]
         == if Distance(b, x) < count then src[Ahead(a, Distance(b, x))] else dst[x]
  {
    StoreChunksAt(dst, b, Fetch(src, a, count), x);
  }

  /** Saving a range and loading what was sent restores it, at the offset, whatever the target memory held, and changes
      nothing else. */
  lemma {:induction false} SaveThenLoad(src: seq<byte>, a: word, count: word, dst: seq<byte>, offset: word, x: word)
    requires IsMemory(src) && IsMemory(dst)
    ensures var load := LoadSerial(Sent(Lines(a, Fetch(src, a, count))), offset, {});
            var distance := Distance(Ahead(a, offset), x);
            && load.Loaded? && load.address == 0
            && StoreChunks(dst, load.chunks)[x] == if distance < count then src[Ahead(a, distance)] else dst[x]
  {
    LoadSaved(a, Fetch(src, a, count), offset, {});
    SavedPlaced(src, a, count, dst, Ahead(a, offset), x);
  }

  // ---- the size reported

  /** `start_addr` and `end_addr`. */
  datatype Range = Range(start: word, end: word)

  const NOTHING_SEEN := Range(WORD_MOD - 1, 0)

  function Seen(r: Range, at: word, count: dataCount): Range {
    var last := Ahead(at, count - 1);
    Range(if at < r.start then at else r.start, if last > r.end then last else r.end)
  }

  function SeenAll(r: Range, chunks: seq<Chunk>): Range {
    if chunks == [] then r
    else
      var n := |chunks| - 1;
      Seen(SeenAll(r, chunks[..n]), chunks[n].at, chunks[n].count)
  }

  function Size(r: Range): word {
    (r.end - r.start + 1) % WORD_MOD
  }

  /** The tracking over the runs of `count` bytes at `x`. */
  function Track(r: Range, x: word, count: nat): Range
    decreases count
  {
    if count == 0 then r else Track(Seen(r, x, Run(count)), Ahead(x, Run(count)), count - Run(count))
  }

  lemma SeenSnoc(r: Range, chunks: seq<Chunk>, c: Chunk)
    ensures SeenAll(r, chunks + [c]) == Seen(SeenAll(r, chunks), c.at, c.count)
  {
    assert (chunks + [c])[..|chunks|] == chunks;
  }

  lemma {:induction false} SeenCons(r: Range, c: Chunk, chunks: seq<Chunk>)
    ensures SeenAll(r, [c] + chunks) == SeenAll(Seen(r, c.at, c.count), chunks)
  {
    var n := |chunks|;
    if n > 0 {
      SeenCons(r, c, chunks[..n - 1]);
      assert ([c] + chunks)[..n] == [c] + chunks[..n - 1];
    } else {
      assert ([c] + chunks)[..0] == [];
    }
  }

  lemma {:induction false} SeenIsTracked(r: Range, x: word, bytes: seq<byte>)
    ensures SeenAll(r, Chunks(x, bytes)) == Track(r, x, |bytes|)
    decreases |bytes|
  {
    if bytes != [] {
      var n := Run(|bytes|);
      SeenCons(r, Chunk(x, n, bytes[..n]), Chunks(Ahead(x, n), bytes[n..]));
      SeenIsTracked(Seen(r, x, n), Ahead(x, n), bytes[n..]);
    }
  }

  /** Below the end of the address space the tracking finds the first and the last address. */
  lemma {:induction false} TrackStraight(r: Range, x: word, count: nat)
    requires 0 < count && x + count <= WORD_MOD
    ensures Track(r, x, count) == Range(Min(r.start, x), Max(r.end, x + count - 1))
    decreases count
  {
    var n := Run(count);
    if n < count {
      TrackStraight(Seen(r, x, n), x + n, count - n);
    }
  }

  /** Tracking one full record first ... */
  lemma TrackFull(r: Range, x: word, count: nat)
    requires count >= PER_RECORD
    ensures Track(r, x, count) == Track(Seen(r, x, PER_RECORD), Ahead(x, PER_RECORD), count - PER_RECORD)
  {
  }

  /** The tracking over `m` full records ... */
  function TrackRecords(r: Range, x: word, m: nat): Range
    decreases m
  {
    if m == 0 then r else TrackRecords(Seen(r, x, PER_RECORD), Ahead(x, PER_RECORD), m - 1)
  }

  lemma AheadRecords(x: word, m: nat)
    requires 0 < m && PER_RECORD * m < WORD_MOD
    ensures Ahead(Ahead(x, PER_RECORD), PER_RECORD * (m - 1)) == Ahead(x, PER_RECORD * m)
  {
  }

  lemma {:induction false} TrackThrough(r: Range, x: word, m: nat, y: word, all: nat)
    requires PER_RECORD * m <= all && PER_RECORD * m < WORD_MOD && y == Ahead(x, PER_RECORD * m)
    ensures Track(r, x, all) == Track(TrackRecords(r, x, m), y, all - PER_RECORD * m)
    decreases m
  {
    if m > 0 {
      TrackFull(r, x, all);
      AheadRecords(x, m);
      TrackThrough(Seen(r, x, PER_RECORD), Ahead(x, PER_RECORD), m - 1, y, all - PER_RECORD);
    }
  }

  /** ... and then the rest. */
  lemma TrackSplit(r: Range, x: word, m: nat, count: nat)
    requires PER_RECORD * m < WORD_MOD
    ensures Track(r, x, PER_RECORD * m + count)
         == Track(Track(r, x, PER_RECORD * m), Ahead(x, PER_RECORD * m), count)
  {
    TrackThrough(r, x, m, Ahead(x, PER_RECORD * m), PER_RECORD * m + count);
    TrackThrough(r, x, m, Ahead(x, PER_RECORD * m), PER_RECORD * m);
  }

  /** When the size reported is the number of bytes saved: there are some, and either they lie below the end of the address
      space, or one record holds them all, or the number is the one that tracking goes wrong by. */
  predicate SizeRight(x: word, count: word) {
    && count > 0
    && (x + count <= WORD_MOD || count <= PER_RECORD
        || (count == WORD_MOD - PER_RECORD && x % PER_RECORD != 0 && 2 * PER_RECORD < x && x + PER_RECORD <= WORD_MOD))
  }

  /** The range wraps at a record boundary. */
  lemma TrackAligned(x: word, m: nat, count: word)
    requires x + PER_RECORD * m == WORD_MOD && PER_RECORD * m < count
    ensures Track(NOTHING_SEEN, x, count) == Range(0, WORD_MOD - 1)
  {
    TrackSplit(NOTHING_SEEN, x, m, count - PER_RECORD * m);
    TrackStraight(NOTHING_SEEN, x, PER_RECORD * m);
    TrackStraight(Range(x, WORD_MOD - 1), 0, count - PER_RECORD * m);
  }

  /** The tracking after the `m` records that lie before the end of the address space. */
  function Before(x: word, m: nat): Range
    requires x + PER_RECORD * m < WORD_MOD
  {
    if m == 0 then NOTHING_SEEN else Range(x, x + PER_RECORD * m - 1)
  }

  lemma TrackBefore(x: word, m: nat, count: nat)
    requires x + PER_RECORD * m < WORD_MOD && PER_RECORD * m < count
    ensures Track(NOTHING_SEEN, x, count) == Track(Before(x, m), x + PER_RECORD * m, count - PER_RECORD * m)
  {
    TrackSplit(NOTHING_SEEN, x, m, count - PER_RECORD * m);
    if m > 0 {
      TrackStraight(NOTHING_SEEN, x, PER_RECORD * m);
    }
  }

  /** The record that straddles the end of the address space, with `rem` bytes before it. */
  lemma SeenStraddling(x: word, m: nat, rem: nat, n: nat)
    requires 0 < rem < n <= PER_RECORD && x + PER_RECORD * m + rem == WORD_MOD
    ensures Seen(Before(x, m), WORD_MOD - rem, n) == Range(x, if m == 0 then n - rem - 1 else WORD_MOD - rem - 1)
  {
  }

  /** Where the last record straddles. */
  lemma TrackStraddlingLast(x: word, m: nat, rem: nat, count: word)
    requires 0 < rem < PER_RECORD && x + PER_RECORD * m + rem == WORD_MOD
    requires PER_RECORD * m + rem < count <= PER_RECORD * m + PER_RECORD
    ensures Track(NOTHING_SEEN, x, count) == Range(x, if m == 0 then count - rem - 1 else WORD_MOD - rem - 1)
  {
    TrackBefore(x, m, count);
    SeenStraddling(x, m, rem, count - PER_RECORD * m);
  }

  /** Where records follow the one that straddles. */
  lemma TrackStraddlingOn(x: word, m: nat, rem: nat, count: word)
    requires 0 < rem < PER_RECORD && x + PER_RECORD * m + rem == WORD_MOD && count > PER_RECORD * m + PER_RECORD
    ensures Track(NOTHING_SEEN, x, count)
         == Range(PER_RECORD - rem, if m == 0 then count - rem - 1 else WORD_MOD - rem - 1)
  {
    TrackBefore(x, m, count);
    SeenStraddling(x, m, rem, PER_RECORD);
    var seen, rest := Seen(Before(x, m), WORD_MOD - rem, PER_RECORD), count - PER_RECORD * m - PER_RECORD;
    assert Track(Before(x, m), WORD_MOD - rem, rest + PER_RECORD) == Track(seen, PER_RECORD - rem, rest);
    TrackStraight(seen, PER_RECORD - rem, rest);
  }

  /** The size `load_serial` reports for what `save_serial` sent, exactly. */
  lemma {:induction false} SizeReported(a: word, count: word, offset: word, bytes: seq<byte>)
    requires |bytes| == count
    ensures var load := LoadSerial(Sent(Lines(a, bytes)), offset, {});
            load.Loaded? && (Size(SeenAll(NOTHING_SEEN, load.chunks)) == count <==> SizeRight(Ahead(a, offset), count))
  {
    var x := Ahead(a, offset);
    LoadSaved(a, bytes, offset, {});
    SeenIsTracked(NOTHING_SEEN, x, bytes);
    SizeTracked(x, count);
  }

  lemma SizeOf(r: Range)
    ensures Size(r) == if r.end + 1 < r.start then r.end - r.start + 1 + WORD_MOD
                       else if r.end - r.start + 1 == WORD_MOD then 0 else r.end - r.start + 1
  {
    if r.end + 1 < r.start {
      assert (r.end - r.start + 1 + WORD_MOD) % WORD_MOD == r.end - r.start + 1 + WORD_MOD;
    }
  }

  /** The whole records before the end of the address space, and the bytes behind them. */
  lemma RecordsBefore(x: word) returns (m: nat, rem: nat)
    ensures x + PER_RECORD * m + rem == WORD_MOD && rem < PER_RECORD && (rem == 0 <==> x % PER_RECORD == 0)
  {
    m, rem := (WORD_MOD - x) / PER_RECORD, (WORD_MOD - x) % PER_RECORD;
    assert PER_RECORD * m + rem == WORD_MOD - x;
  }

  lemma SizeTracked(x: word, count: word)
    ensures Size(Track(NOTHING_SEEN, x, count)) == count <==> SizeRight(x, count)
  {
    SizeOf(Track(NOTHING_SEEN, x, count));
    var m, rem := RecordsBefore(x);
    if count == 0 {
      assert Track(NOTHING_SEEN, x, 0) == NOTHING_SEEN;
    } else if x + count <= WORD_MOD {
      TrackStraight(NOTHING_SEEN, x, count);
    } else if rem == 0 {
      TrackAligned(x, m, count);
    } else if count <= PER_RECORD * m + PER_RECORD {
      TrackStraddlingLast(x, m, rem, count);
    } else {
      TrackStraddlingOn(x, m, rem, count);
    }
  }
}
