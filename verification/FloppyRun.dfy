/** `fdc_read_data` as it runs: seeks, read commands, retries and recalibrations against a drive that may fail at any
    point. The drive reads what its address registers say. */
module FloppyRun {
  import opened Common
  import opened FloppyRead

  const SECT_SIZE := 512             // 0x80 << sect_code, which is 2 in the one supported format
  const FDC_RW_RETRIES := 3
  const FDC_CAL_RETRIES := 3

  class Drive {
    const geo: Geometry
    const disk: seq<byte>
    var blnr: nat                      // pCMD->blnr
    ghost var done: seq<Command>       // the read commands that transferred everything
    ghost var errors: nat              // transfer errors
    ghost var faults: nat              // seeks, recalibrations and commands that failed

    /** The registers reach every block of the disk. */
    ghost predicate Valid()
      reads this
    {
      ValidGeometry(geo) && |disk| <= Limit(geo) * SECT_SIZE
    }

    /** A seek, a recalibration or a command: the drive accepts it or not. */
    method Answer() returns (ok: bool)
      modifies `faults
      ensures faults == if ok then old(faults) else old(faults) + 1
    {
      ok := *;
      if !ok { faults := faults + 1; }
    }

    /** The bytes of one read command into a slice of the buffer; on an error the slice holds anything. */
    method Transfer(buffer: array<byte>, at: nat, len: nat, base: nat) returns (ok: bool)
      requires at + len <= buffer.Length && base + len <= |disk|
      modifies buffer, `errors
      ensures ok ==> buffer[at..at + len] == disk[base..base + len] && errors == old(errors)
      ensures !ok ==> errors == old(errors) + 1
      ensures forall j :: 0 <= j < buffer.Length && !(at <= j < at + len) ==> buffer[j] == old(buffer[j])
    {
      ok := *;
      var i := 0;
      while i < len
        invariant 0 <= i <= len
        invariant forall j :: 0 <= j < buffer.Length && !(at <= j < at + i) ==> buffer[j] == old(buffer[j])
        invariant ok ==> buffer[at..at + i] == disk[base..base + i]
        invariant errors == old(errors)
      {
        if !ok {
          var stop := *;
          if stop {
            errors := errors + 1;
            return;
          }
        }
        var noise: int := *;
        buffer[at + i] := if ok then disk[base + i] else noise % 256;
        assert buffer[at..at + i + 1] == buffer[at..at + i] + [buffer[at + i]];
        i := i + 1;
      }
      if !ok { errors := errors + 1; }
    }

    /** The buffer starts with `offset` bytes of the disk from block `first` on. */
    ghost predicate Holds(buffer: array<byte>, first: nat, offset: nat)
      reads this, buffer
    {
      && offset <= buffer.Length && first * SECT_SIZE + offset <= |disk|
      && buffer[..offset] == disk[first * SECT_SIZE..first * SECT_SIZE + offset]
    }

    /** What a read that began at `first` with `blocks0` blocks has stored when `blocks` are left. */
    ghost predicate Stored(buffer: array<byte>, first: nat, blocks0: nat, blocks: nat, offset: nat)
      reads this, buffer
    {
      && blocks <= blocks0 && blnr == first + (blocks0 - blocks) && offset == (blocks0 - blocks) * SECT_SIZE
      && blocks0 * SECT_SIZE <= buffer.Length && Holds(buffer, first, offset)
    }

    /** The commands still to come complete the plan. */
    ghost predicate OnPlan(first: nat, blocks0: nat, blocks: nat, readblk: nat)
      requires Valid()
      reads this
    {
      && readblk <= blocks
      && done + ([Command(blnr, readblk)] + WholeTracks(geo.sect, blnr + readblk, blocks - readblk))
         == Plan(geo.sect, first, blocks0)
    }

    /** After a transfer error: read again, or recalibrate and seek first, or give up. */
    method Retry(retriesrw: nat, retriescal: nat) returns (go: bool, rw: nat, cal: nat)
      requires retriesrw <= 4 && retriescal <= 4 && errors == 5 * retriescal + retriesrw + 1
      modifies `faults
      ensures go ==> rw <= 4 && cal <= 4 && errors == 5 * cal + rw && faults == old(faults)
      ensures !go ==> errors == 25 || faults > old(faults)
    {
      rw, cal := retriesrw + 1, retriescal;
      if retriesrw > FDC_RW_RETRIES {
        cal := retriescal + 1;
        if retriescal > FDC_CAL_RETRIES { return false, rw, cal; }
        go := Answer();
        if !go { return; }
        rw := 0;
        go := Answer();
      } else {
        go := true;
      }
    }

    /** One read command for `n` blocks from `blnr` on, which are all on one head-track. */
    method ReadCommand(buffer: array<byte>, offset: nat, n: nat) returns (issued: bool, good: bool)
      requires Valid() && (blnr + n) * SECT_SIZE <= |disk| && offset + n * SECT_SIZE <= buffer.Length
      requires OnTrack(Command(blnr, n), geo.sect)
      modifies buffer, `errors, `faults
      ensures faults == if issued then old(faults) else old(faults) + 1
      ensures !issued ==> errors == old(errors)
      ensures good ==> issued
      ensures issued ==> errors == if good then old(errors) else old(errors) + 1
      ensures issued && good ==> blnr * SECT_SIZE <= (blnr + n) * SECT_SIZE
                                 && buffer[offset..offset + n * SECT_SIZE] == disk[blnr * SECT_SIZE..(blnr + n) * SECT_SIZE]
      ensures forall j :: 0 <= j < buffer.Length && !(offset <= j < offset + n * SECT_SIZE) ==> buffer[j] == old(buffer[j])
    {
      good := false;
      issued := Answer();
      if !issued { return; }
      ReachesBlock(n);
      var block := BlockOf(geo, Registers(geo, blnr));
      good := Transfer(buffer, offset, n * SECT_SIZE, if n == 0 then 0 else block * SECT_SIZE);
    }

    lemma ReachesBlock(n: nat)
      requires Valid() && (blnr + n) * SECT_SIZE <= |disk|
      ensures n > 0 ==> BlockOf(geo, Registers(geo, blnr)) == blnr
    {
      if n > 0 {
        RegistersInvert(geo, blnr);
      }
    }

    /** The command at hand stays on its track, and what follows it starts one. */
    ghost predicate Fits(blocks: nat, readblk: nat)
      requires Valid()
      reads this
    {
      OnTrack(Command(blnr, readblk), geo.sect) && (readblk < blocks ==> (blnr + readblk) % geo.sect == 0 && readblk > 0)
    }

    /** Take a finished command off the plan; the next one, if any, starts a head-track. */
    method Advance(blocks: nat, readblk: nat, ghost first: nat, ghost blocks0: nat) returns (left: nat, next: nat)
      requires Valid() && OnPlan(first, blocks0, blocks, readblk) && Fits(blocks, readblk)
      modifies `blnr, `done
      ensures blnr == old(blnr) + readblk && left == blocks - readblk
      ensures left == 0 ==> done == Plan(geo.sect, first, blocks0)
      ensures left > 0 ==> left < blocks && OnPlan(first, blocks0, left, next) && Fits(left, next)
    {
      ghost var c, rest := Command(blnr, readblk), WholeTracks(geo.sect, blnr + readblk, blocks - readblk);
      assert done + ([c] + rest) == (done + [c]) + rest;
      done := done + [c];
      blnr := blnr + readblk;
      left := blocks - readblk;
      next := Min(geo.sect, left);
      if left == 0 {
        assert done + [] == done;
      } else {
        if next == geo.sect { NextTrack(blnr, geo.sect); }
      }
    }

    /** The state of a read with `blocks` blocks left, the next `readblk` of them in one command. */
    ghost predicate Reading(buffer: array<byte>, first: nat, blocks0: nat, blocks: nat, offset: nat, readblk: nat)
      requires Valid()
      reads this, buffer
    {
      && Stored(buffer, first, blocks0, blocks, offset) && (first + blocks0) * SECT_SIZE <= |disk|
      && OnPlan(first, blocks0, blocks, readblk) && Fits(blocks, readblk)
    }

    /** One turn of the loop up to the results of the command. */
    method ReadNext(buffer: array<byte>, ghost first: nat, ghost blocks0: nat, blocks: nat, offset: nat, readblk: nat)
        returns (issued: bool, good: bool, left: nat, next: nat, offset': nat)
      requires Valid() && Reading(buffer, first, blocks0, blocks, offset, readblk)
      modifies buffer, this
      ensures faults == if issued then old(faults) else old(faults) + 1
      ensures good ==> issued
      ensures errors == if issued && !good then old(errors) + 1 else old(errors)
      ensures !good ==> Reading(buffer, first, blocks0, blocks, offset, readblk)
      ensures good && left == 0 ==> done == Plan(geo.sect, first, blocks0) && Stored(buffer, first, blocks0, 0, offset')
      ensures good && left > 0 ==> left < blocks && Reading(buffer, first, blocks0, left, offset', next)
      ensures forall j :: blocks0 * SECT_SIZE <= j < buffer.Length ==> buffer[j] == old(buffer[j])
    {
      left, next, offset' := blocks, readblk, offset;
      issued, good := ReadInto(buffer, offset, readblk, first);
      if good {
        offset' := offset + readblk * SECT_SIZE;
        left, next := Advance(blocks, readblk, first, blocks0);
      }
    }

    /** A read command behind what is stored already. */
    method ReadInto(buffer: array<byte>, offset: nat, n: nat, ghost first: nat) returns (issued: bool, good: bool)
      requires Valid() && Holds(buffer, first, offset) && blnr * SECT_SIZE == first * SECT_SIZE + offset
      requires (blnr + n) * SECT_SIZE <= |disk| && offset + n * SECT_SIZE <= buffer.Length
      requires OnTrack(Command(blnr, n), geo.sect)
      modifies buffer, `errors, `faults
      ensures faults == if issued then old(faults) else old(faults) + 1
      ensures good ==> issued
      ensures errors == if issued && !good then old(errors) + 1 else old(errors)
      ensures Holds(buffer, first, if good then offset + n * SECT_SIZE else offset)
      ensures forall j :: offset + n * SECT_SIZE <= j < buffer.Length ==> buffer[j] == old(buffer[j])
    {
      ghost var before, from, end := buffer[..offset], first * SECT_SIZE, offset + n * SECT_SIZE;
      issued, good := ReadCommand(buffer, offset, n);
      assert buffer[..offset] == before;
      assert buffer[..end] == buffer[..offset] + buffer[offset..end];
      assert disk[from..from + end] == disk[from..from + offset] + disk[from + offset..from + end];
    }

    /** Read blocks `[blnr, blnr + blocks)` of the disk to the start of the buffer. It succeeds just when no command fails
        and fewer than 25 transfers do; then the commands that transferred are the plan and each block is stored once. */
    method ReadData(buffer: array<byte>, blocks0: nat) returns (ok: bool)
      requires Valid() && (blnr + blocks0) * SECT_SIZE <= |disk| && blocks0 * SECT_SIZE <= buffer.Length
      requires done == [] && errors == 0 && faults == 0
      modifies this, buffer
      ensures ok <==> errors < 25 && faults == 0
      ensures errors <= 25
      ensures ok ==> done == Plan(geo.sect, old(blnr), blocks0)
      ensures ok ==> blnr == old(blnr) + blocks0
      ensures ok ==> buffer[..blocks0 * 512] == disk[old(blnr) * 512..old(blnr) * 512 + blocks0 * 512]
      ensures forall j :: blocks0 * SECT_SIZE <= j < buffer.Length ==> buffer[j] == old(buffer[j])
    {
      ghost var first := blnr;
      var blocks: nat, offset: nat, rw: nat, cal: nat := blocks0, 0, 0, 0;
      ok := Answer();
      if !ok { return; }
      var readblk: nat := Min(geo.sect - blnr % geo.sect, blocks);
      TrackEnd(blnr, geo.sect);
      assert [] + Plan(geo.sect, first, blocks0) == Plan(geo.sect, first, blocks0);
      while true
        invariant Reading(buffer, first, blocks0, blocks, offset, readblk)
        invariant rw <= 4 && cal <= 4 && errors == 5 * cal + rw && faults == 0
        invariant forall j :: blocks0 * SECT_SIZE <= j < buffer.Length ==> buffer[j] == old(buffer[j])
        decreases blocks, 25 - errors
      {
        var issued, good, left, next, offset' := ReadNext(buffer, first, blocks0, blocks, offset, readblk);
        if !issued { return false; }
        if good {
          blocks, readblk, offset := left, next, offset';
          if blocks == 0 { return true; }
          ok := Answer();
        } else {
          ok, rw, cal := Retry(rw, cal);
        }
        if !ok { return; }
      }
    }
  }
}
