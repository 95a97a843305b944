/** The boot record scanner and writer as they work: globals, loops and a flash rewritten a sector at a time. */
module BootRecordRun {
  import opened Common
  import opened BootRecord

  /** The first word of the sector around a word. */
  function SectorStart(w: nat, sectorWords: nat): nat
    requires sectorWords > 0
  {
    w / sectorWords * sectorWords
  }

  lemma KilobyteWords(at: nat)
    requires at % 1024 == 0
    ensures at / 4 % BDR_SIZE == 0
  {
    var k := at / 1024;
    assert at == 4 * (BDR_SIZE * k);
  }

  predicate InSector(j: nat, w: nat, sectorWords: nat)
    requires sectorWords > 0
  {
    SectorStart(w, sectorWords) <= j < SectorStart(w, sectorWords) + sectorWords
  }

  lemma SectorInside(q: nat, w: nat, n: nat, sectorWords: nat)
    requires q * sectorWords <= w < n * sectorWords
    ensures (q + 1) * sectorWords <= n * sectorWords
  {
    var d := n - q;
    assert d * sectorWords == n * sectorWords - q * sectorWords;
    assert d > 0;
    assert (d - 1) * sectorWords >= 0;
  }

  /** A kilobyte of the flash lies inside its sector, which lies inside the flash. */
  lemma SectorFits(w: nat, k: nat, kb: nat, n: nat, sectorWords: nat)
    requires kb > 0 && sectorWords == kb * BDR_SIZE && w == k * BDR_SIZE && w < n * sectorWords
    ensures SectorStart(w, sectorWords) + sectorWords <= n * sectorWords
    ensures SectorStart(w, sectorWords) <= w && w + BDR_SIZE <= SectorStart(w, sectorWords) + sectorWords
  {
    var q := w / sectorWords;
    var end := (q + 1) * kb;
    assert (q + 1) * sectorWords == end * BDR_SIZE;
    assert SectorStart(w, sectorWords) == q * sectorWords <= w < q * sectorWords + sectorWords == end * BDR_SIZE;
    SectorInside(q, w, n, sectorWords);
  }

  lemma OverlayWithin(flash: seq<word>, start: nat, size: nat, at: nat, record: seq<word>)
    requires start <= at && at + |record| <= start + size <= |flash|
    ensures Overlay(flash, start, Overlay(flash[start..start + size], at - start, record)) == Overlay(flash, at, record)
  {
  }

  class BootLog {
    const flash: array<word>
    const blocks: nat
    const sectorWords: nat            // a flash sector holds whole kilobytes
    var sequence: word                // bdr_seq
    var bootAddr: word                // bdr_bootaddr
    const bootArg: array<word>        // bdr_bootarg

    ghost predicate Sized()
      reads this
    {
      bootArg.Length == ARG_WORDS && bootArg != flash && blocks <= 256 && flash.Length == blocks * BLOCK
    }

    /** The flash consists of sectors of whole kilobytes. */
    ghost predicate Valid()
      reads this
    {
      && Sized() && sectorWords > 0
      && (exists kb: nat, n: nat :: sectorWords == kb * BDR_SIZE && flash.Length == n * sectorWords)
    }

    ghost function Booting(): Boot
      reads this, bootArg
    {
      Boot(bootAddr, bootArg[..])
    }

    ghost function Scanned(): Scan
      reads this, bootArg
    {
      Scan(sequence, Booting())
    }

    /** memset(bdr_bootarg, 0, sizeof(bdr_bootarg)). */
    method ClearArg()
      requires Sized()
      modifies bootArg
      ensures bootArg[..] == NoArgs()
    {
      var k := 0;
      while k < bootArg.Length
        invariant 0 <= k <= bootArg.Length
        invariant forall j :: 0 <= j < k ==> bootArg[j] == 0
      {
        bootArg[k] := 0;
        k := k + 1;
      }
    }

    /** memcpy of a tag's words into bdr_bootarg. */
    method CopyArg(block: seq<word>, past: nat -> word, p: nat, words: nat)
      requires Sized()
      modifies bootArg
      ensures bootArg[..] == CopyArgs(block, past, p, words, old(bootArg[..]))
    {
      var k := 0;
      while k < words && k < bootArg.Length
        invariant 0 <= k <= words && k <= bootArg.Length
        invariant forall j :: 0 <= j < k ==> bootArg[j] == At(block, past, p + j)
        invariant forall j :: k <= j < bootArg.Length ==> bootArg[j] == old(bootArg[j])
      {
        bootArg[k] := At(block, past, p + k);
        k := k + 1;
      }
    }

    /** One turn of `parse_tag`'s switch. */
    method ApplyTag(block: seq<word>, past: nat -> word, p: nat, tags: nat) returns (go: bool, next: nat)
      requires Sized()
      modifies `bootAddr, bootArg
      ensures go == TagGood(At(block, past, p), tags)
      ensures Booting() == if go then TagApplied(block, past, p, old(Booting())) else old(Booting())
      ensures go ==> next == p + 1 + TagWords(At(block, past, p))
    {
      var data := At(block, past, p);
      var words := TagWords(data);
      next := p + 1;
      if tags != TagNo(data) || words < 0 { return false, p; }
      if TagName(data) == TAG_STOP {
        return false, p;
      } else if TagName(data) == TAG_BOOTADDR {
        if words != 1 { return false, p; }
        bootAddr := At(block, past, next);
        next := next + 1;
      } else if TagName(data) == TAG_BOOTARGS {
        if words >= 130 { return false, p; }
        CopyArg(block, past, next, words);
        next := next + words;
      } else {
        next := next + words;
      }
      go := true;
    }

    method ParseTag(block: seq<word>, past: nat -> word, size: nat)
      requires Sized()
      modifies `bootAddr, bootArg
      ensures Booting() == ParseTags(block, past, 4, 0, size, Boot(0, NoArgs()))
    {
      bootAddr := 0;
      ClearArg();
      var p: nat, tags: nat, i: nat := 4, 0, 0;
      ghost var result := ParseTags(block, past, 4, 0, size, Boot(0, NoArgs()));
      while i < size
        invariant 0 <= i <= size
        invariant ParseTags(block, past, p, tags, size - i, Booting()) == result
      {
        var go, next := ApplyTag(block, past, p, tags);
        if !go { return; }
        p, tags, i := next, tags + 1, i + 1;
      }
    }

    /** Look at the beginning of the block at word `offset`. */
    method FindStart(offset: nat, past: nat -> word) returns (found: word)
      requires Sized() && offset + BLOCK <= flash.Length
      modifies `sequence, `bootAddr, bootArg
      ensures var s := flash[offset..offset + BLOCK];
              && Scanned() == Better(old(Scanned()), StartSequence(s), s[..BDR_SIZE], past)
              && found == if StartSequence(s).Some? then StartSequence(s).value else 0
    {
      ghost var s := flash[offset..offset + BLOCK];
      var bdrblock := flash[offset..offset + BDR_SIZE];
      if flash[offset] != BEGIN_MAGIC { return 0; }
      var size := Bytes(flash[offset + 1]);
      if size <= 32 { return 0; }
      if size >= 0x1_0000 { return 0; }
      var top := offset + size / 4;
      if flash[top - 1] != END_MAGIC { return 0; }
      if Bytes(flash[top - 2]) != size { return 0; }
      found := flash[offset + 3];
      if found == 0 || found == NO_SEQUENCE { return 0; }
      assert StartSequence(s) == Some(found);
      assert bdrblock == s[..BDR_SIZE];
      if found > sequence {
        sequence := found;
        ParseTag(bdrblock, past, BDR_SIZE);
      }
    }

    /** Look at the end of the block at word `offset`. */
    method FindEnd(offset: nat, past: nat -> word) returns (found: word)
      requires Sized() && offset + BLOCK <= flash.Length
      modifies `sequence, `bootAddr, bootArg
      ensures var s := flash[offset..offset + BLOCK];
              && Scanned() == Better(old(Scanned()), EndSequence(s), s[BLOCK - BDR_SIZE..], past)
              && found == if EndSequence(s).Some? then EndSequence(s).value else 0
    {
      ghost var s := flash[offset..offset + BLOCK];
      var top := offset + BLOCK;
      var bdrblock := flash[top - BDR_SIZE..top];
      if flash[top - 1] != END_MAGIC { return 0; }
      var size := Bytes(flash[top - 2]);
      if size <= 32 { return 0; }
      if size >= 0x1_0000 { return 0; }
      var bottom := top - size / 4;
      if flash[bottom] != BEGIN_MAGIC { return 0; }
      if Bytes(flash[bottom + 1]) != size { return 0; }
      found := flash[bottom + 3];
      if found == 0 || found == NO_SEQUENCE { return 0; }
      assert EndSequence(s) == Some(found);
      assert bdrblock == s[BLOCK - BDR_SIZE..];
      if found > sequence {
        sequence := found;
        ParseTag(bdrblock, past, BDR_SIZE);
      }
    }

    /** Both looks at one block. */
    method FindBoth(offset: nat, past: nat -> word)
      requires Sized() && offset + BLOCK <= flash.Length
      modifies `sequence, `bootAddr, bootArg
      ensures Scanned() == ScanSection(old(Scanned()), flash[offset..offset + BLOCK], past)
    {
      var _ := FindStart(offset, past);
      var _ := FindEnd(offset, past);
    }

    /** The scan has got as far as block `b`. */
    ghost predicate Reached(offset: nat, b: nat, past: nat -> word)
      reads this, flash, bootArg
    {
      Sized() && b <= blocks && offset == b * BLOCK && Scanned() == ScanBlocks(flash[..], blocks, b, past)
    }

    /** One turn of the loop over the flash. */
    method FindTurn(offset: nat, ghost b: nat, past: nat -> word)
      requires Reached(offset, b, past) && offset < flash.Length
      modifies `sequence, `bootAddr, bootArg
      ensures Reached(offset + BLOCK, b + 1, past)
    {
      assert flash[offset..offset + BLOCK] == Section(flash[..], blocks, b);
      ScanTurn(flash[..], blocks, b, past);
      FindBoth(offset, past);
    }

    lemma ReachedEnd(offset: nat, b: nat, past: nat -> word)
      requires Reached(offset, b, past) && offset >= flash.Length
      ensures Scanned() == ScanAll(flash[..], blocks, past)
    {
      assert b == blocks;
    }

    /** The loop over the flash. */
    method ScanFlash(past: nat -> word)
      requires Reached(0, 0, past)
      modifies `sequence, `bootAddr, bootArg
      ensures Scanned() == ScanAll(flash[..], blocks, past)
    {
      var offset: nat := 0;
      ghost var b: nat := 0;
      while offset < flash.Length
        invariant Reached(offset, b, past)
      {
        FindTurn(offset, b, past);
        offset, b := offset + BLOCK, b + 1;
      }
      ReachedEnd(offset, b, past);
    }

    /** `findbdr(0)`: what is left in the globals is what the whole flash holds. `None` is the return value 0. */
    method FindBdr(past: nat -> word) returns (command: Option<word>)
      requires Sized()
      modifies `sequence, `bootAddr, bootArg
      ensures sequence == ScanAll(flash[..], blocks, past).sequence
      ensures bootArg[..] == ScanAll(flash[..], blocks, past).boot.args
      ensures command == BootCommand(ScanAll(flash[..], blocks, past), blocks)
    {
      sequence := 0;
      bootAddr := NO_SEQUENCE;
      ClearArg();
      ScanFlash(past);
      if sequence == 0 || bootAddr == NO_SEQUENCE || bootAddr == 0 { return None; }
      if bootAddr < blocks * 0x1_0000 { bootAddr := bootAddr + FLASH_START; }
      return Some(bootAddr);
    }

    /** flash_erase then flash_write of one sector: the device takes the image, or fails and leaves some `residue`. */
    method RewriteSector(start: nat, image: seq<word>, fails: bool, residue: seq<word>)
      requires Valid() && start + |image| <= flash.Length && |residue| == |image|
      modifies flash
      ensures flash[..] == Overlay(old(flash[..]), start, if fails then residue else image)
    {
      var k := 0;
      while k < |image|
        invariant 0 <= k <= |image|
        invariant forall j :: 0 <= j < flash.Length && !(start <= j < start + k) ==> flash[j] == old(flash[j])
        invariant forall j :: 0 <= j < k ==> flash[start + j] == if fails then residue[j] else image[j]
      {
        flash[start + k] := if fails then residue[k] else image[k];
        k := k + 1;
      }
    }

    /** Copy the sector around the kilobyte at word `w`, put the record into the copy, write it back. */
    method ProgramRecord(w: nat, record: seq<word>, fails: bool, residue: seq<word>)
      requires Valid() && w < flash.Length && w % BDR_SIZE == 0 && |record| == BDR_SIZE && |residue| == sectorWords
      modifies flash
      ensures w + BDR_SIZE <= flash.Length
      ensures !fails ==> flash[..] == Overlay(old(flash[..]), w, record)
      ensures forall j :: 0 <= j < flash.Length && !InSector(j, w, sectorWords) ==> flash[j] == old(flash[j])
    {
      ghost var kb: nat, n: nat :| sectorWords == kb * BDR_SIZE && flash.Length == n * sectorWords;
      SectorFits(w, w / BDR_SIZE, kb, n, sectorWords);
      var start := SectorStart(w, sectorWords);
      OverlayWithin(flash[..], start, sectorWords, w, record);
      assert flash[start..start + sectorWords] == flash[..][start..start + sectorWords];
      var image := Overlay(flash[start..start + sectorWords], w - start, record);
      RewriteSector(start, image, fails, residue);
    }

    /** `writebdr` at byte offset `at` of the flash. `true` is the return value 0; the record then carries the next number,
        and nothing but its kilobyte changes. */
    method WriteBdr(at: nat, addr: word, args: seq<word>, filler: seq<word>, past: nat -> word,
                    fails: bool, residue: seq<word>) returns (ok: bool)
      requires Valid() && at < flash.Length * 4
      requires |args| == ARG_WORDS && |filler| == FILLER_WORDS && |residue| == sectorWords
      modifies this, flash, bootArg
      ensures ok <==> at % 1024 == 0 && !fails
      ensures at % 1024 != 0 ==> flash[..] == old(flash[..])
      ensures at % 1024 == 0 ==> at / 4 + BDR_SIZE <= flash.Length
      ensures ok ==> flash[..] == Overlay(old(flash[..]), at / 4,
                                          Record(NextSequence(old(flash[..]), blocks, past), addr, args, filler))
      ensures forall j :: 0 <= j < flash.Length && !InSector(j, at / 4, sectorWords) ==> flash[j] == old(flash[j])
    {
      if at % 1024 != 0 { return false; }
      var _ := FindBdr(past);
      var record := Record((sequence + 1) % WORD_MOD, addr, args, filler);
      KilobyteWords(at);
      ProgramRecord(at / 4, record, fails, residue);
      ok := !fails;
    }
  }
}
