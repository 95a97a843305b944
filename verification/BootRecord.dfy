/** Boot description records in flash (cmd_bdr.c): the writer, the scanner and the tag parser, on 32-bit words.
    All offsets the code uses are multiples of four, and the target is big endian like the flash. */
module BootRecord {
  import opened Common

  const BDR_SIZE := 256              // words of a record
  const BLOCK := 0x4000              // words of a 64 KB block
  const BEGIN_MAGIC: word := 0xFEED_CAFE
  const END_MAGIC: word := 0xFEED_FADE
  const NO_SEQUENCE: word := 0xFFFF_FFFF
  const ARG_WORDS := 128             // the 512 bytes of bdr_bootarg

  const FILLER_WORDS := BDR_SIZE - 10 - ARG_WORDS - 2

  const FLASH_START: word := 0xBF00_0000

  const TAG_STOP := 1
  const TAG_BOOTADDR := 2
  const TAG_BOOTARGS := 3
  const TAG_REQUESTNUMBER := 4

  /** `bdr_bootaddr` and `bdr_bootarg`. */
  datatype Boot = Boot(addr: word, args: seq<word>)

  /** The argument block, cleared. */
  function NoArgs(): seq<word> {
    seq(ARG_WORDS, _ => 0)
  }

  function TagWord(no: nat, name: nat, words: nat): word
    requires no < 256 && name < 256 && words < 0x1_0000
  {
    no * 0x100_0000 + name * 0x1_0000 + words
  }

  /** The words of a record; `filler` is whatever the unwritten part of the buffer holds. */
  function Record(sequence: word, addr: word, args: seq<word>, filler: seq<word>): (r: seq<word>)
    requires |args| == ARG_WORDS && |filler| == FILLER_WORDS
    ensures |r| == BDR_SIZE
  {
    [BEGIN_MAGIC, BDR_SIZE, 0, sequence,
     TagWord(0, TAG_REQUESTNUMBER, 2), 0,
     TagWord(1, TAG_BOOTADDR, 2), addr,
     TagWord(2, TAG_BOOTARGS, 1 + ARG_WORDS)] + args + [TagWord(3, TAG_STOP, 1)] + filler + [BDR_SIZE, END_MAGIC]
  }

  // ---- parse_tag

  /** A word of the copied block, or what lies behind it on the stack. */
  function At(block: seq<word>, past: nat -> word, i: nat): word {
    if i < |block| then block[i] else past(i)
  }

  /** The argument block after copying `words` words from `p` over it. */
  function CopyArgs(block: seq<word>, past: nat -> word, p: nat, words: nat, args: seq<word>): (r: seq<word>)
    ensures |r| == |args|
    ensures forall k :: 0 <= k < |args| ==> r[k] == if k < words then At(block, past, p + k) else args[k]
    decreases args
  {
    if args == [] || words == 0 then args
    else [At(block, past, p)] + CopyArgs(block, past, p + 1, words - 1, args[1..])
  }

  function TagNo(data: word): nat {
    data / 0x100_0000
  }

  function TagName(data: word): nat {
    data / 0x1_0000 % 256
  }

  /** The words behind a tag word; its count includes itself. */
  function TagWords(data: word): int {
    data % 0x1_0000 - 1
  }

  /** A tag that `parse_tag` goes on after: numbered in order, of a size its name allows. */
  predicate TagGood(data: word, tags: nat) {
    && tags == TagNo(data) && TagWords(data) >= 0
    && TagName(data) != TAG_STOP
    && (TagName(data) == TAG_BOOTADDR ==> TagWords(data) == 1)
    && (TagName(data) == TAG_BOOTARGS ==> TagWords(data) < 130)
  }

  function TagApplied(block: seq<word>, past: nat -> word, p: nat, boot: Boot): Boot {
    var data := At(block, past, p);
    if TagName(data) == TAG_BOOTADDR then boot.(addr := At(block, past, p + 1))
    else if TagName(data) == TAG_BOOTARGS && TagWords(data) >= 0 then
      boot.(args := CopyArgs(block, past, p + 1, TagWords(data), boot.args))
    else boot
  }

  /** `parse_tag` from tag number `tags` at word `p` with `left` turns to go. Both callers ignore its result, so what it
      has set before giving up stays. */
  function ParseTags(block: seq<word>, past: nat -> word, p: nat, tags: nat, left: nat, boot: Boot): Boot
    decreases left
  {
    var data := At(block, past, p);
    if left == 0 || !TagGood(data, tags) then boot
    else ParseTags(block, past, p + 1 + TagWords(data), tags + 1, left - 1, TagApplied(block, past, p, boot))
  }

  /** A record's block, from behind its header. */
  function Parse(block: seq<word>, past: nat -> word): Boot {
    ParseTags(block, past, 4, 0, BDR_SIZE, Boot(0, NoArgs()))
  }

  // ---- findBDRstart and findBDRend

  predicate ValidFlash(flash: seq<word>, blocks: nat) {
    |flash| == blocks * BLOCK
  }

  /** A block of the flash. */
  function Section(flash: seq<word>, blocks: nat, b: nat): (s: seq<word>)
    requires ValidFlash(flash, blocks) && b < blocks
    ensures |s| == BLOCK
  {
    assert (b + 1) * BLOCK <= blocks * BLOCK;
    flash[b * BLOCK..(b + 1) * BLOCK]
  }

  /** A size field, in bytes and 32 bits. */
  function Bytes(size: word): word {
    size * 4 % WORD_MOD
  }

  predicate SizeOk(bytes: word) {
    32 < bytes < 0x1_0000
  }

  function SequenceAt(w: word): Option<word> {
    if w == 0 || w == NO_SEQUENCE then None else Some(w)
  }

  /** The sequence number of a record at the beginning of a block. */
  function StartSequence(s: seq<word>): Option<word>
    requires |s| == BLOCK
  {
    var bytes := Bytes(s[1]);
    if s[0] == BEGIN_MAGIC && SizeOk(bytes) && s[bytes / 4 - 1] == END_MAGIC && Bytes(s[bytes / 4 - 2]) == bytes
    then SequenceAt(s[3]) else None
  }

  /** The sequence number of a record at the end of a block. */
  function EndSequence(s: seq<word>): Option<word>
    requires |s| == BLOCK
  {
    var bytes := Bytes(s[BLOCK - 2]);
    if s[BLOCK - 1] == END_MAGIC && SizeOk(bytes) && s[BLOCK - bytes / 4] == BEGIN_MAGIC
       && Bytes(s[BLOCK - bytes / 4 + 1]) == bytes
    then SequenceAt(s[BLOCK - bytes / 4 + 3]) else None
  }

  /** `bdr_seq` and what was parsed for it. */
  datatype Scan = Scan(sequence: word, boot: Boot)

  function Better(scan: Scan, found: Option<word>, block: seq<word>, past: nat -> word): Scan {
    if found.Some? && found.value > scan.sequence then Scan(found.value, Parse(block, past)) else scan
  }

  function ScanSection(scan: Scan, s: seq<word>, past: nat -> word): Scan
    requires |s| == BLOCK
  {
    Better(Better(scan, StartSequence(s), s[..BDR_SIZE], past), EndSequence(s), s[BLOCK - BDR_SIZE..], past)
  }

  function Found(s: seq<word>, atEnd: bool): Option<word>
    requires |s| == BLOCK
  {
    if atEnd then EndSequence(s) else StartSequence(s)
  }

  /** The words that are parsed for a record found at a place. */
  function RecordBlock(s: seq<word>, atEnd: bool): seq<word>
    requires |s| == BLOCK
  {
    if atEnd then s[BLOCK - BDR_SIZE..] else s[..BDR_SIZE]
  }

  /** What one look at an end of a block comes to. */
  datatype Look = Look(found: Option<word>, boot: Boot)

  function Keep(scan: Scan, look: Look): Scan {
    if look.found.Some? && look.found.value > scan.sequence then Scan(look.found.value, look.boot) else scan
  }

  function Best(looks: seq<Look>): Scan {
    if looks == [] then Scan(0, Boot(NO_SEQUENCE, NoArgs())) else Keep(Best(looks[..|looks| - 1]), looks[|looks| - 1])
  }

  function LookAt(s: seq<word>, atEnd: bool, past: nat -> word): Look
    requires |s| == BLOCK
  {
    Look(Found(s, atEnd), Parse(RecordBlock(s, atEnd), past))
  }

  function Looks(look: nat -> Look, n: nat): (looks: seq<Look>)
    ensures |looks| == n && forall j :: 0 <= j < n ==> looks[j] == look(j)
  {
    seq(n, (j: nat) requires 0 <= j < n => look(j))
  }

  /** The looks of a scan in order, two at each block. */
  function Looker(flash: seq<word>, blocks: nat, past: nat -> word): nat -> Look
    requires ValidFlash(flash, blocks)
  {
    (j: nat) =>
      if j / 2 < blocks then LookAt(Section(flash, blocks, j / 2), j % 2 == 1, past) else Look(None, Boot(0, NoArgs()))
  }

  /** The loop of `findbdr(0)` over the first `b` blocks: the best of its looks. */
  function ScanBlocks(flash: seq<word>, blocks: nat, b: nat, past: nat -> word): Scan
    requires ValidFlash(flash, blocks) && b <= blocks
  {
    Best(Looks(Looker(flash, blocks, past), 2 * b))
  }

  function ScanAll(flash: seq<word>, blocks: nat, past: nat -> word): Scan
    requires ValidFlash(flash, blocks)
  {
    ScanBlocks(flash, blocks, blocks, past)
  }

  // ---- writebdr

  /** A record place: the first or the last 1 KB of a block. */
  datatype Place = Place(b: nat, atEnd: bool)

  function PutIn(s: seq<word>, atEnd: bool, record: seq<word>): (r: seq<word>)
    requires |s| == BLOCK && |record| == BDR_SIZE
    ensures |r| == BLOCK
  {
    if atEnd then s[..BLOCK - BDR_SIZE] + record else record + s[BDR_SIZE..]
  }

  function Offset(p: Place): nat {
    p.b * BLOCK + if p.atEnd then BLOCK - BDR_SIZE else 0
  }

  function Put(flash: seq<word>, blocks: nat, p: Place, record: seq<word>): (r: seq<word>)
    requires ValidFlash(flash, blocks) && p.b < blocks && |record| == BDR_SIZE
    ensures ValidFlash(r, blocks)
  {
    assert (p.b + 1) * BLOCK <= blocks * BLOCK;
    Overlay(flash, Offset(p), record)
  }

  // ---- what a written record parses to

  lemma RecordWords(sequence: word, addr: word, args: seq<word>, filler: seq<word>)
    requires |args| == ARG_WORDS && |filler| == FILLER_WORDS
    ensures var r := Record(sequence, addr, args, filler);
            && r[0] == BEGIN_MAGIC && r[1] == BDR_SIZE && r[3] == sequence
            && r[4] == TagWord(0, TAG_REQUESTNUMBER, 2) && r[6] == TagWord(1, TAG_BOOTADDR, 2) && r[7] == addr
            && r[8] == TagWord(2, TAG_BOOTARGS, 1 + ARG_WORDS) && r[9..137] == args && r[137] == TagWord(3, TAG_STOP, 1)
            && r[254] == BDR_SIZE && r[255] == END_MAGIC
  {
  }

  lemma HighField(no: nat, low: nat)
    requires low < 0x100_0000
    ensures (no * 0x100_0000 + low) / 0x100_0000 == no
  {
  }

  lemma LowField(high: nat, words: nat)
    requires words < 0x1_0000
    ensures (high * 0x1_0000 + words) / 0x1_0000 == high && (high * 0x1_0000 + words) % 0x1_0000 == words
  {
  }

  /** The fields of a tag word. */
  lemma TagFields(no: nat, name: nat, words: nat)
    requires no < 256 && name < 256 && 0 < words < 0x1_0000
    ensures var w := TagWord(no, name, words);
            TagNo(w) == no && TagName(w) == name && TagWords(w) == words - 1
  {
    HighField(no, name * 0x1_0000 + words);
    LowField(no * 256 + name, words);
  }

  lemma ParseOther(block: seq<word>, past: nat -> word, p: nat, no: nat, name: nat, words: nat, left: nat, boot: Boot)
    requires no < 256 && TAG_BOOTARGS < name < 256 && 0 < words < 0x1_0000 && left > 0
    requires At(block, past, p) == TagWord(no, name, words)
    ensures ParseTags(block, past, p, no, left, boot) == ParseTags(block, past, p + words, no + 1, left - 1, boot)
  {
    TagFields(no, name, words);
  }

  lemma ParseAddr(block: seq<word>, past: nat -> word, p: nat, no: nat, left: nat, boot: Boot)
    requires no < 256 && left > 0 && At(block, past, p) == TagWord(no, TAG_BOOTADDR, 2)
    ensures ParseTags(block, past, p, no, left, boot)
         == ParseTags(block, past, p + 2, no + 1, left - 1, boot.(addr := At(block, past, p + 1)))
  {
    TagFields(no, TAG_BOOTADDR, 2);
  }

  lemma ParseArgs(block: seq<word>, past: nat -> word, p: nat, no: nat, left: nat, boot: Boot)
    requires no < 256 && left > 0 && At(block, past, p) == TagWord(no, TAG_BOOTARGS, 1 + ARG_WORDS)
    ensures ParseTags(block, past, p, no, left, boot)
         == ParseTags(block, past, p + 1 + ARG_WORDS, no + 1, left - 1,
                      boot.(args := CopyArgs(block, past, p + 1, ARG_WORDS, boot.args)))
  {
    TagFields(no, TAG_BOOTARGS, 1 + ARG_WORDS);
  }

  lemma ParseStop(block: seq<word>, past: nat -> word, p: nat, no: nat, left: nat, boot: Boot)
    requires no < 256 && At(block, past, p) == TagWord(no, TAG_STOP, 1)
    ensures ParseTags(block, past, p, no, left, boot) == boot
  {
    TagFields(no, TAG_STOP, 1);
  }

  lemma CopyWhole(block: seq<word>, past: nat -> word, p: nat, args: seq<word>, over: seq<word>)
    requires |over| == |args| && p + |args| <= |block| && block[p..p + |args|] == args
    ensures CopyArgs(block, past, p, |args|, over) == args
  {
    assert forall i :: p <= i < p + |args| ==> block[i] == block[p..p + |args|][i - p];
  }

  lemma WordsParse(r: seq<word>, addr: word, args: seq<word>, past: nat -> word)
    requires |r| == BDR_SIZE && |args| == ARG_WORDS
    requires r[4] == TagWord(0, TAG_REQUESTNUMBER, 2) && r[6] == TagWord(1, TAG_BOOTADDR, 2) && r[7] == addr
    requires r[8] == TagWord(2, TAG_BOOTARGS, 1 + ARG_WORDS) && r[9..137] == args && r[137] == TagWord(3, TAG_STOP, 1)
    ensures Parse(r, past) == Boot(addr, args)
  {
    var b0 := Boot(0, NoArgs());
    var b1 := Boot(addr, NoArgs());
    ParseOther(r, past, 4, 0, TAG_REQUESTNUMBER, 2, BDR_SIZE, b0);
    ParseAddr(r, past, 6, 1, BDR_SIZE - 1, b0);
    ParseArgs(r, past, 8, 2, BDR_SIZE - 2, b1);
    CopyWhole(r, past, 9, args, NoArgs());
    ParseStop(r, past, 137, 3, BDR_SIZE - 3, Boot(addr, args));
  }

  /** A record gives back the boot address and the argument block it was written with. */
  lemma {:induction false} RecordParses(sequence: word, addr: word, args: seq<word>, filler: seq<word>, past: nat -> word)
    requires |args| == ARG_WORDS && |filler| == FILLER_WORDS
    ensures Parse(Record(sequence, addr, args, filler), past) == Boot(addr, args)
  {
    RecordWords(sequence, addr, args, filler);
    WordsParse(Record(sequence, addr, args, filler), addr, args, past);
  }

  // ---- a record in a block

  /** Records in this block have the writer's size. */
  predicate Tidy(s: seq<word>)
    requires |s| == BLOCK
  {
    (s[0] == BEGIN_MAGIC ==> s[1] == BDR_SIZE) && (s[BLOCK - 1] == END_MAGIC ==> s[BLOCK - 2] == BDR_SIZE)
  }

  /** Nothing inside the record looks like the end of another one. */
  predicate Clean(record: seq<word>) {
    && (forall k :: 1 <= k < |record| ==> record[k] != BEGIN_MAGIC)
    && (forall k :: 0 <= k < |record| - 1 ==> record[k] != END_MAGIC)
  }

  /** The writer's frame around a record. */
  predicate Framed(record: seq<word>, sequence: word) {
    && |record| == BDR_SIZE && record[0] == BEGIN_MAGIC && record[1] == BDR_SIZE && record[3] == sequence
    && record[BDR_SIZE - 2] == BDR_SIZE && record[BDR_SIZE - 1] == END_MAGIC
  }

  lemma FoundFramed(s: seq<word>, atEnd: bool, record: seq<word>, sequence: word)
    requires |s| == BLOCK && Framed(record, sequence)
    ensures Found(PutIn(s, atEnd, record), atEnd) == SequenceAt(sequence)
    ensures RecordBlock(PutIn(s, atEnd, record), atEnd) == record
  {
    var r := PutIn(s, atEnd, record);
    assert Bytes(BDR_SIZE) == 1024;
    if atEnd {
      assert forall k :: 0 <= k < BDR_SIZE ==> r[BLOCK - BDR_SIZE + k] == record[k];
    }
  }

  /** Writing at one end of a block leaves what is found at the other end, or hides it. */
  lemma OtherEndKept(s: seq<word>, atEnd: bool, record: seq<word>)
    requires |s| == BLOCK && |record| == BDR_SIZE && (Tidy(s) || Clean(record))
    ensures Found(PutIn(s, atEnd, record), !atEnd) in {Found(s, !atEnd), None}
  {
    var r := PutIn(s, atEnd, record);
    if atEnd {
      var size := Bytes(s[1]) / 4;
      assert r[0] == s[0] && r[1] == s[1] && r[3] == s[3];
      if SizeOk(Bytes(s[1])) && size > BLOCK - BDR_SIZE {
        assert r[size - 1] == record[size - 1 - (BLOCK - BDR_SIZE)];
      }
    } else {
      var from := BLOCK - Bytes(s[BLOCK - 2]) / 4;
      assert r[BLOCK - 1] == s[BLOCK - 1] && r[BLOCK - 2] == s[BLOCK - 2];
    }
  }

  lemma PutTidy(s: seq<word>, atEnd: bool, record: seq<word>, sequence: word)
    requires |s| == BLOCK && Framed(record, sequence) && Tidy(s)
    ensures Tidy(PutIn(s, atEnd, record))
  {
  }

  lemma SectionAfterPut(flash: seq<word>, blocks: nat, p: Place, record: seq<word>, c: nat)
    requires ValidFlash(flash, blocks) && p.b < blocks && c < blocks && |record| == BDR_SIZE
    ensures Section(Put(flash, blocks, p, record), blocks, c)
         == if c == p.b then PutIn(Section(flash, blocks, c), p.atEnd, record) else Section(flash, blocks, c)
  {
    var lo := c * BLOCK;
    assert lo + BLOCK <= blocks * BLOCK && Offset(p) + BDR_SIZE <= p.b * BLOCK + BLOCK <= blocks * BLOCK;
    if c == p.b {
      OverlayInside(flash, Offset(p), record, lo, lo + BLOCK);
      OverlayIsPutIn(Section(flash, blocks, c), p.atEnd, record);
    } else {
      OverlayOutside(flash, Offset(p), record, lo, lo + BLOCK);
    }
  }

  lemma OverlayInside(s: seq<word>, at: nat, data: seq<word>, lo: nat, hi: nat)
    requires lo <= at && at + |data| <= hi <= |s|
    ensures Overlay(s, at, data)[lo..hi] == Overlay(s[lo..hi], at - lo, data)
  {
  }

  lemma OverlayOutside(s: seq<word>, at: nat, data: seq<word>, lo: nat, hi: nat)
    requires at + |data| <= |s| && lo <= hi <= |s| && (hi <= at || at + |data| <= lo)
    ensures Overlay(s, at, data)[lo..hi] == s[lo..hi]
  {
  }

  lemma OverlayIsPutIn(s: seq<word>, atEnd: bool, record: seq<word>)
    requires |s| == BLOCK && |record| == BDR_SIZE
    ensures Overlay(s, if atEnd then BLOCK - BDR_SIZE else 0, record) == PutIn(s, atEnd, record)
  {
  }

  // ---- the scan picks the highest number

  lemma {:induction false} BestAtLeast(looks: seq<Look>, i: nat)
    requires i < |looks| && looks[i].found.Some?
    ensures looks[i].found.value <= Best(looks).sequence
  {
    var k := |looks| - 1;
    if i < k {
      BestAtLeast(looks[..k], i);
    }
  }

  lemma {:induction false} BestBelow(looks: seq<Look>, sequence: word)
    requires sequence > 0 && forall i :: 0 <= i < |looks| ==> looks[i].found.Some? ==> looks[i].found.value < sequence
    ensures Best(looks).sequence < sequence
  {
    if looks != [] {
      BestBelow(looks[..|looks| - 1], sequence);
    }
  }

  /** A number above all others is the one kept. */
  lemma {:induction false} BestPicks(looks: seq<Look>, i: nat, sequence: word)
    requires i < |looks| && looks[i].found == Some(sequence) && sequence > 0
    requires forall j :: 0 <= j < |looks| && j != i ==> looks[j].found.Some? ==> looks[j].found.value < sequence
    ensures Best(looks) == Scan(sequence, looks[i].boot)
  {
    var k := |looks| - 1;
    if i == k {
      BestBelow(looks[..k], sequence);
    } else {
      BestPicks(looks[..k], i, sequence);
    }
  }

  function LookIndex(b: nat, atEnd: bool): nat {
    2 * b + if atEnd then 1 else 0
  }

  lemma LooksHold(flash: seq<word>, blocks: nat, past: nat -> word, b: nat, atEnd: bool)
    requires ValidFlash(flash, blocks) && b < blocks
    ensures Looker(flash, blocks, past)(LookIndex(b, atEnd)) == LookAt(Section(flash, blocks, b), atEnd, past)
  {
    var j := LookIndex(b, atEnd);
    assert j / 2 == b && (j % 2 == 1 <==> atEnd);
  }

  lemma BestTwo(look: nat -> Look, n: nat)
    ensures Best(Looks(look, n + 2)) == Keep(Keep(Best(Looks(look, n)), look(n)), look(n + 1))
  {
    var a, b, c := Looks(look, n), Looks(look, n + 1), Looks(look, n + 2);
    assert c[..|c| - 1] == b && c[|c| - 1] == look(n + 1);
    assert b[..|b| - 1] == a && b[|b| - 1] == look(n);
  }

  lemma KeepsBoth(scan: Scan, s: seq<word>, past: nat -> word)
    requires |s| == BLOCK
    ensures ScanSection(scan, s, past) == Keep(Keep(scan, LookAt(s, false, past)), LookAt(s, true, past))
  {
  }

  /** One turn of the loop: a look at the beginning of the block and one at its end. */
  lemma ScanTurn(flash: seq<word>, blocks: nat, b: nat, past: nat -> word)
    requires ValidFlash(flash, blocks) && b < blocks
    ensures ScanBlocks(flash, blocks, b + 1, past)
         == ScanSection(ScanBlocks(flash, blocks, b, past), Section(flash, blocks, b), past)
  {
    var look: nat -> Look := Looker(flash, blocks, past);
    LooksHold(flash, blocks, past, b, false);
    LooksHold(flash, blocks, past, b, true);
    BestTwo(look, 2 * b);
    KeepsBoth(ScanBlocks(flash, blocks, b, past), Section(flash, blocks, b), past);
  }

  /** The scan ends with a number no smaller than any record's. */
  lemma {:induction false} ScanSeesAll(flash: seq<word>, blocks: nat, n: nat, past: nat -> word, c: nat, atEnd: bool)
    requires ValidFlash(flash, blocks) && c < n <= blocks
    requires Found(Section(flash, blocks, c), atEnd).Some?
    ensures Found(Section(flash, blocks, c), atEnd).value <= ScanBlocks(flash, blocks, n, past).sequence
  {
    var look: nat -> Look := Looker(flash, blocks, past);
    LooksHold(flash, blocks, past, c, atEnd);
    BestAtLeast(Looks(look, 2 * n), LookIndex(c, atEnd));
  }

  /** What is found at an end of a block is numbered below `sequence`. */
  predicate Below(s: seq<word>, atEnd: bool, sequence: word)
    requires |s| == BLOCK
  {
    Found(s, atEnd).Some? ==> Found(s, atEnd).value < sequence
  }

  /** Every record but the one at `p` is numbered below `sequence`. */
  predicate OthersBelow(flash: seq<word>, blocks: nat, p: Place, sequence: word)
    requires ValidFlash(flash, blocks)
  {
    forall c, atEnd :: 0 <= c < blocks && Place(c, atEnd) != p ==> Below(Section(flash, blocks, c), atEnd, sequence)
  }

  predicate AllBelow(flash: seq<word>, blocks: nat, sequence: word)
    requires ValidFlash(flash, blocks)
  {
    forall c, atEnd :: 0 <= c < blocks ==> Below(Section(flash, blocks, c), atEnd, sequence)
  }

  /** The record at a place, as the scan keeps it. */
  function Picked(flash: seq<word>, blocks: nat, p: Place, sequence: word, past: nat -> word): Scan
    requires ValidFlash(flash, blocks) && p.b < blocks
  {
    Scan(sequence, Parse(RecordBlock(Section(flash, blocks, p.b), p.atEnd), past))
  }

  lemma OtherLooksBelow(flash: seq<word>, blocks: nat, n: nat, past: nat -> word, p: Place, sequence: word, j: nat)
    requires ValidFlash(flash, blocks) && n <= blocks && OthersBelow(flash, blocks, p, sequence)
    requires j < 2 * n && j != LookIndex(p.b, p.atEnd)
    ensures var found := Looker(flash, blocks, past)(j).found; found.Some? ==> found.value < sequence
  {
    var c, atEnd := j / 2, j % 2 == 1;
    assert j == LookIndex(c, atEnd);
    LooksHold(flash, blocks, past, c, atEnd);
    assert Place(c, atEnd) != p && Below(Section(flash, blocks, c), atEnd, sequence);
  }

  /** A number above all others is the one the scan ends with. */
  lemma {:induction false} ScanPicks(flash: seq<word>, blocks: nat, n: nat, past: nat -> word, p: Place, sequence: word)
    requires ValidFlash(flash, blocks) && p.b < n <= blocks && sequence > 0
    requires Found(Section(flash, blocks, p.b), p.atEnd) == Some(sequence) && OthersBelow(flash, blocks, p, sequence)
    ensures ScanBlocks(flash, blocks, n, past) == Picked(flash, blocks, p, sequence, past)
  {
    var look: nat -> Look := Looker(flash, blocks, past);
    var i := LookIndex(p.b, p.atEnd);
    var looks := Looks(look, 2 * n);
    LooksHold(flash, blocks, past, p.b, p.atEnd);
    forall j | 0 <= j < |looks| && j != i
      ensures looks[j].found.Some? ==> looks[j].found.value < sequence
    {
      OtherLooksBelow(flash, blocks, n, past, p, sequence, j);
    }
    BestPicks(looks, i, sequence);
  }

  // ---- the log

  /** `bdr_seq + 1`, and the flash after writing a record with that number. */
  function NextSequence(flash: seq<word>, blocks: nat, past: nat -> word): word
    requires ValidFlash(flash, blocks)
  {
    (ScanAll(flash, blocks, past).sequence + 1) % WORD_MOD
  }

  datatype Write = Write(p: Place, addr: word, args: seq<word>, filler: seq<word>, past: nat -> word)

  predicate ValidWrite(w: Write, blocks: nat) {
    w.p.b < blocks && |w.args| == ARG_WORDS && |w.filler| == FILLER_WORDS
  }

  function NextRecord(flash: seq<word>, blocks: nat, w: Write): (r: seq<word>)
    requires ValidFlash(flash, blocks) && ValidWrite(w, blocks)
    ensures |r| == BDR_SIZE
  {
    Record(NextSequence(flash, blocks, w.past), w.addr, w.args, w.filler)
  }

  function Written(flash: seq<word>, blocks: nat, w: Write): (r: seq<word>)
    requires ValidFlash(flash, blocks) && ValidWrite(w, blocks)
    ensures ValidFlash(r, blocks)
  {
    Put(flash, blocks, w.p, NextRecord(flash, blocks, w))
  }

  lemma NextFramed(flash: seq<word>, blocks: nat, w: Write)
    requires ValidFlash(flash, blocks) && ValidWrite(w, blocks)
    ensures Framed(NextRecord(flash, blocks, w), NextSequence(flash, blocks, w.past))
  {
    RecordWords(NextSequence(flash, blocks, w.past), w.addr, w.args, w.filler);
  }

  lemma PutKeepsBelow(flash: seq<word>, blocks: nat, p: Place, record: seq<word>, sequence: word, c: nat, atEnd: bool)
    requires ValidFlash(flash, blocks) && p.b < blocks && c < blocks && |record| == BDR_SIZE && Place(c, atEnd) != p
    requires Tidy(Section(flash, blocks, p.b)) || Clean(record)
    requires Below(Section(flash, blocks, c), atEnd, sequence)
    ensures Below(Section(Put(flash, blocks, p, record), blocks, c), atEnd, sequence)
  {
    SectionAfterPut(flash, blocks, p, record, c);
    if c == p.b {
      OtherEndKept(Section(flash, blocks, c), p.atEnd, record);
    }
  }

  lemma PutFound(flash: seq<word>, blocks: nat, p: Place, record: seq<word>, sequence: word)
    requires ValidFlash(flash, blocks) && p.b < blocks && Framed(record, sequence)
    ensures var s := Section(Put(flash, blocks, p, record), blocks, p.b);
            Found(s, p.atEnd) == SequenceAt(sequence) && RecordBlock(s, p.atEnd) == record
  {
    SectionAfterPut(flash, blocks, p, record, p.b);
    FoundFramed(Section(flash, blocks, p.b), p.atEnd, record, sequence);
  }

  /** A record with a number above all others is the one found after putting it into the flash. */
  lemma PutThenScan(flash: seq<word>, blocks: nat, p: Place, record: seq<word>, sequence: word, past: nat -> word)
    requires ValidFlash(flash, blocks) && p.b < blocks && Framed(record, sequence) && 0 < sequence < NO_SEQUENCE
    requires Tidy(Section(flash, blocks, p.b)) || Clean(record)
    requires AllBelow(flash, blocks, sequence)
    ensures ScanAll(Put(flash, blocks, p, record), blocks, past) == Scan(sequence, Parse(record, past))
  {
    PutFound(flash, blocks, p, record, sequence);
    forall c, atEnd | 0 <= c < blocks && Place(c, atEnd) != p
      ensures Below(Section(Put(flash, blocks, p, record), blocks, c), atEnd, sequence)
    {
      PutKeepsBelow(flash, blocks, p, record, sequence, c, atEnd);
    }
    ScanPicks(Put(flash, blocks, p, record), blocks, blocks, past, p, sequence);
  }

  lemma NextIs(flash: seq<word>, blocks: nat, past: nat -> word)
    requires ValidFlash(flash, blocks) && ScanAll(flash, blocks, past).sequence < NO_SEQUENCE
    ensures 0 < NextSequence(flash, blocks, past) == ScanAll(flash, blocks, past).sequence + 1 <= NO_SEQUENCE
  {
  }

  lemma NextAboveAll(flash: seq<word>, blocks: nat, past: nat -> word, c: nat, atEnd: bool)
    requires ValidFlash(flash, blocks) && c < blocks && ScanAll(flash, blocks, past).sequence < NO_SEQUENCE
    ensures Below(Section(flash, blocks, c), atEnd, NextSequence(flash, blocks, past))
  {
    NextIs(flash, blocks, past);
    if Found(Section(flash, blocks, c), atEnd).Some? {
      ScanSeesAll(flash, blocks, blocks, past, c, atEnd);
    }
  }

  lemma NextAboveEach(flash: seq<word>, blocks: nat, past: nat -> word)
    requires ValidFlash(flash, blocks) && ScanAll(flash, blocks, past).sequence < NO_SEQUENCE
    ensures AllBelow(flash, blocks, NextSequence(flash, blocks, past))
  {
    forall c, atEnd | 0 <= c < blocks
      ensures Below(Section(flash, blocks, c), atEnd, NextSequence(flash, blocks, past))
    {
      NextAboveAll(flash, blocks, past, c, atEnd);
    }
  }

  lemma NextParses(flash: seq<word>, blocks: nat, w: Write, past: nat -> word)
    requires ValidFlash(flash, blocks) && ValidWrite(w, blocks)
    ensures Parse(NextRecord(flash, blocks, w), past) == Boot(w.addr, w.args)
  {
    RecordParses(NextSequence(flash, blocks, w.past), w.addr, w.args, w.filler, past);
  }

  /** One write, onto a flash with any contents: the next scan ends with it and recovers what was written, because a write
      takes a number above every record found. */
  lemma WriteThenScan(flash: seq<word>, blocks: nat, w: Write, past: nat -> word)
    requires ValidFlash(flash, blocks) && ValidWrite(w, blocks)
    requires ScanAll(flash, blocks, w.past).sequence + 1 < NO_SEQUENCE
    requires Tidy(Section(flash, blocks, w.p.b)) || Clean(NextRecord(flash, blocks, w))
    ensures ScanAll(Written(flash, blocks, w), blocks, past)
         == Scan(ScanAll(flash, blocks, w.past).sequence + 1, Boot(w.addr, w.args))
  {
    NextFramed(flash, blocks, w);
    NextParses(flash, blocks, w, past);
    NextIs(flash, blocks, w.past);
    NextAboveEach(flash, blocks, w.past);
    PutThenScan(flash, blocks, w.p, NextRecord(flash, blocks, w), NextSequence(flash, blocks, w.past), past);
  }

  predicate AllTidy(flash: seq<word>, blocks: nat)
    requires ValidFlash(flash, blocks)
  {
    forall c :: 0 <= c < blocks ==> Tidy(Section(flash, blocks, c))
  }

  function Erased(blocks: nat): (flash: seq<word>)
    ensures ValidFlash(flash, blocks)
  {
    seq(blocks * BLOCK, _ => NO_SEQUENCE)
  }

  lemma ErasedBlank(blocks: nat, b: nat)
    requires b < blocks
    ensures Blank(Section(Erased(blocks), blocks, b)) && Tidy(Section(Erased(blocks), blocks, b))
  {
    var s := Section(Erased(blocks), blocks, b);
    assert s[0] == NO_SEQUENCE && s[BLOCK - 1] == NO_SEQUENCE;
  }

  lemma ErasedTidy(blocks: nat)
    ensures AllTidy(Erased(blocks), blocks)
  {
    forall b | 0 <= b < blocks
      ensures Tidy(Section(Erased(blocks), blocks, b))
    {
      ErasedBlank(blocks, b);
    }
  }

  /** A scan of an erased flash finds nothing. */
  lemma {:induction false} ErasedHoldsNothing(blocks: nat, n: nat, past: nat -> word)
    requires n <= blocks
    ensures ScanBlocks(Erased(blocks), blocks, n, past) == Scan(0, Boot(NO_SEQUENCE, NoArgs()))
  {
    if n > 0 {
      ErasedHoldsNothing(blocks, n - 1, past);
      ErasedTurn(Erased(blocks), blocks, n - 1, past);
    }
  }

  lemma ErasedTurn(flash: seq<word>, blocks: nat, b: nat, past: nat -> word)
    requires b < blocks && flash == Erased(blocks)
    ensures ScanBlocks(flash, blocks, b + 1, past) == ScanBlocks(flash, blocks, b, past)
  {
    ScanTurn(flash, blocks, b, past);
    ErasedBlank(blocks, b);
    BlankKeeps(ScanBlocks(flash, blocks, b, past), Section(flash, blocks, b), past);
  }

  predicate Blank(s: seq<word>)
    requires |s| == BLOCK
  {
    s[0] == NO_SEQUENCE && s[BLOCK - 1] == NO_SEQUENCE
  }

  lemma BlankKeeps(scan: Scan, s: seq<word>, past: nat -> word)
    requires |s| == BLOCK && Blank(s)
    ensures ScanSection(scan, s, past) == scan
  {
  }

  function {:tailrecursion false} WriteAll(blocks: nat, ws: seq<Write>): (flash: seq<word>)
    requires forall i :: 0 <= i < |ws| ==> ValidWrite(ws[i], blocks)
    ensures ValidFlash(flash, blocks)
  {
    if ws == [] then Erased(blocks)
    else Written(WriteAll(blocks, ws[..|ws| - 1]), blocks, ws[|ws| - 1])
  }

  lemma WrittenTidy(flash: seq<word>, blocks: nat, w: Write)
    requires ValidFlash(flash, blocks) && ValidWrite(w, blocks) && AllTidy(flash, blocks)
    ensures AllTidy(Written(flash, blocks, w), blocks)
  {
    var record := NextRecord(flash, blocks, w);
    NextFramed(flash, blocks, w);
    forall c | 0 <= c < blocks
      ensures Tidy(Section(Written(flash, blocks, w), blocks, c))
    {
      SectionAfterPut(flash, blocks, w.p, record, c);
      PutTidy(Section(flash, blocks, c), w.p.atEnd, record, NextSequence(flash, blocks, w.past));
    }
  }

  /** Any run of writes from an erased flash: the scan counts them and recovers the last one, whatever the argument blocks
      and the unwritten parts of the records hold. */
  lemma {:induction false} LogKeepsLatest(blocks: nat, ws: seq<Write>, past: nat -> word)
    requires |ws| < NO_SEQUENCE && forall i :: 0 <= i < |ws| ==> ValidWrite(ws[i], blocks)
    ensures AllTidy(WriteAll(blocks, ws), blocks)
    ensures ScanAll(WriteAll(blocks, ws), blocks, past)
         == Scan(|ws|, if ws == [] then Boot(NO_SEQUENCE, NoArgs()) else Boot(ws[|ws| - 1].addr, ws[|ws| - 1].args))
  {
    if ws == [] {
      ErasedTidy(blocks);
      ErasedHoldsNothing(blocks, blocks, past);
    } else {
      var before, w := ws[..|ws| - 1], ws[|ws| - 1];
      LogKeepsLatest(blocks, before, w.past);
      WrittenTidy(WriteAll(blocks, before), blocks, w);
      WriteThenScan(WriteAll(blocks, before), blocks, w, past);
    }
  }

  // ---- the result of findbdr

  /** The boot address `findbdr(0)` puts into `bootcmd`, or nothing. The base of the flash is added to an offset inside it:
      the flash is at most 16 MB, so that or-ing is adding. */
  function BootCommand(scan: Scan, blocks: nat): Option<word>
    requires blocks <= 256
  {
    if scan.sequence == 0 || scan.boot.addr == NO_SEQUENCE || scan.boot.addr == 0 then None
    else Some(if scan.boot.addr < blocks * 0x1_0000 then scan.boot.addr + FLASH_START else scan.boot.addr)
  }

  /** A boot address survives the log just when it is not one of the two reserved words: an offset into the flash with the
      flash's address put in front, any other address as it is. */
  lemma {:induction false} LatestBoots(blocks: nat, ws: seq<Write>, past: nat -> word)
    requires 0 < |ws| < NO_SEQUENCE && blocks <= 256 && forall i :: 0 <= i < |ws| ==> ValidWrite(ws[i], blocks)
    ensures var last := ws[|ws| - 1];
            var scan := ScanAll(WriteAll(blocks, ws), blocks, past);
            && scan.boot.args == last.args
            && (BootCommand(scan, blocks).Some? <==> last.addr != 0 && last.addr != 0xFFFF_FFFF)
            && (last.addr != 0 && last.addr < blocks * 0x1_0000 ==>
                BootCommand(scan, blocks) == Some(last.addr + 0xBF00_0000))
            && (last.addr >= blocks * 0x1_0000 && last.addr != 0 && last.addr != 0xFFFF_FFFF ==>
                BootCommand(scan, blocks) == Some(last.addr))
  {
    LogKeepsLatest(blocks, ws, past);
  }

  /** What a flash without a record says: nothing to boot. */
  lemma NothingBoots(blocks: nat, past: nat -> word)
    requires blocks <= 256
    ensures BootCommand(ScanAll(Erased(blocks), blocks, past), blocks) == None
  {
    ErasedHoldsNothing(blocks, blocks, past);
  }

  // ---- the layout of a record, word for word

  /** The words that the writer lays out: the frame, and four tags with their numbers, names and sizes. */
  lemma RecordLayout(sequence: word, addr: word, args: seq<word>, filler: seq<word>)
    requires |args| == 128 && |filler| == 116
    ensures Record(sequence, addr, args, filler)
         == [0xFEED_CAFE, 256, 0, sequence, 0x0004_0002, 0, 0x0102_0002, addr, 0x0203_0081] + args + [0x0301_0001]
            + filler + [256, 0xFEED_FADE]
  {
  }

  /** What a tag of number `no`, name `name` and `words` words does, the tag word included: a wrong number, no words, a
      stop, a boot address not of one word or arguments of more than 129 words end the parse and leave what was set;
      a boot address takes the next word, arguments take up to 128 words, any other tag is skipped. */
  lemma {:induction false} TagTurn(block: seq<word>, past: nat -> word, p: nat, tags: nat, left: nat, boot: Boot,
                                   no: nat, name: nat, words: nat, args: seq<word>)
    requires no < 256 && name < 256 && words < 0x1_0000 && left > 0
    requires At(block, past, p) == no * 0x100_0000 + name * 0x1_0000 + words
    requires |boot.args| == |args|
    requires forall k :: 0 <= k < |args| ==> args[k] == if k + 1 < words then At(block, past, p + 1 + k) else boot.args[k]
    ensures ParseTags(block, past, p, tags, left, boot)
         == if no != tags || words == 0 || name == 1 || (name == 2 && words != 2) || (name == 3 && words > 130) then boot
            else ParseTags(block, past, p + words, tags + 1, left - 1,
                           if name == 2 then boot.(addr := At(block, past, p + 1))
                           else if name == 3 then boot.(args := args) else boot)
  {
    if words == 0 {
      LowField(no * 256 + name, 0);
    } else {
      TagFields(no, name, words);
      TagTaken(block, past, p, tags, boot, name, words, args);
    }
  }

  lemma TagTaken(block: seq<word>, past: nat -> word, p: nat, tags: nat, boot: Boot, name: nat, words: nat,
                 args: seq<word>)
    requires words > 0 && TagName(At(block, past, p)) == name && TagWords(At(block, past, p)) == words - 1
    requires |boot.args| == |args|
    requires forall k :: 0 <= k < |args| ==> args[k] == if k + 1 < words then At(block, past, p + 1 + k) else boot.args[k]
    ensures TagApplied(block, past, p, boot)
         == if name == 2 then boot.(addr := At(block, past, p + 1)) else if name == 3 then boot.(args := args) else boot
  {
    if name == 3 {
      assert CopyArgs(block, past, p + 1, words - 1, boot.args) == args;
    }
  }

  /** At which word a kilobyte is put. */
  lemma OffsetIs(b: nat)
    ensures Offset(Place(b, false)) == b * 0x4000 && Offset(Place(b, true)) == b * 0x4000 + 0x3F00
  {
  }

  /** A damaged frame hides a record: with any of the magic words gone, or a size that the other end does not repeat, no
      number is found; a record with its frame whole is found unless its number is 0 or 0xFFFFFFFF. */
  lemma {:induction false} FrameIff(s: seq<word>, atEnd: bool, record: seq<word>)
    requires |s| == BLOCK && |record| == 256 && record[1] == 256 && record[254] == 256
    ensures Found(PutIn(s, atEnd, record), atEnd)
         == if record[0] == 0xFEED_CAFE && record[255] == 0xFEED_FADE && record[3] != 0 && record[3] != 0xFFFF_FFFF
            then Some(record[3]) else None
  {
    var r := PutIn(s, atEnd, record);
    assert Bytes(BDR_SIZE) == 1024;
    if atEnd {
      assert forall k :: 0 <= k < BDR_SIZE ==> r[BLOCK - BDR_SIZE + k] == record[k];
    }
  }

  lemma WordsOf(size: word)
    ensures Bytes(size) == 4 * (size % 0x4000_0000) && Bytes(size) / 4 == size % 0x4000_0000
  {
    assert size == 0x4000_0000 * (size / 0x4000_0000) + size % 0x4000_0000;
  }

  /** What counts as a record of any size, at the beginning and at the end of a block: between 9 words and a block less
      one word, counted in 30 bits, closed by both magic words, the size repeated at its other end, and numbered neither
      0 nor 0xFFFFFFFF. */
  lemma {:induction false} FoundIff(s: seq<word>)
    requires |s| == 0x4000
    ensures var n := s[1] % 0x4000_0000;
            Found(s, false)
            == if s[0] == 0xFEED_CAFE && 8 < n < 0x4000 && s[n - 1] == 0xFEED_FADE && s[n - 2] % 0x4000_0000 == n
                  && s[3] != 0 && s[3] != 0xFFFF_FFFF
               then Some(s[3]) else None
    ensures var n := s[0x3FFE] % 0x4000_0000; var k := 0x4000 - n;
            Found(s, true)
            == if s[0x3FFF] == 0xFEED_FADE && 8 < n < 0x4000 && s[k] == 0xFEED_CAFE && s[k + 1] % 0x4000_0000 == n
                  && s[k + 3] != 0 && s[k + 3] != 0xFFFF_FFFF
               then Some(s[k + 3]) else None
  {
    var n, m := s[1] % 0x4000_0000, s[0x3FFE] % 0x4000_0000;
    WordsOf(s[1]);
    WordsOf(s[0x3FFE]);
    if 8 < n < 0x4000 { WordsOf(s[n - 2]); }
    if 8 < m < 0x4000 { WordsOf(s[0x4000 - m + 1]); }
  }

  /** Where the numbers run out: a record written with number 0xFFFFFFFF is not found again. */
  lemma LastNumberLost(flash: seq<word>, blocks: nat, w: Write)
    requires ValidFlash(flash, blocks) && ValidWrite(w, blocks)
    requires ScanAll(flash, blocks, w.past).sequence == NO_SEQUENCE - 1
    ensures Found(Section(Written(flash, blocks, w), blocks, w.p.b), w.p.atEnd) == None
  {
    NextFramed(flash, blocks, w);
    PutFound(flash, blocks, w.p, NextRecord(flash, blocks, w), NO_SEQUENCE);
  }
}
