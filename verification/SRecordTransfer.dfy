/** Saving a range of memory as S-records and loading S-records into memory (save_serial and load_serial of cmd_load.c). */
module SRecordTransfer {
  import opened Common
  import opened SRecordCoding

  // ---- saving

  function Run(count: nat): (n: nat)
    ensures n <= PER_RECORD && n <= count && (count > 0 ==> n > 0)
  {
    if count < PER_RECORD then count else PER_RECORD
  }

  /** The data records for `bytes`, which lie at address `a`. */
  function Records(a: word, bytes: seq<byte>): seq<string>
    decreases |bytes|
  {
    var n := Run(|bytes|);
    if bytes == [] then [] else [RecordLine(a, bytes[..n])] + Records(Ahead(a, n), bytes[n..])
  }

  /** Every line `save_serial` sends. */
  function Lines(a: word, bytes: seq<byte>): seq<string> {
    [START_LINE] + Records(a, bytes) + [END_LINE]
  }

  /** Lines on the wire. */
  function Sent(lines: seq<string>): string {
    if lines == [] then "" else lines[0] + "\n" + Sent(lines[1..])
  }

  lemma Advance(a: nat, m: nat, n: nat)
    ensures ((a + m) % WORD_MOD + n) % WORD_MOD == (a + m + n) % WORD_MOD
  {
    assert a + m == WORD_MOD * ((a + m) / WORD_MOD) + (a + m) % WORD_MOD;
  }

  /** The bytes of the i-th run. */
  function RunAt(bytes: seq<byte>, i: nat): seq<byte>
    requires PER_RECORD * i < |bytes|
  {
    bytes[PER_RECORD * i..PER_RECORD * i + Run(|bytes| - PER_RECORD * i)]
  }

  lemma SliceSlice(s: seq<byte>, n: nat, lo: nat, hi: nat)
    requires n + lo <= n + hi <= |s|
    ensures s[n..][lo..hi] == s[n + lo..n + hi]
  {
  }

  lemma RunAtShift(bytes: seq<byte>, i: nat)
    requires 0 < i && PER_RECORD * i < |bytes|
    ensures RunAt(bytes, i) == RunAt(bytes[PER_RECORD..], i - 1)
  {
    var lo := PER_RECORD * (i - 1);
    SliceSlice(bytes, PER_RECORD, lo, lo + Run(|bytes| - PER_RECORD - lo));
  }

  lemma RunAtFirst(bytes: seq<byte>)
    requires bytes != []
    ensures RunAt(bytes, 0) == bytes[..Run(|bytes|)]
  {
  }

  /** The address of the i-th run. */
  function RunAddress(a: word, i: nat): word {
    (a + PER_RECORD * i) % WORD_MOD
  }

  lemma RunAddressFirst(a: word)
    ensures RunAddress(a, 0) == a
  {
  }

  lemma RunAddressShift(a: word, i: nat)
    requires i > 0
    ensures RunAddress(a, i) == RunAddress(Ahead(a, PER_RECORD), i - 1)
  {
    AheadIsModular(a, PER_RECORD);
    Advance(a, PER_RECORD, PER_RECORD * (i - 1));
  }

  /** Line `i` of a list starts with this address and holds this data. */
  predicate IsRecord(lines: seq<string>, i: nat, address: word, data: seq<byte>) {
    i < |lines| && lines[i] == RecordLine(address, data)
  }

  lemma RecordsFirst(a: word, bytes: seq<byte>)
    requires bytes != []
    ensures IsRecord(Records(a, bytes), 0, a, bytes[..Run(|bytes|)])
  {
    var others := Records(Ahead(a, Run(|bytes|)), bytes[Run(|bytes|)..]);
    assert Records(a, bytes) == [RecordLine(a, bytes[..Run(|bytes|)])] + others;
  }

  lemma RecordsNext(a: word, bytes: seq<byte>, i: nat, address: word, data: seq<byte>)
    requires |bytes| > PER_RECORD && IsRecord(Records(Ahead(a, PER_RECORD), bytes[PER_RECORD..]), i, address, data)
    ensures IsRecord(Records(a, bytes), i + 1, address, data)
  {
    var others := Records(Ahead(a, PER_RECORD), bytes[PER_RECORD..]);
    assert Records(a, bytes) == [RecordLine(a, bytes[..PER_RECORD])] + others;
  }

  /** A run's address and its bytes. */
  lemma RunsAre(a: word, bytes: seq<byte>, i: nat)
    requires PER_RECORD * i < |bytes|
    ensures PER_RECORD == 16 && RunAddress(a, i) == (a + 16 * i) % 0x1_0000_0000
    ensures RunAt(bytes, i) == if |bytes| < 16 * i + 16 then bytes[16 * i..] else bytes[16 * i..16 * i + 16]
  {
  }

  /** The records cover the range in order: the i-th one starts 16 * i bytes into it and holds the next 16 bytes, or what
      is left of them. */
  lemma {:induction false} RecordsCover(a: word, bytes: seq<byte>, i: nat)
    requires PER_RECORD * i < |bytes|
    ensures IsRecord(Records(a, bytes), i, RunAddress(a, i), RunAt(bytes, i))
    decreases i
  {
    if i == 0 {
      RecordsFirst(a, bytes);
      RunAtFirst(bytes);
      RunAddressFirst(a);
    } else {
      var a', bytes' := Ahead(a, PER_RECORD), bytes[PER_RECORD..];
      RecordsCover(a', bytes', i - 1);
      RunAtShift(bytes, i);
      RunAddressShift(a, i);
      RecordsNext(a, bytes, i - 1, RunAddress(a', i - 1), RunAt(bytes', i - 1));
    }
  }

  lemma {:induction false} RecordsCount(a: word, bytes: seq<byte>)
    ensures |Records(a, bytes)| == (|bytes| + 15) / 16
    decreases |bytes|
  {
    if bytes != [] {
      RecordsCount(Ahead(a, Run(|bytes|)), bytes[Run(|bytes|)..]);
    }
  }

  // ---- loading

  const LINE_ROOM := 516             // SREC_MAXRECLEN

  datatype Input = Broken | Line(text: string, next: nat)

  /** `read_record` from position `i` of what the console delivers; a console that falls silent is one that breaks off. */
  function ReadRecord(input: string, i: nat, room: nat): (r: Input)
    requires i <= |input|
    ensures r.Line? ==> i <= r.next <= |input| && (room > 0 ==> i < r.next)
    decreases room
  {
    if room == 0 then Line("", i)
    else if i == |input| then Broken
    else if input[i] == '\r' || input[i] == '\n' then Line("", i + 1)
    else if input[i] == '\0' || input[i] as int == 3 then Broken
    else
      var rest := ReadRecord(input, i + 1, room - 1);
      if rest.Broken? then Broken else Line([input[i]] + rest.text, rest.next)
  }

  /** The lines read from position `i` on until the input breaks off. */
  function ReadLines(input: string, i: nat): seq<string>
    requires i <= |input|
    decreases |input| - i
  {
    match ReadRecord(input, i, LINE_ROOM)
    case Broken => []
    case Line(text, next) => [text] + ReadLines(input, next)
  }

  function DecodeAll(lines: seq<string>): seq<Decoded> {
    if lines == [] then [] else [Decode(lines[0])] + DecodeAll(lines[1..])
  }

  /** The data of one record, stored at address `at`; a record whose length is too short for its type has a negative
      count and no data. */
  datatype Chunk = Chunk(at: word, count: dataCount, data: seq<byte>)

  /** What was stored, in order, and the address of the end record. */
  datatype Load = Aborted | Loaded(chunks: seq<Chunk>, address: word)

  predicate IsData(kind: nat) {
    kind in {SREC_DATA2, SREC_DATA3, SREC_DATA4}
  }

  predicate IsEnd(kind: nat) {
    kind in {SREC_END2, SREC_END3, SREC_END4}
  }

  /** `load_serial` on decoded records; at `refused` addresses flash_write fails. */
  function LoadAll(ds: seq<Decoded>, offset: word, refused: set<word>, chunks: seq<Chunk>): Load
    decreases ds
  {
    if ds == [] || ds[0].Fail? then Aborted
    else if ds[0].Empty? then LoadAll(ds[1..], offset, refused, chunks)
    else if IsData(ds[0].kind) then
      var at := Ahead(ds[0].address % WORD_MOD, offset);
      if at in refused then Aborted
      else LoadAll(ds[1..], offset, refused, chunks + [Chunk(at, ds[0].count, ds[0].data)])
    else if IsEnd(ds[0].kind) then Loaded(chunks, ds[0].address % WORD_MOD)
    else LoadAll(ds[1..], offset, refused, chunks)
  }

  function LoadSerial(input: string, offset: word, refused: set<word>): Load {
    LoadAll(DecodeAll(ReadLines(input, 0)), offset, refused, [])
  }

  // ---- reading the lines that were sent

  predicate Plain(c: char) {
    c > '\r'
  }

  /** A line that arrives whole. */
  predicate Sendable(line: string) {
    |line| < LINE_ROOM && forall k :: 0 <= k < |line| ==> Plain(line[k])
  }

  predicate AllSendable(lines: seq<string>) {
    forall k :: 0 <= k < |lines| ==> Sendable(lines[k])
  }

  lemma {:induction false} ReadPlain(input: string, i: nat, text: string, room: nat)
    requires i + |text| < |input| && input[i..i + |text| + 1] == text + "\n" && |text| < room
    requires forall k :: 0 <= k < |text| ==> Plain(text[k])
    ensures ReadRecord(input, i, room) == Line(text, i + |text| + 1)
    decreases text
  {
    assert input[i] == (text + "\n")[0];
    if text != [] {
      assert input[i + 1..i + |text| + 1] == input[i..i + |text| + 1][1..] == text[1..] + "\n";
      ReadPlain(input, i + 1, text[1..], room - 1);
      assert text == [text[0]] + text[1..];
    }
  }

  lemma ReadLinesStep(input: string, i: nat, line: string, next: nat)
    requires i < next <= |input| && ReadRecord(input, i, LINE_ROOM) == Line(line, next)
    ensures ReadLines(input, i) == [line] + ReadLines(input, next)
  {
  }

  lemma SliceLine(input: string, i: nat, line: string, rest: string)
    requires i <= |input| && input[i..] == (line + "\n") + rest
    ensures i + |line| < |input| && input[i..i + |line| + 1] == line + "\n" && input[i + |line| + 1..] == rest
  {
    assert input[i..i + |line| + 1] == input[i..][..|line| + 1];
    assert input[i + |line| + 1..] == input[i..][|line| + 1..];
  }

  lemma {:induction false} ReadSent(input: string, i: nat, lines: seq<string>)
    requires AllSendable(lines) && i <= |input| && input[i..] == Sent(lines)
    ensures ReadLines(input, i) == lines
    decreases lines
  {
    if lines == [] {
      assert i == |input|;
    } else {
      var line, next := lines[0], i + |lines[0]| + 1;
      SliceLine(input, i, line, Sent(lines[1..]));
      ReadPlain(input, i, line, LINE_ROOM);
      ReadLinesStep(input, i, line, next);
      ReadSent(input, next, lines[1..]);
    }
  }

  lemma {:induction false} BytesPlain(bs: seq<byte>, k: nat)
    requires k < 2 * |bs|
    ensures Plain(HexBytes(bs)[k])
  {
    if k < 2 * (|bs| - 1) {
      BytesPlain(bs[..|bs| - 1], k);
    } else {
      HexDigitsPlain(bs[|bs| - 1], 2, k - 2 * (|bs| - 1));
    }
  }

  lemma RecordSendable(a: word, data: seq<byte>)
    requires |data| <= PER_RECORD
    ensures Sendable(RecordLine(a, data))
  {
    RecordIsBytes(a, data);
    var bs := RecordBytes(a, data);
    forall k | 0 <= k < 2 * |bs|
      ensures Plain(HexBytes(bs)[k])
    {
      BytesPlain(bs, k);
    }
  }

  lemma {:induction false} RecordsSendable(a: word, bytes: seq<byte>)
    ensures AllSendable(Records(a, bytes))
    decreases |bytes|
  {
    if bytes != [] {
      var n := Run(|bytes|);
      RecordSendable(a, bytes[..n]);
      RecordsSendable(Ahead(a, n), bytes[n..]);
    }
  }

  // ---- decoding them

  function Expected(a: word, bytes: seq<byte>): seq<Decoded>
    decreases |bytes|
  {
    var n := Run(|bytes|);
    if bytes == [] then [] else [Got(SREC_DATA4, n, a, bytes[..n])] + Expected(Ahead(a, n), bytes[n..])
  }

  lemma DecodeCons(line: string, lines: seq<string>, d: Decoded)
    requires Decode(line) == d
    ensures DecodeAll([line] + lines) == [d] + DecodeAll(lines)
  {
    assert ([line] + lines)[1..] == lines;
  }

  lemma {:induction false} DecodeRecords(a: word, bytes: seq<byte>, last: string)
    ensures DecodeAll(Records(a, bytes) + [last]) == Expected(a, bytes) + [Decode(last)]
    decreases |bytes|
  {
    if bytes == [] {
      DecodeCons(last, [], Decode(last));
      assert Records(a, bytes) + [last] == [last] + [];
    } else {
      var n := Run(|bytes|);
      DecodeRecords(Ahead(a, n), bytes[n..], last);
      DecodeOneMore(a, bytes[..n], Records(Ahead(a, n), bytes[n..]), last, Expected(Ahead(a, n), bytes[n..]));
    }
  }

  lemma DecodeOneMore(a: word, data: seq<byte>, records: seq<string>, last: string, expected: seq<Decoded>)
    requires |data| <= PER_RECORD && DecodeAll(records + [last]) == expected + [Decode(last)]
    ensures DecodeAll(([RecordLine(a, data)] + records) + [last])
         == ([Got(SREC_DATA4, |data|, a, data)] + expected) + [Decode(last)]
  {
    DecodeWritten(a, data);
    DecodeCons(RecordLine(a, data), records + [last], Got(SREC_DATA4, |data|, a, data));
    assert ([RecordLine(a, data)] + records) + [last] == [RecordLine(a, data)] + (records + [last]);
  }

  // ---- loading them

  /** `bytes` stored from address `b` on, in runs. */
  function Chunks(b: word, bytes: seq<byte>): seq<Chunk>
    decreases |bytes|
  {
    var n := Run(|bytes|);
    if bytes == [] then [] else [Chunk(b, n, bytes[..n])] + Chunks(Ahead(b, n), bytes[n..])
  }

  predicate Accepted(chunks: seq<Chunk>, refused: set<word>) {
    forall k :: 0 <= k < |chunks| ==> chunks[k].at !in refused
  }

  lemma OffsetAdvance(a: word, offset: word, n: nat)
    requires n <= PER_RECORD
    ensures Ahead(Ahead(a, n), offset) == Ahead(Ahead(a, offset), n)
  {
  }

  lemma LoadData(a: word, n: dataCount, data: seq<byte>, ds: seq<Decoded>, offset: word, refused: set<word>,
                 chunks: seq<Chunk>)
    requires Ahead(a, offset) !in refused
    ensures LoadAll([Got(SREC_DATA4, n, a, data)] + ds, offset, refused, chunks)
         == LoadAll(ds, offset, refused, chunks + [Chunk(Ahead(a, offset), n, data)])
  {
    assert ([Got(SREC_DATA4, n, a, data)] + ds)[1..] == ds;
  }

  lemma AcceptedCons(c: Chunk, chunks: seq<Chunk>, refused: set<word>)
    requires Accepted([c] + chunks, refused)
    ensures c.at !in refused && Accepted(chunks, refused)
  {
    assert ([c] + chunks)[0] == c;
    assert forall k :: 0 <= k < |chunks| ==> chunks[k] == ([c] + chunks)[k + 1];
  }

  lemma LoadRun(a: word, n: dataCount, data: seq<byte>, ds: seq<Decoded>, rest: seq<Decoded>, offset: word,
                refused: set<word>, chunks: seq<Chunk>)
    requires Ahead(a, offset) !in refused
    ensures LoadAll(([Got(SREC_DATA4, n, a, data)] + ds) + rest, offset, refused, chunks)
         == LoadAll(ds + rest, offset, refused, chunks + [Chunk(Ahead(a, offset), n, data)])
  {
    assert ([Got(SREC_DATA4, n, a, data)] + ds) + rest == [Got(SREC_DATA4, n, a, data)] + (ds + rest);
    LoadData(a, n, data, ds + rest, offset, refused, chunks);
  }

  lemma {:induction false} LoadExpected(a: word, bytes: seq<byte>, rest: seq<Decoded>, offset: word, refused: set<word>,
                                        chunks: seq<Chunk>)
    requires Accepted(Chunks(Ahead(a, offset), bytes), refused)
    ensures LoadAll(Expected(a, bytes) + rest, offset, refused, chunks)
         == LoadAll(rest, offset, refused, chunks + Chunks(Ahead(a, offset), bytes))
    decreases |bytes|
  {
    var b := Ahead(a, offset);
    if bytes == [] {
      assert chunks + Chunks(b, bytes) == chunks;
      assert Expected(a, bytes) + rest == rest;
    } else {
      var n := Run(|bytes|);
      var a', c, others := Ahead(a, n), Chunk(b, n, bytes[..n]), Chunks(Ahead(b, n), bytes[n..]);
      OffsetAdvance(a, offset, n);
      AcceptedCons(c, others, refused);
      LoadRun(a, n, bytes[..n], Expected(a', bytes[n..]), rest, offset, refused, chunks);
      LoadExpected(a', bytes[n..], rest, offset, refused, chunks + [c]);
      assert (chunks + [c]) + others == chunks + ([c] + others);
    }
  }

  lemma LoadStart(ds: seq<Decoded>, offset: word, refused: set<word>, chunks: seq<Chunk>)
    ensures LoadAll([Got(SREC_START, 0, 0, [])] + ds, offset, refused, chunks) == LoadAll(ds, offset, refused, chunks)
  {
    assert ([Got(SREC_START, 0, 0, [])] + ds)[1..] == ds;
  }

  /** Loading what a save sends stores the saved bytes, run by run, at the saved address plus the offset. */
  lemma {:induction false} LoadSaved(a: word, bytes: seq<byte>, offset: word, refused: set<word>)
    requires Accepted(Chunks(Ahead(a, offset), bytes), refused)
    ensures LoadSerial(Sent(Lines(a, bytes)), offset, refused) == Loaded(Chunks(Ahead(a, offset), bytes), 0)
  {
    LinesSendable(a, bytes);
    ReadAllSent(Lines(a, bytes));
    DecodeLines(a, bytes);
    LoadDecoded(a, bytes, offset, refused);
  }

  lemma LinesSendable(a: word, bytes: seq<byte>)
    ensures AllSendable(Lines(a, bytes))
  {
    RecordsSendable(a, bytes);
  }

  lemma ReadAllSent(lines: seq<string>)
    requires AllSendable(lines)
    ensures ReadLines(Sent(lines), 0) == lines
  {
    assert Sent(lines)[0..] == Sent(lines);
    ReadSent(Sent(lines), 0, lines);
  }

  lemma LoadDecoded(a: word, bytes: seq<byte>, offset: word, refused: set<word>)
    requires Accepted(Chunks(Ahead(a, offset), bytes), refused)
    ensures LoadAll([Got(SREC_START, 0, 0, [])] + (Expected(a, bytes) + [Got(SREC_END4, 0, 0, [])]), offset, refused, [])
         == Loaded(Chunks(Ahead(a, offset), bytes), 0)
  {
    var end := Got(SREC_END4, 0, 0, []);
    LoadStart(Expected(a, bytes) + [end], offset, refused, []);
    LoadExpected(a, bytes, [end], offset, refused, []);
    assert [] + Chunks(Ahead(a, offset), bytes) == Chunks(Ahead(a, offset), bytes);
  }

  lemma DecodeLines(a: word, bytes: seq<byte>)
    ensures DecodeAll(Lines(a, bytes))
         == [Got(SREC_START, 0, 0, [])] + (Expected(a, bytes) + [Got(SREC_END4, 0, 0, [])])
  {
    DecodeStart();
    DecodeEnd();
    DecodeRecords(a, bytes, END_LINE);
    DecodeCons(START_LINE, Records(a, bytes) + [END_LINE], Got(SREC_START, 0, 0, []));
    assert Lines(a, bytes) == [START_LINE] + (Records(a, bytes) + [END_LINE]);
  }
}
