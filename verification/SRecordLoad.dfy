/** `load_serial` and the decoder it calls as they run, on a line buffer, a data buffer and the address space. */
module SRecordLoad {
  import opened Common
  import opened SRecordCoding
  import opened SRecordTransfer
  import opened SRecordMemory
  import opened SRecordSave

  /** Bytes read from position `i` on. */
  predicate BytesRead(s: string, i: nat, bytes: seq<byte>) {
    forall k :: 0 <= k < |bytes| ==> PairAt(s, i, k) == Some(bytes[k])
  }

  lemma {:induction false} PairsRest(s: string, i: nat, bytes: seq<byte>)
    requires BytesRead(s, i, bytes)
    ensures Pairs(s, i, |bytes|) == Some(bytes)
  {
    if bytes != [] {
      PairsRest(s, i, bytes[..|bytes| - 1]);
      assert bytes == bytes[..|bytes| - 1] + [bytes[|bytes| - 1]];
    }
  }

  lemma {:induction false} PairsFail(s: string, i: nat, n: nat, k: nat)
    requires k < n && PairAt(s, i, k).None?
    ensures Pairs(s, i, n).None?
  {
    if k < n - 1 {
      PairsFail(s, i, n - 1, k);
    }
  }

  /** The running sum is kept in a byte. */
  lemma SumStep(length: nat, bytes: seq<byte>, b: byte)
    ensures (length + Sum(bytes + [b])) % 256 == ((length + Sum(bytes)) % 256 + b) % 256
  {
    SumSnoc(bytes, b);
    AddMod(length + Sum(bytes), b);
  }

  lemma AddMod(x: nat, b: nat)
    ensures (x + b) % 256 == (x % 256 + b) % 256
  {
  }

  /** The decoder's pointer and checksum after reading `bytes` of a record behind its length. */
  predicate Reading(s: string, start: nat, length: byte, i: nat, chksum: byte, bytes: seq<byte>) {
    i == start + 2 * |bytes| && BytesRead(s, start, bytes) && chksum == (length + Sum(bytes)) % 256
  }

  lemma ReadingStep(s: string, start: nat, length: byte, i: nat, chksum: byte, bytes: seq<byte>, v: byte)
    requires Reading(s, start, length, i, chksum, bytes) && Pair(s, i) == Some(v)
    ensures Reading(s, start, length, i + 2, (chksum as int + v) % 256, bytes + [v])
  {
    SumStep(length, bytes, v);
    assert PairAt(s, start, |bytes|) == Some(v);
  }

  /** The checksum byte closes a record when the whole sums to 0xFF. */
  lemma ChecksumTest(length: byte, bytes: seq<byte>, chksum: byte, v: byte)
    requires chksum == (length + Sum(bytes)) % 256
    ensures v == 255 - chksum <==> (length + Sum(bytes + [v])) % 256 == 255
  {
    SumStep(length, bytes, v);
  }

  class Loader {
    const mem: array<byte>
    const binbuf: array<byte>
    const record: array<char>

    ghost predicate Valid()
      reads this
    {
      mem.Length == WORD_MOD && binbuf.Length == 255 && record.Length == LINE_ROOM + 1 && mem != binbuf
    }

    /** `hex2_bin` behind a string pointer. */
    method Hex2Bin(s: string, i: nat) returns (v: int)
      ensures v >= 0 <==> Pair(s, i).Some?
      ensures v >= 0 ==> Pair(s, i) == Some(v)
    {
      var hi := HexVal(CharAt(s, i));
      if hi < 0 { return -1; }
      var lo := HexVal(CharAt(s, i + 1));
      if lo < 0 { return -1; }
      return hi * 16 + lo;
    }

    /** Shift one more byte into the address. */
    method AddressByte(s: string, start: nat, length: byte, i: nat, address: nat, chksum: byte, ghost bytes: seq<byte>)
        returns (ok: bool, i': nat, address': nat, chksum': byte, ghost bytes': seq<byte>)
      requires Reading(s, start, length, i, chksum, bytes) && address == BigEndian(bytes)
      ensures |bytes'| == |bytes| + 1
      ensures ok ==> Reading(s, start, length, i', chksum', bytes') && address' == BigEndian(bytes')
      ensures !ok ==> PairAt(s, start, |bytes|).None?
    {
      var v := Hex2Bin(s, i);
      ok, i', address', chksum', bytes' := v >= 0, i, address, chksum, bytes + [0];
      if ok {
        bytes' := bytes + [v];
        Snoc(bytes, v);
        ReadingStep(s, start, length, i, chksum, bytes, v);
        address' := address * 256 + v;
        chksum' := (chksum as int + v) % 256;
        i' := i + 2;
      }
    }

    /** The address field; the cases of a record type fall through to those of shorter addresses. */
    method ReadAddress(s: string, start: nat, length: byte, v: char, ghost n: nat)
        returns (ok: bool, i: nat, address: nat, chksum: byte, ghost bytes: seq<byte>)
      requires 2 <= n <= 4 && (v in {'3', '7'} <==> n == 4) && (v in {'3', '7', '2', '8'} <==> n >= 3)
      ensures ok ==> |bytes| == n && Reading(s, start, length, i, chksum, bytes) && address == BigEndian(bytes)
      ensures !ok ==> 0 < |bytes| <= n && PairAt(s, start, |bytes| - 1).None?
    {
      ok, i, address, chksum, bytes := true, start, 0, length, [];
      if v in {'3', '7'} {
        ok, i, address, chksum, bytes := AddressByte(s, start, length, i, address, chksum, bytes);
        if !ok { return; }
      }
      if v in {'3', '7', '2', '8'} {
        ok, i, address, chksum, bytes := AddressByte(s, start, length, i, address, chksum, bytes);
        if !ok { return; }
      }
      ok, i, address, chksum, bytes := AddressByte(s, start, length, i, address, chksum, bytes);
      if !ok { return; }
      ok, i, address, chksum, bytes := AddressByte(s, start, length, i, address, chksum, bytes);
    }

    /** The data field, into the data buffer. */
    method ReadData(s: string, start: nat, length: byte, n: dataCount, i0: nat, chksum0: byte, ghost front: seq<byte>)
        returns (ok: bool, i: nat, chksum: byte, ghost bytes: seq<byte>)
      requires Valid() && Reading(s, start, length, i0, chksum0, front)
      modifies binbuf
      ensures front <= bytes && |bytes| <= |front| + Max(n, 0)
      ensures ok ==> Reading(s, start, length, i, chksum, bytes) && |bytes| == |front| + Max(n, 0)
                     && binbuf[..Max(n, 0)] == bytes[|front|..]
      ensures !ok ==> |bytes| < |front| + Max(n, 0) && PairAt(s, start, |bytes|).None?
    {
      ok, i, chksum, bytes := true, i0, chksum0, front;
      var k: nat := 0;
      while k < n
        invariant k <= Max(n, 0) && |bytes| == |front| + k && front <= bytes
        invariant Reading(s, start, length, i, chksum, bytes) && binbuf[..k] == bytes[|front|..]
      {
        var v := Hex2Bin(s, i);
        if v < 0 { return false, i, chksum, bytes; }
        ReadingStep(s, start, length, i, chksum, bytes, v);
        binbuf[k] := v;
        chksum := (chksum as int + v) % 256;
        bytes := bytes + [v];
        i := i + 2;
        k := k + 1;
      }
    }

    /** What `srec_decode` leaves behind for its result. */
    ghost predicate Decoding(d: Decoded, kind: int, count: dataCount, address: nat)
      requires Valid()
      reads this, binbuf
    {
      match d
      case Fail(c) => kind == c
      case Empty => kind == SREC_EMPTY
      case Got(k, c, a, data) => kind == k && count == c && address == a && |data| == Max(c, 0) && binbuf[..|data|] == data
    }

    /** `srec_decode`. */
    method SrecDecode(s: string) returns (kind: int, count: dataCount, address: nat)
      requires Valid()
      modifies binbuf
      ensures Decoding(Decode(s), kind, count, address)
    {
      count, address := 0, 0;
      var i: nat := 0;
      while CharAt(s, i) != '\0' && s[i] != 'S'
        invariant i <= |s| && SkipS(s, i) == SkipS(s, 0)
        decreases |s| - i
      {
        i := i + 1;
      }
      if CharAt(s, i) != '\0' { i := i + 1; }
      if CharAt(s, i) == '\0' { return SREC_EMPTY, 0, 0; }
      var v := s[i];
      var length := Hex2Bin(s, i + 1);
      if length < 0 { return SREC_E_NOSREC, 0, 0; }
      var shape := ShapeOf(v);
      if shape.None? { return SREC_E_BADTYPE, 0, 0; }
      kind, count, address := DecodeFields(s, i + 3, length, v, shape.value);
    }

    /** Everything behind a record's length. */
    method DecodeFields(s: string, start: nat, length: byte, v: char, shape: Shape)
        returns (kind: int, count: dataCount, address: nat)
      requires Valid() && ShapeOf(v) == Some(shape)
      modifies binbuf
      ensures Decoding(DecodeBody(s, start, length, shape), kind, count, address)
    {
      count := DataCount(shape, length);
      ghost var front, bytes;
      var ok, i, chksum;
      ok, i, address, chksum, front := ReadAddress(s, start, length, v, shape.address);
      if !ok {
        BodyBroken(s, start, length, shape, |front| - 1);
        return SREC_E_NOSREC, 0, 0;
      }
      ok, i, chksum, bytes := ReadData(s, start, length, count, i, chksum, front);
      var check := Hex2Bin(s, i);
      if !ok || check < 0 {
        BodyBroken(s, start, length, shape, |bytes|);
        return SREC_E_NOSREC, 0, 0;
      }
      BodyRead(s, start, length, i, shape, chksum, bytes, check);
      assert bytes[..shape.address] == front;
      kind := if check != 255 - chksum then SREC_E_BADCHKS else shape.kind;
    }

    /** `read_record`: the next line into the line buffer; -1 when the input breaks off. */
    method NextRecord(input: string, i: nat) returns (len: int, next: nat)
      requires Valid() && i <= |input|
      modifies record
      ensures len < 0 <==> ReadRecord(input, i, LINE_ROOM).Broken?
      ensures len >= 0 ==> ReadRecord(input, i, LINE_ROOM) == Line(CString(record[..]), next)
    {
      next := i;
      var p: nat := 0;
      ghost var line := ReadRecord(input, i, LINE_ROOM);
      PrependNothing(record[..0], line);
      while p < LINE_ROOM
        invariant p <= LINE_ROOM && next == i + p <= |input|
        invariant forall k :: 0 <= k < p ==> record[k] != '\0'
        invariant Prepend(record[..p], ReadRecord(input, next, LINE_ROOM - p)) == line
      {
        var ended, ok := TakeChar(input, next, p, line);
        if ended && !ok { return -1, next; }
        next := next + 1;
        if ended { return p, next; }
        p := p + 1;
      }
      LineFull(record[..p], input, next);
      record[p] := '\0';
      RecordEnds(p);
      return p, next;
    }

    /** One turn of the reading loop. */
    method TakeChar(input: string, next: nat, p: nat, ghost line: Input) returns (ended: bool, ok: bool)
      requires Valid() && next <= |input| && p < LINE_ROOM && forall k :: 0 <= k < p ==> record[k] != '\0'
      requires Prepend(record[..p], ReadRecord(input, next, LINE_ROOM - p)) == line
      modifies record
      ensures ended && !ok ==> line == Broken
      ensures !ended || ok ==> next < |input|
      ensures ended && ok ==> line == Line(CString(record[..]), next + 1)
      ensures !ended ==> forall k :: 0 <= k < p + 1 ==> record[k] != '\0'
      ensures !ended ==> Prepend(record[..p + 1], ReadRecord(input, next + 1, LINE_ROOM - p - 1)) == line
    {
      ended, ok := true, false;
      if next == |input| { return; }
      var c := input[next];
      if c == '\r' || c == '\n' {
        record[p] := '\0';
        RecordEnds(p);
        assert record[..p] + [] == record[..p];
        return true, true;
      }
      if c == '\0' || c as int == 3 { return; }
      PrependStep(record[..p], c, ReadRecord(input, next + 1, LINE_ROOM - p - 1));
      KeepChar(p, c);
      return false, true;
    }

    /** A character of the line. */
    method KeepChar(p: nat, c: char)
      requires Valid() && p < LINE_ROOM && c != '\0' && forall k :: 0 <= k < p ==> record[k] != '\0'
      modifies record
      ensures record[..p + 1] == old(record[..p]) + [c]
      ensures forall k :: 0 <= k < p + 1 ==> record[k] != '\0'
    {
      record[p] := c;
      assert record[..p + 1] == record[..p] + [c];
    }

    lemma RecordEnds(p: nat)
      requires Valid() && p < record.Length && record[p] == '\0' && forall k :: 0 <= k < p ==> record[k] != '\0'
      ensures CString(record[..]) == record[..p]
    {
      CStringIs(record[..], p);
      assert record[..][..p] == record[..p];
    }

    /** memcpy of a record's data to an address. */
    method Copy(at: word, n: nat)
      requires Valid() && n <= 255
      modifies mem
      ensures mem[..] == StoreBytes(old(mem[..]), at, binbuf[..n])
    {
      var k: nat := 0;
      while k < n
        invariant k <= n && mem[..] == StoreBytes(old(mem[..]), at, binbuf[..k])
      {
        ghost var before := mem[..];
        mem[(at + k) % WORD_MOD] := binbuf[k];
        assert binbuf[..k + 1][..k] == binbuf[..k];
        assert mem[..] == before[(at + k) % WORD_MOD := binbuf[k]];
        k := k + 1;
      }
    }

    /** What is stored and seen after `chunks`. */
    ghost predicate After(mem0: seq<byte>, chunks: seq<Chunk>, start: word, end: word)
      requires Valid()
      reads this, mem
    {
      |mem0| == WORD_MOD && mem[..] == StoreChunks(mem0, chunks) && Range(start, end) == SeenAll(NOTHING_SEEN, chunks)
    }

    /** A data record. */
    method StoreRecord(at: word, count: dataCount, start: word, end: word, ghost data: seq<byte>, ghost mem0: seq<byte>,
                       ghost chunks: seq<Chunk>) returns (start': word, end': word)
      requires Valid() && After(mem0, chunks, start, end) && |data| == Max(count, 0) && binbuf[..|data|] == data
      modifies mem
      ensures After(mem0, chunks + [Chunk(at, count, data)], start', end')
    {
      start', end' := start, end;
      Copy(at, Max(count, 0));
      if at < start { start' := at; }
      var last := Ahead(at, count - 1);
      if last > end { end' := last; }
      StoreSnoc(mem0, chunks, Chunk(at, count, data));
      SeenSnoc(NOTHING_SEEN, chunks, Chunk(at, count, data));
    }

    /** Read and decode a line. */
    method NextDecoded(input: string, i: nat)
        returns (ok: bool, next: nat, kind: int, count: dataCount, address: nat, ghost d: Decoded, ghost rest: seq<Decoded>)
      requires Valid() && i <= |input|
      modifies binbuf, record
      ensures !ok ==> DecodeAll(ReadLines(input, i)) == []
      ensures ok ==> i < next <= |input| && Decoding(d, kind, count, address) && (d.Fail? ==> kind < 0)
      ensures ok ==> DecodeAll(ReadLines(input, i)) == [d] + rest && rest == DecodeAll(ReadLines(input, next))
    {
      kind, count, address, d, rest := 0, 0, 0, Empty, [];
      var len;
      len, next := NextRecord(input, i);
      ok := len >= 0;
      if ok {
        var line := CString(record[..]);
        LinesStep(input, i, line, next);
        d, rest := Decode(line), DecodeAll(ReadLines(input, next));
        FailIsNegative(line);
        kind, count, address := SrecDecode(line);
      }
    }

    /** What `load_serial` does with one decoded record; without `go` it returns. */
    method Handle(kind: int, count: dataCount, address: nat, offset: word, refused: set<word>, start: word, end: word,
                  ghost d: Decoded, ghost rest: seq<Decoded>, ghost mem0: seq<byte>, ghost chunks: seq<Chunk>)
        returns (go: bool, result: Option<word>, size: word, start': word, end': word, ghost chunks': seq<Chunk>)
      requires Valid() && After(mem0, chunks, start, end) && Decoding(d, kind, count, address) && (d.Fail? ==> kind < 0)
      modifies mem
      ensures After(mem0, chunks', start', end')
      ensures go ==> LoadAll([d] + rest, offset, refused, chunks) == LoadAll(rest, offset, refused, chunks')
      ensures !go ==> LoadAll([d] + rest, offset, refused, chunks)
                      == if result.None? then Aborted else Loaded(chunks', result.value)
      ensures !go && result.Some? ==> size == Size(Range(start', end'))
    {
      LoadStep(d, rest, offset, refused, chunks);
      go, result, size, start', end', chunks' := true, None, 0, start, end, chunks;
      if kind < 0 {
        go := false;
      } else if kind in {SREC_DATA2, SREC_DATA3, SREC_DATA4} {
        var at := Ahead(address % WORD_MOD, offset);
        if at in refused {
          go := false;
        } else {
          start', end' := StoreRecord(at, count, start, end, d.data, mem0, chunks);
          chunks' := chunks + [Chunk(at, count, d.data)];
        }
      } else if kind in {SREC_END2, SREC_END3, SREC_END4} {
        size := (end - start + 1) % WORD_MOD;
        go, result := false, Some(address % WORD_MOD);
      }
    }

    /** `load_serial`: the address of the end record and the size reported, or nothing. */
    method Load(input: string, offset: word, refused: set<word>) returns (result: Option<word>, size: word)
      requires Valid()
      modifies mem, binbuf, record
      ensures match LoadSerial(input, offset, refused)
              case Aborted => result == None
              case Loaded(chunks, address) =>
                result == Some(address) && mem[..] == StoreChunks(old(mem[..]), chunks)
                && size == Size(SeenAll(NOTHING_SEEN, chunks))
    {
      var start: word, end: word, i: nat, go := WORD_MOD - 1, 0, 0, true;
      ghost var chunks: seq<Chunk>, load := [], LoadSerial(input, offset, refused);
      ghost var ds := DecodeAll(ReadLines(input, 0));
      while true
        invariant i <= |input| && ds == DecodeAll(ReadLines(input, i)) && After(old(mem[..]), chunks, start, end)
        invariant LoadAll(ds, offset, refused, chunks) == load
        decreases |input| - i
      {
        ghost var d, rest;
        var ok, next, kind, count, address;
        ok, next, kind, count, address, d, rest := NextDecoded(input, i);
        if !ok { return None, 0; }
        go, result, size, start, end, chunks :=
          Handle(kind, count, address, offset, refused, start, end, d, rest, old(mem[..]), chunks);
        if !go { return; }
        i := next;
        ds := rest;
      }
    }
  }

  lemma FailIsNegative(s: string)
    ensures Decode(s).Fail? ==> Decode(s).code < 0
  {
  }

  lemma LoadStep(d: Decoded, rest: seq<Decoded>, offset: word, refused: set<word>, chunks: seq<Chunk>)
    ensures d.Fail? ==> LoadAll([d] + rest, offset, refused, chunks) == Aborted
    ensures d.Empty? ==> LoadAll([d] + rest, offset, refused, chunks) == LoadAll(rest, offset, refused, chunks)
    ensures d.Got? && IsData(d.kind) ==>
              var at := Ahead(d.address % WORD_MOD, offset);
              LoadAll([d] + rest, offset, refused, chunks)
              == if at in refused then Aborted
                 else LoadAll(rest, offset, refused, chunks + [Chunk(at, d.count, d.data)])
    ensures d.Got? && IsEnd(d.kind) ==> LoadAll([d] + rest, offset, refused, chunks) == Loaded(chunks, d.address % WORD_MOD)
    ensures d.Got? && !IsData(d.kind) && !IsEnd(d.kind) ==>
              LoadAll([d] + rest, offset, refused, chunks) == LoadAll(rest, offset, refused, chunks)
  {
    assert ([d] + rest)[1..] == rest;
  }

  /** Characters put before what is read behind them. */
  function Prepend(front: string, r: Input): Input {
    if r.Broken? then Broken else Line(front + r.text, r.next)
  }

  lemma PrependNothing(front: string, r: Input)
    requires front == []
    ensures Prepend(front, r) == r
  {
    if r.Line? {
      assert front + r.text == r.text;
    }
  }

  lemma LineFull(front: string, input: string, i: nat)
    requires i <= |input|
    ensures Prepend(front, ReadRecord(input, i, 0)) == Line(front, i)
  {
    assert front + [] == front;
  }

  lemma PrependStep(front: string, c: char, r: Input)
    ensures Prepend(front + [c], r) == Prepend(front, if r.Broken? then Broken else Line([c] + r.text, r.next))
  {
    if r.Line? {
      assert (front + [c]) + r.text == front + ([c] + r.text);
    }
  }

  lemma LinesStep(input: string, i: nat, line: string, next: nat)
    requires i <= |input| && ReadRecord(input, i, LINE_ROOM) == Line(line, next)
    ensures DecodeAll(ReadLines(input, i)) == [Decode(line)] + DecodeAll(ReadLines(input, next))
  {
    DecodeCons(line, ReadLines(input, next), Decode(line));
  }

  lemma BodyBroken(s: string, start: nat, length: byte, shape: Shape, k: nat)
    requires k < shape.address + Max(DataCount(shape, length), 0) + 1 && PairAt(s, start, k).None?
    ensures DecodeBody(s, start, length, shape) == Fail(SREC_E_NOSREC)
  {
    PairsFail(s, start, shape.address + Max(DataCount(shape, length), 0) + 1, k);
  }

  lemma BodyRead(s: string, start: nat, length: byte, i: nat, shape: Shape, chksum: byte, bytes: seq<byte>, v: byte)
    requires |bytes| == shape.address + Max(DataCount(shape, length), 0)
    requires Reading(s, start, length, i, chksum, bytes) && Pair(s, i) == Some(v)
    ensures DecodeBody(s, start, length, shape)
         == if v != 255 - chksum then Fail(SREC_E_BADCHKS)
            else Got(shape.kind, DataCount(shape, length), BigEndian(bytes[..shape.address]), bytes[shape.address..])
  {
    AllRead(s, start, length, i, chksum, bytes, v);
    BodyDecodes(s, start, length, bytes + [v], shape);
    AssembleRead(bytes, v, length, shape, chksum);
  }

  lemma AllRead(s: string, start: nat, length: byte, i: nat, chksum: byte, bytes: seq<byte>, v: byte)
    requires Reading(s, start, length, i, chksum, bytes) && Pair(s, i) == Some(v)
    ensures Pairs(s, start, |bytes + [v]|) == Some(bytes + [v])
  {
    ReadingStep(s, start, length, i, chksum, bytes, v);
    PairsRest(s, start, bytes + [v]);
  }

  lemma AssembleRead(bytes: seq<byte>, v: byte, length: byte, shape: Shape, chksum: byte)
    requires |bytes| == shape.address + Max(DataCount(shape, length), 0) && chksum == (length + Sum(bytes)) % 256
    ensures Assemble(bytes + [v], length, shape)
         == if v != 255 - chksum then Fail(SREC_E_BADCHKS)
            else Got(shape.kind, DataCount(shape, length), BigEndian(bytes[..shape.address]), bytes[shape.address..])
  {
    ChecksumTest(length, bytes, chksum, v);
    assert (bytes + [v])[..shape.address] == bytes[..shape.address];
    assert (bytes + [v])[shape.address..|bytes|] == bytes[shape.address..];
  }
}
