/** Files of S-records of every type: what their lines decode to and what loading them stores. */
module SRecordFiles {
  import opened Common
  import opened SRecordCoding
  import opened SRecordTransfer

  /** A record of type `kind`, with the bytes of its address and its data. */
  datatype Rec = Rec(kind: char, address: seq<byte>, data: seq<byte>)

  /** S3 and S7 have four bytes of address, S2 and S8 three, S0, S1, S5 and S9 two; a count record has no data. */
  predicate ValidRec(r: Rec) {
    && (match r.kind
        case '0' => |r.address| == 2
        case '1' => |r.address| == 2
        case '2' => |r.address| == 3
        case '3' => |r.address| == 4
        case '5' => |r.address| == 2 && r.data == []
        case '7' => |r.address| == 4
        case '8' => |r.address| == 3
        case '9' => |r.address| == 2
        case _ => false)
    && |r.address| + |r.data| + 1 < 256
  }

  /** A record's line: "S", its type, the number of bytes that follow, these in hex, and a last byte `check`. */
  function LineOf(r: Rec, check: byte): string
    requires ValidRec(r)
  {
    ['S', r.kind] + HexDigits(|r.address| + |r.data| + 1, 2) + HexBytes(r.address + r.data + [check])
  }

  /** The last byte that makes all of them, the number included, sum to 255 modulo 256. */
  function CheckOf(r: Rec): byte {
    255 - (|r.address| + |r.data| + 1 + Sum(r.address) + Sum(r.data)) % 256
  }

  lemma BytesSum(r: Rec, check: byte)
    ensures Sum(r.address + r.data + [check]) == Sum(r.address) + Sum(r.data) + check
  {
    HexBytesConcat(r.address, r.data);
    SumSnoc(r.address + r.data, check);
  }

  lemma CompletesIff(n: nat, check: byte)
    ensures (n + check) % 256 == 255 <==> check == 255 - n % 256
  {
  }

  lemma Assembled(r: Rec, length: byte, check: byte, shape: Shape)
    requires ValidRec(r) && length == |r.address| + |r.data| + 1
    requires |r.address| == shape.address && DataCount(shape, length) == |r.data|
    ensures |r.address + r.data + [check]| == shape.address + Max(DataCount(shape, length), 0) + 1
    ensures Assemble(r.address + r.data + [check], length, shape)
         == if check == CheckOf(r) then Got(shape.kind, |r.data|, BigEndian(r.address), r.data) else Fail(-3)
  {
    var rest := r.address + r.data + [check];
    assert rest[..|r.address|] == r.address && rest[|r.address|..|rest| - 1] == r.data;
    BytesSum(r, check);
    CompletesIff(length + Sum(r.address) + Sum(r.data), check);
  }

  lemma ShapeFits(r: Rec, length: byte)
    requires ValidRec(r) && length == |r.address| + |r.data| + 1
    ensures ShapeOf(r.kind).Some? && r.kind != '\0'
    ensures var shape := ShapeOf(r.kind).value;
            |r.address| == shape.address && DataCount(shape, length) == |r.data|
            && shape.kind == r.kind as int - '0' as int
  {
  }

  /** The line of a record of any type decodes to its type, its address and its data when its last byte is right, and is
      refused for its checksum when it is any other. */
  lemma {:induction false} LineDecodes(r: Rec, check: byte)
    requires ValidRec(r)
    ensures Decode(LineOf(r, check))
         == if check == CheckOf(r) then Got(r.kind as int - '0' as int, |r.data|, BigEndian(r.address), r.data) else Fail(-3)
  {
    var s, length, rest := LineOf(r, check), |r.address| + |r.data| + 1, r.address + r.data + [check];
    ShapeFits(r, length);
    LineReads(s, r.kind, length, rest);
    LineHead(s, r.kind, HexDigits(length, 2), HexBytes(rest));
    Assembled(r, length, check, ShapeOf(r.kind).value);
    DecodeReads(s, r.kind, length, rest, ShapeOf(r.kind).value);
  }

  /** A line of any other type is refused, as is one whose number is not in hex; one without a record is passed over. */
  lemma {:induction false} LineRefused(s: string, v: char)
    requires |s| >= 2 && s[0] == 'S' && s[1] == v && v != '\0'
    ensures Pair(s, 2).None? ==> Decode(s) == Fail(-2)
    ensures Pair(s, 2).Some? && !(v in {'0', '1', '2', '3', '5', '7', '8', '9'}) ==> Decode(s) == Fail(-1)
  {
    assert SkipS(s, 0) == 1;
  }

  lemma {:induction false} NoRecord(s: string, i: nat)
    requires i <= |s| && forall k :: i <= k < |s| ==> s[k] != 'S' && s[k] != '\0'
    ensures SkipS(s, i) == |s|
    ensures i == 0 ==> Decode(s) == Empty
    decreases |s| - i
  {
    if i < |s| {
      NoRecord(s, i + 1);
    }
  }

  /** The digits of both cases and nothing else are hex. */
  lemma HexValIs(d: nat, c: char)
    requires d < 16
    ensures HexVal("0123456789ABCDEF"[d]) == d && HexVal("0123456789abcdef"[d]) == d
    ensures HexVal(c) >= 0 <==> c in "0123456789ABCDEF" || c in "0123456789abcdef"
  {
    if HexVal(c) >= 0 {
      assert c == "0123456789ABCDEF"[HexVal(c)] || c == "0123456789abcdef"[HexVal(c)];
    }
  }

  // ---- whole files

  predicate AllValid(rs: seq<Rec>) {
    forall i :: 0 <= i < |rs| ==> ValidRec(rs[i])
  }

  function LinesOf(rs: seq<Rec>): seq<string>
    requires AllValid(rs)
  {
    if rs == [] then [] else [LineOf(rs[0], CheckOf(rs[0]))] + LinesOf(rs[1..])
  }

  /** A record's address, highest byte first. */
  function AddressOf(r: Rec): word
    requires ValidRec(r)
  {
    BigEndianBound(r.address);
    BigEndian(r.address)
  }

  /** What the S1, S2 and S3 records of a file ask for: their data at their address plus the offset, in order. */
  function Stored(rs: seq<Rec>, offset: word): seq<Chunk>
    requires AllValid(rs)
  {
    if rs == [] then []
    else
      (if rs[0].kind in {'1', '2', '3'}
       then [Chunk((AddressOf(rs[0]) + offset) % 0x1_0000_0000, |rs[0].data|, rs[0].data)] else [])
      + Stored(rs[1..], offset)
  }

  /** No record ends the file. */
  predicate Goes(rs: seq<Rec>) {
    AllValid(rs) && forall i :: 0 <= i < |rs| ==> !(rs[i].kind in {'7', '8', '9'})
  }

  lemma {:induction false} BigEndianBound(bs: seq<byte>)
    requires |bs| <= 4
    ensures BigEndian(bs) < 0x1_0000_0000
    ensures |bs| <= 3 ==> BigEndian(bs) < 0x100_0000
    ensures |bs| <= 2 ==> BigEndian(bs) < 0x1_0000
    ensures |bs| <= 1 ==> BigEndian(bs) < 0x100
  {
    if bs != [] {
      BigEndianBound(bs[..|bs| - 1]);
    }
  }

  /** What one record does to a load. */
  lemma RecordLoads(r: Rec, ds: seq<Decoded>, offset: word, refused: set<word>, chunks: seq<Chunk>)
    requires ValidRec(r)
    ensures var d := Decode(LineOf(r, CheckOf(r)));
            var more := Stored([r], offset);
            LoadAll([d] + ds, offset, refused, chunks)
            == if r.kind in {'7', '8', '9'} then Loaded(chunks, AddressOf(r))
               else if more != [] && more[0].at in refused then Aborted
               else LoadAll(ds, offset, refused, chunks + more)
  {
    var kind := Digit(r);
    StoredOne(r, offset);
    GotLoads(kind, |r.data|, AddressOf(r), r.data, ds, offset, refused, chunks, Stored([r], offset));
  }

  /** A record decodes to the number of its type. */
  lemma Digit(r: Rec) returns (kind: nat)
    requires ValidRec(r)
    ensures Decode(LineOf(r, CheckOf(r))) == Got(kind, |r.data|, AddressOf(r), r.data) && kind < 10
    ensures (kind in {1, 2, 3} <==> r.kind in {'1', '2', '3'}) && (kind in {7, 8, 9} <==> r.kind in {'7', '8', '9'})
  {
    kind := r.kind as int - '0' as int;
    LineDecodes(r, CheckOf(r));
    DigitRange(r);
  }

  lemma StoredOne(r: Rec, offset: word)
    requires ValidRec(r)
    ensures Stored([r], offset)
         == if r.kind in {'1', '2', '3'} then [Chunk((AddressOf(r) + offset) % 0x1_0000_0000, |r.data|, r.data)] else []
  {
    assert Stored([r][1..], offset) == [];
  }

  lemma DigitRange(r: Rec)
    requires ValidRec(r)
    ensures var d := r.kind as int - '0' as int;
            && 0 <= d < 10 && (d in {1, 2, 3} <==> r.kind in {'1', '2', '3'})
            && (d in {7, 8, 9} <==> r.kind in {'7', '8', '9'})
  {
  }

  lemma GotLoads(kind: nat, count: dataCount, address: word, data: seq<byte>, ds: seq<Decoded>, offset: word,
                 refused: set<word>, chunks: seq<Chunk>, more: seq<Chunk>)
    requires kind < 10
    requires more == if kind in {1, 2, 3} then [Chunk((address + offset) % 0x1_0000_0000, count, data)] else []
    ensures LoadAll([Got(kind, count, address, data)] + ds, offset, refused, chunks)
         == if kind in {7, 8, 9} then Loaded(chunks, address)
            else if more != [] && more[0].at in refused then Aborted
            else LoadAll(ds, offset, refused, chunks + more)
  {
    assert ([Got(kind, count, address, data)] + ds)[1..] == ds;
    assert chunks + [] == chunks;
    AheadOf(address, offset);
  }

  lemma AheadOf(a: word, n: word)
    ensures Ahead(a, n) == (a + n) % 0x1_0000_0000
  {
    AheadIsModular(a, n);
  }

  lemma StoredCons(rs: seq<Rec>, offset: word)
    requires AllValid(rs) && rs != []
    ensures Stored(rs, offset) == Stored([rs[0]], offset) + Stored(rs[1..], offset)
  {
    assert Stored([rs[0]][1..], offset) == [];
  }

  lemma {:induction false} RecordsLoad(rs: seq<Rec>, rest: seq<string>, offset: word, refused: set<word>, chunks: seq<Chunk>)
    requires Goes(rs)
    ensures LoadAll(DecodeAll(LinesOf(rs) + rest), offset, refused, chunks)
         == if Accepted(Stored(rs, offset), refused)
            then LoadAll(DecodeAll(rest), offset, refused, chunks + Stored(rs, offset)) else Aborted
  {
    if rs == [] {
      assert LinesOf(rs) + rest == rest && chunks + Stored(rs, offset) == chunks;
    } else {
      FirstLoads(rs, rest, offset, refused, chunks);
      StoredSplit(rs, offset, refused, chunks);
      RecordsLoad(rs[1..], rest, offset, refused, chunks + Stored([rs[0]], offset));
    }
  }

  lemma StoredSplit(rs: seq<Rec>, offset: word, refused: set<word>, chunks: seq<Chunk>)
    requires AllValid(rs) && rs != []
    ensures var more := Stored([rs[0]], offset);
            && chunks + Stored(rs, offset) == (chunks + more) + Stored(rs[1..], offset)
            && (Accepted(Stored(rs, offset), refused)
                <==> !(more != [] && more[0].at in refused) && Accepted(Stored(rs[1..], offset), refused))
  {
    var more, others := Stored([rs[0]], offset), Stored(rs[1..], offset);
    StoredCons(rs, offset);
    StoredOne(rs[0], offset);
    AcceptedParts(more, others, refused);
    Regroup(chunks, more, others);
  }

  lemma Regroup(a: seq<Chunk>, b: seq<Chunk>, c: seq<Chunk>)
    ensures a + (b + c) == (a + b) + c
  {
  }

  lemma FirstLoads(rs: seq<Rec>, rest: seq<string>, offset: word, refused: set<word>, chunks: seq<Chunk>)
    requires Goes(rs) && rs != []
    ensures var more := Stored([rs[0]], offset);
            LoadAll(DecodeAll(LinesOf(rs) + rest), offset, refused, chunks)
            == if more != [] && more[0].at in refused then Aborted
               else LoadAll(DecodeAll(LinesOf(rs[1..]) + rest), offset, refused, chunks + more)
  {
    var line := LineOf(rs[0], CheckOf(rs[0]));
    assert LinesOf(rs) + rest == [line] + (LinesOf(rs[1..]) + rest);
    DecodeCons(line, LinesOf(rs[1..]) + rest, Decode(line));
    RecordLoads(rs[0], DecodeAll(LinesOf(rs[1..]) + rest), offset, refused, chunks);
  }

  lemma AcceptedParts(a: seq<Chunk>, b: seq<Chunk>, refused: set<word>)
    requires |a| <= 1
    ensures Accepted(a + b, refused) <==> !(a != [] && a[0].at in refused) && Accepted(b, refused)
  {
    assert forall k :: 0 <= k < |a| ==> (a + b)[k] == a[k];
    assert forall k :: 0 <= k < |b| ==> (a + b)[|a| + k] == b[k];
  }

  lemma LineSendable(r: Rec, check: byte)
    requires ValidRec(r)
    ensures Sendable(LineOf(r, check))
  {
    var bs, head := r.address + r.data + [check], HexDigits(|r.address| + |r.data| + 1, 2);
    HexPlain(bs);
    HeadPlain(|r.address| + |r.data| + 1);
    PlainParts(['S', r.kind], head, HexBytes(bs));
  }

  predicate AllPlain(s: string) {
    forall k :: 0 <= k < |s| ==> Plain(s[k])
  }

  lemma HexPlain(bs: seq<byte>)
    ensures AllPlain(HexBytes(bs))
  {
    forall k | 0 <= k < 2 * |bs|
      ensures Plain(HexBytes(bs)[k])
    {
      BytesPlain(bs, k);
    }
  }

  lemma HeadPlain(v: nat)
    ensures AllPlain(HexDigits(v, 2))
  {
    HexDigitsPlain(v, 2, 0);
    HexDigitsPlain(v, 2, 1);
  }

  lemma PlainParts(a: string, b: string, c: string)
    requires AllPlain(a) && AllPlain(b) && AllPlain(c)
    ensures AllPlain(a + b + c)
  {
  }

  lemma {:induction false} LinesSendable(rs: seq<Rec>)
    requires AllValid(rs)
    ensures AllSendable(LinesOf(rs))
  {
    if rs != [] {
      LineSendable(rs[0], CheckOf(rs[0]));
      LinesSendable(rs[1..]);
    }
  }

  lemma SendableConcat(a: seq<string>, b: seq<string>)
    requires AllSendable(a) && AllSendable(b)
    ensures AllSendable(a + b)
  {
  }

  /** A file of records of any types, closed by an S7, S8 or S9 record: unless flash refuses one of them, the data of its
      S1, S2 and S3 records is stored, in order, at their addresses plus the offset, and the address of the last record
      is given back. What follows is not looked at. */
  lemma {:induction false} FileLoads(rs: seq<Rec>, end: Rec, more: seq<string>, offset: word, refused: set<word>)
    requires Goes(rs) && ValidRec(end) && end.kind in {'7', '8', '9'} && AllSendable(more)
    ensures LoadSerial(Sent(LinesOf(rs) + ([LineOf(end, CheckOf(end))] + more)), offset, refused)
         == if Accepted(Stored(rs, offset), refused) then Loaded(Stored(rs, offset), AddressOf(end)) else Aborted
  {
    var last := LineOf(end, CheckOf(end));
    var rest := [last] + more;
    LinesSendable(rs);
    LineSendable(end, CheckOf(end));
    SendableConcat([last], more);
    SendableConcat(LinesOf(rs), rest);
    ReadAllSent(LinesOf(rs) + rest);
    RecordsLoad(rs, rest, offset, refused, []);
    DecodeCons(last, more, Decode(last));
    RecordLoads(end, DecodeAll(more), offset, refused, Stored(rs, offset));
    assert [] + Stored(rs, offset) == Stored(rs, offset);
  }

  /** A line that cannot be decoded in front of the end aborts the load, as does a file that never ends. */
  lemma {:induction false} BadLineAborts(rs: seq<Rec>, line: string, more: seq<string>, offset: word, refused: set<word>)
    requires Goes(rs) && AllSendable(more)
    ensures Sendable(line) && Decode(line).Fail?
            ==> LoadSerial(Sent(LinesOf(rs) + ([line] + more)), offset, refused) == Aborted
    ensures LoadSerial(Sent(LinesOf(rs)), offset, refused) == Aborted
  {
    LinesSendable(rs);
    if Sendable(line) && Decode(line).Fail? {
      SendableConcat([line], more);
      SendableConcat(LinesOf(rs), [line] + more);
      ReadAllSent(LinesOf(rs) + ([line] + more));
      RecordsLoad(rs, [line] + more, offset, refused, []);
      DecodeCons(line, more, Decode(line));
    }
    assert LinesOf(rs) + [] == LinesOf(rs);
    ReadAllSent(LinesOf(rs));
    RecordsLoad(rs, [], offset, refused, []);
  }

  // ---- lines as they arrive

  /** A line longer than 516 characters is cut there, and the rest is taken for the next line. */
  lemma {:induction false} LongLineCut(input: string, i: nat, room: nat)
    requires i + room <= |input| && forall k :: i <= k < i + room ==> input[k] > '\r'
    ensures ReadRecord(input, i, room) == Line(input[i..i + room], i + room)
    ensures room == 516 ==> ReadLines(input, i) == [input[i..i + 516]] + ReadLines(input, i + 516)
    decreases room
  {
    if room > 0 {
      LongLineCut(input, i + 1, room - 1);
      assert input[i..i + room] == [input[i]] + input[i + 1..i + room];
    }
  }

  /** A NUL or a Control-C ends the reading, with the line it stands in. */
  lemma {:induction false} BreaksOff(input: string, i: nat, k: nat, room: nat)
    requires i <= k < |input| && k < i + room && (input[k] == '\0' || input[k] as int == 3)
    requires forall j :: i <= j < k ==> input[j] > '\r'
    ensures ReadRecord(input, i, room) == Broken
    ensures room == 516 ==> ReadLines(input, i) == []
    decreases room
  {
    if i < k {
      BreaksOff(input, i + 1, k, room - 1);
    }
  }

  // ---- one record character for character

  lemma ExampleSums()
    ensures Checksum(7, 0x8000_1000, [0x41, 0x42]) == 0xE5
  {
    Four(0x80, 0, 0x10, 0);
    Two(0x41, 0x42);
  }

  lemma ExampleDigits()
    ensures HexDigits(7, 2) == "07" && HexDigits(0x80, 2) == "80" && HexDigits(0, 2) == "00"
    ensures HexDigits(0x10, 2) == "10" && HexDigits(0x41, 2) == "41" && HexDigits(0x42, 2) == "42"
    ensures HexDigits(0xE5, 2) == "E5"
  {
    HexPair(7);
    HexPair(0x80);
    HexPair(0);
    HexPair(0x10);
    HexPair(0x41);
    HexPair(0x42);
    HexPair(0xE5);
  }

  /** The line for the bytes 0x41 and 0x42 at address 0x80001000. */
  lemma RecordExample()
    ensures RecordLine(0x8000_1000, [0x41, 0x42]) == "S3" + "07" + ("80" + "00" + "10" + "00") + ("41" + "42") + "E5"
  {
    ExampleSums();
    ExampleParts();
    LineParts(0x8000_1000, [0x41, 0x42], 0xE5, "07", "80" + "00" + "10" + "00", "41" + "42", "E5");
  }

  lemma ExampleParts()
    ensures HexDigits(7, 2) == "07" && HexDigits(0x8000_1000, 8) == "80" + "00" + "10" + "00"
    ensures HexBytes([0x41, 0x42]) == "41" + "42" && HexDigits(0xE5, 2) == "E5"
  {
    ExampleDigits();
    AddressDigits(0x8000_1000);
    Four(0x80, 0, 0x10, 0);
    Two(0x41, 0x42);
  }

  lemma LineParts(address: word, data: seq<byte>, check: byte, a: string, b: string, c: string, d: string)
    requires |data| == 2 && check == Checksum(7, address, data)
    requires HexDigits(7, 2) == a && HexDigits(address, 8) == b && HexBytes(data) == c && HexDigits(check, 2) == d
    ensures RecordLine(address, data) == "S3" + a + b + c + d
  {
  }
}
