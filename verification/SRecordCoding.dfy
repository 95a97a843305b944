/** Motorola S-records as text: the writer's format (cmd_load.c) and the decoder's reading (s_record.c). */
module SRecordCoding {
  import opened Common

  const DIGITS := "0123456789ABCDEF"
  const PER_RECORD := 16

  const SREC_START := 0
  const SREC_DATA2 := 1
  const SREC_DATA3 := 2
  const SREC_DATA4 := 3
  const SREC_COUNT := 5
  const SREC_END4 := 7
  const SREC_END3 := 8
  const SREC_END2 := 9
  const SREC_EMPTY := 10
  const SREC_E_BADTYPE := -1
  const SREC_E_NOSREC := -2
  const SREC_E_BADCHKS := -3

  // ---- the writer's text

  function HexDigit(d: nat): char
    requires d < 16
  {
    DIGITS[d]
  }

  /** `%0nX` of a value that fits. */
  function HexDigits(v: nat, n: nat): (s: string)
    ensures |s| == n
  {
    if n == 0 then "" else HexDigits(v / 16, n - 1) + [HexDigit(v % 16)]
  }

  function HexBytes(bs: seq<byte>): (s: string)
    ensures |s| == 2 * |bs|
  {
    if bs == [] then "" else HexBytes(bs[..|bs| - 1]) + HexDigits(bs[|bs| - 1], 2)
  }

  function AddressBytes(a: word): seq<byte> {
    [a / 0x100_0000, a / 0x1_0000 % 256, a / 0x100 % 256, a % 256]
  }

  function Checksum(length: nat, address: word, data: seq<byte>): byte {
    255 - (length + Sum(AddressBytes(address)) + Sum(data)) % 256
  }

  /** The line written for a run of memory. */
  function RecordLine(address: word, data: seq<byte>): (s: string)
    ensures |s| == 14 + 2 * |data|
  {
    var length := 5 + |data|;
    "S3" + HexDigits(length, 2) + HexDigits(address, 8) + HexBytes(data) + HexDigits(Checksum(length, address, data), 2)
  }

  // ---- the decoder's reading

  function HexVal(c: char): (v: int)
    ensures -1 <= v < 16
  {
    if '0' <= c <= '9' then c as int - '0' as int
    else if 'a' <= c <= 'f' then c as int + 10 - 'a' as int
    else if 'A' <= c <= 'F' then c as int + 10 - 'A' as int
    else -1
  }

  /** A character of a NUL-terminated string. */
  function CharAt(s: string, i: nat): char {
    if i < |s| then s[i] else '\0'
  }

  /** `hex2_bin`. */
  function Pair(s: string, i: nat): Option<byte> {
    var hi, lo := HexVal(CharAt(s, i)), HexVal(CharAt(s, i + 1));
    if hi < 0 || lo < 0 then None else Some(16 * hi + lo)
  }

  function PairAt(s: string, i: nat, k: nat): Option<byte> {
    Pair(s, i + 2 * k)
  }

  /** `n` bytes read from position `i`, if all of them are hex. */
  function Pairs(s: string, i: nat, n: nat): (r: Option<seq<byte>>)
    ensures r.Some? ==> |r.value| == n
  {
    if n == 0 then Some([])
    else
      var front, last := Pairs(s, i, n - 1), PairAt(s, i, n - 1);
      if front.None? || last.None? then None else Some(front.value + [last.value])
  }

  function BigEndian(bs: seq<byte>): nat {
    if bs == [] then 0 else BigEndian(bs[..|bs| - 1]) * 256 + bs[|bs| - 1]
  }

  /** What a record type says: the code returned, the bytes of its address, and what its length counts besides data. */
  datatype Shape = Shape(kind: nat, address: nat, overhead: overheadBytes)

  type overheadBytes = x: nat | x <= 5

  /** A record's length, which is one byte, less what it counts besides data. */
  type dataCount = x: int | -5 <= x < 256

  function ShapeOf(v: char): (shape: Option<Shape>)
    ensures shape.Some? ==> 2 <= shape.value.address <= 4
  {
    match v
    case '0' => Some(Shape(SREC_START, 2, 3))
    case '1' => Some(Shape(SREC_DATA2, 2, 3))
    case '2' => Some(Shape(SREC_DATA3, 3, 4))
    case '3' => Some(Shape(SREC_DATA4, 4, 5))
    case '5' => Some(Shape(SREC_COUNT, 2, 3))
    case '7' => Some(Shape(SREC_END4, 4, 5))
    case '8' => Some(Shape(SREC_END3, 3, 4))
    case '9' => Some(Shape(SREC_END2, 2, 3))
    case _ => None
  }

  /** The data bytes a record announces; a length too short for its type gives a negative count. */
  function DataCount(shape: Shape, length: byte): dataCount {
    if shape.kind == SREC_COUNT then 0 else length - shape.overhead
  }

  datatype Decoded = Fail(code: int) | Empty | Got(kind: nat, count: dataCount, address: nat, data: seq<byte>)

  /** The position behind the first 'S', or of the terminating NUL. */
  function SkipS(s: string, i: nat): (r: nat)
    requires i <= |s|
    ensures i <= r <= |s|
    decreases |s| - i
  {
    if CharAt(s, i) == '\0' then i
    else if s[i] == 'S' then i + 1
    else SkipS(s, i + 1)
  }

  /** A record's fields from its bytes behind the length. */
  function Assemble(bytes: seq<byte>, length: byte, shape: Shape): Decoded
    requires |bytes| == shape.address + Max(DataCount(shape, length), 0) + 1
  {
    if (length + Sum(bytes)) % 256 != 255 then Fail(SREC_E_BADCHKS)
    else Got(shape.kind, DataCount(shape, length), BigEndian(bytes[..shape.address]), bytes[shape.address..|bytes| - 1])
  }

  function DecodeBody(s: string, i: nat, length: byte, shape: Shape): Decoded {
    var bytes := Pairs(s, i, shape.address + Max(DataCount(shape, length), 0) + 1);
    if bytes.None? then Fail(SREC_E_NOSREC) else Assemble(bytes.value, length, shape)
  }

  /** `srec_decode`. */
  function Decode(s: string): Decoded {
    var i := SkipS(s, 0);
    if CharAt(s, i) == '\0' then Empty
    else
      var length, shape := Pair(s, i + 1), ShapeOf(CharAt(s, i));
      if length.None? then Fail(SREC_E_NOSREC)
      else if shape.None? then Fail(SREC_E_BADTYPE)
      else DecodeBody(s, i + 3, length.value, shape.value)
  }

  // ---- decoding what was written

  lemma HexValDigit(d: nat)
    requires d < 16
    ensures HexVal(HexDigit(d)) == d && HexDigit(d) != 'S' && HexDigit(d) > '\r'
  {
  }

  lemma {:induction false} HexDigitsPlain(v: nat, n: nat, k: nat)
    requires k < n
    ensures HexVal(HexDigits(v, n)[k]) >= 0 && HexDigits(v, n)[k] > '\r'
  {
    HexValDigit(v % 16);
    if k < n - 1 {
      HexDigitsPlain(v / 16, n - 1, k);
    }
  }

  lemma HexPair(b: byte)
    ensures HexDigits(b, 2) == [HexDigit(b / 16), HexDigit(b % 16)]
  {
    DigitLast(b, 1);
    DigitLast(b / 16, 0);
    assert b / 16 % 16 == b / 16;
  }

  lemma DigitLast(v: nat, n: nat)
    ensures HexDigits(v, n + 1) == HexDigits(v / 16, n) + [HexDigit(v % 16)]
  {
  }

  lemma Snoc(bs: seq<byte>, b: byte)
    ensures HexBytes(bs + [b]) == HexBytes(bs) + HexDigits(b, 2)
    ensures Sum(bs + [b]) == Sum(bs) + b
    ensures BigEndian(bs + [b]) == BigEndian(bs) * 256 + b
  {
    SumSnoc(bs, b);
    assert (bs + [b])[..|bs|] == bs;
  }

  lemma {:induction false} HexBytesConcat(a: seq<byte>, b: seq<byte>)
    ensures HexBytes(a + b) == HexBytes(a) + HexBytes(b)
    ensures Sum(a + b) == Sum(a) + Sum(b)
    decreases b
  {
    if b == [] {
      assert a + b == a;
    } else {
      var front, last := b[..|b| - 1], b[|b| - 1];
      HexBytesConcat(a, front);
      Snoc(front, last);
      assert b == front + [last];
      Snoc(a + front, last);
      assert a + b == (a + front) + [last];
    }
  }

  lemma One(b: byte)
    ensures HexBytes([b]) == HexDigits(b, 2) && Sum([b]) == b && BigEndian([b]) == b
  {
    Snoc([], b);
    assert [] + [b] == [b];
  }

  lemma Two(a: byte, b: byte)
    ensures HexBytes([a, b]) == HexDigits(a, 2) + HexDigits(b, 2)
    ensures Sum([a, b]) == a as int + b && BigEndian([a, b]) == a as int * 256 + b
  {
    One(a);
    Snoc([a], b);
    assert [a] + [b] == [a, b];
  }

  lemma Four(a: byte, b: byte, c: byte, d: byte)
    ensures HexBytes([a, b, c, d]) == HexDigits(a, 2) + HexDigits(b, 2) + HexDigits(c, 2) + HexDigits(d, 2)
    ensures Sum([a, b, c, d]) == a as int + b + c + d
    ensures BigEndian([a, b, c, d]) == ((a as int * 256 + b) * 256 + c) * 256 + d
  {
    Two(a, b);
    Snoc([a, b], c);
    assert [a, b] + [c] == [a, b, c];
    Snoc([a, b, c], d);
    assert [a, b, c] + [d] == [a, b, c, d];
  }

  /** Two hex digits more. */
  lemma HexDigitsByte(v: nat, n: nat)
    ensures HexDigits(v, n + 2) == HexDigits(v / 256, n) + HexDigits(v % 256, 2)
  {
    HexPair(v % 256);
    assert v / 16 / 16 == v / 256 && v / 16 % 16 == v % 256 / 16 && v % 16 == v % 256 % 16;
    assert HexDigits(v, n + 2) == HexDigits(v / 16, n + 1) + [HexDigit(v % 16)];
  }

  lemma AddressDigits(a: word)
    ensures HexDigits(a, 8) == HexBytes(AddressBytes(a))
  {
    var b := AddressBytes(a);
    Four(b[0], b[1], b[2], b[3]);
    HexDigitsByte(a, 6);
    HexDigitsByte(a / 0x100, 4);
    HexDigitsByte(a / 0x1_0000, 2);
    assert a / 0x100 / 0x100 == a / 0x1_0000 && a / 0x1_0000 / 0x100 == b[0];
    assert HexDigits(a / 0x100, 6) == HexDigits(b[0], 2) + HexDigits(b[1], 2) + HexDigits(b[2], 2);
  }

  lemma AddressValue(a: word)
    ensures BigEndian(AddressBytes(a)) == a
  {
    var c, d, e := a / 0x100, a / 0x1_0000, a / 0x100_0000;
    assert c / 256 == d && d / 256 == e;
    assert a == 256 * c + a % 256 && c == 256 * d + c % 256 && d == 256 * e + d % 256;
    Four(e, d % 256, c % 256, a % 256);
  }

  /** A record's bytes behind its length. */
  function Body(address: word, data: seq<byte>, check: byte): seq<byte> {
    AddressBytes(address) + data + [check]
  }

  lemma BodyText(address: word, data: seq<byte>, check: byte)
    ensures HexBytes(Body(address, data, check)) == HexDigits(address, 8) + HexBytes(data) + HexDigits(check, 2)
  {
    AddressDigits(address);
    HexBytesConcat(AddressBytes(address), data);
    Snoc(AddressBytes(address) + data, check);
  }

  lemma BodySum(address: word, data: seq<byte>, check: byte)
    ensures Sum(Body(address, data, check)) == Sum(AddressBytes(address)) + Sum(data) + check
  {
    HexBytesConcat(AddressBytes(address), data);
    SumSnoc(AddressBytes(address) + data, check);
  }

  /** All bytes of a record, in order. */
  function RecordBytes(address: word, data: seq<byte>): seq<byte>
    requires |data| <= PER_RECORD
  {
    [5 + |data|] + Body(address, data, Checksum(5 + |data|, address, data))
  }

  lemma ChecksumCompletes(length: nat, a: nat, d: nat, check: nat)
    requires check == 255 - (length + a + d) % 256
    ensures (length + (a + d + check)) % 256 == 255
  {
    assert length + a + d + check == 256 * ((length + a + d) / 256) + 255;
  }

  lemma BodySums(address: word, data: seq<byte>)
    requires |data| <= PER_RECORD
    ensures (5 + |data| + Sum(Body(address, data, Checksum(5 + |data|, address, data)))) % 256 == 255
  {
    var length, a, d := 5 + |data|, Sum(AddressBytes(address)), Sum(data);
    var check := Checksum(length, address, data);
    BodySum(address, data, check);
    ChecksumCompletes(length, a, d, check);
  }

  lemma LengthFirst(length: byte, rest: seq<byte>)
    ensures "S3" + HexBytes([length] + rest) == ['S', '3'] + HexDigits(length, 2) + HexBytes(rest)
  {
    One(length);
    HexBytesConcat([length], rest);
  }

  lemma BodyLine(address: word, data: seq<byte>, length: byte, check: byte)
    requires |data| <= PER_RECORD && length == 5 + |data| && check == Checksum(length, address, data)
    ensures RecordLine(address, data) == ['S', '3'] + HexDigits(length, 2) + HexBytes(Body(address, data, check))
  {
    BodyText(address, data, check);
  }

  /** A record's line is "S3" and its bytes in hex; the line, its newline and a NUL fit the writer's buffer. */
  lemma RecordIsBytes(address: word, data: seq<byte>)
    requires |data| <= PER_RECORD
    ensures RecordLine(address, data) == "S3" + HexBytes(RecordBytes(address, data))
    ensures |RecordLine(address, data)| + 2 <= 2 * PER_RECORD + 16
  {
    var length, check := 5 + |data|, Checksum(5 + |data|, address, data);
    BodyLine(address, data, length, check);
    LengthFirst(length, Body(address, data, check));
  }

  /** A record's bytes, checksum included, sum to 0xFF modulo 256. */
  lemma RecordSums(address: word, data: seq<byte>)
    requires |data| <= PER_RECORD
    ensures Sum(RecordBytes(address, data)) % 256 == 255
  {
    var length, check := 5 + |data|, Checksum(5 + |data|, address, data);
    One(length);
    HexBytesConcat([length], Body(address, data, check));
    BodySums(address, data);
  }

  /** Reading back bytes written as hex. */
  lemma {:induction false} HexBytesRead(bs: seq<byte>, k: nat)
    requires k < |bs|
    ensures HexBytes(bs)[2 * k] == HexDigit(bs[k] / 16) && HexBytes(bs)[2 * k + 1] == HexDigit(bs[k] % 16)
  {
    HexPair(bs[|bs| - 1]);
    if k < |bs| - 1 {
      HexBytesRead(bs[..|bs| - 1], k);
    }
  }

  /** The text from position `i` on starts with these bytes in hex. */
  predicate Spells(s: string, i: nat, bs: seq<byte>) {
    i + 2 * |bs| <= |s| && s[i..i + 2 * |bs|] == HexBytes(bs)
  }

  lemma PairRead(s: string, i: nat, bs: seq<byte>, k: nat)
    requires k < |bs| && Spells(s, i, bs)
    ensures PairAt(s, i, k) == Some(bs[k])
  {
    HexBytesRead(bs, k);
    HexValDigit(bs[k] / 16);
    HexValDigit(bs[k] % 16);
    assert s[i + 2 * k] == s[i..i + 2 * |bs|][2 * k];
    assert s[i + 2 * k + 1] == s[i..i + 2 * |bs|][2 * k + 1];
  }

  lemma {:induction false} PairsRead(s: string, i: nat, bs: seq<byte>, n: nat)
    requires Spells(s, i, bs) && n <= |bs|
    ensures Pairs(s, i, n) == Some(bs[..n])
  {
    if n > 0 {
      PairsRead(s, i, bs, n - 1);
      PairRead(s, i, bs, n - 1);
      assert bs[..n] == bs[..n - 1] + [bs[n - 1]];
    }
  }

  lemma BodyDecodes(s: string, i: nat, length: byte, rest: seq<byte>, shape: Shape)
    requires |rest| == shape.address + Max(DataCount(shape, length), 0) + 1 && Pairs(s, i, |rest|) == Some(rest)
    ensures DecodeBody(s, i, length, shape) == Assemble(rest, length, shape)
  {
  }

  /** A line that starts with its 'S' and its type. */
  lemma DecodeHead(s: string, v: char, length: byte)
    requires |s| >= 2 && s[0] == 'S' && s[1] == v != '\0' && Pair(s, 2) == Some(length) && ShapeOf(v).Some?
    ensures Decode(s) == DecodeBody(s, 4, length, ShapeOf(v).value)
  {
    assert SkipS(s, 0) == 1;
  }

  /** A line made of bytes in hex reads as them. */
  lemma LineReads(s: string, v: char, length: byte, rest: seq<byte>)
    requires s == ['S', v] + HexDigits(length, 2) + HexBytes(rest)
    ensures Pair(s, 2) == Some(length) && Pairs(s, 4, |rest|) == Some(rest)
  {
    One(length);
    assert Spells(s, 2, [length]);
    PairRead(s, 2, [length], 0);
    assert PairAt(s, 2, 0) == Pair(s, 2);
    assert Spells(s, 4, rest);
    PairsRead(s, 4, rest, |rest|);
    assert rest[..|rest|] == rest;
  }

  lemma DecodeReads(s: string, v: char, length: byte, rest: seq<byte>, shape: Shape)
    requires |s| >= 2 && s[0] == 'S' && s[1] == v != '\0' && ShapeOf(v) == Some(shape)
    requires Pair(s, 2) == Some(length) && Pairs(s, 4, |rest|) == Some(rest)
    requires |rest| == shape.address + Max(DataCount(shape, length), 0) + 1
    ensures Decode(s) == Assemble(rest, length, shape)
  {
    DecodeHead(s, v, length);
    BodyDecodes(s, 4, length, rest, shape);
  }

  /** Any record made of its bytes in hex decodes to them, when they sum to 0xFF. */
  lemma {:induction false} DecodeBytes(s: string, v: char, length: byte, rest: seq<byte>, shape: Shape)
    requires s == ['S', v] + HexDigits(length, 2) + HexBytes(rest) && v != '\0' && ShapeOf(v) == Some(shape)
    requires (length + Sum(rest)) % 256 == 255 && DataCount(shape, length) >= 0
    requires |rest| == shape.address + DataCount(shape, length) + 1
    ensures Decode(s) == Got(shape.kind, DataCount(shape, length), BigEndian(rest[..shape.address]),
                             rest[shape.address..|rest| - 1])
  {
    LineReads(s, v, length, rest);
    LineHead(s, v, HexDigits(length, 2), HexBytes(rest));
    DecodeReads(s, v, length, rest, shape);
    AssembleGood(rest, length, shape);
  }

  lemma AssembleGood(rest: seq<byte>, length: byte, shape: Shape)
    requires (length + Sum(rest)) % 256 == 255 && DataCount(shape, length) >= 0
    requires |rest| == shape.address + DataCount(shape, length) + 1
    ensures Assemble(rest, length, shape)
         == Got(shape.kind, DataCount(shape, length), BigEndian(rest[..shape.address]), rest[shape.address..|rest| - 1])
  {
  }

  lemma LineHead(s: string, v: char, a: string, b: string)
    requires s == ['S', v] + a + b
    ensures |s| >= 2 && s[0] == 'S' && s[1] == v
  {
  }

  lemma BodyParts(address: word, data: seq<byte>, check: byte)
    ensures var rest := Body(address, data, check);
            |rest| == 5 + |data| && rest[..4] == AddressBytes(address) && rest[4..|rest| - 1] == data
  {
  }

  /** Each record written decodes to its address and its data. */
  lemma DecodeWritten(address: word, data: seq<byte>)
    requires |data| <= PER_RECORD
    ensures Decode(RecordLine(address, data)) == Got(SREC_DATA4, |data|, address, data)
  {
    var length, check := 5 + |data|, Checksum(5 + |data|, address, data);
    var rest := Body(address, data, check);
    BodyLine(address, data, length, check);
    BodyParts(address, data, check);
    BodySums(address, data);
    DecodeBytes(RecordLine(address, data), '3', length, rest, Shape(SREC_DATA4, 4, 5));
    AddressValue(address);
  }

  const START_LINE := "S0030000FC"
  const END_LINE := "S70500000000FA"

  lemma DecodeStart()
    ensures Decode(START_LINE) == Got(SREC_START, 0, 0, [])
  {
    HexPair(0);
    HexPair(3);
    HexPair(0xFC);
    Two(0, 0);
    Snoc([0, 0], 0xFC);
    assert [0, 0] + [0xFC] == [0, 0, 0xFC];
    DecodeBytes(START_LINE, '0', 3, [0, 0, 0xFC], Shape(SREC_START, 2, 3));
    assert [0, 0, 0xFC][..2] == [0, 0];
  }

  lemma {:induction false} DecodeEnd()
    ensures Decode(END_LINE) == Got(SREC_END4, 0, 0, [])
  {
    EndBytes();
    DecodeBytes(END_LINE, '7', 5, [0, 0, 0, 0, 0xFA], Shape(SREC_END4, 4, 5));
    assert [0, 0, 0, 0, 0xFA][..4] == [0, 0, 0, 0];
  }

  lemma EndBytes()
    ensures END_LINE == ['S', '7'] + HexDigits(5, 2) + HexBytes([0, 0, 0, 0, 0xFA])
    ensures Sum([0, 0, 0, 0, 0xFA]) == 0xFA && BigEndian([0, 0, 0, 0]) == 0
  {
    HexPair(0);
    HexPair(5);
    HexPair(0xFA);
    Four(0, 0, 0, 0);
    Snoc([0, 0, 0, 0], 0xFA);
    assert [0, 0, 0, 0] + [0xFA] == [0, 0, 0, 0, 0xFA];
  }
}
