/** Packet scanning of `k_recv` as functions of the remaining input, and the frames a sender builds. */
module KermitPackets {
  import opened Common
  import opened Arithmetic

  const START_CHAR: byte := 0x01
  const ETX_CHAR: byte := 0x03
  const END_CHAR: byte := 0x0D
  const SPACE: byte := 0x20
  const K_ESCAPE: byte := 0x23
  const SEND_TYPE: byte := 0x53   // 'S'
  const DATA_TYPE: byte := 0x44   // 'D'
  const ACK_TYPE: byte := 0x59    // 'Y'
  const NACK_TYPE: byte := 0x4E   // 'N'
  const BREAK_TYPE: byte := 0x42  // 'B'

  function ToChar(x: int): byte {
    (x + SPACE) % 256
  }

  function UnChar(c: byte): (x: byte) {
    (c - SPACE) % 256
  }

  /** The type-1 block check over a sum of packet characters, as a printable character. */
  function Check(sum: nat): (c: byte)
    ensures 32 <= c < 96
  {
    ToChar((sum + sum / 64 % 4) % 64)
  }

  /** What reading the part of a packet after its sequence byte comes to: the input ends first, the packet is
      rejected, or it is accepted. `typ` is 0 while no type has been read; `data` is what was read of the data
      field, which has already been acted upon even when the packet is then rejected. */
  datatype Verdict =
    | Starved(typ: byte, data: seq<byte>)
    | Bad(rest: seq<byte>, typ: byte, data: seq<byte>)
    | Good(rest: seq<byte>, typ: byte, data: seq<byte>)
  {
    /** The same verdict with more input behind it. */
    function Then(more: seq<byte>): Verdict
      requires !Starved?
    {
      if Bad? then Bad(rest + more, typ, data) else Good(rest + more, typ, data)
    }
  }

  /** From the type byte on; `lenField` is the decoded length byte and `sum` covers length and sequence. */
  function ReadTail(s: seq<byte>, lenField: int, sum: nat): Verdict {
    if s == [] then Starved(0, [])
    else if s[0] < 32 then Bad(s[1..], 0, [])
    else if lenField == 0 then ReadExtended(s[1..], s[0], sum + s[0])
    else ReadData(s[1..], s[0], [], lenField - 2, sum + s[0])
  }

  /** The extended header: two length characters and a header check. */
  function ReadExtended(s: seq<byte>, typ: byte, sum: nat): Verdict {
    if s == [] then Starved(typ, [])
    else if s[0] < 32 then Bad(s[1..], typ, [])
    else if |s| == 1 then Starved(typ, [])
    else if s[1] < 32 then Bad(s[2..], typ, [])
    else if |s| == 2 then Starved(typ, [])
    else if s[2] < 32 || s[2] != Check(sum + s[0] + s[1]) then Bad(s[3..], typ, [])
    else ReadData(s[3..], typ, [], UnChar(s[0]) * 95 + UnChar(s[1]), sum + s[0] + s[1] + s[2])
  }

  /** Data characters while more than the check is due, then check and end character. */
  function ReadData(s: seq<byte>, typ: byte, data: seq<byte>, length: int, sum: nat): Verdict {
    if length > 1 then
      if s == [] then Starved(typ, data)
      else if s[0] < 32 then Bad(s[1..], typ, data)
      else ReadData(s[1..], typ, data + [s[0]], length - 1, sum + s[0])
    else
      if s == [] then Starved(typ, data)
      else if s[0] < 32 || s[0] != Check(sum) then Bad(s[1..], typ, data)
      else if |s| == 1 then Starved(typ, data)
      else if s[1] != END_CHAR then Bad(s[2..], typ, data)
      else Good(s[2..], typ, data)
  }

  lemma {:induction false} ReadDataShrinks(s: seq<byte>, typ: byte, data: seq<byte>, length: int, sum: nat)
    ensures var v := ReadData(s, typ, data, length, sum); !v.Starved? ==> |v.rest| < |s|
  {
    if length > 1 && s != [] {
      ReadDataShrinks(s[1..], typ, data + [s[0]], length - 1, sum + s[0]);
    }
  }

  /** Scanning consumes input. */
  lemma ReadTailShrinks(s: seq<byte>, lenField: int, sum: nat)
    ensures var v := ReadTail(s, lenField, sum); !v.Starved? ==> |v.rest| < |s|
  {
    if s != [] {
      ReadDataShrinks(s[1..], s[0], [], lenField - 2, sum + s[0]);
      if |s| > 3 {
        var t := s[1..];
        ReadDataShrinks(t[3..], s[0], [], UnChar(t[0]) * 95 + UnChar(t[1]), sum + s[0] + t[0] + t[1] + t[2]);
      }
    }
  }

  lemma {:induction false} ReadDataLocal(s: seq<byte>, typ: byte, data: seq<byte>, length: int, sum: nat, more: seq<byte>)
    ensures var v := ReadData(s, typ, data, length, sum);
            !v.Starved? ==> ReadData(s + more, typ, data, length, sum) == v.Then(more)
  {
    if s != [] {
      assert (s + more)[1..] == s[1..] + more;
      if length > 1 {
        ReadDataLocal(s[1..], typ, data + [s[0]], length - 1, sum + s[0], more);
      } else if |s| > 1 {
        assert (s + more)[2..] == s[2..] + more;
      }
    }
  }

  lemma ReadExtendedLocal(s: seq<byte>, typ: byte, sum: nat, more: seq<byte>)
    ensures var v := ReadExtended(s, typ, sum);
            !v.Starved? ==> ReadExtended(s + more, typ, sum) == v.Then(more)
  {
    if |s| > 0 {
      assert (s + more)[1..] == s[1..] + more;
    }
    if |s| > 1 {
      assert (s + more)[2..] == s[2..] + more;
    }
    if |s| > 2 {
      assert (s + more)[3..] == s[3..] + more;
      ReadDataLocal(s[3..], typ, [], UnChar(s[0]) * 95 + UnChar(s[1]), sum + s[0] + s[1] + s[2], more);
    }
  }

  /** A verdict reached within a copy does not depend on what follows the copy. */
  lemma ReadTailLocal(s: seq<byte>, lenField: int, sum: nat, more: seq<byte>)
    ensures var v := ReadTail(s, lenField, sum);
            !v.Starved? ==> ReadTail(s + more, lenField, sum) == v.Then(more)
  {
    if s != [] {
      assert (s + more)[1..] == s[1..] + more;
      if lenField == 0 {
        ReadExtendedLocal(s[1..], s[0], sum + s[0], more);
      } else {
        ReadDataLocal(s[1..], s[0], [], lenField - 2, sum + s[0], more);
      }
    }
  }

  // ---- frames a sender builds (manual, section 6.1)

  predicate Printable(s: seq<byte>) {
    forall i :: 0 <= i < |s| ==> s[i] >= 32
  }

  /** A data field closed by the check over `sum` and itself. */
  function Closed(data: seq<byte>, sum: nat): seq<byte> {
    data + [Check(sum + Sum(data)), END_CHAR]
  }

  /** What follows the sequence byte of a normal-length packet; `sum` covers length and sequence. */
  function ShortTail(typ: byte, data: seq<byte>, sum: nat): seq<byte> {
    [typ] + Closed(data, sum + typ)
  }

  /** An extended header and the data field; the header carries its own check. */
  function Extended(hi: byte, lo: byte, data: seq<byte>, sum: nat): seq<byte> {
    var header := sum + hi + lo;
    [hi, lo, Check(header)] + Closed(data, header + Check(header))
  }

  /** The same for an extended-length packet. */
  function LongTail(typ: byte, data: seq<byte>, sum: nat): seq<byte> {
    [typ] + Extended(ToChar((|data| + 1) / 95), ToChar((|data| + 1) % 95), data, sum + typ)
  }

  lemma LengthChars(length: nat)
    requires length < 95 * 95
    ensures var hi, lo := ToChar(length / 95), ToChar(length % 95);
            hi >= 32 && lo >= 32 && UnChar(hi) * 95 + UnChar(lo) == length
  {
  }

  lemma ClosedCons(data: seq<byte>, sum: nat)
    requires data != []
    ensures Closed(data, sum)[0] == data[0] && Closed(data, sum)[1..] == Closed(data[1..], sum + data[0])
  {
    assert data == [data[0]] + data[1..];
    SumCons(data[0], data[1..]);
  }

  lemma {:induction false} ReadDataOfFrame(data: seq<byte>, typ: byte, got: seq<byte>, sum: nat)
    requires Printable(data)
    ensures ReadData(Closed(data, sum), typ, got, |data| + 1, sum) == Good([], typ, got + data)
  {
    if data == [] {
      assert Closed(data, sum)[2..] == [];
      assert got + data == got;
    } else {
      ClosedCons(data, sum);
      ReadDataOfFrame(data[1..], typ, got + [data[0]], sum + data[0]);
      assert (got + [data[0]]) + data[1..] == got + data;
    }
  }

  /** An undamaged packet is accepted with its type and data, in normal length ... */
  lemma ShortFrameAccepted(typ: byte, data: seq<byte>, sum: nat)
    requires typ >= 32 && Printable(data)
    ensures ReadTail(ShortTail(typ, data, sum), |data| + 3, sum) == Good([], typ, data)
  {
    assert ShortTail(typ, data, sum)[1..] == Closed(data, sum + typ);
    FrameEnd(data, typ, |data| + 1, sum + typ);
  }

  lemma HeaderRead(hi: byte, lo: byte, rest: seq<byte>, typ: byte, sum: nat, header: nat)
    requires hi >= 32 && lo >= 32 && header == sum + hi + lo
    ensures ReadExtended([hi, lo, Check(header)] + rest, typ, sum)
         == ReadData(rest, typ, [], UnChar(hi) * 95 + UnChar(lo), header + Check(header))
  {
    var s := [hi, lo, Check(header)] + rest;
    assert s[0] == hi && s[1] == lo && s[2] == Check(header) && s[3..] == rest;
  }

  lemma FrameEnd(data: seq<byte>, typ: byte, length: int, sum: nat)
    requires Printable(data) && length == |data| + 1
    ensures ReadData(Closed(data, sum), typ, [], length, sum) == Good([], typ, data)
  {
    ReadDataOfFrame(data, typ, [], sum);
    assert [] + data == data;
  }

  lemma ExtendedAccepted(hi: byte, lo: byte, typ: byte, data: seq<byte>, sum: nat)
    requires hi >= 32 && lo >= 32 && UnChar(hi) * 95 + UnChar(lo) == |data| + 1 && Printable(data)
    ensures ReadExtended(Extended(hi, lo, data, sum), typ, sum) == Good([], typ, data)
  {
    var header := sum + hi + lo;
    HeaderRead(hi, lo, Closed(data, header + Check(header)), typ, sum, header);
    FrameEnd(data, typ, UnChar(hi) * 95 + UnChar(lo), header + Check(header));
  }

  /** ... and in extended length. */
  lemma LongFrameAccepted(typ: byte, data: seq<byte>, sum: nat)
    requires typ >= 32 && Printable(data) && |data| + 1 < 95 * 95
    ensures ReadTail(LongTail(typ, data, sum), 0, sum) == Good([], typ, data)
  {
    var hi, lo := ToChar((|data| + 1) / 95), ToChar((|data| + 1) % 95);
    LengthChars(|data| + 1);
    ExtendedAccepted(hi, lo, typ, data, sum + typ);
    TailExtended(typ, Extended(hi, lo, data, sum + typ), sum);
  }

  lemma TailExtended(typ: byte, s: seq<byte>, sum: nat)
    requires typ >= 32
    ensures ReadTail([typ] + s, 0, sum) == ReadExtended(s, typ, sum + typ)
  {
    assert ([typ] + s)[1..] == s;
  }

  // ---- exactly what is accepted

  /** The type-1 check of the manual: bits 6 and 7 of the sum added to its lower bits. */
  function BlockCheck(sum: nat): nat {
    32 + (sum + sum % 256 / 64) % 64
  }

  lemma CheckIs(sum: nat)
    ensures Check(sum) == BlockCheck(sum)
  {
    var a, r := sum / 256, sum % 256;
    DivMod(sum, 256);
    DivMod(r, 64);
    Remainder(4 * a + r / 64, r % 64, 64);
    Remainder(a, r / 64, 4);
  }

  /** A data field with its check and the carriage return, and what is behind them. */
  predicate IsClosed(s: seq<byte>, data: seq<byte>, sum: nat, rest: seq<byte>) {
    && (forall i :: 0 <= i < |data| ==> data[i] >= 32)
    && s == data + [BlockCheck(sum + Sum(data)), 0x0D] + rest
  }

  lemma IsClosedCons(c: byte, data: seq<byte>, sum: nat, s: seq<byte>, rest: seq<byte>)
    ensures IsClosed([c] + s, [c] + data, sum, rest) <==> c >= 32 && IsClosed(s, data, sum + c, rest)
  {
    SumCons(c, data);
    var end := [BlockCheck(sum + c + Sum(data)), 0x0D];
    assert ([c] + data) + end + rest == [c] + (data + end + rest);
    if [c] + s == [c] + (data + end + rest) {
      assert ([c] + s)[1..] == s && ([c] + (data + end + rest))[1..] == data + end + rest;
    }
    assert forall i :: 0 <= i < |data| ==> ([c] + data)[i + 1] == data[i];
    assert ([c] + data)[0] == c;
  }

  lemma IsClosedNil(s: seq<byte>, sum: nat, rest: seq<byte>)
    ensures IsClosed(s, [], sum, rest) <==> |s| >= 2 && s[0] == BlockCheck(sum) && s[1] == 0x0D && s[2..] == rest
  {
    var end: seq<byte> := [BlockCheck(sum), 0x0D];
    assert [] + end + rest == end + rest;
    if |s| >= 2 {
      assert s == [s[0], s[1]] + s[2..];
    }
  }

  /** What is accepted is a closed data field of the length due ... */
  lemma {:induction false} ReadDataSound(s: seq<byte>, typ: byte, got: seq<byte>, length: int, sum: nat)
      returns (data: seq<byte>)
    requires ReadData(s, typ, got, length, sum).Good?
    ensures var v := ReadData(s, typ, got, length, sum);
            v.typ == typ && v.data == got + data && |data| == Max(length - 1, 0) && IsClosed(s, data, sum, v.rest)
  {
    if length <= 1 {
      data := [];
      CheckIs(sum);
      IsClosedNil(s, sum, s[2..]);
      assert got + [] == got;
    } else {
      var more := ReadDataSound(s[1..], typ, got + [s[0]], length - 1, sum + s[0]);
      data := [s[0]] + more;
      assert s == [s[0]] + s[1..];
      IsClosedCons(s[0], more, sum, s[1..], ReadData(s, typ, got, length, sum).rest);
      assert (got + [s[0]]) + more == got + data;
    }
  }

  /** ... and such a field is accepted. */
  lemma {:induction false} ReadDataComplete(s: seq<byte>, typ: byte, got: seq<byte>, length: int, sum: nat,
                                            data: seq<byte>, rest: seq<byte>)
    requires |data| == Max(length - 1, 0) && IsClosed(s, data, sum, rest)
    ensures ReadData(s, typ, got, length, sum) == Good(rest, typ, got + data)
  {
    if length <= 1 {
      CheckIs(sum);
      IsClosedNil(s, sum, rest);
      assert got + data == got;
    } else {
      assert data == [data[0]] + data[1..];
      assert s == [data[0]] + s[1..];
      IsClosedCons(data[0], data[1..], sum, s[1..], rest);
      ReadDataComplete(s[1..], typ, got + [s[0]], length - 1, sum + s[0], data[1..], rest);
      assert (got + [s[0]]) + data[1..] == got + data;
    }
  }

  /** The two characters of an extended length, in base 95. */
  function LongLength(hi: int, lo: int): int {
    (hi - 32) * 95 + (lo - 32)
  }

  /** Behind the sequence byte: a printable type; the data field, of the length the length byte leaves; its check and a
      carriage return. A length byte that stands for 0 means that two length characters and a check of the header come
      in front of the data field. */
  predicate IsTail(s: seq<byte>, lenField: int, sum: nat, typ: byte, data: seq<byte>, rest: seq<byte>) {
    && s != [] && typ == s[0] >= 32
    && if lenField != 0 then |data| == Max(lenField - 3, 0) && IsClosed(s[1..], data, sum + typ, rest)
       else
         && |s| > 4 && s[1] >= 32 && s[2] >= 32 && s[3] == BlockCheck(sum + typ + s[1] + s[2])
         && |data| == Max(LongLength(s[1], s[2]) - 1, 0)
         && IsClosed(s[4..], data, sum + typ + s[1] + s[2] + s[3], rest)
  }

  lemma Printables(c: byte)
    requires c >= 32
    ensures UnChar(c) == c - 32
  {
  }

  lemma ExtendedIff(s: seq<byte>, typ: byte, sum: nat, data: seq<byte>, rest: seq<byte>)
    ensures ReadExtended(s, typ, sum) == Good(rest, typ, data)
       <==> |s| > 3 && s[0] >= 32 && s[1] >= 32 && s[2] == BlockCheck(sum + s[0] + s[1])
            && |data| == Max(LongLength(s[0], s[1]) - 1, 0)
            && IsClosed(s[3..], data, sum + s[0] + s[1] + s[2], rest)
  {
    if |s| >= 3 && s[0] >= 32 && s[1] >= 32 {
      CheckIs(sum + s[0] + s[1]);
      Printables(s[0]);
      Printables(s[1]);
      DataIff(s[3..], typ, UnChar(s[0]) * 95 + UnChar(s[1]), sum + s[0] + s[1] + s[2], data, rest);
    }
  }

  lemma DataIff(s: seq<byte>, typ: byte, length: int, sum: nat, data: seq<byte>, rest: seq<byte>)
    ensures ReadData(s, typ, [], length, sum) == Good(rest, typ, data)
       <==> |data| == Max(length - 1, 0) && IsClosed(s, data, sum, rest)
  {
    assert [] + data == data;
    if ReadData(s, typ, [], length, sum) == Good(rest, typ, data) {
      var d := ReadDataSound(s, typ, [], length, sum);
      assert [] + d == d;
    }
    if |data| == Max(length - 1, 0) && IsClosed(s, data, sum, rest) {
      ReadDataComplete(s, typ, [], length, sum, data, rest);
    }
  }

  /** A packet is accepted exactly when it is one by the rules of the manual, with nothing but its own bytes read. */
  lemma {:induction false} AcceptedIff(s: seq<byte>, lenField: int, sum: nat, typ: byte, data: seq<byte>,
                                       rest: seq<byte>)
    ensures ReadTail(s, lenField, sum) == Good(rest, typ, data) <==> IsTail(s, lenField, sum, typ, data, rest)
  {
    if s != [] && s[0] >= 32 {
      if lenField == 0 {
        ExtendedIff(s[1..], s[0], sum + s[0], data, rest);
        ReadTailKeepsType(s, lenField, sum);
      } else {
        DataIff(s[1..], s[0], lenField - 2, sum + s[0], data, rest);
        ReadTailKeepsType(s, lenField, sum);
      }
    }
  }

  lemma {:induction false} ReadDataKeepsType(s: seq<byte>, typ: byte, got: seq<byte>, length: int, sum: nat)
    ensures ReadData(s, typ, got, length, sum).typ == typ
  {
    if length > 1 && s != [] {
      ReadDataKeepsType(s[1..], typ, got + [s[0]], length - 1, sum + s[0]);
    }
  }

  lemma ReadTailKeepsType(s: seq<byte>, lenField: int, sum: nat)
    ensures s != [] && s[0] >= 32 ==> ReadTail(s, lenField, sum).typ == s[0]
  {
    if s != [] && s[0] >= 32 {
      if lenField != 0 {
        ReadDataKeepsType(s[1..], s[0], [], lenField - 2, sum + s[0]);
      } else if |s| > 3 {
        ReadDataKeepsType(s[1..][3..], s[0], [], UnChar(s[1]) * 95 + UnChar(s[2]), sum + s[0] + s[1] + s[2] + s[3]);
      }
    }
  }
}
