/** A whole session in bytes, both ways: parameters, a packet that is damaged once and repeated, and the end. */
module KermitTranscript {
  import opened Common
  import opened KermitCoding
  import opened KermitPackets
  import opened KermitReceiver
  import opened KermitDelivery

  /** Send-init: two NULs of padding, line feed as line end, `#` for quoting. */
  const INIT: seq<byte> := [0x01, ')' as int, ' ' as int, 'S' as int, '~' as int, '%' as int, '\"' as int, '@' as int,
                            '*' as int, '#' as int, 'Q' as int, 0x0D]

  /** The bytes 65 and 1, with a wrong check and with the right one. */
  const DAMAGED: seq<byte> := [0x01, '&' as int, '!' as int, 'D' as int, 'A' as int, '#' as int, 'A' as int, '!' as int]
  const DATA: seq<byte> := [0x01, '&' as int, '!' as int, 'D' as int, 'A' as int, '#' as int, 'A' as int, 'P' as int, 0x0D]
  const BREAK: seq<byte> := [0x01, '#' as int, '\"' as int, 'B' as int, ')' as int, 0x0D]

  const TO_INIT: seq<byte> := [0, 0, 0x01, ')' as int, ' ' as int, 'Y' as int, '~' as int, '!' as int, ' ' as int,
                               '@' as int, '-' as int, '#' as int, 'T' as int, 0x0A]
  const TO_DAMAGED: seq<byte> := [0, 0, 0x01, '#' as int, '!' as int, 'N' as int, '4' as int, 0x0A]
  const TO_DATA: seq<byte> := [0, 0, 0x01, '#' as int, '!' as int, 'Y' as int, '?' as int, 0x0A]
  const TO_BREAK: seq<byte> := [0, 0, 0x01, '#' as int, '\"' as int, 'Y' as int, '@' as int, 0x0A]

  /** The packets as events. */
  const E_INIT := Copy([], 41, 0, [83, 126, 37, 34, 64, 42, 35, 81, 0x0D])
  const E_DAMAGED := Copy([], 38, 1, [68, 65, 35, 65, 33])
  const E_DATA := Copy([], 38, 1, [68, 65, 35, 65, 80, 0x0D])
  const E_BREAK := Copy([], 35, 2, [66, 41, 0x0D])

  lemma SumThree(a: byte, b: byte, c: byte)
    ensures Sum([a, b, c]) == a as int + b + c
  {
    BodySum(a, b, c, []);
    assert [a, b, c] + [] == [a, b, c];
  }

  lemma SumSix(a: byte, b: byte, c: byte, d: byte, e: byte, f: byte)
    ensures Sum([a, b, c, d, e, f]) == a as int + b + c + d + e + f
  {
    BodySum(a, b, c, [d, e, f]);
    SumThree(d, e, f);
    assert [a, b, c] + [d, e, f] == [a, b, c, d, e, f];
  }

  lemma InitAccepted()
    ensures VerdictOf(E_INIT) == Good([], 83, [126, 37, 34, 64, 42, 35])
  {
    var data: seq<byte> := [126, 37, 34, 64, 42, 35];
    SumSix(126, 37, 34, 64, 42, 35);
    assert E_INIT.tail[1..] == data + [BlockCheck(73 + 83 + Sum(data)), 0x0D] + [];
    AcceptedIff(E_INIT.tail, 9, 73, 83, data, []);
  }

  lemma DataAccepted()
    ensures VerdictOf(E_DATA) == Good([], 68, [65, 35, 65])
  {
    var data: seq<byte> := [65, 35, 65];
    SumThree(65, 35, 65);
    assert E_DATA.tail[1..] == data + [BlockCheck(71 + 68 + Sum(data)), 0x0D] + [];
    AcceptedIff(E_DATA.tail, 6, 71, 68, data, []);
  }

  lemma BreakAccepted()
    ensures VerdictOf(E_BREAK) == Good([], 66, [])
  {
    var data: seq<byte> := [];
    assert E_BREAK.tail[1..] == data + [BlockCheck(69 + 66 + Sum(data)), 0x0D] + [];
    AcceptedIff(E_BREAK.tail, 3, 69, 66, data, []);
  }

  lemma ReadOne(s: seq<byte>, typ: byte, got: seq<byte>, length: int, sum: nat)
    requires s != [] && s[0] >= 32 && length > 1
    ensures ReadData(s, typ, got, length, sum) == ReadData(s[1..], typ, got + [s[0]], length - 1, sum + s[0])
  {
  }

  /** Three characters of data and a wrong check. */
  lemma ReadWrong(x: byte, y: byte, z: byte, check: byte, typ: byte, sum: nat)
    requires x >= 32 && y >= 32 && z >= 32 && check != Check(sum + x + y + z)
    ensures ReadData([x, y, z, check], typ, [], 4, sum) == Bad([], typ, [x, y, z])
  {
    ReadOne([x, y, z, check], typ, [], 4, sum);
    ReadOne([y, z, check], typ, [x], 3, sum + x);
    ReadOne([z, check], typ, [x, y], 2, sum + x + y);
    CheckWrong(check, typ, [x, y, z], sum + x + y + z);
    assert [x, y, z, check][1..] == [y, z, check] && [y, z, check][1..] == [z, check] && [z, check][1..] == [check];
    assert [] + [x] == [x] && [x] + [y] == [x, y] && [x, y] + [z] == [x, y, z];
  }

  lemma CheckWrong(check: byte, typ: byte, data: seq<byte>, sum: nat)
    requires check != Check(sum)
    ensures ReadData([check], typ, data, 1, sum) == Bad([], typ, data)
  {
    assert [check][1..] == [];
  }

  lemma DamagedRejected()
    ensures VerdictOf(E_DAMAGED) == Bad([], 68, [65, 35, 65])
  {
    CheckIs(304);
    ReadWrong(65, 35, 65, 33, 68, 139);
    assert E_DAMAGED.tail[1..] == [65, 35, 65, 33];
  }

  const ASKED := Peer(35, 10, 2, 0)

  /** Where the receiver is, with `count` of the two bytes stored and `sent` on the line. */
  function At(mem: map<int, byte>, addr: int, saved: int, lastN: int, sent: seq<byte>): Rx {
    Rx(mem, addr, false, saved, false, lastN, ASKED, sent)
  }

  lemma PlainReply(typ: byte, n: byte)
    requires n < 64
    ensures ReplyBytes(ASKED, typ, n, []) == [0, 0, 0x01, 35, n + 32, typ, Check(67 + n + typ), 0x0A]
  {
    SumThree(35, n + 32, typ);
    assert [ToChar(3 + 0), ToChar(n), typ] + [] == [35, n + 32, typ];
    TwoPads();
  }

  lemma TwoPads()
    ensures Pads(ASKED) == [0, 0]
  {
  }

  lemma InitReply()
    ensures ReplyBytes(ASKED, 89, 0, [126, 33, 32, 64, 45, 35]) == TO_INIT
  {
    BodySum(41, 32, 89, [126, 33, 32, 64, 45, 35]);
    SumSix(126, 33, 32, 64, 45, 35);
    CheckIs(162 + 335);
    assert Pads(ASKED) == [0, 0];
  }

  lemma DamagedReply()
    ensures ReplyBytes(ASKED, 78, 1, []) == TO_DAMAGED
  {
    PlainReply(78, 1);
    assert Check(146) == 52;
  }

  lemma DataReply()
    ensures ReplyBytes(ASKED, 89, 1, []) == TO_DATA
  {
    PlainReply(89, 1);
    assert Check(157) == 63;
  }

  lemma BreakReply()
    ensures ReplyBytes(ASKED, 89, 2, []) == TO_BREAK
  {
    PlainReply(89, 2);
    assert Check(158) == 64;
  }

  lemma PutLast(r: Rx, s: seq<byte>, c: byte)
    ensures PutAll(r, s + [c]) == Put(PutAll(r, s), c)
  {
    assert (s + [c])[..|s|] == s;
  }

  lemma PutThree(r: Rx, x: byte, y: byte, z: byte)
    ensures PutAll(r, [x, y, z]) == Put(Put(Put(r, x), y), z)
  {
    PutLast(r, [], x);
    PutLast(r, [x], y);
    PutLast(r, [x, y], z);
    assert [] + [x] == [x] && [x] + [y] == [x, y] && [x, y] + [z] == [x, y, z];
  }

  /** The data field, unquoted into memory. */
  lemma Stored(r: Rx)
    requires !r.esc && r.peer.quote == 35
    ensures PutAll(r, [65, 35, 65]) == r.(mem := r.mem[r.addr := 65][r.addr + 1 := 1], addr := r.addr + 2)
  {
    PutThree(r, 65, 35, 65);
    var r1 := r.(mem := r.mem[r.addr := 65], addr := r.addr + 1);
    PutPlain(r);
    PutQuote(r1);
    PutControl(r1.(esc := true));
  }

  lemma PutPlain(r: Rx)
    requires !r.esc && r.peer.quote == 35
    ensures Put(r, 65) == r.(mem := r.mem[r.addr := 65], addr := r.addr + 1)
  {
  }

  lemma PutQuote(r: Rx)
    requires !r.esc && r.peer.quote == 35
    ensures Put(r, 35) == r.(esc := true)
  {
  }

  lemma PutControl(r: Rx)
    requires r.esc && r.peer.quote == 35
    ensures Put(r, 65) == r.(mem := r.mem[r.addr := 1], addr := r.addr + 1, esc := false)
  {
    assert Ktrans(65) == 1;
  }

  lemma StepInit(mem: map<int, byte>, start: int)
    ensures Step(InitialRx(mem, start, []), E_INIT) == At(mem, start, start, 0, TO_INIT)
  {
    InitAccepted();
    InitReply();
    assert Parms([126, 37, 34, 64, 42, 35]) == [126, 37, 34, 64, 42, 35];
    assert Answers(6) == [126, 33, 32, 64, 45, 35];
  }

  lemma StepDamaged(mem: map<int, byte>, start: int)
    ensures Step(At(mem, start, start, 0, TO_INIT), E_DAMAGED)
         == At(mem[start := 65][start + 1 := 1], start, start, 1, TO_INIT + TO_DAMAGED)
  {
    DamagedRejected();
    DamagedReply();
    Stored(Number(At(mem, start, start, 0, TO_INIT), 1));
  }

  lemma StepData(mem: map<int, byte>, start: int, sent: seq<byte>)
    ensures Step(At(mem, start, start, 1, sent), E_DATA)
         == At(mem[start := 65][start + 1 := 1], start + 2, start, 1, sent + TO_DATA)
  {
    DataAccepted();
    DataReply();
    Stored(Number(At(mem, start, start, 1, sent), 1));
  }

  lemma StepBreak(mem: map<int, byte>, start: int, sent: seq<byte>)
    ensures Step(At(mem, start + 2, start, 1, sent), E_BREAK) == At(mem, start + 2, start + 2, 2, sent + TO_BREAK)
  {
    BreakAccepted();
    BreakReply();
  }

  lemma FirstEvents()
    ensures ValidEvent(E_INIT) && !Ends(E_INIT) && Bytes(E_INIT) == INIT
    ensures ValidEvent(E_DAMAGED) && !Ends(E_DAMAGED) && Bytes(E_DAMAGED) == DAMAGED
  {
    InitAccepted();
    DamagedRejected();
  }

  lemma DataEvent()
    ensures ValidEvent(E_DATA) && !Ends(E_DATA) && Bytes(E_DATA) == DATA
  {
    DataAccepted();
  }

  lemma BreakEvent()
    ensures ValidEvent(E_BREAK) && Ends(E_BREAK) && Bytes(E_BREAK) == BREAK
  {
    BreakAccepted();
  }

  lemma StepsSnoc(r: Rx, evs: seq<Event>, ev: Event, before: Rx, after: Rx)
    requires Steps(r, evs) == before && Step(before, ev) == after
    ensures Steps(r, evs + [ev]) == after
  {
    assert (evs + [ev])[..|evs|] == evs;
  }

  const FIRST := [E_INIT]
  const SECOND := FIRST + [E_DAMAGED]
  const THIRD := SECOND + [E_DATA]

  lemma Line()
    ensures AllBytes(THIRD + [E_BREAK]) == INIT + DAMAGED + DATA + BREAK
  {
    FirstEvents();
    DataEvent();
    BreakEvent();
    AllBytesSnoc([], E_INIT);
    assert [] + [E_INIT] == FIRST && [] + INIT == INIT;
    AllBytesSnoc(FIRST, E_DAMAGED);
    AllBytesSnoc(SECOND, E_DATA);
    AllBytesSnoc(THIRD, E_BREAK);
  }

  lemma StateThen(mem: map<int, byte>, start: int)
    ensures Steps(InitialRx(mem, start, []), THIRD + [E_BREAK])
         == At(mem[start := 65][start + 1 := 1], start + 2, start + 2, 2, TO_INIT + TO_DAMAGED + TO_DATA + TO_BREAK)
  {
    var r0, m, sent := InitialRx(mem, start, []), mem[start := 65][start + 1 := 1], TO_INIT + TO_DAMAGED;
    var r1, r2, r3 := At(mem, start, start, 0, TO_INIT), At(m, start, start, 1, sent), At(m, start + 2, start, 1, sent + TO_DATA);
    StepInit(mem, start);
    StepsSnoc(r0, [], E_INIT, r0, r1);
    assert [] + [E_INIT] == FIRST;
    StepDamaged(mem, start);
    StepsSnoc(r0, FIRST, E_DAMAGED, r1, r2);
    StepData(m, start, sent);
    assert m[start := 65][start + 1 := 1] == m;
    StepsSnoc(r0, SECOND, E_DATA, r2, r3);
    StepBreak(m, start, sent + TO_DATA);
    StepsSnoc(r0, THIRD, E_BREAK, r3, At(m, start + 2, start + 2, 2, sent + TO_DATA + TO_BREAK));
  }

  /** The bytes on the line, and what comes of them: the two bytes in memory, their number, and four replies. */
  lemma {:induction false} Transcript(mem: map<int, byte>, start: int)
    ensures Session(InitialRx(mem, start, []), start, INIT + DAMAGED + DATA + BREAK)
         == (At(mem[start := 65][start + 1 := 1], start + 2, start + 2, 2, TO_INIT + TO_DAMAGED + TO_DATA + TO_BREAK),
             Done(2))
  {
    FirstEvents();
    DataEvent();
    BreakEvent();
    Line();
    SessionEnds(InitialRx(mem, start, []), start, THIRD, E_BREAK, THIRD + [E_BREAK]);
    StateThen(mem, start);
  }
}
