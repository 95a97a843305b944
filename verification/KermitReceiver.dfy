/** The Kermit receiver of cmd_load.c: the state machine as functions, and the byte-level loops refining it. */
module KermitReceiver {
  import opened Common
  import opened Arithmetic
  import opened KermitCoding
  import opened KermitPackets

  const SEND_DATA_SIZE := 20
  const REPLY_SIZE := 24

  /** What the other side asked for in its send-init packet. */
  datatype Peer = Peer(quote: byte, eol: byte, padCount: byte, padChar: byte)

  const DEFAULT_PEER := Peer(K_ESCAPE, END_CHAR, 0, 0)

  /** Everything `k_recv` keeps between characters, with the console output in `sent`. */
  datatype Rx = Rx(mem: map<int, byte>, addr: int, esc: bool, addrSaved: int, escSaved: bool,
                   lastN: int, peer: Peer, sent: seq<byte>)

  datatype Outcome = Done(size: int) | Cancelled | Blocked

  function InitialRx(mem: map<int, byte>, start: int, sent: seq<byte>): Rx {
    Rx(mem, start, false, start, false, -1, DEFAULT_PEER, sent)
  }

  // ---- steps of the state machine

  /** One character of a data field: decoded straight into memory. */
  function Put(r: Rx, c: byte): Rx {
    if r.esc then r.(mem := r.mem[r.addr := Ktrans(c)], addr := r.addr + 1, esc := false)
    else if c == r.peer.quote then r.(esc := true)
    else r.(mem := r.mem[r.addr := c], addr := r.addr + 1)
  }

  function PutAll(r: Rx, data: seq<byte>): Rx {
    if data == [] then r else Put(PutAll(r, data[..|data| - 1]), data[|data| - 1])
  }

  function PutData(r: Rx, typ: byte, data: seq<byte>): Rx {
    if typ == DATA_TYPE then PutAll(r, data) else r
  }

  function Restore(r: Rx): Rx {
    r.(addr := r.addrSaved, esc := r.escSaved)
  }

  /** A sequence number: the same as last time rolls back, a new one takes a checkpoint. */
  function Number(r: Rx, n: int): Rx {
    if n == r.lastN then Restore(r) else r.(addrSaved := r.addr, escSaved := r.esc, lastN := n)
  }

  /** The number a reply carries: the last one received, 0 before there was any. */
  function ReplyNumber(r: Rx): int {
    if r.lastN == -1 then 0 else r.lastN
  }

  function Repeat(c: byte, count: nat): seq<byte> {
    seq(count, _ => c)
  }

  function Pads(peer: Peer): seq<byte> {
    Repeat(peer.padChar, peer.padCount)
  }

  /** A reply without its padding: the packet with its block check, the end-of-line the peer wants. */
  function ReplyPacket(eol: byte, typ: byte, n: int, fields: seq<byte>): seq<byte> {
    var body := [ToChar(3 + |fields|), ToChar(n), typ] + fields;
    [START_CHAR] + body + [Check(Sum(body))] + (if eol == 0 then [] else [eol])
  }

  function ReplyBytes(peer: Peer, typ: byte, n: int, fields: seq<byte>): seq<byte> {
    Pads(peer) + ReplyPacket(peer.eol, typ, n, fields)
  }

  function Reply(r: Rx, typ: byte, fields: seq<byte>): Rx {
    r.(sent := r.sent + ReplyBytes(r.peer, typ, ReplyNumber(r), fields))
  }

  function Nack(r: Rx): Rx {
    Reply(Restore(r), NACK_TYPE, [])
  }

  /** The parameters kept of a send-init data field: the buffer drops the last character when it fills. */
  function Parms(data: seq<byte>): seq<byte> {
    data[..Min(|data|, SEND_DATA_SIZE - 2)]
  }

  function PeerFrom(parms: seq<byte>): Peer {
    Peer(if |parms| > 5 then parms[5] else K_ESCAPE,
         if |parms| > 4 then UnChar(parms[4]) else END_CHAR,
         if |parms| > 2 then UnChar(parms[2]) else 0,
         if |parms| > 3 then Ktrans(parms[3]) else 0)
  }

  /** Our own parameters: MAXL 94, TIME 1, NPAD 0, PADC, EOL CR, QCTL '#', QBIN 'N', CHKT '1', REPT 'N', CAPAS. */
  const OUR_PARMS: seq<byte> := [126, 33, 32, 64, 45, 35, 78, 49, 78, 34, 32, 126, 126]

  function Answers(count: nat): seq<byte> {
    OUR_PARMS[..if count < 10 then count else 13]
  }

  function Negotiate(r: Rx, data: seq<byte>): Rx {
    var parms := Parms(data);
    Reply(r.(peer := PeerFrom(parms)), ACK_TYPE, Answers(|parms|))
  }

  /** A packet from its length byte on. */
  function AfterStart(r: Rx, s: seq<byte>): (Rx, Verdict) {
    if s == [] then (r, Starved(0, []))
    else if s[0] < 32 then (r, Bad(s[1..], 0, []))
    else if |s| == 1 then (r, Starved(0, []))
    else if s[1] < 32 then (r, Bad(s[2..], 0, []))
    else
      var v := ReadTail(s[2..], UnChar(s[0]), (s[0] as int) + s[1]);
      (PutData(Number(r, UnChar(s[1])), v.typ, v.data), v)
  }

  /** After a packet: wait for the next one, or `k_recv` returns (or waits forever for a character). */
  datatype Next = More(rest: seq<byte>) | Stop(outcome: Outcome)

  /** A packet from its length byte on, with the reply to it. */
  function Packet(r: Rx, start: int, s: seq<byte>): (Rx, Next) {
    var (r1, v) := AfterStart(r, s);
    match v
    case Starved(_, _) => (r1, Stop(Blocked))
    case Bad(rest, _, _) => (Nack(r1), More(rest))
    case Good(rest, typ, data) =>
      if typ == SEND_TYPE then (Negotiate(r1, data), More(rest))
      else if typ == BREAK_TYPE then (Reply(r1, ACK_TYPE, []), Stop(Done(r1.addr - start)))
      else (Reply(r1, ACK_TYPE, []), More(rest))
  }

  lemma PacketShrinks(r: Rx, start: int, s: seq<byte>)
    ensures var next := Packet(r, start, s).1; next.More? ==> |next.rest| < |s|
  {
    if |s| >= 2 {
      ReadTailShrinks(s[2..], UnChar(s[0]), (s[0] as int) + s[1]);
    }
  }

  /** `k_recv` from the point where it waits for a packet. */
  function Session(r: Rx, start: int, s: seq<byte>): (Rx, Outcome)
    decreases |s|
  {
    if s == [] then (r, Blocked)
    else if s[0] == ETX_CHAR then (r, Cancelled)
    else if s[0] != START_CHAR then Session(r, start, s[1..])
    else
      PacketShrinks(r, start, s[1..]);
      var (r1, next) := Packet(r, start, s[1..]);
      match next
      case More(rest) => Session(r1, start, rest)
      case Stop(outcome) => (r1, outcome)
  }

  lemma SessionPacket(r: Rx, start: int, s: seq<byte>, r1: Rx, next: Next)
    requires s != [] && s[0] == START_CHAR && Packet(r, start, s[1..]) == (r1, next)
    ensures Session(r, start, s) == if next.Stop? then (r1, next.outcome) else Session(r1, start, next.rest)
    ensures next.More? ==> |next.rest| < |s|
  {
    PacketShrinks(r, start, s[1..]);
  }

  // ---- chk1 works on signed characters

  function Signed(c: byte): int {
    if c < 128 then c else c - 256
  }

  function SignedSum(s: seq<byte>): int {
    if s == [] then 0 else SignedSum(s[..|s| - 1]) + Signed(s[|s| - 1])
  }

  lemma {:induction false} SignedSumCongruent(s: seq<byte>) returns (k: nat)
    ensures SignedSum(s) == Sum(s) - 256 * k
  {
    if s == [] {
      k := 0;
    } else {
      k := SignedSumCongruent(s[..|s| - 1]);
      assert s == s[..|s| - 1] + [s[|s| - 1]];
      SumSnoc(s[..|s| - 1], s[|s| - 1]);
      if s[|s| - 1] >= 128 {
        k := k + 1;
      }
    }
  }

  lemma Multiple(t: int, k: int, d: nat)
    requires d > 0
    ensures (t - k * d) / d == t / d - k && (t - k * d) % d == t % d
  {
    DivMod(t, d);
    MulDiff(t / d, k, d);
    Remainder(t / d - k, t % d, d);
  }

  lemma FoldCongruent(t: int, k: nat)
    ensures (t + t / 64 % 4) % 64 == (t - 256 * k + (t - 256 * k) / 64 % 4) % 64
  {
    Multiple(t, 4 * k, 64);
    Multiple(t / 64, k, 4);
    Multiple(t + t / 64 % 4, 4 * k, 64);
  }

  /** Summing signed characters makes the same block check as the receiver's unsigned sum. */
  lemma {:induction false} SignedCheck(s: seq<byte>)
    ensures ToChar((SignedSum(s) + SignedSum(s) / 64 % 4) % 64) == Check(Sum(s))
  {
    var k := SignedSumCongruent(s);
    FoldCongruent(Sum(s), k);
  }

  /** How reading a packet from the line ended. */
  datatype Status = Complete | Rejected | Exhausted

  /** What the loops report is the verdict of the scanning functions, with `next` where it stopped. */
  ghost predicate Reports(status: Status, input: seq<byte>, next: nat, v: Verdict, typ: byte, data: seq<byte>)
    requires next <= |input|
  {
    match status
    case Exhausted => v == Starved(typ, data)
    case Rejected => v == Bad(input[next..], typ, data)
    case Complete => v == Good(input[next..], typ, data)
  }

  lemma PutDataSnoc(r: Rx, typ: byte, data: seq<byte>, c: byte)
    ensures PutData(r, typ, data + [c])
         == if typ == DATA_TYPE then Put(PutData(r, typ, data), c) else PutData(r, typ, data)
  {
    assert (data + [c])[..|data|] == data;
  }

  class Receiver {
    var mem: map<int, byte>
    var binStart: int
    var osDataAddr: int
    var osDataAddrSaved: int
    var escape: bool
    var escapeSaved: bool
    var hisQuote: byte
    var hisEol: byte
    var hisPadCount: byte
    var hisPadChar: byte
    var sent: seq<byte>
    var sendPtr: nat
    const sendParms: array<byte>
    const ab: array<byte>

    ghost predicate Valid()
      reads this
    {
      sendParms.Length == SEND_DATA_SIZE && ab.Length == REPLY_SIZE && sendParms != ab
    }

    ghost function State(lastN: int): Rx
      reads this
    {
      Rx(mem, osDataAddr, escape, osDataAddrSaved, escapeSaved, lastN,
         Peer(hisQuote, hisEol, hisPadCount, hisPadChar), sent)
    }

    constructor (mem: map<int, byte>)
      ensures Valid() && fresh(sendParms) && fresh(ab)
      ensures this.mem == mem && sent == []
    {
      this.mem := mem;
      binStart, osDataAddr, osDataAddrSaved := 0, 0, 0;
      escape, escapeSaved := false, false;
      hisQuote, hisEol, hisPadCount, hisPadChar := K_ESCAPE, END_CHAR, 0, 0;
      sent := [];
      sendPtr := 0;
      sendParms := new byte[SEND_DATA_SIZE];
      ab := new byte[REPLY_SIZE];
    }

    /** `k_data_char` with `bin_data_char`. */
    method DataChar(c: byte, ghost lastN: int)
      modifies `mem, `osDataAddr, `escape
      ensures State(lastN) == Put(old(State(lastN)), c)
    {
      if escape {
        mem := mem[osDataAddr := Ktrans(c)];
        osDataAddr := osDataAddr + 1;
        escape := false;
      } else if c == hisQuote {
        escape := true;
      } else {
        mem := mem[osDataAddr := c];
        osDataAddr := osDataAddr + 1;
      }
    }

    method DataSave(ghost lastN: int)
      modifies `osDataAddrSaved, `escapeSaved
      ensures State(lastN) == old(State(lastN)).(addrSaved := old(osDataAddr), escSaved := old(escape))
    {
      escapeSaved := escape;
      osDataAddrSaved := osDataAddr;
    }

    method DataRestore(ghost lastN: int)
      modifies `osDataAddr, `escape
      ensures State(lastN) == Restore(old(State(lastN)))
    {
      escape := escapeSaved;
      osDataAddr := osDataAddrSaved;
    }

    /** `chk1` over the reply buffer from index 1 up to its NUL. */
    method Chk1(ghost end: nat) returns (c: int)
      requires Valid() && 1 <= end < REPLY_SIZE && ab[end] == 0 && forall i :: 1 <= i < end ==> ab[i] != 0
      ensures ToChar(c) == Check(Sum(ab[1..end]))
    {
      var total := 0;
      var i := 1;
      while ab[i] != 0
        invariant 1 <= i <= end
        invariant total == SignedSum(ab[1..i])
        decreases end - i
      {
        assert ab[1..i + 1] == ab[1..i] + [ab[i]];
        total := total + Signed(ab[i]);
        i := i + 1;
        assert ab[1..i][..|ab[1..i]| - 1] == ab[1..i - 1];
      }
      SignedCheck(ab[1..end]);
      c := (total + total / 64 % 4) % 64;
    }

    /** `s1_sendpacket`: padding, then the reply buffer up to its NUL. */
    method SendPacket(ghost end: nat)
      requires Valid() && end < REPLY_SIZE && ab[end] == 0 && forall i :: 0 <= i < end ==> ab[i] != 0
      modifies `sent
      ensures sent == old(sent) + Pads(Peer(hisQuote, hisEol, hisPadCount, hisPadChar)) + ab[..end]
    {
      var count := hisPadCount;
      while count > 0
        invariant 0 <= count <= hisPadCount
        invariant sent == old(sent) + Repeat(hisPadChar, hisPadCount - count)
      {
        assert Repeat(hisPadChar, hisPadCount - count) + [hisPadChar] == Repeat(hisPadChar, hisPadCount - count + 1);
        sent := sent + [hisPadChar];
        count := count - 1;
      }
      var i := 0;
      ghost var padded := sent;
      while ab[i] != 0
        invariant 0 <= i <= end
        invariant sent == padded + ab[..i]
        decreases end - i
      {
        sent := sent + [ab[i]];
        i := i + 1;
        assert ab[..i] == ab[..i - 1] + [ab[i - 1]];
      }
    }

    /** Puts the block check of `ab[1..length + 1]`, the end-of-line and a NUL behind it. */
    method StoreCheck(length: nat)
      requires Valid() && 3 <= length < REPLY_SIZE - 3
      requires forall i :: 1 <= i <= length ==> ab[i] != 0
      modifies ab
      ensures ab[..length + 1] == old(ab[..length + 1])
      ensures ab[length + 1] == Check(Sum(ab[1..length + 1]))
      ensures ab[length + 2] == hisEol && ab[length + 3] == 0
    {
      ab[length + 1] := 0;
      var c := Chk1(length + 1);
      ghost var body := ab[1..length + 1];
      ab[length + 1] := ToChar(c);
      ab[length + 2] := hisEol;
      ab[length + 3] := 0;
      assert ab[1..length + 1] == body;
    }

    /** Completes the reply whose last field is at `length`; `end` is where its NUL is. */
    method CloseReply(length: nat, n: byte, typ: byte, ghost fields: seq<byte>) returns (ghost end: nat)
      requires Valid() && 3 <= length < REPLY_SIZE - 3 && |fields| == length - 3 && typ != 0
      requires ToChar(n) != 0 && forall i :: 0 <= i < |fields| ==> fields[i] != 0
      requires forall i :: 0 <= i < |fields| ==> ab[i + 4] == fields[i]
      modifies ab
      ensures end < REPLY_SIZE && ab[end] == 0 && forall i :: 0 <= i < end ==> ab[i] != 0
      ensures ab[..end] == ReplyPacket(hisEol, typ, n, fields)
    {
      ab[0], ab[1], ab[2], ab[3] := START_CHAR, ToChar(length), ToChar(n), typ;
      ghost var body := [ToChar(length), ToChar(n), typ] + fields;
      assert ab[..length + 1] == [START_CHAR] + body;
      assert forall i :: 0 <= i < |body| ==> body[i] != 0;
      end := CloseBody(length, body);
    }

    /** The check, the end of line and the NUL behind a reply's body. */
    method CloseBody(length: nat, ghost body: seq<byte>) returns (ghost end: nat)
      requires Valid() && 3 <= length < REPLY_SIZE - 3 && ab[..length + 1] == [START_CHAR] + body
      requires forall i :: 0 <= i < |body| ==> body[i] != 0
      modifies ab
      ensures end < REPLY_SIZE && ab[end] == 0 && forall i :: 0 <= i < end ==> ab[i] != 0
      ensures ab[..end] == [START_CHAR] + body + [Check(Sum(body))] + if hisEol == 0 then [] else [hisEol]
    {
      assert ab[1..length + 1] == ab[..length + 1][1..] == body;
      assert forall i :: 1 <= i <= length ==> ab[i] == body[i - 1];
      StoreCheck(length);
      assert ab[1..length + 1] == ab[..length + 1][1..] == body;
      assert ab[..length + 2] == ab[..length + 1] + [ab[length + 1]];
      assert ab[..length + 3] == ab[..length + 2] + [hisEol];
      end := if hisEol == 0 then length + 2 else length + 3;
    }

    /** Completes the reply and sends it. */
    method CloseAndSend(length: nat, n: byte, typ: byte, ghost fields: seq<byte>, ghost lastN: int)
      requires Valid() && 3 <= length < REPLY_SIZE - 3 && |fields| == length - 3 && typ != 0
      requires ToChar(n) != 0 && forall i :: 0 <= i < |fields| ==> fields[i] != 0
      requires forall i :: 0 <= i < |fields| ==> ab[i + 4] == fields[i]
      requires n == ReplyNumber(State(lastN))
      modifies `sent, ab
      ensures State(lastN) == Reply(old(State(lastN)), typ, fields)
    {
      ghost var end := CloseReply(length, n, typ, fields);
      SendPacket(end);
      ghost var peer := Peer(hisQuote, hisEol, hisPadCount, hisPadChar);
      assert sent == old(sent) + ReplyBytes(peer, typ, n, fields);
    }

    /** `handle_send_packet`: takes over what the peer asked for and answers with as many parameters as it sent. */
    method HandleSendPacket(n: byte, ghost data: seq<byte>, ghost lastN: int)
      requires Valid() && n == ReplyNumber(State(lastN)) && n < 224
      requires sendPtr == Min(|data|, SEND_DATA_SIZE - 1)
      requires sendParms[..sendPtr] == data[..sendPtr]
      modifies `hisQuote, `hisEol, `hisPadCount, `hisPadChar, `sent, `sendPtr, ab
      ensures State(lastN) == Negotiate(old(State(lastN)), data)
    {
      ghost var r := State(lastN);
      hisEol, hisPadCount, hisPadChar, hisQuote := END_CHAR, 0, 0, K_ESCAPE;
      assert State(lastN) == r.(peer := DEFAULT_PEER);
      if sendPtr == SEND_DATA_SIZE - 1 {
        sendPtr := sendPtr - 1;
      }
      var bytes := sendPtr;
      ghost var parms := Parms(data);
      assert parms == sendParms[..bytes];
      AnswerParms(bytes, n, parms, lastN);
    }

    method AnswerParms(bytes: nat, n: byte, ghost parms: seq<byte>, ghost lastN: int)
      requires Valid() && n == ReplyNumber(State(lastN)) && n < 224
      requires bytes < SEND_DATA_SIZE && parms == sendParms[..bytes]
      requires hisQuote == K_ESCAPE && hisEol == END_CHAR && hisPadCount == 0 && hisPadChar == 0
      modifies `hisQuote, `hisEol, `hisPadCount, `hisPadChar, `sent, ab
      ensures State(lastN) == Reply(old(State(lastN)).(peer := PeerFrom(parms)), ACK_TYPE, Answers(bytes))
    {
      assert forall i :: 0 <= i < bytes ==> sendParms[i] == parms[i];
      var length := FillAnswers(bytes, parms);
      assert State(lastN) == old(State(lastN)).(peer := PeerFrom(parms));
      CloseAndSend(length, n, ACK_TYPE, Answers(bytes), lastN);
    }

    ghost predicate Filled(length: nat)
      reads this, ab
    {
      Valid() && 3 <= length <= 3 + |OUR_PARMS| && forall i :: 0 <= i < length - 3 ==> ab[i + 4] == OUR_PARMS[i]
    }

    /** `a_b[++length] = c`. */
    method Answer(length: nat, c: byte) returns (next: nat)
      requires Filled(length) && length < 3 + |OUR_PARMS| && c == OUR_PARMS[length - 3]
      modifies ab
      ensures next == length + 1 && Filled(next)
    {
      next := length + 1;
      ab[next] := c;
    }

    /** The chain of `if (bytes-- <= 0) break;`: the padding ... */
    method FillAnswers(bytes: nat, ghost parms: seq<byte>) returns (length: nat)
      requires Valid() && bytes < SEND_DATA_SIZE
      requires |parms| == bytes && forall i :: 0 <= i < bytes ==> sendParms[i] == parms[i]
      requires hisQuote == K_ESCAPE && hisEol == END_CHAR && hisPadCount == 0 && hisPadChar == 0
      modifies `hisQuote, `hisEol, `hisPadCount, `hisPadChar, ab
      ensures Peer(hisQuote, hisEol, hisPadCount, hisPadChar) == PeerFrom(parms)
      ensures length == 3 + |Answers(bytes)|
      ensures Filled(length)
    {
      length := 3;
      if bytes <= 0 { return; }
      length := Answer(length, ToChar(94));
      if bytes <= 1 { return; }
      length := Answer(length, ToChar(1));
      if bytes <= 2 { return; }
      hisPadCount := UnChar(sendParms[2]);
      length := Answer(length, ToChar(0));
      if bytes <= 3 { return; }
      hisPadChar := Ktrans(sendParms[3]);
      length := Answer(length, 0x40);
      length := FillLine(bytes, length, parms);
    }

    /** ... the end of line and the quote character. */
    method FillLine(bytes: nat, start: nat, ghost parms: seq<byte>) returns (length: nat)
      requires 4 <= bytes < SEND_DATA_SIZE && start == 7 && Filled(start)
      requires |parms| == bytes && forall i :: 0 <= i < bytes ==> sendParms[i] == parms[i]
      requires hisQuote == K_ESCAPE && hisEol == END_CHAR
      modifies `hisQuote, `hisEol, ab
      ensures hisEol == PeerFrom(parms).eol && hisQuote == PeerFrom(parms).quote
      ensures length == 3 + |Answers(bytes)|
      ensures Filled(length)
    {
      length := start;
      if bytes <= 4 { return; }
      hisEol := UnChar(sendParms[4]);
      length := Answer(length, ToChar(END_CHAR));
      if bytes <= 5 { return; }
      hisQuote := sendParms[5];
      length := Answer(length, 35);
      length := FillRest(bytes, length);
    }

    /** The chain from QBIN on: everything the receiver refuses, and its own capabilities. */
    method FillRest(bytes: nat, start: nat) returns (length: nat)
      requires 6 <= bytes < SEND_DATA_SIZE && start == 9 && Filled(start)
      modifies ab
      ensures length == 3 + |Answers(bytes)| && Filled(length)
    {
      length := start;
      if bytes <= 6 { return; }
      length := Answer(length, 78);
      if bytes <= 7 { return; }
      length := Answer(length, 49);
      if bytes <= 8 { return; }
      length := Answer(length, 78);
      if bytes <= 9 { return; }
      length := Answer(length, ToChar(2));
      length := Answer(length, ToChar(0));
      length := Answer(length, ToChar(94));
      length := Answer(length, ToChar(94));
    }

    /** The parameters kept so far of a send-init packet whose data field begins with `data`. */
    ghost predicate Keeps(data: seq<byte>)
      requires Valid()
      reads this, sendParms
    {
      sendPtr == Min(|data|, SEND_DATA_SIZE - 1) && sendParms[..sendPtr] == data[..sendPtr]
    }

    /** Data field, block check and end character, from `pos` on. */
    method ReceiveRest(input: seq<byte>, pos: nat, typ: byte, len: int, check: nat, ghost lastN: int)
      returns (status: Status, next: nat, ghost data: seq<byte>)
      requires Valid() && pos <= |input| && Keeps([])
      modifies `mem, `osDataAddr, `escape, `sendPtr, sendParms
      ensures next <= |input| && Reports(status, input, next, ReadData(input[pos..], typ, [], len, check), typ, data)
      ensures State(lastN) == PutData(old(State(lastN)), typ, data)
      ensures typ == SEND_TYPE ==> Keeps(data)
    {
      var length: int, sum: nat := len, check;
      next, data := pos, [];
      while length > 1
        invariant pos <= next <= |input|
        invariant ReadData(input[next..], typ, data, length, sum) == ReadData(input[pos..], typ, [], len, check)
        invariant State(lastN) == PutData(old(State(lastN)), typ, data)
        invariant typ == SEND_TYPE ==> Keeps(data)
      {
        if next == |input| {
          return Exhausted, next, data;
        }
        var newChar := input[next];
        next := next + 1;
        if newChar < 32 {
          return Rejected, next, data;
        }
        assert input[next - 1..][1..] == input[next..];
        sum := sum + newChar;
        length := length - 1;
        TakeData(newChar, typ, data, lastN);
        PutDataSnoc(old(State(lastN)), typ, data, newChar);
        data := data + [newChar];
      }
      status, next := ReceiveEnd(input, next, typ, length, sum, data);
    }

    /** The character of a data field goes where its packet's type sends it. */
    method TakeData(newChar: byte, typ: byte, ghost data: seq<byte>, ghost lastN: int)
      requires Valid() && (typ == SEND_TYPE ==> Keeps(data))
      modifies `mem, `osDataAddr, `escape, `sendPtr, sendParms
      ensures State(lastN) == if typ == DATA_TYPE then Put(old(State(lastN)), newChar) else old(State(lastN))
      ensures typ == SEND_TYPE ==> Keeps(data + [newChar])
    {
      if typ == DATA_TYPE {
        DataChar(newChar, lastN);
      } else if typ == SEND_TYPE {
        KeepParm(newChar, data);
      }
    }

    /** Block check and end character. */
    method ReceiveEnd(input: seq<byte>, pos: nat, typ: byte, length: int, sum: nat, ghost data: seq<byte>)
      returns (status: Status, next: nat)
      requires pos <= |input| && length <= 1
      ensures next <= |input| && Reports(status, input, next, ReadData(input[pos..], typ, data, length, sum), typ, data)
    {
      next := pos;
      if next == |input| {
        return Exhausted, next;
      }
      var newChar := input[next];
      next := next + 1;
      if newChar < 32 || newChar != Check(sum) {
        return Rejected, next;
      }
      if next == |input| {
        return Exhausted, next;
      }
      newChar := input[next];
      next := next + 1;
      if newChar != END_CHAR {
        return Rejected, next;
      }
      return Complete, next;
    }

    /** `*send_ptr++ = c`, backing off when the buffer is full. */
    method KeepParm(c: byte, ghost data: seq<byte>)
      requires Valid() && Keeps(data)
      modifies `sendPtr, sendParms
      ensures Keeps(data + [c])
    {
      assert forall i :: 0 <= i < sendPtr ==> sendParms[i] == data[..sendPtr][i];
      sendParms[sendPtr] := c;
      sendPtr := sendPtr + 1;
      if sendPtr >= SEND_DATA_SIZE {
        sendPtr := sendPtr - 1;
      }
    }

    /** From the type byte on; `length` and `sum` are what the length and sequence bytes left. */
    method ReceiveTail(input: seq<byte>, pos: nat, lenField: int, header: nat, ghost lastN: int)
      returns (status: Status, next: nat, typ: byte, ghost data: seq<byte>)
      requires Valid() && pos <= |input| && Keeps([])
      modifies `mem, `osDataAddr, `escape, `sendPtr, sendParms
      ensures next <= |input|
      ensures Reports(status, input, next, ReadTail(input[pos..], lenField, header), typ, data)
      ensures State(lastN) == PutData(old(State(lastN)), typ, data)
      ensures status == Complete && typ == SEND_TYPE ==> Keeps(data)
    {
      next, typ, data := pos, 0, [];
      if next == |input| {
        return Exhausted, next, typ, data;
      }
      var newChar := input[next];
      next := next + 1;
      if newChar < 32 {
        return Rejected, next, typ, data;
      }
      var sum := header + newChar;
      typ := newChar;
      var length := lenField - 2;
      assert input[pos..][1..] == input[next..];
      if length == -2 {
        ghost var s := input[next..];
        if next == |input| {
          return Exhausted, next, typ, data;
        }
        newChar := input[next];
        next := next + 1;
        if newChar < 32 {
          return Rejected, next, typ, data;
        }
        sum := sum + newChar;
        var lenHi: int := UnChar(newChar);
        if next == |input| {
          return Exhausted, next, typ, data;
        }
        newChar := input[next];
        next := next + 1;
        if newChar < 32 {
          return Rejected, next, typ, data;
        }
        sum := sum + newChar;
        var lenLo: int := UnChar(newChar);
        length := lenHi * 95 + lenLo;
        if next == |input| {
          return Exhausted, next, typ, data;
        }
        newChar := input[next];
        next := next + 1;
        if newChar < 32 || newChar != Check(sum) {
          return Rejected, next, typ, data;
        }
        sum := sum + newChar;
        assert s[3..] == input[next..];
      }
      status, next, data := ReceiveRest(input, next, typ, length, sum, lastN);
    }

    /** One packet from its length byte on; `lastN` and `typ` are locals of `k_recv`. */
    method ReceivePacket(input: seq<byte>, pos: nat, oldN: int)
      returns (status: Status, next: nat, typ: byte, lastN: int, ghost data: seq<byte>)
      requires Valid() && pos <= |input| && Keeps([]) && -1 <= oldN < 224
      modifies `mem, `osDataAddr, `osDataAddrSaved, `escape, `escapeSaved, `sendPtr, sendParms
      ensures -1 <= lastN < 224 && next <= |input|
      ensures var (r, v) := AfterStart(old(State(oldN)), input[pos..]);
              State(lastN) == r && Reports(status, input, next, v, typ, data)
      ensures status == Complete && typ == SEND_TYPE ==> Keeps(data)
    {
      next, typ, lastN, data := pos, 0, oldN, [];
      ghost var s := input[pos..];
      if next == |input| {
        return Exhausted, next, typ, lastN, data;
      }
      var newChar := input[next];
      next := next + 1;
      if newChar < 32 {
        return Rejected, next, typ, lastN, data;
      }
      var sum: int := newChar;
      var length: int := UnChar(newChar);
      if next == |input| {
        return Exhausted, next, typ, lastN, data;
      }
      newChar := input[next];
      next := next + 1;
      if newChar < 32 {
        return Rejected, next, typ, lastN, data;
      }
      sum := sum + newChar;
      var n := UnChar(newChar);
      if n == lastN {
        DataRestore(lastN);
      } else {
        lastN := n;
        DataSave(lastN);
      }
      assert State(lastN) == Number(old(State(oldN)), n);
      assert s[2..] == input[next..];
      status, next, typ, data := ReceiveTail(input, next, length, sum, lastN);
    }

    /** Reads a packet and replies; None when another one is to be awaited. */
    method HandlePacket(input: seq<byte>, pos: nat, oldN: int) returns (next: nat, lastN: int, end: Option<Outcome>)
      requires Valid() && pos <= |input| && Keeps([]) && -1 <= oldN < 224
      modifies `mem, `osDataAddr, `osDataAddrSaved, `escape, `escapeSaved, `hisQuote, `hisEol, `hisPadCount,
               `hisPadChar, `sent, `sendPtr, sendParms, ab
      ensures -1 <= lastN < 224 && next <= |input|
      ensures (State(lastN), if end.Some? then Stop(end.value) else More(input[next..]))
           == Packet(old(State(oldN)), binStart, input[pos..])
    {
      var status, typ;
      ghost var data;
      status, next, typ, lastN, data := ReceivePacket(input, pos, oldN);
      end := None;
      if status == Exhausted {
        end := Some(Blocked);
      } else if status == Rejected {
        DataRestore(lastN);
        SendReply(NACK_TYPE, lastN);
      } else if typ == SEND_TYPE {
        HandleSendPacket(if lastN == -1 then 0 else lastN, data, lastN);
      } else {
        SendReply(ACK_TYPE, lastN);
        if typ == BREAK_TYPE {
          end := Some(Done(osDataAddr - binStart));
        }
      }
    }

    /** Waits for the start of a packet or ^C. */
    method AwaitStart(input: seq<byte>, pos: nat, ghost r: Rx, ghost start: int) returns (next: nat)
      requires pos <= |input|
      ensures pos <= next <= |input| && (next < |input| ==> input[next] == START_CHAR || input[next] == ETX_CHAR)
      ensures Session(r, start, input[next..]) == Session(r, start, input[pos..])
    {
      next := pos;
      while next < |input| && input[next] != START_CHAR && input[next] != ETX_CHAR
        invariant pos <= next <= |input|
        invariant Session(r, start, input[next..]) == Session(r, start, input[pos..])
      {
        next := next + 1;
      }
    }

    /** One turn of `k_recv`: the next packet, or ^C, or no more input. */
    method ReceiveNext(input: seq<byte>, pos: nat, oldN: int) returns (next: nat, last: int, end: Option<Outcome>)
      requires Valid() && pos <= |input| && -1 <= oldN < 224 && Keeps([])
      modifies `mem, `osDataAddr, `osDataAddrSaved, `escape, `escapeSaved, `hisQuote, `hisEol, `hisPadCount,
               `hisPadChar, `sent, `sendPtr, sendParms, ab
      ensures -1 <= last < 224 && next <= |input| && (end.None? ==> next > pos)
      ensures Session(old(State(oldN)), binStart, input[pos..])
           == if end.Some? then (State(last), end.value) else Session(State(last), binStart, input[next..])
    {
      last, end := oldN, None;
      next := AwaitStart(input, pos, State(last), binStart);
      if next == |input| {
        end := Some(Blocked);
        return;
      }
      if input[next] == ETX_CHAR {
        end := Some(Cancelled);
        return;
      }
      ghost var r, s := State(last), input[next..];
      assert s[1..] == input[next + 1..];
      next, last, end := HandlePacket(input, next + 1, last);
      SessionPacket(r, binStart, s, State(last), if end.Some? then Stop(end.value) else More(input[next..]));
    }

    /** The protocol parameters and `k_data_init`, with the first checkpoint. */
    method Begin(start: int)
      modifies `binStart, `osDataAddr, `osDataAddrSaved, `escape, `escapeSaved, `hisQuote, `hisEol, `hisPadCount,
               `hisPadChar
      ensures State(-1) == InitialRx(old(mem), start, old(sent)) && binStart == start
    {
      hisEol, hisPadCount, hisPadChar, hisQuote := END_CHAR, 0, 0, K_ESCAPE;
      binStart, osDataAddr, escape := start, start, false;
      DataSave(-1);
    }

    /** `k_recv`: receives a whole transfer to memory at `start`. */
    method KRecv(input: seq<byte>, start: int) returns (outcome: Outcome, ghost lastN: int)
      requires Valid()
      modifies this, sendParms, ab
      ensures Valid()
      ensures (State(lastN), outcome) == Session(InitialRx(old(mem), start, old(sent)), start, input)
    {
      Begin(start);
      var last := -1;
      var pos := 0;
      var end := None;
      assert input[pos..] == input;
      ghost var initial := State(last);
      while true
        invariant pos <= |input| && -1 <= last < 224 && binStart == start && Valid()
        invariant Session(State(last), start, input[pos..]) == Session(initial, start, input)
        decreases |input| - pos
      {
        sendPtr := 0;
        pos, last, end := ReceiveNext(input, pos, last);
        if end.Some? {
          return end.value, last;
        }
      }
    }

    /** `send_ack` and `send_nack`. */
    method SendReply(typ: byte, last: int)
      requires Valid() && -1 <= last < 224 && typ != 0
      modifies `sent, ab
      ensures State(last) == Reply(old(State(last)), typ, [])
    {
      CloseAndSend(3, if last == -1 then 0 else last, typ, [], last);
    }
  }
}
