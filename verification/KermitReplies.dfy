/** What the receiver answers: one reply to every packet, with the right type and number, over whole sessions. */
module KermitReplies {
  import opened Common
  import opened KermitCoding
  import opened KermitPackets
  import opened KermitReceiver
  import opened KermitDelivery

  /** How the other side wants its packets: padding in front, and a line end unless it is 0. */
  datatype Line = Line(padCount: nat, padChar: byte, eol: byte)

  /** A number sent as a printable character. */
  function Unshifted(c: byte): byte {
    ((c as int) - 32) % 256
  }

  /** `out` is one packet for a line, which the receiver's own reader accepts as a packet of type `typ` with the number
      `n` and the given data field, once a carriage return stands where the line end is. */
  predicate IsPacket(out: seq<byte>, line: Line, typ: byte, n: byte, fields: seq<byte>) {
    var p, end := line.padCount, if line.eol == 0 then 0 else 1;
    && |out| >= p + 3 + end
    && (forall i :: 0 <= i < p ==> out[i] == line.padChar)
    && out[p] == 0x01 && Unshifted(out[p + 2]) == n
    && (line.eol != 0 ==> out[|out| - 1] == line.eol)
    && ReadTail(out[p + 3..|out| - end] + [0x0D], Unshifted(out[p + 1]), (out[p + 1] as int) + out[p + 2])
       == Good([], typ, fields)
  }

  /** The line that a send-init packet's data field asks for: NPAD, PADC and EOL, as far as they are there. PADC is
      sent as a control character shifted by 64. */
  function AskedFor(data: seq<byte>): Line {
    Line(if |data| > 2 then Unshifted(data[2]) else 0,
         if |data| <= 3 then 0
         else if 64 <= data[3] % 128 < 96 then data[3] - 64
         else if data[3] % 128 == 63 then data[3] + 64 else data[3],
         if |data| > 4 then Unshifted(data[4]) else 0x0D)
  }

  /** An accepted send-init packet. */
  predicate SendsInit(ev: Event) {
    IsGood(ev) && VerdictOf(ev).typ == 0x53
  }

  /** The line to answer on after some packets: the one asked for last, at first without padding and with a carriage
      return. */
  function LineAfter(evs: seq<Event>): Line {
    if evs == [] then Line(0, 0, 0x0D)
    else
      var k := |evs| - 1;
      if SendsInit(evs[k]) then AskedFor(VerdictOf(evs[k]).data) else LineAfter(evs[..k])
  }

  /** The last number received, 0 before there was any. */
  function NumberAfter(evs: seq<Event>): byte {
    if evs == [] then 0
    else
      var k := |evs| - 1;
      if evs[k].Copy? then evs[k].n else NumberAfter(evs[..k])
  }

  /** An answer has as many parameters as were sent, the first nine one by one, then all thirteen: packets of 94
      characters, 1 s, no padding, `@`, carriage return, `#`, no 8-bit prefix, check 1, no repeats, long packets only. */
  function Parameters(count: nat): seq<byte> {
    ['~' as int, '!' as int, ' ' as int, '@' as int, '-' as int, '#' as int, 'N' as int, '1' as int, 'N' as int,
     '\"' as int, ' ' as int, '~' as int, '~' as int][..if count < 10 then count else 13]
  }

  /** The reply to the last of some packets: `Y` when it was accepted, `N` when it was rejected or had a broken header. */
  predicate Fits(out: seq<byte>, evs: seq<Event>)
    requires evs != []
  {
    var ev := evs[|evs| - 1];
    IsPacket(out, LineAfter(evs), if IsGood(ev) then 0x59 else 0x4E, NumberAfter(evs),
             if SendsInit(ev) then Parameters(|VerdictOf(ev).data|) else [])
  }

  function Joined(replies: seq<seq<byte>>): seq<byte> {
    if replies == [] then [] else Joined(replies[..|replies| - 1]) + replies[|replies| - 1]
  }

  // ---- one reply

  function LineOf(peer: Peer): Line {
    Line(peer.padCount, peer.padChar, peer.eol)
  }

  lemma Unpadded(pads: seq<byte>, p: seq<byte>, i: nat)
    requires i <= |p|
    ensures (pads + p)[|pads| + i..] == p[i..] && forall k :: 0 <= k < |p| ==> (pads + p)[|pads| + k] == p[k]
  {
  }

  lemma PacketOf(out: seq<byte>, line: Line, typ: byte, n: byte, fields: seq<byte>, pads: seq<byte>, length: byte,
                 number: byte, tail: seq<byte>)
    requires |pads| == line.padCount && forall i :: 0 <= i < |pads| ==> pads[i] == line.padChar
    requires out == pads + ([0x01, length, number] + tail + if line.eol == 0 then [] else [line.eol])
    requires Unshifted(number) == n
    requires ReadTail(tail + [0x0D], Unshifted(length), (length as int) + number) == Good([], typ, fields)
    ensures IsPacket(out, line, typ, n, fields)
  {
    var p, end := [0x01, length, number] + tail + if line.eol == 0 then [] else [line.eol], if line.eol == 0 then 0 else 1;
    Unpadded(pads, p, 3);
    assert p[3..|p| - end] == tail;
    assert out[|pads| + 3..|out| - end] == tail;
  }

  /** What follows length and number in a reply, up to its check. */
  function ReplyTail(length: byte, number: byte, typ: byte, fields: seq<byte>): seq<byte> {
    [typ] + fields + [Check(Sum([length, number, typ] + fields))]
  }

  lemma ReplyTailRead(length: byte, number: byte, typ: byte, fields: seq<byte>)
    requires typ >= 32 && Printable(fields)
    ensures ReadTail(ReplyTail(length, number, typ, fields) + [0x0D], |fields| + 3, (length as int) + number)
         == Good([], typ, fields)
  {
    var sum := (length as int) + number;
    BodySum(length, number, typ, fields);
    assert ReplyTail(length, number, typ, fields) + [0x0D] == ShortTail(typ, fields, sum);
    ShortFrameAccepted(typ, fields, sum);
  }

  lemma ReplyText(eol: byte, typ: byte, n: byte, fields: seq<byte>)
    ensures ReplyPacket(eol, typ, n, fields)
         == [0x01, ToChar(3 + |fields|), ToChar(n)] + ReplyTail(ToChar(3 + |fields|), ToChar(n), typ, fields)
            + if eol == 0 then [] else [eol]
  {
  }

  /** A reply as it is built, with any line end. */
  lemma ReplyIsPacket(peer: Peer, typ: byte, n: byte, fields: seq<byte>)
    requires typ >= 32 && n < 224 && Printable(fields) && |fields| <= 91
    ensures IsPacket(ReplyBytes(peer, typ, n, fields), LineOf(peer), typ, n, fields)
  {
    var length, number := ToChar(3 + |fields|), ToChar(n);
    CharReadsBack(3 + |fields|);
    ReplyTailRead(length, number, typ, fields);
    ReplyText(peer.eol, typ, n, fields);
    PacketOf(ReplyBytes(peer, typ, n, fields), LineOf(peer), typ, n, fields, Pads(peer), length, number,
             ReplyTail(length, number, typ, fields));
  }

  // ---- one event

  /** The peer's line and the last number, as far as replies go. */
  predicate Replying(r: Rx, evs: seq<Event>) {
    LineOf(r.peer) == LineAfter(evs) && (if r.lastN == -1 then 0 else r.lastN) == NumberAfter(evs) && -1 <= r.lastN < 224
  }

  lemma AskedForIs(data: seq<byte>)
    ensures LineOf(PeerFrom(Parms(data))) == AskedFor(data)
  {
  }

  lemma ParametersAre(data: seq<byte>)
    ensures Answers(|Parms(data)|) == Parameters(|data|) && Printable(Parameters(|data|)) && |Parameters(|data|)| <= 13
  {
  }

  lemma {:induction false} DataKeeps(r: Rx, data: seq<byte>)
    ensures var r' := PutAll(r, data); r'.sent == r.sent && r'.peer == r.peer && r'.lastN == r.lastN
  {
    if data != [] {
      DataKeeps(r, data[..|data| - 1]);
    }
  }

  lemma ReplyGrows(r: Rx, typ: byte, fields: seq<byte>) returns (out: seq<byte>)
    requires typ >= 32 && -1 <= r.lastN < 224 && Printable(fields) && |fields| <= 13
    ensures Reply(r, typ, fields) == r.(sent := r.sent + out)
    ensures IsPacket(out, LineOf(r.peer), typ, if r.lastN == -1 then 0 else r.lastN, fields)
  {
    out := ReplyBytes(r.peer, typ, ReplyNumber(r), fields);
    ReplyIsPacket(r.peer, typ, ReplyNumber(r), fields);
  }

  /** The state in which a packet with a readable header is answered. */
  lemma HeardKeeps(r: Rx, evs: seq<Event>, ev: Event)
    requires Replying(r, evs) && ValidEvent(ev) && ev.Copy?
    ensures var r1 := PutData(Number(r, ev.n), VerdictOf(ev).typ, VerdictOf(ev).data);
            r1.sent == r.sent && r1.peer == r.peer && r1.lastN == ev.n == NumberAfter(evs + [ev])
  {
    DataKeeps(Number(r, ev.n), VerdictOf(ev).data);
  }

  lemma LastOfRun(evs: seq<Event>, ev: Event)
    ensures (evs + [ev])[..|evs|] == evs && (evs + [ev])[|evs + [ev]| - 1] == ev
    ensures NumberAfter(evs + [ev]) == if ev.Copy? then ev.n else NumberAfter(evs)
    ensures LineAfter(evs + [ev]) == if SendsInit(ev) then AskedFor(VerdictOf(ev).data) else LineAfter(evs)
  {
  }

  /** A packet, whatever came before it, gets one reply. */
  lemma StepReplies(r: Rx, evs: seq<Event>, ev: Event) returns (out: seq<byte>)
    requires Replying(r, evs) && ValidEvent(ev)
    ensures Step(r, ev).sent == r.sent + out && Fits(out, evs + [ev]) && Replying(Step(r, ev), evs + [ev])
  {
    LastOfRun(evs, ev);
    if ev.BadHeader? {
      out := ReplyGrows(Restore(r), NACK_TYPE, []);
    } else {
      var v := VerdictOf(ev);
      var r1 := PutData(Number(r, ev.n), v.typ, v.data);
      HeardKeeps(r, evs, ev);
      if !v.Good? {
        out := ReplyGrows(Restore(r1), NACK_TYPE, []);
      } else if v.typ == SEND_TYPE {
        AskedForIs(v.data);
        ParametersAre(v.data);
        out := ReplyGrows(r1.(peer := PeerFrom(Parms(v.data))), ACK_TYPE, Parameters(|v.data|));
      } else {
        out := ReplyGrows(r1, ACK_TYPE, []);
      }
    }
  }

  // ---- runs and sessions

  /** Each event has its reply. */
  predicate AllFit(replies: seq<seq<byte>>, evs: seq<Event>) {
    if evs == [] then replies == []
    else
      var k := |evs| - 1;
      |replies| == k + 1 && AllFit(replies[..k], evs[..k]) && Fits(replies[k], evs)
  }

  lemma AllFitSnoc(replies: seq<seq<byte>>, out: seq<byte>, evs: seq<Event>, ev: Event)
    requires AllFit(replies, evs) && Fits(out, evs + [ev])
    ensures AllFit(replies + [out], evs + [ev])
  {
    AllFitLength(replies, evs);
    assert (replies + [out])[..|evs|] == replies && (evs + [ev])[..|evs|] == evs;
  }

  lemma AllFitLength(replies: seq<seq<byte>>, evs: seq<Event>)
    requires AllFit(replies, evs)
    ensures |replies| == |evs|
  {
  }

  lemma ReplyAdded(sent: seq<byte>, before: seq<seq<byte>>, out: seq<byte>)
    ensures sent + Joined(before + [out]) == (sent + Joined(before)) + out
  {
    assert (before + [out])[..|before|] == before;
  }

  lemma {:induction false} StepsReply(r: Rx, evs: seq<Event>) returns (replies: seq<seq<byte>>)
    requires Replying(r, []) && forall ev :: ev in evs ==> ValidEvent(ev)
    ensures Steps(r, evs).sent == r.sent + Joined(replies) && AllFit(replies, evs) && Replying(Steps(r, evs), evs)
  {
    if evs == [] {
      replies := [];
      assert r.sent + [] == r.sent;
    } else {
      var k := |evs| - 1;
      var before := StepsReply(r, evs[..k]);
      var out := StepReplies(Steps(r, evs[..k]), evs[..k], evs[k]);
      replies := before + [out];
      ReplyAdded(r.sent, before, out);
      assert evs == evs[..k] + [evs[k]];
      AllFitSnoc(before, out, evs[..k], evs[k]);
    }
  }

  /** Main result: over a whole session on the wire, from its first byte to the packet that ends it, the receiver sends
      one reply to each packet and nothing else. */
  lemma {:induction false} SessionReplies(mem: map<int, byte>, start: int, sent: seq<byte>, init: seq<Event>,
                                          last: Event) returns (replies: seq<seq<byte>>)
    requires (forall ev :: ev in init ==> ValidEvent(ev) && !Ends(ev)) && ValidEvent(last) && Ends(last)
    ensures Session(InitialRx(mem, start, sent), start, AllBytes(init + [last])).0.sent == sent + Joined(replies)
    ensures AllFit(replies, init + [last])
  {
    SessionEnds(InitialRx(mem, start, sent), start, init, last, init + [last]);
    replies := StepsReply(InitialRx(mem, start, sent), init + [last]);
  }
}
