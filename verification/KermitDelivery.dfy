/** What the receiver leaves in memory, for any packets on the line: accepted, rejected, damaged, in any order. */
module KermitDelivery {
  import opened Common
  import opened KermitCoding
  import opened KermitPackets
  import opened KermitReceiver

  /** Something that happens on the line, after some noise: a packet whose length and sequence bytes are printable,
      with whatever number it then carries, or one whose length or sequence byte is not. */
  datatype Event =
    | Copy(noise: seq<byte>, lenByte: byte, n: byte, tail: seq<byte>)
    | BadHeader(noise: seq<byte>, header: seq<byte>)

  predicate Quiet(s: seq<byte>) {
    START_CHAR !in s && ETX_CHAR !in s
  }

  function VerdictOf(ev: Event): Verdict
    requires ev.Copy?
  {
    ReadTail(ev.tail, UnChar(ev.lenByte), (ev.lenByte as int) + ToChar(ev.n))
  }

  /** A packet ends where the receiver's checks accept or reject it. */
  predicate ValidEvent(ev: Event) {
    Quiet(ev.noise) &&
    match ev
    case Copy(_, lenByte, n, tail) => lenByte >= 32 && n < 224 && !VerdictOf(ev).Starved? && VerdictOf(ev).rest == []
    case BadHeader(_, header) =>
      (|header| == 1 && header[0] < 32) || (|header| == 2 && header[0] >= 32 && header[1] < 32)
  }

  predicate IsGood(ev: Event) {
    ev.Copy? && VerdictOf(ev).Good?
  }

  function Bytes(ev: Event): seq<byte> {
    ev.noise + [START_CHAR] + if ev.Copy? then [ev.lenByte, ToChar(ev.n)] + ev.tail else ev.header
  }

  function AllBytes(evs: seq<Event>): seq<byte> {
    if evs == [] then [] else Bytes(evs[0]) + AllBytes(evs[1..])
  }

  /** The step model: what one event does to the receiver. */
  function Step(r: Rx, ev: Event): Rx {
    if ev.BadHeader? then Nack(r)
    else
      var v := VerdictOf(ev);
      var r1 := PutData(Number(r, ev.n), v.typ, v.data);
      if !v.Good? then Nack(r1)
      else if v.typ == SEND_TYPE then Negotiate(r1, v.data)
      else Reply(r1, ACK_TYPE, [])
  }

  function Steps(r: Rx, evs: seq<Event>): Rx {
    if evs == [] then r else Step(Steps(r, evs[..|evs| - 1]), evs[|evs| - 1])
  }

  predicate Ends(ev: Event) {
    IsGood(ev) && VerdictOf(ev).typ == BREAK_TYPE
  }

  lemma {:induction false} SkipNoise(r: Rx, start: int, noise: seq<byte>, more: seq<byte>)
    requires Quiet(noise)
    ensures Session(r, start, noise + more) == Session(r, start, more)
  {
    if noise == [] {
      assert noise + more == more;
    } else {
      assert noise[0] in noise;
      assert (noise + more)[1..] == noise[1..] + more;
      SkipNoise(r, start, noise[1..], more);
    }
  }

  lemma CopyScanned(r: Rx, ev: Event, more: seq<byte>)
    requires ValidEvent(ev) && ev.Copy?
    ensures AfterStart(r, ([ev.lenByte, ToChar(ev.n)] + ev.tail) + more)
         == (PutData(Number(r, ev.n), VerdictOf(ev).typ, VerdictOf(ev).data), VerdictOf(ev).Then(more))
  {
    assert (([ev.lenByte, ToChar(ev.n)] + ev.tail) + more)[2..] == ev.tail + more;
    assert UnChar(ToChar(ev.n)) == ev.n;
    ReadTailLocal(ev.tail, UnChar(ev.lenByte), (ev.lenByte as int) + ToChar(ev.n), more);
  }

  lemma CopyRead(r: Rx, start: int, ev: Event, more: seq<byte>)
    requires ValidEvent(ev) && ev.Copy?
    ensures Session(r, start, [START_CHAR] + ([ev.lenByte, ToChar(ev.n)] + ev.tail) + more)
         == if Ends(ev) then (Step(r, ev), Done(Step(r, ev).addr - start)) else Session(Step(r, ev), start, more)
  {
    var body := [ev.lenByte, ToChar(ev.n)] + ev.tail;
    assert ([START_CHAR] + body + more)[1..] == body + more;
    CopyScanned(r, ev, more);
    assert [] + more == more;
  }

  lemma HeaderRead(r: Rx, start: int, ev: Event, more: seq<byte>)
    requires ValidEvent(ev) && ev.BadHeader?
    ensures Session(r, start, [START_CHAR] + ev.header + more) == Session(Step(r, ev), start, more)
  {
    assert ([START_CHAR] + ev.header + more)[1..] == ev.header + more;
    assert (ev.header + more)[|ev.header|..] == more;
  }

  /** The byte-level machine refines the step model, event by event. */
  lemma SessionStep(r: Rx, start: int, ev: Event, more: seq<byte>)
    requires ValidEvent(ev)
    ensures Session(r, start, Bytes(ev) + more)
         == if Ends(ev) then (Step(r, ev), Done(Step(r, ev).addr - start)) else Session(Step(r, ev), start, more)
  {
    var line := [START_CHAR] + (if ev.Copy? then [ev.lenByte, ToChar(ev.n)] + ev.tail else ev.header) + more;
    assert Bytes(ev) + more == ev.noise + line;
    SkipNoise(r, start, ev.noise, line);
    if ev.Copy? {
      CopyRead(r, start, ev, more);
    } else {
      HeaderRead(r, start, ev, more);
    }
  }

  lemma {:induction false} SessionSteps(r: Rx, start: int, evs: seq<Event>, more: seq<byte>)
    requires forall ev :: ev in evs ==> ValidEvent(ev) && !Ends(ev)
    ensures Session(r, start, AllBytes(evs) + more) == Session(Steps(r, evs), start, more)
    decreases evs
  {
    if evs == [] {
      assert [] + more == more;
    } else {
      assert AllBytes(evs) + more == Bytes(evs[0]) + (AllBytes(evs[1..]) + more);
      SessionStep(r, start, evs[0], AllBytes(evs[1..]) + more);
      SessionSteps(Step(r, evs[0]), start, evs[1..], more);
      StepsCons(r, evs);
    }
  }

  lemma {:induction false} StepsCons(r: Rx, evs: seq<Event>)
    requires evs != []
    ensures Steps(r, evs) == Steps(Step(r, evs[0]), evs[1..])
  {
    if |evs| == 1 {
      assert evs[..0] == [];
    } else {
      StepsCons(r, evs[..|evs| - 1]);
      assert evs[..|evs| - 1][1..] == evs[1..][..|evs[1..]| - 1];
    }
  }

  lemma {:induction false} StepsConcat(r: Rx, a: seq<Event>, b: seq<Event>)
    ensures Steps(r, a + b) == Steps(Steps(r, a), b)
  {
    if b == [] {
      assert a + b == a;
    } else {
      assert (a + b)[..|a + b| - 1] == a + b[..|b| - 1];
      StepsConcat(r, a, b[..|b| - 1]);
    }
  }

  // ---- what has been delivered, and with which quote character

  /** The byte at an address, if anything was ever there. */
  function Peek(mem: map<int, byte>, a: int): Option<byte> {
    if a in mem then Some(mem[a]) else None
  }

  ghost predicate Holds(mem: map<int, byte>, start: int, out: seq<byte>) {
    forall i :: 0 <= i < |out| ==> Peek(mem, start + i) == Some(out[i])
  }

  ghost predicate At(r: Rx, start: int, d: Decoded) {
    r.addr == start + |d.out| && r.esc == d.esc && Holds(r.mem, start, d.out)
  }

  ghost predicate Saved(r: Rx, start: int, d: Decoded) {
    r.addrSaved == start + |d.out| && r.escSaved == d.esc && Holds(r.mem, start, d.out)
  }

  /** Nothing below the load address differs. */
  ghost predicate SameBelow(m: map<int, byte>, m': map<int, byte>, start: int) {
    forall a :: a < start ==> Peek(m, a) == Peek(m', a)
  }

  lemma PutDecodes(r: Rx, start: int, d: Decoded, d0: Decoded, c: byte)
    requires At(r, start, d) && Saved(r, start, d0) && d0.out <= d.out
    ensures var r' := Put(r, c);
            && At(r', start, FeedByte(d, r.peer.quote, c)) && Saved(r', start, d0)
            && SameBelow(r.mem, r'.mem, start)
            && r' == r.(mem := r'.mem, addr := r'.addr, esc := r'.esc)
            && d0.out <= FeedByte(d, r.peer.quote, c).out
  {
    assert forall i :: 0 <= i < |d0.out| ==> d0.out[i] == d.out[i];
  }

  /** Decoding into memory is decoding, and rewrites nothing that was delivered before. */
  lemma {:induction false} PutAllDecodes(r: Rx, start: int, d: Decoded, d0: Decoded, data: seq<byte>)
    requires At(r, start, d) && Saved(r, start, d0) && d0.out <= d.out
    ensures var r' := PutAll(r, data);
            && At(r', start, Feed(d, r.peer.quote, data)) && Saved(r', start, d0)
            && SameBelow(r.mem, r'.mem, start)
            && r' == r.(mem := r'.mem, addr := r'.addr, esc := r'.esc)
            && d0.out <= Feed(d, r.peer.quote, data).out
  {
    if data != [] {
      var init := data[..|data| - 1];
      PutAllDecodes(r, start, d, d0, init);
      PutDecodes(PutAll(r, init), start, Feed(d, r.peer.quote, init), d0, data[|data| - 1]);
    }
  }

  // ---- where the receiver stands, apart from memory

  /** What the checkpoint and the position stand for, the last number, and the quote character. */
  datatype Mark = Mark(saved: Decoded, pos: Decoded, last: int, quote: byte)

  const START_MARK := Mark(NOTHING, NOTHING, -1, K_ESCAPE)

  /** A packet that takes the receiver back to its checkpoint: a broken header, or the number received last. Any
      other number moves the checkpoint to the position instead. */
  predicate Rolls(ev: Event, last: int) {
    ev.BadHeader? || ev.n == last
  }

  function Hear(m: Mark, ev: Event): Mark {
    var base := if Rolls(ev, m.last) then m.saved else m.pos;
    if ev.BadHeader? then Mark(base, base, m.last, m.quote)
    else
      var v := VerdictOf(ev);
      if !v.Good? then Mark(base, base, ev.n, m.quote)
      else Mark(base, Feed(base, m.quote, DataIn(v.typ, v.data)), ev.n, QuoteAfter(m.quote, v.typ, v.data))
  }

  function DataIn(typ: byte, data: seq<byte>): seq<byte> {
    if typ == DATA_TYPE then data else []
  }

  function QuoteAfter(quote: byte, typ: byte, data: seq<byte>): byte {
    if typ == SEND_TYPE then PeerFrom(Parms(data)).quote else quote
  }

  function Listen(m: Mark, evs: seq<Event>): Mark {
    if evs == [] then m else Hear(Listen(m, evs[..|evs| - 1]), evs[|evs| - 1])
  }

  lemma {:induction false} ListenConcat(m: Mark, a: seq<Event>, b: seq<Event>)
    ensures Listen(m, a + b) == Listen(Listen(m, a), b)
  {
    if b == [] {
      assert a + b == a;
    } else {
      assert (a + b)[..|a + b| - 1] == a + b[..|b| - 1];
      ListenConcat(m, a, b[..|b| - 1]);
    }
  }

  /** Memory holds what the position stands for, and so what the checkpoint in front of it does. */
  ghost predicate Tracks(r: Rx, start: int, m: Mark) {
    && At(r, start, m.pos) && Saved(r, start, m.saved)
    && r.lastN == m.last && r.peer.quote == m.quote
  }

  lemma NumberTracks(r: Rx, start: int, m: Mark, n: int)
    requires Tracks(r, start, m)
    ensures var r', base := Number(r, n), if n == m.last then m.saved else m.pos;
            At(r', start, base) && Saved(r', start, base) && r'.lastN == n && r'.mem == r.mem && r'.peer == r.peer
  {
  }

  lemma DataTracks(r: Rx, start: int, m: Mark, n: int, typ: byte, data: seq<byte>)
    requires Tracks(r, start, m)
    ensures var r', base := PutData(Number(r, n), typ, data), if n == m.last then m.saved else m.pos;
            && At(r', start, Feed(base, m.quote, DataIn(typ, data))) && Saved(r', start, base)
            && r'.lastN == n && r'.peer.quote == m.quote && SameBelow(r.mem, r'.mem, start)
  {
    var base := if n == m.last then m.saved else m.pos;
    NumberTracks(r, start, m, n);
    PutAllDecodes(Number(r, n), start, base, base, data);
  }

  /** One packet, accepted or rejected, with any number: nothing that is kept is rewritten. */
  lemma StepTracks(r: Rx, start: int, m: Mark, ev: Event)
    requires Tracks(r, start, m)
    ensures Tracks(Step(r, ev), start, Hear(m, ev)) && SameBelow(r.mem, Step(r, ev).mem, start)
  {
    if ev.Copy? {
      DataTracks(r, start, m, ev.n, VerdictOf(ev).typ, VerdictOf(ev).data);
    }
  }

  lemma {:induction false} StepsTrack(r: Rx, start: int, m: Mark, evs: seq<Event>)
    requires Tracks(r, start, m)
    ensures Tracks(Steps(r, evs), start, Listen(m, evs)) && SameBelow(r.mem, Steps(r, evs).mem, start)
  {
    if evs != [] {
      var init := evs[..|evs| - 1];
      StepsTrack(r, start, m, init);
      StepTracks(Steps(r, init), start, Listen(m, init), evs[|evs| - 1]);
    }
  }

  // ---- whole sessions

  /** Events that do not end a session, then one that does. */
  lemma SessionEnds(r: Rx, start: int, init: seq<Event>, last: Event, all: seq<Event>)
    requires (forall ev :: ev in init ==> ValidEvent(ev) && !Ends(ev)) && ValidEvent(last) && Ends(last)
    requires all == init + [last]
    ensures Session(r, start, AllBytes(all)) == (Steps(r, all), Done(Steps(r, all).addr - start))
  {
    AllBytesSnoc(init, last);
    SessionSteps(r, start, init, Bytes(last));
    LastEventEnds(Steps(r, init), start, last);
    assert all[..|init|] == init;
  }

  lemma LastEventEnds(r: Rx, start: int, last: Event)
    requires ValidEvent(last) && Ends(last)
    ensures Session(r, start, Bytes(last)) == (Step(r, last), Done(Step(r, last).addr - start))
  {
    SessionStep(r, start, last, []);
    assert Bytes(last) + [] == Bytes(last);
  }

  lemma {:induction false} AllBytesSnoc(evs: seq<Event>, ev: Event)
    ensures AllBytes(evs + [ev]) == AllBytes(evs) + Bytes(ev)
  {
    if evs == [] {
      assert [ev][1..] == [];
      assert [] + [ev] == [ev];
      assert AllBytes([ev]) == Bytes(ev) + [];
      assert [] + Bytes(ev) == Bytes(ev) + [];
    } else {
      assert (evs + [ev])[1..] == evs[1..] + [ev];
      AllBytesSnoc(evs[1..], ev);
    }
  }

  /** Between packets a ^C cancels the session, with any input behind it; without one it waits for more. */
  lemma {:induction false} SessionStops(mem: map<int, byte>, start: int, sent: seq<byte>, init: seq<Event>,
                                        noise: seq<byte>, more: seq<byte>)
    requires (forall ev :: ev in init ==> ValidEvent(ev) && !Ends(ev)) && 0x01 !in noise && 0x03 !in noise
    ensures Session(InitialRx(mem, start, sent), start, AllBytes(init) + (noise + ([0x03] + more))).1 == Cancelled
    ensures Session(InitialRx(mem, start, sent), start, AllBytes(init) + noise).1 == Blocked
  {
    var r0 := InitialRx(mem, start, sent);
    SessionSteps(r0, start, init, noise + ([0x03] + more));
    SkipNoise(Steps(r0, init), start, noise, [0x03] + more);
    SessionSteps(r0, start, init, noise);
    SkipNoise(Steps(r0, init), start, noise, []);
    assert noise + [] == noise;
  }

  /** Main result: whatever packets come before one that ends the session, with any numbers and any damage, the
      receiver returns, and memory from the load address on holds exactly what the position stands for, with nothing
      below it touched. */
  lemma {:induction false} SessionDelivers(mem: map<int, byte>, start: int, sent: seq<byte>, init: seq<Event>,
                                           last: Event)
    requires (forall ev :: ev in init ==> ValidEvent(ev) && !Ends(ev)) && ValidEvent(last) && Ends(last)
    ensures var (r, outcome) := Session(InitialRx(mem, start, sent), start, AllBytes(init + [last]));
            var out := Listen(START_MARK, init + [last]).pos.out;
            outcome == Done(|out|) && Holds(r.mem, start, out) && SameBelow(mem, r.mem, start)
  {
    var r0 := InitialRx(mem, start, sent);
    SessionEnds(r0, start, init, last, init + [last]);
    StepsTrack(r0, start, START_MARK, init + [last]);
  }

  /** An undamaged normal-length copy of a packet. */
  function IntactCopy(n: byte, typ: byte, data: seq<byte>): Event {
    Copy([], ToChar(3 + |data|), n, ShortTail(typ, data, (ToChar(3 + |data|) as int) + ToChar(n)))
  }

  lemma CharReadsBack(x: nat)
    requires x < 95
    ensures UnChar(ToChar(x)) == x && ToChar(x) == 32 + x
  {
  }

  lemma IntactCopyGood(n: byte, typ: byte, data: seq<byte>)
    requires n < 224 && typ >= 32 && Printable(data) && |data| <= 91
    ensures ValidEvent(IntactCopy(n, typ, data)) && VerdictOf(IntactCopy(n, typ, data)) == Good([], typ, data)
  {
    CharReadsBack(3 + |data|);
    ShortFrameAccepted(typ, data, (ToChar(3 + |data|) as int) + ToChar(n));
  }

  /** The replies are packets by the receiver's own rules: what follows length and number is a tail that its reader
      accepts with the type and fields of the reply. */
  lemma ReplyReadsBack(typ: byte, n: byte, fields: seq<byte>) returns (tail: seq<byte>)
    requires typ >= 32 && n < 64 && Printable(fields) && |fields| <= 91
    ensures ReplyPacket(END_CHAR, typ, n, fields) == [START_CHAR, ToChar(3 + |fields|), ToChar(n)] + tail
    ensures UnChar(ToChar(3 + |fields|)) == |fields| + 3 && UnChar(ToChar(n)) == n
    ensures ReadTail(tail, |fields| + 3, (ToChar(3 + |fields|) as int) + ToChar(n)) == Good([], typ, fields)
  {
    var p := ReplyPacket(END_CHAR, typ, n, fields);
    var length, number := ToChar(3 + |fields|), ToChar(n);
    CharReadsBack(n);
    CharReadsBack(3 + |fields|);
    tail := ShortTail(typ, fields, (length as int) + number);
    ReplyShape(length, number, typ, fields, p);
    assert p == p[..3] + p[3..];
    ShortFrameAccepted(typ, fields, (length as int) + number);
  }

  lemma ReplyShape(length: byte, number: byte, typ: byte, fields: seq<byte>, p: seq<byte>)
    requires var body := [length, number, typ] + fields;
             p == [START_CHAR] + body + [Check(Sum(body))] + [END_CHAR]
    ensures p[..3] == [START_CHAR, length, number] && p[3..] == ShortTail(typ, fields, (length as int) + number)
  {
    BodySum(length, number, typ, fields);
  }

  lemma BodySum(a: byte, b: byte, c: byte, fields: seq<byte>)
    ensures Sum([a, b, c] + fields) == a as int + b + c + Sum(fields)
  {
    SumCons(c, fields);
    SumCons(b, [c] + fields);
    SumCons(a, [b] + ([c] + fields));
    assert [a, b, c] + fields == [a] + ([b] + ([c] + fields));
  }
}
