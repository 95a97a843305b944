/** Transfers: numbered packets, each accepted one or more times, with rejected packets of any number between. How
    often each packet's data ends up in memory, and when that is once. */
module KermitTransfer {
  import opened Common
  import opened KermitCoding
  import opened KermitPackets
  import opened KermitReceiver
  import opened KermitDelivery

  /** Rejected packets, then an accepted copy. */
  datatype Turn = Turn(bad: seq<Event>, good: Event)

  /** A packet and its accepted copies; what was rejected in front of the first one is with it. */
  datatype Round = Round(n: byte, typ: byte, data: seq<byte>, turns: seq<Turn>)

  /** Damage is detected, and not seen in an accepted copy. What is rejected may carry any number or none. */
  predicate ValidTurn(turn: Turn, rd: Round) {
    && (forall ev :: ev in turn.bad ==> ValidEvent(ev) && !IsGood(ev))
    && ValidEvent(turn.good) && IsGood(turn.good) && turn.good.n == rd.n
    && VerdictOf(turn.good).typ == rd.typ && VerdictOf(turn.good).data == rd.data
  }

  predicate ValidTurns(turns: seq<Turn>, rd: Round) {
    forall turn :: turn in turns ==> ValidTurn(turn, rd)
  }

  predicate ValidRound(rd: Round) {
    rd.turns != [] && ValidTurns(rd.turns, rd)
  }

  predicate ValidRounds(rounds: seq<Round>) {
    forall rd :: rd in rounds ==> ValidRound(rd)
  }

  /** Packets up to the break packet, which is accepted once; neighbours differ in number. */
  predicate ValidTransfer(rounds: seq<Round>) {
    && rounds != [] && ValidRounds(rounds)
    && Final(rounds[|rounds| - 1]) && (forall rd :: rd in rounds[..|rounds| - 1] ==> rd.typ != BREAK_TYPE)
    && (forall i :: 0 < i < |rounds| ==> rounds[i].n != rounds[i - 1].n)
  }

  predicate Final(rd: Round) {
    rd.typ == BREAK_TYPE && |rd.turns| == 1
  }

  function TurnEvents(turn: Turn): seq<Event> {
    turn.bad + [turn.good]
  }

  function TurnsEvents(turns: seq<Turn>): seq<Event> {
    if turns == [] then [] else TurnsEvents(turns[..|turns| - 1]) + TurnEvents(turns[|turns| - 1])
  }

  function Events(rounds: seq<Round>): seq<Event> {
    if rounds == [] then [] else TurnsEvents(rounds[0].turns) + Events(rounds[1..])
  }

  /** The bytes that memory holds after a transfer, by `SessionDelivers`. */
  function Delivered(rounds: seq<Round>): seq<byte> {
    Listen(START_MARK, Events(rounds)).pos.out
  }

  // ---- a transfer is a session

  lemma {:induction false} TurnsNeverEnd(rd: Round, turns: seq<Turn>)
    requires rd.typ != BREAK_TYPE && ValidTurns(turns, rd)
    ensures forall ev :: ev in TurnsEvents(turns) ==> ValidEvent(ev) && !Ends(ev)
  {
    if turns != [] {
      TurnsNeverEnd(rd, turns[..|turns| - 1]);
      assert ValidTurn(turns[|turns| - 1], rd);
    }
  }

  lemma {:induction false} EventsNeverEnd(rounds: seq<Round>)
    requires ValidRounds(rounds) && forall rd :: rd in rounds ==> rd.typ != BREAK_TYPE
    ensures forall ev :: ev in Events(rounds) ==> ValidEvent(ev) && !Ends(ev)
  {
    if rounds != [] {
      assert rounds[0] in rounds;
      TurnsNeverEnd(rounds[0], rounds[0].turns);
      EventsNeverEnd(rounds[1..]);
    }
  }

  lemma {:induction false} EventsSnoc(rounds: seq<Round>, rd: Round)
    ensures Events(rounds + [rd]) == Events(rounds) + TurnsEvents(rd.turns)
  {
    if rounds == [] {
      assert [rd][1..] == [] && [] + [rd] == [rd];
    } else {
      assert (rounds + [rd])[1..] == rounds[1..] + [rd];
      EventsSnoc(rounds[1..], rd);
    }
  }

  lemma OneTurn(turn: Turn)
    ensures TurnsEvents([turn]) == TurnEvents(turn)
  {
    assert [turn][..0] == [];
  }

  lemma FinalEvents(rd: Round) returns (init: seq<Event>, last: Event)
    requires ValidRound(rd) && Final(rd)
    ensures TurnsEvents(rd.turns) == init + [last] && ValidEvent(last) && Ends(last)
    ensures forall ev :: ev in init ==> ValidEvent(ev) && !Ends(ev)
  {
    var turn := rd.turns[0];
    assert ValidTurn(turn, rd) && rd.turns == [turn];
    OneTurn(turn);
    init, last := turn.bad, turn.good;
  }

  /** Nothing before the last event of a transfer ends the session. */
  lemma TransferInit(rounds: seq<Round>) returns (init: seq<Event>, last: Event)
    requires ValidTransfer(rounds)
    ensures Events(rounds) == init + [last] && ValidEvent(last) && Ends(last)
    ensures forall ev :: ev in init ==> ValidEvent(ev) && !Ends(ev)
  {
    var before, end := rounds[..|rounds| - 1], rounds[|rounds| - 1];
    assert rounds == before + [end] && end in rounds;
    EventsNeverEnd(before);
    var bad;
    bad, last := FinalEvents(end);
    init := Events(before) + bad;
    EventsSnoc(before, end);
  }

  /** Every transfer ends with the number of bytes delivered, and exactly those are in memory. */
  lemma {:induction false} TransferDelivers(mem: map<int, byte>, start: int, sent: seq<byte>, rounds: seq<Round>)
    requires ValidTransfer(rounds)
    ensures Receives(mem, start, sent, rounds, Delivered(rounds))
  {
    var init, last := TransferInit(rounds);
    SessionDelivers(mem, start, sent, init, last);
  }

  /** `k_recv` on the bytes of a transfer returns the length of `out`, with `out` from `start` on and no change below. */
  ghost predicate Receives(mem: map<int, byte>, start: int, sent: seq<byte>, rounds: seq<Round>, out: seq<byte>) {
    var (r, outcome) := Session(InitialRx(mem, start, sent), start, AllBytes(Events(rounds)));
    outcome == Done(|out|) && Holds(r.mem, start, out) && SameBelow(mem, r.mem, start)
  }

  // ---- how often a packet counts

  /** A turn goes back to the checkpoint or takes a new one, which its first packet decides. */
  predicate RollsBack(turn: Turn, last: int) {
    Rolls(if turn.bad == [] then turn.good else turn.bad[0], last)
  }

  /** The repeats of a packet that do not go back: a rejected packet with another number came first. */
  function Fresh(turns: seq<Turn>, n: byte): nat {
    if |turns| <= 1 then 0
    else Fresh(turns[..|turns| - 1], n) + if RollsBack(turns[|turns| - 1], n) then 0 else 1
  }

  /** The next packet's first turn goes back behind this one. */
  predicate Undone(rd: Round, rest: seq<Round>) {
    rest != [] && rest[0].turns != [] && RollsBack(rest[0].turns[0], rd.n)
  }

  /** How often a packet's data is delivered: once for its first copy and for each fresh repeat, less once when it is
      undone. */
  function CountOf(rd: Round, rest: seq<Round>): nat {
    Fresh(rd.turns, rd.n) + if Undone(rd, rest) then 0 else 1
  }

  function DataOf(rd: Round): seq<byte> {
    DataIn(rd.typ, rd.data)
  }

  function Times(s: seq<byte>, k: nat): seq<byte> {
    if k == 0 then [] else Times(s, k - 1) + s
  }

  /** The data fields of a transfer's packets, in order ... */
  function AllData(rounds: seq<Round>): seq<byte> {
    if rounds == [] then [] else DataOf(rounds[0]) + AllData(rounds[1..])
  }

  /** ... and each as often as it counts. */
  function CountedData(rounds: seq<Round>): seq<byte> {
    if rounds == [] then []
    else Times(DataOf(rounds[0]), CountOf(rounds[0], rounds[1..])) + CountedData(rounds[1..])
  }

  lemma {:induction false} BadHeard(m: Mark, bad: seq<Event>)
    requires bad != [] && forall ev :: ev in bad ==> !IsGood(ev)
    ensures var base := if Rolls(bad[0], m.last) then m.saved else m.pos;
            Listen(m, bad) == Mark(base, base, Listen(m, bad).last, m.quote)
  {
    var k := |bad| - 1;
    assert bad[k] in bad;
    if k == 0 {
      assert bad[..0] == [];
    } else {
      assert bad[..k][0] == bad[0];
      BadHeard(m, bad[..k]);
    }
  }

  /** What a turn leaves: its data behind the position its first packet went to. */
  function Taken(base: Decoded, quote: byte, rd: Round): Mark {
    Mark(base, Feed(base, quote, DataOf(rd)), rd.n, QuoteAfter(quote, rd.typ, rd.data))
  }

  lemma TurnHeard(m: Mark, turn: Turn, rd: Round)
    requires ValidTurn(turn, rd)
    ensures Listen(m, TurnEvents(turn)) == Taken(if RollsBack(turn, m.last) then m.saved else m.pos, m.quote, rd)
  {
    var evs := TurnEvents(turn);
    assert evs[..|evs| - 1] == turn.bad;
    if turn.bad != [] {
      BadHeard(m, turn.bad);
    }
  }

  /** The mark when a packet has counted `k` times and its last copy once more. */
  function Counted(base: Decoded, quote: byte, rd: Round, k: nat): Mark {
    var data := DataOf(rd);
    Mark(Feed(base, quote, Times(data, k)), Feed(base, quote, Times(data, k + 1)), rd.n, quote)
  }

  lemma CountMore(base: Decoded, quote: byte, rd: Round, k: nat)
    ensures Taken(Counted(base, quote, rd, k).pos, quote, rd).pos == Counted(base, quote, rd, k + 1).pos
    ensures Taken(Counted(base, quote, rd, k).saved, quote, rd).pos == Counted(base, quote, rd, k).pos
  {
    FeedConcat(base, quote, Times(DataOf(rd), k), DataOf(rd));
    FeedConcat(base, quote, Times(DataOf(rd), k + 1), DataOf(rd));
  }

  lemma FirstHeard(m: Mark, quote: byte, rd: Round, turns: seq<Turn>)
    requires |turns| == 1 && ValidTurns(turns, rd) && QuoteAfter(m.quote, rd.typ, rd.data) == quote
    ensures Listen(m, TurnsEvents(turns))
         == Counted(if RollsBack(turns[0], m.last) then m.saved else m.pos, quote, rd, 0)
  {
    assert turns == [turns[0]] && turns[0] in turns;
    OneTurn(turns[0]);
    TurnHeard(m, turns[0], rd);
    assert Times(DataOf(rd), 0) + DataOf(rd) == DataOf(rd);
  }

  lemma RepeatHeard(m: Mark, base: Decoded, quote: byte, rd: Round, k: nat, turns: seq<Turn>)
    requires turns != [] && ValidTurns(turns, rd) && QuoteAfter(quote, rd.typ, rd.data) == quote
    requires Listen(m, TurnsEvents(turns[..|turns| - 1])) == Counted(base, quote, rd, k)
    ensures Listen(m, TurnsEvents(turns))
         == Counted(base, quote, rd, if RollsBack(turns[|turns| - 1], rd.n) then k else k + 1)
  {
    var turn := turns[|turns| - 1];
    assert turn in turns;
    ListenConcat(m, TurnsEvents(turns[..|turns| - 1]), TurnEvents(turn));
    TurnHeard(Counted(base, quote, rd, k), turn, rd);
    CountMore(base, quote, rd, k);
  }

  /** All turns of a packet: each fresh repeat counts it once more. */
  lemma {:induction false} TurnsHeard(m: Mark, base: Decoded, quote: byte, rd: Round, turns: seq<Turn>)
    requires turns != [] && ValidTurns(turns, rd) && QuoteAfter(m.quote, rd.typ, rd.data) == quote
    requires base == if RollsBack(turns[0], m.last) then m.saved else m.pos
    ensures Listen(m, TurnsEvents(turns)) == Counted(base, quote, rd, Fresh(turns, rd.n))
  {
    if |turns| == 1 {
      FirstHeard(m, quote, rd, turns);
    } else {
      var init := turns[..|turns| - 1];
      TurnsHeard(m, base, quote, rd, init);
      RepeatHeard(m, base, quote, rd, Fresh(init, rd.n), turns);
    }
  }

  /** The prefix character of the data: the default, or what every send-init packet asks for. */
  predicate QuotedBy(rounds: seq<Round>, quote: byte) {
    && rounds != [] && (rounds[0].typ == SEND_TYPE || quote == K_ESCAPE)
    && SendsAsk(rounds, quote)
  }

  predicate SendsAsk(rounds: seq<Round>, quote: byte) {
    forall rd :: rd in rounds ==> rd.typ == SEND_TYPE ==> PeerFrom(Parms(rd.data)).quote == quote
  }

  /** Where the next packet after `m` starts. */
  function Base(m: Mark, rounds: seq<Round>): Decoded {
    if rounds != [] && rounds[0].turns != [] && RollsBack(rounds[0].turns[0], m.last) then m.saved else m.pos
  }

  lemma RoundHeard(m: Mark, quote: byte, rd: Round, rest: seq<Round>)
    requires ValidRound(rd) && QuoteAfter(m.quote, rd.typ, rd.data) == quote
    ensures var m' := Listen(m, TurnsEvents(rd.turns));
            m'.quote == quote
            && Base(m', rest) == Feed(Base(m, [rd]), quote, Times(DataOf(rd), CountOf(rd, rest)))
  {
    TurnsHeard(m, Base(m, [rd]), quote, rd, rd.turns);
  }

  /** Where the position is after any packets, each counting as often as `CountOf` says. */
  lemma {:induction false} RoundsHeard(m: Mark, quote: byte, rounds: seq<Round>)
    requires ValidRounds(rounds) && SendsAsk(rounds, quote)
    requires (rounds != [] && rounds[0].typ == SEND_TYPE) || m.quote == quote
    ensures Listen(m, Events(rounds)).pos == Feed(Base(m, rounds), quote, CountedData(rounds))
    decreases rounds
  {
    if rounds != [] {
      var rd, rest := rounds[0], rounds[1..];
      assert rd in rounds;
      RoundHeard(m, quote, rd, rest);
      ListenConcat(m, TurnsEvents(rd.turns), Events(rest));
      RoundsHeard(Listen(m, TurnsEvents(rd.turns)), quote, rest);
      FeedConcat(Base(m, rounds), quote, Times(DataOf(rd), CountOf(rd, rest)), CountedData(rest));
    }
  }

  /** What any transfer delivers: the decoding of its data fields, each as often as it counts. */
  lemma {:induction false} DeliveredIsCounted(rounds: seq<Round>, quote: byte)
    requires ValidRounds(rounds) && QuotedBy(rounds, quote)
    ensures Delivered(rounds) == Feed(NOTHING, quote, CountedData(rounds)).out
  {
    RoundsHeard(START_MARK, quote, rounds);
  }
}
