/** Short transfers that the receiver does not survive, and one in which two mistakes hide each other. */
module KermitExamples {
  import opened Common
  import opened KermitCoding
  import opened KermitPackets
  import opened KermitDelivery
  import opened KermitTransfer
  import opened KermitDamage

  /** A copy of a data packet with a wrong check, as it is heard with the number `n`. */
  function Reject(n: byte): Event {
    Copy([], ToChar(4), n, [DATA_TYPE, 66, 33])
  }

  lemma RejectValid(n: byte)
    requires n == 1 || n == 5
    ensures ValidEvent(Reject(n)) && !IsGood(Reject(n))
  {
    var s: seq<byte> := [DATA_TYPE, 66, 33];
    assert s[1..] == [66, 33] && s[1..][1..] == [33] && [33][1..] == [];
    assert VerdictOf(Reject(n)) == ReadData(s[1..], DATA_TYPE, [], 2, 36 + ToChar(n) + DATA_TYPE);
    assert VerdictOf(Reject(n)) == ReadData([33], DATA_TYPE, [] + [66], 1, 36 + ToChar(n) + DATA_TYPE + 66);
  }

  const BROKEN_HEADER := BadHeader([], [0])

  /** An undamaged copy behind what was rejected. */
  function After(bad: seq<Event>, n: byte, typ: byte, data: seq<byte>): Turn {
    Turn(bad, IntactCopy(n, typ, data))
  }

  /** "A" is acknowledged; then the break packet's length byte arrives as 0 first. */
  function HeaderLoses(): seq<Round> {
    [Round(1, DATA_TYPE, [65], [After([], 1, DATA_TYPE, [65])]),
     Round(2, BREAK_TYPE, [], [After([BROKEN_HEADER], 2, BREAK_TYPE, [])])]
  }

  /** "A" is acknowledged; then packet 2 is heard as number 1 and rejected before it arrives whole. */
  function MisreadLoses(): seq<Round> {
    [Round(1, DATA_TYPE, [65], [After([], 1, DATA_TYPE, [65])]),
     Round(2, DATA_TYPE, [66], [After([Reject(1)], 2, DATA_TYPE, [66])]),
     Round(3, BREAK_TYPE, [], [After([], 3, BREAK_TYPE, [])])]
  }

  /** "A" is accepted, heard as number 5 and rejected, and accepted again. */
  function StrayDoubles(): seq<Round> {
    [Round(1, DATA_TYPE, [65], [After([], 1, DATA_TYPE, [65]), After([Reject(5)], 1, DATA_TYPE, [65])]),
     Round(2, BREAK_TYPE, [], [After([], 2, BREAK_TYPE, [])])]
  }

  /** One "A" is lost and the next one doubled. */
  function OneForAnother(): seq<Round> {
    [Round(1, DATA_TYPE, [65], [After([], 1, DATA_TYPE, [65])]),
     Round(2, DATA_TYPE, [65],
           [After([BROKEN_HEADER], 2, DATA_TYPE, [65]), After([Reject(5)], 2, DATA_TYPE, [65])]),
     Round(3, BREAK_TYPE, [], [After([], 3, BREAK_TYPE, [])])]
  }

  lemma AfterValid(bad: seq<Event>, n: byte, typ: byte, data: seq<byte>, turns: seq<Turn>)
    requires n < 224 && typ >= 32 && Printable(data) && |data| <= 91
    requires forall ev :: ev in bad ==> ev in {BROKEN_HEADER, Reject(1), Reject(5)}
    ensures ValidTurn(After(bad, n, typ, data), Round(n, typ, data, turns))
  {
    IntactCopyGood(n, typ, data);
    RejectValid(1);
    RejectValid(5);
  }

  lemma CountOne(a: Round)
    ensures CountedData([a]) == Times(DataOf(a), Fresh(a.turns, a.n) + 1) && AllData([a]) == DataOf(a)
  {
    assert [a][1..] == [];
    assert Times(DataOf(a), CountOf(a, [])) + [] == Times(DataOf(a), CountOf(a, [])) && DataOf(a) + [] == DataOf(a);
  }

  /** The whole of a short transfer. */
  lemma CountTwo(a: Round, b: Round)
    requires a.turns != [] && b.turns != []
    ensures CountedData([a, b])
         == Times(DataOf(a), Fresh(a.turns, a.n) + if RollsBack(b.turns[0], a.n) then 0 else 1)
            + Times(DataOf(b), Fresh(b.turns, b.n) + 1)
    ensures AllData([a, b]) == DataOf(a) + DataOf(b)
  {
    assert [a, b][1..] == [b];
    CountOne(b);
  }

  lemma CountThree(a: Round, b: Round, c: Round)
    requires a.turns != [] && b.turns != [] && c.turns != []
    ensures CountedData([a, b, c])
         == Times(DataOf(a), Fresh(a.turns, a.n) + if RollsBack(b.turns[0], a.n) then 0 else 1) + CountedData([b, c])
    ensures AllData([a, b, c]) == DataOf(a) + AllData([b, c])
  {
    assert [a, b, c][1..] == [b, c];
  }

  lemma OneTurnValid(rd: Round, bad: seq<Event>)
    requires rd.n < 224 && rd.typ >= 32 && Printable(rd.data) && |rd.data| <= 91
    requires forall ev :: ev in bad ==> ev in {BROKEN_HEADER, Reject(1), Reject(5)}
    requires rd.turns == [After(bad, rd.n, rd.typ, rd.data)]
    ensures ValidRound(rd)
  {
    AfterValid(bad, rd.n, rd.typ, rd.data, rd.turns);
  }

  lemma {:induction false} PlainFeed(quote: byte, s: seq<byte>)
    requires quote !in s
    ensures Feed(NOTHING, quote, s) == Decoded(s, false)
  {
    if s != [] {
      PlainFeed(quote, s[..|s| - 1]);
      assert s == s[..|s| - 1] + [s[|s| - 1]];
    }
  }

  lemma Gives(mem: map<int, byte>, start: int, t: seq<Round>, counted: seq<byte>)
    requires ValidTransfer(t) && QuotedBy(t, K_ESCAPE) && CountedData(t) == counted && K_ESCAPE !in counted
    ensures Receives(mem, start, [], t, counted)
  {
    TransferDelivers(mem, start, [], t);
    DeliveredIsCounted(t, K_ESCAPE);
    PlainFeed(K_ESCAPE, counted);
  }

  lemma HeaderLosesValid()
    ensures ValidTransfer(HeaderLoses()) && QuotedBy(HeaderLoses(), K_ESCAPE)
  {
    var t := HeaderLoses();
    OneTurnValid(t[0], []);
    OneTurnValid(t[1], [BROKEN_HEADER]);
  }

  lemma HeaderLosesCounts()
    ensures CountedData(HeaderLoses()) == [] && AllData(HeaderLoses()) == [65]
  {
    var t := HeaderLoses();
    CountTwo(t[0], t[1]);
    TimesFew([65]);
    TimesFew([]);
  }

  /** An acknowledged byte is lost when the next packet is first heard with a broken header ... */
  lemma {:induction false} HeaderLosesData(mem: map<int, byte>, start: int)
    ensures ValidTransfer(HeaderLoses()) && AllData(HeaderLoses()) == [65]
    ensures Receives(mem, start, [], HeaderLoses(), [])
  {
    HeaderLosesValid();
    HeaderLosesCounts();
    Gives(mem, start, HeaderLoses(), []);
  }

  lemma MisreadLosesValid()
    ensures ValidTransfer(MisreadLoses()) && QuotedBy(MisreadLoses(), K_ESCAPE)
  {
    var t := MisreadLoses();
    OneTurnValid(t[0], []);
    OneTurnValid(t[1], [Reject(1)]);
    OneTurnValid(t[2], []);
  }

  lemma MisreadLosesCounts()
    ensures CountedData(MisreadLoses()) == [66] && AllData(MisreadLoses()) == [65, 66]
  {
    var t := MisreadLoses();
    CountTwo(t[1], t[2]);
    CountThree(t[0], t[1], t[2]);
    TimesFew([65]);
    TimesFew([66]);
    TimesFew([]);
  }

  /** ... or with the number of the packet before ... */
  lemma {:induction false} MisreadLosesData(mem: map<int, byte>, start: int)
    ensures ValidTransfer(MisreadLoses()) && AllData(MisreadLoses()) == [65, 66]
    ensures Receives(mem, start, [], MisreadLoses(), [66])
  {
    MisreadLosesValid();
    MisreadLosesCounts();
    Gives(mem, start, MisreadLoses(), [66]);
  }

  lemma TwoTurnsValid(rd: Round, first: seq<Event>, second: seq<Event>)
    requires rd.n < 224 && rd.typ >= 32 && Printable(rd.data) && |rd.data| <= 91
    requires forall ev :: ev in first ==> ev in {BROKEN_HEADER, Reject(1), Reject(5)}
    requires forall ev :: ev in second ==> ev in {BROKEN_HEADER, Reject(1), Reject(5)}
    requires rd.turns == [After(first, rd.n, rd.typ, rd.data), After(second, rd.n, rd.typ, rd.data)]
    ensures ValidRound(rd)
    ensures second != [] && second[0] == Reject(5) && rd.n != 5 ==> Fresh(rd.turns, rd.n) == 1
  {
    AfterValid(first, rd.n, rd.typ, rd.data, rd.turns);
    AfterValid(second, rd.n, rd.typ, rd.data, rd.turns);
  }

  lemma StrayDoublesValid()
    ensures ValidTransfer(StrayDoubles()) && QuotedBy(StrayDoubles(), K_ESCAPE)
    ensures Fresh(StrayDoubles()[0].turns, 1) == 1
  {
    var t := StrayDoubles();
    TwoTurnsValid(t[0], [], [Reject(5)]);
    OneTurnValid(t[1], []);
  }

  lemma Twice(c: byte)
    ensures Times([c], 2) == [c, c]
  {
    TimesFew([c]);
    assert Times([c], 2) == [c] + [c];
  }

  lemma StrayDoublesCounts()
    ensures CountedData(StrayDoubles()) == [65, 65] && AllData(StrayDoubles()) == [65]
  {
    var t := StrayDoubles();
    StrayDoublesValid();
    CountTwo(t[0], t[1]);
    Twice(65);
    TimesFew([]);
  }

  /** ... and is doubled when it is heard once more with a strange number before it is repeated. */
  lemma {:induction false} StrayDoublesData(mem: map<int, byte>, start: int)
    ensures ValidTransfer(StrayDoubles()) && AllData(StrayDoubles()) == [65]
    ensures Receives(mem, start, [], StrayDoubles(), [65, 65])
  {
    StrayDoublesValid();
    StrayDoublesCounts();
    Gives(mem, start, StrayDoubles(), [65, 65]);
  }

  lemma OneForAnotherValid()
    ensures ValidTransfer(OneForAnother()) && QuotedBy(OneForAnother(), K_ESCAPE)
    ensures Fresh(OneForAnother()[1].turns, 2) == 1
  {
    var t := OneForAnother();
    OneTurnValid(t[0], []);
    TwoTurnsValid(t[1], [BROKEN_HEADER], [Reject(5)]);
    OneTurnValid(t[2], []);
  }

  /** Three packets with one character in the first two, of which the first is undone and the second doubled. */
  lemma LostAndDoubled(a: Round, b: Round, c: Round, x: byte, y: byte)
    requires DataOf(a) == [x] && DataOf(b) == [y] && DataOf(c) == []
    requires a.turns != [] && b.turns != [] && c.turns != [] && RollsBack(b.turns[0], a.n) && !RollsBack(c.turns[0], b.n)
    requires Fresh(a.turns, a.n) == 0 && Fresh(b.turns, b.n) == 1
    ensures CountedData([a, b, c]) == [y, y] && AllData([a, b, c]) == [x, y]
    ensures Count([a, b, c], 0) == 0 && Count([a, b, c], 1) == 2
  {
    assert [a, b, c][1..] == [b, c] && [a, b, c][2..] == [c];
    CountTwo(b, c);
    CountThree(a, b, c);
    Twice(y);
    TimesFew([x]);
    NoTimes(Fresh(c.turns, c.n) + 1);
  }

  lemma OneForAnotherCounts()
    ensures CountedData(OneForAnother()) == [65, 65] && AllData(OneForAnother()) == [65, 65]
    ensures Count(OneForAnother(), 0) == 0 && Count(OneForAnother(), 1) == 2
  {
    OneForAnotherValid();
    LostAndDoubled(OneForAnother()[0], OneForAnother()[1], OneForAnother()[2], 65, 65);
  }

  /** With one packet lost and an equal one doubled, the bytes are right although neither packet counts once. */
  lemma {:induction false} OneForAnotherData(mem: map<int, byte>, start: int)
    ensures ValidTransfer(OneForAnother()) && AllData(OneForAnother()) == [65, 65]
    ensures Receives(mem, start, [], OneForAnother(), [65, 65])
    ensures Count(OneForAnother(), 0) == 0 && Count(OneForAnother(), 1) == 2
  {
    OneForAnotherValid();
    OneForAnotherCounts();
    Gives(mem, start, OneForAnother(), [65, 65]);
  }
}
