/** Exactly-once delivery: which damage a transfer survives. */
module KermitDamage {
  import opened Common
  import opened KermitCoding
  import opened KermitPackets
  import opened KermitReceiver
  import opened KermitDelivery
  import opened KermitTransfer

  predicate IsData(rd: Round) {
    rd.typ == DATA_TYPE
  }

  /** How often the i-th packet counts. */
  function Count(rounds: seq<Round>, i: nat): nat
    requires i < |rounds|
  {
    CountOf(rounds[i], rounds[i + 1..])
  }

  predicate OnceEach(rounds: seq<Round>) {
    forall i :: 0 <= i < |rounds| && IsData(rounds[i]) ==> Count(rounds, i) == 1
  }

  lemma TailCounts(rounds: seq<Round>)
    requires rounds != []
    ensures forall i :: 0 <= i < |rounds[1..]| ==> Count(rounds[1..], i) == Count(rounds, i + 1)
    ensures Count(rounds, 0) == CountOf(rounds[0], rounds[1..])
  {
    forall i | 0 <= i < |rounds[1..]|
      ensures Count(rounds[1..], i) == Count(rounds, i + 1)
    {
      assert rounds[1..][i + 1..] == rounds[i + 2..];
    }
  }

  lemma TimesFew(s: seq<byte>)
    ensures Times(s, 0) == [] && Times(s, 1) == s
  {
    assert [] + s == s;
  }

  /** The same, where it matters: for packets that carry data. */
  predicate FilledOnce(rounds: seq<Round>) {
    forall i :: 0 <= i < |rounds| && DataOf(rounds[i]) != [] ==> Count(rounds, i) == 1
  }

  lemma {:induction false} FilledOnceData(rounds: seq<Round>)
    requires FilledOnce(rounds)
    ensures CountedData(rounds) == AllData(rounds)
  {
    if rounds != [] {
      TailCounts(rounds);
      FilledOnceData(rounds[1..]);
      TimesFew(DataOf(rounds[0]));
      NoTimes(Count(rounds, 0));
    }
  }

  lemma {:induction false} NoTimes(k: nat)
    ensures Times([], k) == []
  {
    if k > 0 {
      NoTimes(k - 1);
    }
  }

  // ---- damage behind the sequence byte

  /** Whatever is rejected carries the number of the packet it is a copy of. */
  predicate OwnNumbers(rounds: seq<Round>) {
    forall rd :: rd in rounds ==> forall turn :: turn in rd.turns ==> OwnNumber(turn, rd.n)
  }

  predicate OwnNumber(turn: Turn, n: byte) {
    forall ev :: ev in turn.bad ==> ev.Copy? && ev.n == n
  }

  lemma {:induction false} OwnRepeats(rd: Round, turns: seq<Turn>)
    requires forall turn :: turn in turns ==> ValidTurn(turn, rd) && OwnNumber(turn, rd.n)
    ensures Fresh(turns, rd.n) == 0
  {
    if |turns| > 1 {
      OwnRepeats(rd, turns[..|turns| - 1]);
      OwnTurn(rd, turns[|turns| - 1], rd.n);
    }
  }

  lemma OwnTurn(rd: Round, turn: Turn, last: int)
    requires ValidTurn(turn, rd) && OwnNumber(turn, rd.n)
    ensures RollsBack(turn, last) <==> last == rd.n
  {
    if turn.bad != [] {
      assert turn.bad[0] in turn.bad;
    }
  }

  /** Damage behind the sequence byte never makes a packet count less or more than once. */
  lemma {:induction false} OwnNumbersOnce(rounds: seq<Round>)
    requires ValidTransfer(rounds) && OwnNumbers(rounds)
    ensures OnceEach(rounds)
  {
    forall i | 0 <= i < |rounds|
      ensures IsData(rounds[i]) ==> Count(rounds, i) == 1
    {
      var rd := rounds[i];
      assert rd in rounds;
      OwnRepeats(rd, rd.turns);
      if i + 1 < |rounds| {
        var next := rounds[i + 1];
        assert next in rounds && rounds[i + 1..][0] == next;
        OwnTurn(next, next.turns[0], rd.n);
      }
    }
  }

  /** Exactly-once delivery: any payload, encoded, cut into data packets anywhere (a quote may even end a packet),
      with any number of copies of each packet, arrives as it is when every data packet counts once ... */
  lemma {:induction false} OnceEachDelivers(mem: map<int, byte>, start: int, sent: seq<byte>, rounds: seq<Round>,
                                            quote: byte, payload: seq<byte>)
    requires ValidTransfer(rounds) && QuotedBy(rounds, quote) && Ktrans(quote) == quote
    requires AllData(rounds) == Encode(quote, payload) && OnceEach(rounds)
    ensures Receives(mem, start, sent, rounds, payload)
  {
    TransferDelivers(mem, start, sent, rounds);
    DeliveredIsCounted(rounds, quote);
    FilledOnceData(rounds);
    EncodeRoundTrip(NOTHING, quote, payload);
    assert [] + payload == payload;
  }

  /** ... and so when damage lies behind the sequence byte. */
  lemma {:induction false} PayloadDelivered(mem: map<int, byte>, start: int, sent: seq<byte>, rounds: seq<Round>,
                                            quote: byte, payload: seq<byte>)
    requires ValidTransfer(rounds) && QuotedBy(rounds, quote) && Ktrans(quote) == quote
    requires AllData(rounds) == Encode(quote, payload) && OwnNumbers(rounds)
    ensures Receives(mem, start, sent, rounds, payload)
  {
    OwnNumbersOnce(rounds);
    OnceEachDelivers(mem, start, sent, rounds, quote, payload);
  }

  // ---- damage anywhere: what it does to a packet

  /** A packet counts once just when no repeat of it follows a rejected packet that carries another number and the
      next packet does not follow a rejected one with no number or this one's, or both happen, the first once. */
  lemma CountsOnceIff(rounds: seq<Round>, i: nat)
    requires ValidTransfer(rounds) && i < |rounds|
    ensures Count(rounds, i) == 1
       <==> (if i + 1 < |rounds| && BadRolls(rounds[i + 1], rounds[i].n) then Fresh(rounds[i].turns, rounds[i].n) == 1
             else forall j :: 0 < j < |rounds[i].turns| ==> !BadRenumbers(rounds[i].turns[j], rounds[i].n))
  {
    var rd := rounds[i];
    assert rd in rounds;
    NoneFresh(rd, rd.turns);
    if i + 1 < |rounds| {
      assert rounds[i + 1] in rounds && rounds[i + 1..][0] == rounds[i + 1];
      assert ValidTurn(rounds[i + 1].turns[0], rounds[i + 1]);
    }
  }

  /** The first packet rejected in front of a packet has a broken header or the number `n` of the packet before. */
  predicate BadRolls(rd: Round, n: byte) {
    rd.turns != [] && rd.turns[0].bad != [] && Rolls(rd.turns[0].bad[0], n)
  }

  /** The first packet rejected in front of a repeat has a readable number other than the packet's. */
  predicate BadRenumbers(turn: Turn, n: byte) {
    turn.bad != [] && turn.bad[0].Copy? && turn.bad[0].n != n
  }

  lemma {:induction false} NoneFresh(rd: Round, turns: seq<Turn>)
    requires ValidTurns(turns, rd)
    ensures Fresh(turns, rd.n) == 0 <==> forall j :: 0 < j < |turns| ==> !BadRenumbers(turns[j], rd.n)
  {
    if |turns| > 1 {
      var k := |turns| - 1;
      NoneFresh(rd, turns[..k]);
      assert ValidTurn(turns[k], rd);
      assert RollsBack(turns[k], rd.n) <==> !BadRenumbers(turns[k], rd.n);
      assert forall j :: 0 < j < k ==> turns[..k][j] == turns[j];
    }
  }

  // ---- the exact condition, for damage without regard to the data

  /** The same packets rejected at the same places of a transfer of the same form. */
  predicate SameDamage(a: seq<Round>, b: seq<Round>) {
    |a| == |b| && forall i :: 0 <= i < |a| ==> SameRound(a[i], b[i])
  }

  predicate SameRound(a: Round, b: Round) {
    a.n == b.n && a.typ == b.typ && SameTurns(a.turns, b.turns)
  }

  predicate SameTurns(a: seq<Turn>, b: seq<Turn>) {
    |a| == |b| && forall j :: 0 <= j < |a| ==> SameTurn(a[j], b[j])
  }

  /** With the same rejected packets; the accepted ones have the same number. */
  predicate SameTurn(a: Turn, b: Turn) {
    a.bad == b.bad && a.good.Copy? && b.good.Copy? && a.good.n == b.good.n
  }

  lemma {:induction false} SameFresh(a: seq<Turn>, b: seq<Turn>, n: byte)
    requires SameTurns(a, b)
    ensures Fresh(a, n) == Fresh(b, n)
  {
    if |a| > 1 {
      var k := |a| - 1;
      assert SameTurn(a[k], b[k]);
      assert forall j :: 0 <= j < k ==> a[..k][j] == a[j] && b[..k][j] == b[j];
      SameFresh(a[..k], b[..k], n);
    }
  }

  lemma SameCount(a: seq<Round>, b: seq<Round>, i: nat)
    requires SameDamage(a, b) && i < |a|
    ensures Count(a, i) == Count(b, i)
  {
    assert SameRound(a[i], b[i]);
    SameFresh(a[i].turns, b[i].turns, a[i].n);
    if i + 1 < |a| {
      assert SameRound(a[i + 1], b[i + 1]);
      assert a[i + 1..][0] == a[i + 1] && b[i + 1..][0] == b[i + 1];
      if a[i + 1].turns != [] {
        assert SameTurn(a[i + 1].turns[0], b[i + 1].turns[0]);
      }
    }
  }

  lemma SameOnce(a: seq<Round>, b: seq<Round>)
    requires SameDamage(a, b) && OnceEach(a)
    ensures OnceEach(b)
  {
    forall i | 0 <= i < |b| && IsData(b[i])
      ensures Count(b, i) == 1
    {
      assert SameRound(a[i], b[i]);
      SameCount(a, b, i);
    }
  }

  /** A packet refilled with other data, every accepted copy undamaged. */
  function Refill(rd: Round, data: seq<byte>): Round {
    if !IsData(rd) then rd
    else Round(rd.n, rd.typ, data, seq(|rd.turns|, j requires 0 <= j < |rd.turns| =>
      Turn(rd.turns[j].bad, IntactCopy(rd.n, DATA_TYPE, data))))
  }

  lemma RefillValid(rd: Round, data: seq<byte>)
    requires ValidRound(rd) && Printable(data) && |data| <= 91
    ensures ValidRound(Refill(rd, data)) && SameRound(rd, Refill(rd, data))
  {
    assert forall j :: 0 <= j < |rd.turns| ==> ValidTurn(rd.turns[j], rd);
    assert ValidTurn(rd.turns[0], rd);
    IntactCopyGood(rd.n, DATA_TYPE, data);
    if IsData(rd) {
      forall j | 0 <= j < |rd.turns|
        ensures ValidTurn(Refill(rd, data).turns[j], Refill(rd, data))
        ensures SameTurn(rd.turns[j], Refill(rd, data).turns[j])
      {
      }
    } else {
      assert forall j :: 0 <= j < |rd.turns| ==> SameTurn(rd.turns[j], rd.turns[j]);
    }
  }

  function Char(i: int, k: int, c: byte): seq<byte> {
    if i == k then [c] else []
  }

  /** The transfer with one character in the k-th packet as its only data. */
  function Only(rounds: seq<Round>, k: nat, c: byte): seq<Round> {
    seq(|rounds|, i requires 0 <= i < |rounds| => Refill(rounds[i], Char(i, k, c)))
  }

  lemma OnlySame(rounds: seq<Round>, other: seq<Round>, k: nat, c: byte)
    requires ValidRounds(rounds) && other == Only(rounds, k, c) && c >= 32
    ensures ValidRounds(other) && SameDamage(rounds, other)
    ensures forall i :: 0 <= i < |rounds| ==> IsData(rounds[i]) || other[i] == rounds[i]
  {
    forall i | 0 <= i < |rounds|
      ensures ValidRound(other[i]) && SameRound(rounds[i], other[i])
    {
      assert rounds[i] in rounds;
      RefillValid(rounds[i], Char(i, k, c));
    }
  }

  /** Transfers of the same form are valid together. */
  lemma SameForm(a: seq<Round>, b: seq<Round>)
    requires ValidTransfer(a) && SameDamage(a, b) && ValidRounds(b)
    ensures ValidTransfer(b)
  {
    var last := |a| - 1;
    assert SameRound(a[last], b[last]);
    forall rd | rd in b[..last]
      ensures rd.typ != BREAK_TYPE
    {
      var i :| 0 <= i < last && rd == b[i];
      assert a[..last][i] == a[i] && SameRound(a[i], b[i]);
    }
    forall i | 0 < i < |a|
      ensures b[i].n != b[i - 1].n
    {
      assert SameRound(a[i - 1], b[i - 1]) && SameRound(a[i], b[i]);
    }
  }

  lemma OnlyQuoted(rounds: seq<Round>, other: seq<Round>, quote: byte)
    requires QuotedBy(rounds, quote) && |other| == |rounds|
    requires forall i :: 0 <= i < |rounds| ==> other[i] == rounds[i] || (IsData(rounds[i]) && IsData(other[i]))
    ensures QuotedBy(other, quote)
  {
    forall rd | rd in other && rd.typ == SEND_TYPE
      ensures PeerFrom(Parms(rd.data)).quote == quote
    {
      var i :| 0 <= i < |rounds| && rd == other[i];
      assert rounds[i] in rounds;
    }
  }

  lemma OnlyValid(rounds: seq<Round>, quote: byte, k: nat, c: byte)
    requires ValidTransfer(rounds) && QuotedBy(rounds, quote) && c >= 32
    ensures var other := Only(rounds, k, c);
            ValidTransfer(other) && QuotedBy(other, quote) && SameDamage(rounds, other)
  {
    var other := Only(rounds, k, c);
    OnlySame(rounds, other, k, c);
    SameForm(rounds, other);
    assert forall i :: 0 <= i < |rounds| ==> SameRound(rounds[i], other[i]);
    OnlyQuoted(rounds, other, quote);
  }

  /** Data in one packet at most: it is delivered as often as that packet counts. */
  lemma {:induction false} OneFilled(rounds: seq<Round>, k: int, c: byte)
    requires forall i :: 0 <= i < |rounds| ==> DataOf(rounds[i]) == Char(i, k, c)
    ensures CountedData(rounds) == if 0 <= k < |rounds| then Times([c], Count(rounds, k)) else []
    ensures AllData(rounds) == if 0 <= k < |rounds| then [c] else []
    decreases rounds
  {
    if rounds != [] {
      TailCounts(rounds);
      OneFilled(rounds[1..], k - 1, c);
      NoTimes(Count(rounds, 0));
      assert Times([c], Count(rounds, 0)) + [] == Times([c], Count(rounds, 0)) && [] + [c] == [c] && [c] + [] == [c];
    }
  }

  lemma {:induction false} PlainTimes(quote: byte, c: byte, k: nat)
    requires c != quote
    ensures var d := Feed(NOTHING, quote, Times([c], k)); !d.esc && |d.out| == k
  {
    if k > 0 {
      PlainTimes(quote, c, k - 1);
      FeedConcat(NOTHING, quote, Times([c], k - 1), [c]);
      FeedTwo(Feed(NOTHING, quote, Times([c], k - 1)), quote, c, c);
    }
  }

  predicate DeliversAll(rounds: seq<Round>, quote: byte) {
    Delivered(rounds) == Feed(NOTHING, quote, AllData(rounds)).out
  }

  /** A packet that does not count once shows as soon as it is the only one with data. */
  lemma WrongCountShows(rounds: seq<Round>, quote: byte, k: nat)
    requires ValidTransfer(rounds) && QuotedBy(rounds, quote)
    requires k < |rounds| && IsData(rounds[k]) && Count(rounds, k) != 1
    ensures exists other :: ValidTransfer(other) && QuotedBy(other, quote) && SameDamage(rounds, other)
                            && !DeliversAll(other, quote)
  {
    var c: byte := if quote == 65 then 66 else 65;
    var other := Only(rounds, k, c);
    OnlyValid(rounds, quote, k, c);
    forall i | 0 <= i < |other|
      ensures DataOf(other[i]) == Char(i, k, c)
    {
    }
    OneFilled(other, k, c);
    SameCount(rounds, other, k);
    DeliveredIsCounted(other, quote);
    PlainTimes(quote, c, Count(rounds, k));
    PlainTimes(quote, c, 1);
    TimesFew([c]);
  }

  /** Main result: damage is survived, whatever the data, exactly when it lets every data packet count once. */
  lemma {:induction false} DamageIff(rounds: seq<Round>, quote: byte)
    requires ValidTransfer(rounds) && QuotedBy(rounds, quote)
    ensures (forall other :: ValidTransfer(other) && QuotedBy(other, quote) && SameDamage(rounds, other)
                             ==> DeliversAll(other, quote))
       <==> OnceEach(rounds)
  {
    if OnceEach(rounds) {
      forall other | ValidTransfer(other) && QuotedBy(other, quote) && SameDamage(rounds, other)
        ensures DeliversAll(other, quote)
      {
        SameOnce(rounds, other);
        FilledOnceData(other);
        DeliveredIsCounted(other, quote);
      }
    } else {
      var k :| 0 <= k < |rounds| && IsData(rounds[k]) && Count(rounds, k) != 1;
      WrongCountShows(rounds, quote, k);
    }
  }

  // ---- the exact condition for one kind of damage, with the data as they are

  /** A data field that ends in no half-finished quote, as the manual demands of every packet. */
  predicate Balanced(quote: byte, data: seq<byte>) {
    !Feed(NOTHING, quote, data).esc
  }

  predicate AllBalanced(quote: byte, rounds: seq<Round>) {
    forall rd :: rd in rounds ==> Balanced(quote, DataOf(rd))
  }

  function Length(quote: byte, data: seq<byte>): nat {
    |Feed(NOTHING, quote, data).out|
  }

  lemma {:induction false} FeedLength(d: Decoded, quote: byte, s: seq<byte>)
    ensures var f := Feed(d, quote, s);
            2 * |d.out| + (if d.esc then 1 else 0) + |s| <= 2 * |f.out| + (if f.esc then 1 else 0)
  {
    if s != [] {
      FeedLength(d, quote, s[..|s| - 1]);
    }
  }

  lemma BalancedLength(quote: byte, chunk: seq<byte>, more: seq<byte>)
    requires Balanced(quote, chunk)
    ensures Length(quote, chunk + more) == Length(quote, chunk) + Length(quote, more)
    ensures Length(quote, chunk) == 0 <==> chunk == []
  {
    FeedConcat(NOTHING, quote, chunk, more);
    var pre := Feed(NOTHING, quote, chunk).out;
    assert pre + [] == pre;
    FeedPrepends(pre, NOTHING, quote, more);
    FeedLength(NOTHING, quote, chunk);
  }

  lemma {:induction false} TimesLength(quote: byte, s: seq<byte>, k: nat, more: seq<byte>)
    requires Balanced(quote, s)
    ensures Length(quote, Times(s, k) + more) == k * Length(quote, s) + Length(quote, more)
  {
    if k == 0 {
      assert [] + more == more;
    } else {
      assert Times(s, k) + more == Times(s, k - 1) + (s + more);
      TimesLength(quote, s, k - 1, s + more);
      BalancedLength(quote, s, more);
      assert k * Length(quote, s) == (k - 1) * Length(quote, s) + Length(quote, s);
    }
  }

  /** What a packet delivers above its length, or below it when it counts no time. */
  function Extra(quote: byte, rd: Round, rest: seq<Round>): int {
    (CountOf(rd, rest) - 1) * Length(quote, DataOf(rd))
  }

  /** The bytes delivered above the number sent. */
  function Surplus(quote: byte, rounds: seq<Round>): int {
    if rounds == [] then 0 else Extra(quote, rounds[0], rounds[1..]) + Surplus(quote, rounds[1..])
  }

  lemma ExtraHere(quote: byte, rd: Round, rest: seq<Round>, counted: seq<byte>, all: seq<byte>)
    requires Balanced(quote, DataOf(rd))
    ensures Length(quote, Times(DataOf(rd), CountOf(rd, rest)) + counted) - Length(quote, counted)
         == Length(quote, DataOf(rd) + all) - Length(quote, all) + Extra(quote, rd, rest)
  {
    var k: int, length: int := CountOf(rd, rest), Length(quote, DataOf(rd));
    TimesLength(quote, DataOf(rd), k, counted);
    BalancedLength(quote, DataOf(rd), all);
    assert k * length == (k - 1) * length + length;
  }

  lemma {:induction false} CountedLength(quote: byte, rounds: seq<Round>)
    requires AllBalanced(quote, rounds)
    ensures Length(quote, CountedData(rounds)) == Length(quote, AllData(rounds)) + Surplus(quote, rounds)
  {
    if rounds != [] {
      var rest := rounds[1..];
      assert rounds[0] in rounds;
      CountedLength(quote, rest);
      ExtraHere(quote, rounds[0], rest, CountedData(rest), AllData(rest));
    }
  }

  /** For every transfer: each packet adds its length for every time too often, or takes it when it counts none. */
  lemma {:induction false} DeliveredLength(rounds: seq<Round>, quote: byte)
    requires ValidRounds(rounds) && QuotedBy(rounds, quote) && AllBalanced(quote, rounds)
    ensures |Delivered(rounds)| == Length(quote, AllData(rounds)) + Surplus(quote, rounds)
  {
    DeliveredIsCounted(rounds, quote);
    CountedLength(quote, rounds);
  }

  predicate NoneTwice(rounds: seq<Round>) {
    forall i :: 0 <= i < |rounds| && DataOf(rounds[i]) != [] ==> Count(rounds, i) <= 1
  }

  predicate NoneLost(rounds: seq<Round>) {
    forall i :: 0 <= i < |rounds| && DataOf(rounds[i]) != [] ==> Count(rounds, i) >= 1
  }

  lemma SignOf(k: int, length: nat)
    ensures k >= 0 ==> k * length >= 0
    ensures k <= 0 ==> k * length <= 0
    ensures k * length == 0 <==> k == 0 || length == 0
  {
  }

  lemma ExtraSign(quote: byte, rd: Round, rest: seq<Round>)
    requires Balanced(quote, DataOf(rd))
    ensures CountOf(rd, rest) >= 1 || DataOf(rd) == [] ==> Extra(quote, rd, rest) >= 0
    ensures CountOf(rd, rest) <= 1 || DataOf(rd) == [] ==> Extra(quote, rd, rest) <= 0
    ensures Extra(quote, rd, rest) == 0 <==> DataOf(rd) == [] || CountOf(rd, rest) == 1
  {
    BalancedLength(quote, DataOf(rd), []);
    SignOf(CountOf(rd, rest) - 1, Length(quote, DataOf(rd)));
  }

  lemma {:induction false} SurplusSign(quote: byte, rounds: seq<Round>)
    requires AllBalanced(quote, rounds)
    ensures NoneTwice(rounds) ==> Surplus(quote, rounds) <= 0
    ensures NoneLost(rounds) ==> Surplus(quote, rounds) >= 0
    ensures (NoneTwice(rounds) || NoneLost(rounds)) && Surplus(quote, rounds) == 0 ==> FilledOnce(rounds)
  {
    if rounds != [] {
      assert rounds[0] in rounds;
      SurplusSign(quote, rounds[1..]);
      ExtraSign(quote, rounds[0], rounds[1..]);
      TailOnce(rounds);
    }
  }

  lemma TailOnce(rounds: seq<Round>)
    requires rounds != []
    ensures var filled, count := DataOf(rounds[0]) != [], CountOf(rounds[0], rounds[1..]);
            && (NoneTwice(rounds) <==> NoneTwice(rounds[1..]) && (filled ==> count <= 1))
            && (NoneLost(rounds) <==> NoneLost(rounds[1..]) && (filled ==> count >= 1))
            && (FilledOnce(rounds) <==> FilledOnce(rounds[1..]) && (filled ==> count == 1))
  {
    TailCounts(rounds);
    assert forall i :: 0 < i < |rounds| ==> rounds[i] == rounds[1..][i - 1] && Count(rounds, i) == Count(rounds[1..], i - 1);
  }

  /** As long as packets are only lost, or only doubled, the bytes are right exactly when each packet that carries
      some counts once. */
  lemma {:induction false} OneKindIff(rounds: seq<Round>, quote: byte)
    requires ValidRounds(rounds) && QuotedBy(rounds, quote) && AllBalanced(quote, rounds)
    requires NoneTwice(rounds) || NoneLost(rounds)
    ensures DeliversAll(rounds, quote) <==> FilledOnce(rounds)
  {
    DeliveredIsCounted(rounds, quote);
    DeliveredLength(rounds, quote);
    SurplusSign(quote, rounds);
    if FilledOnce(rounds) {
      FilledOnceData(rounds);
    }
  }
}
