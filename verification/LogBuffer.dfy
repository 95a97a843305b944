/** The log buffer (cmd_log.c): tagging lines with a level, and the ring they are kept in. */
module LogBuffer {
  import opened Common
  import opened Arithmetic
  import opened Rings

  const TAG := "<4>"

  // ---- tagging

  predicate IsLevel(c: char) {
    '0' <= c <= '7'
  }

  /** The text starts with a level of its own. */
  predicate Carries(text: string) {
    |text| >= 3 && text[0] == '<' && IsLevel(text[1]) && text[2] == '>'
  }

  /** What a call logs for its text, given whether it begins at the start of a line. */
  function Logged(text: string, start: bool): string {
    if text == "" then ""
    else (if start && !Carries(text) then TAG else "") + [text[0]] + Logged(text[1..], text[0] == '\n')
  }

  /** Whether the next call begins a line. */
  predicate AtStart(text: string, start: bool) {
    if text == "" then start else text[|text| - 1] == '\n'
  }

  /** What a run of calls logs. */
  function Stream(calls: seq<string>, start: bool): string {
    if calls == [] then "" else Logged(calls[0], start) + Stream(calls[1..], AtStart(calls[0], start))
  }

  function Joined(calls: seq<string>): string {
    if calls == [] then "" else calls[0] + Joined(calls[1..])
  }

  /** A level of its own, at a line start in `a`, reaches across the boundary into `b`. */
  predicate SplitsTag(a: string, b: string, start: bool) {
    a != "" && ((start && |a| < 3 && Carries(a + b)) || SplitsTag(a[1..], b, a[0] == '\n'))
  }

  predicate SplitsNone(calls: seq<string>, start: bool) {
    calls == []
    || (!SplitsTag(calls[0], Joined(calls[1..]), start) && SplitsNone(calls[1..], AtStart(calls[0], start)))
  }

  /** What is logged for the first character. */
  function Head(text: string, start: bool): string
    requires text != ""
  {
    (if start && !Carries(text) then TAG else "") + [text[0]]
  }

  lemma HeadConcat(a: string, b: string, start: bool)
    requires a != ""
    ensures Logged(a + b, start) == Head(a + b, start) + Logged(a[1..] + b, a[0] == '\n')
    ensures |a| >= 3 ==> Head(a + b, start) == Head(a, start)
    ensures |Head(a, start)| == |Head(a + b, start)| + if start && |a| < 3 && Carries(a + b) then 3 else 0
    ensures !(start && |a| < 3 && Carries(a + b)) ==> Head(a + b, start) == Head(a, start)
  {
    assert (a + b)[1..] == a[1..] + b && (a + b)[0] == a[0];
  }

  lemma {:induction false} LoggedJoins(a: string, b: string, start: bool)
    requires !SplitsTag(a, b, start)
    ensures Logged(a, start) + Logged(b, AtStart(a, start)) == Logged(a + b, start)
  {
    if a == "" {
      assert a + b == b;
    } else {
      LoggedJoins(a[1..], b, a[0] == '\n');
      HeadConcat(a, b, start);
      assert AtStart(a, start) == AtStart(a[1..], a[0] == '\n');
      Associate(Head(a, start), Logged(a[1..], a[0] == '\n'), Logged(b, AtStart(a, start)));
    }
  }

  lemma {:induction false} LoggedGrows(a: string, b: string, start: bool)
    ensures |Logged(a + b, start)| <= |Logged(a, start)| + |Logged(b, AtStart(a, start))|
    ensures SplitsTag(a, b, start) ==> |Logged(a + b, start)| < |Logged(a, start)| + |Logged(b, AtStart(a, start))|
  {
    if a == "" {
      assert a + b == b;
    } else {
      LoggedGrows(a[1..], b, a[0] == '\n');
      HeadConcat(a, b, start);
    }
  }

  /** Two calls log more than one with the joined text does, unless no tag is split; then they log the same. */
  lemma {:induction false} LoggedConcat(a: string, b: string, start: bool)
    ensures |Logged(a + b, start)| <= |Logged(a, start) + Logged(b, AtStart(a, start))|
    ensures Logged(a, start) + Logged(b, AtStart(a, start)) == Logged(a + b, start) <==> !SplitsTag(a, b, start)
  {
    LoggedGrows(a, b, start);
    if !SplitsTag(a, b, start) {
      LoggedJoins(a, b, start);
    }
  }

  /** A run of calls logs what its joined text does exactly when no call boundary splits a level. */
  lemma {:induction false} StreamIsText(calls: seq<string>, start: bool)
    ensures |Logged(Joined(calls), start)| <= |Stream(calls, start)|
    ensures Stream(calls, start) == Logged(Joined(calls), start) <==> SplitsNone(calls, start)
  {
    if calls != [] {
      var a, b := calls[0], Joined(calls[1..]);
      StreamIsText(calls[1..], AtStart(a, start));
      LoggedConcat(a, b, start);
      LoggedGrows(a, b, start);
      if !SplitsTag(a, b, start) {
        CancelFront(Logged(a, start), Stream(calls[1..], AtStart(a, start)), Logged(b, AtStart(a, start)));
      }
    }
  }

  lemma CancelFront(a: string, b: string, c: string)
    ensures a + b == a + c <==> b == c
  {
    if a + b == a + c {
      assert (a + b)[|a|..] == b && (a + c)[|a|..] == c;
    }
  }

  /** Every line of what is logged carries a level. */
  lemma {:induction false} LinesCarry(text: string, start: bool, k: nat)
    requires k < |Logged(text, start)| && (if k == 0 then start else Logged(text, start)[k - 1] == '\n')
    ensures Carries(Logged(text, start)[k..])
  {
    var head, rest := Head(text, start), Logged(text[1..], text[0] == '\n');
    assert Logged(text, start) == head + rest;
    if k >= |head| {
      LinesCarry(text[1..], text[0] == '\n', k - |head|);
      assert Logged(text, start)[k..] == rest[k - |head|..];
    } else if start && Carries(text) {
      var second := text[1..];
      assert Logged(second, false) == [second[0]] + Logged(second[1..], false);
      assert Logged(second[1..], false)[0] == second[1..][0] == text[2];
    }
  }

  lemma {:induction false} LoggedRest(line: string, rest: string)
    requires '\n' !in line
    ensures Logged(line + ("\n" + rest), false) == line + ("\n" + Logged(rest, true))
    ensures Logged(line, false) == line
  {
    if line == "" {
      LoggedNext("\n" + rest, '\n', rest);
      assert line + ("\n" + rest) == "\n" + rest;
    } else {
      assert line[0] in line && line == [line[0]] + line[1..];
      LoggedNext(line, line[0], line[1..]);
      LoggedRest(line[1..], rest);
      Associate([line[0]], line[1..], "\n" + rest);
      LoggedNext(line + ("\n" + rest), line[0], line[1..] + ("\n" + rest));
      Associate([line[0]], line[1..], "\n" + Logged(rest, true));
    }
  }

  lemma LoggedNext(text: string, c: char, rest: string)
    requires text == [c] + rest
    ensures Logged(text, false) == [c] + Logged(rest, c == '\n')
  {
    assert text[1..] == rest;
  }

  lemma CarriesLine(line: string, rest: string)
    requires '\n' !in line
    ensures Carries(line + ("\n" + rest)) <==> |line| >= 3 && line[0] == '<' && '0' <= line[1] <= '7' && line[2] == '>'
  {
    var text := line + ("\n" + rest);
    assert text[|line|] == '\n';
    assert forall k :: 0 <= k < |line| ==> text[k] == line[k];
  }

  lemma LoggedStart(text: string)
    ensures Logged(text, true) == (if text == "" || Carries(text) then "" else TAG) + Logged(text, false)
  {
  }

  /** What is logged for one line after another: "<4>" in front of each that does not start with a level "<0>" to "<7>",
      the line itself and its newline; a last line without a newline the same way. */
  lemma {:induction false} LineLogged(line: string, rest: string)
    requires '\n' !in line
    ensures var own := |line| >= 3 && line[0] == '<' && '0' <= line[1] <= '7' && line[2] == '>';
            && Logged(line + ("\n" + rest), true) == (if own then "" else "<4>") + (line + ("\n" + Logged(rest, true)))
            && (line != "" ==> Logged(line, true) == (if own then "" else "<4>") + line)
  {
    LoggedRest(line, rest);
    CarriesLine(line, rest);
    LoggedStart(line + ("\n" + rest));
    LoggedStart(line);
  }

  // ---- the ring

  const LOGBUFF_LEN := 16384

  /** The ring's contents after a run of calls. */
  function AfterCalls(ring: string, calls: seq<string>, start: bool): string
    decreases calls
  {
    if calls == [] then ring
    else AfterCalls(LastOf(ring + Logged(calls[0], start), LOGBUFF_LEN), calls[1..], AtStart(calls[0], start))
  }

  /** Over any run of calls the ring holds the last characters of everything logged. */
  lemma {:induction false} RingHoldsStream(before: string, calls: seq<string>, start: bool)
    ensures AfterCalls(LastOf(before, LOGBUFF_LEN), calls, start) == LastOf(before + Stream(calls, start), LOGBUFF_LEN)
    decreases calls
  {
    if calls == [] {
      assert before + "" == before;
    } else {
      var line := Logged(calls[0], start);
      LastOfConcat(before, line, LOGBUFF_LEN);
      RingHoldsStream(before + line, calls[1..], AtStart(calls[0], start));
      Associate(before, line, Stream(calls[1..], AtStart(calls[0], start)));
    }
  }

  /** From an empty log, calls that split no level leave the end of their joined text, tagged. */
  lemma RingHoldsText(calls: seq<string>)
    requires SplitsNone(calls, true)
    ensures var text := Logged(Joined(calls), true);
            AfterCalls("", calls, true) == if |text| <= 16384 then text else text[|text| - 16384..]
  {
    StreamIsText(calls, true);
    RingHoldsStream("", calls, true);
    assert "" + Stream(calls, true) == Stream(calls, true);
  }

  // ---- the ring, whose start is a counter

  /** Where the `k`-th character behind `start` is. */
  function LogSlot(start: nat, k: nat): (i: nat)
    ensures i < LOGBUFF_LEN
  {
    (start + k) % LOGBUFF_LEN
  }

  /** The characters from `start` on. */
  function Kept(data: seq<char>, start: nat, size: nat): (s: string)
    requires |data| == LOGBUFF_LEN && size <= LOGBUFF_LEN
    ensures |s| == size
  {
    Ring(data, start % LOGBUFF_LEN, size)
  }

  lemma LogSlotIs(start: nat, k: nat)
    requires k <= LOGBUFF_LEN
    ensures LogSlot(start, k) == Slot(start % LOGBUFF_LEN, k, LOGBUFF_LEN)
  {
    var q, r := start / LOGBUFF_LEN, start % LOGBUFF_LEN;
    DivMod(start, LOGBUFF_LEN);
    if r + k < LOGBUFF_LEN {
      Remainder(q, r + k, LOGBUFF_LEN);
    } else {
      Remainder(q + 1, r + k - LOGBUFF_LEN, LOGBUFF_LEN);
    }
  }

  lemma KeptNext(data: seq<char>, start: nat, size: nat)
    requires |data| == LOGBUFF_LEN && size < LOGBUFF_LEN
    ensures Kept(data, start, size + 1) == Kept(data, start, size) + [data[LogSlot(start, size)]]
  {
    LogSlotIs(start, size);
  }

  /** The mask leaves nothing of the size of a full ring. */
  lemma ShownSize(size: nat)
    requires size <= LOGBUFF_LEN
    ensures size % LOGBUFF_LEN == if size < LOGBUFF_LEN then size else 0
  {
  }

  /** The counter wraps at 32 bits, which the ring does not see. */
  lemma StartWraps(start: nat)
    ensures start % WORD_MOD % LOGBUFF_LEN == start % LOGBUFF_LEN
  {
    var w := start % WORD_MOD;
    DivMod(start, WORD_MOD);
    DivMod(w, LOGBUFF_LEN);
    Remainder(start / WORD_MOD * 0x4_0000 + w / LOGBUFF_LEN, w % LOGBUFF_LEN, LOGBUFF_LEN);
  }

  lemma NextStart(start: word)
    ensures (start + 1) % WORD_MOD % LOGBUFF_LEN == Slot(start % LOGBUFF_LEN, 1, LOGBUFF_LEN)
  {
    StartWraps(start + 1);
    LogSlotIs(start, 1);
  }

  /** A character stored where the ring ends keeps the last characters of it and the new one. */
  lemma {:induction false} LogPut(data: seq<char>, start: word, size: nat, c: char)
    requires |data| == LOGBUFF_LEN && size <= LOGBUFF_LEN
    ensures var data' := data[LogSlot(start, size) := c];
            LastOf(Kept(data, start, size) + [c], LOGBUFF_LEN)
            == if size < LOGBUFF_LEN then Kept(data', start, size + 1) else Kept(data', (start + 1) % WORD_MOD, size)
  {
    LogSlotIs(start, size);
    NextStart(start);
    RingPut(data, data[LogSlot(start, size) := c], start % LOGBUFF_LEN, size, c, LOGBUFF_LEN);
  }

  /** `log_buf`, `log_start`, `log_size` and `logged_chars`. */
  datatype RingState = RingState(data: seq<char>, start: word, size: word, chars: word)

  predicate ValidRing(r: RingState) {
    |r.data| == LOGBUFF_LEN && r.size <= LOGBUFF_LEN
  }

  function TextOf(r: RingState): string
    requires ValidRing(r)
  {
    Kept(r.data, r.start, r.size)
  }

  /** One character stored. */
  function PutChar(r: RingState, c: char): (r': RingState)
    requires ValidRing(r)
    ensures ValidRing(r')
  {
    var full := r.size == LOGBUFF_LEN;
    RingState(r.data[LogSlot(r.start, r.size) := c], if full then (r.start + 1) % WORD_MOD else r.start,
              if full then r.size else r.size + 1, (r.chars + 1) % WORD_MOD)
  }

  function PutText(r: RingState, s: string): (r': RingState)
    requires ValidRing(r)
    ensures ValidRing(r')
  {
    if s == "" then r else PutChar(PutText(r, s[..|s| - 1]), s[|s| - 1])
  }

  lemma PutNext(r: RingState, s: string, c: char)
    requires ValidRing(r)
    ensures PutText(r, s + [c]) == PutChar(PutText(r, s), c)
  {
    assert (s + [c])[..|s|] == s;
  }

  lemma {:induction false} PutTextConcat(r: RingState, a: string, b: string)
    requires ValidRing(r)
    ensures PutText(r, a + b) == PutText(PutText(r, a), b)
  {
    if b == "" {
      assert a + b == a;
    } else {
      var k := |b| - 1;
      PutTextConcat(r, a, b[..k]);
      assert a + b == (a + b[..k]) + [b[k]];
      PutNext(r, a + b[..k], b[k]);
    }
  }

  lemma PutCharKeeps(r: RingState, c: char)
    requires ValidRing(r)
    ensures TextOf(PutChar(r, c)) == LastOf(TextOf(r) + [c], LOGBUFF_LEN)
  {
    LogPut(r.data, r.start, r.size, c);
  }

  lemma CountNext(chars: word, n: nat)
    ensures ((chars + n) % WORD_MOD + 1) % WORD_MOD == (chars + (n + 1)) % WORD_MOD
  {
  }

  lemma {:induction false} PutTextCounts(r: RingState, s: string)
    requires ValidRing(r)
    ensures PutText(r, s).chars == (r.chars + |s|) % WORD_MOD
  {
    if s != "" {
      PutTextCounts(r, s[..|s| - 1]);
      CountNext(r.chars, |s| - 1);
    }
  }

  /** Storing a text keeps the last characters of what was there and of it. */
  lemma {:induction false} PutTextKeeps(r: RingState, s: string)
    requires ValidRing(r)
    ensures TextOf(PutText(r, s)) == LastOf(TextOf(r) + s, LOGBUFF_LEN)
  {
    if s == "" {
      assert TextOf(r) + s == TextOf(r);
    } else {
      var k := |s| - 1;
      PutTextKeeps(r, s[..k]);
      PutCharKeeps(PutText(r, s[..k]), s[k]);
      LastOfNext(TextOf(r), s, LOGBUFF_LEN);
    }
  }

  lemma LastOfNext(t: string, s: string, n: nat)
    requires s != ""
    ensures LastOf(LastOf(t + s[..|s| - 1], n) + [s[|s| - 1]], n) == LastOf(t + s, n)
  {
    var a, c := s[..|s| - 1], [s[|s| - 1]];
    LastOfConcat(t + a, c, n);
    assert (t + a) + c == t + s;
  }

  // ---- what the tagging does to a line

  /** A text up to its first newline, which is included. */
  function FirstLine(text: string): (line: string)
    ensures |line| <= |text| && (text != "" ==> line != "")
  {
    if text == "" then "" else if text[0] == '\n' then text[..1] else [text[0]] + FirstLine(text[1..])
  }

  lemma {:induction false} FirstLinePrefix(text: string)
    ensures FirstLine(text) <= text
    ensures text != "" ==> AtStart(FirstLine(text), false) || FirstLine(text) == text
  {
    if text != "" && text[0] != '\n' {
      FirstLinePrefix(text[1..]);
      assert text == [text[0]] + text[1..];
    }
  }

  /** Within a line nothing is inserted. */
  lemma {:induction false} LoggedWithin(text: string)
    ensures Logged(text, false) == FirstLine(text) + Logged(text[|FirstLine(text)|..], true)
  {
    if text != "" && text[0] != '\n' {
      var rest := text[1..];
      LoggedWithin(rest);
      assert text[|FirstLine(text)|..] == rest[|FirstLine(rest)|..];
    }
  }
}
