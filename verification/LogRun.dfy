/** `logbuff_printk` as it runs, on its message buffer and the ring. */
module LogRun {
  import opened Common
  import opened Rings
  import opened LogBuffer

  const ROOM := 1024                 // the message buffer, three characters of it in front of the text

  class Log {
    const logBuf: array<char>
    const buf: array<char>
    var logStart: word
    var logSize: word
    var loggedChars: word
    var msgLevel: int                // -1 at the start of a line

    ghost predicate Valid()
      reads this
    {
      && logBuf.Length == LOGBUFF_LEN && buf.Length == ROOM && logBuf != buf && logSize <= LOGBUFF_LEN
      && -1 <= msgLevel < 8
    }

    ghost function State(): RingState
      requires Valid()
      reads this, logBuf
      ensures ValidRing(State())
    {
      RingState(logBuf[..], logStart, logSize, loggedChars)
    }

    ghost function Contents(): string
      requires Valid()
      reads this, logBuf
    {
      TextOf(State())
    }

    /** One character into the ring. */
    method Put(c: char)
      requires Valid()
      modifies `logStart, `logSize, `loggedChars, logBuf
      ensures Valid() && State() == PutChar(old(State()), c)
    {
      var pos := LogSlot(logStart, logSize);
      logBuf[pos] := c;
      assert logBuf[..] == old(logBuf[..])[pos := c];
      if logSize < LOGBUFF_LEN {
        logSize := logSize + 1;
      } else {
        logStart := (logStart + 1) % WORD_MOD;
      }
      loggedChars := (loggedChars + 1) % WORD_MOD;
    }

    /** One turn of the inner loop. */
    method PutTurn(c: char, ghost r: RingState, ghost k: nat, ghost text: string) returns (lineFeed: bool)
      requires k < |text| && c == text[k] && '\n' !in text[..k]
      requires Valid() && ValidRing(r) && State() == PutText(r, text[..k])
      modifies `logStart, `logSize, `loggedChars, logBuf
      ensures Valid() && State() == PutText(r, text[..k + 1])
      ensures lineFeed ==> FirstLine(text) == text[..k + 1] && AtStart(FirstLine(text), false)
      ensures !lineFeed ==> '\n' !in text[..k + 1]
    {
      assert text[..k + 1] == text[..k] + [c];
      PutNext(r, text[..k], c);
      Put(c);
      lineFeed := c == '\n';
      if lineFeed {
        FirstLineEnds(text, k);
      }
    }

    /** The inner loop: characters up to the end of a line or of the text. */
    method PutLine(from: nat, end: nat, ghost text: string) returns (p: nat, lineFeed: bool)
      requires Valid() && from < end <= buf.Length && text == buf[from..end]
      modifies `logStart, `logSize, `loggedChars, logBuf
      ensures Valid() && State() == PutText(old(State()), FirstLine(text))
      ensures lineFeed <==> AtStart(FirstLine(text), false)
      ensures p == from + |FirstLine(text)| - if lineFeed then 1 else 0
    {
      p, lineFeed := from, false;
      ghost var r := State();
      while p < end
        invariant from <= p <= end && Valid() && State() == PutText(r, text[..p - from])
        invariant '\n' !in text[..p - from]
      {
        lineFeed := PutTurn(buf[p], r, p - from, text);
        if lineFeed { return; }
        p := p + 1;
      }
      LineWhole(text);
    }

    /** The default level in front of a line that has none, which fits the room kept free. */
    method PutTag(p: nat, end: nat, ghost text: string) returns (from: nat)
      requires Valid() && 3 <= p < end < buf.Length && text == buf[p..end] && buf[end] == '\0'
      modifies buf
      ensures from == p - 3 && buf[from..end] == TAG + text && buf[p..end] == text && buf[end] == '\0'
    {
      from := p - 3;
      buf[from], buf[from + 1], buf[from + 2] := '<', '4', '>';
      assert buf[p..end] == text;
      assert buf[from..end] == buf[from..p] + buf[p..end];
    }

    lemma CarriesAt(p: nat, end: nat, text: string)
      requires 3 <= p < end < buf.Length && text == buf[p..end] && buf[end] == '\0' && '\0' !in text
      ensures Carries(text) <==> buf[p] == '<' && '0' <= buf[p + 1] <= '7' && buf[p + 2] == '>'
      ensures buf[p] == '<' && '0' <= buf[p + 1] <= '7' ==> p + 2 <= end
    {
      assert forall k :: 0 <= k < |text| ==> buf[p + k] == text[k] != '\0';
    }

    /** The level of a line that begins at `p`: its own, or the default put in front of it. */
    method TagLine(p: nat, end: nat, ghost text: string) returns (from: nat)
      requires Valid() && Left(p, end, text) && p < end
      modifies buf, `msgLevel
      ensures Valid() && 0 <= msgLevel && from <= p && Left(p, end, text)
      ensures buf[from..end] == TagOf(text, true) + text
    {
      CarriesAt(p, end, text);
      from := p;
      if buf[p] != '<' || buf[p + 1] < '0' || buf[p + 1] > '7' || buf[p + 2] != '>' {
        from := PutTag(p, end, text);
        assert buf[from + 1] == (TAG + text)[1];
      } else {
        assert "" + text == text;
      }
      msgLevel := buf[from + 1] as int - '0' as int;
    }

    /** The level is looked at only where a line begins. */
    method TagStart(p: nat, end: nat, ghost text: string) returns (from: nat)
      requires Valid() && Left(p, end, text) && p < end
      modifies buf, `msgLevel
      ensures Valid() && 0 <= msgLevel && from <= p && Left(p, end, text)
      ensures buf[from..end] == TagOf(text, old(msgLevel) < 0) + text
    {
      from := p;
      if msgLevel < 0 {
        from := TagLine(p, end, text);
      } else {
        assert "" + text == text;
      }
    }

    /** What is left of the text, at `p`; behind its last line `p` may be one too far. */
    ghost predicate Left(p: nat, end: nat, text: string)
      reads this, buf
    {
      && 3 <= p <= end + 1 && end < buf.Length && buf[end] == '\0' && '\0' !in text
      && if p <= end then text == buf[p..end] else text == ""
    }

    /** One turn of the outer loop. */
    method PrintLine(p: nat, end: nat, ghost text: string) returns (next: nat)
      requires Valid() && p < end && Left(p, end, text)
      modifies this, logBuf, buf
      ensures var line, tag := FirstLine(text), TagOf(text, old(msgLevel) < 0);
              && Valid() && State() == PutText(old(State()), tag + line)
              && next == p + |line| + if AtStart(line, false) then 0 else 1
      ensures msgLevel < 0 <==> AtStart(FirstLine(text), false)
      ensures Left(p, end, text)
    {
      ghost var tag := TagOf(text, msgLevel < 0);
      FirstLineTagged(tag, text);
      var from := TagStart(p, end, text);
      assert |buf[from..end]| == |tag| + |text|;
      var q, lineFeed := PutLine(from, end, tag + text);
      if lineFeed { msgLevel := -1; }
      next := q + 1;
    }

    /** One turn of the outer loop, and what it leaves to be logged. */
    method LogLine(p: nat, end: nat, ghost text: string) returns (next: nat, ghost rest: string)
      requires Valid() && p < end && Left(p, end, text)
      modifies this, logBuf, buf
      ensures Valid() && p < next && Left(next, end, rest)
      ensures PutText(State(), Logged(rest, msgLevel < 0)) == PutText(old(State()), Logged(text, old(msgLevel) < 0))
      ensures AtStart(rest, msgLevel < 0) == AtStart(text, old(msgLevel) < 0)
    {
      LineGoes(State(), text, msgLevel < 0);
      rest := text[|FirstLine(text)|..];
      next := PrintLine(p, end, text);
      LeftBehind(p, end, text, |FirstLine(text)|, next);
    }

    lemma LeftBehind(p: nat, end: nat, text: string, k: nat, next: nat)
      requires Left(p, end, text) && p <= end && 0 < k <= |text|
      requires next == p + k || (next == p + k + 1 && k == |text|)
      ensures p < next && Left(next, end, text[k..])
    {
      if next <= end {
        assert buf[p + k..end] == buf[p..end][k..];
        assert forall j :: 0 <= j < |text| - k ==> text[k..][j] == text[k + j];
      }
    }

    /** The loops of `logbuff_printk` on the text in the buffer. */
    method LogText(line: string)
      requires Valid() && |line| + 4 <= ROOM && Left(3, 3 + |line|, line)
      modifies this, logBuf, buf
      ensures Valid() && State() == PutText(old(State()), Logged(line, old(msgLevel) < 0))
      ensures msgLevel < 0 <==> AtStart(line, old(msgLevel) < 0)
    {
      var p: nat, end: nat := 3, 3 + |line|;
      ghost var text, goal, start := line, PutText(State(), Logged(line, msgLevel < 0)), msgLevel < 0;
      while p < end
        invariant Valid() && Left(p, end, text) && PutText(State(), Logged(text, msgLevel < 0)) == goal
        invariant AtStart(text, msgLevel < 0) == AtStart(line, start)
        decreases end - p
      {
        p, text := LogLine(p, end, text);
      }
      assert text == "";
    }

    method CopyAndLog(line: string)
      requires Valid() && |line| + 4 <= ROOM && '\0' !in line
      modifies this, logBuf, buf
      ensures Valid() && State() == PutText(old(State()), Logged(line, old(msgLevel) < 0))
      ensures msgLevel < 0 <==> AtStart(line, old(msgLevel) < 0)
    {
      CopyIn(line);
      LogText(line);
    }

    /** `logbuff_printk`. */
    method Printk(line: string) returns (i: nat)
      requires Valid() && |line| + 4 <= ROOM && '\0' !in line
      modifies this, logBuf, buf
      ensures Valid() && i == |line|
      ensures Contents() == LastOf(old(Contents()) + Logged(line, old(msgLevel) < 0), LOGBUFF_LEN)
      ensures loggedChars == (old(loggedChars) + |Logged(line, old(msgLevel) < 0)|) % WORD_MOD
      ensures msgLevel < 0 <==> AtStart(line, old(msgLevel) < 0)
    {
      i := |line|;
      PutTextKeeps(State(), Logged(line, msgLevel < 0));
      PutTextCounts(State(), Logged(line, msgLevel < 0));
      CopyAndLog(line);
    }

    /** `log reset`; the level of an unfinished line stays. */
    method Reset()
      requires Valid()
      modifies `logStart, `logSize, `loggedChars
      ensures Valid() && Contents() == "" && loggedChars == 0
    {
      logStart, logSize, loggedChars := 0, 0, 0;
    }

    /** `log show`: the contents, unless the ring is full; then the mask leaves nothing of its size. */
    method Show() returns (shown: string)
      requires Valid()
      ensures shown == if logSize < LOGBUFF_LEN then Contents() else ""
    {
      shown := "";
      ShownSize(logSize);
      var i: nat, count: nat := 0, logSize % LOGBUFF_LEN;
      while i < count
        invariant i <= count && shown == Kept(logBuf[..], logStart, i)
      {
        KeptNext(logBuf[..], logStart, i);
        shown := shown + [logBuf[LogSlot(logStart, i)]];
        i := i + 1;
      }
    }

    /** strcpy behind the three characters kept free. */
    method CopyIn(line: string)
      requires Valid() && |line| + 4 <= ROOM && '\0' !in line
      modifies buf
      ensures Left(3, 3 + |line|, line)
    {
      var k := 0;
      while k < |line|
        invariant 0 <= k <= |line|
        invariant buf[3..3 + k] == line[..k]
      {
        buf[3 + k] := line[k];
        k := k + 1;
      }
      buf[3 + k] := '\0';
    }
  }

  lemma FirstLineTagged(tag: string, text: string)
    requires (tag == "" || tag == TAG) && text != ""
    ensures FirstLine(tag + text) == tag + FirstLine(text)
    ensures AtStart(FirstLine(tag + text), false) == AtStart(FirstLine(text), false)
  {
    if tag == TAG {
      FirstLineLevel(text);
    } else {
      assert tag + text == text && tag + FirstLine(text) == FirstLine(text);
    }
  }

  lemma {:induction false} FirstLineEnds(text: string, k: nat)
    requires k < |text| && '\n' !in text[..k] && text[k] == '\n'
    ensures FirstLine(text) == text[..k + 1]
  {
    if k > 0 {
      assert text[0] == text[..k][0] && text[1..][..k - 1] == text[..k][1..];
      FirstLineEnds(text[1..], k - 1);
      assert text[..k + 1] == [text[0]] + text[1..][..k];
    }
  }

  lemma LineWhole(text: string)
    ensures text[..|text|] == text
    ensures '\n' !in text ==> FirstLine(text) == text && !AtStart(text, false)
  {
    if '\n' !in text {
      FirstLineAll(text);
      assert text != "" ==> text[|text| - 1] in text;
    }
  }

  lemma {:induction false} FirstLineAll(text: string)
    requires '\n' !in text
    ensures FirstLine(text) == text
  {
    if text != "" {
      assert text[0] in text;
      FirstLineAll(text[1..]);
    }
  }

  lemma FirstLineLevel(text: string)
    ensures FirstLine(TAG + text) == TAG + FirstLine(text)
  {
    FirstLinePast('>', text);
    FirstLinePast('4', ">" + text);
    FirstLinePast('<', "4" + (">" + text));
    assert "<" + ("4" + (">" + text)) == TAG + text;
    assert "<" + ("4" + (">" + FirstLine(text))) == TAG + FirstLine(text);
  }

  lemma FirstLinePast(c: char, text: string)
    requires c != '\n'
    ensures FirstLine([c] + text) == [c] + FirstLine(text)
  {
    assert ([c] + text)[1..] == text;
  }

  /** What is put in front of a line. */
  function TagOf(text: string, start: bool): string {
    if start && !Carries(text) then TAG else ""
  }

  lemma LoggedTag(text: string, start: bool)
    requires text != ""
    ensures Logged(text, start) == TagOf(text, start) + Logged(text, false)
  {
    assert Logged(text, false) == [text[0]] + Logged(text[1..], text[0] == '\n');
    assert Logged(text, start) == (TagOf(text, start) + [text[0]]) + Logged(text[1..], text[0] == '\n');
    Associate(TagOf(text, start), [text[0]], Logged(text[1..], text[0] == '\n'));
  }

  /** What is logged for a text: the level if need be, its first line, and what is logged for the rest. */
  lemma LoggedLine(text: string, start: bool)
    requires text != ""
    ensures 0 < |FirstLine(text)| <= |text|
    ensures Logged(text, start)
         == (TagOf(text, start) + FirstLine(text)) + Logged(text[|FirstLine(text)|..], AtStart(FirstLine(text), false))
    ensures AtStart(text, start) == AtStart(text[|FirstLine(text)|..], AtStart(FirstLine(text), false))
    ensures !AtStart(FirstLine(text), false) ==> text[|FirstLine(text)|..] == ""
  {
    FirstLinePrefix(text);
    LoggedWithin(text);
    var line := FirstLine(text);
    var rest := text[|line|..];
    assert text == line + rest;
    LoggedTag(text, start);
    Associate(TagOf(text, start), line, Logged(rest, true));
    if !AtStart(line, false) {
      assert rest == "";
    }
  }

  /** A line logged, and then what is logged for the rest, is what is logged for the text. */
  lemma LineGoes(r: RingState, text: string, start: bool)
    requires ValidRing(r) && text != ""
    ensures var line, tag := FirstLine(text), TagOf(text, start);
            var rest, start' := text[|line|..], AtStart(line, false);
            && 0 < |line| <= |text| && (!start' ==> |line| == |text|)
            && PutText(PutText(r, tag + line), Logged(rest, start')) == PutText(r, Logged(text, start))
            && AtStart(rest, start') == AtStart(text, start)
  {
    var line := FirstLine(text);
    LoggedLine(text, start);
    PutTextConcat(r, TagOf(text, start) + line, Logged(text[|line|..], AtStart(line, false)));
  }
}
