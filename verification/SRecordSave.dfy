/** `save_serial` as it runs: one byte at a time into two fixed buffers. */
module SRecordSave {
  import opened Common
  import opened SRecordCoding
  import opened SRecordTransfer
  import opened SRecordMemory

  /** A buffer up to its first NUL. */
  function CString(buf: seq<char>): string {
    if buf == [] || buf[0] == '\0' then "" else [buf[0]] + CString(buf[1..])
  }

  lemma {:induction false} CStringIs(buf: seq<char>, n: nat)
    requires n < |buf| && buf[n] == '\0' && forall k :: 0 <= k < n ==> buf[k] != '\0'
    ensures CString(buf) == buf[..n]
  {
    if n > 0 {
      CStringIs(buf[1..], n - 1);
      assert buf[..n] == [buf[0]] + buf[1..][..n - 1];
    }
  }

  lemma {:induction false} SentConcat(a: seq<string>, b: seq<string>)
    ensures Sent(a + b) == Sent(a) + Sent(b)
  {
    if a == [] {
      assert a + b == b;
    } else {
      SentConcat(a[1..], b);
      assert (a + b)[1..] == a[1..] + b;
    }
  }

  lemma SentSnoc(a: seq<string>, line: string)
    ensures Sent(a + [line]) == Sent(a) + line + "\n"
  {
    SentConcat(a, [line]);
    assert [line][1..] == [];
    assert Sent([line]) == line + "\n";
  }

  /** The low `n` bytes of a value, added up. */
  function ByteSum(v: nat, n: nat): nat {
    if n == 0 then 0 else v % 256 + ByteSum(v / 256, n - 1)
  }

  lemma LengthSum(length: byte)
    ensures ByteSum(length, 2) == length
  {
    assert ByteSum(length, 2) == length % 256 + ByteSum(length / 256, 1);
    assert ByteSum(0, 1) == ByteSum(0, 0);
  }

  lemma AddressSum(a: word)
    ensures ByteSum(a, 4) == Sum(AddressBytes(a))
  {
    var c, d, e := a / 0x100, a / 0x1_0000, a / 0x100_0000;
    assert c / 256 == d && d / 256 == e && e / 256 == 0;
    assert ByteSum(e, 1) == e % 256 + ByteSum(e / 256, 0);
    assert ByteSum(d, 2) == d % 256 + ByteSum(e, 1);
    assert ByteSum(c, 3) == c % 256 + ByteSum(d, 2);
    Four(e, d % 256, c % 256, a % 256);
  }

  lemma DigitsNotNul(bs: seq<byte>)
    ensures forall k :: 0 <= k < 2 * |bs| ==> HexBytes(bs)[k] != '\0'
  {
    forall k | 0 <= k < 2 * |bs|
      ensures HexBytes(bs)[k] != '\0'
    {
      BytesPlain(bs, k);
    }
  }

  class Saver {
    const mem: array<byte>
    const record: array<char>
    const data: array<char>
    const interrupt: nat               // the console is interrupted when this many records have been sent before
    var out: string
    var written: nat

    ghost predicate Valid()
      reads this
    {
      && mem.Length == WORD_MOD && record.Length == 2 * PER_RECORD + 16 && data.Length == 2 * PER_RECORD + 1
      && record != data
    }

    /** sprintf into the record buffer, which must hold the text and its NUL. */
    method Format(text: string)
      requires Valid() && |text| < record.Length && forall k :: 0 <= k < |text| ==> text[k] != '\0'
      modifies record
      ensures CString(record[..]) == text && '\0' in record[..]
    {
      var k := 0;
      while k < |text|
        invariant 0 <= k <= |text|
        invariant record[..k] == text[..k]
      {
        record[k] := text[k];
        k := k + 1;
      }
      record[k] := '\0';
      assert forall j :: 0 <= j < k ==> record[..][j] == record[..k][j] == text[j];
      CStringIs(record[..], k);
      assert record[..][..k] == record[..k];
      assert record[..][k] == '\0';
    }

    /** Send a string; `false` when the console is interrupted behind it. */
    method WriteRecord(buf: seq<char>) returns (ok: bool)
      requires '\0' in buf
      modifies `out, `written
      ensures out == old(out) + CString(buf) && written == old(written) + 1
      ensures ok <==> old(written) != interrupt
    {
      var k := 0;
      assert buf[0..] == buf;
      while buf[k] != '\0'
        invariant 0 <= k < |buf| && '\0' in buf[k..]
        invariant out + CString(buf[k..]) == old(out) + CString(buf) && written == old(written)
        decreases |buf| - k
      {
        assert buf[k..][1..] == buf[k + 1..];
        assert '\0' in buf[k + 1..] by {
          var j :| 0 <= j < |buf[k..]| && buf[k..][j] == '\0';
          assert buf[k + 1..][j - 1] == '\0';
        }
        out := out + [buf[k]];
        k := k + 1;
      }
      assert CString(buf[k..]) == "";
      ok := written != interrupt;
      written := written + 1;
    }

    /** What a call that began with `out0` and `written0` has sent. */
    ghost predicate Sending(out0: string, written0: nat, sent: seq<string>)
      reads this
    {
      out == out0 + Sent(sent) && written == written0 + |sent|
    }

    /** Send a line that was not formatted. */
    method SendLine(line: string, ghost out0: string, ghost written0: nat, ghost sent: seq<string>) returns (ok: bool)
      requires forall k :: 0 <= k < |line| ==> line[k] != '\0'
      requires Sending(out0, written0, sent)
      modifies `out, `written
      ensures Sending(out0, written0, sent + [line])
      ensures ok <==> old(written) != interrupt
    {
      var buf := line + "\n" + "\0";
      assert buf[|line| + 1] == '\0';
      CStringIs(buf, |line| + 1);
      assert buf[..|line| + 1] == line + "\n";
      ok := WriteRecord(buf);
      SentSnoc(sent, line);
    }

    /** Accumulate the low bytes of a value into the checksum. */
    method AddBytes(checksum: nat, v: nat, n: nat) returns (sum: nat)
      ensures sum == checksum + ByteSum(v, n)
    {
      sum := checksum;
      var i, rest := 0, v;
      while i < n
        invariant 0 <= i <= n && sum + ByteSum(rest, n - i) == checksum + ByteSum(v, n)
      {
        sum := sum + rest % 256;
        rest := rest / 256;
        i := i + 1;
      }
    }

    /** The checksum byte of a record, from the sum of its data. */
    method Complement(checksum: nat, length: byte, address: word, ghost bytes: seq<byte>) returns (sum: byte)
      requires checksum == Sum(bytes)
      ensures sum == Checksum(length, address, bytes)
    {
      var total := AddBytes(checksum, length, 2);
      total := AddBytes(total, address, 4);
      LengthSum(length);
      AddressSum(address);
      sum := 255 - total % 256;
    }

    lemma BufferText(reclen: nat, bytes: seq<byte>)
      requires Valid() && |bytes| == reclen <= PER_RECORD
      requires data[..2 * reclen] == HexBytes(bytes) && data[2 * reclen] == '\0'
      ensures CString(data[..]) == HexBytes(bytes)
    {
      DigitsNotNul(bytes);
      assert data[..][..2 * reclen] == data[..2 * reclen];
      assert forall k :: 0 <= k < 2 * reclen ==> data[..][k] == data[..2 * reclen][k];
      CStringIs(data[..], 2 * reclen);
    }

    /** Format and send the record for the bytes whose digits are in the data buffer and whose sum is `checksum`. */
    method Dump(address: word, reclen: nat, checksum: nat, ghost bytes: seq<byte>,
                ghost out0: string, ghost written0: nat, ghost sent: seq<string>) returns (ok: bool)
      requires Valid() && |bytes| == reclen <= PER_RECORD && checksum == Sum(bytes)
      requires data[..2 * reclen] == HexBytes(bytes) && data[2 * reclen] == '\0'
      requires Sending(out0, written0, sent)
      modifies `out, `written, record
      ensures Sending(out0, written0, sent + [RecordLine(address, bytes)])
      ensures ok <==> old(written) != interrupt
    {
      var length := 4 + reclen + 1;
      var sum := Complement(checksum, length, address, bytes);
      FormatRecord(length, address, sum, bytes);
      ok := SendFormatted(RecordLine(address, bytes), out0, written0, sent);
    }

    /** Send the formatted record. */
    method SendFormatted(ghost line: string, ghost out0: string, ghost written0: nat, ghost sent: seq<string>)
        returns (ok: bool)
      requires CString(record[..]) == line + "\n" && '\0' in record[..] && Sending(out0, written0, sent)
      modifies `out, `written
      ensures Sending(out0, written0, sent + [line])
      ensures ok <==> old(written) != interrupt
    {
      ok := WriteRecord(record[..]);
      SentSnoc(sent, line);
    }

    /** sprintf with SREC3_FORMAT. */
    method FormatRecord(length: nat, address: word, sum: byte, ghost bytes: seq<byte>)
      requires Valid() && |bytes| <= PER_RECORD && length == 5 + |bytes| && sum == Checksum(length, address, bytes)
      requires data[..2 * |bytes|] == HexBytes(bytes) && data[2 * |bytes|] == '\0'
      modifies record
      ensures CString(record[..]) == RecordLine(address, bytes) + "\n" && '\0' in record[..]
    {
      BufferText(|bytes|, bytes);
      RecordSendable(address, bytes);
      Format("S3" + HexDigits(length, 2) + HexDigits(address, 8) + CString(data[..]) + HexDigits(sum, 2) + "\n");
    }

    /** `address` and what is left to send from there. */
    ghost predicate Pending(address: word, rest: seq<byte>)
      requires Valid()
      reads this, mem
    {
      |rest| < WORD_MOD && forall k :: 0 <= k < |rest| ==> rest[k] == mem[Ahead(address, k)]
    }

    /** The buffer holds the digits of the first bytes of `rest`. */
    ghost predicate Buffered(reclen: nat, checksum: nat, rest: seq<byte>)
      requires Valid()
      reads this, data
    {
      && reclen <= |rest| && reclen <= PER_RECORD && checksum == Sum(rest[..reclen])
      && data[..2 * reclen] == HexBytes(rest[..reclen]) && (reclen > 0 ==> data[2 * reclen] == '\0')
    }

    /** Read one more byte into the data buffer and accumulate it. */
    method Collect(address: word, reclen: nat, checksum: nat, ghost rest: seq<byte>) returns (checksum': nat)
      requires Valid() && reclen < PER_RECORD && reclen < |rest| && Pending(address, rest)
      requires Buffered(reclen, checksum, rest)
      modifies data
      ensures Buffered(reclen + 1, checksum', rest)
    {
      var c := mem[Ahead(address, reclen)];
      checksum' := checksum + c;
      PutDigits(reclen, c);
      Snoc(rest[..reclen], c);
      assert rest[..reclen + 1] == rest[..reclen] + [c];
    }

    /** sprintf with "%02X". */
    method PutDigits(reclen: nat, c: byte)
      requires Valid() && reclen < PER_RECORD
      modifies data
      ensures data[..2 * (reclen + 1)] == old(data[..2 * reclen]) + HexDigits(c, 2) && data[2 * (reclen + 1)] == '\0'
    {
      HexPair(c);
      data[2 * reclen] := DIGITS[c / 16];
      data[2 * reclen + 1] := DIGITS[c % 16];
      data[2 * reclen + 2] := '\0';
      assert data[..2 * (reclen + 1)] == data[..2 * reclen] + [data[2 * reclen], data[2 * reclen + 1]];
    }

    lemma PendingAdvance(address: word, rest: seq<byte>, n: nat)
      requires Valid() && Pending(address, rest) && n <= |rest| && n <= PER_RECORD
      ensures Pending(Ahead(address, n), rest[n..])
    {
      forall k | 0 <= k < |rest| - n
        ensures rest[n..][k] == mem[Ahead(Ahead(address, n), k)]
      {
        assert Ahead(Ahead(address, n), k) == Ahead(address, n + k);
      }
    }

    /** The call has sent `sent`, uninterrupted, and owes the records of `rest`. */
    ghost predicate Owes(out0: string, written0: nat, sent: seq<string>, address: word, rest: seq<byte>, total: seq<string>)
      requires Valid()
      reads this, mem
    {
      && Sending(out0, written0, sent) && !(0 <= interrupt - written0 < |sent|)
      && Pending(address, rest) && sent + Records(address, rest) == total
    }

    /** The call was interrupted behind one of `lines`. */
    ghost predicate Stopped(out0: string, written0: nat, lines: seq<string>)
      reads this
    {
      0 <= interrupt - written0 < |lines| && out == out0 + Sent(lines[..interrupt - written0 + 1])
    }

    /** Dump a full buffer. */
    method Flush(address: word, reclen: nat, checksum: nat, ghost rest: seq<byte>, ghost total: seq<string>,
                 ghost out0: string, ghost written0: nat, ghost sent: seq<string>)
        returns (ok: bool, ghost sent': seq<string>)
      requires Valid() && 0 < reclen == Run(|rest|) && Buffered(reclen, checksum, rest)
      requires Owes(out0, written0, sent, address, rest, total)
      modifies `out, `written, record
      ensures ok ==> Owes(out0, written0, sent', Ahead(address, reclen), rest[reclen..], total)
      ensures !ok ==> Stopped(out0, written0, total + [END_LINE])
    {
      ok := Dump(address, reclen, checksum, rest[..reclen], out0, written0, sent);
      sent' := sent + [RecordLine(address, rest[..reclen])];
      RecordsDumped(sent, address, rest, reclen);
      PendingAdvance(address, rest, reclen);
      FirstLines(total, sent', Records(Ahead(address, reclen), rest[reclen..]));
    }

    /** Between two turns of the loop: the buffer holds the first of the bytes still to be sent. */
    ghost predicate Between(count: nat, reclen: nat, checksum: nat, rest: seq<byte>)
      requires Valid()
      reads this, data
    {
      |rest| == reclen + count && Buffered(reclen, checksum, rest) && reclen < PER_RECORD
    }

    /** The end of a turn: a full buffer, or the last one, is dumped. */
    method DumpFull(start: word, count: nat, collected: nat, sum: nat, ghost pending: seq<byte>,
                    ghost total: seq<string>, ghost out0: string, ghost written0: nat, ghost before: seq<string>)
        returns (ok: bool, address: word, reclen: nat, checksum: nat, ghost rest: seq<byte>, ghost sent: seq<string>)
      requires Valid() && |pending| == collected + count && Buffered(collected, sum, pending)
      requires Owes(out0, written0, before, start, pending, total)
      modifies `out, `written, record
      ensures ok ==> Between(count, reclen, checksum, rest) && Owes(out0, written0, sent, address, rest, total)
      ensures ok && count == 0 ==> rest == []
      ensures !ok ==> Stopped(out0, written0, total + [END_LINE])
    {
      ok, address, reclen, checksum, rest, sent := true, start, collected, sum, pending, before;
      if reclen == PER_RECORD || count == 0 {
        if reclen > 0 {
          ok, sent := Flush(address, reclen, checksum, rest, total, out0, written0, sent);
          if !ok { return; }
        }
        address := Ahead(address, reclen);
        rest := rest[reclen..];
        checksum := 0;
        reclen := 0;
      }
    }

    /** The loop of `save_serial`. */
    method SaveRecords(a: word, size: word, ghost bytes: seq<byte>, ghost total: seq<string>,
                       ghost out0: string, ghost written0: nat, ghost first: seq<string>)
        returns (ok: bool, ghost sent: seq<string>)
      requires Valid() && |bytes| == size && Owes(out0, written0, first, a, bytes, total)
      modifies `out, `written, record, data
      ensures ok ==> sent == total && Sending(out0, written0, sent) && !(0 <= interrupt - written0 < |sent|)
      ensures !ok ==> Stopped(out0, written0, total + [END_LINE])
    {
      ok, sent := true, first;
      ghost var rest := bytes;
      var address, count: nat, reclen: nat, checksum: nat := a, size, 0, 0;
      var more := true;
      while more
        invariant Between(count, reclen, checksum, rest) && (!more ==> rest == []) && ok
        invariant Owes(out0, written0, sent, address, rest, total)
        decreases count, more
      {
        if count > 0 {
          checksum := Collect(address, reclen, checksum, rest);
          reclen := reclen + 1;
          count := count - 1;
        }
        ok, address, reclen, checksum, rest, sent :=
          DumpFull(address, count, reclen, checksum, rest, total, out0, written0, sent);
        if !ok { return; }
        more := count > 0;
      }
      assert Records(address, []) == [];
      assert sent + [] == sent;
    }

    /** `save_serial`: the lines of the range, in order, up to the first one that is interrupted. */
    method SaveSerial(a: word, size: word) returns (ok: bool)
      requires Valid()
      modifies `out, `written, record, data
      ensures ok ==> out == old(out) + Sent(Lines(a, Fetch(mem[..], a, size)))
                     && !(0 <= interrupt - old(written) < |Lines(a, Fetch(mem[..], a, size))|)
      ensures !ok ==> Stopped(old(out), old(written), Lines(a, Fetch(mem[..], a, size)))
    {
      ok := SaveAll(a, size, Fetch(mem[..], a, size), Lines(a, Fetch(mem[..], a, size)), out, written);
    }

    /** The header line, the records and the last line. */
    method SaveAll(a: word, size: word, ghost bytes: seq<byte>, ghost lines: seq<string>, ghost out0: string,
                   ghost written0: nat) returns (ok: bool)
      requires Valid() && |bytes| == size && Pending(a, bytes) && lines == Lines(a, bytes)
      requires out == out0 && written == written0
      modifies `out, `written, record, data
      ensures ok ==> out == out0 + Sent(lines) && !(0 <= interrupt - written0 < |lines|)
      ensures !ok ==> Stopped(out0, written0, lines)
    {
      ghost var total := [START_LINE] + Records(a, bytes);
      assert [] + [START_LINE] == [START_LINE] && lines == total + [END_LINE];
      FirstLines(total, [START_LINE], Records(a, bytes));
      FirstLines(total, total, []);
      ok := SendLine(START_LINE, out0, written0, []);
      if !ok { return; }
      ghost var sent;
      ok, sent := SaveRecords(a, size, bytes, total, out0, written0, [START_LINE]);
      if !ok { return; }
      ok := SendLine(END_LINE, out0, written0, sent);
    }
  }

  lemma FirstLines(total: seq<string>, sent: seq<string>, rest: seq<string>)
    requires total == sent + rest
    ensures |sent| <= |total| && (total + [END_LINE])[..|sent|] == sent
    ensures rest == [] ==> (total + [END_LINE])[..|sent| + 1] == sent + [END_LINE]
  {
  }

  lemma RecordsDumped(sent: seq<string>, address: word, rest: seq<byte>, n: nat)
    requires 0 < n == Run(|rest|)
    ensures (sent + [RecordLine(address, rest[..n])]) + Records(Ahead(address, n), rest[n..]) == sent + Records(address, rest)
  {
  }
}
