/** Control quoting of the Kermit protocol (Kermit Protocol Manual, 6th edition, chapter 6)
    and the receiver's inverse of it in cmd_load.c. */
module KermitCoding {
  import opened Common

  /** `ktrans`: the character an escaped character stands for. The masks are written as arithmetic:
      `(c & 0x60) == 0x40` says `c % 128` is in 64..95, `(c & 0x7f) == 0x3f` that it is 63. */
  function Ktrans(c: byte): byte {
    if 64 <= c % 128 < 96 then c - 64
    else if c % 128 == 63 then c + 64
    else c
  }

  /** What the decoder has produced so far, and whether the last character was the quote. */
  datatype Decoded = Decoded(out: seq<byte>, esc: bool)

  const NOTHING := Decoded([], false)

  /** `k_data_char` on a byte sequence instead of memory. */
  function FeedByte(d: Decoded, quote: byte, c: byte): Decoded {
    if d.esc then Decoded(d.out + [Ktrans(c)], false)
    else if c == quote then Decoded(d.out, true)
    else Decoded(d.out + [c], false)
  }

  function Feed(d: Decoded, quote: byte, s: seq<byte>): Decoded {
    if s == [] then d else FeedByte(Feed(d, quote, s[..|s| - 1]), quote, s[|s| - 1])
  }

  function Toggle64(b: byte): byte {
    if b % 128 < 64 then b + 64 else b - 64
  }

  predicate IsControl(b: byte) {
    b % 128 < 32 || b % 128 == 127
  }

  function EncodeByte(quote: byte, b: byte): seq<byte> {
    if IsControl(b) then [quote, Toggle64(b)]
    else if b % 128 == quote % 128 then [quote, b]
    else [b]
  }

  /** The sender's control prefixing: control characters are toggled and prefixed, the prefix itself is prefixed. */
  function Encode(quote: byte, payload: seq<byte>): seq<byte> {
    if payload == [] then [] else EncodeByte(quote, payload[0]) + Encode(quote, payload[1..])
  }

  lemma {:induction false} FeedConcat(d: Decoded, quote: byte, a: seq<byte>, b: seq<byte>)
    ensures Feed(d, quote, a + b) == Feed(Feed(d, quote, a), quote, b)
  {
    if b == [] {
      assert a + b == a;
    } else {
      var last := |b| - 1;
      assert (a + b)[..|a + b| - 1] == a + b[..last];
      FeedConcat(d, quote, a, b[..last]);
    }
  }

  /** Decoding only ever appends: what is already delivered does not depend on what follows. */
  lemma {:induction false} FeedExtends(d: Decoded, quote: byte, s: seq<byte>)
    ensures d.out <= Feed(d, quote, s).out
    ensures |Feed(d, quote, s).out| <= |d.out| + |s|
  {
    if s != [] {
      FeedExtends(d, quote, s[..|s| - 1]);
    }
  }

  /** Output produced so far is only a prefix: decoding commutes with prepending to it. */
  lemma {:induction false} FeedPrepends(pre: seq<byte>, d: Decoded, quote: byte, s: seq<byte>)
    ensures Feed(Decoded(pre + d.out, d.esc), quote, s)
         == Decoded(pre + Feed(d, quote, s).out, Feed(d, quote, s).esc)
  {
    if s != [] {
      FeedPrepends(pre, d, quote, s[..|s| - 1]);
      var f := Feed(d, quote, s[..|s| - 1]);
      var c := s[|s| - 1];
      assert pre + (f.out + [Ktrans(c)]) == (pre + f.out) + [Ktrans(c)];
      assert pre + (f.out + [c]) == (pre + f.out) + [c];
    }
  }

  lemma FeedTwo(d: Decoded, quote: byte, a: byte, b: byte)
    ensures Feed(d, quote, [a, b]) == FeedByte(FeedByte(d, quote, a), quote, b)
    ensures Feed(d, quote, [a]) == FeedByte(d, quote, a)
  {
    assert [a, b][..1] == [a];
    assert [a][..0] == [];
    assert Feed(d, quote, [a]) == FeedByte(d, quote, a);
  }

  lemma KtransInverts(quote: byte, b: byte)
    ensures IsControl(b) ==> Ktrans(Toggle64(b)) == b
    ensures Ktrans(quote) == quote && b % 128 == quote % 128 ==> Ktrans(b) == b
  {
    assert IsControl(b) && b % 128 < 32 ==> Toggle64(b) % 128 == b % 128 + 64;
  }

  lemma EncodeByteDecodes(d: Decoded, quote: byte, b: byte)
    requires !d.esc && Ktrans(quote) == quote
    ensures Feed(d, quote, EncodeByte(quote, b)) == Decoded(d.out + [b], false)
  {
    KtransInverts(quote, b);
    if IsControl(b) {
      FeedTwo(d, quote, quote, Toggle64(b));
    } else if b % 128 == quote % 128 {
      FeedTwo(d, quote, quote, b);
    } else {
      FeedTwo(d, quote, b, b);
    }
  }

  /** Decoding undoes encoding, wherever in the stream it happens. */
  lemma {:induction false} EncodeRoundTrip(d: Decoded, quote: byte, payload: seq<byte>)
    requires !d.esc && Ktrans(quote) == quote
    ensures Feed(d, quote, Encode(quote, payload)) == Decoded(d.out + payload, false)
    decreases payload
  {
    if payload == [] {
      assert d.out + payload == d.out;
    } else {
      var head := EncodeByte(quote, payload[0]);
      var tail := Encode(quote, payload[1..]);
      FeedConcat(d, quote, head, tail);
      EncodeByteDecodes(d, quote, payload[0]);
      EncodeRoundTrip(Decoded(d.out + [payload[0]], false), quote, payload[1..]);
      assert (d.out + [payload[0]]) + payload[1..] == d.out + payload;
    }
  }

  /** The one-byte payload that an unstable quote character cannot carry: itself. */
  lemma UnstableQuoteFails(quote: byte)
    requires Ktrans(quote) != quote
    ensures Feed(NOTHING, quote, Encode(quote, [quote])) == Decoded([Ktrans(quote)], false)
  {
    var p := [quote];
    assert p[1..] == [];
    assert !IsControl(quote);
    assert Encode(quote, p) == [quote, quote];
    FeedTwo(NOTHING, quote, quote, quote);
  }

  /** A quote character is usable for every payload exactly when `ktrans` leaves it alone, which is what
      the manual's ranges 33..62 and 96..126 guarantee. */
  lemma {:induction false} QuoteUsableIff(quote: byte)
    ensures (forall p: seq<byte> :: Feed(NOTHING, quote, Encode(quote, p)) == Decoded(p, false))
       <==> !(64 <= quote % 128 < 96 || quote % 128 == 63)
  {
    if Ktrans(quote) == quote {
      forall p: seq<byte>
        ensures Feed(NOTHING, quote, Encode(quote, p)) == Decoded(p, false)
      {
        EncodeRoundTrip(NOTHING, quote, p);
        assert [] + p == p;
      }
    } else {
      UnstableQuoteFails(quote);
    }
  }

  /** Every encoded character is printable when the quote is, so `k_recv` never rejects it. */
  lemma {:induction false} EncodePrintable(quote: byte, payload: seq<byte>)
    requires quote >= 32
    ensures forall c :: c in Encode(quote, payload) ==> c >= 32
  {
    if payload != [] {
      EncodePrintable(quote, payload[1..]);
    }
  }
}
