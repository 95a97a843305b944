/** Machine integers and small helpers shared by the models. */
module Common {
  /** An `unsigned char`. */
  type byte = x: int | 0 <= x < 256

  /** A 32-bit `unsigned long` of the target. */
  type word = x: int | 0 <= x < WORD_MOD

  const WORD_MOD := 0x1_0000_0000

  datatype Option<+T> = None | Some(value: T)

  function Min(a: int, b: int): int {
    if a < b then a else b
  }

  function Max(a: int, b: int): int {
    if a < b then b else a
  }

  /** A difference of two words. */
  type delta = x: int | -WORD_MOD < x < WORD_MOD

  /** Address arithmetic in 32 bits. */
  function Ahead(a: word, n: delta): word {
    if a + n < 0 then a + n + WORD_MOD else if a + n < WORD_MOD then a + n else a + n - WORD_MOD
  }

  lemma AheadIsModular(a: word, n: delta)
    ensures Ahead(a, n) == (a + n) % WORD_MOD
  {
    if a + n < 0 {
      assert a + n == -WORD_MOD + Ahead(a, n);
    }
  }

  /** The sum of bytes, for checks. */
  function Sum(bs: seq<byte>): nat {
    if bs == [] then 0 else Sum(bs[..|bs| - 1]) + bs[|bs| - 1]
  }

  lemma SumSnoc(bs: seq<byte>, b: byte)
    ensures Sum(bs + [b]) == Sum(bs) + b
  {
    assert (bs + [b])[..|bs|] == bs;
  }

  lemma {:induction false} SumCons(b: byte, bs: seq<byte>)
    ensures Sum([b] + bs) == b + Sum(bs)
  {
    if bs == [] {
      assert [b] + [] == [] + [b];
      SumSnoc([], b);
    } else {
      var n := |bs| - 1;
      assert [b] + bs == ([b] + bs[..n]) + [bs[n]];
      SumSnoc([b] + bs[..n], bs[n]);
      SumCons(b, bs[..n]);
    }
  }

  /** `data` copied over `s` at a position. */
  function Overlay<T>(s: seq<T>, at: nat, data: seq<T>): (r: seq<T>)
    requires at + |data| <= |s|
    ensures |r| == |s|
  {
    s[..at] + data + s[at + |data|..]
  }
}
