/** Characters kept in a ring of fixed length: the end of what was stored. */
module Rings {
  /** The last `n` characters. */
  function LastOf(s: string, n: nat): string {
    if |s| <= n then s else s[|s| - n..]
  }

  lemma LastOfConcat(a: string, b: string, n: nat)
    ensures LastOf(LastOf(a, n) + b, n) == LastOf(a + b, n)
  {
  }

  lemma LastOfFull(s: string, c: char, n: nat)
    requires |s| == n > 0
    ensures LastOf(s + [c], n) == s[1..] + [c]
  {
  }

  lemma Associate(a: string, b: string, c: string)
    ensures (a + b) + c == a + (b + c)
  {
  }

  /** The position `k` places behind `top`. */
  function Slot(top: nat, k: nat, capacity: nat): (i: nat)
    requires top < capacity && k <= capacity
    ensures i < capacity
  {
    if top + k < capacity then top + k else top + k - capacity
  }

  function Ring(data: seq<char>, top: nat, size: nat): (s: string)
    requires top < |data| && size <= |data|
    ensures |s| == size && forall k :: 0 <= k < size ==> s[k] == data[Slot(top, k, |data|)]
  {
    if size == 0 then "" else Ring(data, top, size - 1) + [data[Slot(top, size - 1, |data|)]]
  }

  lemma RingGrows(data: seq<char>, data': seq<char>, top: nat, size: nat, c: char)
    requires top < |data| && size < |data| && data' == data[Slot(top, size, |data|) := c]
    ensures Ring(data', top, size + 1) == Ring(data, top, size) + [c]
  {
  }

  lemma RingTurns(data: seq<char>, data': seq<char>, top: nat, c: char)
    requires top < |data| && data' == data[top := c]
    ensures Ring(data', Slot(top, 1, |data|), |data|) == Ring(data, top, |data|)[1..] + [c]
  {
    var n := |data|;
    forall k | 0 <= k < n
      ensures Ring(data', Slot(top, 1, n), n)[k] == (Ring(data, top, n)[1..] + [c])[k]
    {
      assert Slot(Slot(top, 1, n), k, n) == Slot(top, k + 1, n);
    }
  }

  /** A character stored at the tail. */
  lemma RingPut(data: seq<char>, data': seq<char>, top: nat, size: nat, c: char, capacity: nat)
    requires top < |data| == capacity && size <= capacity && data' == data[Slot(top, size, capacity) := c]
    ensures size < capacity ==> LastOf(Ring(data, top, size) + [c], capacity) == Ring(data', top, size + 1)
    ensures size == capacity ==> LastOf(Ring(data, top, size) + [c], capacity) == Ring(data', Slot(top, 1, capacity), size)
  {
    if size < capacity {
      RingGrows(data, data', top, size, c);
    } else {
      RingTurns(data, data', top, c);
      LastOfFull(Ring(data, top, size), c, capacity);
    }
  }

  lemma RingDrop(data: seq<char>, top: nat, size: nat, n: nat)
    requires top < |data| && n <= size <= |data|
    ensures Ring(data, top, size)[n..] == Ring(data, Slot(top, n, |data|), size - n)
  {
    assert forall k :: 0 <= k < size - n ==> Slot(Slot(top, n, |data|), k, |data|) == Slot(top, n + k, |data|);
  }
}
