/** The overwriting ring buffer (circbuf.c). */
module CircBuf {
  import opened Common
  import opened Rings

  // ---- the buffer as a sequence

  function Pushed(contents: string, src: string, capacity: nat): string {
    LastOf(contents + src, capacity)
  }

  function Popped(contents: string, len: nat): string {
    contents[..Min(len, |contents|)]
  }

  datatype Op = Push(src: string) | Pop(len: nat)

  /** What is left after a run of operations. */
  function Left(contents: string, ops: seq<Op>, capacity: nat): string
    decreases ops
  {
    if ops == [] then contents
    else
      match ops[0]
      case Push(src) => Left(Pushed(contents, src, capacity), ops[1..], capacity)
      case Pop(len) => Left(contents[Min(len, |contents|)..], ops[1..], capacity)
  }

  /** What a run of operations pops. */
  function Output(contents: string, ops: seq<Op>, capacity: nat): string
    decreases ops
  {
    if ops == [] then ""
    else
      match ops[0]
      case Push(src) => Output(Pushed(contents, src, capacity), ops[1..], capacity)
      case Pop(len) => Popped(contents, len) + Output(contents[Min(len, |contents|)..], ops[1..], capacity)
  }

  /** What a run of operations pushes. */
  function Input(ops: seq<Op>): string {
    if ops == [] then "" else (match ops[0] case Push(src) => src case Pop(_) => "") + Input(ops[1..])
  }

  /** How many characters a run overwrites. */
  function Lost(contents: string, ops: seq<Op>, capacity: nat): nat
    decreases ops
  {
    if ops == [] then 0
    else
      match ops[0]
      case Push(src) =>
        Max(|contents| + |src| - capacity, 0) + Lost(Pushed(contents, src, capacity), ops[1..], capacity)
      case Pop(len) => Lost(contents[Min(len, |contents|)..], ops[1..], capacity)
  }

  /** Over any run, characters are popped, left or overwritten; when none is overwritten, what was pushed comes out in
      order, and when one is, it does not. */
  lemma {:induction false} RunConserves(contents: string, ops: seq<Op>, capacity: nat)
    requires |contents| <= capacity
    ensures |Left(contents, ops, capacity)| <= capacity
    ensures |Output(contents, ops, capacity)| + |Left(contents, ops, capacity)| + Lost(contents, ops, capacity)
         == |contents| + |Input(ops)|
    ensures Output(contents, ops, capacity) + Left(contents, ops, capacity) == contents + Input(ops)
            <==> Lost(contents, ops, capacity) == 0
    decreases ops
  {
    if ops != [] {
      match ops[0] {
        case Push(src) =>
          RunConserves(Pushed(contents, src, capacity), ops[1..], capacity);
          Associate(contents, src, Input(ops[1..]));
        case Pop(len) =>
          var n := Min(len, |contents|);
          RunConserves(contents[n..], ops[1..], capacity);
          PopConserves(contents, n, Output(contents[n..], ops[1..], capacity), Left(contents[n..], ops[1..], capacity),
                       Input(ops[1..]));
      }
    }
  }

  lemma PopConserves(contents: string, n: nat, output: string, left: string, input: string)
    requires n <= |contents|
    ensures output + left == contents[n..] + input <==> (contents[..n] + output) + left == contents + ("" + input)
  {
    assert contents == contents[..n] + contents[n..];
    assert (contents[..n] + output) + left == contents[..n] + (output + left);
    assert contents + ("" + input) == contents[..n] + (contents[n..] + input);
    if contents[..n] + (output + left) == contents[..n] + (contents[n..] + input) {
      assert (contents[..n] + (output + left))[n..] == output + left;
      assert (contents[..n] + (contents[n..] + input))[n..] == contents[n..] + input;
    }
  }

  lemma PushedStep(contents: string, src: string, i: nat, capacity: nat)
    requires i < |src|
    ensures Pushed(contents, src[..i + 1], capacity) == LastOf(Pushed(contents, src[..i], capacity) + [src[i]], capacity)
  {
    LastOfConcat(contents + src[..i], [src[i]], capacity);
    assert (contents + src[..i]) + [src[i]] == contents + src[..i + 1];
  }

  class Buffer {
    const data: array<char>
    const totalsize: nat
    var size: nat
    var top: nat                       // positions in `data`
    var tail: nat

    /** Everything but the tail. */
    ghost predicate Sound()
      reads this
    {
      0 < totalsize == data.Length && size <= totalsize && top < totalsize
    }

    ghost predicate Valid()
      reads this
    {
      Sound() && tail == Slot(top, size, totalsize)
    }

    ghost function Contents(): string
      requires Sound()
      reads this, data
    {
      Ring(data[..], top, size)
    }

    /** `buf_init`. */
    constructor (capacity: nat)
      requires capacity > 0
      ensures Valid() && fresh(data) && totalsize == capacity && Contents() == ""
    {
      data := new char[capacity];
      totalsize := capacity;
      size, top, tail := 0, 0, 0;
    }

    /** One turn of the push loop. */
    method Put(p: nat, c: char) returns (next: nat)
      requires Sound() && p == Slot(top, size, totalsize)
      modifies `size, `top, data
      ensures Sound() && next == Slot(top, size, totalsize)
      ensures Contents() == LastOf(old(Contents()) + [c], totalsize)
    {
      ghost var before := data[..];
      data[p] := c;
      RingPut(before, data[..], top, size, c, totalsize);
      next := p + 1;
      if next == totalsize { next := 0; }
      if size < totalsize {
        size := size + 1;
      } else {
        top := top + 1;
        if top == totalsize { top := 0; }
      }
    }

    /** `buf_push`: old contents and input, as much of their end as fits. */
    method Push(src: string) returns (len: nat)
      requires Valid()
      modifies this, data
      ensures Valid() && len == |src| && Contents() == Pushed(old(Contents()), src, totalsize)
    {
      var p, i := tail, 0;
      ghost var contents := Contents();
      assert contents + src[..0] == contents;
      while i < |src|
        invariant 0 <= i <= |src| && Sound() && p == Slot(top, size, totalsize)
        invariant Contents() == Pushed(contents, src[..i], totalsize)
      {
        PushedStep(contents, src, i, totalsize);
        p := Put(p, src[i]);
        i := i + 1;
      }
      assert src[..|src|] == src;
      tail := p;
      return |src|;
    }

    /** The copying loop of `buf_pop`. */
    method CopyOut(dest: array<char>, len: nat) returns (p: nat)
      requires Valid() && dest != data && len <= dest.Length && len <= size
      modifies dest
      ensures p == Slot(top, len, totalsize)
      ensures forall j :: 0 <= j < len ==> dest[j] == data[Slot(top, j, totalsize)]
      ensures forall j :: len <= j < dest.Length ==> dest[j] == old(dest[j])
    {
      p := top;
      var i := 0;
      while i < len
        invariant 0 <= i <= len && p == Slot(top, i, totalsize)
        invariant forall j :: 0 <= j < i ==> dest[j] == data[Slot(top, j, totalsize)]
        invariant forall j :: i <= j < dest.Length ==> dest[j] == old(dest[j])
      {
        dest[i] := data[p];
        p := p + 1;
        if p == totalsize { p := 0; }
        i := i + 1;
      }
    }

    /** `buf_pop`: the oldest characters, at most as many as there are. */
    method Pop(dest: array<char>, len0: nat) returns (len: nat)
      requires Valid() && dest != data && dest.Length >= len0
      modifies this, dest
      ensures Valid() && len == Min(len0, |old(Contents())|)
      ensures dest[..len] == Popped(old(Contents()), len0)
      ensures Contents() == old(Contents())[len..]
      ensures forall j :: len <= j < dest.Length ==> dest[j] == old(dest[j])
    {
      len := len0;
      if len > size { len := size; }
      RingDrop(data[..], top, size, len);
      var p := CopyOut(dest, len);
      top := p;
      size := size - len;
    }
  }
}
