/** The environment of cmd_nvedit.c as bytes: NUL-separated strings in one fixed array, edited in place. */
module EnvBytes {
  import opened Common

  const NUL := '\0'

  /** Strings the environment can hold: not empty, no NUL. */
  predicate Storable(es: seq<string>) {
    forall i :: 0 <= i < |es| ==> es[i] != "" && NoNul(es[i])
  }

  predicate NoNul(s: string) {
    forall i :: 0 <= i < |s| ==> s[i] != NUL
  }

  function Flat(es: seq<string>): string {
    if es == [] then "" else es[0] + [NUL] + Flat(es[1..])
  }

  /** The bytes of a list up to the NUL that ends the last string. */
  function Body(es: seq<string>): string {
    if es == [] then [NUL] else Flat(es)
  }

  /** The bytes of a list: every string closed by a NUL and the list by another; two NULs when it is empty. */
  function Image(es: seq<string>): string {
    Body(es) + [NUL]
  }

  ghost predicate Encodes(data: seq<char>, es: seq<string>) {
    Storable(es) && Image(es) <= data
  }

  function Drop(es: seq<string>, j: nat): seq<string>
    requires j < |es|
  {
    es[..j] + es[j + 1..]
  }

  lemma {:induction false} FlatConcat(a: seq<string>, b: seq<string>)
    ensures Flat(a + b) == Flat(a) + Flat(b)
  {
    if a == [] {
      assert a + b == b;
    } else {
      assert (a + b)[1..] == a[1..] + b;
      FlatConcat(a[1..], b);
    }
  }

  lemma FlatSplit(es: seq<string>, j: nat)
    requires j < |es|
    ensures Flat(es) == Flat(es[..j]) + (es[j] + [NUL] + Flat(es[j + 1..]))
    ensures Flat(Drop(es, j)) == Flat(es[..j]) + Flat(es[j + 1..])
  {
    assert es == es[..j] + es[j..];
    FlatConcat(es[..j], es[j..]);
    assert es[j..][1..] == es[j + 1..];
    FlatConcat(es[..j], es[j + 1..]);
  }

  /** Inside a list no two NULs meet; it starts with a character and ends with a NUL. */
  lemma {:induction false} FlatShape(es: seq<string>)
    requires Storable(es) && es != []
    ensures |Flat(es)| >= 2 && Flat(es)[0] != NUL && Flat(es)[|Flat(es)| - 1] == NUL
    ensures forall t :: 0 <= t < |Flat(es)| - 1 ==> Flat(es)[t] != NUL || Flat(es)[t + 1] != NUL
  {
    var e, f := es[0], Flat(es);
    assert forall t :: 0 <= t < |e| ==> f[t] == e[t];
    if |es| > 1 {
      FlatShape(es[1..]);
      assert f == e + [NUL] + Flat(es[1..]);
      forall t | 0 <= t < |f| - 1
        ensures f[t] != NUL || f[t + 1] != NUL
      {
        if t > |e| {
          assert f[t] == Flat(es[1..])[t - |e| - 1] && f[t + 1] == Flat(es[1..])[t - |e|];
        }
      }
    }
  }

  /** Where the entries are: the `j`-th starts behind those before it and is closed by a NUL, behind which comes the
      next one, or the second NUL of the end. */
  lemma EntryAt(data: seq<char>, es: seq<string>, j: nat)
    requires Encodes(data, es) && j < |es|
    ensures var p, rest := |Flat(es[..j])|, Flat(es[j + 1..]);
            && p + |es[j]| + 1 + |rest| == |Flat(es)| < |data|
            && data[..p] == Flat(es[..j]) && data[p..p + |es[j]|] == es[j] && data[p + |es[j]|] == NUL
            && data[p + |es[j]| + 1..|Flat(es)|] == rest && data[|Flat(es)|] == NUL
  {
    FlatSplit(es, j);
    Sections(data, Flat(es[..j]), es[j], Flat(es[j + 1..]));
  }

  /** From `from` on there are the bytes of `rest` and a NUL. */
  ghost predicate Reads(data: seq<char>, from: nat, rest: string) {
    from + |rest| < |data| && forall i :: from <= i <= from + |rest| ==> data[i] == if i < from + |rest| then rest[i - from] else NUL
  }

  lemma DeleteFacts(data: seq<char>, es: seq<string>, j: nat)
    requires Encodes(data, es) && j < |es|
    ensures var start := |Flat(es[..j])|; var behind := start + |es[j]| + 1;
            && behind < |data| && (data[behind] == NUL <==> j == |es| - 1)
            && data[..start] == Flat(es[..j]) && Storable(Drop(es, j))
  {
    BehindEntry(data, es, j);
    EntryAt(data, es, j);
  }

  lemma TailAt(data: seq<char>, es: seq<string>, j: nat)
    requires Encodes(data, es) && j < |es|
    ensures var from, rest := |Flat(es[..j])| + |es[j]| + 1, Flat(es[j + 1..]);
            Reads(data, from, rest) && |Flat(es[..j])| <= |data| && data[..|Flat(es[..j])|] == Flat(es[..j])
  {
    EntryAt(data, es, j);
    var from, rest := |Flat(es[..j])| + |es[j]| + 1, Flat(es[j + 1..]);
    forall i | from <= i < from + |rest|
      ensures data[i] == rest[i - from]
    {
      assert data[from..|Flat(es)|][i - from] == rest[i - from];
    }
  }

  lemma GapShape(es: seq<string>, j: nat)
    requires Storable(es) && j < |es| - 1
    ensures Body(Drop(es, j)) == Flat(es[..j]) + Flat(es[j + 1..])
    ensures var rest := Flat(es[j + 1..]);
            && |rest| >= 2 && rest[|rest| - 1] == NUL
            && forall t :: 0 <= t < |rest| - 1 ==> rest[t] != NUL || rest[t + 1] != NUL
  {
    FlatSplit(es, j);
    FlatShape(es[j + 1..]);
  }

  lemma EntryReads(data: seq<char>, es: seq<string>, j: nat)
    requires Encodes(data, es) && j < |es|
    ensures Reads(data, |Flat(es[..j])|, es[j])
    ensures |Flat(es[..j + 1])| == |Flat(es[..j])| + |es[j]| + 1 <= |Flat(es)|
  {
    EntryAt(data, es, j);
    SliceReads(data, |Flat(es[..j])|, es[j]);
    FlatNext(es, j);
  }

  lemma Longer(pre: string, done: string, sep: char, arg: string)
    ensures (pre + done) + [sep] + arg == pre + (done + [sep] + arg)
  {
  }

  lemma SliceReads(data: seq<char>, p: nat, e: string)
    requires p + |e| < |data| && data[p..p + |e|] == e && data[p + |e|] == NUL
    ensures Reads(data, p, e)
  {
    assert forall i :: p <= i < p + |e| ==> data[i] == data[p..p + |e|][i - p];
  }

  lemma FlatNext(es: seq<string>, j: nat)
    requires j < |es|
    ensures |Flat(es[..j + 1])| == |Flat(es[..j])| + |es[j]| + 1
  {
    assert es[..j + 1] == es[..j] + [es[j]] && [es[j]][1..] == [];
    FlatConcat(es[..j], [es[j]]);
    assert Flat([es[j]]) == es[j] + [NUL] + "";
  }

  /** The byte behind a string's NUL tells whether it is the last. */
  lemma BehindEntry(data: seq<char>, es: seq<string>, j: nat)
    requires Encodes(data, es) && j < |es|
    ensures var p := |Flat(es[..j])| + |es[j]| + 1; p < |data| && (data[p] == NUL <==> j == |es| - 1)
  {
    EntryAt(data, es, j);
    if j < |es| - 1 {
      FlatShape(es[j + 1..]);
      assert data[|Flat(es[..j])| + |es[j]| + 1..|Flat(es)|][0] == Flat(es[j + 1..])[0];
    }
  }

  lemma Sections(data: seq<char>, pre: string, e: string, rest: string)
    requires pre + (e + [NUL] + rest) + [NUL] <= data
    ensures var p, n := |pre|, |pre| + |e| + 1 + |rest|;
            && n < |data| && data[..p] == pre && data[p..p + |e|] == e && data[p + |e|] == NUL
            && data[p + |e| + 1..n] == rest && data[n] == NUL
  {
    var all := pre + (e + [NUL] + rest) + [NUL];
    assert data[..|all|] == all;
    assert all[..|pre|] == pre && all[|pre|..|pre| + |e|] == e && all[|pre| + |e| + 1..|all| - 1] == rest;
  }

  // ---- the text of a definition

  /** A name with the arguments given so far: `=` before the first, a blank before each other. */
  function Partial(name: string, args: seq<string>): string {
    if args == [] then name
    else Partial(name, args[..|args| - 1]) + [if |args| == 1 then '=' else ' '] + args[|args| - 1]
  }

  function Text(name: string, args: seq<string>): string
    requires args != []
  {
    Partial(name, args)
  }

  /** What `_do_setenv` reckons for it, with both NULs. */
  function Needed(name: string, args: seq<string>): nat {
    if args == [] then |name| + 2 else Needed(name, args[..|args| - 1]) + |args[|args| - 1]| + 1
  }

  lemma {:induction false} NeededExact(name: string, args: seq<string>)
    ensures Needed(name, args) == |Partial(name, args)| + 2
  {
    if args != [] {
      NeededExact(name, args[..|args| - 1]);
    }
  }

  /** The length test is exact: what it admits is what fits with both NULs. */
  lemma AppendLength(es: seq<string>, name: string, args: seq<string>)
    requires args != []
    ensures |Flat(es)| + Needed(name, args) == |Image(es + [Text(name, args)])|
  {
    NeededExact(name, args);
    FlatConcat(es, [Text(name, args)]);
    assert [Text(name, args)][1..] == [];
  }

  lemma AppendedImage(es: seq<string>, name: string, args: seq<string>)
    requires Storable(es) && args != [] && NoNul(name) && forall i :: 0 <= i < |args| ==> NoNul(args[i])
    ensures Storable(es + [Text(name, args)])
    ensures Image(es + [Text(name, args)]) == Flat(es) + (Text(name, args) + [NUL]) + [NUL]
  {
    PartialNoNul(name, args);
    FlatConcat(es, [Text(name, args)]);
    assert [Text(name, args)][1..] == [];
  }

  lemma {:induction false} PartialPrefix(name: string, args: seq<string>, k: nat)
    requires k <= |args|
    ensures |Partial(name, args[..k])| <= |Partial(name, args)|
  {
    if k == |args| {
      assert args[..k] == args;
    } else {
      assert args[..|args| - 1][..k] == args[..k];
      PartialPrefix(name, args[..|args| - 1], k);
    }
  }

  lemma PartialStart(name: string, args: seq<string>)
    ensures Partial(name, args[..0]) == name && |name| + 2 <= Needed(name, args)
  {
    assert args[..0] == [];
    NeededExact(name, args);
    PartialPrefix(name, args, 0);
  }

  lemma PartialStep(name: string, args: seq<string>, i: nat)
    requires i < |args|
    ensures Partial(name, args[..i + 1]) == Partial(name, args[..i]) + [if i == 0 then '=' else ' '] + args[i]
    ensures |Partial(name, args[..i + 1])| + 2 <= Needed(name, args)
  {
    assert args[..i + 1][..i] == args[..i];
    NeededExact(name, args);
    PartialPrefix(name, args, i + 1);
  }

  lemma {:induction false} PartialNoNul(name: string, args: seq<string>)
    requires NoNul(name) && forall i :: 0 <= i < |args| ==> NoNul(args[i])
    ensures NoNul(Partial(name, args)) && (args != [] ==> Partial(name, args) != "")
  {
    if args != [] {
      PartialNoNul(name, args[..|args| - 1]);
    }
  }

  class Buffer {
    const data: array<char>

    constructor (size: nat)
      requires size >= 2
      ensures fresh(data) && data.Length == size && Encodes(data[..], [])
    {
      data := new char[size](_ => NUL);
    }

    /** The NUL that closes the string at `p`. */
    method EndOf(p: nat, ghost es: seq<string>, ghost j: nat) returns (nxt: nat)
      requires Encodes(data[..], es) && j < |es| && p == |Flat(es[..j])|
      ensures nxt == p + |es[j]|
    {
      EntryReads(data[..], es, j);
      nxt := p;
      while data[nxt] != NUL
        invariant p <= nxt <= p + |es[j]|
        decreases p + |es[j]| - nxt
      {
        nxt := nxt + 1;
      }
    }

    /** Deletes the string at `start` whose NUL is at `end`: everything behind moves forward. */
    method Delete(start: nat, end: nat, ghost es: seq<string>, ghost j: nat)
      requires Encodes(data[..], es) && j < |es| && start == |Flat(es[..j])| && end == start + |es[j]|
      modifies data
      ensures Encodes(data[..], Drop(es, j))
    {
      var env;
      DeleteFacts(data[..], es, j);
      if data[end + 1] == NUL {
        env := CutLast(start, es, j);
      } else {
        env := CloseGap(start, end, es, j);
      }
      CloseList(env + 1, Drop(es, j));
    }

    /** The second NUL. */
    method CloseList(env: nat, ghost es: seq<string>)
      requires env < data.Length && data[..env] == Body(es)
      modifies data
      ensures Image(es) <= data[..]
    {
      data[env] := NUL;
      assert data[..env + 1] == Image(es);
    }

    /** Deleting a string that has others behind it. */
    method CloseGap(start: nat, end: nat, ghost es: seq<string>, ghost j: nat) returns (env: nat)
      requires Encodes(data[..], es) && j < |es| - 1 && start == |Flat(es[..j])| && end == start + |es[j]|
      modifies data
      ensures env + 1 < data.Length && data[..env + 1] == Body(Drop(es, j))
    {
      ghost var pre, rest := Flat(es[..j]), Flat(es[j + 1..]);
      TailAt(data[..], es, j);
      GapShape(es, j);
      env := Compact(start, end + 1, data[..], pre, rest);
    }

    /** Deleting the last string: its place becomes the end, one NUL behind the string before. */
    method CutLast(start: nat, ghost es: seq<string>, ghost j: nat) returns (env: nat)
      requires Storable(es) && j < |es| && start == |Flat(es[..j])| && start + 1 < data.Length
      requires data[..start] == Flat(es[..j]) && j == |es| - 1
      modifies data
      ensures env + 1 < data.Length && data[..env + 1] == Body(Drop(es, j))
    {
      assert Drop(es, j) == es[..j];
      if j > 0 {
        FlatShape(es[..j]);
      }
      env := start;
      if env > 0 {
        env := env - 1;
      } else {
        data[env] := NUL;
      }
    }

    /** The copy loop: moves `rest` from `nxt` down to `start` and stops on its last NUL. */
    method Compact(start: nat, from: nat, ghost all: seq<char>, ghost pre: string, ghost rest: string) returns (env: nat)
      requires start < from && all == data[..] && Reads(all, from, rest)
      requires |rest| >= 2 && rest[|rest| - 1] == NUL
      requires forall t :: 0 <= t < |rest| - 1 ==> rest[t] != NUL || rest[t + 1] != NUL
      requires |pre| == start && all[..start] == pre
      modifies data
      ensures env == start + |rest| - 1 && data[..env + 1] == pre + rest
    {
      var nxt := from;
      env := start;
      ghost var k := 0;
      while true
        invariant 0 <= k < |rest| && env == start + k && nxt == from + k
        invariant data[..env] == pre + rest[..k]
        invariant forall i :: from + k <= i <= from + |rest| ==> data[i] == if i < from + |rest| then rest[i - from] else NUL
        decreases |rest| - k
      {
        data[env] := data[nxt];
        assert data[..env + 1] == pre + rest[..k] + [rest[k]];
        assert rest[..k + 1] == rest[..k] + [rest[k]];
        nxt := nxt + 1;
        if data[env] == NUL && data[nxt] == NUL {
          assert k == |rest| - 1;
          assert rest[..|rest|] == rest;
          break;
        }
        env := env + 1;
        k := k + 1;
      }
    }

    /** The first place where two NULs meet, and from there the place for a new string. */
    method EndOfList(ghost es: seq<string>) returns (env: nat)
      requires Encodes(data[..], es)
      ensures env == |Flat(es)| && data[..env] == Flat(es)
    {
      ghost var image := Image(es);
      assert data[..|image|] == image;
      if es != [] {
        FlatShape(es);
      }
      env := 0;
      while data[env] != NUL || data[env + 1] != NUL
        invariant 0 <= env <= |image| - 2
        decreases |image| - env
      {
        assert image[|image| - 2] == image[|image| - 1] == NUL;
        assert data[|image| - 2] == image[|image| - 2] && data[|image| - 1] == image[|image| - 1];
        env := env + 1;
      }
      assert data[env] == image[env] && data[env + 1] == image[env + 1];
      assert env == |image| - 2;
      if env > 0 {
        env := env + 1;
      }
    }

    /** Copies a string and its NUL to `env`; `next` is where the NUL is. */
    method PutString(env: nat, s: string) returns (next: nat)
      requires env + |s| < data.Length && NoNul(s)
      modifies data
      ensures next == env + |s| && data[next] == NUL && data[..next] == old(data[..env]) + s
    {
      ghost var before := data[..env];
      var i := 0;
      while i < |s|
        invariant 0 <= i <= |s| && data[..env + i] == before + s[..i]
      {
        data[env + i] := s[i];
        assert data[..env + i + 1] == data[..env + i] + [s[i]];
        i := i + 1;
      }
      next := env + i;
      assert s[..i] == s;
      ghost var done := data[..next];
      data[next] := NUL;
      assert data[..next] == done;
    }

    /** Appends `name=args...` when it fits, and otherwise leaves the list as it is. */
    method Append(name: string, args: seq<string>, ghost es: seq<string>) returns (ok: bool)
      requires Encodes(data[..], es) && NoNul(name) && args != [] && forall i :: 0 <= i < |args| ==> NoNul(args[i])
      modifies data
      ensures ok <==> |Image(es + [Text(name, args)])| <= data.Length
      ensures Encodes(data[..], if ok then es + [Text(name, args)] else es)
    {
      var env := EndOfList(es);
      AppendLength(es, name, args);
      if Needed(name, args) > data.Length - env {
        return false;
      }
      var pos := PutArgs(env, name, args);
      pos := pos + 1;
      ghost var done := data[..pos];
      data[pos] := NUL;
      assert data[..pos + 1] == done + [NUL];
      AppendedImage(es, name, args);
      ok := true;
    }

    /** A separator and an argument behind what is there. */
    method PutArg(pos: nat, sep: char, arg: string) returns (next: nat)
      requires pos + 1 + |arg| < data.Length && NoNul(arg)
      modifies data
      ensures next == pos + 1 + |arg| && data[next] == NUL && data[..next] == old(data[..pos]) + [sep] + arg
    {
      ghost var before := data[..pos];
      data[pos] := sep;
      assert data[..pos + 1] == before + [sep];
      next := PutString(pos + 1, arg);
    }

    /** Writes `name`, then `=` and the first argument, then a blank and each other one. */
    method PutArgs(env: nat, name: string, args: seq<string>) returns (pos: nat)
      requires NoNul(name) && args != [] && forall i :: 0 <= i < |args| ==> NoNul(args[i])
      requires env + Needed(name, args) <= data.Length
      modifies data
      ensures pos == env + |Text(name, args)| && pos + 1 < data.Length
      ensures data[..pos + 1] == old(data[..env]) + (Text(name, args) + [NUL])
    {
      ghost var pre, done := data[..env], name;
      PartialStart(name, args);
      pos := PutString(env, name);
      var i := 0;
      while i < |args|
        invariant 0 <= i <= |args| && done == Partial(name, args[..i])
        invariant pos == env + |done| && pos + 1 < data.Length && data[pos] == NUL && data[..pos] == pre + done
      {
        PartialStep(name, args, i);
        var sep := if i == 0 then '=' else ' ';
        pos := PutArg(pos, sep, args[i]);
        Longer(pre, done, sep, args[i]);
        done := done + [sep] + args[i];
        i := i + 1;
      }
      assert args[..|args|] == args;
      assert data[..pos + 1] == data[..pos] + [NUL];
    }
  }
}
