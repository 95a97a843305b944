/** What the lists of the partition table hold after each edit, and after a run of them. */
module MtdEdits {
  import opened Common
  import opened MtdParts
  import opened MtdGrammar
  import opened MtdTable

  /** The devices with their partitions, in order. */
  function Lists(devs: seq<Dev>): seq<(MtdId, seq<Part>)> {
    seq(|devs|, i requires 0 <= i < |devs| => (devs[i].id, devs[i].parts))
  }

  // ---- adding a partition

  /** Whether a partition can be added: it is accepted for the device, and is not a second one at offset 0. */
  predicate Addable(id: MtdId, parts: seq<Part>, part: Part) {
    && MtdGrammar.Allowed(id, part)
    && !(part.offset == 0 && exists p :: p in parts && p.offset == 0)
  }

  lemma InsertClash(parts: seq<Part>, part: Part)
    requires Sorted(parts)
    ensures SortAdd(parts, part) == None <==> part.offset == 0 && exists p :: p in parts && p.offset == 0
  {
    var k := InsertAt(parts, part);
    if k < |parts| && parts[k].offset == part.offset == 0 {
      assert parts[k] in parts;
    }
    if part.offset == 0 && exists p :: p in parts && p.offset == 0 {
      var p :| p in parts && p.offset == 0;
      var i :| 0 <= i < |parts| && parts[i] == p;
      assert parts[0].offset <= parts[i].offset;
    }
  }

  /** The list with a partition put in: behind all at lower offsets and in front of all others, whose order is kept. */
  ghost predicate PutIn(before: seq<Part>, part: Part, after: seq<Part>) {
    exists j: nat :: PutInAt(before, part, after, j)
  }

  predicate PutInAt(before: seq<Part>, part: Part, after: seq<Part>, j: nat) {
    && j <= |before| && after == before[..j] + [part] + before[j..]
    && (forall i :: 0 <= i < j ==> before[i].offset < part.offset)
    && (forall i :: j <= i < |before| ==> part.offset <= before[i].offset)
  }

  lemma SortAddPutsIn(parts: seq<Part>, part: Part)
    requires Sorted(parts)
    ensures PutIn(parts, part, With(parts, InsertAt(parts, part), part))
    ensures multiset(With(parts, InsertAt(parts, part), part)) == multiset(parts) + multiset{part}
  {
    var k := InsertAt(parts, part);
    WithMultiset(parts, k, part);
    assert forall i :: k <= i < |parts| ==> parts[k].offset <= parts[i].offset;
    assert PutInAt(parts, part, With(parts, k, part), k);
  }

  /** What the partition becomes when it is added. */
  function Resolved(id: MtdId, part: Part): Part
    requires MtdGrammar.Allowed(id, part)
  {
    if part.size == 0xFFFF_FFFF then part.(size := id.size - part.offset) else part
  }

  lemma ResolvedIs(id: MtdId, part: Part)
    requires MtdGrammar.Allowed(id, part)
    ensures PartValidate(id, part) == Some(Resolved(id, part)) && Resolved(id, part).offset == part.offset
  {
    ValidateIff(id, part);
  }

  /** Adding succeeds exactly for a partition that is accepted; then only the one list has changed, by that partition put
      in at its place. A failure changes nothing. */
  lemma {:induction false} PartAddHolds(t: Table, d: nat, part: Part)
    requires d < |t.devs| && Sorted(t.devs[d].parts)
    ensures PartAdd(t, d, part).1 <==> Addable(t.devs[d].id, t.devs[d].parts, part)
    ensures !PartAdd(t, d, part).1 ==> PartAdd(t, d, part).0 == t
    ensures PartAdd(t, d, part).1
            ==> Changed(t.devs, d, PartAdd(t, d, part).0.devs)
                && PutIn(t.devs[d].parts, Resolved(t.devs[d].id, part), PartAdd(t, d, part).0.devs[d].parts)
                && multiset(PartAdd(t, d, part).0.devs[d].parts)
                   == multiset(t.devs[d].parts) + multiset{Resolved(t.devs[d].id, part)}
  {
    var dev := t.devs[d];
    ValidateIff(dev.id, part);
    if MtdGrammar.Allowed(dev.id, part) {
      ResolvedIs(dev.id, part);
      SortedAddHolds(t, d, Resolved(dev.id, part));
      InsertClash(dev.parts, Resolved(dev.id, part));
    }
  }

  lemma SortedAddHolds(t: Table, d: nat, p: Part)
    requires d < |t.devs| && Sorted(t.devs[d].parts)
    ensures PartSortAdd(t, d, p).1 <==> SortAdd(t.devs[d].parts, p).Some?
    ensures !PartSortAdd(t, d, p).1 ==> PartSortAdd(t, d, p).0 == t
    ensures PartSortAdd(t, d, p).1
            ==> Changed(t.devs, d, PartSortAdd(t, d, p).0.devs)
                && PutIn(t.devs[d].parts, p, PartSortAdd(t, d, p).0.devs[d].parts)
                && multiset(PartSortAdd(t, d, p).0.devs[d].parts) == multiset(t.devs[d].parts) + multiset{p}
  {
    SortAddPutsIn(t.devs[d].parts, p);
  }

  /** Only the partitions of the d-th device have changed. */
  predicate Changed(before: seq<Dev>, d: nat, after: seq<Dev>) {
    && d < |before| == |after| && after[d].id == before[d].id
    && forall i :: 0 <= i < |before| && i != d ==> after[i] == before[i]
  }

  // ---- deleting a partition

  /** Deleting one of several takes exactly that one out of its list and changes nothing else; deleting the only one
      takes its device out, and the others keep their order. */
  lemma {:induction false} PartDelHolds(t: Table, d: nat, k: nat)
    requires d < |t.devs| && k < |t.devs[d].parts| && t.devs[d].numParts == |t.devs[d].parts|
    ensures |t.devs[d].parts| > 1
            ==> Changed(t.devs, d, PartDel(t, d, k).devs)
                && PartDel(t, d, k).devs[d].parts == t.devs[d].parts[..k] + t.devs[d].parts[k + 1..]
    ensures |t.devs[d].parts| == 1 ==> PartDel(t, d, k).devs == t.devs[..d] + t.devs[d + 1..]
  {
  }

  lemma DeviceAddHolds(t: Table, dev: Dev)
    ensures DeviceAdd(t, dev).devs == t.devs + [dev]
  {
  }

  lemma DeviceDelHolds(t: Table, d: nat)
    requires d < |t.devs|
    ensures DeviceDel(t, d).devs == t.devs[..d] + t.devs[d + 1..]
  {
  }

  // ---- one edit, on the lists

  type Listed = seq<(MtdId, seq<Part>)>

  /** Which lists an edit leaves: said of the lists alone. */
  ghost predicate Edited(before: Listed, op: Op, after: Listed) {
    match op
    case AddPart(d, part) =>
      if d < |before| && Addable(before[d].0, before[d].1, part) then
        exists parts :: PutIn(before[d].1, Resolved(before[d].0, part), parts) && after == before[d := (before[d].0, parts)]
      else after == before
    case DelPart(d, k) =>
      if d < |before| && k < |before[d].1| then
        after == if |before[d].1| == 1 then before[..d] + before[d + 1..]
                 else before[d := (before[d].0, before[d].1[..k] + before[d].1[k + 1..])]
      else after == before
    case AddDevice(dev) => after == before + [(dev.id, dev.parts)]
  }

  lemma ListsChanged(before: seq<Dev>, d: nat, after: seq<Dev>)
    requires Changed(before, d, after)
    ensures Lists(after) == Lists(before)[d := (before[d].id, after[d].parts)]
  {
  }

  lemma ListsWithout(devs: seq<Dev>, d: nat)
    requires d < |devs|
    ensures Lists(devs[..d] + devs[d + 1..]) == Lists(devs)[..d] + Lists(devs)[d + 1..]
  {
  }

  lemma AddEdits(t: Table, d: nat, part: Part)
    requires ValidTable(t)
    ensures Edited(Lists(t.devs), AddPart(d, part), Lists(Step(t, AddPart(d, part)).devs))
  {
    if d < |t.devs| {
      PartAddHolds(t, d, part);
      if PartAdd(t, d, part).1 {
        ListsChanged(t.devs, d, PartAdd(t, d, part).0.devs);
      }
    }
  }

  lemma DelEdits(t: Table, d: nat, k: nat)
    requires ValidTable(t)
    ensures Edited(Lists(t.devs), DelPart(d, k), Lists(Step(t, DelPart(d, k)).devs))
  {
    if d < |t.devs| && k < |t.devs[d].parts| {
      PartDelHolds(t, d, k);
      if |t.devs[d].parts| > 1 {
        ListsChanged(t.devs, d, PartDel(t, d, k).devs);
      } else {
        ListsWithout(t.devs, d);
      }
    }
  }

  lemma {:induction false} StepEdits(t: Table, op: Op)
    requires ValidTable(t)
    ensures Edited(Lists(t.devs), op, Lists(Step(t, op).devs))
  {
    match op
    case AddPart(d, part) => AddEdits(t, d, part);
    case DelPart(d, k) => DelEdits(t, d, k);
    case AddDevice(dev) =>
      DeviceAddHolds(t, dev);
      assert Lists(t.devs + [dev]) == Lists(t.devs) + [(dev.id, dev.parts)];
  }

  /** Over any run, each command leaves the lists that `Edited` says. */
  lemma {:induction false} RunEdits(t: Table, ops: seq<Op>, i: nat)
    requires ValidTable(t) && AllowedRun(t, ops) && i < |ops|
    ensures Edited(Lists(Run(t, ops[..i]).devs), ops[i], Lists(Run(t, ops[..i + 1]).devs))
  {
    assert ops[..i + 1][..i] == ops[..i];
    PrefixAllowed(t, ops, i);
    RunKeepsTable(t, ops[..i]);
    StepEdits(Run(t, ops[..i]), ops[i]);
  }

  // ---- conservation over a run

  type Pairs = multiset<(MtdId, Part)>

  /** All partitions with their devices. */
  function All(devs: seq<Dev>): Pairs {
    multiset(Flatten(devs))
  }

  function AllOf(id: MtdId, parts: seq<Part>): Pairs {
    multiset(PairsOf(id, parts))
  }

  /** What a command brings in and what it takes out. */
  function Brought(t: Table, op: Op): Pairs {
    match op
    case AddPart(d, part) =>
      if d < |t.devs| && Addable(t.devs[d].id, t.devs[d].parts, part)
      then multiset{(t.devs[d].id, Resolved(t.devs[d].id, part))} else multiset{}
    case DelPart(_, _) => multiset{}
    case AddDevice(dev) => AllOf(dev.id, dev.parts)
  }

  function Taken(t: Table, op: Op): Pairs {
    match op
    case DelPart(d, k) =>
      if d < |t.devs| && k < |t.devs[d].parts| then multiset{(t.devs[d].id, t.devs[d].parts[k])} else multiset{}
    case _ => multiset{}
  }

  function AllBrought(t: Table, ops: seq<Op>): Pairs {
    if ops == [] then multiset{}
    else AllBrought(t, ops[..|ops| - 1]) + Brought(Run(t, ops[..|ops| - 1]), ops[|ops| - 1])
  }

  function AllTaken(t: Table, ops: seq<Op>): Pairs {
    if ops == [] then multiset{}
    else AllTaken(t, ops[..|ops| - 1]) + Taken(Run(t, ops[..|ops| - 1]), ops[|ops| - 1])
  }

  /** The partitions of a table by device, without the flattened order. */
  function Sum(devs: seq<Dev>): Pairs {
    if devs == [] then multiset{} else AllOf(devs[0].id, devs[0].parts) + Sum(devs[1..])
  }

  lemma {:induction false} SumAppend(a: seq<Dev>, b: seq<Dev>)
    ensures Sum(a + b) == Sum(a) + Sum(b)
  {
    if a == [] {
      assert a + b == b;
    } else {
      assert (a + b)[1..] == a[1..] + b;
      SumAppend(a[1..], b);
    }
  }

  lemma SumOne(dev: Dev)
    ensures Sum([dev]) == AllOf(dev.id, dev.parts)
  {
    assert [dev][1..] == [];
  }

  lemma {:induction false} AllIsSum(devs: seq<Dev>)
    ensures All(devs) == Sum(devs)
  {
    if devs != [] {
      AllIsSum(devs[..|devs| - 1]);
      SumLast(devs);
    }
  }

  lemma SumLast(devs: seq<Dev>)
    requires devs != []
    ensures Sum(devs) == Sum(devs[..|devs| - 1]) + AllOf(devs[|devs| - 1].id, devs[|devs| - 1].parts)
  {
    assert devs[..|devs| - 1] + [devs[|devs| - 1]] == devs;
    SumAppend(devs[..|devs| - 1], [devs[|devs| - 1]]);
    SumOne(devs[|devs| - 1]);
  }

  lemma Commuted(a: Pairs, b: Pairs, c: Pairs)
    ensures a + (b + c) == (a + c) + b
  {
  }

  lemma SumOut(a: seq<Dev>, dev: Dev, b: seq<Dev>)
    ensures Sum(a + ([dev] + b)) == Sum(a + b) + AllOf(dev.id, dev.parts)
  {
    SumAppend(a, [dev] + b);
    SumAppend([dev], b);
    SumOne(dev);
    SumAppend(a, b);
    Commuted(Sum(a), AllOf(dev.id, dev.parts), Sum(b));
  }

  lemma CutAround(devs: seq<Dev>, d: nat)
    requires d < |devs|
    ensures devs == devs[..d] + ([devs[d]] + devs[d + 1..])
  {
  }

  /** The sum with one device apart. */
  lemma SumAround(devs: seq<Dev>, d: nat)
    requires d < |devs|
    ensures Sum(devs) == Sum(devs[..d] + devs[d + 1..]) + AllOf(devs[d].id, devs[d].parts)
  {
    CutAround(devs, d);
    SumOut(devs[..d], devs[d], devs[d + 1..]);
  }

  lemma SameRest(before: Pairs, after: Pairs, rest: Pairs, p: Pairs, q: Pairs)
    requires before == rest + p && after == rest + q
    ensures after + p == before + q
  {
  }

  lemma SumChanged(before: seq<Dev>, d: nat, after: seq<Dev>)
    requires Changed(before, d, after)
    ensures Sum(after) + AllOf(before[d].id, before[d].parts) == Sum(before) + AllOf(before[d].id, after[d].parts)
  {
    SumAround(before, d);
    SumAround(after, d);
    SameOthers(before, d, after);
    SameRest(Sum(before), Sum(after), Sum(before[..d] + before[d + 1..]), AllOf(before[d].id, before[d].parts),
             AllOf(after[d].id, after[d].parts));
  }

  lemma SameOthers(before: seq<Dev>, d: nat, after: seq<Dev>)
    requires Changed(before, d, after)
    ensures before[..d] + before[d + 1..] == after[..d] + after[d + 1..]
  {
    assert before[..d] == after[..d] && before[d + 1..] == after[d + 1..];
  }

  /** When the list of one device gains, so does the sum. */
  lemma GainOne(before: seq<Dev>, d: nat, after: seq<Dev>, gain: Pairs)
    requires Changed(before, d, after)
    requires AllOf(before[d].id, after[d].parts) == AllOf(before[d].id, before[d].parts) + gain
    ensures Sum(after) == Sum(before) + gain
  {
    SumChanged(before, d, after);
    Gained(Sum(before), Sum(after), AllOf(before[d].id, before[d].parts), gain);
  }

  lemma Gained(before: Pairs, after: Pairs, p: Pairs,
               gain: Pairs)
    requires after + p == before + (p + gain)
    ensures after == before + gain
  {
    forall x
      ensures after[x] == (before + gain)[x]
    {
      assert (after + p)[x] == (before + (p + gain))[x];
    }
  }

  /** When the list of one device loses, so does the sum. */
  lemma LoseOne(before: seq<Dev>, d: nat, after: seq<Dev>, loss: Pairs)
    requires Changed(before, d, after)
    requires AllOf(before[d].id, before[d].parts) == AllOf(before[d].id, after[d].parts) + loss
    ensures Sum(after) + loss == Sum(before)
  {
    SameOthers(before, d, after);
    assert Changed(after, d, before);
    GainOne(after, d, before, loss);
  }

  lemma {:induction false} AllOfAppend(id: MtdId, a: seq<Part>, b: seq<Part>)
    ensures AllOf(id, a + b) == AllOf(id, a) + AllOf(id, b)
  {
    assert PairsOf(id, a + b) == PairsOf(id, a) + PairsOf(id, b);
  }

  lemma AllOfOne(id: MtdId, p: Part)
    ensures AllOf(id, [p]) == multiset{(id, p)}
  {
    assert PairsOf(id, [p]) == [(id, p)];
  }

  lemma AllOfAround(id: MtdId, parts: seq<Part>, k: nat, p: Part, rest: seq<Part>)
    requires k <= |rest| && parts == rest[..k] + [p] + rest[k..]
    ensures AllOf(id, parts) == AllOf(id, rest) + multiset{(id, p)}
  {
    AllOfAppend(id, rest[..k] + [p], rest[k..]);
    AllOfAppend(id, rest[..k], [p]);
    AllOfOne(id, p);
    AllOfAppend(id, rest[..k], rest[k..]);
    assert rest[..k] + rest[k..] == rest;
  }

  lemma AddConserves(t: Table, d: nat, part: Part)
    requires ValidTable(t)
    ensures Sum(Step(t, AddPart(d, part)).devs) == Sum(t.devs) + Brought(t, AddPart(d, part))
  {
    if d < |t.devs| {
      PartAddHolds(t, d, part);
      if PartAdd(t, d, part).1 {
        var after, p := PartAdd(t, d, part).0.devs, Resolved(t.devs[d].id, part);
        PutInConserves(t.devs[d].id, t.devs[d].parts, p, after[d].parts);
        GainOne(t.devs, d, after, multiset{(t.devs[d].id, p)});
      }
    }
  }

  lemma PutInConserves(id: MtdId, before: seq<Part>, p: Part, after: seq<Part>)
    requires PutIn(before, p, after)
    ensures AllOf(id, after) == AllOf(id, before) + multiset{(id, p)}
  {
    var j: nat :| PutInAt(before, p, after, j);
    AllOfAround(id, after, j, p, before);
  }

  lemma CutConserves(id: MtdId, parts: seq<Part>, k: nat)
    requires k < |parts|
    ensures AllOf(id, parts) == AllOf(id, parts[..k] + parts[k + 1..]) + multiset{(id, parts[k])}
  {
    var rest := parts[..k] + parts[k + 1..];
    assert rest[..k] == parts[..k] && rest[k..] == parts[k + 1..];
    AllOfAround(id, parts, k, parts[k], rest);
  }

  lemma OnlyConserves(devs: seq<Dev>, d: nat)
    requires d < |devs| && |devs[d].parts| == 1
    ensures Sum(devs[..d] + devs[d + 1..]) + multiset{(devs[d].id, devs[d].parts[0])} == Sum(devs)
  {
    SumAround(devs, d);
    assert devs[d].parts == [devs[d].parts[0]];
    AllOfOne(devs[d].id, devs[d].parts[0]);
  }

  lemma DelConserves(t: Table, d: nat, k: nat)
    requires ValidTable(t)
    ensures Sum(Step(t, DelPart(d, k)).devs) + Taken(t, DelPart(d, k)) == Sum(t.devs)
  {
    if d < |t.devs| && k < |t.devs[d].parts| {
      PartDelHolds(t, d, k);
      if |t.devs[d].parts| > 1 {
        CutConserves(t.devs[d].id, t.devs[d].parts, k);
        LoseOne(t.devs, d, PartDel(t, d, k).devs, multiset{(t.devs[d].id, t.devs[d].parts[k])});
      } else {
        OnlyConserves(t.devs, d);
      }
    }
  }

  lemma {:induction false} StepConserves(t: Table, op: Op)
    requires ValidTable(t)
    ensures Sum(Step(t, op).devs) + Taken(t, op) == Sum(t.devs) + Brought(t, op)
  {
    match op
    case AddPart(d, part) => AddConserves(t, d, part);
    case DelPart(d, k) => DelConserves(t, d, k);
    case AddDevice(dev) =>
      SumAppend(t.devs, [dev]);
      SumOne(dev);
  }

  lemma Chained(first: Pairs, middle: Pairs, last: Pairs, taken: Pairs, took: Pairs, brought: Pairs, brings: Pairs)
    requires middle + taken == first + brought && last + took == middle + brings
    ensures last + (taken + took) == first + (brought + brings)
  {
    forall x
      ensures (last + (taken + took))[x] == (first + (brought + brings))[x]
    {
      assert (middle + taken)[x] == (first + brought)[x] && (last + took)[x] == (middle + brings)[x];
    }
  }

  lemma {:induction false} RunSums(t: Table, ops: seq<Op>)
    requires ValidTable(t) && AllowedRun(t, ops)
    ensures Sum(Run(t, ops).devs) + AllTaken(t, ops) == Sum(t.devs) + AllBrought(t, ops)
  {
    if ops != [] {
      var init, op := ops[..|ops| - 1], ops[|ops| - 1];
      assert ops[..|init|] == init;
      PrefixAllowed(t, ops, |init|);
      RunKeepsTable(t, init);
      RunSums(t, init);
      StepConserves(Run(t, init), op);
      Chained(Sum(t.devs), Sum(Run(t, init).devs), Sum(Run(t, ops).devs), AllTaken(t, init), Taken(Run(t, init), op),
              AllBrought(t, init), Brought(Run(t, init), op));
    }
  }

  /** Over any run, the partitions that were there or were brought in are those that are there or were taken out. */
  lemma {:induction false} RunConserves(t: Table, ops: seq<Op>)
    requires ValidTable(t) && AllowedRun(t, ops)
    ensures All(Run(t, ops).devs) + AllTaken(t, ops) == All(t.devs) + AllBrought(t, ops)
  {
    RunSums(t, ops);
    AllIsSum(t.devs);
    AllIsSum(Run(t, ops).devs);
  }
}
