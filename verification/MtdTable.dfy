/** The global partition table of cmd_jffs2.c while it is edited: the device list, the current device and partition
    number, and the flattened index kept in `mtddevnum`. */
module MtdTable {
  import opened Common
  import opened MtdParts

  /** A device with its partition list and the count kept beside it. */
  datatype Dev = Dev(id: MtdId, parts: seq<Part>, numParts: nat)

  /** `cur` stands for the pointer `current_dev`, `partnum` for the `u8` beside it, `devnum` for `mtddevnum`. */
  datatype Table = Table(devs: seq<Dev>, cur: Option<MtdId>, partnum: byte, devnum: Option<nat>)

  const MAX_PARTS := 256

  // ---- index arithmetic of part_sort_add and part_del

  function AfterAdd(parts: seq<Part>, part: Part, cur: byte): byte
    requires cur < |parts|
  {
    var k := InsertAt(parts, part);
    if k < |parts| && parts[k].offset <= parts[cur].offset then (cur + 1) % 256 else cur
  }

  function AfterDel(parts: seq<Part>, k: nat, cur: byte): byte
    requires k < |parts| && cur < |parts|
  {
    if k == cur then 0 else if parts[k].offset <= parts[cur].offset then (cur - 1) % 256 else cur
  }

  function Without<T>(s: seq<T>, k: nat): seq<T>
    requires k < |s|
  {
    s[..k] + s[k + 1..]
  }

  /** Comparing offsets tells on which side of the current partition a new one went. */
  lemma AddKeepsIndex(parts: seq<Part>, part: Part, cur: byte)
    requires Sorted(parts) && cur < |parts| < MAX_PARTS
    ensures var k := InsertAt(parts, part);
            && Sorted(With(parts, k, part))
            && AfterAdd(parts, part, cur) == (if k <= cur then cur + 1 else cur)
            && With(parts, k, part)[AfterAdd(parts, part, cur)] == parts[cur]
  {
    var k := InsertAt(parts, part);
    WithSorted(parts, part);
    assert k < |parts| && k <= cur ==> parts[k].offset <= parts[cur].offset;
    assert k > cur ==> parts[cur].offset < part.offset;
    WithAt(parts, k, part, cur);
  }

  lemma WithAt<T>(s: seq<T>, k: nat, x: T, i: nat)
    requires k <= |s| && i < |s|
    ensures With(s, k, x)[if k <= i then i + 1 else i] == s[i]
  {
  }

  /** Deleting another partition leaves the index on the same one exactly when it does not lie behind the current
      one at the same offset; with equal offsets the index is then one too low. */
  lemma DelKeepsIndexIff(parts: seq<Part>, k: nat, cur: byte)
    requires Sorted(parts) && k < |parts| <= MAX_PARTS && cur < |parts| && k != cur
    ensures AfterDel(parts, k, cur) == (if k < cur then cur - 1 else cur)
       <==> !(cur < k && parts[k].offset == parts[cur].offset)
  {
  }

  /** The smallest case: two partitions at one offset, the first is current and the second is deleted. */
  lemma EqualOffsetsLoseCurrent(a: Part, b: Part)
    requires a.offset == b.offset
    ensures AfterDel([a, b], 1, 0) == 255 && |Without([a, b], 1)| == 1
  {
    assert [a, b][1] == b;
  }

  lemma WithoutSorted(parts: seq<Part>, k: nat)
    requires Sorted(parts) && k < |parts|
    ensures Sorted(Without(parts, k))
  {
    var r := Without(parts, k);
    forall i, j | 0 <= i < j < |r|
      ensures r[i].offset <= r[j].offset
    {
      assert i < k ==> r[i] == parts[i];
      assert i >= k ==> r[i] == parts[i + 1];
      assert j < k ==> r[j] == parts[j];
      assert j >= k ==> r[j] == parts[j + 1];
    }
  }

  // ---- the table

  function Total(devs: seq<Dev>): nat {
    if devs == [] then 0 else Total(devs[..|devs| - 1]) + devs[|devs| - 1].numParts
  }

  /** All partitions of all devices in order. */
  function Flatten(devs: seq<Dev>): seq<(MtdId, Part)> {
    if devs == [] then []
    else
      var dev := devs[|devs| - 1];
      Flatten(devs[..|devs| - 1]) + PairsOf(dev.id, dev.parts)
  }

  function PairsOf(id: MtdId, parts: seq<Part>): seq<(MtdId, Part)> {
    seq(|parts|, i requires 0 <= i < |parts| => (id, parts[i]))
  }

  /** Where a device is in the list. */
  function Find(devs: seq<Dev>, id: MtdId): (d: nat)
    ensures d <= |devs| && (d < |devs| ==> devs[d].id == id)
    ensures forall i :: 0 <= i < d ==> devs[i].id != id
  {
    if devs == [] || devs[0].id == id then 0 else 1 + Find(devs[1..], id)
  }

  predicate ValidDev(dev: Dev) {
    dev.parts != [] && |dev.parts| <= MAX_PARTS && dev.numParts == |dev.parts| && Sorted(dev.parts)
  }

  predicate ValidDevs(devs: seq<Dev>) {
    && (forall i :: 0 <= i < |devs| ==> ValidDev(devs[i]))
    && forall i, j :: 0 <= i < j < |devs| ==> !SameDevice(devs[i].id, devs[j].id)
  }

  /** `index_partitions`, in 16 bits. */
  function Index(t: Table): Option<nat> {
    if t.cur.None? then None
    else Some((Total(t.devs[..Find(t.devs, t.cur.value)]) + t.partnum) % 0x1_0000)
  }

  predicate ValidTable(t: Table) {
    && ValidDevs(t.devs) && (t.cur.None? <==> t.devs == [])
    && (t.cur.Some? ==> var d := Find(t.devs, t.cur.value); d < |t.devs| && t.partnum < |t.devs[d].parts|)
    && t.devnum == Index(t)
  }

  /** The partition that (current_dev, current_partnum) names. */
  function Current(t: Table): Option<(MtdId, Part)>
    requires ValidTable(t)
  {
    if t.cur.None? then None else Some((t.cur.value, t.devs[Find(t.devs, t.cur.value)].parts[t.partnum]))
  }

  /** Recomputes `mtddevnum`, unless the current device is not in the list. */
  function Reindex(t: Table): Table {
    if t.cur.Some? && Find(t.devs, t.cur.value) == |t.devs| then t else t.(devnum := Index(t))
  }

  /** Replaces the list of one device and the number of the current partition. */
  function Replace(t: Table, d: nat, dev: Dev, partnum: byte): Table
    requires d < |t.devs|
  {
    Reindex(t.(devs := t.devs[d := dev], partnum := partnum))
  }

  function PartAdd(t: Table, d: nat, part: Part): (Table, bool)
    requires d < |t.devs|
  {
    var dev := t.devs[d];
    match PartValidate(dev.id, part)
    case None => (t, false)
    case Some(p) => PartSortAdd(t, d, p)
  }

  function PartSortAdd(t: Table, d: nat, p: Part): (Table, bool)
    requires d < |t.devs|
  {
    var dev := t.devs[d];
    if SortAdd(dev.parts, p).None? then (t, false)
    else
      var cur := if t.cur == Some(dev.id) && t.partnum < |dev.parts| then AfterAdd(dev.parts, p, t.partnum) else t.partnum;
      (Replace(t, d, Grown(dev, p), cur), true)
  }

  function DeviceDel(t: Table, d: nat): Table
    requires d < |t.devs|
  {
    var devs := Without(t.devs, d);
    Reindex(
      if t.cur != Some(t.devs[d].id) then t.(devs := devs)
      else if devs == [] then t.(devs := devs, cur := None)
      else t.(devs := devs, cur := Some(devs[0].id), partnum := 0))
  }

  /** `part_del` of one of several partitions. */
  function PartDrop(t: Table, d: nat, k: nat): Table
    requires d < |t.devs| && k < |t.devs[d].parts|
  {
    var dev := t.devs[d];
    var cur := if t.cur == Some(dev.id) && t.partnum < |dev.parts| then AfterDel(dev.parts, k, t.partnum) else t.partnum;
    Replace(t, d, Dropped(dev, k), cur)
  }

  function PartDel(t: Table, d: nat, k: nat): Table
    requires d < |t.devs| && k < |t.devs[d].parts|
  {
    if t.devs[d].numParts == 1 then DeviceDel(t, d) else PartDrop(t, d, k)
  }

  function DeviceAdd(t: Table, dev: Dev): Table {
    var devs := t.devs + [dev];
    Reindex(if t.devs == [] then t.(devs := devs, cur := Some(dev.id), partnum := 0) else t.(devs := devs))
  }

  // ---- runs of edits

  /** Commands on the table; `d` and `k` are where the device and the partition were found. */
  datatype Op = AddPart(d: nat, part: Part) | DelPart(d: nat, k: nat) | AddDevice(dev: Dev)

  function Step(t: Table, op: Op): Table {
    match op
    case AddPart(d, part) => if d < |t.devs| then PartAdd(t, d, part).0 else t
    case DelPart(d, k) => if d < |t.devs| && k < |t.devs[d].parts| then PartDel(t, d, k) else t
    case AddDevice(dev) => DeviceAdd(t, dev)
  }

  /** What the model's result rests on: lists stay within a `u8`, devices are new and as `device_parse` makes them,
      and no partition is deleted that lies behind the current one at the same offset. */
  predicate Allowed(t: Table, op: Op) {
    match op
    case AddPart(d, _) => d < |t.devs| ==> |t.devs[d].parts| < MAX_PARTS
    case DelPart(d, k) =>
      d < |t.devs| && k < |t.devs[d].parts| && t.cur == Some(t.devs[d].id) && t.partnum < k
      ==> t.devs[d].parts[t.partnum].offset < t.devs[d].parts[k].offset
    case AddDevice(dev) => ValidDev(dev) && forall i :: 0 <= i < |t.devs| ==> !SameDevice(t.devs[i].id, dev.id)
  }

  /** The command deletes the current partition. */
  predicate DeletesCurrent(t: Table, op: Op) {
    op.DelPart? && op.d < |t.devs| && t.cur == Some(t.devs[op.d].id) && op.k == t.partnum
  }

  lemma FindAt(devs: seq<Dev>, d: nat)
    requires ValidDevs(devs) && d < |devs|
    ensures Find(devs, devs[d].id) == d
  {
    assert forall i :: 0 <= i < d ==> !SameDevice(devs[i].id, devs[d].id);
  }

  lemma ValidUpdate(devs: seq<Dev>, d: nat, dev: Dev)
    requires ValidDevs(devs) && d < |devs| && ValidDev(dev) && dev.id == devs[d].id
    ensures ValidDevs(devs[d := dev])
  {
  }

  lemma FindAfterUpdate(devs: seq<Dev>, d: nat, dev: Dev, id: MtdId)
    requires ValidDevs(devs) && d < |devs| && ValidDev(dev) && dev.id == devs[d].id && Find(devs, id) < |devs|
    ensures Find(devs[d := dev], id) == Find(devs, id)
  {
    ValidUpdate(devs, d, dev);
    FindAt(devs[d := dev], Find(devs, id));
  }

  /** A table whose current pair is in its lists is valid once `mtddevnum` is recomputed. */
  lemma ReindexValid(t: Table, c: nat)
    requires ValidDevs(t.devs) && c < |t.devs| && t.cur == Some(t.devs[c].id) && t.partnum < |t.devs[c].parts|
    ensures ValidTable(Reindex(t)) && Current(Reindex(t)) == Some((t.devs[c].id, t.devs[c].parts[t.partnum]))
    ensures Reindex(t).devs == t.devs
  {
    FindAt(t.devs, c);
  }

  /** Replacing the list of one device, with the number of the current partition adjusted. */
  lemma ReplaceKeeps(t: Table, d: nat, dev: Dev, partnum: byte)
    requires ValidTable(t) && d < |t.devs| && ValidDev(dev) && dev.id == t.devs[d].id
    requires if t.cur == Some(dev.id) then partnum < |dev.parts| else partnum == t.partnum
    ensures var t' := Replace(t, d, dev, partnum);
            && ValidTable(t')
            && (t.cur == Some(dev.id) ==> Current(t') == Some((dev.id, dev.parts[partnum])))
            && (t.cur != Some(dev.id) ==> Current(t') == Current(t))
  {
    FindAt(t.devs, d);
    ValidUpdate(t.devs, d, dev);
    FindAfterUpdate(t.devs, d, dev, t.cur.value);
  }

  lemma CurrentOf(t: Table, d: nat)
    requires ValidTable(t) && d < |t.devs| && t.cur == Some(t.devs[d].id)
    ensures t.partnum < |t.devs[d].parts| && Current(t) == Some((t.devs[d].id, t.devs[d].parts[t.partnum]))
  {
    FindAt(t.devs, d);
  }

  /** A device with one more partition, where `part_sort_add` puts it. */
  function Grown(dev: Dev, p: Part): Dev {
    Dev(dev.id, With(dev.parts, InsertAt(dev.parts, p), p), dev.numParts + 1)
  }

  lemma GrownValid(dev: Dev, p: Part)
    requires ValidDev(dev) && |dev.parts| < MAX_PARTS
    ensures ValidDev(Grown(dev, p)) && Grown(dev, p).id == dev.id
  {
    WithSorted(dev.parts, p);
  }

  lemma GrownKeepsNumber(dev: Dev, p: Part, cur: byte)
    requires ValidDev(dev) && |dev.parts| < MAX_PARTS && cur < |dev.parts|
    ensures var c := AfterAdd(dev.parts, p, cur);
            c < |Grown(dev, p).parts| && Grown(dev, p).parts[c] == dev.parts[cur]
  {
    AddKeepsIndex(dev.parts, p, cur);
  }

  lemma PartSortAddKeeps(t: Table, d: nat, p: Part)
    requires ValidTable(t) && d < |t.devs| && |t.devs[d].parts| < MAX_PARTS
    ensures ValidTable(PartSortAdd(t, d, p).0) && Current(PartSortAdd(t, d, p).0) == Current(t)
  {
    var dev := t.devs[d];
    if SortAdd(dev.parts, p).Some? {
      GrownValid(dev, p);
      if t.cur == Some(dev.id) {
        CurrentOf(t, d);
        GrownKeepsNumber(dev, p, t.partnum);
        ReplaceKeeps(t, d, Grown(dev, p), AfterAdd(dev.parts, p, t.partnum));
      } else {
        ReplaceKeeps(t, d, Grown(dev, p), t.partnum);
      }
    }
  }

  lemma PartAddKeeps(t: Table, d: nat, part: Part)
    requires ValidTable(t) && d < |t.devs| && |t.devs[d].parts| < MAX_PARTS
    ensures ValidTable(PartAdd(t, d, part).0) && Current(PartAdd(t, d, part).0) == Current(t)
  {
    if PartValidate(t.devs[d].id, part).Some? {
      PartSortAddKeeps(t, d, PartValidate(t.devs[d].id, part).value);
    }
  }

  lemma WithoutValid(devs: seq<Dev>, d: nat)
    requires ValidDevs(devs) && d < |devs|
    ensures ValidDevs(Without(devs, d))
  {
    var r := Without(devs, d);
    forall i, j | 0 <= i < j < |r|
      ensures !SameDevice(r[i].id, r[j].id)
    {
      assert r[i] == devs[if i < d then i else i + 1] && r[j] == devs[if j < d then j else j + 1];
    }
  }

  lemma FindWithout(devs: seq<Dev>, d: nat, c: nat)
    requires ValidDevs(devs) && d < |devs| && c < |devs| && c != d
    ensures ValidDevs(Without(devs, d))
    ensures Find(Without(devs, d), devs[c].id) == if c < d then c else c - 1
  {
    WithoutValid(devs, d);
    assert Without(devs, d)[if c < d then c else c - 1] == devs[c];
    FindAt(Without(devs, d), if c < d then c else c - 1);
  }

  lemma DelOtherDevice(t: Table, d: nat)
    requires ValidTable(t) && d < |t.devs| && t.cur != Some(t.devs[d].id)
    ensures ValidTable(DeviceDel(t, d)) && Current(DeviceDel(t, d)) == Current(t)
  {
    var c := Find(t.devs, t.cur.value);
    var c' := if c < d then c else c - 1;
    FindWithout(t.devs, d, c);
    assert Without(t.devs, d)[c'] == t.devs[c];
    ReindexValid(t.(devs := Without(t.devs, d)), c');
  }

  lemma DelCurrentDevice(t: Table, d: nat)
    requires ValidTable(t) && d < |t.devs| && t.cur == Some(t.devs[d].id)
    ensures var t' := DeviceDel(t, d);
            ValidTable(t') && Current(t') == if t'.devs == [] then None else Some((t'.devs[0].id, t'.devs[0].parts[0]))
  {
    WithoutValid(t.devs, d);
    if Without(t.devs, d) != [] {
      FindAt(Without(t.devs, d), 0);
    }
  }

  /** A device after one of several partitions is dropped. */
  function Dropped(dev: Dev, k: nat): Dev
    requires k < |dev.parts|
  {
    Dev(dev.id, Without(dev.parts, k), (dev.numParts - 1) % 0x1_0000)
  }

  lemma DroppedValid(dev: Dev, k: nat)
    requires ValidDev(dev) && k < |dev.parts| && dev.numParts > 1
    ensures ValidDev(Dropped(dev, k)) && Dropped(dev, k).id == dev.id
  {
    WithoutSorted(dev.parts, k);
  }

  /** The current partition's number after one of several partitions is dropped from its device. */
  lemma DropKeepsNumber(dev: Dev, k: nat, cur: byte)
    requires ValidDev(dev) && k < |dev.parts| && cur < |dev.parts| && dev.numParts > 1
    requires cur < k ==> dev.parts[cur].offset < dev.parts[k].offset
    ensures var c := AfterDel(dev.parts, k, cur);
            c < |Dropped(dev, k).parts| && (k != cur ==> Dropped(dev, k).parts[c] == dev.parts[cur])
  {
    if k != cur {
      DelKeepsIndexIff(dev.parts, k, cur);
    }
  }

  lemma DropFromOther(t: Table, d: nat, k: nat)
    requires ValidTable(t) && d < |t.devs| && k < |t.devs[d].parts| && t.devs[d].numParts > 1
    requires t.cur != Some(t.devs[d].id)
    ensures ValidTable(PartDrop(t, d, k)) && Current(PartDrop(t, d, k)) == Current(t)
  {
    DroppedValid(t.devs[d], k);
    ReplaceKeeps(t, d, Dropped(t.devs[d], k), t.partnum);
  }

  lemma DropFromCurrent(t: Table, d: nat, k: nat)
    requires ValidTable(t) && d < |t.devs| && k < |t.devs[d].parts| && t.devs[d].numParts > 1
    requires t.cur == Some(t.devs[d].id)
    requires t.partnum < k ==> t.devs[d].parts[t.partnum].offset < t.devs[d].parts[k].offset
    ensures ValidTable(PartDrop(t, d, k))
    ensures Current(PartDrop(t, d, k))
         == if k == t.partnum then Some((t.devs[d].id, Without(t.devs[d].parts, k)[0])) else Current(t)
  {
    var dev := t.devs[d];
    CurrentOf(t, d);
    DroppedValid(dev, k);
    DropKeepsNumber(dev, k, t.partnum);
    ReplaceKeeps(t, d, Dropped(dev, k), AfterDel(dev.parts, k, t.partnum));
  }

  /** What is current after a command: the same partition; when that is deleted the first one left on its device, else
      of the first device left, else none. The first device added brings the first current partition. */
  function NextCurrent(t: Table, op: Op): Option<(MtdId, Part)>
    requires ValidTable(t) && Allowed(t, op)
  {
    if DeletesCurrent(t, op) then AfterCurrent(t, op.d, op.k)
    else if t.devs == [] && op.AddDevice? then Some((op.dev.id, op.dev.parts[0]))
    else Current(t)
  }

  /** The first partition left on a device, else of the first device left. */
  function AfterCurrent(t: Table, d: nat, k: nat): Option<(MtdId, Part)>
    requires ValidTable(t) && d < |t.devs|
  {
    var dev := t.devs[d];
    if k < |dev.parts| && |dev.parts| > 1 then Some((dev.id, Without(dev.parts, k)[0]))
    else FirstOf(Without(t.devs, d))
  }

  function FirstOf(devs: seq<Dev>): Option<(MtdId, Part)> {
    if devs == [] || devs[0].parts == [] then None else Some((devs[0].id, devs[0].parts[0]))
  }

  lemma PartDelKeeps(t: Table, d: nat, k: nat)
    requires ValidTable(t) && Allowed(t, DelPart(d, k)) && d < |t.devs| && k < |t.devs[d].parts|
    ensures ValidTable(PartDel(t, d, k))
    ensures Current(PartDel(t, d, k)) == NextCurrent(t, DelPart(d, k))
  {
    if t.cur == Some(t.devs[d].id) {
      CurrentOf(t, d);
    }
    if t.devs[d].numParts == 1 && t.cur == Some(t.devs[d].id) {
      DelCurrentDevice(t, d);
    } else if t.devs[d].numParts == 1 {
      DelOtherDevice(t, d);
    } else if t.cur == Some(t.devs[d].id) {
      DropFromCurrent(t, d, k);
    } else {
      DropFromOther(t, d, k);
    }
  }

  lemma DeviceAddKeeps(t: Table, dev: Dev)
    requires ValidTable(t) && Allowed(t, AddDevice(dev))
    ensures ValidTable(DeviceAdd(t, dev)) && Current(DeviceAdd(t, dev)) == NextCurrent(t, AddDevice(dev))
  {
    var devs := t.devs + [dev];
    assert ValidDevs(devs);
    if t.devs != [] {
      var c := Find(t.devs, t.cur.value);
      assert devs[c] == t.devs[c];
      ReindexValid(t.(devs := devs), c);
    } else {
      assert devs[0] == dev;
      ReindexValid(t.(devs := devs, cur := Some(dev.id), partnum := 0), 0);
    }
  }

  /** One command keeps the invariant, and leaves current what `NextCurrent` says. */
  lemma {:induction false} StepKeeps(t: Table, op: Op)
    requires ValidTable(t) && Allowed(t, op)
    ensures ValidTable(Step(t, op)) && Current(Step(t, op)) == NextCurrent(t, op)
  {
    match op
    case AddPart(d, part) => if d < |t.devs| { PartAddKeeps(t, d, part); }
    case DelPart(d, k) =>
      if d < |t.devs| && k < |t.devs[d].parts| {
        PartDelKeeps(t, d, k);
      } else if DeletesCurrent(t, op) {
        CurrentOf(t, d);
        assert false;
      }
    case AddDevice(dev) => DeviceAddKeeps(t, dev);
  }

  function Run(t: Table, ops: seq<Op>): Table {
    if ops == [] then t else Step(Run(t, ops[..|ops| - 1]), ops[|ops| - 1])
  }

  predicate AllowedRun(t: Table, ops: seq<Op>) {
    forall i :: 0 <= i < |ops| ==> Allowed(Run(t, ops[..i]), ops[i])
  }

  /** Over any run of edits the lists stay sorted, the counts are the lengths, the current pair is valid and
      `mtddevnum` is its position. */
  lemma {:induction false} RunKeepsTable(t: Table, ops: seq<Op>)
    requires ValidTable(t) && AllowedRun(t, ops)
    ensures ValidTable(Run(t, ops))
  {
    if ops != [] {
      var init := ops[..|ops| - 1];
      assert forall i :: 0 <= i <= |init| ==> ops[..i] == init[..i];
      assert init[..|init|] == init;
      RunKeepsTable(t, init);
      StepKeeps(Run(t, init), ops[|ops| - 1]);
    }
  }

  /** Over any run, each command leaves current what `NextCurrent` says of the table before it. */
  lemma {:induction false} RunFollowsCurrent(t: Table, ops: seq<Op>, i: nat)
    requires ValidTable(t) && AllowedRun(t, ops) && i < |ops|
    ensures ValidTable(Run(t, ops[..i])) && ValidTable(Run(t, ops[..i + 1]))
    ensures Current(Run(t, ops[..i + 1])) == NextCurrent(Run(t, ops[..i]), ops[i])
  {
    assert ops[..i + 1][..i] == ops[..i];
    PrefixAllowed(t, ops, i);
    RunKeepsTable(t, ops[..i]);
    StepKeeps(Run(t, ops[..i]), ops[i]);
  }

  lemma PrefixAllowed(t: Table, ops: seq<Op>, k: nat)
    requires AllowedRun(t, ops) && k <= |ops|
    ensures AllowedRun(t, ops[..k])
  {
    assert forall i :: 0 <= i < k ==> ops[..k][..i] == ops[..i];
  }

  /** Over any run that does not delete it, the current pair names the same partition. */
  lemma {:induction false} RunKeepsCurrent(t: Table, ops: seq<Op>)
    requires ValidTable(t) && t.devs != [] && AllowedRun(t, ops)
    requires forall i :: 0 <= i < |ops| ==> !DeletesCurrent(Run(t, ops[..i]), ops[i])
    ensures ValidTable(Run(t, ops)) && Run(t, ops).devs != [] && Current(Run(t, ops)) == Current(t)
  {
    if ops != [] {
      var init := ops[..|ops| - 1];
      assert forall i :: 0 <= i <= |init| ==> ops[..i] == init[..i];
      assert init[..|init|] == init;
      RunKeepsCurrent(t, init);
      StepKeeps(Run(t, init), ops[|ops| - 1]);
    }
  }

  // ---- the flattened index

  lemma {:induction false} FlattenAt(devs: seq<Dev>, d: nat, k: nat)
    requires ValidDevs(devs) && d < |devs| && k < |devs[d].parts|
    ensures |Flatten(devs)| == Total(devs)
    ensures Total(devs[..d]) + k < Total(devs) && Flatten(devs)[Total(devs[..d]) + k] == (devs[d].id, devs[d].parts[k])
  {
    var init := devs[..|devs| - 1];
    if d < |devs| - 1 {
      assert devs[..d] == init[..d];
      FlattenAt(init, d, k);
    } else {
      assert devs[..d] == init;
      FlattenLength(init);
    }
  }

  lemma {:induction false} FlattenLength(devs: seq<Dev>)
    requires ValidDevs(devs)
    ensures |Flatten(devs)| == Total(devs)
  {
    if devs != [] {
      FlattenLength(devs[..|devs| - 1]);
    }
  }

  lemma IndexIs(t: Table, position: nat)
    requires t.cur.Some? && position == Total(t.devs[..Find(t.devs, t.cur.value)]) + t.partnum && position < 0x1_0000
    ensures Index(t) == Some(position)
  {
  }

  /** `mtddevnum` is where the current partition stands among all partitions. */
  lemma DevnumIsPosition(t: Table)
    requires ValidTable(t) && t.devs != [] && Total(t.devs) <= 0x1_0000
    ensures t.devnum.Some? && t.devnum.value < |Flatten(t.devs)|
    ensures Some(Flatten(t.devs)[t.devnum.value]) == Current(t)
  {
    var d := Find(t.devs, t.cur.value);
    FlattenAt(t.devs, d, t.partnum);
    IndexIs(t, Total(t.devs[..d]) + t.partnum);
  }
}
