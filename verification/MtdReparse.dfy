/** Text that the parser accepts is a table that printing and parsing give back. */
module MtdReparse {
  import opened Common
  import opened MtdSize
  import opened MtdParts
  import opened MtdText

  /** What the parser makes of any device it accepts. */
  predicate Accepted(ids: seq<MtdId>, dev: Device) {
    && dev.parts != [] && Sorted(dev.parts) && FindId(ids, dev.id.mtdId) == Some(dev.id) && ':' !in dev.id.mtdId
    && forall p :: p in dev.parts ==> Fits(dev.id, p) && PrintableName(p.name)
  }

  predicate AllAccepted(ids: seq<MtdId>, devs: seq<Device>) {
    forall dev :: dev in devs ==> Accepted(ids, dev)
  }

  /** No two partitions start at one offset, and none has a size that the text cannot give. */
  predicate Readable(parts: seq<Part>) {
    && (forall i, j :: 0 <= i < j < |parts| ==> parts[i].offset != parts[j].offset)
    && forall p :: p in parts ==> MIN_PART_SIZE <= p.size != SIZE_REMAINING
  }

  predicate AllReadable(devs: seq<Device>) {
    forall dev :: dev in devs ==> Readable(dev.parts)
  }

  lemma NameParsed(s: string)
    ensures ParseName(s).Some? ==> PrintableName(ParseName(s).value.0)
  {
  }

  lemma TailNamed(size: word, s: string)
    ensures ParseTail(size, s).Some? ==> PrintableName(ParseTail(size, s).value.0.name)
  {
    NameParsed(ParseOffset(s).1);
  }

  lemma PartNamed(s: string)
    ensures PartParse(s).Some? ==> PrintableName(PartParse(s).value.0.name)
  {
    if ParseSize(s).Some? {
      TailNamed(ParseSize(s).value.0, ParseSize(s).value.1);
    }
  }

  lemma {:induction false} PartsNamed(id: MtdId, s: string, offset: word)
    ensures var r := PartsParse(id, s, offset); r.Some? ==> forall p :: p in r.value.0 ==> PrintableName(p.name)
    decreases |s|
  {
    PartParseShrinks(s);
    PartNamed(s);
    if s != "" && s[0] != ';' && PartParse(s).Some? {
      var (parsed, rest) := PartParse(s).value;
      if Place(id, parsed, offset).Some? {
        PartsNamed(id, rest, Place(id, parsed, offset).value.End());
      }
    }
  }

  lemma {:induction false} NotFound(devs: seq<Device>, id: MtdId)
    requires FindDevice(devs, id) == None
    ensures forall dev :: dev in devs ==> !SameDevice(dev.id, id)
  {
    if devs != [] {
      NotFound(devs[1..], id);
    }
  }

  /** The device is the one named, with the partitions of its list sorted in. */
  lemma DeviceIs(ids: seq<MtdId>, devs: seq<Device>, s: string) returns (parts: seq<Part>)
    requires DeviceParse(ids, devs, s).Some?
    ensures var dev := DeviceParse(ids, devs, s).value.0;
            && FindId(ids, dev.id.mtdId) == Some(dev.id) && ':' !in dev.id.mtdId
            && (forall p :: p in parts ==> PrintableName(p.name))
            && forall p :: p in dev.parts ==> p in parts
  {
    var k := IndexOf(s, ':');
    FindIdNames(ids, s[..k]);
    var id := FindId(ids, s[..k]).value;
    PartsNamed(id, s[k + 1..], StartOffset(devs, id));
    parts := PartsParse(id, s[k + 1..], StartOffset(devs, id)).value.0;
    SortAddAllSorts([], parts);
    SameMembers(parts, SortAddAll([], parts).value);
  }

  lemma SameMembers(a: seq<Part>, b: seq<Part>)
    requires multiset(b) == multiset(a)
    ensures forall p :: p in b ==> p in a
  {
    forall p | p in b
      ensures p in a
    {
      assert p in multiset(b);
    }
  }

  lemma DeviceAccepted(ids: seq<MtdId>, devs: seq<Device>, s: string)
    requires DeviceParse(ids, devs, s).Some?
    ensures Accepted(ids, DeviceParse(ids, devs, s).value.0)
  {
    DeviceParseSorted(ids, devs, s);
    var parts := DeviceIs(ids, devs, s);
  }

  lemma DistinctSnoc(devs: seq<Device>, dev: Device)
    requires Distinct(devs) && FindDevice(devs, dev.id) == None
    ensures Distinct(devs + [dev])
  {
    NotFound(devs, dev.id);
  }

  /** Whatever text is accepted, its devices are distinct and as `Accepted` says. */
  lemma {:induction false} DevicesAccepted(ids: seq<MtdId>, devs: seq<Device>, s: string)
    requires AllAccepted(ids, devs) && Distinct(devs) && ParseDevices(ids, devs, s).Some?
    ensures var r := ParseDevices(ids, devs, s).value;
            AllAccepted(ids, r) && Distinct(r) && (s != "" || devs != [] ==> r != [])
    decreases |s|
  {
    if s != "" {
      var (dev, rest) := DeviceParse(ids, devs, s).value;
      DeviceParseShrinks(ids, devs, s);
      DeviceAccepted(ids, devs, s);
      DistinctSnoc(devs, dev);
      DevicesAccepted(ids, devs + [dev], rest);
    }
  }

  lemma AcceptedValid(ids: seq<MtdId>, dev: Device)
    requires Accepted(ids, dev) && Readable(dev.parts)
    ensures ValidDevice(ids, dev) && LargeEnough(dev.parts)
  {
    assert forall i, j :: 0 <= i < j < |dev.parts| ==> dev.parts[i].offset <= dev.parts[j].offset;
  }

  /** Main result: for every text that is accepted, whatever the order of its partitions, with fill-up sizes and omitted
      offsets, the text printed for its table is parsed to the same table. */
  lemma {:induction false} ParsePrintParse(ids: seq<MtdId>, s: string)
    requires ParseTable(ids, s).Some? && AllReadable(ParseTable(ids, s).value)
    ensures ParseTable(ids, PREFIX + PrintDevices(ParseTable(ids, s).value)) == ParseTable(ids, s)
  {
    var devs := ParseTable(ids, s).value;
    DevicesAccepted(ids, [], s[|PREFIX|..]);
    forall dev | dev in devs
      ensures ValidDevice(ids, dev) && LargeEnough(dev.parts)
    {
      AcceptedValid(ids, dev);
    }
    PrintThenParse(ids, devs);
  }
}
