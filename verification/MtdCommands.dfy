/** The partition commands of cmd_jffs2.c on their global state, and the loops over partition text. */
module MtdCommands {
  import opened Common
  import opened MtdSize
  import opened MtdParts
  import opened MtdText
  import T = MtdTable

  // ---- parsing loops

  /** The result of a partition loop that has `done` behind it. */
  ghost function Prepend(done: seq<Part>, r: Option<(seq<Part>, string)>): Option<(seq<Part>, string)> {
    if r.None? then None else Some((done + r.value.0, r.value.1))
  }

  lemma PrependNothing(r: Option<(seq<Part>, string)>)
    ensures Prepend([], r) == r
  {
    if r.Some? {
      assert [] + r.value.0 == r.value.0;
    }
  }

  lemma PrependOne(done: seq<Part>, part: Part, r: Option<(seq<Part>, string)>)
    ensures Prepend(done, Prepend([part], r)) == Prepend(done + [part], r)
  {
    if r.Some? {
      assert done + ([part] + r.value.0) == (done + [part]) + r.value.0;
    }
  }

  /** The partition loop of `device_parse`; the text is what the pointer points to. */
  method ParseParts(id: MtdId, s: string, start: word) returns (r: Option<(seq<Part>, string)>)
    ensures r == PartsParse(id, s, start)
  {
    var tmpList := [];
    var p, offset := s, start;
    PrependNothing(PartsParse(id, s, start));
    while p != "" && p[0] != ';'
      invariant PartsParse(id, s, start) == Prepend(tmpList, PartsParse(id, p, offset))
      decreases |p|
    {
      PartParseShrinks(p);
      var parsed := PartParse(p);
      if parsed.None? {
        return None;
      }
      var part := Place(id, parsed.value.0, offset);
      if part.None? {
        return None;
      }
      PartsParseStep(id, p, offset, parsed.value.0, parsed.value.1, part.value);
      PrependOne(tmpList, part.value, PartsParse(id, parsed.value.1, part.value.End()));
      offset := part.value.End();
      tmpList := tmpList + [part.value];
      p := parsed.value.1;
    }
    assert tmpList + [] == tmpList;
    r := Some((tmpList, p));
  }

  /** Moves partitions from the temporary list to the device. */
  method SortParts(tmpList: seq<Part>) returns (r: Option<seq<Part>>)
    ensures r == SortAddAll([], tmpList)
  {
    var parts := [];
    var i := 0;
    while i < |tmpList|
      invariant 0 <= i <= |tmpList|
      invariant SortAddAll(parts, tmpList[i..]) == SortAddAll([], tmpList)
    {
      var added := SortAdd(parts, tmpList[i]);
      if added.None? {
        return None;
      }
      parts := added.value;
      i := i + 1;
    }
    return Some(parts);
  }

  /** `device_parse`. */
  method ParseDevice(ids: seq<MtdId>, devs: seq<Device>, s: string) returns (r: Option<(Device, string)>)
    ensures r == DeviceParse(ids, devs, s)
  {
    var k := IndexOf(s, ':');
    if k == |s| {
      return None;
    }
    var id := FindId(ids, s[..k]);
    if id.None? {
      return None;
    }
    var parsed := ParseParts(id.value, s[k + 1..], StartOffset(devs, id.value));
    r := MakeDevice(id.value, parsed);
  }

  /** The end of `device_parse`. */
  method MakeDevice(id: MtdId, parsed: Option<(seq<Part>, string)>) returns (r: Option<(Device, string)>)
    ensures r == DeviceOf(id, parsed)
  {
    if parsed.None? || parsed.value.0 == [] {
      return None;
    }
    var parts := SortParts(parsed.value.0);
    if parts.None? {
      return None;
    }
    var p := parsed.value.1;
    return Some((Device(id, parts.value), if p == "" then p else p[1..]));
  }

  /** `parse_mtdparts`. */
  method ParseMtdparts(ids: seq<MtdId>, s: string) returns (r: Option<seq<Device>>)
    ensures r == ParseTable(ids, s)
  {
    if !(PREFIX <= s) || |s| == |PREFIX| {
      return None;
    }
    var p := s[|PREFIX|..];
    var devices := [];
    while p != ""
      invariant ParseDevices(ids, devices, p) == ParseTable(ids, s)
      decreases |p|
    {
      DeviceParseShrinks(ids, devices, p);
      var dev := ParseDevice(ids, devices, p);
      if dev.None? {
        return None;
      }
      if FindDevice(devices, dev.value.0.id).Some? {
        return None;
      }
      devices := devices + [dev.value.0];
      p := dev.value.1;
    }
    return Some(devices);
  }
}
