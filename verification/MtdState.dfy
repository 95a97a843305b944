/** The globals of cmd_jffs2.c behind the partition table, and the routines that edit them. */
module MtdState {
  import opened Common
  import opened MtdParts
  import opened MtdTable

  class Partitions {
    var devices: seq<Dev>
    var currentDev: Option<MtdId>
    var currentPartnum: byte
    var mtddevnum: Option<nat>

    ghost function State(): Table
      reads this
    {
      Table(devices, currentDev, currentPartnum, mtddevnum)
    }

    constructor ()
      ensures State() == Table([], None, 0, None) && ValidTable(State())
    {
      devices, currentDev, currentPartnum, mtddevnum := [], None, 0, None;
    }

    /** `index_partitions`, summing in 16 bits up to the current device. */
    method IndexPartitions()
      modifies `mtddevnum
      ensures State() == Reindex(old(State()))
    {
      if currentDev.None? {
        mtddevnum := None;
        return;
      }
      var num, i := 0, 0;
      while i < |devices|
        invariant 0 <= i <= Find(devices, currentDev.value)
        invariant num == Total(devices[..i]) % 0x1_0000
        invariant mtddevnum == old(mtddevnum)
      {
        FindStops(devices, currentDev.value, i);
        if devices[i].id == currentDev.value {
          Wrap16(Total(devices[..i]), currentPartnum);
          mtddevnum := Some((num + currentPartnum) % 0x1_0000);
          return;
        }
        num := AddParts(devices, i, num);
        i := i + 1;
      }
    }

    /** `part_sort_add` on the device at `d`. */
    method SortAddPart(d: nat, part: Part) returns (ok: bool)
      requires d < |devices|
      modifies this
      ensures (State(), ok) == PartSortAdd(old(State()), d, part)
    {
      var dev := devices[d];
      var currIsHere := currentDev == Some(dev.id) && currentPartnum < |dev.parts|;
      var i := 0;
      while i < |dev.parts|
        invariant 0 <= i <= InsertAt(dev.parts, part)
        invariant State() == old(State())
      {
        var pi := dev.parts[i];
        if part.offset == pi.offset == 0 {
          return false;
        }
        if part.offset <= pi.offset {
          assert i == InsertAt(dev.parts, part);
          if currIsHere && pi.offset <= dev.parts[currentPartnum].offset {
            currentPartnum := (currentPartnum + 1) % 256;
          }
          devices := devices[d := Dev(dev.id, dev.parts[..i] + [part] + dev.parts[i..], dev.numParts + 1)];
          IndexPartitions();
          return true;
        }
        assert i < InsertAt(dev.parts, part);
        i := i + 1;
      }
      devices := devices[d := Dev(dev.id, dev.parts + [part], dev.numParts + 1)];
      assert With(dev.parts, |dev.parts|, part) == dev.parts + [part];
      IndexPartitions();
      return true;
    }

    /** `part_add`. */
    method AddPartition(d: nat, part: Part) returns (ok: bool)
      requires d < |devices|
      modifies this
      ensures (State(), ok) == PartAdd(old(State()), d, part)
    {
      var p := PartValidate(devices[d].id, part);
      if p.None? {
        return false;
      }
      ok := SortAddPart(d, p.value);
    }

    /** `device_del`. */
    method DeleteDevice(d: nat)
      requires d < |devices|
      modifies this
      ensures State() == DeviceDel(old(State()), d)
    {
      var id := devices[d].id;
      devices := devices[..d] + devices[d + 1..];
      if currentDev == Some(id) {
        if devices == [] {
          currentDev := None;
        } else {
          currentDev, currentPartnum := Some(devices[0].id), 0;
        }
      }
      IndexPartitions();
    }

    /** `part_del` of the `k`-th partition. */
    method DeletePartition(d: nat, k: nat)
      requires d < |devices| && k < |devices[d].parts|
      modifies this
      ensures State() == PartDel(old(State()), d, k)
    {
      var dev := devices[d];
      if dev.numParts == 1 {
        DeleteDevice(d);
        return;
      }
      if currentDev == Some(dev.id) && currentPartnum < |dev.parts| {
        if currentPartnum == k {
          currentPartnum := 0;
        } else if dev.parts[k].offset <= dev.parts[currentPartnum].offset {
          currentPartnum := (currentPartnum - 1) % 256;
        }
      }
      devices := devices[d := Dev(dev.id, dev.parts[..k] + dev.parts[k + 1..], (dev.numParts - 1) % 0x1_0000)];
      IndexPartitions();
    }

    /** `device_add`. */
    method AddDevice(dev: Dev)
      modifies this
      ensures State() == DeviceAdd(old(State()), dev)
    {
      if devices == [] {
        currentDev, currentPartnum := Some(dev.id), 0;
      }
      devices := devices + [dev];
      IndexPartitions();
    }
  }

  /** `num += dev->num_parts`. */
  method AddParts(devs: seq<Dev>, i: nat, num: nat) returns (sum: nat)
    requires i < |devs| && num == Total(devs[..i]) % 0x1_0000
    ensures sum == Total(devs[..i + 1]) % 0x1_0000
  {
    assert devs[..i + 1][..i] == devs[..i];
    Wrap16(Total(devs[..i]), devs[i].numParts);
    sum := (num + devs[i].numParts) % 0x1_0000;
  }

  lemma FindStops(devs: seq<Dev>, id: MtdId, i: nat)
    requires i <= Find(devs, id) && i < |devs|
    ensures devs[i].id == id <==> i == Find(devs, id)
  {
  }

  lemma Wrap16(a: nat, b: nat)
    ensures (a % 0x1_0000 + b) % 0x1_0000 == (a + b) % 0x1_0000
  {
  }
}
