/** Partitions of a flash device: validation and the list sorted by offset (cmd_jffs2.c). */
module MtdParts {
  import opened Common

  const SIZE_REMAINING: word := 0xFFFF_FFFF
  const OFFSET_NOT_SPECIFIED: word := 0xFFFF_FFFF
  const MIN_PART_SIZE := 4096

  /** Sector start addresses of a NOR bank, or the erase size of a NAND device. */
  datatype Geometry = Nor(starts: seq<word>, flashSize: word) | Nand(eraseSize: word)

  /** An entry of the `mtdids` mapping. */
  datatype MtdId = MtdId(num: byte, size: word, mtdId: string, geometry: Geometry)

  /** A partition; a name of None is one generated from size and offset. */
  datatype Part = Part(name: Option<string>, size: word, offset: word, ro: bool) {
    /** The offset just behind, in 32 bits. */
    function End(): word {
      (offset + size) % WORD_MOD
    }
  }

  /** Devices are told apart by type and number. */
  predicate SameDevice(a: MtdId, b: MtdId) {
    a.geometry.Nand? == b.geometry.Nand? && a.num == b.num
  }

  /** `part_validate_nor` and `part_validate_nand`. */
  predicate Aligned(id: MtdId, part: Part) {
    match id.geometry
    case Nor(starts, flashSize) =>
      && (exists i :: 0 <= i < |starts| && (starts[i] - starts[0]) % WORD_MOD == part.offset)
      && ((exists i :: 0 <= i < |starts| && (starts[i] - starts[0]) % WORD_MOD == part.End()) || flashSize == part.End())
    case Nand(eraseSize) => eraseSize > 0 && part.offset % eraseSize == 0 && part.size % eraseSize == 0
  }

  predicate Fits(id: MtdId, part: Part) {
    part.offset <= id.size && part.offset < part.End() <= id.size && Aligned(id, part)
  }

  /** `part_validate`, which also resolves the size of a fill-up partition. */
  function PartValidate(id: MtdId, part: Part): Option<Part> {
    var p := if part.size == SIZE_REMAINING then part.(size := (id.size - part.offset) % WORD_MOD) else part;
    if Fits(id, p) then Some(p) else None
  }

  /** Strictly ascending offsets. */
  predicate Ascending(parts: seq<Part>) {
    forall i, j :: 0 <= i < j < |parts| ==> parts[i].offset < parts[j].offset
  }

  /** Where `part_sort_add` puts a partition: before the first one at the same offset or above. */
  function InsertAt(parts: seq<Part>, part: Part): (k: nat)
    ensures k <= |parts|
    ensures forall i :: 0 <= i < k ==> parts[i].offset < part.offset
    ensures k < |parts| ==> part.offset <= parts[k].offset
  {
    if parts == [] || part.offset <= parts[0].offset then 0 else 1 + InsertAt(parts[1..], part)
  }

  /** `part_sort_add` on the list alone; only one partition may start at offset zero. */
  function SortAdd(parts: seq<Part>, part: Part): Option<seq<Part>> {
    var k := InsertAt(parts, part);
    if k < |parts| && parts[k].offset == part.offset == 0 then None
    else Some(With(parts, k, part))
  }

  function SortAddAll(parts: seq<Part>, more: seq<Part>): Option<seq<Part>>
    decreases more
  {
    if more == [] then Some(parts)
    else match SortAdd(parts, more[0])
         case None => None
         case Some(next) => SortAddAll(next, more[1..])
  }

  /** Offsets in order, equal ones allowed. */
  predicate Sorted(parts: seq<Part>) {
    forall i, j :: 0 <= i < j < |parts| ==> parts[i].offset <= parts[j].offset
  }

  /** `list_add_tail` at a position. */
  function With<T>(s: seq<T>, k: nat, x: T): seq<T>
    requires k <= |s|
  {
    s[..k] + [x] + s[k..]
  }

  /** The place found keeps the list sorted. */
  lemma WithSorted(parts: seq<Part>, part: Part)
    requires Sorted(parts)
    ensures Sorted(With(parts, InsertAt(parts, part), part))
  {
    var k := InsertAt(parts, part);
    var r := With(parts, k, part);
    forall i, j | 0 <= i < j < |r|
      ensures r[i].offset <= r[j].offset
    {
      assert i < k ==> r[i] == parts[i];
      assert i > k ==> r[i] == parts[i - 1];
      assert j < k ==> r[j] == parts[j];
      assert j > k ==> r[j] == parts[j - 1];
      assert k < j ==> parts[k].offset <= parts[j - 1].offset;
    }
  }

  lemma WithMultiset<T>(s: seq<T>, k: nat, x: T)
    requires k <= |s|
    ensures multiset(With(s, k, x)) == multiset(s) + multiset{x}
  {
    assert s == s[..k] + s[k..];
  }

  /** Whatever order partitions come in, the list ends up sorted and holds exactly them. */
  lemma {:induction false} SortAddAllSorts(parts: seq<Part>, more: seq<Part>)
    requires Sorted(parts)
    ensures var r := SortAddAll(parts, more);
            r.Some? ==> Sorted(r.value) && multiset(r.value) == multiset(parts) + multiset(more)
    decreases more
  {
    if more != [] && SortAdd(parts, more[0]).Some? {
      var next := With(parts, InsertAt(parts, more[0]), more[0]);
      WithMultiset(parts, InsertAt(parts, more[0]), more[0]);
      WithSorted(parts, more[0]);
      assert more == [more[0]] + more[1..];
      SortAddAllSorts(next, more[1..]);
    }
  }

  /** A list that is already ascending is taken over in order. */
  lemma {:induction false} SortAddAllInOrder(parts: seq<Part>, more: seq<Part>)
    requires Ascending(parts + more)
    ensures SortAddAll(parts, more) == Some(parts + more)
    decreases more
  {
    if more == [] {
      assert parts + more == parts;
    } else {
      var all := parts + more;
      forall i | 0 <= i < |parts|
        ensures parts[i].offset < more[0].offset
      {
        assert all[i].offset < all[|parts|].offset;
      }
      var k := InsertAt(parts, more[0]);
      assert k == |parts|;
      assert With(parts, k, more[0]) == parts + [more[0]];
      assert (parts + [more[0]]) + more[1..] == all;
      SortAddAllInOrder(parts + [more[0]], more[1..]);
    }
  }
}
