/** The `mtdparts` text: its parser (`part_parse`, `device_parse`, `parse_mtdparts`) and its printer
    (`generate_mtdparts`) as functions, and that parsing undoes printing. */
module MtdText {
  import opened Common
  import opened MtdSize
  import opened MtdParts

  datatype Device = Device(id: MtdId, parts: seq<Part>)

  const PREFIX := "mtdparts="

  // ---- parser

  /** `strchr`: the index of the first `c`, or the length. */
  function IndexOf(s: string, c: char): (k: nat)
    ensures k <= |s| && c !in s[..k] && (k < |s| ==> s[k] == c)
  {
    if s == "" || s[0] == c then 0 else 1 + IndexOf(s[1..], c)
  }

  /** `<size>` or `-`. */
  function ParseSize(s: string): Option<(word, string)> {
    if s != "" && s[0] == '-' then Some((SIZE_REMAINING, s[1..]))
    else
      var (size, rest) := MemsizeParse(s);
      if size < MIN_PART_SIZE then None else Some((size, rest))
  }

  /** `[@<offset>]`. */
  function ParseOffset(s: string): (word, string) {
    if s != "" && s[0] == '@' then MemsizeParse(s[1..]) else (OFFSET_NOT_SPECIFIED, s)
  }

  /** `[(<name>)]`; an opening parenthesis must close, and not at once. */
  function ParseName(s: string): Option<(Option<string>, string)> {
    if s == "" || s[0] != '(' then Some((None, s))
    else
      var k := IndexOf(s[1..], ')');
      if k == |s[1..]| || k == 0 then None else Some((Some(s[1..][..k]), s[1..][k + 1..]))
  }

  /** `[ro]`. */
  function ParseRo(s: string): (bool, string) {
    if |s| >= 2 && s[..2] == "ro" then (true, s[2..]) else (false, s)
  }

  /** The separator after a partition of the given size. */
  function ParseSeparator(s: string, size: word): Option<string> {
    if s == "" || s[0] == ';' then Some(s)
    else if s[0] == ',' && size != SIZE_REMAINING then Some(s[1..])
    else None
  }

  /** Everything of a partition definition behind its size. */
  function ParseTail(size: word, s: string): Option<(Part, string)> {
    var (offset, s2) := ParseOffset(s);
    match ParseName(s2)
    case None => None
    case Some((name, s3)) =>
      var (ro, s4) := ParseRo(s3);
      match ParseSeparator(s4, size)
      case None => None
      case Some(rest) => Some((Part(name, size, offset, ro), rest))
  }

  /** `part_parse`. */
  function PartParse(s: string): Option<(Part, string)> {
    match ParseSize(s)
    case None => None
    case Some((size, rest)) => ParseTail(size, rest)
  }

  lemma {:induction false} DigitsShrink(s: string, radix: nat, result: word)
    requires radix <= 16
    ensures |Digits(s, radix, result).1| <= |s|
    ensures |Digits(s, radix, result).1| == |s| ==> Digits(s, radix, result).0 == result
  {
    if s != "" && DigitValue(s[0]) < radix {
      DigitsShrink(s[1..], radix, (result * radix + DigitValue(s[0])) % WORD_MOD);
    }
  }

  lemma MemsizeShrinks(s: string)
    ensures |MemsizeParse(s).1| <= |s|
    ensures MemsizeParse(s).0 > 0 ==> |MemsizeParse(s).1| < |s|
  {
    DigitsShrink(s, 10, 0);
    if |s| > 0 {
      DigitsShrink(s[1..], 8, 0);
      if |s| > 2 {
        DigitsShrink(s[2..], 16, 0);
      }
    }
  }

  lemma ParseTailShrinks(size: word, s: string)
    ensures ParseTail(size, s).Some? ==> |ParseTail(size, s).value.1| <= |s|
  {
    if s != "" {
      MemsizeShrinks(s[1..]);
    }
    assert |ParseOffset(s).1| <= |s|;
  }

  lemma PartParseShrinks(s: string)
    ensures PartParse(s).Some? ==> |PartParse(s).value.1| < |s|
  {
    MemsizeShrinks(s);
    if ParseSize(s).Some? {
      ParseTailShrinks(ParseSize(s).value.0, ParseSize(s).value.1);
    }
  }

  /** A parsed partition with its offset filled in from the running one and then validated. */
  function Place(id: MtdId, part: Part, offset: word): Option<Part> {
    PartValidate(id, if part.offset == OFFSET_NOT_SPECIFIED then part.(offset := offset) else part)
  }

  /** The partition loop of `device_parse`. */
  function PartsParse(id: MtdId, s: string, offset: word): Option<(seq<Part>, string)>
    decreases |s|
  {
    if s == "" || s[0] == ';' then Some(([], s))
    else
      PartParseShrinks(s);
      match PartParse(s)
      case None => None
      case Some((parsed, rest)) =>
        match Place(id, parsed, offset)
        case None => None
        case Some(part) =>
          match PartsParse(id, rest, part.End())
          case None => None
          case Some((parts, end)) => Some(([part] + parts, end))
  }

  /** `id_find_by_mtd_id`. */
  function FindId(ids: seq<MtdId>, name: string): Option<MtdId> {
    if ids == [] then None else if ids[0].mtdId == name then Some(ids[0]) else FindId(ids[1..], name)
  }

  lemma {:induction false} FindIdNames(ids: seq<MtdId>, name: string)
    ensures FindId(ids, name).Some? ==> FindId(ids, name).value.mtdId == name
  {
    if ids != [] {
      FindIdNames(ids[1..], name);
    }
  }

  /** `device_find`. */
  function FindDevice(devs: seq<Device>, id: MtdId): Option<Device> {
    if devs == [] then None else if SameDevice(devs[0].id, id) then Some(devs[0]) else FindDevice(devs[1..], id)
  }

  /** Partitions of a device that exists already continue behind its last one. */
  function StartOffset(devs: seq<Device>, id: MtdId): word {
    match FindDevice(devs, id)
    case None => 0
    case Some(dev) => if dev.parts == [] then 0 else dev.parts[|dev.parts| - 1].End()
  }

  /** `device_parse`, with the text behind the device and its separator. */
  function DeviceParse(ids: seq<MtdId>, devs: seq<Device>, s: string): Option<(Device, string)> {
    var k := IndexOf(s, ':');
    if k == |s| then None
    else match FindId(ids, s[..k])
         case None => None
         case Some(id) => DeviceOf(id, PartsParse(id, s[k + 1..], StartOffset(devs, id)))
  }

  /** A device from its parsed partitions, which are sorted in. */
  function DeviceOf(id: MtdId, parsed: Option<(seq<Part>, string)>): Option<(Device, string)> {
    match parsed
    case None => None
    case Some((parts, end)) =>
      if parts == [] then None
      else match SortAddAll([], parts)
           case None => None
           case Some(sorted) => Some((Device(id, sorted), if end == "" then end else end[1..]))
  }

  lemma {:induction false} PartsParseShrinks(id: MtdId, s: string, offset: word)
    ensures PartsParse(id, s, offset).Some? ==> |PartsParse(id, s, offset).value.1| <= |s|
    decreases |s|
  {
    PartParseShrinks(s);
    if s != "" && s[0] != ';' && PartParse(s).Some? {
      var (parsed, rest) := PartParse(s).value;
      if Place(id, parsed, offset).Some? {
        PartsParseShrinks(id, rest, Place(id, parsed, offset).value.End());
      }
    }
  }

  lemma DeviceParseShrinks(ids: seq<MtdId>, devs: seq<Device>, s: string)
    ensures DeviceParse(ids, devs, s).Some? ==> |DeviceParse(ids, devs, s).value.1| < |s|
  {
    var k := IndexOf(s, ':');
    if k < |s| && FindId(ids, s[..k]).Some? {
      var id := FindId(ids, s[..k]).value;
      PartsParseShrinks(id, s[k + 1..], StartOffset(devs, id));
    }
  }

  /** The device loop of `parse_mtdparts`: a device may not be defined twice. */
  function ParseDevices(ids: seq<MtdId>, devs: seq<Device>, s: string): Option<seq<Device>>
    decreases |s|
  {
    if s == "" then Some(devs)
    else
      DeviceParseShrinks(ids, devs, s);
      match DeviceParse(ids, devs, s)
      case None => None
      case Some((dev, rest)) =>
        if FindDevice(devs, dev.id).Some? then None else ParseDevices(ids, devs + [dev], rest)
  }

  /** `parse_mtdparts`. */
  function ParseTable(ids: seq<MtdId>, s: string): Option<seq<Device>> {
    if PREFIX <= s && |s| > |PREFIX| then ParseDevices(ids, [], s[|PREFIX|..]) else None
  }

  lemma {:induction false} PartsParseFits(id: MtdId, s: string, offset: word)
    ensures var r := PartsParse(id, s, offset); r.Some? ==> forall p :: p in r.value.0 ==> Fits(id, p)
    decreases |s|
  {
    PartParseShrinks(s);
    if s != "" && s[0] != ';' && PartParse(s).Some? {
      var (parsed, rest) := PartParse(s).value;
      if Place(id, parsed, offset).Some? {
        PartsParseFits(id, rest, Place(id, parsed, offset).value.End());
      }
    }
  }

  /** Whatever text is accepted, the device has a sorted list of validated partitions. */
  lemma DeviceParseSorted(ids: seq<MtdId>, devs: seq<Device>, s: string)
    requires DeviceParse(ids, devs, s).Some?
    ensures var dev := DeviceParse(ids, devs, s).value.0;
            dev.parts != [] && Sorted(dev.parts) && forall p :: p in dev.parts ==> Fits(dev.id, p)
  {
    var dev := DeviceParse(ids, devs, s).value.0;
    var text := s[IndexOf(s, ':') + 1..];
    var parts := PartsParse(dev.id, text, StartOffset(devs, dev.id)).value.0;
    PartsParseFits(dev.id, text, StartOffset(devs, dev.id));
    SortAddAllSorts([], parts);
    assert multiset(dev.parts) == multiset(parts);
    forall p | p in dev.parts
      ensures p in parts
    {
      assert p in multiset(dev.parts);
    }
    assert |multiset(dev.parts)| == |multiset(parts)|;
  }

  // ---- printer

  /** The offset is printed only when there is a gap before the partition. */
  predicate NeedsOffset(prev: Option<Part>, part: Part) {
    part.offset != if prev.Some? then prev.value.End() else 0
  }

  /** The separator printed between the first item of a list and the others. */
  function Separator(sep: char, more: bool): string {
    if more then [sep] else ""
  }

  function PrintName(name: Option<string>): string {
    if name.Some? then "(" + name.value + ")" else ""
  }

  function PrintRo(ro: bool): string {
    if ro then "ro" else ""
  }

  function PrintOffset(prev: Option<Part>, part: Part): string {
    if NeedsOffset(prev, part) then "@" + MemsizeFormat(part.offset) else ""
  }

  function PrintPart(prev: Option<Part>, part: Part): string {
    MemsizeFormat(part.size) + PrintOffset(prev, part) + PrintName(part.name) + PrintRo(part.ro)
  }

  function PrintParts(prev: Option<Part>, parts: seq<Part>): string
    decreases parts
  {
    if parts == [] then ""
    else PrintPart(prev, parts[0]) + Separator(',', |parts| > 1) + PrintParts(Some(parts[0]), parts[1..])
  }

  function PrintDevice(dev: Device): string {
    dev.id.mtdId + ":" + PrintParts(None, dev.parts)
  }

  function PrintDevices(devs: seq<Device>): string {
    if devs == [] then ""
    else PrintDevice(devs[0]) + Separator(';', |devs| > 1) + PrintDevices(devs[1..])
  }

  // ---- parsing undoes printing

  /** A name the text can carry. */
  predicate PrintableName(name: Option<string>) {
    name.Some? ==> name.value != "" && ')' !in name.value
  }

  predicate AllLarge(devs: seq<Device>) {
    forall dev :: dev in devs ==> LargeEnough(dev.parts)
  }

  predicate AllValid(ids: seq<MtdId>, devs: seq<Device>) {
    forall dev :: dev in devs ==> ValidDevice(ids, dev)
  }

  /** A partition in the table: validated, and not of the size that means "all the rest". */
  predicate ValidPart(id: MtdId, part: Part) {
    Fits(id, part) && part.size != SIZE_REMAINING && PrintableName(part.name)
  }

  predicate LargeEnough(parts: seq<Part>) {
    forall p :: p in parts ==> p.size >= MIN_PART_SIZE
  }

  predicate ValidDevice(ids: seq<MtdId>, dev: Device) {
    && dev.parts != [] && Ascending(dev.parts) && (forall p :: p in dev.parts ==> ValidPart(dev.id, p))
    && FindId(ids, dev.id.mtdId) == Some(dev.id) && ':' !in dev.id.mtdId
  }

  predicate ValidTable(ids: seq<MtdId>, devs: seq<Device>) {
    devs != [] && AllValid(ids, devs) && Distinct(devs)
  }

  /** What may follow a printed partition. */
  predicate Follows(rest: string) {
    rest == "" || rest[0] == ',' || rest[0] == ';'
  }

  lemma {:induction false} IndexOfFirst(a: string, c: char, b: string)
    requires c !in a
    ensures IndexOf(a + [c] + b, c) == |a|
  {
    if a != "" {
      assert a[0] in a;
      assert (a + [c] + b)[1..] == a[1..] + [c] + b;
      IndexOfFirst(a[1..], c, b);
    }
  }

  lemma ParsePrintedName(name: Option<string>, rest: string)
    requires PrintableName(name) && (rest == "" || rest[0] != '(')
    ensures ParseName(PrintName(name) + rest) == Some((name, rest))
  {
    if name.Some? {
      NameText(name.value, rest);
      var t := name.value + [')'] + rest;
      IndexOfFirst(name.value, ')', rest);
      assert t[..|name.value|] == name.value && t[|name.value| + 1..] == rest;
    } else {
      assert PrintName(name) + rest == rest;
    }
  }

  lemma NameText(name: string, rest: string)
    ensures var s := PrintName(Some(name)) + rest; s[0] == '(' && s[1..] == name + [')'] + rest
  {
  }

  lemma ParsePrintedRo(ro: bool, rest: string)
    requires Follows(rest)
    ensures ParseRo(PrintRo(ro) + rest) == (ro, rest)
  {
    var s := PrintRo(ro) + rest;
    if ro {
      assert s[..2] == "ro" && s[2..] == rest;
    } else {
      assert s == rest;
      if |s| >= 2 {
        assert s[..2][0] == s[0] != "ro"[0];
      }
    }
  }

  lemma ParsePrintedOffset(prev: Option<Part>, part: Part, rest: string)
    requires Ends(rest) && (rest == "" || rest[0] != '@')
    ensures ParseOffset(PrintOffset(prev, part) + rest)
         == (if NeedsOffset(prev, part) then part.offset else OFFSET_NOT_SPECIFIED, rest)
  {
    var s := PrintOffset(prev, part) + rest;
    if NeedsOffset(prev, part) {
      assert s[1..] == MemsizeFormat(part.offset) + rest;
      FormatThenParse(part.offset, rest);
    } else {
      assert s == rest;
    }
  }

  lemma ParsePrintedSize(size: word, rest: string)
    requires Ends(rest)
    ensures ParseSize(MemsizeFormat(size) + rest) == if size < MIN_PART_SIZE then None else Some((size, rest))
  {
    FormatThenParse(size, rest);
    FormatStarts(size);
  }

  /** The text is empty or goes on with one of `chars`. */
  predicate GoesOn(s: string, chars: set<char>) {
    s == "" || s[0] in chars
  }

  lemma RoGoesOn(ro: bool, rest: string)
    requires Follows(rest)
    ensures GoesOn(PrintRo(ro) + rest, {'r', ',', ';'})
  {
  }

  lemma NameGoesOn(name: Option<string>, rest: string)
    requires GoesOn(rest, {'r', ',', ';'})
    ensures GoesOn(PrintName(name) + rest, {'(', 'r', ',', ';'})
  {
  }

  lemma OffsetGoesOn(prev: Option<Part>, part: Part, rest: string)
    requires GoesOn(rest, {'(', 'r', ',', ';'})
    ensures GoesOn(PrintOffset(prev, part) + rest, {'@', '(', 'r', ',', ';'})
  {
  }

  /** None of what may follow an offset, a name or a size is taken for more of it. */
  lemma TailStarts(prev: Option<Part>, part: Part, s2: string, s3: string, rest: string)
    requires Follows(rest) && s3 == PrintRo(part.ro) + rest && s2 == PrintName(part.name) + s3
    ensures s3 == "" || s3[0] != '('
    ensures Ends(s2) && (s2 == "" || s2[0] != '@')
    ensures Ends(PrintOffset(prev, part) + s2)
  {
    RoGoesOn(part.ro, rest);
    NameGoesOn(part.name, s3);
    OffsetGoesOn(prev, part, s2);
  }

  lemma ParseTailSteps(size: word, s: string, part: Part, s2: string, s3: string, s4: string, rest: string)
    requires ParseOffset(s) == (part.offset, s2) && ParseName(s2) == Some((part.name, s3))
    requires ParseRo(s3) == (part.ro, s4) && ParseSeparator(s4, size) == Some(rest) && part.size == size
    ensures ParseTail(size, s) == Some((part, rest))
  {
  }

  /** A partition as its text gives it: an omitted offset is "not specified". */
  function Written(prev: Option<Part>, part: Part): Part {
    part.(offset := if NeedsOffset(prev, part) then part.offset else OFFSET_NOT_SPECIFIED)
  }

  /** The text behind a partition and its separator. */
  function Behind(rest: string): string {
    if rest != "" && rest[0] == ',' then rest[1..] else rest
  }

  lemma ParsePrintedTail(prev: Option<Part>, part: Part, s2: string, s3: string, rest: string)
    requires part.size != SIZE_REMAINING && PrintableName(part.name) && Follows(rest)
    requires s3 == PrintRo(part.ro) + rest && s2 == PrintName(part.name) + s3
    ensures ParseTail(part.size, PrintOffset(prev, part) + s2) == Some((Written(prev, part), Behind(rest)))
  {
    TailStarts(prev, part, s2, s3, rest);
    ParsePrintedOffset(prev, part, s2);
    ParsePrintedName(part.name, s3);
    ParsePrintedRo(part.ro, rest);
    assert ParseSeparator(rest, part.size) == Some(Behind(rest));
    ParseTailSteps(part.size, PrintOffset(prev, part) + s2, Written(prev, part), s2, s3, rest, Behind(rest));
  }

  lemma PartParseSteps(s: string, size: word, tail: string)
    requires ParseSize(s) == if size < MIN_PART_SIZE then None else Some((size, tail))
    ensures PartParse(s) == if size < MIN_PART_SIZE then None else ParseTail(size, tail)
  {
  }

  /** A printed partition parses back; what it omits comes out as "not specified". */
  lemma {:induction false} ParsePrintedPart(prev: Option<Part>, part: Part, rest: string)
    requires part.size != SIZE_REMAINING && PrintableName(part.name) && Follows(rest)
    ensures PartParse(PrintPart(prev, part) + rest)
         == if part.size < MIN_PART_SIZE then None else Some((Written(prev, part), Behind(rest)))
  {
    var s3 := PrintRo(part.ro) + rest;
    var s2 := PrintName(part.name) + s3;
    var tail := PrintOffset(prev, part) + s2;
    PartText(MemsizeFormat(part.size), PrintOffset(prev, part), PrintName(part.name), PrintRo(part.ro), rest);
    TailStarts(prev, part, s2, s3, rest);
    ParsePrintedSize(part.size, tail);
    PartParseSteps(MemsizeFormat(part.size) + tail, part.size, tail);
    ParsePrintedTail(prev, part, s2, s3, rest);
  }

  lemma PartText(size: string, offset: string, name: string, ro: string, rest: string)
    ensures (size + offset + name + ro) + rest == size + (offset + (name + (ro + rest)))
  {
  }

  /** The running offset that a partition printed behind `prev` is parsed with. */
  function Running(prev: Option<Part>): word {
    if prev.Some? then prev.value.End() else 0
  }

  /** The parser fills an omitted offset in as it was. */
  lemma PlaceWritten(id: MtdId, prev: Option<Part>, part: Part)
    requires ValidPart(id, part)
    ensures Place(id, Written(prev, part), Running(prev)) == Some(part)
  {
    assert part.offset != OFFSET_NOT_SPECIFIED;
  }

  lemma PartsParseStep(id: MtdId, s: string, offset: word, parsed: Part, rest: string, part: Part)
    requires s != "" && s[0] != ';' && PartParse(s) == Some((parsed, rest)) && Place(id, parsed, offset) == Some(part)
    ensures PartsParse(id, s, offset)
         == match PartsParse(id, rest, part.End())
            case None => None
            case Some((parts, end)) => Some(([part] + parts, end))
  {
  }

  lemma PrintPartStarts(prev: Option<Part>, part: Part)
    ensures PrintPart(prev, part) != "" && IsDigit(PrintPart(prev, part)[0])
  {
    FormatStarts(part.size);
  }

  lemma Regroup(a: string, sep: string, b: string, rest: string)
    ensures (a + sep + b) + rest == a + (sep + (b + rest))
  {
  }

  /** The text of a list, cut behind its first partition. */
  lemma PrintPartsCons(prev: Option<Part>, parts: seq<Part>, rest: string) returns (tail: string)
    requires parts != [] && (rest == "" || rest[0] == ';')
    ensures PrintParts(prev, parts) + rest == PrintPart(prev, parts[0]) + tail
    ensures Follows(tail) && Behind(tail) == PrintParts(Some(parts[0]), parts[1..]) + rest
  {
    var more := PrintParts(Some(parts[0]), parts[1..]);
    var sep := Separator(',', |parts| > 1);
    tail := sep + (more + rest);
    Regroup(PrintPart(prev, parts[0]), sep, more, rest);
    if |parts| > 1 {
      assert tail[1..] == more + rest;
    } else {
      assert parts[1..] == [];
      assert tail == rest;
    }
  }

  /** The first partition of a printed list is parsed, and the rest with its end as the running offset. */
  lemma ParsePrintedFirst(id: MtdId, prev: Option<Part>, parts: seq<Part>, rest: string)
    requires parts != [] && ValidPart(id, parts[0]) && (rest == "" || rest[0] == ';')
    ensures PartsParse(id, PrintParts(prev, parts) + rest, Running(prev))
         == if parts[0].size < MIN_PART_SIZE then None
            else match PartsParse(id, PrintParts(Some(parts[0]), parts[1..]) + rest, parts[0].End())
                 case None => None
                 case Some((more, end)) => Some(([parts[0]] + more, end))
  {
    var s, part := PrintParts(prev, parts) + rest, parts[0];
    var tail := PrintPartsCons(prev, parts, rest);
    PrintPartStarts(prev, part);
    assert s[0] == PrintPart(prev, part)[0];
    ParsePrintedPart(prev, part, tail);
    if part.size >= MIN_PART_SIZE {
      PlaceWritten(id, prev, part);
      PartsParseStep(id, s, Running(prev), Written(prev, part), Behind(tail), part);
    }
  }

  /** A printed list parses back in order, unless one of its partitions is too small to be read. */
  lemma {:induction false} ParsePrintedParts(id: MtdId, prev: Option<Part>, parts: seq<Part>, rest: string)
    requires forall p :: p in parts ==> ValidPart(id, p)
    requires rest == "" || rest[0] == ';'
    ensures PartsParse(id, PrintParts(prev, parts) + rest, Running(prev))
         == if LargeEnough(parts) then Some((parts, rest)) else None
    decreases parts
  {
    if parts == [] {
      assert PrintParts(prev, parts) + rest == rest;
    } else {
      var part, more := parts[0], parts[1..];
      assert part in parts && parts == [part] + more;
      assert LargeEnough(parts) <==> part.size >= MIN_PART_SIZE && LargeEnough(more);
      ParsePrintedFirst(id, prev, parts, rest);
      if part.size >= MIN_PART_SIZE {
        ParsePrintedParts(id, Some(part), more, rest);
      }
    }
  }

  lemma {:induction false} FindNone(devs: seq<Device>, id: MtdId)
    requires forall d :: d in devs ==> !SameDevice(d.id, id)
    ensures FindDevice(devs, id) == None
  {
    if devs != [] {
      assert devs[0] in devs;
      FindNone(devs[1..], id);
    }
  }

  lemma DeviceParseStep(ids: seq<MtdId>, devs: seq<Device>, s: string, id: MtdId, text: string,
                        r: Option<(seq<Part>, string)>)
    requires var k := IndexOf(s, ':'); k < |s| && FindId(ids, s[..k]) == Some(id) && s[k + 1..] == text
    requires PartsParse(id, text, StartOffset(devs, id)) == r
    requires r.Some? ==> r.value.0 != [] && Ascending(r.value.0)
    ensures DeviceParse(ids, devs, s)
         == if r.Some? then Some((Device(id, r.value.0), if r.value.1 == "" then "" else r.value.1[1..])) else None
  {
    DeviceOfSorted(id, r);
  }

  lemma DeviceOfSorted(id: MtdId, r: Option<(seq<Part>, string)>)
    requires r.Some? ==> r.value.0 != [] && Ascending(r.value.0)
    ensures DeviceOf(id, r)
         == if r.Some? then Some((Device(id, r.value.0), if r.value.1 == "" then "" else r.value.1[1..])) else None
  {
    if r.Some? {
      assert [] + r.value.0 == r.value.0;
      SortAddAllInOrder([], r.value.0);
    }
  }

  lemma CutAt(a: string, c: char, b: string)
    requires c !in a
    ensures var s := a + [c] + b; IndexOf(s, c) == |a| && s[..|a|] == a && s[|a| + 1..] == b
  {
    IndexOfFirst(a, c, b);
  }

  lemma PrintDeviceCut(dev: Device, rest: string, text: string)
    requires ':' !in dev.id.mtdId && text == PrintParts(None, dev.parts) + rest
    ensures var s := PrintDevice(dev) + rest; var k := IndexOf(s, ':');
            k < |s| && s[..k] == dev.id.mtdId && s[k + 1..] == text
  {
    assert PrintDevice(dev) + rest == dev.id.mtdId + [':'] + text;
    CutAt(dev.id.mtdId, ':', text);
  }

  lemma {:induction false} ParsePrintedDevice(ids: seq<MtdId>, devs: seq<Device>, dev: Device, rest: string)
    requires ValidDevice(ids, dev) && FindDevice(devs, dev.id) == None
    requires rest == "" || rest[0] == ';'
    ensures DeviceParse(ids, devs, PrintDevice(dev) + rest)
         == if LargeEnough(dev.parts) then Some((dev, if rest == "" then rest else rest[1..])) else None
  {
    var text := PrintParts(None, dev.parts) + rest;
    PrintDeviceCut(dev, rest, text);
    ParsePrintedParts(dev.id, None, dev.parts, rest);
    DeviceParseStep(ids, devs, PrintDevice(dev) + rest, dev.id, text, PartsParse(dev.id, text, 0));
  }

  lemma ParseDevicesStep(ids: seq<MtdId>, devs: seq<Device>, s: string, dev: Device, rest: string)
    requires s != "" && DeviceParse(ids, devs, s) == Some((dev, rest)) && FindDevice(devs, dev.id) == None
    ensures ParseDevices(ids, devs, s) == ParseDevices(ids, devs + [dev], rest)
  {
  }

  predicate Distinct(devs: seq<Device>) {
    forall i, j :: 0 <= i < j < |devs| ==> !SameDevice(devs[i].id, devs[j].id)
  }

  lemma DistinctNotFound(done: seq<Device>, devs: seq<Device>)
    requires devs != [] && Distinct(done + devs)
    ensures FindDevice(done, devs[0].id) == None
  {
    forall d | d in done
      ensures !SameDevice(d.id, devs[0].id)
    {
      var i :| 0 <= i < |done| && done[i] == d;
      assert (done + devs)[i] == d && (done + devs)[|done|] == devs[0];
    }
    FindNone(done, devs[0].id);
  }

  /** The text of a table, cut behind its first device. */
  lemma PrintDevicesCons(devs: seq<Device>) returns (tail: string)
    requires devs != []
    ensures PrintDevices(devs) == PrintDevice(devs[0]) + tail
    ensures tail == "" || tail[0] == ';'
    ensures (if tail == "" then tail else tail[1..]) == PrintDevices(devs[1..])
  {
    var sep, rest := Separator(';', |devs| > 1), PrintDevices(devs[1..]);
    tail := sep + rest;
    assert PrintDevices(devs) == (PrintDevice(devs[0]) + sep) + rest;
    if |devs| == 1 {
      assert devs[1..] == [];
    } else {
      assert tail[1..] == rest;
    }
  }

  lemma AllCons(ids: seq<MtdId>, dev: Device, devs: seq<Device>)
    ensures AllLarge([dev] + devs) <==> LargeEnough(dev.parts) && AllLarge(devs)
    ensures AllValid(ids, [dev] + devs) <==> ValidDevice(ids, dev) && AllValid(ids, devs)
  {
    assert dev in [dev] + devs && forall d :: d in devs ==> d in [dev] + devs;
  }

  lemma {:induction false} ParsePrintedDevices(ids: seq<MtdId>, done: seq<Device>, devs: seq<Device>)
    requires AllValid(ids, devs) && Distinct(done + devs)
    ensures ParseDevices(ids, done, PrintDevices(devs)) == if AllLarge(devs) then Some(done + devs) else None
    decreases devs
  {
    if devs == [] {
      assert done + devs == done;
    } else {
      var dev, more := devs[0], devs[1..];
      assert devs == [dev] + more && done + devs == (done + [dev]) + more;
      AllCons(ids, dev, more);
      DistinctNotFound(done, devs);
      var tail := PrintDevicesCons(devs);
      ParsePrintedDevice(ids, done, dev, tail);
      if LargeEnough(dev.parts) {
        ParseDevicesStep(ids, done, PrintDevices(devs), dev, PrintDevices(more));
        ParsePrintedDevices(ids, done + [dev], more);
      }
    }
  }

  /** Main result: printing a table and parsing the text gives the table back, with its order, sizes, offsets (also
      those left out where partitions abut), user names and read-only flags, exactly when every partition has at
      least the minimum size; otherwise the text is rejected. */
  lemma {:induction false} PrintThenParse(ids: seq<MtdId>, devs: seq<Device>)
    requires ValidTable(ids, devs)
    ensures ParseTable(ids, PREFIX + PrintDevices(devs))
         == if AllLarge(devs) then Some(devs) else None
  {
    var s := PREFIX + PrintDevices(devs);
    assert s[|PREFIX|..] == PrintDevices(devs);
    assert |PrintDevices(devs)| > 0;
    assert [] + devs == devs;
    ParsePrintedDevices(ids, [], devs);
  }
}
