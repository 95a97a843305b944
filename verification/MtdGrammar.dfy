/** Which partition text is accepted and what it means, beyond the text that the printer makes. */
module MtdGrammar {
  import opened Common
  import opened MtdSize
  import opened MtdNumbers
  import opened MtdParts
  import opened MtdText

  // ---- one partition

  /** What a definition goes on with behind a number. */
  predicate Continues(rest: string) {
    GoesOn(rest, {'@', '(', 'r', ',', ';'})
  }

  /** A text that stands for a number wherever a definition goes on or ends behind it. */
  ghost predicate ReadsAs(text: string, value: word) {
    text != "" && IsDigit(text[0]) && forall rest :: Continues(rest) ==> MemsizeParse(text + rest) == (value, rest)
  }

  lemma ContinuesEnds(rest: string)
    requires Continues(rest)
    ensures EndsNumber(rest) && (rest == "" || !(rest[0] in "kKmMgG"))
  {
  }

  lemma NumeralStarts(n: Numeral)
    requires ValidNumeral(n)
    ensures NumeralText(n) != "" && IsDigit(NumeralText(n)[0])
  {
    match n
    case Plain(ds) => FirstChar(ds, false, ""); DigitCharValue(ds[0], false); assert NumeralText(n) + "" == NumeralText(n);
    case Octal(_) =>
    case Hex(_, _) =>
  }

  /** Decimal, octal and hexadecimal numbers with a unit are such texts. */
  lemma {:induction false} NumeralReads(n: Numeral, suffix: string)
    requires ValidNumeral(n) && suffix in ["", "k", "K", "m", "M", "g", "G"]
    ensures ReadsAs(NumeralText(n) + suffix, NumeralValue(n) * Unit(suffix) % WORD_MOD)
  {
    NumeralStarts(n);
    forall rest | Continues(rest)
      ensures MemsizeParse((NumeralText(n) + suffix) + rest) == (NumeralValue(n) * Unit(suffix) % WORD_MOD, rest)
    {
      NumeralReadsOn(n, suffix, rest);
    }
  }

  lemma NumeralReadsOn(n: Numeral, suffix: string, rest: string)
    requires ValidNumeral(n) && suffix in ["", "k", "K", "m", "M", "g", "G"] && Continues(rest)
    ensures MemsizeParse((NumeralText(n) + suffix) + rest) == (NumeralValue(n) * Unit(suffix) % WORD_MOD, rest)
  {
    ContinuesEnds(rest);
    MemsizeRead(n, suffix, rest);
    AppendAssociative(NumeralText(n), suffix, rest);
  }

  lemma AppendAssociative(a: string, b: string, c: string)
    ensures (a + b) + c == a + (b + c)
  {
  }

  /** A size: `-` for all that is left, or a number of at least 4096. */
  ghost predicate SizeReads(text: string, size: word) {
    (text == "-" && size == 0xFFFF_FFFF) || (ReadsAs(text, size) && size >= 4096)
  }

  /** An offset behind `@`, or none, which is taken for the largest number. */
  ghost predicate OffsetReads(text: string, offset: word) {
    (text == "" && offset == 0xFFFF_FFFF) || (text != "" && text[0] == '@' && ReadsAs(text[1..], offset))
  }

  lemma SizeIs(text: string, size: word, rest: string)
    requires SizeReads(text, size) && Continues(rest)
    ensures ParseSize(text + rest) == Some((size, rest))
  {
    if text == "-" {
      assert ("-" + rest)[1..] == rest;
    } else {
      assert (text + rest)[0] == text[0];
    }
  }

  lemma OffsetIs(text: string, offset: word, rest: string)
    requires OffsetReads(text, offset) && Continues(rest) && (rest == "" || rest[0] != '@')
    ensures ParseOffset(text + rest) == (offset, rest)
  {
    if text == "" {
      assert text + rest == rest;
    } else {
      assert (text + rest)[1..] == text[1..] + rest && (text + rest)[0] == '@';
    }
  }

  /** A definition in front of `rest` is accepted as what its texts say; behind all that is left nothing may follow. */
  lemma {:induction false} PartReads(sizeText: string, size: word, offsetText: string, offset: word,
                                     name: Option<string>, ro: bool, rest: string)
    requires SizeReads(sizeText, size) && OffsetReads(offsetText, offset)
    requires name.Some? ==> name.value != "" && ')' !in name.value
    requires rest == "" || rest[0] == ',' || rest[0] == ';'
    ensures PartParse(sizeText + (offsetText + ((if name.Some? then "(" + name.value + ")" else "")
                                                + ((if ro then "ro" else "") + rest))))
         == if rest != "" && rest[0] == ',' then
              if size == 0xFFFF_FFFF then None else Some((Part(name, size, offset, ro), rest[1..]))
            else Some((Part(name, size, offset, ro), rest))
  {
    var s3 := PrintRo(ro) + rest;
    var s2 := PrintName(name) + s3;
    RoGoesOn(ro, rest);
    NameGoesOn(name, s3);
    assert Continues(s2);
    assert Continues(offsetText + s2);
    SizeIs(sizeText, size, offsetText + s2);
    OffsetIs(offsetText, offset, s2);
    ParsePrintedName(name, s3);
    ParsePrintedRo(ro, rest);
    TailIs(size, offsetText + s2, offset, name, ro, s2, s3, rest);
  }

  lemma TailIs(size: word, s: string, offset: word, name: Option<string>, ro: bool, s2: string, s3: string, rest: string)
    requires ParseOffset(s) == (offset, s2) && ParseName(s2) == Some((name, s3)) && ParseRo(s3) == (ro, rest)
    ensures ParseTail(size, s) == match ParseSeparator(rest, size)
                                  case None => None
                                  case Some(end) => Some((Part(name, size, offset, ro), end))
  {
  }

  /** A number below 4096 is no size. */
  lemma SmallRejected(text: string, size: word, rest: string)
    requires ReadsAs(text, size) && size < 4096 && Continues(rest)
    ensures PartParse(text + rest) == None
  {
    assert (text + rest)[0] == text[0];
  }

  lemma NameRejected(s: string)
    requires s != "" && s[0] == '(' && (')' !in s[1..] || (|s| > 1 && s[1] == ')'))
    ensures ParseName(s) == None
  {
    if ')' !in s[1..] {
      NotFoundAt(s[1..], ')');
    }
  }

  lemma {:induction false} NotFoundAt(s: string, c: char)
    requires c !in s
    ensures IndexOf(s, c) == |s|
  {
    if s != "" {
      assert s[0] in s;
      NotFoundAt(s[1..], c);
    }
  }

  lemma NameFirst(size: word, s: string, offset: word, s2: string)
    requires ParseOffset(s) == (offset, s2) && ParseName(s2) == None
    ensures ParseTail(size, s) == None
  {
  }

  /** A name must close, and not at once. */
  lemma {:induction false} BadNameRejected(sizeText: string, size: word, offsetText: string, offset: word, s: string)
    requires SizeReads(sizeText, size) && OffsetReads(offsetText, offset)
    requires s != "" && s[0] == '(' && (')' !in s[1..] || (|s| > 1 && s[1] == ')'))
    ensures PartParse(sizeText + (offsetText + s)) == None
  {
    assert Continues(s) && Continues(offsetText + s);
    SizeIs(sizeText, size, offsetText + s);
    OffsetIs(offsetText, offset, s);
    NameRejected(s);
    NameFirst(size, offsetText + s, offset, s);
  }

  /** Behind a name or the flag nothing but a separator may come. */
  lemma {:induction false} JunkRejected(sizeText: string, size: word, offsetText: string, offset: word, name: string,
                                        rest: string)
    requires SizeReads(sizeText, size) && OffsetReads(offsetText, offset) && name != "" && ')' !in name
    requires rest != "" && !(rest[0] in {'r', ',', ';'})
    ensures PartParse(sizeText + (offsetText + (("(" + name + ")") + rest))) == None
    ensures PartParse(sizeText + (offsetText + (("(" + name + ")") + ("ro" + rest)))) == None
  {
    JunkBehind(sizeText, size, offsetText, offset, name, rest, rest, false);
    var s := "ro" + rest;
    assert s[..2] == "ro" && s[2..] == rest;
    JunkBehind(sizeText, size, offsetText, offset, name, s, rest, true);
  }

  lemma JunkBehind(sizeText: string, size: word, offsetText: string, offset: word, name: string, s3: string,
                   rest: string, ro: bool)
    requires SizeReads(sizeText, size) && OffsetReads(offsetText, offset) && name != "" && ')' !in name
    requires s3 != "" && ParseRo(s3) == (ro, rest) && rest != "" && !(rest[0] in {',', ';'})
    ensures PartParse(sizeText + (offsetText + (("(" + name + ")") + s3))) == None
  {
    var s2 := PrintName(Some(name)) + s3;
    assert s2[0] == '(';
    assert Continues(s2) && Continues(offsetText + s2);
    SizeIs(sizeText, size, offsetText + s2);
    OffsetIs(offsetText, offset, s2);
    NamedIs(name, s3);
    TailIs(size, offsetText + s2, offset, Some(name), ro, s2, s3, rest);
  }

  lemma NamedIs(name: string, rest: string)
    requires name != "" && ')' !in name
    ensures ParseName(PrintName(Some(name)) + rest) == Some((Some(name), rest))
  {
    NameText(name, rest);
    var t := name + [')'] + rest;
    IndexOfFirst(name, ')', rest);
    assert t[..|name|] == name && t[|name| + 1..] == rest;
  }

  // ---- validation

  /** Where a partition may begin and end: on NAND at multiples of the erase size, on NOR where sectors begin, or at the
      end of the flash. */
  predicate Bounded(id: MtdId, offset: nat, end: nat) {
    match id.geometry
    case Nand(erase) => erase > 0 && offset % erase == 0 && (end - offset) % erase == 0
    case Nor(starts, flashSize) =>
      && (exists i :: 0 <= i < |starts| && (starts[i] as int - starts[0]) % 0x1_0000_0000 == offset)
      && ((exists i :: 0 <= i < |starts| && (starts[i] as int - starts[0]) % 0x1_0000_0000 == end) || flashSize == end)
  }

  /** The end of a partition that is given with an offset: that of the device when its size is all that is left. */
  function EndOfPart(id: MtdId, part: Part): nat {
    if part.size == 0xFFFF_FFFF then id.size else part.offset + part.size
  }

  predicate Allowed(id: MtdId, part: Part) {
    part.offset < EndOfPart(id, part) <= id.size && Bounded(id, part.offset, EndOfPart(id, part))
  }

  /** A partition is accepted exactly when it is nonempty, inside the device and has allowed bounds; then it is taken
      over as it is, with all that is left of the device for its size if that is asked for. */
  lemma {:induction false} ValidateIff(id: MtdId, part: Part)
    ensures PartValidate(id, part).Some? <==> Allowed(id, part)
    ensures PartValidate(id, part).Some?
            ==> PartValidate(id, part).value == part.(size := EndOfPart(id, part) - part.offset)
  {
    if part.size == 0xFFFF_FFFF {
      FillUpIs(id, part);
    } else {
      FitsIs(id, part);
    }
  }

  lemma FitsIs(id: MtdId, p: Part)
    ensures Fits(id, p) <==> p.offset < p.offset + p.size <= id.size && Bounded(id, p.offset, p.offset + p.size)
  {
    EndIs(p.offset, p.size);
  }

  lemma EndIs(offset: word, size: word)
    ensures (offset + size) % WORD_MOD == if offset + size < WORD_MOD then offset + size else offset + size - WORD_MOD
  {
  }

  lemma Remains(size: word, offset: word)
    ensures (size - offset) % WORD_MOD == if offset <= size then size - offset else size - offset + WORD_MOD
  {
  }

  lemma FillUpIs(id: MtdId, part: Part)
    requires part.size == 0xFFFF_FFFF
    ensures PartValidate(id, part).Some? <==> part.offset < id.size && Bounded(id, part.offset, id.size)
    ensures PartValidate(id, part).Some? ==> PartValidate(id, part).value == part.(size := id.size - part.offset)
  {
    Remains(id.size, part.offset);
    FitsIs(id, part.(size := (id.size - part.offset) % WORD_MOD));
  }

  // ---- the list of a device

  /** A partition as it is written, at a place: an omitted offset is the end of the one before, and `-` all that is left. */
  predicate PlacedAs(id: MtdId, written: Part, before: word, part: Part) {
    && part.name == written.name && part.ro == written.ro
    && part.offset == (if written.offset == 0xFFFF_FFFF then before else written.offset)
    && part.offset + part.size == (if written.size == 0xFFFF_FFFF then id.size else part.offset + written.size)
    && 0 < part.size && part.offset + part.size <= id.size && Bounded(id, part.offset, part.offset + part.size)
  }

  /** The running offset fills in, and the partition is accepted exactly when it fits. */
  lemma {:induction false} PlaceIff(id: MtdId, written: Part, before: word)
    ensures Place(id, written, before).Some? ==> PlacedAs(id, written, before, Place(id, written, before).value)
    ensures Place(id, written, before).Some? <==> Allowed(id, Located(written, before))
  {
    ValidateIff(id, Located(written, before));
  }

  /** An omitted offset is filled in. */
  function Located(written: Part, before: word): Part {
    if written.offset == 0xFFFF_FFFF then written.(offset := before) else written
  }

  /** The definitions that a text consists of, up to the end of the text or a semicolon. */
  predicate WrittenIn(s: string, written: seq<Part>, end: string)
    decreases written
  {
    if written == [] then s == end && (s == "" || s[0] == ';')
    else
      && s != "" && s[0] != ';' && PartParse(s).Some? && PartParse(s).value.0 == written[0]
      && WrittenIn(PartParse(s).value.1, written[1..], end)
  }

  /** Each partition is where its definition places it, behind the one before; only the last may be all that is left. */
  predicate AllPlaced(id: MtdId, written: seq<Part>, before: word, parts: seq<Part>)
    decreases written
  {
    if written == [] then parts == []
    else
      && parts != [] && PlacedAs(id, written[0], before, parts[0])
      && (|written| > 1 ==> written[0].size != 0xFFFF_FFFF)
      && AllPlaced(id, written[1..], (parts[0].offset + parts[0].size) % WORD_MOD, parts[1..])
  }

  lemma FillUpEnds(s: string)
    requires PartParse(s).Some? && PartParse(s).value.0.size == 0xFFFF_FFFF
    ensures PartParse(s).value.1 == "" || PartParse(s).value.1[0] == ';'
  {
  }

  /** Whatever list is accepted, its partitions are those written, each at its place. */
  lemma {:induction false} PartsArePlaced(id: MtdId, s: string, before: word) returns (written: seq<Part>)
    requires PartsParse(id, s, before).Some?
    ensures var (parts, end) := PartsParse(id, s, before).value;
            WrittenIn(s, written, end) && AllPlaced(id, written, before, parts)
    decreases |s|
  {
    if s == "" || s[0] == ';' {
      written := [];
    } else {
      PartParseShrinks(s);
      var (w, rest) := PartParse(s).value;
      PlaceIff(id, w, before);
      var part := Place(id, w, before).value;
      var more := PartsArePlaced(id, rest, part.End());
      written := [w] + more;
      WrittenCons(s, w, rest, more, PartsParse(id, rest, part.End()).value.1);
      if w.size == 0xFFFF_FFFF {
        FillUpEnds(s);
        NothingWritten(rest, more, PartsParse(id, rest, part.End()).value.1);
      }
      PlacedCons(id, w, more, part, before, PartsParse(id, rest, part.End()).value.0);
    }
  }

  lemma WrittenCons(s: string, w: Part, rest: string, more: seq<Part>, end: string)
    requires s != "" && s[0] != ';' && PartParse(s) == Some((w, rest)) && WrittenIn(rest, more, end)
    ensures WrittenIn(s, [w] + more, end)
  {
    assert ([w] + more)[1..] == more;
  }

  lemma NothingWritten(s: string, more: seq<Part>, end: string)
    requires WrittenIn(s, more, end) && (s == "" || s[0] == ';')
    ensures more == []
  {
  }

  lemma PlacedCons(id: MtdId, w: Part, more: seq<Part>, part: Part, before: word, parts: seq<Part>)
    requires PlacedAs(id, w, before, part) && AllPlaced(id, more, part.End(), parts)
    requires w.size == 0xFFFF_FFFF ==> more == []
    ensures AllPlaced(id, [w] + more, before, [part] + parts)
  {
    assert ([w] + more)[1..] == more && ([part] + parts)[1..] == parts;
  }

  lemma PlacedIsPlace(id: MtdId, w: Part, before: word, part: Part)
    requires PlacedAs(id, w, before, part)
    ensures Place(id, w, before) == Some(part)
  {
    var located := Located(w, before);
    PlaceIff(id, w, before);
    assert part == located.(size := EndOfPart(id, located) - located.offset);
    ValidateIff(id, located);
  }

  /** A list is accepted with exactly the partitions that are written, each at its place. */
  lemma {:induction false} PlacedAreParsed(id: MtdId, s: string, before: word, written: seq<Part>, parts: seq<Part>,
                                           end: string)
    requires WrittenIn(s, written, end) && AllPlaced(id, written, before, parts)
    ensures PartsParse(id, s, before) == Some((parts, end))
    decreases written
  {
    if written == [] {
      NoneParsed(id, s, before, parts, end);
    } else {
      var rest := WrittenTail(s, written, end);
      PlacedTail(id, written, before, parts);
      PlacedAreParsed(id, rest, parts[0].End(), written[1..], parts[1..], end);
      PartsStep(id, s, before, written[0], rest, parts, end);
    }
  }

  lemma NoneParsed(id: MtdId, s: string, before: word, parts: seq<Part>, end: string)
    requires WrittenIn(s, [], end) && AllPlaced(id, [], before, parts)
    ensures PartsParse(id, s, before) == Some((parts, end))
  {
  }

  lemma WrittenTail(s: string, written: seq<Part>, end: string) returns (rest: string)
    requires WrittenIn(s, written, end) && written != []
    ensures s != "" && s[0] != ';' && PartParse(s) == Some((written[0], rest)) && WrittenIn(rest, written[1..], end)
  {
    rest := PartParse(s).value.1;
  }

  lemma PlacedTail(id: MtdId, written: seq<Part>, before: word, parts: seq<Part>)
    requires AllPlaced(id, written, before, parts) && written != []
    ensures parts != [] && PlacedAs(id, written[0], before, parts[0])
    ensures AllPlaced(id, written[1..], parts[0].End(), parts[1..])
  {
  }

  lemma PartsStep(id: MtdId, s: string, before: word, w: Part, rest: string, parts: seq<Part>, end: string)
    requires s != "" && s[0] != ';' && PartParse(s) == Some((w, rest)) && parts != [] && PlacedAs(id, w, before, parts[0])
    requires PartsParse(id, rest, parts[0].End()) == Some((parts[1..], end))
    ensures PartsParse(id, s, before) == Some((parts, end))
  {
    PlacedIsPlace(id, w, before, parts[0]);
    StepParsed(id, s, before, w, rest, parts[0], parts[1..], end);
    assert [parts[0]] + parts[1..] == parts;
  }

  lemma StepParsed(id: MtdId, s: string, before: word, w: Part, rest: string, part: Part, more: seq<Part>, end: string)
    requires s != "" && s[0] != ';' && PartParse(s) == Some((w, rest)) && Place(id, w, before) == Some(part)
    requires PartsParse(id, rest, part.End()) == Some((more, end))
    ensures PartsParse(id, s, before) == Some(([part] + more, end))
  {
  }

  // ---- the printed text

  /** The offset is left out exactly where the parser puts the partition without it. */
  lemma {:induction false} OffsetLeftOutIff(id: MtdId, prev: Option<Part>, part: Part)
    requires Fits(id, part) && part.size != 0xFFFF_FFFF
    ensures PrintOffset(prev, part) == ""
       <==> Place(id, part.(offset := 0xFFFF_FFFF), if prev.Some? then prev.value.End() else 0) == Some(part)
  {
    var before := if prev.Some? then prev.value.End() else 0;
    var w := part.(offset := 0xFFFF_FFFF);
    PlaceIff(id, w, before);
    if part.offset == before {
      assert Located(w, before) == part;
      FitsIs(id, part);
    }
  }

  /** A printed table: units, a gap with its offset, a generated name, a read-only flag, and the separators. */
  lemma {:induction false} PrintedTable(a: MtdId, b: MtdId)
    requires a.mtdId == "nor0" && b.mtdId == "nand1"
    ensures PREFIX + PrintDevices(
              [Device(a, [Part(Some("boot"), 0x4_0000, 0, true), Part(None, 0x20_0000, 0x4_0000, false)]),
               Device(b, [Part(Some("data"), 0x1001, 0x1_0000, false)])])
         == "mtdparts=" + ("nor0:256k(boot)ro,2m" + ";" + "nand1:4097@64k(data)")
  {
    var p, q, r := Part(Some("boot"), 0x4_0000, 0, true), Part(None, 0x20_0000, 0x4_0000, false),
                   Part(Some("data"), 0x1001, 0x1_0000, false);
    PrintedFirst(a, p, q);
    PrintedSecond(b, r);
    TwoDevices(Device(a, [p, q]), Device(b, [r]));
  }

  lemma TwoDevices(a: Device, b: Device)
    ensures PrintDevices([a, b]) == PrintDevice(a) + ";" + PrintDevice(b)
  {
    assert PrintDevices([b][1..]) == "" && PrintDevice(b) + "" + "" == PrintDevice(b);
    assert [a, b][1..] == [b];
    assert PrintDevices([b]) == PrintDevice(b);
  }

  lemma PrintedFirst(a: MtdId, p: Part, q: Part)
    requires a.mtdId == "nor0"
    requires p == Part(Some("boot"), 0x4_0000, 0, true) && q == Part(None, 0x20_0000, 0x4_0000, false)
    ensures PrintDevice(Device(a, [p, q])) == "nor0:256k(boot)ro,2m"
  {
    PrintedBoot();
    PrintedRest();
    PrintedPair(p, q);
  }

  lemma PrintedSecond(b: MtdId, r: Part)
    requires b.mtdId == "nand1" && r == Part(Some("data"), 0x1001, 0x1_0000, false)
    ensures PrintDevice(Device(b, [r])) == "nand1:4097@64k(data)"
  {
    PrintedData();
    PrintedOne(r);
  }

  lemma PrintedPair(p: Part, q: Part)
    ensures PrintParts(None, [p, q]) == PrintPart(None, p) + "," + PrintPart(Some(p), q)
  {
    assert PrintParts(Some(q), [q][1..]) == "" && [p, q][1..] == [q];
    assert PrintParts(Some(p), [q]) == PrintPart(Some(p), q);
  }

  lemma PrintedOne(p: Part)
    ensures PrintParts(None, [p]) == PrintPart(None, p)
  {
    assert [p][1..] == [];
  }

  lemma PrintedBoot()
    ensures PrintPart(None, Part(Some("boot"), 0x4_0000, 0, true)) == "256k(boot)ro"
  {
    FormatUnit(0x4_0000);
    assert Decimal(256) == "256";
  }

  lemma PrintedRest()
    ensures PrintPart(Some(Part(Some("boot"), 0x4_0000, 0, true)), Part(None, 0x20_0000, 0x4_0000, false)) == "2m"
  {
    FormatUnit(0x20_0000);
  }

  lemma PrintedData()
    ensures PrintPart(None, Part(Some("data"), 0x1001, 0x1_0000, false)) == "4097@64k(data)"
  {
    FormatUnit(0x1001);
    FormatUnit(0x1_0000);
    assert Decimal(64) == "64";
    assert Decimal(40) == "40" && Decimal(409) == "409" && Decimal(4097) == "4097";
  }

  // ---- devices and tables

  /** A device needs a colon, a known name in front of it and a partition behind it. */
  lemma {:induction false} DeviceRejected(ids: seq<MtdId>, devs: seq<Device>, name: string, text: string)
    ensures ':' !in text ==> DeviceParse(ids, devs, text) == None
    ensures ':' !in name && (forall id :: id in ids ==> id.mtdId != name)
            ==> DeviceParse(ids, devs, name + [':'] + text) == None
    ensures ':' !in name && (text == "" || text[0] == ';') ==> DeviceParse(ids, devs, name + [':'] + text) == None
  {
    if ':' !in text {
      NotFoundAt(text, ':');
    }
    if ':' !in name {
      CutAt(name, ':', text);
      if forall id :: id in ids ==> id.mtdId != name {
        UnknownId(ids, name);
      }
    }
  }

  lemma {:induction false} UnknownId(ids: seq<MtdId>, name: string)
    requires forall id :: id in ids ==> id.mtdId != name
    ensures FindId(ids, name) == None
  {
    if ids != [] {
      assert ids[0] in ids;
      UnknownId(ids[1..], name);
    }
  }

  /** An accepted device has exactly the partitions written, each at its place, and then sorted by their offsets. */
  lemma {:induction false} DevicePlaced(ids: seq<MtdId>, devs: seq<Device>, s: string)
      returns (written: seq<Part>, parts: seq<Part>, end: string)
    requires DeviceParse(ids, devs, s).Some?
    ensures var (dev, rest) := DeviceParse(ids, devs, s).value;
            && dev.id.mtdId + ":" <= s && WrittenIn(s[|dev.id.mtdId| + 1..], written, end)
            && AllPlaced(dev.id, written, StartOffset(devs, dev.id), parts)
            && multiset(dev.parts) == multiset(parts)
            && rest == if end == "" then "" else end[1..]
  {
    var id, text := DeviceCut(ids, devs, s);
    written := PartsArePlaced(id, text, StartOffset(devs, id));
    parts, end := SortedFrom(id, text, StartOffset(devs, id));
  }

  lemma DeviceCut(ids: seq<MtdId>, devs: seq<Device>, s: string) returns (id: MtdId, text: string)
    requires DeviceParse(ids, devs, s).Some?
    ensures s == id.mtdId + ":" + text && s[|id.mtdId| + 1..] == text
    ensures DeviceParse(ids, devs, s) == DeviceOf(id, PartsParse(id, text, StartOffset(devs, id)))
  {
    var k := IndexOf(s, ':');
    FindIdNames(ids, s[..k]);
    id, text := FindId(ids, s[..k]).value, s[k + 1..];
    CutColon(s, k);
  }

  lemma CutColon(s: string, k: nat)
    requires k < |s| && s[k] == ':'
    ensures s == s[..k] + ":" + s[k + 1..]
  {
  }

  lemma SortedFrom(id: MtdId, text: string, before: word) returns (parts: seq<Part>, end: string)
    requires DeviceOf(id, PartsParse(id, text, before)).Some?
    ensures PartsParse(id, text, before) == Some((parts, end))
    ensures var (dev, rest) := DeviceOf(id, PartsParse(id, text, before)).value;
            dev.id == id && multiset(dev.parts) == multiset(parts) && rest == if end == "" then "" else end[1..]
  {
    parts, end := PartsParse(id, text, before).value.0, PartsParse(id, text, before).value.1;
    SortAddAllSorts([], parts);
  }

  /** A table needs its prefix and a device behind it, and may define none twice. */
  lemma TableRejected(ids: seq<MtdId>, devs: seq<Device>, s: string)
    ensures !("mtdparts=" <= s) || s == "mtdparts=" ==> ParseTable(ids, s) == None
    ensures s != "" && DeviceParse(ids, devs, s).Some? && FindDevice(devs, DeviceParse(ids, devs, s).value.0.id).Some?
            ==> ParseDevices(ids, devs, s) == None
  {
  }
}
