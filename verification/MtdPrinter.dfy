/** `generate_mtdparts` on memory: what it writes, and how far. */
module MtdPrinter {
  import opened Common
  import opened MtdSize
  import opened MtdParts
  import opened MtdText

  const MTDPARTS_MAXLEN: word := 512

  // ---- the pieces of the text; each is written whole or not at all

  function PartItems(prev: Option<Part>, part: Part, more: bool): seq<string> {
    [MemsizeFormat(part.size), PrintOffset(prev, part), PrintName(part.name), PrintRo(part.ro), Separator(',', more)]
  }

  function PartsItems(prev: Option<Part>, parts: seq<Part>): seq<string>
    decreases parts
  {
    if parts == [] then []
    else PartItems(prev, parts[0], |parts| > 1) + PartsItems(Some(parts[0]), parts[1..])
  }

  function DeviceItems(dev: Device, more: bool): seq<string> {
    [dev.id.mtdId + ":"] + PartsItems(None, dev.parts) + [Separator(';', more)]
  }

  function DevicesItems(devs: seq<Device>): seq<string> {
    if devs == [] then [] else DeviceItems(devs[0], |devs| > 1) + DevicesItems(devs[1..])
  }

  function Flat(items: seq<string>): string {
    if items == [] then "" else items[0] + Flat(items[1..])
  }

  lemma {:induction false} FlatConcat(a: seq<string>, b: seq<string>)
    ensures Flat(a + b) == Flat(a) + Flat(b)
  {
    if a == [] {
      assert a + b == b;
    } else {
      assert (a + b)[1..] == a[1..] + b;
      FlatConcat(a[1..], b);
    }
  }

  lemma FlatOne(item: string)
    ensures Flat([item]) == item
  {
    assert [item][1..] == [] && item + "" == item;
  }

  lemma FlatCons(item: string, rest: seq<string>)
    ensures Flat([item] + rest) == item + Flat(rest)
  {
    assert ([item] + rest)[1..] == rest;
  }

  lemma FlatFour(a: string, b: string, c: string, d: string, rest: seq<string>)
    ensures Flat([a, b, c, d] + rest) == a + b + c + d + Flat(rest)
  {
    var cd := [c] + ([d] + rest);
    assert [a, b, c, d] + rest == [a] + ([b] + cd);
    FlatCons(d, rest);
    FlatCons(c, [d] + rest);
    FlatCons(b, cd);
    FlatCons(a, [b] + cd);
  }

  lemma FlatPart(prev: Option<Part>, part: Part, more: bool)
    ensures Flat(PartItems(prev, part, more)) == PrintPart(prev, part) + Separator(',', more)
  {
    var ro, name, offset, size := PrintRo(part.ro), PrintName(part.name), PrintOffset(prev, part), MemsizeFormat(part.size);
    assert PartItems(prev, part, more) == [size, offset, name, ro] + [Separator(',', more)];
    FlatFour(size, offset, name, ro, [Separator(',', more)]);
    FlatOne(Separator(',', more));
  }

  lemma {:induction false} FlatParts(prev: Option<Part>, parts: seq<Part>)
    ensures Flat(PartsItems(prev, parts)) == PrintParts(prev, parts)
    decreases parts
  {
    if parts != [] {
      FlatPart(prev, parts[0], |parts| > 1);
      FlatParts(Some(parts[0]), parts[1..]);
      FlatConcat(PartItems(prev, parts[0], |parts| > 1), PartsItems(Some(parts[0]), parts[1..]));
    }
  }

  lemma FlatDevice(dev: Device, more: bool)
    ensures Flat(DeviceItems(dev, more)) == PrintDevice(dev) + Separator(';', more)
  {
    FlatOne(dev.id.mtdId + ":");
    FlatOne(Separator(';', more));
    FlatParts(None, dev.parts);
    FlatConcat([dev.id.mtdId + ":"], PartsItems(None, dev.parts));
    FlatConcat([dev.id.mtdId + ":"] + PartsItems(None, dev.parts), [Separator(';', more)]);
  }

  /** The pieces are the text. */
  lemma {:induction false} FlatDevices(devs: seq<Device>)
    ensures Flat(DevicesItems(devs)) == PrintDevices(devs)
  {
    if devs != [] {
      FlatDevice(devs[0], |devs| > 1);
      FlatDevices(devs[1..]);
      FlatConcat(DeviceItems(devs[0], |devs| > 1), DevicesItems(devs[1..]));
    }
  }

  // ---- writing

  type Memory = map<int, char>

  /** `text` stored from an address on. */
  function Store(mem: Memory, at: int, text: string): Memory {
    if text == "" then mem else Store(mem, at, text[..|text| - 1])[at + |text| - 1 := text[|text| - 1]]
  }

  /** Memory, the pointer and the room believed to be left. */
  datatype Output = Output(mem: Memory, p: int, maxlen: nat)

  function PutItem(o: Output, item: string): Output
    requires |item| <= o.maxlen
  {
    Output(Store(o.mem, o.p, item), o.p + |item|, o.maxlen - |item|)
  }

  /** Pieces in turn, up to the first that is longer than the room. */
  function PutItems(o: Output, items: seq<string>): (Output, bool)
    decreases items
  {
    if items == [] then (o, true)
    else if |items[0]| > o.maxlen then (o, false)
    else PutItems(PutItem(o, items[0]), items[1..])
  }

  lemma {:induction false} PutItemsConcat(o: Output, a: seq<string>, b: seq<string>)
    ensures PutItems(o, a + b)
         == if PutItems(o, a).1 then PutItems(PutItems(o, a).0, b) else PutItems(o, a)
    decreases a
  {
    if a == [] {
      assert a + b == b;
    } else if |a[0]| <= o.maxlen {
      assert (a + b)[1..] == a[1..] + b;
      PutItemsConcat(PutItem(o, a[0]), a[1..], b);
    }
  }

  lemma PutOne(o: Output, item: string)
    ensures PutItems(o, [item]) == if |item| <= o.maxlen then (PutItem(o, item), true) else (o, false)
  {
    assert [item][1..] == [];
  }

  /** The text of the pieces that are written. */
  function Fitting(items: seq<string>, room: nat): string {
    if items == [] || |items[0]| > room then "" else items[0] + Fitting(items[1..], room - |items[0]|)
  }

  lemma {:induction false} FittingFits(items: seq<string>, room: nat)
    ensures |Fitting(items, room)| <= room && Fitting(items, room) <= Flat(items)
    ensures |Flat(items)| <= room ==> Fitting(items, room) == Flat(items)
  {
    if items != [] && |items[0]| <= room {
      FittingFits(items[1..], room - |items[0]|);
    }
  }

  lemma {:induction false} StoreConcat(mem: Memory, at: int, a: string, b: string)
    ensures Store(Store(mem, at, a), at + |a|, b) == Store(mem, at, a + b)
  {
    if b == "" {
      assert a + b == a;
    } else {
      assert (a + b)[..|a + b| - 1] == a + b[..|b| - 1];
      StoreConcat(mem, at, a, b[..|b| - 1]);
    }
  }

  /** What is written is what fits; all of it is written exactly when the whole is not longer than the room. */
  lemma {:induction false} PutItemsFits(o: Output, items: seq<string>)
    ensures var w := Fitting(items, o.maxlen);
            |w| <= o.maxlen
            && PutItems(o, items) == (Output(Store(o.mem, o.p, w), o.p + |w|, o.maxlen - |w|), |Flat(items)| <= o.maxlen)
    decreases items
  {
    FittingFits(items, o.maxlen);
    if items != [] && |items[0]| <= o.maxlen {
      PutItemsFits(PutItem(o, items[0]), items[1..]);
      StoreConcat(o.mem, o.p, items[0], Fitting(items[1..], o.maxlen - |items[0]|));
    }
  }

  // ---- generate_mtdparts

  /** After `sprintf` of the prefix, whose nine characters are not taken off the room. */
  function Begun(mem: Memory, buf: int, buflen: word): Output {
    Output(Store(mem, buf, PREFIX + ['\0']), buf + |PREFIX|, (buflen - 1) % WORD_MOD)
  }

  /** Memory and success after `generate_mtdparts`, with `last_parts` as the buffer, as in both calls. */
  function Generated(mem: Memory, buf: int, buflen: word, devs: seq<Device>): (Memory, bool) {
    if devs == [] then (mem[buf := '\0'], true)
    else
      var (o, ok) := PutItems(Begun(mem, buf, buflen), DevicesItems(devs));
      (Ended(o, buf, ok), ok)
  }

  /** A NUL at the pointer, or on a failure at the start. */
  function Ended(o: Output, buf: int, ok: bool): Memory {
    if ok then o.mem[o.p := '\0'] else o.mem[buf := '\0']
  }

  /** What is written of the text of a table. */
  function Fits(buflen: word, devs: seq<Device>): string
    requires buflen > 0
  {
    Fitting(DevicesItems(devs), buflen - 1)
  }

  /** The length of what is written: the prefix and at least a NUL behind it, or what fits, and a NUL behind the whole. */
  function Reach(buflen: word, devs: seq<Device>): nat
    requires buflen > 0
  {
    if devs == [] then 1
    else |PREFIX| + if |PrintDevices(devs)| < buflen then |PrintDevices(devs)| + 1 else Max(1, |Fits(buflen, devs)|)
  }

  function Max(a: nat, b: nat): nat {
    if a < b then b else a
  }

  lemma {:induction false} StoreAt(mem: Memory, at: int, text: string, a: int)
    ensures at <= a < at + |text| ==> a in Store(mem, at, text) && Store(mem, at, text)[a] == text[a - at]
    ensures !(at <= a < at + |text|) ==> Peek(Store(mem, at, text), a) == Peek(mem, a)
  {
    if text != "" {
      StoreAt(mem, at, text[..|text| - 1], a);
    }
  }

  /** The character at an address, if anything was ever there. */
  function Peek(mem: Memory, a: int): Option<char> {
    if a in mem then Some(mem[a]) else None
  }

  /** Memory with the prefix, the text `w` behind it, and a NUL behind that or at the start. */
  function Filled(mem: Memory, buf: int, w: string, ok: bool): Memory {
    var start := buf + |PREFIX|;
    Ended(Output(Store(Store(mem, buf, PREFIX + ['\0']), start, w), start + |w|, 0), buf, ok)
  }

  lemma FilledAt(mem: Memory, buf: int, w: string, ok: bool, a: int)
    ensures var m, length := Filled(mem, buf, w, ok), |PREFIX| + if ok then |w| + 1 else Max(1, |w|);
            && (if buf <= a < buf + length then a in m else Peek(m, a) == Peek(mem, a))
            && (ok && buf <= a < buf + length ==> m[a] == (PREFIX + w + ['\0'])[a - buf])
            && (!ok ==> Peek(m, buf) == Some('\0'))
  {
    var start := PREFIX + ['\0'];
    StoreAt(mem, buf, start, a);
    StoreAt(Store(mem, buf, start), buf + |PREFIX|, w, a);
  }

  lemma GeneratedFits(mem: Memory, buf: int, buflen: word, devs: seq<Device>)
    requires buflen > 0 && devs != []
    ensures var ok := |PrintDevices(devs)| < buflen;
            && Generated(mem, buf, buflen, devs) == (Filled(mem, buf, Fits(buflen, devs), ok), ok)
            && (ok ==> Fits(buflen, devs) == PrintDevices(devs))
  {
    FlatDevices(devs);
    FittingFits(DevicesItems(devs), buflen - 1);
    BegunPuts(mem, buf, buflen, DevicesItems(devs));
  }

  lemma BegunPuts(mem: Memory, buf: int, buflen: word, items: seq<string>)
    requires buflen > 0
    ensures var w, ok := Fitting(items, buflen - 1), |Flat(items)| < buflen;
            var (o, done) := PutItems(Begun(mem, buf, buflen), items);
            done == ok && Ended(o, buf, done) == Filled(mem, buf, w, ok)
  {
    PutItemsFits(Begun(mem, buf, buflen), items);
  }

  /** What the caller finds: the whole text and a NUL, or the empty string. */
  function TextOf(devs: seq<Device>): string {
    (if devs == [] then "" else PREFIX + PrintDevices(devs)) + ['\0']
  }

  /** It succeeds exactly when the text without its prefix is shorter than the buffer, and then leaves the whole text
      and a NUL; otherwise it leaves the empty string. */
  lemma {:induction false} GenerateResult(mem: Memory, buf: int, buflen: word, devs: seq<Device>, i: nat)
    requires buflen > 0
    ensures var (m, ok) := Generated(mem, buf, buflen, devs);
            && (ok <==> devs == [] || |PrintDevices(devs)| < buflen)
            && (ok && i < |TextOf(devs)| ==> Peek(m, buf + i) == Some(TextOf(devs)[i]))
            && (!ok ==> Peek(m, buf) == Some('\0'))
  {
    if devs != [] {
      GeneratedFits(mem, buf, buflen, devs);
      FilledText(mem, buf, Fits(buflen, devs), |PrintDevices(devs)| < buflen, PREFIX + Fits(buflen, devs) + ['\0'], i);
    }
  }

  lemma FilledText(mem: Memory, buf: int, w: string, ok: bool, text: string, i: nat)
    requires text == PREFIX + w + ['\0']
    ensures ok && i < |text| ==> Peek(Filled(mem, buf, w, ok), buf + i) == Some(text[i])
    ensures !ok ==> Peek(Filled(mem, buf, w, ok), buf) == Some('\0')
  {
    FilledAt(mem, buf, w, ok, buf + i);
  }

  /** Exactly the addresses up to `Reach` are written. */
  lemma {:induction false} GenerateWrites(mem: Memory, buf: int, buflen: word, devs: seq<Device>, a: int)
    requires buflen > 0
    ensures var m := Generated(mem, buf, buflen, devs).0;
            if buf <= a < buf + Reach(buflen, devs) then a in m else Peek(m, a) == Peek(mem, a)
  {
    if devs != [] {
      GeneratedFits(mem, buf, buflen, devs);
      FilledAt(mem, buf, Fits(buflen, devs), |PrintDevices(devs)| < buflen, a);
    }
  }

  /** Nothing at or behind the end of the buffer differs. */
  ghost predicate Spared(mem: Memory, m: Memory, end: int) {
    forall a :: a >= end ==> Peek(m, a) == Peek(mem, a)
  }

  /** The memory behind the buffer is spared, whatever it holds, exactly when the reach is within the buffer. */
  lemma {:induction false} SparedIff(buf: int, buflen: word, devs: seq<Device>)
    requires buflen > 0
    ensures (forall mem: Memory :: Spared(mem, Generated(mem, buf, buflen, devs).0, buf + buflen))
       <==> Reach(buflen, devs) <= buflen
  {
    if Reach(buflen, devs) <= buflen {
      forall mem: Memory, a | a >= buf + buflen
        ensures Peek(Generated(mem, buf, buflen, devs).0, a) == Peek(mem, a)
      {
        GenerateWrites(mem, buf, buflen, devs, a);
      }
    } else {
      var mem: Memory, a := map[], buf + buflen;
      GenerateWrites(mem, buf, buflen, devs, a);
      assert Peek(Generated(mem, buf, buflen, devs).0, a) != Peek(mem, a);
      assert !Spared(mem, Generated(mem, buf, buflen, devs).0, buf + buflen);
    }
  }

  /** For a success that is when the text with its prefix is shorter than the buffer. */
  lemma ReachOfSuccess(buflen: word, devs: seq<Device>)
    requires buflen > 0 && devs != [] && |PrintDevices(devs)| < buflen
    ensures Reach(buflen, devs) <= buflen <==> |PREFIX| + |PrintDevices(devs)| < buflen
  {
  }

  /** Up to eight characters behind the buffer are written when a later piece is too long, up to nine otherwise. */
  lemma ReachBound(buflen: word, devs: seq<Device>)
    requires buflen > 0
    ensures Reach(buflen, devs) <= buflen + 9
    ensures devs != [] && buflen > 1 && |PrintDevices(devs)| >= buflen ==> Reach(buflen, devs) <= buflen + 8
  {
    FittingFits(DevicesItems(devs), buflen - 1);
  }

  // ---- tables whose text is too long

  function Xs(n: nat): string {
    seq(n, _ => 'x')
  }

  const CHIP := MtdId(0, 8192, "a", Nand(4096))

  /** One partition of 4096 bytes with a name of `n` characters. */
  function LongNamed(n: nat): seq<Device> {
    [Device(CHIP, [Part(Some(Xs(n)), 4096, 0, false)])]
  }

  /** Another one behind it, with a name that fits no buffer. */
  function TwoNamed(n: nat): seq<Device> {
    [Device(CHIP, [Part(Some(Xs(n)), 4096, 0, false), Part(Some(Xs(MTDPARTS_MAXLEN)), 4096, 4096, true)])]
  }

  lemma Format4k()
    ensures MemsizeFormat(4096) == "4k"
  {
  }

  /** A valid table, with the names that the text can carry. */
  lemma LongNamedValid(n: nat)
    requires n > 0
    ensures ValidTable([CHIP], LongNamed(n)) && AllLarge(LongNamed(n))
  {
    var dev := LongNamed(n)[0];
    assert Aligned(CHIP, dev.parts[0]);
  }

  lemma LongNamedText(n: nat)
    ensures PrintDevices(LongNamed(n)) == ("a:" + "4k" + "(" + Xs(n) + ")") && |PrintDevices(LongNamed(n))| == n + 6
  {
    Format4k();
    var dev := LongNamed(n)[0];
    assert dev.parts[1..] == [] && LongNamed(n)[1..] == [];
    assert PrintPart(None, dev.parts[0]) == "4k" + "" + ("(" + Xs(n) + ")") + "";
    assert PrintParts(None, dev.parts) == PrintPart(None, dev.parts[0]) + "" + "";
    assert PrintDevices(LongNamed(n)) == PrintDevice(dev) + "" + "";
  }

  /** With both callers' buffer, a valid table whose text has 503 to 511 characters is accepted, and its end is written
      behind the buffer. */
  lemma AcceptedBehind(n: nat)
    requires 497 <= n <= 505
    ensures ValidTable([CHIP], LongNamed(n)) && 503 <= |PrintDevices(LongNamed(n))| <= 511
    ensures Generated(map[], 0, MTDPARTS_MAXLEN, LongNamed(n)).1 && Reach(MTDPARTS_MAXLEN, LongNamed(n)) == n + 16
    ensures !Spared(map[], Generated(map[], 0, MTDPARTS_MAXLEN, LongNamed(n)).0, MTDPARTS_MAXLEN)
  {
    LongNamedValid(n);
    LongNamedText(n);
    GenerateResult(map[], 0, MTDPARTS_MAXLEN, LongNamed(n), 0);
    GenerateWrites(map[], 0, MTDPARTS_MAXLEN, LongNamed(n), MTDPARTS_MAXLEN);
    assert Peek(Generated(map[], 0, MTDPARTS_MAXLEN, LongNamed(n)).0, MTDPARTS_MAXLEN) != Peek(map[], MTDPARTS_MAXLEN);
  }

  /** The pieces of a table up to one that is too long. */
  lemma {:induction false} FittingSplit(a: seq<string>, item: string, b: seq<string>, room: nat)
    requires |Flat(a)| <= room < |Flat(a)| + |item|
    ensures Fitting(a + [item] + b, room) == Flat(a)
    decreases a
  {
    if a == [] {
      assert a + [item] + b == [item] + b;
    } else {
      assert (a + [item] + b)[1..] == a[1..] + [item] + b;
      FittingSplit(a[1..], item, b, room - |a[0]|);
    }
  }

  lemma TwoNamedItems(n: nat) returns (a: seq<string>, b: seq<string>)
    ensures DevicesItems(TwoNamed(n)) == a + [PrintName(TwoNamed(n)[0].parts[1].name)] + b
    ensures Flat(a) == "a:" + ("4k" + ("(" + Xs(n) + ")" + ("," + "4k"))) && |Flat(a)| == n + 9
  {
    Format4k();
    var dev, parts := TwoNamed(n)[0], TwoNamed(n)[0].parts;
    a := ["a:", "4k", "", "(" + Xs(n) + ")", "", ",", "4k", ""];
    b := ["ro", "", ""];
    assert parts[1..] == [parts[1]] && parts[1..][1..] == [];
    assert PartItems(Some(parts[0]), parts[1], false) == ["4k", "", PrintName(parts[1].name), "ro", ""];
    assert PartItems(None, parts[0], true) == ["4k", "", "(" + Xs(n) + ")", "", ","];
    assert PartsItems(Some(parts[0]), [parts[1]]) == PartItems(Some(parts[0]), parts[1], false) + [];
    assert PartsItems(None, parts) == PartItems(None, parts[0], true) + PartsItems(Some(parts[0]), [parts[1]]);
    assert TwoNamed(n)[1..] == [];
    assert dev.id.mtdId + ":" == "a:";
    assert DeviceItems(dev, false) == ["a:"] + PartsItems(None, parts) + [""];
    assert DevicesItems(TwoNamed(n)) == DeviceItems(dev, false) + [];
    FlatTwo("a:", "4k", "(" + Xs(n) + ")", ",", "4k");
  }

  lemma FlatTwo(a: string, b: string, c: string, d: string, e: string)
    ensures Flat([a, b, "", c, "", d, e, ""]) == a + (b + (c + (d + e)))
  {
    assert [a, b, "", c, "", d, e, ""] == [a, b, "", c] + ["", d, e, ""];
    assert ["", d, e, ""] == ["", d, e, ""] + [];
    FlatFour(a, b, "", c, ["", d, e, ""]);
    FlatFour("", d, e, "", []);
    Regrouped(a, b, c, d, e);
  }

  lemma Regrouped(a: string, b: string, c: string, d: string, e: string)
    ensures a + b + "" + c + ("" + d + e + "" + "") == a + (b + (c + (d + e)))
  {
  }

  /** A table that is refused for a later piece has been written behind the buffer all the same. */
  lemma RefusedBehind(n: nat)
    requires 495 <= n <= 502
    ensures !Generated(map[], 0, MTDPARTS_MAXLEN, TwoNamed(n)).1 && Reach(MTDPARTS_MAXLEN, TwoNamed(n)) == n + 18
    ensures !Spared(map[], Generated(map[], 0, MTDPARTS_MAXLEN, TwoNamed(n)).0, MTDPARTS_MAXLEN)
  {
    var a, b := TwoNamedItems(n);
    var name := PrintName(TwoNamed(n)[0].parts[1].name);
    FittingSplit(a, name, b, MTDPARTS_MAXLEN - 1);
    FlatDevices(TwoNamed(n));
    FlatConcat(a + [name], b);
    FlatConcat(a, [name]);
    FlatOne(name);
    GenerateResult(map[], 0, MTDPARTS_MAXLEN, TwoNamed(n), 0);
    GenerateWrites(map[], 0, MTDPARTS_MAXLEN, TwoNamed(n), MTDPARTS_MAXLEN);
    assert Peek(Generated(map[], 0, MTDPARTS_MAXLEN, TwoNamed(n)).0, MTDPARTS_MAXLEN) != Peek(map[], MTDPARTS_MAXLEN);
  }

  // ---- the routine

  /** `generate_mtdparts` with its pointer and `maxlen`; memory goes on behind the buffer. */
  class Printer {
    var mem: Memory
    var p: int
    var maxlen: nat

    constructor (mem: Memory)
      ensures this.mem == mem
    {
      this.mem, p, maxlen := mem, 0, 0;
    }

    ghost function Out(): Output
      reads this
    {
      Output(mem, p, maxlen)
    }

    /** `memcpy` at the pointer, which moves behind the text. */
    method Copy(text: string)
      modifies `mem, `p
      ensures mem == Store(old(mem), old(p), text) && p == old(p) + |text|
    {
      var i := 0;
      while i < |text|
        invariant 0 <= i <= |text| && p == old(p) + i
        invariant mem == Store(old(mem), old(p), text[..i])
      {
        mem := mem[p := text[i]];
        p := p + 1;
        i := i + 1;
        assert text[..i][..i - 1] == text[..i - 1];
      }
      assert text[..i] == text;
    }

    /** Copies `text` when it is not longer than the room. */
    method Put(text: string) returns (ok: bool)
      modifies this
      ensures (Out(), ok) == PutItems(old(Out()), [text])
    {
      PutOne(Out(), text);
      ok := |text| <= maxlen;
      if ok {
        maxlen := maxlen - |text|;
        Copy(text);
      }
    }

    /** One partition of a device, with its separator. */
    method PutPart(prev: Option<Part>, part: Part, more: bool) returns (ok: bool)
      modifies this
      ensures (Out(), ok) == PutItems(old(Out()), PartItems(prev, part, more))
    {
      ghost var o := Out();
      ghost var size, offset, name := MemsizeFormat(part.size), PrintOffset(prev, part), PrintName(part.name);
      ghost var ro, sep := PrintRo(part.ro), Separator(',', more);
      assert PartItems(prev, part, more) == [size] + [offset] + [name] + [ro] + [sep];
      PutItemsConcat(o, [size], [offset]);
      PutItemsConcat(o, [size] + [offset], [name]);
      PutItemsConcat(o, [size] + [offset] + [name], [ro]);
      PutItemsConcat(o, [size] + [offset] + [name] + [ro], [sep]);
      ok := Put(MemsizeFormat(part.size));
      if !ok { return; }
      ok := Put(PrintOffset(prev, part));
      if !ok { return; }
      ok := Put(PrintName(part.name));
      if !ok { return; }
      ok := Put(PrintRo(part.ro));
      if !ok { return; }
      ok := Put(Separator(',', more));
    }

    /** One turn of the partition loop. */
    method PutPartAt(prev: Option<Part>, parts: seq<Part>, i: nat) returns (ok: bool)
      requires i < |parts|
      modifies this
      ensures PutItems(old(Out()), PartsItems(prev, parts[i..]))
           == if ok then PutItems(Out(), PartsItems(Some(parts[i]), parts[i + 1..])) else (Out(), false)
    {
      PartsAt(prev, parts, i);
      PutItemsConcat(Out(), PartItems(prev, parts[i], |parts| > i + 1), PartsItems(Some(parts[i]), parts[i + 1..]));
      ok := PutPart(prev, parts[i], |parts| > i + 1);
    }

    /** The partitions of a device. */
    method PutParts(parts: seq<Part>) returns (ok: bool)
      modifies this
      ensures (Out(), ok) == PutItems(old(Out()), PartsItems(None, parts))
    {
      var prev, i := None, 0;
      while i < |parts|
        invariant 0 <= i <= |parts|
        invariant PutItems(Out(), PartsItems(prev, parts[i..])) == PutItems(old(Out()), PartsItems(None, parts))
      {
        ok := PutPartAt(prev, parts, i);
        if !ok { return; }
        prev := Some(parts[i]);
        i := i + 1;
      }
      ok := true;
    }

    /** A device with its partitions, and the separator. */
    method PutDevice(dev: Device, more: bool) returns (ok: bool)
      modifies this
      ensures (Out(), ok) == PutItems(old(Out()), DeviceItems(dev, more))
    {
      ghost var o := Out();
      PutItemsConcat(o, [dev.id.mtdId + ":"], PartsItems(None, dev.parts));
      PutItemsConcat(o, [dev.id.mtdId + ":"] + PartsItems(None, dev.parts), [Separator(';', more)]);
      ok := Put(dev.id.mtdId + ":");
      if !ok { return; }
      ok := PutParts(dev.parts);
      if !ok { return; }
      ok := Put(Separator(';', more));
    }

    /** One turn of the device loop. */
    method PutDeviceAt(devices: seq<Device>, i: nat) returns (ok: bool)
      requires i < |devices|
      modifies this
      ensures PutItems(old(Out()), DevicesItems(devices[i..]))
           == if ok then PutItems(Out(), DevicesItems(devices[i + 1..])) else (Out(), false)
    {
      assert devices[i..][1..] == devices[i + 1..];
      PutItemsConcat(Out(), DeviceItems(devices[i], |devices| > i + 1), DevicesItems(devices[i + 1..]));
      ok := PutDevice(devices[i], |devices| > i + 1);
    }

    /** The devices, after the prefix. */
    method PutDevices(devices: seq<Device>) returns (ok: bool)
      modifies this
      ensures (Out(), ok) == PutItems(old(Out()), DevicesItems(devices))
    {
      var i := 0;
      assert devices[i..] == devices;
      while i < |devices|
        invariant 0 <= i <= |devices|
        invariant PutItems(Out(), DevicesItems(devices[i..])) == PutItems(old(Out()), DevicesItems(devices))
      {
        ok := PutDeviceAt(devices, i);
        if !ok { return; }
        i := i + 1;
      }
      ok := true;
    }

    /** `generate_mtdparts`. */
    method Generate(buf: int, buflen: word, devices: seq<Device>) returns (ok: bool)
      modifies this
      ensures (mem, ok) == Generated(old(mem), buf, buflen, devices)
    {
      p, maxlen := buf, (buflen - 1) % WORD_MOD;
      if devices == [] {
        mem := mem[buf := '\0'];
        return true;
      }
      Copy(PREFIX + ['\0']);
      p := p - 1;
      ok := PutDevices(devices);
      mem := mem[if ok then p else buf := '\0'];
    }
  }

  lemma PartsAt(prev: Option<Part>, parts: seq<Part>, i: nat)
    requires i < |parts|
    ensures PartsItems(prev, parts[i..])
         == PartItems(prev, parts[i], |parts| > i + 1) + PartsItems(Some(parts[i]), parts[i + 1..])
  {
    assert parts[i..][1..] == parts[i + 1..];
  }
}
