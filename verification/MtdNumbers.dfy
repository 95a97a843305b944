/** What the numbers in partition text mean: decimal, octal and hexadecimal, with units, in 32 bits. */
module MtdNumbers {
  import opened Common
  import opened Arithmetic
  import opened MtdSize

  /** A digit below 16, in either case. */
  function DigitChar(d: nat, upper: bool): char
    requires d < 16
  {
    if d < 10 then "0123456789"[d] else if upper then "ABCDEF"[d - 10] else "abcdef"[d - 10]
  }

  predicate AreDigits(ds: seq<nat>, radix: nat) {
    forall i :: 0 <= i < |ds| ==> ds[i] < radix
  }

  function DigitText(ds: seq<nat>, upper: bool): string
    requires AreDigits(ds, 16)
  {
    if ds == [] then "" else [DigitChar(ds[0], upper)] + DigitText(ds[1..], upper)
  }

  /** The number that digits stand for, behind `first` in front of them. */
  function Value(ds: seq<nat>, radix: nat, first: nat): nat {
    if ds == [] then first else Value(ds[1..], radix, first * radix + ds[0])
  }

  lemma DigitCharValue(d: nat, upper: bool)
    requires d < 16
    ensures DigitValue(DigitChar(d, upper)) == d
    ensures IsDigit(DigitChar(d, upper)) <==> d < 10
    ensures DigitChar(d, upper) == '0' <==> d == 0
    ensures DigitChar(d, upper) != 'x'
  {
  }

  lemma Multiple(x: nat, k: nat, d: nat)
    requires d > 0
    ensures (x + k * d) % d == x % d
  {
    DivMod(x, d);
    assert (x / d + k) * d == x / d * d + k * d;
    Remainder(x / d + k, x % d, d);
  }

  /** The digit loop drops whole multiples of 2^32, which does not matter to the next digit. */
  lemma WrapDigit(first: nat, radix: nat, d: nat)
    ensures (first % WORD_MOD * radix + d) % WORD_MOD == (first * radix + d) % WORD_MOD
  {
    var q, r := first / WORD_MOD, first % WORD_MOD;
    DivMod(first, WORD_MOD);
    assert first * radix + d == r * radix + d + q * radix * WORD_MOD;
    Multiple(r * radix + d, q * radix, WORD_MOD);
  }

  lemma TextCons(c: char, text: string, rest: string)
    ensures ([c] + text) + rest == [c] + (text + rest)
  {
  }

  /** One digit read. */
  lemma StepRead(c: char, text: string, radix: nat, r: word, next: word)
    requires radix <= 16 && DigitValue(c) < radix && next == (r * radix + DigitValue(c)) % WORD_MOD
    ensures Digits([c] + text, radix, r) == Digits(text, radix, next)
  {
    assert ([c] + text)[1..] == text && ([c] + text)[0] == c;
  }

  lemma ValueStep(ds: seq<nat>, radix: nat, first: nat, next: nat)
    requires ds != [] && next == first * radix + ds[0]
    ensures Value(ds, radix, first) == Value(ds[1..], radix, next)
  {
  }

  lemma DigitsStep(ds: seq<nat>, upper: bool, radix: nat, first: nat, next: nat, rest: string)
    requires radix <= 16 && ds != [] && AreDigits(ds, radix) && next == first * radix + ds[0]
    ensures AreDigits(ds, 16) && AreDigits(ds[1..], 16)
    ensures Digits(DigitText(ds, upper) + rest, radix, first % WORD_MOD)
         == Digits(DigitText(ds[1..], upper) + rest, radix, next % WORD_MOD)
  {
    var c := DigitsSplit(ds, upper, rest);
    var r: word, r': word := first % WORD_MOD, next % WORD_MOD;
    WrapDigit(first, radix, ds[0]);
    Carry(c, DigitText(ds, upper) + rest, DigitText(ds[1..], upper) + rest, radix, r, r');
  }

  lemma Carry(c: char, s: string, text: string, radix: nat, r: word, next: word)
    requires radix <= 16 && DigitValue(c) < radix && next == (r * radix + DigitValue(c)) % WORD_MOD && s == [c] + text
    ensures Digits(s, radix, r) == Digits(text, radix, next)
  {
    StepRead(c, text, radix, r, next);
  }

  lemma DigitsSplit(ds: seq<nat>, upper: bool, rest: string) returns (c: char)
    requires ds != [] && AreDigits(ds, 16)
    ensures AreDigits(ds[1..], 16) && DigitValue(c) == ds[0]
    ensures DigitText(ds, upper) + rest == [c] + (DigitText(ds[1..], upper) + rest)
  {
    c := DigitChar(ds[0], upper);
    DigitCharValue(ds[0], upper);
    TextCons(c, DigitText(ds[1..], upper), rest);
  }

  /** The loop reads all digits of its base and nothing else. */
  lemma {:induction false} DigitsRead(ds: seq<nat>, upper: bool, radix: nat, first: nat, rest: string)
    requires radix <= 16 && AreDigits(ds, radix) && (rest == "" || DigitValue(rest[0]) >= radix)
    ensures AreDigits(ds, 16)
    ensures Digits(DigitText(ds, upper) + rest, radix, first % WORD_MOD) == (Value(ds, radix, first) % WORD_MOD, rest)
  {
    if ds == [] {
      assert DigitText(ds, upper) + rest == rest;
    } else {
      var next: nat := first * radix + ds[0];
      DigitsStep(ds, upper, radix, first, next, rest);
      ValueStep(ds, radix, first, next);
      DigitsRead(ds[1..], upper, radix, next, rest);
    }
  }

  /** How a number may be written. */
  datatype Numeral = Plain(ds: seq<nat>) | Octal(ds: seq<nat>) | Hex(ds: seq<nat>, upper: bool)

  predicate ValidNumeral(n: Numeral) {
    match n
    case Plain(ds) => ds != [] && ds[0] != 0 && AreDigits(ds, 10)
    case Octal(ds) => AreDigits(ds, 8)
    case Hex(ds, _) => ds != [] && AreDigits(ds, 16)
  }

  function NumeralText(n: Numeral): string
    requires ValidNumeral(n)
  {
    match n
    case Plain(ds) => DigitText(ds, false)
    case Octal(ds) => "0" + DigitText(ds, false)
    case Hex(ds, upper) => "0x" + DigitText(ds, upper)
  }

  function NumeralValue(n: Numeral): nat {
    match n
    case Plain(ds) => Value(ds, 10, 0)
    case Octal(ds) => Value(ds, 8, 0)
    case Hex(ds, _) => Value(ds, 16, 0)
  }

  /** Text that goes on no number of any base. */
  predicate EndsNumber(rest: string) {
    rest == "" || !(rest[0] in "0123456789abcdefABCDEFx")
  }

  lemma EndsDigits(rest: string)
    requires EndsNumber(rest)
    ensures rest == "" || (DigitValue(rest[0]) == 16 && rest[0] != 'x')
  {
    if rest != "" && DigitValue(rest[0]) < 16 {
      assert "0123456789abcdefABCDEFx"[..10] == "0123456789";
      DigitListed(rest[0]);
    }
  }

  lemma DigitListed(c: char)
    requires DigitValue(c) < 16
    ensures c in "0123456789abcdefABCDEFx"
  {
    var s := "0123456789abcdefABCDEFx";
    var i := if IsDigit(c) then DigitValue(c) else if 'a' <= c <= 'f' then DigitValue(c) else DigitValue(c) + 6;
    assert s[i] == c;
  }

  lemma FirstChar(ds: seq<nat>, upper: bool, rest: string)
    requires ds != [] && AreDigits(ds, 16)
    ensures var s := DigitText(ds, upper) + rest;
            s != "" && s[0] == DigitChar(ds[0], upper) && DigitValue(s[0]) == ds[0] && s[0] != 'x'
    ensures DigitText(ds, upper) + rest != "" && ((DigitText(ds, upper) + rest)[0] == '0' <==> ds[0] == 0)
  {
    DigitCharValue(ds[0], upper);
  }

  lemma PlainRead(ds: seq<nat>, rest: string)
    requires ds != [] && ds[0] != 0 && AreDigits(ds, 10) && EndsNumber(rest)
    ensures AreDigits(ds, 16)
    ensures StrToUL(DigitText(ds, false) + rest) == (Value(ds, 10, 0) % WORD_MOD, rest)
  {
    EndsDigits(rest);
    FirstChar(ds, false, rest);
    DigitsRead(ds, false, 10, 0, rest);
  }

  lemma OctalRead(ds: seq<nat>, rest: string)
    requires AreDigits(ds, 8) && EndsNumber(rest)
    ensures AreDigits(ds, 16)
    ensures StrToUL(("0" + DigitText(ds, false)) + rest) == (Value(ds, 8, 0) % WORD_MOD, rest)
  {
    var s, t := ("0" + DigitText(ds, false)) + rest, DigitText(ds, false) + rest;
    EndsDigits(rest);
    assert s[0] == '0' && s[1..] == t;
    assert |s| > 1 ==> s[1] == t[0];
    if ds != [] {
      FirstChar(ds, false, rest);
    }
    DigitsRead(ds, false, 8, 0, rest);
  }

  lemma HexRead(ds: seq<nat>, upper: bool, rest: string)
    requires ds != [] && AreDigits(ds, 16) && EndsNumber(rest)
    ensures StrToUL(("0x" + DigitText(ds, upper)) + rest) == (Value(ds, 16, 0) % WORD_MOD, rest)
  {
    var s, t := ("0x" + DigitText(ds, upper)) + rest, DigitText(ds, upper) + rest;
    EndsDigits(rest);
    FirstChar(ds, upper, rest);
    assert s[0] == '0' && s[1] == 'x' && s[2..] == t && s[2] == t[0];
    DigitsRead(ds, upper, 16, 0, rest);
  }

  lemma NumeralRead(n: Numeral, rest: string)
    requires ValidNumeral(n) && EndsNumber(rest)
    ensures StrToUL(NumeralText(n) + rest) == (NumeralValue(n) % WORD_MOD, rest)
  {
    match n
    case Plain(ds) => PlainRead(ds, rest);
    case Octal(ds) => OctalRead(ds, rest);
    case Hex(ds, upper) => HexRead(ds, upper, rest);
  }

  /** The units, in either case. */
  function Unit(suffix: string): nat {
    if suffix == "k" || suffix == "K" then 0x400
    else if suffix == "m" || suffix == "M" then 0x10_0000
    else if suffix == "g" || suffix == "G" then 0x4000_0000
    else 1
  }

  lemma WrapUnit(value: nat, unit: nat)
    ensures (value % WORD_MOD * unit) % WORD_MOD == value * unit % WORD_MOD
  {
    WrapDigit(value, unit, 0);
  }

  lemma UnitRead(s: string, value: nat, suffix: string, rest: string)
    requires suffix in ["", "k", "K", "m", "M", "g", "G"]
    requires suffix == "" ==> rest == "" || !(rest[0] in "kKmMgG")
    requires StrToUL(s) == (value % WORD_MOD, suffix + rest)
    ensures MemsizeParse(s) == (value * Unit(suffix) % WORD_MOD, rest)
  {
    WrapUnit(value, Unit(suffix));
    if suffix == "" {
      assert suffix + rest == rest;
      assert "kKmMgG"[0] == 'k' && "kKmMgG"[1] == 'K' && "kKmMgG"[2] == 'm' && "kKmMgG"[3] == 'M';
      assert "kKmMgG"[4] == 'g' && "kKmMgG"[5] == 'G';
    } else {
      assert (suffix + rest)[0] == suffix[0] && (suffix + rest)[1..] == rest;
    }
  }

  lemma SuffixEnds(suffix: string, rest: string)
    requires suffix in ["", "k", "K", "m", "M", "g", "G"] && EndsNumber(rest)
    ensures EndsNumber(suffix + rest)
  {
    if suffix == "" {
      assert suffix + rest == rest;
    }
  }

  /** A size in any notation stands for its number of units, in 32 bits. */
  lemma {:induction false} MemsizeRead(n: Numeral, suffix: string, rest: string)
    requires ValidNumeral(n) && suffix in ["", "k", "K", "m", "M", "g", "G"] && EndsNumber(rest)
    requires suffix == "" ==> rest == "" || !(rest[0] in "kKmMgG")
    ensures MemsizeParse(NumeralText(n) + (suffix + rest)) == (NumeralValue(n) * Unit(suffix) % WORD_MOD, rest)
  {
    SuffixEnds(suffix, rest);
    NumeralRead(n, suffix + rest);
    UnitRead(NumeralText(n) + (suffix + rest), NumeralValue(n), suffix, rest);
  }

  /** Sizes are printed in the largest unit that divides them. */
  lemma FormatUnit(size: word)
    ensures var text := MemsizeFormat(size);
            if size % 0x4000_0000 == 0 then text == Decimal(size / 0x4000_0000) + "g"
            else if size % 0x10_0000 == 0 then text == Decimal(size / 0x10_0000) + "m"
            else if size % 0x400 == 0 then text == Decimal(size / 0x400) + "k"
            else text == Decimal(size)
  {
  }
}
