/** Sizes in the partition table text: `memsize_format` and `memsize_parse` of cmd_jffs2.c.
    Parsers take the text from a pointer on and return the text from the advanced pointer on; the terminating
    NUL is the end of the sequence. */
module MtdSize {
  import opened Common
  import opened Arithmetic

  const GB := 1024 * 1024 * 1024
  const MB := 1024 * 1024
  const KB := 1024

  predicate IsDigit(c: char) {
    '0' <= c <= '9'
  }

  /** The value of a digit in bases up to 16, 16 for anything else. */
  function DigitValue(c: char): nat {
    if IsDigit(c) then c as int - '0' as int
    else if 'a' <= c <= 'f' then c as int - 'a' as int + 10
    else if 'A' <= c <= 'F' then c as int - 'A' as int + 10
    else 16
  }

  /** The digit loop of `simple_strtoul`, with its 32-bit wrap-around. */
  function Digits(s: string, radix: nat, result: word): (word, string)
    requires radix <= 16
  {
    if s == "" || DigitValue(s[0]) >= radix then (result, s)
    else Digits(s[1..], radix, (result * radix + DigitValue(s[0])) % WORD_MOD)
  }

  /** `simple_strtoul` with base 0. */
  function StrToUL(s: string): (word, string) {
    if s == "" || s[0] != '0' then Digits(s, 10, 0)
    else if |s| > 2 && s[1] == 'x' && DigitValue(s[2]) < 16 then Digits(s[2..], 16, 0)
    else Digits(s[1..], 8, 0)
  }

  /** The multiplier a suffix stands for: the cases fall through from G to K. */
  function Multiplier(c: char): nat {
    if c == 'G' || c == 'g' then GB
    else if c == 'M' || c == 'm' then MB
    else if c == 'K' || c == 'k' then KB
    else 1
  }

  function MemsizeParse(s: string): (word, string) {
    var (ret, rest) := StrToUL(s);
    if rest != "" && Multiplier(rest[0]) > 1 then (ret * Multiplier(rest[0]) % WORD_MOD, rest[1..])
    else (ret, rest)
  }

  function Decimal(n: nat): string {
    if n < 10 then [('0' as int + n) as char] else Decimal(n / 10) + [('0' as int + n % 10) as char]
  }

  function MemsizeFormat(size: word): string {
    if size % GB == 0 then Decimal(size / GB) + "g"
    else if size % MB == 0 then Decimal(size / MB) + "m"
    else if size % KB == 0 then Decimal(size / KB) + "k"
    else Decimal(size)
  }

  /** Text that cannot be taken for more of a size. */
  predicate Ends(rest: string) {
    rest == "" || (!IsDigit(rest[0]) && Multiplier(rest[0]) == 1)
  }

  lemma {:induction false} DecimalStarts(n: nat)
    ensures Decimal(n) != "" && IsDigit(Decimal(n)[0]) && (n > 0 ==> Decimal(n)[0] != '0')
    ensures n == 0 ==> Decimal(n) == "0"
  {
    if n >= 10 {
      DecimalStarts(n / 10);
    }
  }

  lemma DecimalDigit(d: nat)
    requires d < 10
    ensures DigitValue(('0' as int + d) as char) == d
  {
  }

  /** One more decimal digit. */
  lemma DigitRead(result: nat, d: nat, rest: string)
    requires d < 10 && result * 10 + d < WORD_MOD
    ensures Digits([('0' as int + d) as char] + rest, 10, result) == Digits(rest, 10, result * 10 + d)
  {
    var s := [('0' as int + d) as char] + rest;
    DecimalDigit(d);
    assert s[1..] == rest && s[0] == ('0' as int + d) as char;
  }

  lemma {:induction false} DigitsOfDecimal(n: word, rest: string)
    ensures Digits(Decimal(n) + rest, 10, 0) == Digits(rest, 10, n)
  {
    if n < 10 {
      DigitRead(0, n, rest);
    } else {
      var last := [('0' as int + n % 10) as char];
      assert Decimal(n) + rest == Decimal(n / 10) + (last + rest);
      DigitsOfDecimal(n / 10, last + rest);
      DigitRead(n / 10, n % 10, rest);
    }
  }

  lemma StrToULOfDecimal(n: word, rest: string)
    requires n > 0 && (rest == "" || !IsDigit(rest[0]))
    ensures StrToUL(Decimal(n) + rest) == (n, rest)
  {
    DecimalStarts(n);
    DigitsOfDecimal(n, rest);
  }

  lemma StrToULOfZero(rest: string)
    requires rest != "" && rest[0] == 'g'
    ensures StrToUL("0" + rest) == (0, rest)
  {
    assert ("0" + rest)[1..] == rest;
  }

  lemma ParseSuffixed(n: word, suffix: char, rest: string)
    requires Multiplier(suffix) > 1 && n * Multiplier(suffix) < WORD_MOD && (n == 0 ==> suffix == 'g')
    ensures MemsizeParse(Decimal(n) + [suffix] + rest) == (n * Multiplier(suffix), rest)
  {
    var tail := [suffix] + rest;
    assert Decimal(n) + [suffix] + rest == Decimal(n) + tail;
    if n == 0 {
      DecimalStarts(n);
      StrToULOfZero(tail);
    } else {
      StrToULOfDecimal(n, tail);
    }
    assert tail[1..] == rest;
  }

  /** `memsize_parse` inverts `memsize_format` for every 32-bit size, including 0, which is printed "0g". */
  lemma FormatThenParse(size: word, rest: string)
    requires Ends(rest)
    ensures MemsizeParse(MemsizeFormat(size) + rest) == (size, rest)
  {
    if size % GB == 0 {
      DivMod(size, GB);
      ParseSuffixed(size / GB, 'g', rest);
    } else if size % MB == 0 {
      DivMod(size, MB);
      ParseSuffixed(size / MB, 'm', rest);
    } else if size % KB == 0 {
      DivMod(size, KB);
      ParseSuffixed(size / KB, 'k', rest);
    } else {
      StrToULOfDecimal(size, rest);
    }
  }

  lemma FormatStarts(size: word)
    ensures MemsizeFormat(size) != "" && IsDigit(MemsizeFormat(size)[0])
  {
    DecimalStarts(if size % GB == 0 then size / GB else if size % MB == 0 then size / MB
                  else if size % KB == 0 then size / KB else size);
  }
}
