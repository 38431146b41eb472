/** The line formats' text: escaping, lines, fields, decimal and hexadecimal. */
module Text {
  import opened Bytes
  import opened Wrappers

  // ---------------------------------------------------------------- escaping

  /** Which characters a format escapes: backslash, tab and newline, and in one of them carriage return. */
  datatype Dialect = Dialect(carriageReturn: bool)

  /** What follows the backslash in place of a character that is escaped. */
  function Code(d: Dialect, c: char): Option<char> {
    if c == '\\' then Some('\\')
    else if c == '\t' then Some('t')
    else if c == '\n' then Some('n')
    else if c == '\r' && d.carriageReturn then Some('r')
    else None
  }

  function Raw(d: Dialect, code: char): Option<char> {
    if code == '\\' then Some('\\')
    else if code == 't' then Some('\t')
    else if code == 'n' then Some('\n')
    else if code == 'r' && d.carriageReturn then Some('\r')
    else None
  }

  function EscapeChar(d: Dialect, c: char): string {
    match Code(d, c)
    case Some(code) => ['\\', code]
    case None => [c]
  }

  function Escape(d: Dialect, text: string): string {
    if text == "" then "" else EscapeChar(d, text[0]) + Escape(d, text[1..])
  }

  /** Undo escaping; an unknown escape is kept as it is and a backslash at the very end is dropped. */
  function Unescape(d: Dialect, text: string): string {
    if text == "" then ""
    else if text[0] != '\\' then [text[0]] + Unescape(d, text[1..])
    else if |text| == 1 then ""
    else
      match Raw(d, text[1])
      case Some(raw) => [raw] + Unescape(d, text[2..])
      case None => ['\\', text[1]] + Unescape(d, text[2..])
  }

  lemma {:induction false} UnescapeEscape(d: Dialect, text: string)
    ensures Unescape(d, Escape(d, text)) == text
  {
    if text != "" {
      UnescapeEscape(d, text[1..]);
      var first, rest := EscapeChar(d, text[0]), Escape(d, text[1..]);
      var escaped := first + rest;
      assert escaped[|first|..] == rest;
      assert Unescape(d, escaped) == [text[0]] + Unescape(d, rest);
      assert [text[0]] + text[1..] == text;
    }
  }

  /** Escaped text holds no separator, and no carriage return where the dialect escapes it. */
  lemma {:induction false} EscapeClean(d: Dialect, text: string)
    ensures '\t' !in Escape(d, text) && '\n' !in Escape(d, text)
    ensures d.carriageReturn ==> '\r' !in Escape(d, text)
  {
    if text != "" {
      EscapeClean(d, text[1..]);
    }
  }

  predicate EndsInReturn(text: string) {
    text != "" && text[|text| - 1] == '\r'
  }

  /** One carriage return at the end, if there is one, taken off. */
  function StripReturn(text: string): string {
    if EndsInReturn(text) then text[..|text| - 1] else text
  }

  /** Where carriage returns are not escaped, one at the end of a text stays at the end. */
  lemma {:induction false} EscapeKeepsReturn(text: string)
    ensures EndsInReturn(Escape(Dialect(false), text)) <==> EndsInReturn(text)
    ensures StripReturn(Escape(Dialect(false), text)) == Escape(Dialect(false), StripReturn(text))
  {
    var d := Dialect(false);
    if text != "" {
      var init, last := text[..|text| - 1], text[|text| - 1];
      EscapeSnoc(d, init, last);
      assert init + [last] == text;
      hide Escape;
      var escaped, end := Escape(d, text), EscapeChar(d, last);
      assert escaped[|escaped| - 1] == end[|end| - 1];
      if last == '\r' {
        assert escaped[..|escaped| - 1] == Escape(d, init);
      }
    }
  }

  lemma {:induction false} EscapeSnoc(d: Dialect, init: string, last: char)
    ensures Escape(d, init + [last]) == Escape(d, init) + EscapeChar(d, last)
  {
    if init == "" {
      assert init + [last] == [last] && [last][1..] == "";
      assert Escape(d, [last]) == EscapeChar(d, last) + Escape(d, "");
    } else {
      EscapeSnoc(d, init[1..], last);
      assert (init + [last])[1..] == init[1..] + [last];
      var first, rest := EscapeChar(d, init[0]), Escape(d, init[1..]);
      assert first + (rest + EscapeChar(d, last)) == (first + rest) + EscapeChar(d, last);
    }
  }

  method EscapeText(d: Dialect, text: string) returns (out: string)
    ensures out == Escape(d, text)
  {
    out := "";
    assert text[..0] == "";
    hide Escape;
    for i := 0 to |text|
      invariant out == Escape(d, text[..i])
    {
      EscapeSnoc(d, text[..i], text[i]);
      assert text[..i] + [text[i]] == text[..i + 1];
      out := out + match Code(d, text[i]) case Some(code) => ['\\', code] case None => [text[i]];
    }
    assert text[..|text|] == text;
  }

  method UnescapeText(d: Dialect, text: string) returns (out: string)
    ensures out == Unescape(d, text)
  {
    out := "";
    var rest := text;
    while rest != ""
      invariant Unescape(d, text) == out + Unescape(d, rest)
      decreases |rest|
    {
      if rest[0] != '\\' {
        assert (out + [rest[0]]) + Unescape(d, rest[1..]) == out + ([rest[0]] + Unescape(d, rest[1..]));
        out, rest := out + [rest[0]], rest[1..];
      } else if |rest| == 1 {
        rest := "";
      } else {
        var piece := match Raw(d, rest[1]) case Some(raw) => [raw] case None => ['\\', rest[1]];
        assert (out + piece) + Unescape(d, rest[2..]) == out + (piece + Unescape(d, rest[2..]));
        out, rest := out + piece, rest[2..];
      }
    }
  }

  /** The spelling of every character that is escaped, on its own and read back; any other stays as it is. */
  lemma {:induction false} Spellings(d: Dialect, c: char)
    ensures Escape(d, "\\") == "\\\\" && Escape(d, "\t") == "\\t" && Escape(d, "\n") == "\\n"
    ensures Escape(d, "\r") == if d.carriageReturn then "\\r" else "\r"
    ensures c != '\\' && c != '\t' && c != '\n' && c != '\r' ==> Escape(d, [c]) == [c]
  {
    EscapeOne(d, '\\');
    EscapeOne(d, '\t');
    EscapeOne(d, '\n');
    EscapeOne(d, '\r');
    EscapeOne(d, c);
  }

  lemma {:induction false} EscapeOne(d: Dialect, c: char)
    ensures Escape(d, [c]) == EscapeChar(d, c)
  {
    assert [c][1..] == "" && Escape(d, "") == "";
  }

  /** Reading a text that nobody escaped: an unknown escape stays as it is, and a lone backslash at the end goes. */
  lemma {:induction false} UnescapeSays(d: Dialect, clean: string, c: char, rest: string)
    requires '\\' !in clean
    ensures Unescape(d, clean) == clean
    ensures Unescape(d, clean + "\\") == clean
    ensures Unescape(d, clean + ['\\', c] + rest)
         == clean
            + (if c == '\\' then "\\" else if c == 't' then "\t" else if c == 'n' then "\n"
               else if c == 'r' && d.carriageReturn then "\r" else ['\\', c])
            + Unescape(d, rest)
  {
    hide Unescape;
    UnescapeClean(d, clean, "");
    UnescapeClean(d, clean, "\\");
    UnescapeClean(d, clean, ['\\', c] + rest);
    UnescapeEnds(d);
    UnescapeCode(d, c, rest);
    assert clean + "" == clean;
    assert clean + (['\\', c] + rest) == clean + ['\\', c] + rest;
    var said := if c == '\\' then "\\" else if c == 't' then "\t" else if c == 'n' then "\n"
                else if c == 'r' && d.carriageReturn then "\r" else ['\\', c];
    assert clean + (said + Unescape(d, rest)) == clean + said + Unescape(d, rest);
  }

  /** Text without a backslash stays as it is, whatever follows. */
  lemma {:induction false} UnescapeClean(d: Dialect, clean: string, rest: string)
    requires '\\' !in clean
    ensures Unescape(d, clean + rest) == clean + Unescape(d, rest)
  {
    if clean == "" {
      assert clean + rest == rest;
    } else {
      UnescapeClean(d, clean[1..], rest);
      assert (clean + rest)[1..] == clean[1..] + rest;
      assert [clean[0]] + (clean[1..] + Unescape(d, rest)) == clean + Unescape(d, rest);
    }
  }

  lemma UnescapeEnds(d: Dialect)
    ensures Unescape(d, "") == "" && Unescape(d, "\\") == ""
  {}

  lemma {:induction false} UnescapeCode(d: Dialect, c: char, rest: string)
    ensures Unescape(d, ['\\', c] + rest)
         == (if c == '\\' then "\\" else if c == 't' then "\t" else if c == 'n' then "\n"
             else if c == 'r' && d.carriageReturn then "\r" else ['\\', c])
            + Unescape(d, rest)
  {
    assert (['\\', c] + rest)[2..] == rest;
  }

  // ---------------------------------------------------------------- lines and fields

  /** The position of the first `c`, or the length if there is none. */
  function First(text: string, c: char): (i: nat)
    ensures i <= |text|
    ensures i < |text| ==> text[i] == c
    ensures c !in text[..i]
  {
    if text == "" then 0
    else if text[0] == c then 0
    else
      var i := First(text[1..], c);
      assert text[..i + 1] == [text[0]] + text[1..][..i];
      i + 1
  }

  /** `str::lines`: newlines end lines, and a carriage return in front of a newline goes with it. */
  function Lines(text: string): seq<string>
    decreases |text|
  {
    if text == "" then []
    else
      var i := First(text, '\n');
      if i == |text| then [text] else [StripReturn(text[..i])] + Lines(text[i + 1..])
  }

  /** `str::split` on one character: always at least one field. */
  function Split(text: string, separator: char): (fields: seq<string>)
    ensures fields != []
    decreases |text|
  {
    var i := First(text, separator);
    if i == |text| then [text] else [text[..i]] + Split(text[i + 1..], separator)
  }

  lemma {:induction false} FirstAfter(clean: string, c: char, rest: string)
    requires c !in clean
    ensures First(clean + [c] + rest, c) == |clean|
  {
    var text := clean + [c] + rest;
    if clean != "" {
      FirstAfter(clean[1..], c, rest);
      assert text[1..] == clean[1..] + [c] + rest;
      assert text[0] == clean[0];
    }
  }

  lemma {:induction false} LinesSplits(line: string, rest: string)
    requires '\n' !in line
    ensures Lines(line + "\n" + rest) == [StripReturn(line)] + Lines(rest)
  {
    FirstAfter(line, '\n', rest);
    var text := line + "\n" + rest;
    assert text[..|line|] == line && text[|line| + 1..] == rest;
  }

  /** Without a newline behind it the last line is a line all the same, and keeps a carriage return. */
  lemma LastLine(line: string)
    requires '\n' !in line
    ensures Lines(line) == if line == "" then [] else [line]
  {
    assert line[..|line|] == line;
  }

  lemma {:induction false} SplitSplits(field: string, separator: char, rest: string)
    requires separator !in field
    ensures Split(field + [separator] + rest, separator) == [field] + Split(rest, separator)
  {
    FirstAfter(field, separator, rest);
    var text := field + [separator] + rest;
    assert text[..|field|] == field && text[|field| + 1..] == rest;
  }

  lemma {:induction false} SplitLast(field: string, separator: char)
    requires separator !in field
    ensures Split(field, separator) == [field]
  {}

  // ---------------------------------------------------------------- decimal

  function Digit(d: nat): char
    requires d < 10
  {
    "0123456789"[d]
  }

  function DigitValue(c: char): Option<nat> {
    if '0' <= c <= '9' then Some(c as int - '0' as int) else None
  }

  lemma DigitReads(d: nat)
    requires d < 10
    ensures DigitValue(Digit(d)) == Some(d)
    ensures Digit(d) != '+' && Digit(d) != '\t' && Digit(d) != '\n' && Digit(d) != '\r'
  {}

  function Decimal(n: nat): string {
    if n < 10 then [Digit(n)] else Decimal(n / 10) + [Digit(n % 10)]
  }

  function ParseDigits(text: string): Option<nat>
    decreases |text|
  {
    if text == "" then Some(0)
    else
      match (ParseDigits(text[..|text| - 1]), DigitValue(text[|text| - 1]))
      case (Some(n), Some(d)) => Some(10 * n + d)
      case _ => None
  }

  const TWO64: nat := 0x1_0000_0000_0000_0000

  type u64 = n: nat | n < TWO64

  /** `str::parse::<u64>`: an optional plus, then at least one digit, and nothing too large. */
  function ParseU64(text: string): Option<u64> {
    var digits := if text != "" && text[0] == '+' then text[1..] else text;
    if digits == "" then None
    else
      match ParseDigits(digits)
      case Some(n) => if n < TWO64 then Some(n) else None
      case None => None
  }

  lemma {:induction false} DecimalParses(n: nat)
    ensures Decimal(n) != "" && Decimal(n)[0] != '+'
    ensures ParseDigits(Decimal(n)) == Some(n)
    ensures '\t' !in Decimal(n) && '\n' !in Decimal(n)
  {
    DigitReads(n % 10);
    hide Digit, DigitValue;
    if n < 10 {
      assert Decimal(n) == [Digit(n)];
      ParseSnoc("", Digit(n));
      assert "" + [Digit(n)] == [Digit(n)];
    } else {
      DecimalParses(n / 10);
      assert Decimal(n) == Decimal(n / 10) + [Digit(n % 10)];
      ParseSnoc(Decimal(n / 10), Digit(n % 10));
      hide ParseDigits, Decimal;
    }
  }

  lemma {:induction false} ParseSnoc(init: string, last: char)
    ensures ParseDigits("") == Some(0)
    ensures ParseDigits(init + [last])
         == match (ParseDigits(init), DigitValue(last))
            case (Some(n), Some(d)) => Some(10 * n + d)
            case _ => None
  {
    hide DigitValue;
    assert (init + [last])[..|init|] == init;
  }

  lemma {:induction false} DecimalReads(n: u64)
    ensures ParseU64(Decimal(n)) == Some(n)
    ensures '\t' !in Decimal(n) && '\n' !in Decimal(n)
  {
    DecimalParses(n);
  }

  /** A plus in front of a number is read over; nothing, a plus alone and what 64 bits cannot say are no number. */
  lemma {:induction false} NumberSays(n: nat)
    ensures ParseU64(Decimal(n)) == if n < 0x1_0000_0000_0000_0000 then Some(n) else None
    ensures ParseU64("+" + Decimal(n)) == ParseU64(Decimal(n))
    ensures ParseU64("") == None && ParseU64("+") == None
  {
    DecimalParses(n);
    hide Decimal, ParseDigits;
    assert ("+" + Decimal(n))[1..] == Decimal(n);
    assert "+"[1..] == "";
  }

  /** A number's digits, the last of them first; none of them leads with a zero but that of zero itself. */
  lemma {:induction false} DecimalSays(n: nat)
    ensures var s := Decimal(n);
            && s != "" && s[|s| - 1] == (n % 10) as char + '0'
            && (n >= 10 ==> s[..|s| - 1] == Decimal(n / 10))
            && (n < 10 ==> |s| == 1)
            && (n > 0 ==> s[0] != '0')
  {
    if n >= 10 {
      DecimalSays(n / 10);
    }
  }

  // ---------------------------------------------------------------- hexadecimal

  function HexDigit(d: nat): char
    requires d < 16
  {
    "0123456789abcdef"[d]
  }

  function HexValue(c: char): (r: Option<nat>)
    ensures r.Some? ==> r.value < 16
  {
    if '0' <= c <= '9' then Some(c as int - '0' as int)
    else if 'a' <= c <= 'f' then Some(c as int - 'a' as int + 10)
    else if 'A' <= c <= 'F' then Some(c as int - 'A' as int + 10)
    else None
  }

  lemma HexDigitReads(d: nat)
    requires d < 16
    ensures HexValue(HexDigit(d)) == Some(d)
    ensures HexDigit(d) != '+' && HexDigit(d) != '\t' && HexDigit(d) != '\n'
  {}

  function Hex(bytes: Bytes): string {
    if bytes == [] then "" else [HexDigit(bytes[0] / 16), HexDigit(bytes[0] % 16)] + Hex(bytes[1..])
  }

  /** `u8::from_str_radix(_, 16)` on two characters, which takes a plus for the first. */
  function HexPair(a: char, b: char): Option<byte> {
    match (HexValue(a), HexValue(b))
    case (Some(x), Some(y)) => Some(16 * x + y)
    case (None, Some(y)) => if a == '+' then Some(y) else None
    case _ => None
  }

  function UnhexPairs(text: string): Option<Bytes>
    decreases |text|
  {
    if |text| < 2 then Some([])
    else
      match (HexPair(text[0], text[1]), UnhexPairs(text[2..]))
      case (Some(b), Some(rest)) => Some([b] + rest)
      case _ => None
  }

  /** The bytes that a text of twice `length` characters says in base 16, or nothing. */
  function Unhex(text: string, length: nat): Option<Bytes> {
    if |text| != 2 * length then None else UnhexPairs(text)
  }

  lemma HexPairReads(b: byte)
    ensures HexPair(HexDigit(b / 16), HexDigit(b % 16)) == Some(b)
  {
    HexDigitReads(b / 16);
    HexDigitReads(b % 16);
    hide HexDigit, HexValue;
  }

  lemma {:induction false} UnhexStep(a: char, b: char, rest: string)
    ensures UnhexPairs([a, b] + rest)
         == match (HexPair(a, b), UnhexPairs(rest))
            case (Some(first), Some(more)) => Some([first] + more)
            case _ => None
  {
    hide HexPair;
    assert ([a, b] + rest)[2..] == rest;
  }

  lemma {:induction false} HexReads(bytes: Bytes)
    ensures |Hex(bytes)| == 2 * |bytes|
    ensures Unhex(Hex(bytes), |bytes|) == Some(bytes)
    ensures '\t' !in Hex(bytes) && '\n' !in Hex(bytes)
  {
    if bytes != [] {
      var b, rest := bytes[0], bytes[1..];
      assert Hex(bytes) == [HexDigit(b / 16), HexDigit(b % 16)] + Hex(rest);
      HexReads(rest);
      HexPairReads(b);
      HexDigitReads(b / 16);
      HexDigitReads(b % 16);
      hide Hex, HexDigit, HexValue, HexPair, UnhexPairs;
      UnhexStep(HexDigit(b / 16), HexDigit(b % 16), Hex(rest));
      assert [b] + rest == bytes;
    }
  }

  /** Each byte is two digits, the higher first, letters small. */
  lemma {:induction false} HexSays(bytes: Bytes, i: nat)
    requires i < |bytes|
    ensures |Hex(bytes)| == 2 * |bytes|
    ensures Hex(bytes)[2 * i] == "0123456789abcdef"[bytes[i] / 16]
    ensures Hex(bytes)[2 * i + 1] == "0123456789abcdef"[bytes[i] % 16]
  {
    if |bytes| > 1 {
      HexSays(bytes[1..], if i > 0 then i - 1 else 0);
    }
  }

  lemma CapitalReads(d: nat)
    requires d < 16
    ensures HexValue("0123456789ABCDEF"[d]) == Some(d)
  {}

  /** In reading, letters may be large or small, and a plus may stand for the higher digit. */
  lemma PairSays(d: nat, e: nat)
    requires d < 16 && e < 16
    ensures HexPair("0123456789ABCDEF"[d], HexDigit(e)) == Some(16 * d + e)
    ensures HexPair(HexDigit(d), "0123456789ABCDEF"[e]) == Some(16 * d + e)
    ensures HexPair('+', HexDigit(e)) == Some(e)
  {
    CapitalReads(d);
    CapitalReads(e);
    HexDigitReads(d);
    HexDigitReads(e);
    assert HexValue('+') == None;
    hide HexDigit, HexValue;
  }
}
