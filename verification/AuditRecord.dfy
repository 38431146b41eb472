/** One entry of the audit log: what it hashes, and the line it is written as. */
module AuditRecord {
  import opened Bytes
  import opened Text
  import opened Wrappers
  import Utf8

  const HASH_LEN: nat := 32

  type Digest = b: Bytes | |b| == HASH_LEN witness seq(HASH_LEN, _ => 0)

  function Zeros(n: nat): (b: Bytes)
    ensures |b| == n
  {
    if n == 0 then [] else [0] + Zeros(n - 1)
  }

  /** Thirty-two zero bytes, which the first record of every chain names as `previous`. */
  const ANCHOR: Digest := Zeros(HASH_LEN)

  /** SHA-256: any function from byte strings to digests. */
  type Hash = Bytes -> Digest

  const PLAIN: Dialect := Dialect(false)

  datatype AuditError =
    | BrokenChain(at: u64)
    | NothingToReanchor
    | Malformed(reason: string)

  datatype Record = Record(
    sequence: u64,
    previous: Digest,
    query: string,
    plan: string,
    rows: u64,
    hash: Digest)

  // ---------------------------------------------------------------- what is hashed

  /** A text with its length in front, which saturates at what eight bytes can say. */
  function Prefixed(text: string): Bytes {
    LengthBytes(text) + Utf8.Encode(text)
  }

  function LengthBytes(text: string): (b: Bytes)
    ensures |b| == 8
  {
    var n := |Utf8.Encode(text)|;
    BigEndian(if n < TWO64 then n else TWO64 - 1, 8)
  }

  function Preimage(r: Record): Bytes {
    r.previous + (BigEndian(r.sequence, 8) + (Prefixed(r.query) + (Prefixed(r.plan) + BigEndian(r.rows, 8))))
  }

  /** The content of a record: everything but its stored hash. */
  predicate SameContent(r: Record, s: Record) {
    && r.sequence == s.sequence && r.previous == s.previous
    && r.query == s.query && r.plan == s.plan && r.rows == s.rows
  }

  /** Texts no longer than an address space: what a `String` can hold. */
  predicate Fits(r: Record) {
    |Utf8.Encode(r.query)| < TWO64 && |Utf8.Encode(r.plan)| < TWO64
  }

  lemma {:induction false} PrefixedInjective(s: string, x: Bytes, t: string, y: Bytes)
    requires |Utf8.Encode(s)| < TWO64 && |Utf8.Encode(t)| < TWO64
    requires Prefixed(s) + x == Prefixed(t) + y
    ensures s == t && x == y
  {
    hide BigEndian, Pow256, Utf8.Encode, LengthBytes;
    var a, b := Utf8.Encode(s), Utf8.Encode(t);
    var m, n := LengthBytes(s), LengthBytes(t);
    assert (m + a) + x == m + (a + x);
    assert (n + b) + y == n + (b + y);
    Utf8.HeadsEqual(m, a + x, n, b + y);
    LengthBytesInjective(s, t);
    Utf8.HeadsEqual(a, x, b, y);
    Utf8.EncodeInjective(s, t);
  }

  lemma {:induction false} LengthBytesInjective(s: string, t: string)
    requires |Utf8.Encode(s)| < TWO64 && |Utf8.Encode(t)| < TWO64
    requires LengthBytes(s) == LengthBytes(t)
    ensures |Utf8.Encode(s)| == |Utf8.Encode(t)|
  {
    hide BigEndian, Pow256, Utf8.Encode;
    Pow256Values();
    BigEndianInjective(|Utf8.Encode(s)|, |Utf8.Encode(t)|, 8);
  }

  /** What is hashed has exactly one reading. */
  lemma {:induction false} PreimageInjective(r: Record, s: Record)
    requires Fits(r) && Fits(s) && Preimage(r) == Preimage(s)
    ensures SameContent(r, s)
  {
    hide Prefixed, BigEndian, Utf8.Encode, Pow256;
    Pow256Values();
    var endR := Prefixed(r.plan) + BigEndian(r.rows, 8);
    var endS := Prefixed(s.plan) + BigEndian(s.rows, 8);
    Utf8.HeadsEqual(r.previous, BigEndian(r.sequence, 8) + (Prefixed(r.query) + endR),
                    s.previous, BigEndian(s.sequence, 8) + (Prefixed(s.query) + endS));
    Utf8.HeadsEqual(BigEndian(r.sequence, 8), Prefixed(r.query) + endR,
                    BigEndian(s.sequence, 8), Prefixed(s.query) + endS);
    BigEndianInjective(r.sequence, s.sequence, 8);
    PrefixedInjective(r.query, endR, s.query, endS);
    PrefixedInjective(r.plan, BigEndian(r.rows, 8), s.plan, BigEndian(s.rows, 8));
    BigEndianInjective(r.rows, s.rows, 8);
  }

  function Recompute(h: Hash, r: Record): Digest {
    h(Preimage(r))
  }

  /** The record with this content whose `hash` is that of its preimage. */
  function Sealed(h: Hash, sequence: u64, previous: Digest, query: string, plan: string, rows: u64): Record {
    var r := Record(sequence, previous, query, plan, rows, ANCHOR);
    r.(hash := Recompute(h, r))
  }

  // ---------------------------------------------------------------- the line

  function Fields(r: Record): string {
    Decimal(r.sequence) + "\t" + (Hex(r.previous) + "\t" + (Hex(r.hash) + "\t" + (Decimal(r.rows) + "\t"
    + (Escape(PLAIN, r.query) + "\t" + Escape(PLAIN, r.plan)))))
  }

  function ToLine(r: Record): string {
    Fields(r) + "\n"
  }

  function FromFields(fields: seq<string>): Result<Record, string>
    requires fields != []
  {
    match ParseU64(fields[0])
    case None => Failure("the sequence is not a number")
    case Some(sequence) =>
      if |fields| < 2 then Failure("no previous hash")
      else
        match Unhex(fields[1], HASH_LEN)
        case None => Failure("bad previous hash")
        case Some(previous) =>
          if |fields| < 3 then Failure("no hash")
          else
            match Unhex(fields[2], HASH_LEN)
            case None => Failure("bad hash")
            case Some(hash) =>
              if |fields| < 4 then Failure("no row count")
              else
                match ParseU64(fields[3])
                case None => Failure("the row count is not a number")
                case Some(rows) =>
                  if |fields| < 5 then Failure("no query")
                  else if |fields| < 6 then Failure("no plan")
                  else
                    UnhexLength(fields[1], HASH_LEN);
                    UnhexLength(fields[2], HASH_LEN);
                    Success(Record(
                      sequence, previous, Unescape(PLAIN, fields[4]), Unescape(PLAIN, fields[5]), rows, hash))
  }

  lemma {:induction false} UnhexLength(text: string, length: nat)
    ensures Unhex(text, length).Some? ==> |Unhex(text, length).value| == length
  {
    if |text| == 2 * length {
      UnhexPairsLength(text);
    }
  }

  lemma {:induction false} UnhexPairsLength(text: string)
    ensures UnhexPairs(text).Some? ==> |UnhexPairs(text).value| == |text| / 2
    decreases |text|
  {
    if |text| >= 2 {
      UnhexPairsLength(text[2..]);
    }
  }

  function FromLine(line: string): Result<Record, string> {
    FromFields(Split(line, '\t'))
  }

  function ParseLines(lines: seq<string>): Result<seq<Record>, AuditError> {
    if lines == [] then Success([])
    else if lines[0] == "" then ParseLines(lines[1..])
    else
      match FromLine(lines[0])
      case Failure(reason) => Failure(Malformed(reason))
      case Success(r) =>
        var rest :- ParseLines(lines[1..]);
        Success([r] + rest)
  }

  /** Line by line: all of the records, or the first line that fails. */
  function Parse(raw: string): Result<seq<Record>, AuditError> {
    ParseLines(Lines(raw))
  }

  /** The first line that is neither empty nor a record, and why it is none. */
  predicate BadAt(lines: seq<string>, i: nat, reason: string) {
    && i < |lines| && lines[i] != "" && FromLine(lines[i]) == Failure(reason)
    && forall j :: 0 <= j < i ==> lines[j] == "" || FromLine(lines[j]).Success?
  }

  /** Lines parse exactly when each is empty or a record; otherwise the first that is neither is reported. */
  lemma {:induction false} ParseSays(lines: seq<string>)
    ensures ParseLines(lines).Success?
       <==> forall i :: 0 <= i < |lines| ==> lines[i] == "" || FromLine(lines[i]).Success?
    ensures ParseLines(lines).Failure? ==>
              ParseLines(lines).error.Malformed? && exists i: nat :: BadAt(lines, i, ParseLines(lines).error.reason)
  {
    hide FromLine;
    if lines != [] {
      var rest := lines[1..];
      ParseSays(rest);
      assert forall j :: 1 <= j < |lines| ==> lines[j] == rest[j - 1];
      if lines[0] != "" && FromLine(lines[0]).Failure? {
        assert BadAt(lines, 0, FromLine(lines[0]).error);
      } else if ParseLines(rest).Failure? {
        var reason := ParseLines(rest).error.reason;
        var i: nat :| BadAt(rest, i, reason);
        assert lines[i + 1] == rest[i];
        assert BadAt(lines, i + 1, reason);
      }
    }
  }

  /** A line is a record by its first six fields, whatever follows them. */
  lemma {:induction false} LineSays(line: string)
    ensures var fields := Split(line, '\t');
            && (FromLine(line).Success?
                <==> && |fields| >= 6
                     && ParseU64(fields[0]).Some? && ParseU64(fields[3]).Some?
                     && Unhex(fields[1], 32).Some? && Unhex(fields[2], 32).Some?)
            && (FromLine(line).Success? ==>
                  var r := FromLine(line).value;
                  && ParseU64(fields[0]) == Some(r.sequence) && ParseU64(fields[3]) == Some(r.rows)
                  && Unhex(fields[1], 32) == Some(r.previous) && Unhex(fields[2], 32) == Some(r.hash)
                  && r.query == Unescape(PLAIN, fields[4]) && r.plan == Unescape(PLAIN, fields[5]))
  {
    hide Split, Unhex, ParseU64, Unescape;
  }

  /** What reading a line gives back: the plan without a carriage return at its very end. */
  function AsRead(r: Record): Record {
    r.(plan := StripReturn(r.plan))
  }

  lemma {:induction false} FieldsSplit(r: Record)
    ensures Split(Fields(r), '\t')
         == [Decimal(r.sequence), Hex(r.previous), Hex(r.hash), Decimal(r.rows),
             Escape(PLAIN, r.query), Escape(PLAIN, r.plan)]
  {
    hide Decimal, Hex, Escape, Split;
    DecimalReads(r.sequence);
    HexReads(r.previous);
    HexReads(r.hash);
    DecimalReads(r.rows);
    EscapeClean(PLAIN, r.query);
    EscapeClean(PLAIN, r.plan);
    var last := Escape(PLAIN, r.plan);
    var f4 := Escape(PLAIN, r.query) + "\t" + last;
    var f3 := Decimal(r.rows) + "\t" + f4;
    var f2 := Hex(r.hash) + "\t" + f3;
    var f1 := Hex(r.previous) + "\t" + f2;
    SplitLast(last, '\t');
    SplitSplits(Escape(PLAIN, r.query), '\t', last);
    SplitSplits(Decimal(r.rows), '\t', f4);
    SplitSplits(Hex(r.hash), '\t', f3);
    SplitSplits(Hex(r.previous), '\t', f2);
    SplitSplits(Decimal(r.sequence), '\t', f1);
  }

  /** The fields of a record read back as that record. */
  lemma {:induction false} FieldsRead(r: Record)
    ensures FromLine(Fields(r)) == Success(r)
  {
    hide Fields, Decimal, Hex, Escape, Unescape, ParseU64, Unhex, Split;
    FieldsSplit(r);
    DecimalReads(r.sequence);
    HexReads(r.previous);
    HexReads(r.hash);
    DecimalReads(r.rows);
    UnescapeEscape(PLAIN, r.query);
    UnescapeEscape(PLAIN, r.plan);
  }

  lemma {:induction false} ReturnBehindTab(front: string, field: string)
    ensures StripReturn(front + "\t" + field) == front + "\t" + StripReturn(field)
  {
    if EndsInReturn(field) {
      assert (front + "\t" + field)[..|front| + |field|] == front + "\t" + field[..|field| - 1];
    } else {
      var s := front + "\t" + field;
      assert field == "" ==> s[|s| - 1] == '\t';
      assert field != "" ==> s[|s| - 1] == field[|field| - 1];
    }
  }

  /** Losing a carriage return at the end of the line is losing it at the end of the plan. */
  lemma {:induction false} FieldsStrip(r: Record)
    ensures StripReturn(Fields(r)) == Fields(AsRead(r))
  {
    hide Decimal, Hex, Escape, EndsInReturn;
    EscapeKeepsReturn(r.plan);
    var front := Decimal(r.sequence) + "\t" + (Hex(r.previous) + "\t" + (Hex(r.hash) + "\t"
                 + (Decimal(r.rows) + "\t" + Escape(PLAIN, r.query))));
    ReturnBehindTab(front, Escape(PLAIN, r.plan));
    hide StripReturn;
    FieldsFront(r, front);
    FieldsFront(AsRead(r), front);
  }

  lemma {:induction false} FieldsFront(r: Record, front: string)
    requires front == Decimal(r.sequence) + "\t" + (Hex(r.previous) + "\t" + (Hex(r.hash) + "\t"
                      + (Decimal(r.rows) + "\t" + Escape(PLAIN, r.query))))
    ensures Fields(r) == front + "\t" + Escape(PLAIN, r.plan)
  {
    hide Decimal, Hex, Escape;
  }

  lemma {:induction false} FieldsOneLine(r: Record)
    ensures '\n' !in Fields(r) && Fields(r) != ""
  {
    hide Decimal, Hex, Escape;
    DecimalReads(r.sequence);
    HexReads(r.previous);
    HexReads(r.hash);
    DecimalReads(r.rows);
    EscapeClean(PLAIN, r.query);
    EscapeClean(PLAIN, r.plan);
  }

  lemma {:induction false} LinesOfLine(r: Record, rest: string)
    ensures Lines(ToLine(r) + rest) == [Fields(AsRead(r))] + Lines(rest)
  {
    hide Lines, Fields, StripReturn;
    FieldsOneLine(r);
    LinesSplits(Fields(r), rest);
    FieldsStrip(r);
  }

  /** A line in front of anything adds the record it was written from, as read. */
  lemma {:induction false} LineParses(r: Record, rest: string)
    ensures Parse(ToLine(r) + rest)
         == match Parse(rest) case Failure(e) => Failure(e) case Success(rs) => Success([AsRead(r)] + rs)
  {
    hide Lines, Fields, ToLine, FromLine, StripReturn;
    LinesOfLine(r, rest);
    FieldsRead(AsRead(r));
    FieldsOneLine(AsRead(r));
    assert ([Fields(AsRead(r))] + Lines(rest))[1..] == Lines(rest);
  }

  function Render(records: seq<Record>): string {
    if records == [] then "" else ToLine(records[0]) + Render(records[1..])
  }

  function AllAsRead(records: seq<Record>): (s: seq<Record>)
    ensures |s| == |records|
    ensures forall i :: 0 <= i < |s| ==> s[i] == AsRead(records[i])
  {
    if records == [] then [] else [AsRead(records[0])] + AllAsRead(records[1..])
  }

  /**
   The lines of any records parse to exactly as many records, equal to those written but for a
   carriage return at the end of a plan. They are the same records if and only if no plan ends in one.
   */
  lemma {:induction false} RenderParses(records: seq<Record>)
    ensures Parse(Render(records)) == Success(AllAsRead(records))
    ensures Parse(Render(records)) == Success(records)
       <==> forall r :: r in records ==> !EndsInReturn(r.plan)
  {
    hide ToLine, Parse;
    RenderParsesAsRead(records);
    if r :| r in records && EndsInReturn(r.plan) {
      var i :| 0 <= i < |records| && records[i] == r;
      assert AllAsRead(records)[i].plan != records[i].plan;
    } else {
      assert AllAsRead(records) == records;
    }
  }

  lemma {:induction false} RenderParsesAsRead(records: seq<Record>)
    ensures Parse(Render(records)) == Success(AllAsRead(records))
  {
    hide ToLine, AsRead;
    if records == [] {
      assert Lines("") == [];
    } else {
      hide Parse;
      LineParses(records[0], Render(records[1..]));
      RenderParsesAsRead(records[1..]);
    }
  }

  /** A plan that ends in a carriage return is lost by writing and reading it. */
  lemma {:induction false} ReturnIsLost(r: Record)
    requires r.plan == "\r"
    ensures Parse(Render([r])) == Success([r.(plan := "")])
  {
    RenderParsesAsRead([r]);
    hide Parse, Render;
    assert StripReturn("\r") == "";
    assert AllAsRead([r]) == [AsRead(r)];
  }

  /** A log that is empty or whose last line is whole. */
  predicate Terminated(file: string) {
    file == "" || file[|file| - 1] == '\n'
  }

  lemma {:induction false} LinesAppend(file: string, more: string)
    requires Terminated(file)
    ensures Lines(file + more) == Lines(file) + Lines(more)
    decreases |file|
  {
    hide Lines, StripReturn, Terminated;
    if file == "" {
      assert file + more == more && Lines("") + Lines(more) == Lines(more) by {
        NoLines();
      }
    } else {
      var line, rest := FirstLine(file);
      LinesSplits(line, rest);
      LinesSplits(line, rest + more);
      assert (line + "\n" + rest) + more == line + "\n" + (rest + more);
      LinesAppend(rest, more);
    }
  }

  lemma NoLines()
    ensures Lines("") == []
  {}

  lemma {:induction false} FirstLine(file: string) returns (line: string, rest: string)
    requires Terminated(file) && file != ""
    ensures file == line + "\n" + rest && '\n' !in line && Terminated(rest)
  {
    if file[0] == '\n' || |file| == 1 {
      line, rest := "", file[1..];
    } else {
      line, rest := FirstLine(file[1..]);
      line := [file[0]] + line;
    }
  }

  lemma {:induction false} ParseLinesAppend(lines: seq<string>, more: seq<string>)
    ensures ParseLines(lines + more)
         == match ParseLines(lines)
            case Failure(e) => Failure(e)
            case Success(rs) =>
              match ParseLines(more) case Failure(e) => Failure(e) case Success(ss) => Success(rs + ss)
  {
    hide FromLine;
    if lines == [] {
      assert lines + more == more;
      assert ParseLines(more).Success? ==> [] + ParseLines(more).value == ParseLines(more).value;
    } else {
      assert (lines + more)[1..] == lines[1..] + more;
      ParseLinesAppend(lines[1..], more);
      var first, a, b := FromLine(lines[0]), ParseLines(lines[1..]), ParseLines(more);
      if first.Success? && a.Success? && b.Success? {
        assert [first.value] + (a.value + b.value) == ([first.value] + a.value) + b.value;
      }
    }
  }

  /** Appending a line to a whole log adds one record to what it parses to. */
  lemma {:induction false} AppendedLineParses(file: string, r: Record)
    requires Terminated(file) && Parse(file).Success?
    ensures Terminated(file + ToLine(r))
    ensures Parse(file + ToLine(r)) == Success(Parse(file).value + [AsRead(r)])
  {
    LinesAppend(file, ToLine(r));
    ParseLinesAppend(Lines(file), Lines(ToLine(r)));
    LineParses(r, "");
    assert ToLine(r) + "" == ToLine(r);
    hide Lines, Fields, ParseLines;
    NothingParses();
    assert [AsRead(r)] + [] == [AsRead(r)];
  }

  lemma NothingParses()
    ensures Parse("") == Success([])
  {
    assert Lines("") == [];
  }
}
