/** The reference corpus: one document a line, written by the fetcher and read by the loader. */
module Corpus {
  import opened Text
  import opened Wrappers

  /** The corpus escapes carriage returns too. */
  const FULL: Dialect := Dialect(true)

  /** A text shorter than this is a stub and is not collected. */
  const STUB: nat := 500

  datatype Document = Document(id: string, language: string, title: string, text: string)

  // ---------------------------------------------------------------- the fetcher

  /** `str.replace` of one character throughout. */
  function Replace(text: string, c: char, put: string): string {
    if text == "" then "" else (if text[0] == c then put else [text[0]]) + Replace(text[1..], c, put)
  }

  /** Four replacements of the whole text, one after the other. */
  function FetcherEscape(text: string): string {
    Replace(Replace(Replace(Replace(text, '\\', "\\\\"), '\t', "\\t"), '\n', "\\n"), '\r', "\\r")
  }

  lemma {:induction false} ReplaceAppend(a: string, b: string, c: char, put: string)
    ensures Replace(a + b, c, put) == Replace(a, c, put) + Replace(b, c, put)
  {
    if a == "" {
      assert a + b == b;
    } else {
      ReplaceAppend(a[1..], b, c, put);
      assert (a + b)[1..] == a[1..] + b;
      var first := if a[0] == c then put else [a[0]];
      var rest, more := Replace(a[1..], c, put), Replace(b, c, put);
      assert first + (rest + more) == (first + rest) + more;
    }
  }

  lemma {:induction false} FetcherEscapeAppend(a: string, b: string)
    ensures FetcherEscape(a + b) == FetcherEscape(a) + FetcherEscape(b)
  {
    hide Replace;
    ReplaceAppend(a, b, '\\', "\\\\");
    var a1, b1 := Replace(a, '\\', "\\\\"), Replace(b, '\\', "\\\\");
    ReplaceAppend(a1, b1, '\t', "\\t");
    var a2, b2 := Replace(a1, '\t', "\\t"), Replace(b1, '\t', "\\t");
    ReplaceAppend(a2, b2, '\n', "\\n");
    ReplaceAppend(Replace(a2, '\n', "\\n"), Replace(b2, '\n', "\\n"), '\r', "\\r");
  }

  lemma {:induction false} ReplaceNothing(text: string, c: char, put: string)
    requires c !in text
    ensures Replace(text, c, put) == text
  {
    if text != "" {
      ReplaceNothing(text[1..], c, put);
      assert [text[0]] + text[1..] == text;
    }
  }

  lemma {:induction false} ReplaceOne(c: char, put: string)
    ensures Replace([c], c, put) == put
  {
    assert [c][1..] == "" && Replace("", c, put) == "";
    assert put + "" == put;
  }

  lemma {:induction false} FetcherEscapesChar(c: char)
    ensures FetcherEscape([c]) == EscapeChar(FULL, c)
  {
    if c == '\\' {
      ReplaceOne('\\', "\\\\");
    } else {
      ReplaceNothing([c], '\\', "\\\\");
    }
    var s1 := Replace([c], '\\', "\\\\");
    if c == '\t' {
      ReplaceOne('\t', "\\t");
    } else {
      ReplaceNothing(s1, '\t', "\\t");
    }
    var s2 := Replace(s1, '\t', "\\t");
    if c == '\n' {
      ReplaceOne('\n', "\\n");
    } else {
      ReplaceNothing(s2, '\n', "\\n");
    }
    var s3 := Replace(s2, '\n', "\\n");
    if c == '\r' {
      ReplaceOne('\r', "\\r");
    } else {
      ReplaceNothing(s3, '\r', "\\r");
    }
  }

  /** The four replacements never touch what an earlier one put in: they are one escape per character. */
  lemma {:induction false} FetcherEscapeIsCharwise(text: string)
    ensures FetcherEscape(text) == Escape(FULL, text)
  {
    hide EscapeChar;
    if text == "" {
      EscapeOfNothing();
    } else {
      hide FetcherEscape;
      FetcherEscapeIsCharwise(text[1..]);
      FetcherEscapesChar(text[0]);
      FetcherEscapeAppend([text[0]], text[1..]);
      assert [text[0]] + text[1..] == text;
    }
  }

  lemma EscapeOfNothing()
    ensures FetcherEscape("") == "" && Escape(FULL, "") == ""
  {}

  function LineOf(d: Document): string {
    d.id + "\t" + (d.language + "\t" + (FetcherEscape(d.title) + "\t" + FetcherEscape(d.text)))
  }

  /** `"\n".join(lines) + "\n"`. */
  function Body(documents: seq<Document>): string {
    if |documents| == 0 then "\n"
    else if |documents| == 1 then LineOf(documents[0]) + "\n"
    else LineOf(documents[0]) + "\n" + Body(documents[1..])
  }

  /** The documents of a page that are not stubs. */
  function WithoutStubs(page: seq<Document>): seq<Document> {
    if page == [] then []
    else (if |page[0].text| < STUB then [] else [page[0]]) + WithoutStubs(page[1..])
  }

  lemma {:induction false} FirstStub(page: seq<Document>)
    requires page != []
    ensures WithoutStubs(page) == WithoutStubs([page[0]]) + WithoutStubs(page[1..])
  {
    assert [page[0]][1..] == [] && WithoutStubs([]) == [];
  }

  lemma {:induction false} StubsJoin(page: seq<Document>, more: seq<Document>)
    ensures WithoutStubs(page + more) == WithoutStubs(page) + WithoutStubs(more)
  {
    if page == [] {
      assert [] + more == more && WithoutStubs([]) == [];
    } else {
      FirstStub(page);
      FirstStub(page + more);
      hide *;
      StubsJoin(page[1..], more);
      assert (page + more)[1..] == page[1..] + more && (page + more)[0] == page[0];
      ConcatAssociates(WithoutStubs([page[0]]), WithoutStubs(page[1..]), WithoutStubs(more));
    }
  }

  lemma {:induction false} StubsLeave(page: seq<Document>, d: Document)
    ensures d in WithoutStubs(page) <==> d in page && |d.text| >= 500
  {
    if page != [] {
      StubsLeave(page[1..], d);
      assert page == [page[0]] + page[1..];
    }
  }

  lemma StubAlone(d: Document)
    ensures WithoutStubs([d]) == if |d.text| >= 500 then [d] else []
  {
    assert WithoutStubs([]) == [];
  }

  /** Exactly the documents of at least 500 characters are collected, page after page and in the order of each. */
  lemma {:induction false} StubsAreShort(page: seq<Document>, more: seq<Document>, d: Document)
    ensures d in WithoutStubs(page) <==> d in page && |d.text| >= 500
    ensures WithoutStubs([d]) == if |d.text| >= 500 then [d] else []
    ensures WithoutStubs(page + more) == WithoutStubs(page) + WithoutStubs(more)
  {
    hide *;
    StubsLeave(page, d);
    StubAlone(d);
    StubsJoin(page, more);
  }

  function LinesOf(documents: seq<Document>): seq<string> {
    if documents == [] then [] else [LineOf(documents[0])] + LinesOf(documents[1..])
  }

  lemma {:induction false} LinesInOrder(documents: seq<Document>, i: nat)
    requires i < |documents|
    ensures |LinesOf(documents)| == |documents| && LinesOf(documents)[i] == LineOf(documents[i])
  {
    hide LineOf;
    if |documents| > 1 {
      LinesInOrder(documents[1..], if i > 0 then i - 1 else 0);
    }
  }

  /** A file is its lines, each behind the ones before it and with a newline behind it; an empty one is a newline. */
  lemma {:induction false} BodySays(front: seq<Document>, last: Document)
    ensures Body([]) == "\n"
    ensures Body(front + [last]) == (if front == [] then "" else Body(front)) + LineOf(last) + "\n"
  {
    hide LineOf;
    if front == [] {
      assert front + [last] == [last];
    } else {
      BodySays(front[1..], last);
      assert (front + [last])[1..] == front[1..] + [last];
      assert |front| == 1 ==> front[1..] == [];
    }
  }

  /** The loop over one page: a line for every document that is no stub, behind the lines so far. */
  method CollectPage(lines: seq<string>, page: seq<Document>) returns (out: seq<string>)
    ensures out == lines + LinesOf(WithoutStubs(page))
  {
    out := lines;
    hide LineOf;
    assert lines + LinesOf(WithoutStubs(page)) == out + LinesOf(WithoutStubs(page[0..]));
    for i := 0 to |page|
      invariant lines + LinesOf(WithoutStubs(page)) == out + LinesOf(WithoutStubs(page[i..]))
    {
      assert page[i..][1..] == page[i + 1..];
      var rest := WithoutStubs(page[i + 1..]);
      if |page[i].text| < STUB {
        assert WithoutStubs(page[i..]) == [] + rest == rest;
        continue;
      }
      assert ([page[i]] + rest)[1..] == rest;
      assert (out + [LineOf(page[i])]) + LinesOf(rest) == out + ([LineOf(page[i])] + LinesOf(rest));
      out := out + [LineOf(page[i])];
    }
    assert page[|page|..] == [] && out + [] == out;
  }

  // ---------------------------------------------------------------- the loader

  /** One document from one line; anything but four fields is none. */
  function FromLine(line: string): Option<Document> {
    var fields := Split(line, '\t');
    if |fields| != 4 then None
    else Some(Document(fields[0], fields[1], Unescape(FULL, fields[2]), Unescape(FULL, fields[3])))
  }

  function ParseLines(lines: seq<string>): seq<Document> {
    if lines == [] then []
    else
      var rest := ParseLines(lines[1..]);
      if lines[0] == "" then rest
      else
        match FromLine(lines[0])
        case None => rest
        case Some(d) => [d] + rest
  }

  /** The documents of all lines that are not empty and read as one; other lines leave no trace. */
  function Parse(raw: string): seq<Document> {
    ParseLines(Lines(raw))
  }

  lemma {:induction false} FirstLine(lines: seq<string>)
    requires lines != []
    ensures ParseLines(lines) == ParseLines([lines[0]]) + ParseLines(lines[1..])
  {
    hide FromLine;
    assert [lines[0]][1..] == [] && ParseLines([]) == [];
  }

  lemma {:induction false} LinesJoin(a: seq<string>, b: seq<string>)
    ensures ParseLines(a + b) == ParseLines(a) + ParseLines(b)
  {
    if a == [] {
      assert [] + b == b && ParseLines([]) == [];
    } else {
      FirstLine(a);
      FirstLine(a + b);
      hide *;
      LinesJoin(a[1..], b);
      assert (a + b)[1..] == a[1..] + b && (a + b)[0] == a[0];
      ConcatAssociates(ParseLines([a[0]]), ParseLines(a[1..]), ParseLines(b));
    }
  }

  lemma ConcatAssociates<T>(a: seq<T>, b: seq<T>, c: seq<T>)
    ensures a + (b + c) == (a + b) + c
  {}

  /** Lines that are empty or no document are skipped, wherever they stand. */
  lemma {:induction false} OthersSkipped(front: seq<string>, line: string, rest: seq<string>)
    ensures ParseLines(front + [line] + rest)
         == ParseLines(front)
            + (if |Split(line, '\t')| == 4 then [FromLine(line).value] else [])
            + ParseLines(rest)
  {
    LineAlone(line);
    hide ParseLines, Split, FromLine;
    LinesJoin(front + [line], rest);
    LinesJoin(front, [line]);
  }

  lemma LineAlone(line: string)
    ensures ParseLines([line]) == if |Split(line, '\t')| == 4 then [FromLine(line).value] else []
  {
    hide Split, Unescape;
    EmptyHasOneField();
    assert ParseLines([]) == [];
  }

  lemma EmptyHasOneField()
    ensures |Split("", '\t')| == 1
  {}

  /** An id and a language that hold neither of the format's separators. */
  predicate Separable(d: Document) {
    && '\t' !in d.id && '\n' !in d.id
    && '\t' !in d.language && '\n' !in d.language
  }

  lemma {:induction false} LineReads(d: Document)
    requires Separable(d)
    ensures FromLine(LineOf(d)) == Some(d)
    ensures '\n' !in LineOf(d) && LineOf(d) != "" && !EndsInReturn(LineOf(d))
  {
    hide Split, Unescape, Escape, FetcherEscape;
    FetcherEscapeIsCharwise(d.title);
    FetcherEscapeIsCharwise(d.text);
    EscapeClean(FULL, d.title);
    EscapeClean(FULL, d.text);
    UnescapeEscape(FULL, d.title);
    UnescapeEscape(FULL, d.text);
    var title, text := FetcherEscape(d.title), FetcherEscape(d.text);
    SplitLast(text, '\t');
    SplitSplits(title, '\t', text);
    SplitSplits(d.language, '\t', title + "\t" + text);
    SplitSplits(d.id, '\t', d.language + "\t" + (title + "\t" + text));
    var line := LineOf(d);
    assert text != "" ==> line[|line| - 1] == text[|text| - 1];
    assert text == "" ==> line[|line| - 1] == '\t';
  }

  /** The four fields of a line: id and language as they are, title and text escaped. */
  lemma {:induction false} LineFields(d: Document)
    requires Separable(d)
    ensures Split(LineOf(d), '\t') == [d.id, d.language, Escape(FULL, d.title), Escape(FULL, d.text)]
  {
    hide Split, Escape, FetcherEscape;
    FetcherEscapeIsCharwise(d.title);
    FetcherEscapeIsCharwise(d.text);
    EscapeClean(FULL, d.title);
    EscapeClean(FULL, d.text);
    var title, text := Escape(FULL, d.title), Escape(FULL, d.text);
    SplitLast(text, '\t');
    SplitSplits(title, '\t', text);
    SplitSplits(d.language, '\t', title + "\t" + text);
    SplitSplits(d.id, '\t', d.language + "\t" + (title + "\t" + text));
  }

  lemma {:induction false} FirstLineReads(d: Document, rest: string)
    requires Separable(d)
    ensures Parse(LineOf(d) + "\n" + rest) == [d] + Parse(rest)
  {
    LineReads(d);
    hide LineOf, FromLine, Lines;
    LinesSplits(LineOf(d), rest);
    assert ([LineOf(d)] + Lines(rest))[1..] == Lines(rest);
  }

  lemma NothingReads()
    ensures Parse("") == [] && Parse("\n") == []
  {
    assert Lines("\n") == [""] + Lines("");
  }

  lemma {:induction false} SeparableReads(documents: seq<Document>)
    requires forall d :: d in documents ==> Separable(d)
    ensures Parse(Body(documents)) == documents
  {
    NothingReads();
    hide Parse, LineOf, Separable;
    if |documents| == 1 {
      FirstLineReads(documents[0], "");
      assert LineOf(documents[0]) + "\n" + "" == LineOf(documents[0]) + "\n";
    } else if |documents| > 1 {
      FirstLineReads(documents[0], Body(documents[1..]));
      SeparableReads(documents[1..]);
    }
  }

  lemma {:induction false} SplitClean(text: string, separator: char, other: char)
    requires other !in text
    ensures forall f :: f in Split(text, separator) ==> separator !in f && other !in f
    decreases |text|
  {
    var i := First(text, separator);
    if i < |text| {
      SplitClean(text[i + 1..], separator, other);
    }
  }

  lemma {:induction false} LinesClean(text: string)
    ensures forall line :: line in Lines(text) ==> '\n' !in line
    decreases |text|
  {
    if text != "" {
      var i := First(text, '\n');
      if i < |text| {
        LinesClean(text[i + 1..]);
      } else {
        assert text[..i] == text;
      }
    }
  }

  /** Whatever is read has an id and a language without separators. */
  lemma {:induction false} ReadIsSeparable(lines: seq<string>)
    requires forall line :: line in lines ==> '\n' !in line
    ensures forall d :: d in ParseLines(lines) ==> Separable(d)
  {
    hide Split, Unescape;
    if lines != [] {
      ReadIsSeparable(lines[1..]);
      SplitClean(lines[0], '\t', '\n');
    }
  }

  /**
   A file of documents reads back as those documents if and only if no id and no language holds a tab
   or a newline. Titles and texts may hold anything.
   */
  lemma {:induction false} CorpusReads(documents: seq<Document>)
    ensures Parse(Body(documents)) == documents <==> forall d :: d in documents ==> Separable(d)
  {
    hide Separable, Body;
    if forall d :: d in documents ==> Separable(d) {
      SeparableReads(documents);
    } else {
      LinesClean(Body(documents));
      ReadIsSeparable(Lines(Body(documents)));
    }
  }
}
