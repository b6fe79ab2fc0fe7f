/** Arm 2 of the multipart mutator: one more text field, and the seeds on which it goes wrong. */
module MultipartDescribe {
  import opened Wrappers
  import opened ByteStrings
  import opened MultipartParser
  import opened MultipartPrinter
  import opened MultipartMutator
  import opened MultipartArms
  import opened MultipartAppend

  function Described(content: Content): Content {
    content.(fields := content.fields[DESCRIPTION := STRUCTURE])
  }

  lemma DescriptionLegal()
    ensures LegalName(DESCRIPTION) && IsAscii(STRUCTURE) && '\r' !in STRUCTURE
  {
  }

  lemma DescriptionRead(lb: string)
    requires lb == CRLF || lb == LF
    ensures ReadPart(DescriptionPart(lb)) == Success(Part(DESCRIPTION, None, STRUCTURE))
  {
    hide ReadPart, PrintPart, FieldHeader;
    DescriptionLegal();
    FieldPartRead(lb, DESCRIPTION, STRUCTURE);
  }

  // ---------------------------------------------------------------- no delimiter inside

  predicate NoDashes(s: string) {
    forall k | 0 <= k < |s| - 1 :: s[k] == '-' ==> s[k + 1] != '-'
  }

  lemma NoDashesJoined(s: string, t: string)
    requires NoDashes(s) && NoDashes(t)
    requires s != "" && t != "" ==> s[|s| - 1] != '-' || t[0] != '-'
    ensures NoDashes(s + t)
  {
  }

  lemma LiteralsHaveNoDashes()
    ensures NoDashes(DISPOSITION) && NoDashes(FORM_DATA) && NoDashes(DESCRIPTION) && NoDashes(STRUCTURE)
  {
  }

  lemma NoDashesLacks(s: string, boundary: string)
    requires NoDashes(s)
    ensures !Contains(s, Delimiter(boundary))
  {
    var d := Delimiter(boundary);
    if Contains(s, d) {
      var k := Find(s, d);
      DelimiterAt(s, d, k);
    }
  }

  lemma DelimiterAt(s: string, d: string, k: int)
    requires OccursAt(s, d, k) && 2 <= |d| && d[0] == '-' && d[1] == '-'
    ensures 0 <= k < |s| - 1 && s[k] == '-' && s[k + 1] == '-'
  {
    assert s[k..k + |d|][0] == s[k] && s[k..k + |d|][1] == s[k + 1];
  }

  lemma ItemHasNoDashes(name: string)
    requires NoDashes(name)
    ensures NoDashes(ItemText("name", name))
  {
    var q := "\"" + name + "\"";
    assert NoDashes(q);
    NoDashesJoined("name" + "=", q);
  }

  lemma LineHasNoDashes(item: string)
    requires NoDashes(item)
    ensures NoDashes(DispositionLine([item]))
  {
    var items := "; " + item + "";
    assert ItemsText([item]) == items by {
      assert [item][1..] == [];
    }
    LiteralsHaveNoDashes();
    assert NoDashes(items);
    NoDashesJoined(FORM_DATA, items);
    NoDashesJoined(" ", FORM_DATA + items);
    NoDashesJoined(DISPOSITION + ":", " " + (FORM_DATA + items));
  }

  lemma PartHasNoDashes(lb: string, header: string, content: string)
    requires lb == CRLF || lb == LF
    requires NoDashes(header) && NoDashes(content)
    ensures var part := PrintPart(lb, header, content);
      NoDashes(part) && part != "" && part[|part| - 1] == '\n'
  {
    NoDashesJoined(header, lb + lb);
    NoDashesJoined(content, lb);
    NoDashesJoined(header + (lb + lb), content + lb);
    NoDashesJoined(lb, header + (lb + lb) + (content + lb));
  }

  /** The new part holds no delimiter, and does not run into the one after it. */
  lemma DescriptionClean(lb: string, boundary: string)
    requires (lb == CRLF || lb == LF) && PrintableBoundary(boundary)
    ensures var d := Delimiter(boundary); Find(DescriptionPart(lb) + d, d) == |DescriptionPart(lb)|
  {
    hide NoDashes, ItemText, PrintPart, FieldHeader;
    LiteralsHaveNoDashes();
    ItemHasNoDashes(DESCRIPTION);
    LineHasNoDashes(ItemText("name", DESCRIPTION));
    FieldHeaderLine(DESCRIPTION);
    PartHasNoDashes(lb, FieldHeader(DESCRIPTION), STRUCTURE);
    CleanBeforeDelimiter(DescriptionPart(lb), boundary);
  }

  lemma FieldHeaderLine(name: string)
    ensures FieldHeader(name) == DispositionLine([ItemText("name", name)])
  {
  }

  lemma CleanBeforeDelimiter(part: string, boundary: string)
    requires PrintableBoundary(boundary) && NoDashes(part)
    requires part != "" && part[|part| - 1] == '\n'
    ensures var d := Delimiter(boundary); Find(part + d, d) == |part|
  {
    var d := Delimiter(boundary);
    var p := part[..|part| - 1];
    PrintableDelimiter(boundary);
    NoDashesLacks(part, boundary);
    SliceLacks(part, 0, |part| - 1, d);
    assert LF[0] == '\n';
    CleanPart(p, '\n', d);
    assert part == p + ['\n'];
  }

  // ---------------------------------------------------------------- the parsed content

  lemma ReadEachAppend(segments: seq<string>, text: string)
    ensures ReadEach(segments + [text]) == ReadEach(segments) + [ReadPart(text)]
  {
    hide ReadPart;
  }

  lemma SegmentsDescribed(parts: seq<string>, lb: string, content: Content)
    requires ReadSegments(parts) == Success(content) && (lb == CRLF || lb == LF)
    ensures ReadSegments(WithDescription(parts, lb)) ==
      if DESCRIPTION in content.fields then Failure(FieldDuplicate) else Success(Described(content))
  {
    hide ReadPart, DescriptionPart, AddParts, ReadEach;
    var inner := parts[1..|parts| - 1];
    var now := WithDescription(parts, lb);
    assert now[1..|now| - 1] == inner + [DescriptionPart(lb)] && now[|now| - 1] == parts[|parts| - 1];
    ReadEachAppend(inner, DescriptionPart(lb));
    DescriptionRead(lb);
    AddPartsAppend(ReadEach(inner), [Success(Part(DESCRIPTION, None, STRUCTURE))], Form(map[], []));
    DescriptionAdded(AddParts(ReadEach(inner), Form(map[], [])).value, content);
  }

  /** Adding the field to the finished form. */
  lemma DescriptionAdded(form: Form, content: Content)
    requires Finish(form) == Success(content)
    ensures var more := AddParts([Success(Part(DESCRIPTION, None, STRUCTURE))], form);
      if DESCRIPTION in content.fields then more == Failure(FieldDuplicate)
      else more.Success? && Finish(more.value) == Success(Described(content))
  {
    DescriptionLegal();
    AsciiIsUtf8(STRUCTURE);
    OneAdded(form, Part(DESCRIPTION, None, STRUCTURE));
    hide AddParts;
  }

  lemma OneAdded(form: Form, part: Part)
    ensures AddParts([Success(part)], form) == AddPart(form, part)
  {
    var parts: seq<Result<Part, Error>> := [Success(part)];
    assert parts[1..] == [];
  }

  lemma CleanDescribed(parts: seq<string>, lb: string, boundary: string)
    requires 3 <= |parts| && Clean(parts, Delimiter(boundary)) && PrintableBoundary(boundary)
    requires lb == CRLF || lb == LF
    ensures Clean(WithDescription(parts, lb), Delimiter(boundary))
  {
    hide DescriptionPart;
    DescriptionClean(lb, boundary);
  }

  // ---------------------------------------------------------------- the whole seed

  /** The line break of the body is CRLF although the header block ends in LF LF. */
  predicate MixedLineBreaks(v: View) {
    v.sep == LF + LF && Contains(v.body, CRLF)
  }

  lemma PartLacksReturn(header: string, content: string)
    requires '\r' !in header && '\r' !in content
    ensures '\r' !in PrintPart(LF, header, content)
  {
  }

  lemma DescriptionLacksReturn()
    ensures '\r' !in DescriptionPart(LF)
  {
    assert '\r' !in FieldHeader(DESCRIPTION);
    DescriptionLegal();
    PartLacksReturn(FieldHeader(DESCRIPTION), STRUCTURE);
  }

  /** The new seed around the new part. */
  lemma DescribedText(v: View)
    requires 3 <= |v.parts| && v.body == Join(v.parts, Delimiter(v.boundary))
    ensures var d := Delimiter(v.boundary);
      var x := v.header + v.sep + Join(v.parts[..|v.parts| - 1], d);
      var last := v.parts[|v.parts| - 1];
      && v.header + v.sep + v.body == x + d + last
      && AddDescription(v) == x + d + DescriptionPart(LineBreak(v.body)) + d + last
  {
    hide DescriptionPart;
    var d := Delimiter(v.boundary);
    var n := |v.parts| - 1;
    var part := DescriptionPart(LineBreak(v.body));
    var a, last := v.parts[..n], v.parts[n];
    assert v.parts == a + [last] && v.parts[n..] == [last];
    JoinAppend(a, [last], d);
    assert a + [part] + [last] == a + ([part] + [last]);
    JoinAppend(a, [part] + [last], d);
    JoinAppend([part], [last], d);
  }

  lemma DelimiterForeign(boundary: string)
    requires PrintableBoundary(boundary)
    ensures Foreign(Delimiter(boundary), CRLF + CRLF)
  {
    PrintableDelimiter(boundary);
    var d := Delimiter(boundary);
    forall i | 0 <= i < |d|
      ensures d[i] !in CRLF + CRLF
    {
      assert CRLF[0] !in d && CRLF[1] !in d;
    }
  }

  /** Unless line breaks are mixed, the blank line after the headers stays the first one. */
  lemma DescribedBlankLine(seed: string, v: View)
    requires seed == v.header + v.sep + v.body && v.sep == BlankLine(seed)
    requires 3 <= |v.parts| && v.body == Join(v.parts, Delimiter(v.boundary)) && PrintableBoundary(v.boundary)
    requires !MixedLineBreaks(v)
    ensures BlankLine(AddDescription(v)) == v.sep
  {
    hide DescriptionPart, WithDescription, Join;
    var d := Delimiter(v.boundary);
    if v.sep == CRLF + CRLF {
      BlankPresent(v.header, Join(WithDescription(v.parts, LineBreak(v.body)), d));
    } else {
      DescribedText(v);
      var x := v.header + v.sep + Join(v.parts[..|v.parts| - 1], d);
      var last := v.parts[|v.parts| - 1];
      var sep := CRLF + CRLF;
      DelimiterForeign(v.boundary);
      ContainsAcrossText(x, d, last, sep);
      DescriptionLacksReturn();
      assert sep[0] == '\r';
      LacksChar(DescriptionPart(LF), sep, '\r');
      ContainsAcrossText(x, d, DescriptionPart(LF), sep);
      ContainsAcrossText(x + d + DescriptionPart(LF), d, last, sep);
    }
  }

  lemma FirstPartKept(parts: seq<string>, lb: string)
    requires 3 <= |parts|
    ensures var now := WithDescription(parts, lb); now[0] == parts[0] && now[1] == parts[1]
  {
  }

  lemma AddedMessage(seed: string, r: Seed, v: View)
    requires Agree(seed, r, v) && !MixedLineBreaks(v)
    ensures Parse(AddDescription(v)) ==
      if DESCRIPTION in r.content.fields then Failure(FieldDuplicate)
      else Success(r.(content := Described(r.content)))
  {
    hide ReadHead, ReadBody, ReadSegments, Find, Split, BlankLine, Clean, ViewSeed, ViewFile, Parse,
      WithDescription, StartsWith;
    var lb := LineBreak(v.body);
    AcceptedView(seed, r, v);
    BoundaryPrintable(seed, r);
    AcceptedBody(v.body, v.boundary, r.content);
    SegmentsDescribed(v.parts, lb, r.content);
    CleanDescribed(v.parts, lb, v.boundary);
    FirstPartKept(v.parts, lb);
    var now := WithDescription(v.parts, lb);
    ReadJoined(now, v.boundary);
    DescribedBlankLine(seed, v);
    ParseJoined(v.header, v.sep, Join(now, Delimiter(v.boundary)));
  }

  // ---------------------------------------------------------------- where it goes wrong

  lemma OneBreak(g: string)
    requires '\n' !in g
    ensures !Contains(CRLF + g, CRLF + CRLF)
  {
    var s, sep := CRLF + g, CRLF + CRLF;
    forall j | 2 <= j < |s|
      ensures s[j] != '\n'
    {
      assert s[j] == g[j - 2];
    }
    if Contains(s, sep) {
      BreakAt(s, Find(s, sep));
    }
  }

  lemma BreakAt(s: string, k: int)
    requires OccursAt(s, CRLF + CRLF, k)
    ensures 0 <= k && k + 3 < |s| && s[k + 3] == '\n'
  {
    assert s[k..k + 4][3] == s[k + 3];
  }

  /** A body that starts with anything but a delimiter is refused. */
  lemma BodyRefused(headText: string, body: string)
    requires body != "" && body[0] != '-'
    ensures ReadMessage(headText, body).Failure?
  {
    hide ReadHead, ReadSegments, Split;
    var head := ReadHead(headText);
    if head.Success? {
      var d := Delimiter(head.value.boundary);
      assert (d + CRLF)[0] == '-' && (d + LF)[0] == '-';
      assert |d + CRLF| <= |body| ==> body[..|d + CRLF|][0] == body[0];
      assert |d + LF| <= |body| ==> body[..|d + LF|][0] == body[0];
    }
  }

  /** A text whose first CRLF CRLF stands after `p` and a quote is cut there. */
  lemma ParseCutAtQuote(p: string, rest: string)
    requires !Contains(p, CRLF + CRLF) && rest != "" && rest[0] != '-'
    ensures Parse(p + ['"'] + (CRLF + CRLF) + rest).Failure?
  {
    hide ReadMessage, Find;
    var sep := CRLF + CRLF;
    CleanPart(p, '"', sep);
    BlankPresent(p + ['"'], rest);
    CutPrinted(p + ['"'], sep, rest);
    BodyRefused(p + ['"'], rest);
  }

  lemma DescriptionShape(g: string)
    requires FieldHeader(DESCRIPTION) == g + ['"']
    ensures DescriptionPart(CRLF) == (CRLF + g) + ['"'] + (CRLF + CRLF) + (STRUCTURE + CRLF)
  {
    hide FieldHeader;
    assert CRLF + ((g + ['"']) + (CRLF + CRLF) + (STRUCTURE + CRLF))
      == (CRLF + g) + ['"'] + (CRLF + CRLF) + (STRUCTURE + CRLF);
  }

  lemma Spread(x: string, d: string, h: string, q: string, sep: string, t: string, last: string)
    ensures x + d + (h + q + sep + t) + d + last == (x + d + h) + q + sep + (t + d + last)
  {
  }

  /** With mixed line breaks the new part brings the first CRLF CRLF, and the seed is refused. */
  lemma MixedRefused(seed: string, v: View)
    requires seed == v.header + v.sep + v.body && v.sep == BlankLine(seed)
    requires 3 <= |v.parts| && v.body == Join(v.parts, Delimiter(v.boundary)) && PrintableBoundary(v.boundary)
    requires MixedLineBreaks(v)
    ensures Parse(AddDescription(v)).Failure?
  {
    hide DescriptionPart, WithDescription, Join, Parse, Find;
    var d := Delimiter(v.boundary);
    var sep := CRLF + CRLF;
    var x := v.header + v.sep + Join(v.parts[..|v.parts| - 1], d);
    var last := v.parts[|v.parts| - 1];
    DescribedText(v);
    DelimiterForeign(v.boundary);
    ContainsAcrossText(x, d, last, sep);
    FieldHeaderShape(DESCRIPTION);
    var h := FieldHeader(DESCRIPTION);
    var g := h[..|h| - 1];
    DescriptionShape(g);
    OneBreak(g);
    ContainsAcrossText(x, d, CRLF + g, sep);
    var rest := STRUCTURE + CRLF + d + last;
    Spread(x, d, CRLF + g, ['"'], sep, STRUCTURE + CRLF, last);
    assert STRUCTURE[0] == 'n';
    ParseCutAtQuote(x + d + (CRLF + g), rest);
  }

  /**
   Arm 2.  The result parses to the old content with the one new field exactly when the seed has no
   `description` yet and does not mix a LF LF header block with CRLF in its body.
   */
  lemma AddedMeaning(seed: string, r: Seed, v: View, c: char, maxSize: nat)
    requires Agree(seed, r, v) && Untruncated(AddDescription(v), maxSize)
    ensures Parse(Mutate(seed, 2, c, maxSize)) == Success(r.(content := Described(r.content)))
      <==> DESCRIPTION !in r.content.fields && !MixedLineBreaks(v)
  {
    hide ReadHead, ReadBody, ReadSegments, Find, Split, BlankLine, Clean, ViewSeed, ViewFile, Parse,
      WithDescription, StartsWith;
    if MixedLineBreaks(v) {
      AcceptedView(seed, r, v);
      BoundaryPrintable(seed, r);
      AcceptedBody(v.body, v.boundary, r.content);
      MixedRefused(seed, v);
    } else {
      AddedMessage(seed, r, v);
    }
  }
}
