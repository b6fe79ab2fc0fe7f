/** Arm 0 of the multipart mutator, exactly: when the longer content keeps the seed readable. */
module MultipartAppendExact {
  import opened Wrappers
  import opened ByteStrings
  import opened MultipartParser
  import opened MultipartPrinter
  import opened MultipartMutator
  import opened MultipartArms
  import opened MultipartAppend

  /** A part that ends in a line break holds a delimiter only where its header or its content does. */
  lemma NewPartHolds(f: FileView, c: char, boundary: string)
    requires f.sep == CRLF + CRLF || f.sep == LF + LF
    requires f.suffix == CRLF || f.suffix == LF
    requires PrintableBoundary(boundary)
    ensures var d := Delimiter(boundary);
      && Foreign(f.sep, d) && Foreign(f.suffix, d) && LF[0] !in d
      && (Contains(NewPart(f, c), d) <==> Contains(f.header, d) || Contains(f.original + [c], d))
  {
    hide Contains;
    var d := Delimiter(boundary);
    PrintableDelimiter(boundary);
    assert CRLF[0] !in d && CRLF[1] !in d && LF[0] !in d;
    var content := f.original + [c];
    ContainsAcrossText(f.header, f.sep, content + f.suffix, d);
    ContainsAcrossText(content, f.suffix, "", d);
    assert content + f.suffix + "" == content + f.suffix;
    assert f.header + f.sep + (content + f.suffix) == NewPart(f, c);
    EmptyLacks(d);
  }

  lemma HeaderLacks(part: string, f: FileView, d: string)
    requires part == f.header + f.sep + f.original + f.suffix && !Contains(part, d)
    ensures !Contains(f.header, d)
  {
    assert part[0..|f.header|] == f.header;
    SliceLacks(part, 0, |f.header|, d);
  }

  lemma CleanNewPart(v: View, c: char)
    requires v.file.sep == CRLF + CRLF || v.file.sep == LF + LF
    requires v.file.suffix == CRLF || v.file.suffix == LF
    requires PrintableBoundary(v.boundary)
    requires !Contains(v.file.header, Delimiter(v.boundary))
    requires !Contains(v.file.original + [c], Delimiter(v.boundary))
    ensures NoNewDelimiter(v, c)
  {
    hide Contains, Find;
    var d := Delimiter(v.boundary);
    var part := NewPart(v.file, c);
    NewPartHolds(v.file, c, v.boundary);
    assert part[|part| - 1] == v.file.suffix[|v.file.suffix| - 1] == '\n';
    var p := part[..|part| - 1];
    SliceLacks(part, 0, |part| - 1, d);
    assert part[0..|part| - 1] == p;
    CleanPart(p, '\n', d);
    assert part == p + ['\n'];
  }

  /** What arm 0 is meant to do to the meaning of a seed. */
  function AppendIntended(r: Seed, v: View, c: char): Seed
    requires v.index < |v.parts| && ReadPart(v.parts[v.index]).Success?
  {
    r.(content := Grown(r.content, ReadPart(v.parts[v.index]).value, c))
  }

  /** The content with one more byte in its file. */
  function FileGrown(content: Content, c: char): Content {
    content.(fileBytes := content.fileBytes + [c])
  }

  lemma ViewedSep(seed: string, v: View)
    requires ViewSeed(seed) == Some(v)
    ensures v.file.sep == CRLF + CRLF || v.file.sep == LF + LF
    ensures ReadPart(v.parts[v.index]).Success? ==> ReadPart(v.parts[v.index]).value.body == v.file.original
    ensures v.file.suffix == CRLF || v.file.suffix == LF || v.file.suffix == ""
  {
    hide Split, ViewBoundary, FindFile, ViewFile, Contains, ReadPart, ReadDisposition;
    var part := v.parts[v.index];
    ViewedHeader(part, v.file);
    if ReadPart(part).Success? {
      ViewedText(part, v.file, ReadPart(part).value);
      ViewedBody(v.file, ReadPart(part).value);
    }
  }

  lemma ViewedBody(f: FileView, p: Part)
    requires MakePart(DropLineStart(f.header), f.original + f.suffix) == Success(p)
    requires DropLineEnd(f.original + f.suffix) == f.original
    ensures p.body == f.original
  {
    hide ReadDisposition, DropLineEnd;
  }

  // ---------------------------------------------------------------- a delimiter that starts too early

  /** Where a text runs into the delimiter after it, splitting cuts it short at the first occurrence. */
  lemma {:induction false} SplitCutsShort(before: seq<string>, text: string, after: seq<string>, d: string)
    requires d != "" && after != []
    requires forall i | 0 <= i < |before| :: Find(before[i] + d, d) == |before[i]|
    requires Find(text + d, d) < |text|
    ensures var pieces := Split(Join(before + [text] + after, d), d);
      |before| + 1 < |pieces| && 0 <= Find(text + d, d) && pieces[|before|] == text[..Find(text + d, d)]
    decreases |before|
  {
    hide OccursAt, Find;
    var all := before + [text] + after;
    var s := Join(all, d);
    DelimiterFound(text, d);
    if before == [] {
      assert all[1..] == after && all[0] == text;
      FindEarly(text, d, Join(after, d));
    } else {
      var rest := Join(all[1..], d);
      assert all[1..] == before[1..] + [text] + after && all[0] == before[0];
      assert s == before[0] + d + rest;
      FindDelimiter(before[0], d, rest);
      assert s[|before[0]| + |d|..] == rest;
      SplitCutsShort(before[1..], text, after, d);
    }
  }

  lemma DelimiterFound(text: string, d: string)
    ensures 0 <= Find(text + d, d) <= |text|
  {
    assert OccursAt(text + d, d, |text|);
  }

  lemma FindEarly(text: string, d: string, rest: string)
    requires Find(text + d, d) < |text|
    ensures 0 <= Find(text + d, d) == Find(text + d + rest, d)
    ensures (text + d + rest)[..Find(text + d, d)] == text[..Find(text + d, d)]
  {
    hide OccursAt;
    var j := Find(text + d, d);
    DelimiterFound(text, d);
    forall k | k <= j
      ensures OccursAt(text + d + rest, d, k) <==> OccursAt(text + d, d, k)
    {
      OccursInPrefix(text + d, rest, d, k);
    }
  }

  /** Behind a header block and a blank line, an early delimiter leaves less than the whole longer content. */
  lemma EarlyInContent(front: string, x: string, d: string, whole: nat)
    requires front != "" && front[|front| - 1] !in d && d != "" && !Contains(front, d)
    requires whole <= |x| && forall i | whole <= i < |x| :: x[i] !in d
    requires Find(front + x + d, d) < |front + x|
    ensures |front| <= Find(front + x + d, d) < |front| + whole
    ensures x[Find(front + x + d, d) - |front|] == d[0]
  {
    hide Find;
    var s := front + x + d;
    var j := Find(s, d);
    DelimiterFound(front + x, d);
    var p, c := front[..|front| - 1], front[|front| - 1];
    assert s == p + [c] + (x + d);
    SliceLacks(front, 0, |front| - 1, d);
    assert front[0..|front| - 1] == p;
    NoStraddle(p, c, x + d, d, j);
    assert !OccursAt(p, d, j);
    FirstChar(s, d, j);
    assert forall i | whole <= i < |x| :: s[|front| + i] == x[i];
    assert forall i | |front| <= i < |front + x| :: s[i] == x[i - |front|];
  }

  /** The part cut short reads with the same names and a shorter body. */
  lemma CutPartRead(part: string, f: FileView, c: char, p: Part, n: nat)
    requires Choice(c) && ViewFile(part) == Some(f) && ReadPart(part) == Success(p)
    requires n <= |f.original|
    ensures var front := f.header + f.sep;
      var x := f.original + [c] + f.suffix;
      && NewPart(f, c) == front + x
      && ReadPart(front + x[..n]).Success?
      && var q := ReadPart(front + x[..n]).value;
      q.name == p.name && q.filename == p.filename && |q.body| <= n
  {
    hide Find, BlankLine, MakePart, ReadPart, DropLineStart, DropLineEnd, LineEnd, Cut, ViewFile, NewPart;
    ViewedText(part, f, p);
    var h := DropLineStart(f.header);
    var x := f.original + [c] + f.suffix;
    NewTextRead(h, f, c);
    CutText(h, f.sep, x, n);
    LineStartKept(f.header, f.sep, x[..n]);
    PartText(f.header + f.sep + x[..n], h, f.sep, x[..n]);
    NewPartJoined(f, c);
    OtherBody(h, f.original + f.suffix, x[..n], p);
  }

  lemma LineStartKept(header: string, sep: string, body: string)
    requires 2 <= |header|
    ensures DropLineStart(header + sep + body) == DropLineStart(header) + sep + body
  {
    hide DropLineStart;
    LineStartInHeader(header, sep + body);
    assert header + sep + body == header + (sep + body);
    var h := DropLineStart(header);
    assert h + sep + body == h + (sep + body);
  }

  lemma NewPartJoined(f: FileView, c: char)
    ensures NewPart(f, c) == (f.header + f.sep) + (f.original + [c] + f.suffix)
  {
  }

  /** The names of a part come from its header block, and its body is no longer than the text. */
  lemma OtherBody(h: string, was: string, now: string, p: Part)
    requires MakePart(h, was) == Success(p)
    ensures MakePart(h, now) == Success(Part(p.name, p.filename, DropLineEnd(now))) && |DropLineEnd(now)| <= |now|
  {
    hide ReadDisposition;
  }

  /** A part's text cut short in its body is cut at the same blank line. */
  lemma CutText(h: string, sep: string, x: string, n: nat)
    requires n <= |x| && BlankLine(h + sep + x) == sep && Cut(h + sep + x, sep) == Some((h, x))
    ensures BlankLine(h + sep + x[..n]) == sep && Cut(h + sep + x[..n], sep) == Some((h, x[..n]))
  {
    hide Find;
    var s := h + sep + x;
    CutParts(s, sep);
    assert |h| == Find(s, sep);
    FindDelimiter(h, sep, x);
    CutPrinted(h, sep, x[..n]);
    if sep == CRLF + CRLF {
      BlankPresent(h, x[..n]);
    } else {
      SliceLacks(s, 0, |h + sep| + n, CRLF + CRLF);
      assert s[0..|h + sep| + n] == h + sep + x[..n];
    }
  }

  // ---------------------------------------------------------------- what a part leaves in the content

  /** A part without a file name leaves its body in the field of its name. */
  lemma FieldPartBody(segments: seq<string>, k: nat, p: Part, content: Content)
    requires ReadSegments(segments) == Success(content) && 1 <= k < |segments| - 1
    requires ReadPart(segments[k]) == Success(p) && p.filename.None?
    ensures p.name in content.fields && content.fields[p.name] == p.body
  {
    hide ReadPart;
    var inner := segments[1..|segments| - 1];
    var rs := ReadEach(inner);
    InnerReplaced(segments, k, segments[k]);
    ReadEachReplaced(inner, k - 1, segments[k]);
    AddPartsOne(rs[..k - 1], p, rs[k..], Form(map[], []), p);
    var out := AddParts(rs, Form(map[], [])).value;
    assert out.fields == out.fields[p.name := p.body];
  }

  /** Two accepted bodies whose parts `k` have the same names: the contents tell the lengths of the two. */
  lemma PartTells(segments: seq<string>, k: nat, p: Part, content: Content,
                  segments': seq<string>, q: Part, c: char)
    requires ReadSegments(segments) == Success(content) && 1 <= k < |segments| - 1
      && ReadPart(segments[k]) == Success(p)
    requires 1 <= k < |segments'| - 1 && ReadPart(segments'[k]) == Success(q)
    requires q.name == p.name && q.filename == p.filename && |q.body| < |p.body|
    ensures ReadSegments(segments') != Success(Grown(content, p, c))
    ensures ReadSegments(segments') != Success(FileGrown(content, c))
  {
    hide ReadSegments, ReadPart;
    var read := ReadSegments(segments');
    if p.filename.Some? {
      FilePartBody(segments, k, p, content);
      if read.Success? {
        FilePartBody(segments', k, q, read.value);
      }
    } else {
      FieldPartBody(segments, k, p, content);
      if read.Success? {
        FieldPartBody(segments', k, q, read.value);
      }
    }
  }

  // ---------------------------------------------------------------- the whole seed

  /** When the new byte completes a delimiter, the body reads neither as intended nor with a longer file. */
  lemma EarlyDelimiter(v: View, r: Seed, p: Part, c: char)
    requires Choice(c) && PrintableBoundary(v.boundary) && 1 <= v.index < |v.parts| - 1
    requires ViewFile(v.parts[v.index]) == Some(v.file) && ReadPart(v.parts[v.index]) == Success(p)
    requires p.body == v.file.original && (v.file.sep == CRLF + CRLF || v.file.sep == LF + LF)
    requires v.file.suffix == CRLF || v.file.suffix == LF || v.file.suffix == ""
    requires Clean(v.parts, Delimiter(v.boundary)) && ReadSegments(v.parts) == Success(r.content)
    requires !Contains(v.parts[v.index], Delimiter(v.boundary)) && !NoNewDelimiter(v, c)
    ensures var read := ReadBody(Join(v.parts[v.index := NewPart(v.file, c)], Delimiter(v.boundary)), v.boundary);
      read != Success(Grown(r.content, p, c)) && read != Success(FileGrown(r.content, c))
  {
    hide ReadSegments, ReadPart, ViewFile, Find, BlankLine, Split, Clean, Contains, Join;
    var d := Delimiter(v.boundary);
    var k, f := v.index, v.file;
    var text := NewPart(f, c);
    var front, x := f.header + f.sep, f.original + [c] + f.suffix;
    DelimiterFound(text, d);
    NewPartJoined(f, c);
    FrontLacks(v.parts[k], f, v.boundary);
    SuffixOutside(f, c, v.boundary);
    EarlyInContent(front, x, d, |f.original| + 1);
    var n := Find(text + d, d) - |front|;
    assert n < |f.original| by {
      assert x[|f.original|] == c != d[0];
    }
    assert text[..|front| + n] == front + x[..n];
    CutPartRead(v.parts[k], f, c, p, n);
    CleanBefore(v.parts, k, d);
    SplitCutsShort(v.parts[..k], text, v.parts[k + 1..], d);
    assert v.parts[k := text] == v.parts[..k] + [text] + v.parts[k + 1..];
    var pieces := Split(Join(v.parts[k := text], d), d);
    PartTells(v.parts, k, p, r.content, pieces, ReadPart(pieces[k]).value, c);
  }

  lemma CleanBefore(parts: seq<string>, k: nat, d: string)
    requires k < |parts| && Clean(parts, d)
    ensures forall i | 0 <= i < k :: Find(parts[..k][i] + d, d) == |parts[..k][i]|
  {
    hide Find;
  }

  lemma FrontLacks(part: string, f: FileView, boundary: string)
    requires ViewFile(part) == Some(f) && (f.sep == CRLF + CRLF || f.sep == LF + LF)
    requires PrintableBoundary(boundary) && !Contains(part, Delimiter(boundary))
    ensures var front, d := f.header + f.sep, Delimiter(boundary);
      front != "" && front[|front| - 1] !in d && !Contains(front, d)
  {
    hide ViewFile, Contains;
    var d := Delimiter(boundary);
    var front := f.header + f.sep;
    ViewedFilePart(part, f);
    PrintableDelimiter(boundary);
    assert LF[0] !in d;
    assert part[0..|front|] == front;
    SliceLacks(part, 0, |front|, d);
  }

  lemma SuffixOutside(f: FileView, c: char, boundary: string)
    requires f.suffix == CRLF || f.suffix == LF || f.suffix == ""
    requires PrintableBoundary(boundary)
    ensures var x := f.original + [c] + f.suffix;
      forall i | |f.original| + 1 <= i < |x| :: x[i] !in Delimiter(boundary)
  {
    PrintableDelimiter(boundary);
    assert CRLF[0] !in Delimiter(boundary) && CRLF[1] !in Delimiter(boundary) && LF[0] !in Delimiter(boundary);
  }

  /**
   Arm 0, exactly: the seed parses to the old meaning with one more byte if and only if the delimiter
   behind the longer part is still the first one that starts in it.
   */
  lemma AppendExactly(seed: string, r: Seed, v: View, c: char, maxSize: nat)
    requires Agree(seed, r, v) && Choice(c) && Untruncated(AppendByte(v, c), maxSize)
    ensures ReadPart(v.parts[v.index]).Success?
    ensures Parse(Mutate(seed, 0, c, maxSize)) == Success(AppendIntended(r, v, c)) <==> NoNewDelimiter(v, c)
  {
    hide ReadHead, ReadBody, ReadSegments, ReadPart, Find, Split, BlankLine, Clean, ViewSeed, ViewFile, Parse,
      NoNewDelimiter, Mutate, AppendByte;
    var d := Delimiter(v.boundary);
    AcceptedView(seed, r, v);
    BoundaryPrintable(seed, r);
    AcceptedBody(v.body, v.boundary, r.content);
    InnerRead(v.parts, v.index);
    ViewedSep(seed, v);
    if NoNewDelimiter(v, c) {
      AppendMeaning(seed, r, v, c, maxSize);
    } else {
      SplitPiecesLack(v.body, d);
      EarlyDelimiter(v, r, ReadPart(v.parts[v.index]).value, c);
      AppendedMessage(seed, r, v, c, maxSize);
    }
  }

  /**
   Arm 0 appends one byte to the file bytes and changes nothing else if and only if no delimiter starts
   too early and the part that the mutator chose carries a file name.
   */
  lemma FileAppendExactly(seed: string, r: Seed, v: View, c: char, maxSize: nat)
    requires Agree(seed, r, v) && Choice(c) && Untruncated(AppendByte(v, c), maxSize)
    ensures ReadPart(v.parts[v.index]).Success?
    ensures Parse(Mutate(seed, 0, c, maxSize)) == Success(r.(content := FileGrown(r.content, c)))
      <==> NoNewDelimiter(v, c) && ReadPart(v.parts[v.index]).value.filename.Some?
  {
    hide ReadHead, ReadBody, ReadSegments, ReadPart, Find, Split, BlankLine, Clean, ViewSeed, ViewFile, Parse,
      NoNewDelimiter, Mutate, AppendByte;
    AppendExactly(seed, r, v, c, maxSize);
    var p := ReadPart(v.parts[v.index]).value;
    if NoNewDelimiter(v, c) {
      assert AppendIntended(r, v, c).content == Grown(r.content, p, c);
      assert |FileGrown(r.content, c).fileBytes| == |r.content.fileBytes| + 1;
      assert p.filename.Some? ==> Grown(r.content, p, c) == FileGrown(r.content, c);
      assert p.filename.None? ==> Grown(r.content, p, c).fileBytes == r.content.fileBytes;
    } else {
      AcceptedView(seed, r, v);
      BoundaryPrintable(seed, r);
      AcceptedBody(v.body, v.boundary, r.content);
      ViewedSep(seed, v);
      SplitPiecesLack(v.body, Delimiter(v.boundary));
      EarlyDelimiter(v, r, p, c);
      AppendedMessage(seed, r, v, c, maxSize);
    }
  }

  /** The seed with one more byte is read as its old head and its new body. */
  lemma AppendedMessage(seed: string, r: Seed, v: View, c: char, maxSize: nat)
    requires Agree(seed, r, v) && Choice(c) && Untruncated(AppendByte(v, c), maxSize)
    ensures Parse(Mutate(seed, 0, c, maxSize))
      == ReadMessage(v.header, Join(v.parts[v.index := NewPart(v.file, c)], Delimiter(v.boundary)))
    ensures ReadHead(v.header) == Success(r.head) && r.head.boundary == v.boundary
  {
    hide ReadHead, ReadBody, Find, Split, BlankLine, ViewSeed, ViewFile, Parse, Join, NewPart, ReadMessage;
    AcceptedView(seed, r, v);
    AppendBlankLine(seed, r, v, c);
    ParseJoined(v.header, v.sep, Join(v.parts[v.index := NewPart(v.file, c)], Delimiter(v.boundary)));
  }

  /**
   For a part that ends in a line break the condition is about the content alone: it does not hold the
   delimiter.
   */
  lemma AppendWithLineEnd(seed: string, r: Seed, v: View, c: char)
    requires Agree(seed, r, v) && Choice(c) && v.file.suffix != ""
    ensures NoNewDelimiter(v, c) <==> !Contains(v.file.original + [c], Delimiter(v.boundary))
  {
    hide ReadHead, ReadBody, ReadSegments, ReadPart, Find, Split, BlankLine, Clean, ViewSeed, ViewFile, Parse,
      Contains, NoNewDelimiter;
    var d := Delimiter(v.boundary);
    AcceptedView(seed, r, v);
    BoundaryPrintable(seed, r);
    AcceptedBody(v.body, v.boundary, r.content);
    ViewedSep(seed, v);
    SplitPiecesLack(v.body, d);
    ViewedPart(seed, v);
    HeaderLacks(v.parts[v.index], v.file, d);
    NewPartHolds(v.file, c, v.boundary);
    if !Contains(v.file.original + [c], d) {
      CleanNewPart(v, c);
    } else {
      HeldIsEarly(v, c);
    }
  }

  lemma HeldIsEarly(v: View, c: char)
    requires Contains(NewPart(v.file, c), Delimiter(v.boundary))
    ensures !NoNewDelimiter(v, c)
  {
    var d, part := Delimiter(v.boundary), NewPart(v.file, c);
    OccursInPrefix(part, d, d, Find(part, d));
  }
}
