/** Arm 0 of the multipart mutator: the parsed content grows by exactly one byte. */
module MultipartAppend {
  import opened Wrappers
  import opened ByteStrings
  import opened MultipartParser
  import opened MultipartMutator
  import opened MultipartArms
  import opened MultipartPrinter

  predicate Choice(c: char) {
    c == 'A' || c == '!' || c == '0'
  }

  /** The blank line of a part whose header is not trivially short survives dropping its line start. */
  lemma SameBlankLine(part: string, n: nat)
    requires n <= |part| && n <= Find(part, BlankLine(part))
    ensures BlankLine(part[n..]) == BlankLine(part)
    ensures Find(part[n..], BlankLine(part)) == Find(part, BlankLine(part)) - n
  {
    FindShift(part, n, BlankLine(part));
    if !Contains(part, CRLF + CRLF) {
      SliceLacks(part, n, |part|, CRLF + CRLF);
      assert part[n..|part|] == part[n..];
    }
  }

  lemma LineEndRejoined(body: string)
    ensures DropLineEnd(body) + LineEnd(body) == body
  {
  }

  lemma ViewedFile(header: string, sep: string, body: string, f: FileView)
    requires Contains(header, FILEDATA) && f == FileView(header, sep, DropLineEnd(body), LineEnd(body))
    ensures 2 <= |f.header| && f.original + f.suffix == body
    ensures LineEnd(f.original + f.suffix) == f.suffix && DropLineEnd(f.original + f.suffix) == f.original
  {
    ContainsLength(header, FILEDATA);
    LineEndRejoined(body);
  }

  lemma ViewedHeader(part: string, f: FileView)
    requires ViewFile(part) == Some(f)
    ensures f.sep == BlankLine(part) && 2 <= |f.header|
    ensures Cut(part, f.sep) == Some((f.header, f.original + f.suffix))
    ensures LineEnd(f.original + f.suffix) == f.suffix && DropLineEnd(f.original + f.suffix) == f.original
  {
    var (header, body) := Cut(part, BlankLine(part)).value;
    ViewedFile(header, BlankLine(part), body, f);
  }

  lemma CutShift(s: string, n: nat, d: string, before: string, after: string)
    requires Cut(s, d) == Some((before, after)) && n <= |before|
    ensures Cut(s[n..], d) == Some((before[n..], after)) && s[..n] == before[..n]
  {
    FindShift(s, n, d);
    var k := Find(s, d);
    assert s[n..][..k - n] == s[..k][n..];
    assert s[n..][k - n + |d|..] == s[k + |d|..];
  }

  lemma LineEndAfter(prefix: string, c: char, suffix: string)
    requires c != '\r' && c != '\n'
    requires suffix == CRLF || suffix == LF || suffix == ""
    ensures LineEnd(prefix + [c] + suffix) == suffix
  {
    var n := |prefix|;
    var body := prefix + [c] + suffix;
    assert body[n] == c;
    if suffix == CRLF {
      assert body[n + 1] == '\r' && body[n + 2] == '\n' && |body| == n + 3;
    } else if suffix == LF {
      assert body[n + 1] == '\n' && |body| == n + 2;
    } else {
      assert |body| == n + 1;
    }
  }

  /** One more byte in front of the line end leaves the line end what it is. */
  lemma LineEndKept(original: string, suffix: string, c: char)
    requires Choice(c) && LineEnd(original + suffix) == suffix
    ensures DropLineEnd(original + [c] + suffix) == original + [c]
  {
    var body := original + [c] + suffix;
    LineEndAfter(original, c, suffix);
    assert body[..|body| - |suffix|] == original + [c];
  }

  /** Inserting a character foreign to line breaks makes no new blank line. */
  lemma BlankKept(x: string, c: char, y: string)
    requires Choice(c) && BlankLine(x + y) == LF + LF
    ensures BlankLine(x + [c] + y) == LF + LF
  {
    var sep := CRLF + CRLF;
    ContainsAcross(x, c, y, sep);
    SliceLacks(x + y, 0, |x|, sep);
    SliceLacks(x + y, |x|, |x + y|, sep);
    assert (x + y)[0..|x|] == x && (x + y)[|x|..|x + y|] == y;
  }

  lemma BlankPresent(header: string, rest: string)
    ensures BlankLine(header + (CRLF + CRLF) + rest) == CRLF + CRLF
  {
    var sep := CRLF + CRLF;
    OccursInSuffix(header, sep, sep, |header|);
    OccursInPrefix(header + sep, rest, sep, |header|);
  }

  lemma BlankLineKept(header: string, sep: string, original: string, suffix: string, c: char)
    requires Choice(c) && BlankLine(header + sep + (original + suffix)) == sep
    ensures BlankLine(header + sep + (original + [c] + suffix)) == sep
  {
    if sep == CRLF + CRLF {
      BlankPresent(header, original + [c] + suffix);
    } else {
      var x := header + sep + original;
      assert header + sep + (original + suffix) == x + suffix;
      assert header + sep + (original + [c] + suffix) == x + [c] + suffix;
      BlankKept(x, c, suffix);
    }
  }

  /** The file part with one more byte reads as before, with one more byte in its body. */
  lemma NewTextRead(header: string, f: FileView, c: char)
    requires Choice(c) && Cut(header + f.sep + (f.original + f.suffix), f.sep) == Some((header, f.original + f.suffix))
    requires BlankLine(header + f.sep + (f.original + f.suffix)) == f.sep
    requires LineEnd(f.original + f.suffix) == f.suffix
    ensures var text := header + f.sep + (f.original + [c] + f.suffix);
      && BlankLine(text) == f.sep && Cut(text, f.sep) == Some((header, f.original + [c] + f.suffix))
      && DropLineEnd(f.original + [c] + f.suffix) == f.original + [c]
  {
    BlankLineKept(header, f.sep, f.original, f.suffix, c);
    FindDelimiter(header, f.sep, f.original + f.suffix);
    CutPrinted(header, f.sep, f.original + [c] + f.suffix);
    LineEndKept(f.original, f.suffix, c);
  }

  /** Which line start is dropped depends on the first two bytes only. */
  lemma LineStartInHeader(header: string, rest: string)
    requires 2 <= |header|
    ensures DropLineStart(header + rest) == DropLineStart(header) + rest
  {
    var s := header + rest;
    assert s[..2] == header[..2];
    assert s[..1] == s[..2][..1] && header[..1] == header[..2][..1];
    assert s[2..] == header[2..] + rest && s[1..] == header[1..] + rest;
  }

  lemma PartText(segment: string, header: string, sep: string, body: string)
    requires DropLineStart(segment) == header + sep + body
    requires BlankLine(header + sep + body) == sep && Cut(header + sep + body, sep) == Some((header, body))
    ensures ReadPart(segment) == MakePart(header, body)
  {
  }

  /** Mutator and parser cut an accepted part at the same blank line. */
  lemma SameCut(part: string, sep: string, header: string, body: string)
    requires sep == BlankLine(part) && Cut(part, sep) == Some((header, body)) && 2 <= |header|
    ensures var text := DropLineStart(part);
      && BlankLine(text) == sep && Cut(text, sep) == Some((DropLineStart(header), body))
  {
    hide Find;
    var n := |header| - |DropLineStart(header)|;
    assert DropLineStart(header) == header[n..];
    CutParts(part, sep);
    assert part == header + (sep + body);
    LineStartInHeader(header, sep + body);
    assert DropLineStart(part) == part[n..] by {
      assert part[n..] == header[n..] + (sep + body);
    }
    SameBlankLine(part, n);
    CutShift(part, n, sep, header, body);
  }

  /** The text of a part, and how the parser cuts it, from how the mutator sees the part. */
  lemma ViewedText(part: string, f: FileView, p: Part)
    requires ViewFile(part) == Some(f) && ReadPart(part) == Success(p)
    ensures 2 <= |f.header|
    ensures var h, body := DropLineStart(f.header), f.original + f.suffix;
      && BlankLine(h + f.sep + body) == f.sep && Cut(h + f.sep + body, f.sep) == Some((h, body))
      && LineEnd(body) == f.suffix && DropLineEnd(body) == f.original
      && MakePart(h, body) == Success(p)
  {
    ViewedHeader(part, f);
    SameCut(part, f.sep, f.header, f.original + f.suffix);
    CutParts(DropLineStart(part), f.sep);
  }

  lemma NewPartText(f: FileView, c: char)
    requires 2 <= |f.header|
    ensures DropLineStart(NewPart(f, c)) == DropLineStart(f.header) + f.sep + (f.original + [c] + f.suffix)
  {
    var rest := f.sep + (f.original + [c] + f.suffix);
    LineStartInHeader(f.header, rest);
    assert NewPart(f, c) == f.header + rest;
  }

  /** The rewritten part reads like the old one, with one more byte in its body. */
  lemma NewPartRead(part: string, f: FileView, c: char, p: Part)
    requires Choice(c) && ViewFile(part) == Some(f) && ReadPart(part) == Success(p)
    ensures ReadPart(NewPart(f, c)) == Success(p.(body := p.body + [c]))
  {
    ViewedText(part, f, p);
    var h := DropLineStart(f.header);
    NewPartText(f, c);
    NewTextRead(h, f, c);
    PartText(NewPart(f, c), h, f.sep, f.original + [c] + f.suffix);
    GrownPart(h, f.original + f.suffix, f.original + [c] + f.suffix, p, c);
  }

  lemma GrownPart(h: string, was: string, now: string, p: Part, c: char)
    requires MakePart(h, was) == Success(p) && DropLineEnd(now) == DropLineEnd(was) + [c]
    ensures MakePart(h, now) == Success(p.(body := p.body + [c]))
  {
  }

  // ---------------------------------------------------------------- the parsed content

  /** The content that an accepted seed has after the part `p` grew by `c`. */
  function Grown(content: Content, p: Part, c: char): Content {
    if p.filename.Some? then content.(fileBytes := content.fileBytes + [c])
    else content.(fields := content.fields[p.name := p.body + [c]])
  }

  /** One part with another body, all others as they were. */
  lemma AddPartsOne(before: PartResults, p: Part, after: PartResults, form: Form, q: Part)
    requires AddParts(before + [Success(p)] + after, form).Success?
    requires q.name == p.name && q.filename == p.filename && ValidUtf8(q.body) == ValidUtf8(p.body)
    requires form.files == [] && |AddParts(before + [Success(p)] + after, form).value.files| == 1
    ensures var out := AddParts(before + [Success(p)] + after, form).value;
      && AddParts(before + [Success(q)] + after, form) == Success(
           if p.filename.None? then out.(fields := out.fields[p.name := q.body]) else out.(files := [q]))
      && (p.filename.Some? ==> out.files == [p])
  {
    assert before + [Success(p)] + after == before + ([Success(p)] + after);
    assert before + [Success(q)] + after == before + ([Success(q)] + after);
    AddPartsAppend(before, [Success(p)] + after, form);
    AddPartsAppend(before, [Success(q)] + after, form);
    var mid := AddParts(before, form).value;
    var next := AddPart(mid, p).value;
    assert ([Success(p)] + after)[1..] == after && ([Success(q)] + after)[1..] == after;
    AddPartsKeep(after, next);
    if p.filename.Some? {
      var out := AddParts(after, next).value;
      assert |next.files| <= |out.files|;
      assert mid.files == [];
      AddPartsFiles(after, next, [q]);
      assert AddPart(mid, q).value == next.(files := [q]);
      assert [q] + out.files[1..] == [q];
    } else {
      AddPartsField(after, next, p.name, q.body);
      assert mid.fields[p.name := q.body] == next.fields[p.name := q.body];
    }
  }

  lemma {:induction false} AllRead(parts: PartResults, form: Form, i: nat)
    requires AddParts(parts, form).Success? && i < |parts|
    ensures parts[i].Success?
    decreases |parts|
  {
    if i > 0 {
      AllRead(parts[1..], AddPart(form, parts[0].value).value, i - 1);
    }
  }

  lemma InnerRead(segments: seq<string>, k: nat)
    requires ReadSegments(segments).Success? && 1 <= k < |segments| - 1
    ensures ReadPart(segments[k]).Success?
  {
    hide ReadPart, AddPart;
    var inner := segments[1..|segments| - 1];
    AllRead(ReadEach(inner), Form(map[], []), k - 1);
    assert inner[k - 1] == segments[k];
  }

  lemma ReadEachReplaced(segments: seq<string>, k: nat, text: string)
    requires k < |segments|
    ensures var rs := ReadEach(segments);
      && rs == rs[..k] + [ReadPart(segments[k])] + rs[k + 1..]
      && ReadEach(segments[k := text]) == rs[..k] + [ReadPart(text)] + rs[k + 1..]
  {
    hide ReadPart;
  }

  lemma InnerReplaced(segments: seq<string>, k: nat, text: string)
    requires 1 <= k < |segments| - 1
    ensures segments[k := text][1..|segments| - 1] == segments[1..|segments| - 1][k - 1 := text]
  {
  }

  /** Only the part `k` changed, and it grew by `c`: so does the content. */
  lemma SegmentsGrown(segments: seq<string>, k: nat, text: string, p: Part, content: Content, c: char)
    requires ReadSegments(segments) == Success(content) && 1 <= k < |segments| - 1
    requires ReadPart(segments[k]) == Success(p) && ReadPart(text) == Success(p.(body := p.body + [c])) && Choice(c)
    ensures ReadSegments(segments[k := text]) == Success(Grown(content, p, c))
  {
    hide ReadPart;
    var inner := segments[1..|segments| - 1];
    var q := p.(body := p.body + [c]);
    var rs := ReadEach(inner);
    var form := AddParts(rs, Form(map[], [])).value;
    InnerReplaced(segments, k, text);
    ReadEachReplaced(inner, k - 1, text);
    Utf8Append(p.body, c);
    AddPartsOne(rs[..k - 1], p, rs[k..], Form(map[], []), q);
  }

  /** A part that carries a file name is the file part. */
  lemma FilePartBody(segments: seq<string>, k: nat, p: Part, content: Content)
    requires ReadSegments(segments) == Success(content) && 1 <= k < |segments| - 1
    requires ReadPart(segments[k]) == Success(p) && p.filename.Some?
    ensures content.fileBytes == p.body && content.filename == p.filename.value
  {
    hide ReadPart;
    var inner := segments[1..|segments| - 1];
    var rs := ReadEach(inner);
    InnerReplaced(segments, k, segments[k]);
    ReadEachReplaced(inner, k - 1, segments[k]);
    AddPartsOne(rs[..k - 1], p, rs[k..], Form(map[], []), p);
  }

  // ---------------------------------------------------------------- the whole seed

  lemma Regroup(a: string, z: string, m: string, s: string, t: string)
    ensures a + (z + m + s) + t == (a + z) + m + (s + t)
  {
  }

  lemma AroundParts(parts: seq<string>, k: nat, d: string, z: string, m: string, s: string)
    requires 1 <= k < |parts| - 1
    ensures Join(parts[k := z + m + s], d)
      == (Join(parts[..k], d) + d + z) + m + (s + (d + Join(parts[k + 1..], d)))
  {
    var now := parts[k := z + m + s];
    JoinAround(now, k, d);
    assert now[..k] == parts[..k] && now[k + 1..] == parts[k + 1..];
    var a, b := Join(parts[..k], d), Join(parts[k + 1..], d);
    assert a + d + (z + m + s) + d + b == a + d + (z + m + s) + (d + b);
    Regroup(a + d, z, m, s, d + b);
  }

  /** The new seed is the old one with one character put in. */
  lemma Inserted(v: View, c: char)
    requires 1 <= v.index < |v.parts| - 1
    requires v.parts[v.index] == v.file.header + v.file.sep + v.file.original + v.file.suffix
    ensures exists x, y ::
      && v.header + v.sep + Join(v.parts, Delimiter(v.boundary)) == x + y
      && AppendByte(v, c) == x + [c] + y
  {
    var d := Delimiter(v.boundary);
    var f := v.file;
    var z := f.header + f.sep + f.original;
    AroundParts(v.parts, v.index, d, z, [], f.suffix);
    AroundParts(v.parts, v.index, d, z, [c], f.suffix);
    assert z + [] == z;
    assert v.parts[v.index := z + [] + f.suffix] == v.parts;
    assert z + [c] + f.suffix == NewPart(f, c);
    var a, b := Join(v.parts[..v.index], d) + d + z, f.suffix + (d + Join(v.parts[v.index + 1..], d));
    Reassociate(v.header + v.sep, a, [], b);
    Reassociate(v.header + v.sep, a, [c], b);
    var x, y := v.header + v.sep + a, b;
    assert x + [] + y == x + y;
    assert v.header + v.sep + Join(v.parts, d) == x + y && AppendByte(v, c) == x + [c] + y;
  }

  lemma Reassociate(h: string, a: string, m: string, b: string)
    ensures h + (a + m + b) == (h + a) + m + b
  {
  }

  /** The condition under which the new byte completes no delimiter. */
  predicate NoNewDelimiter(v: View, c: char) {
    var part := NewPart(v.file, c);
    Find(part + Delimiter(v.boundary), Delimiter(v.boundary)) == |part|
  }

  lemma ViewedPart(seed: string, v: View)
    requires ViewSeed(seed) == Some(v)
    ensures v.parts[v.index] == v.file.header + v.file.sep + v.file.original + v.file.suffix
  {
    hide ViewSeed, ViewFile;
    ViewedFilePart(v.parts[v.index], v.file);
  }

  lemma ViewedFilePart(part: string, f: FileView)
    requires ViewFile(part) == Some(f)
    ensures part == f.header + f.sep + f.original + f.suffix
  {
    hide ViewFile, BlankLine, Find;
    ViewedHeader(part, f);
    CutParts(part, f.sep);
    FourParts(f.header, f.sep, f.original, f.suffix);
  }

  lemma FourParts(a: string, b: string, c: string, d: string)
    ensures a + b + (c + d) == a + b + c + d
  {
  }

  /**
   Arm 0.  When the new byte completes no delimiter, the seed parses to what it parsed to before,
   except that the body of the part the mutator chose has one more byte: the file bytes when that
   part carries a file name, else the text field of that part's name.
   */
  lemma AppendMeaning(seed: string, r: Seed, v: View, c: char, maxSize: nat)
    requires Agree(seed, r, v) && Choice(c) && Untruncated(AppendByte(v, c), maxSize) && NoNewDelimiter(v, c)
    ensures ReadPart(v.parts[v.index]).Success?
    ensures Parse(Mutate(seed, 0, c, maxSize))
      == Success(r.(content := Grown(r.content, ReadPart(v.parts[v.index]).value, c)))
  {
    hide ReadHead, ReadBody, ReadSegments, ReadPart, Find, Split, BlankLine, Clean, ViewSeed, ViewFile, Parse;
    var d := Delimiter(v.boundary);
    var k := v.index;
    AcceptedView(seed, r, v);
    BoundaryPrintable(seed, r);
    AcceptedBody(v.body, v.boundary, r.content);
    InnerRead(v.parts, k);
    var p := ReadPart(v.parts[k]).value;
    var text := NewPart(v.file, c);
    NewPartRead(v.parts[k], v.file, c, p);
    SegmentsGrown(v.parts, k, text, p, r.content, c);
    var parts := v.parts[k := text];
    CleanReplaced(v.parts, k, text, d);
    if k == 1 {
      FirstPartGrown(v.parts[1], v.file, c);
    }
    ReadJoined(parts, v.boundary);
    AppendBlankLine(seed, r, v, c);
    ParseJoined(v.header, v.sep, Join(parts, d));
  }

  lemma CleanReplaced(parts: seq<string>, k: nat, text: string, d: string)
    requires k < |parts| - 1 && Clean(parts, d) && Find(text + d, d) == |text|
    ensures Clean(parts[k := text], d)
  {
  }

  /** The part on either side of the mutation: the same header block, then different text. */
  lemma ViewedShape(part: string, f: FileView, c: char)
    requires ViewFile(part) == Some(f)
    ensures 2 <= |f.header|
    ensures part == f.header + (f.sep + (f.original + f.suffix))
    ensures NewPart(f, c) == f.header + (f.sep + (f.original + [c]) + f.suffix)
  {
    hide BlankLine, Find, ViewFile, StartsWith, NewPart;
    ViewedHeader(part, f);
    ViewedFilePart(part, f);
    RightParts(f.header, f.sep, f.original, f.suffix);
    NewPartShape(f, c);
  }

  lemma RightParts(a: string, b: string, c: string, d: string)
    ensures a + b + c + d == a + (b + (c + d))
  {
  }

  lemma NewPartShape(f: FileView, c: char)
    ensures NewPart(f, c) == f.header + (f.sep + (f.original + [c]) + f.suffix)
  {
  }

  /** The first part still starts with the line break that ends the first delimiter's line. */
  lemma FirstPartGrown(part: string, f: FileView, c: char)
    requires StartsWith(part, CRLF) || StartsWith(part, LF)
    requires ViewFile(part) == Some(f)
    ensures StartsWith(NewPart(f, c), CRLF) || StartsWith(NewPart(f, c), LF)
  {
    hide BlankLine, Find, ViewFile, StartsWith, NewPart;
    ViewedShape(part, f, c);
    var lead := if StartsWith(part, CRLF) then CRLF else LF;
    LeadKept(f.header, f.sep + (f.original + f.suffix), f.sep + (f.original + [c]) + f.suffix, lead);
  }

  lemma LeadKept(header: string, was: string, now: string, lead: string)
    requires |lead| <= |header|
    ensures StartsWith(header + was, lead) <==> StartsWith(header + now, lead)
  {
    assert (header + was)[..|lead|] == header[..|lead|] == (header + now)[..|lead|];
  }

  lemma AppendBlankLine(seed: string, r: Seed, v: View, c: char)
    requires Agree(seed, r, v) && Choice(c)
    ensures BlankLine(AppendByte(v, c)) == v.sep
  {
    hide ReadHead, ReadBody, ReadSegments, Find, Split, Clean, ViewFile;
    AcceptedView(seed, r, v);
    JoinSplit(v.body, Delimiter(v.boundary));
    ViewedPart(seed, v);
    Inserted(v, c);
    if v.sep == CRLF + CRLF {
      var d := Delimiter(v.boundary);
      BlankPresent(v.header, Join(v.parts[v.index := NewPart(v.file, c)], d));
    } else {
      var x, y :| seed == x + y && AppendByte(v, c) == x + [c] + y;
      BlankKept(x, c, y);
    }
  }

  lemma BoundaryPrintable(seed: string, r: Seed)
    requires Parse(seed) == Success(r)
    ensures PrintableBoundary(r.head.boundary)
  {
    hide ReadBody, ReadHeaders, ReadRequestLine, BlankLine, Split, Cut;
  }
}
