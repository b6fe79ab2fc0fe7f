/** What the parser can return at all, and with it the exact condition of the round trip. */
module MultipartLegal {
  import opened Wrappers
  import opened ByteStrings
  import opened MultipartParser
  import opened MultipartArms
  import opened MultipartRoundTrip

  // ---------------------------------------------------------------- pieces of a header block

  /** A piece of the header block `h`: ASCII, and within one line. */
  predicate LinePiece(h: string, x: string) {
    Contains(h, x) && IsAscii(x) && !Contains(x, LineBreak(h))
  }

  lemma PieceOfPiece(h: string, x: string, y: string)
    requires LinePiece(h, x) && Contains(x, y)
    ensures LinePiece(h, y)
  {
    hide LineBreak, Find;
    ContainsTransitive(h, x, y);
    var k := Find(x, y);
    forall i | 0 <= i < |y|
      ensures y[i] < 128 as char
    {
      assert y[i] == x[k..k + |y|][i] == x[k + i];
    }
    if Contains(y, LineBreak(h)) {
      ContainsTransitive(x, y, LineBreak(h));
    }
  }

  lemma EmptyPiece(h: string)
    ensures LinePiece(h, "")
  {
    hide Find;
    assert OccursAt(h, "", 0);
    EmptyLacks(LineBreak(h));
  }

  lemma CutPieces(s: string, d: string)
    requires Cut(s, d).Some?
    ensures Contains(s, Cut(s, d).value.0) && Contains(s, Cut(s, d).value.1)
  {
    hide OccursAt;
    var k := Find(s, d);
    SliceContained(s, 0, k);
    SliceContained(s, k + |d|, |s|);
    assert s[k + |d|..|s|] == s[k + |d|..];
  }

  /** The value on a header line is a piece of that line. */
  lemma LineValue(h: string, line: string)
    requires Contains(h, line) && !Contains(line, LineBreak(h)) && ReadLine(line).Some?
    ensures LinePiece(h, ReadLine(line).value.1)
  {
    hide Find, Lower, Trim, LineBreak;
    var (key, value) := Cut(line, ":").value;
    CutPieces(line, ":");
    TrimContained(value, IsSpace);
    ContainsTransitive(h, line, value);
    var lb := LineBreak(h);
    if Contains(value, lb) {
      ContainsTransitive(line, value, lb);
    }
    PieceOfPiece(h, value, Strip(value));
  }

  lemma {:induction false} HeaderPieces(h: string, lines: seq<string>, headers: Headers)
    requires forall i | 0 <= i < |lines| :: Contains(h, lines[i]) && !Contains(lines[i], LineBreak(h))
    requires forall k | k in headers :: LinePiece(h, headers[k])
    requires ReadPartHeaders(lines, headers).Success?
    ensures forall k | k in ReadPartHeaders(lines, headers).value ::
      LinePiece(h, ReadPartHeaders(lines, headers).value[k])
    decreases |lines|
  {
    hide ReadLine, LinePiece, Contains, LineBreak;
    if lines != [] {
      var (key, value) := ReadLine(lines[0]).value;
      LineValue(h, lines[0]);
      HeaderPieces(h, lines[1..], headers[key := value]);
    }
  }

  /** A parameter value: a piece of one line, without semicolon, and not in quotes. */
  predicate ParameterPiece(h: string, x: string) {
    LinePiece(h, x) && ';' !in x && (x != "" ==> x[0] != '"' && x[|x| - 1] != '"')
  }

  lemma ItemValue(h: string, item: string)
    requires LinePiece(h, item) && ';' !in item && ReadItem(item).Some?
    ensures ParameterPiece(h, ReadItem(item).value.1)
  {
    hide Find, Lower, Trim, LineBreak, LinePiece;
    var (key, value) := Cut(item, "=").value;
    CutPieces(item, "=");
    TrimContained(value, IsSpace);
    ContainsTransitive(item, value, Strip(value));
    TrimContained(Strip(value), (c: char) => c == '"');
    ContainsTransitive(item, Strip(value), StripQuotes(Strip(value)));
    PieceOfPiece(h, item, StripQuotes(Strip(value)));
    LacksPart(item, StripQuotes(Strip(value)), ';');
  }

  lemma LacksPart(s: string, x: string, c: char)
    requires Contains(s, x) && c !in s
    ensures c !in x
  {
    if c in x {
      CharOf(s, x, c);
    }
  }

  /** Items that are pieces of one line and hold no semicolon. */
  predicate PlainPieces(h: string, items: seq<string>) {
    forall i | 0 <= i < |items| :: LinePiece(h, items[i]) && ';' !in items[i]
  }

  lemma {:induction false} ParameterPieces(h: string, items: seq<string>, params: Headers)
    requires PlainPieces(h, items)
    requires forall k | k in params :: ParameterPiece(h, params[k])
    ensures forall k | k in ReadParameters(items, params) :: ParameterPiece(h, ReadParameters(items, params)[k])
    decreases |items|
  {
    hide ReadItem, LinePiece, ParameterPiece;
    if items != [] {
      if ReadItem(items[0]).Some? {
        var (key, value) := ReadItem(items[0]).value;
        ItemValue(h, items[0]);
        ParameterPieces(h, items[1..], params[key := value]);
      } else {
        ParameterPieces(h, items[1..], params);
      }
    }
  }

  lemma ItemPieces(h: string, value: string)
    requires LinePiece(h, value)
    ensures var items := StripAll(Split(value, ";"));
      PlainPieces(h, items)
  {
    hide Split, Trim, LinePiece, Find;
    var raw := Split(value, ";");
    SplitPiecesLack(value, ";");
    forall i | 0 <= i < |raw|
      ensures LinePiece(h, Strip(raw[i])) && ';' !in Strip(raw[i])
    {
      TrimContained(raw[i], IsSpace);
      ContainsTransitive(value, raw[i], Strip(raw[i]));
      PieceOfPiece(h, value, Strip(raw[i]));
      ContainsChar(raw[i], ';');
      LacksPart(raw[i], Strip(raw[i]), ';');
    }
  }

  /** What was read from items of one line. */
  predicate NamePieces(h: string, names: (string, Option<string>)) {
    && names.0 != "" && ParameterPiece(h, names.0)
    && (names.1.Some? ==> ParameterPiece(h, names.1.value) && LegalFilename(names.1.value))
  }

  lemma NamesFromItems(h: string, items: seq<string>)
    requires PlainPieces(h, items)
    requires NamesOf(items).Success?
    ensures NamePieces(h, NamesOf(items).value)
  {
    hide ReadParameters, LinePiece, ParameterPiece, LegalFilename;
    ParameterPieces(h, items, map[]);
  }

  lemma ValuePieces(h: string, value: string)
    requires LinePiece(h, value) && ReadDispositionValue(value).Success?
    ensures NamePieces(h, ReadDispositionValue(value).value)
  {
    hide Split, LinePiece, NamePieces, StripAll, NamesOf, Lower, PlainPieces;
    ItemPieces(h, value);
    var items := StripAll(Split(value, ";"));
    TailPieces(h, items);
    NamesFromItems(h, items[1..]);
  }

  lemma TailPieces(h: string, items: seq<string>)
    requires 1 <= |items| && PlainPieces(h, items)
    ensures PlainPieces(h, items[1..])
  {
    hide LinePiece;
    forall i | 0 <= i < |items[1..]|
      ensures LinePiece(h, items[1..][i]) && ';' !in items[1..][i]
    {
      assert items[1..][i] == items[i + 1];
    }
  }

  /** The names that a header block gives are parameter pieces of it. */
  lemma DispositionPieces(h: string)
    requires ReadDisposition(h).Success?
    ensures NamePieces(h, ReadDisposition(h).value)
  {
    hide Split, LinePiece, NamePieces, ReadDispositionValue, ReadPartHeaders, Find;
    var lines := Split(h, LineBreak(h));
    SplitPiecesLack(h, LineBreak(h));
    HeaderPieces(h, lines, map[]);
    EmptyPiece(h);
    ValuePieces(h, Get(ReadPartHeaders(lines, map[]).value, "content-disposition"));
  }

  // ---------------------------------------------------------------- parts

  /** Everything a part carries lacks `d`, and its names are such as a parameter can give. */
  predicate CarriedPart(p: Part, d: string) {
    && p.name != "" && CarriedName(p.name) && !Contains(p.name, d) && !Contains(p.body, d)
    && (p.filename.Some? ==> LegalUpload(p.filename.value) && !Contains(p.filename.value, d))
  }

  /** A name as a parameter can give it. */
  predicate CarriedName(name: string) {
    && name != "" && IsAscii(name) && ';' !in name && !Contains(name, CRLF)
    && name[0] != '"' && name[|name| - 1] != '"'
  }

  lemma PieceLacks(h: string, x: string, d: string)
    requires Contains(h, x) && !Contains(h, d)
    ensures !Contains(x, d)
  {
    if Contains(x, d) {
      ContainsTransitive(h, x, d);
    }
  }

  lemma PieceName(h: string, x: string)
    requires ParameterPiece(h, x) && x != ""
    ensures CarriedName(x)
  {
    if !Contains(h, CRLF) {
      PieceLacks(h, x, CRLF);
    }
  }

  lemma DropsAreSlices(segment: string)
    ensures Contains(segment, DropLineStart(segment))
    ensures Contains(segment, DropLineEnd(segment))
  {
    hide Contains;
    TailContained(segment, if StartsWith(segment, CRLF) then 2 else if StartsWith(segment, LF) then 1 else 0);
    HeadContained(segment, |segment| - |LineEnd(segment)|);
  }

  lemma TailContained(s: string, n: nat)
    requires n <= |s|
    ensures Contains(s, s[n..])
  {
    assert s[n..|s|] == s[n..];
    SliceContained(s, n, |s|);
  }

  lemma HeadContained(s: string, n: nat)
    requires n <= |s|
    ensures Contains(s, s[..n])
  {
    assert s[0..n] == s[..n];
    SliceContained(s, 0, n);
  }

  /** The header block and the body that a segment is cut into. */
  lemma PartPieces(segment: string) returns (h: string)
    requires ReadPart(segment).Success?
    ensures Contains(segment, h) && Contains(segment, ReadPart(segment).value.body)
    ensures ReadDisposition(h) == Success((ReadPart(segment).value.name, ReadPart(segment).value.filename))
    ensures h == Cut(DropLineStart(segment), BlankLine(DropLineStart(segment))).value.0
  {
    hide ReadDisposition, Find, DropLineStart, DropLineEnd, BlankLine;
    var text := DropLineStart(segment);
    DropsAreSlices(segment);
    CutPieces(text, BlankLine(text));
    var (header, body) := Cut(text, BlankLine(text)).value;
    DropsAreSlices(body);
    ContainsTransitive(segment, text, header);
    ContainsTransitive(segment, text, body);
    ContainsTransitive(segment, body, DropLineEnd(body));
    h := header;
    var (name, filename) := ReadDisposition(header).value;
    assert ReadPart(segment) == MakePart(header, body) == Success(Part(name, filename, DropLineEnd(body)));
    assert ReadPart(segment).value.body == DropLineEnd(body);
  }

  lemma PartCarried(segment: string, d: string)
    requires ReadPart(segment).Success? && !Contains(segment, d)
    ensures CarriedPart(ReadPart(segment).value, d)
  {
    hide ReadPart, ReadDisposition, Contains, IsAscii, LegalFilename, CarriedName, DropLineStart, BlankLine, Cut;
    var h := PartPieces(segment);
    var p := ReadPart(segment).value;
    DispositionPieces(h);
    PieceLacks(segment, p.body, d);
    PieceLacks(segment, h, d);
    PieceLacks(h, p.name, d);
    PieceName(h, p.name);
    if p.filename.Some? {
      PieceLacks(h, p.filename.value, d);
      FilenameLegal(h, p.filename.value);
    }
  }

  lemma FilenameLegal(h: string, filename: string)
    requires ParameterPiece(h, filename) && LegalFilename(filename)
    ensures LegalUpload(filename)
  {
  }

  lemma {:induction false} AddPartsAll(parts: PartResults, form: Form, ok: Part -> bool)
    requires AddParts(parts, form).Success?
    requires forall i | 0 <= i < |parts| && parts[i].Success? :: ok(parts[i].value)
    requires forall k | k in form.fields :: ok(Part(k, None, form.fields[k])) && ValidUtf8(form.fields[k])
    requires forall f | f in form.files :: ok(f)
    ensures var out := AddParts(parts, form).value;
      && (forall k | k in out.fields :: ok(Part(k, None, out.fields[k])) && ValidUtf8(out.fields[k]))
      && forall f | f in out.files :: ok(f)
    decreases |parts|
  {
    hide ValidUtf8;
    if parts != [] {
      AddPartsAll(parts[1..], AddPart(form, parts[0].value).value, ok);
    }
  }

  // ---------------------------------------------------------------- whole seeds

  /** The content that a body with delimiter `d` can carry. */
  predicate CarriedContent(content: Content, d: string) {
    && (forall k | k in content.fields ::
      && CarriedName(k) && !Contains(k, d) && !Contains(content.fields[k], d) && ValidUtf8(content.fields[k]))
    && LegalUpload(content.filename) && !Contains(content.filename, d) && !Contains(content.fileBytes, d)
  }

  lemma FormCarried(form: Form, d: string, content: Content)
    requires Finish(form) == Success(content)
    requires forall k | k in form.fields :: CarriedPart(Part(k, None, form.fields[k]), d) && ValidUtf8(form.fields[k])
    requires forall f | f in form.files :: CarriedPart(f, d) && f.filename.Some?
    ensures CarriedContent(content, d)
  {
    hide CarriedName, LegalUpload, Contains, ValidUtf8;
    assert form.files[0] in form.files;
  }

  lemma {:induction false} FilesNamed(parts: PartResults, form: Form)
    requires AddParts(parts, form).Success? && forall f | f in form.files :: f.filename.Some?
    ensures forall f | f in AddParts(parts, form).value.files :: f.filename.Some?
    decreases |parts|
  {
    hide ValidUtf8;
    if parts != [] {
      FilesNamed(parts[1..], AddPart(form, parts[0].value).value);
    }
  }

  lemma SegmentsCarried(segments: seq<string>, d: string, content: Content)
    requires ReadSegments(segments) == Success(content)
    requires forall i | 0 <= i < |segments| :: !Contains(segments[i], d)
    ensures CarriedContent(content, d)
  {
    hide ReadPart, Contains, CarriedPart, CarriedContent, Finish, AddParts, Terminator;
    var inner := segments[1..|segments| - 1];
    var parts := ReadEach(inner);
    var ok := (p: Part) => CarriedPart(p, d);
    forall i | 0 <= i < |parts| && parts[i].Success?
      ensures ok(parts[i].value)
    {
      assert inner[i] == segments[i + 1];
      PartCarried(inner[i], d);
    }
    var form := AddParts(parts, Form(map[], [])).value;
    AddPartsAll(parts, Form(map[], []), ok);
    FilesNamed(parts, Form(map[], []));
    FormCarried(form, d, content);
  }

  /**
   Whatever the parser accepts, it returns names and contents that the delimiter of the seed does not
   occur in, names as a quoted parameter can carry, and text values that are UTF-8.
   */
  lemma ParsedIsCarried(raw: string, r: Seed)
    requires Parse(raw) == Success(r)
    ensures CarriedContent(r.content, Delimiter(r.head.boundary))
  {
    hide ReadHead, ReadSegments, Split, Contains, CarriedContent, StartsWith, BlankLine, Cut;
    var d := Delimiter(r.head.boundary);
    var (headText, body) := Cut(raw, BlankLine(raw)).value;
    SplitPiecesLack(body, d);
    SegmentsCarried(Split(body, d), d, r.content);
  }
}
