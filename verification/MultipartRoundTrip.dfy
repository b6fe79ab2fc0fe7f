/** Printing a form and parsing it again. */
module MultipartRoundTrip {
  import opened Wrappers
  import opened ByteStrings
  import opened MultipartParser
  import opened MultipartPrinter
  import opened MultipartArms
  import opened MultipartAppend
  import opened MultipartDescribe

  /** A text field as the client is given it: its name and the UTF-8 bytes of its value. */
  type Field = (string, string)

  /** File names that survive printing and parsing. */
  predicate LegalUpload(filename: string) {
    && LegalFilename(filename) && IsAscii(filename) && ';' !in filename
    && filename[0] != '"' && filename[|filename| - 1] != '"'
  }

  /** Boundaries that no header text can run into. */
  predicate SafeBoundary(boundary: string) {
    PrintableBoundary(boundary) && ';' !in boundary && '"' !in boundary
  }

  // ---------------------------------------------------------------- the text

  function PrintFields(fields: seq<Field>, d: string): string {
    if fields == [] then ""
    else d + PrintPart(CRLF, FieldHeader(fields[0].0), fields[0].1) + PrintFields(fields[1..], d)
  }

  /** The body that the client sends. */
  function PrintBody(fields: seq<Field>, filename: string, fileBytes: string, boundary: string): string {
    var d := Delimiter(boundary);
    PrintFields(fields, d) + (d + PrintPart(CRLF, FileHeader(filename), fileBytes) + d + "--" + CRLF)
  }

  function FieldParts(fields: seq<Field>): (parts: seq<string>)
    ensures |parts| == |fields|
    ensures forall i | 0 <= i < |parts| :: parts[i] == PrintPart(CRLF, FieldHeader(fields[i].0), fields[i].1)
  {
    seq(|fields|, i requires 0 <= i < |fields| => PrintPart(CRLF, FieldHeader(fields[i].0), fields[i].1))
  }

  /** The segments between the delimiters of a printed body. */
  function PrintedSegments(fields: seq<Field>, filename: string, fileBytes: string): seq<string> {
    [""] + FieldParts(fields) + [PrintPart(CRLF, FileHeader(filename), fileBytes), "--" + CRLF]
  }

  lemma {:induction false} FieldsJoined(fields: seq<Field>, d: string, rest: seq<string>)
    requires rest != []
    ensures PrintFields(fields, d) + (d + Join(rest, d)) == d + Join(FieldParts(fields) + rest, d)
    decreases |fields|
  {
    hide PrintPart, FieldHeader;
    if fields == [] {
      assert FieldParts(fields) + rest == rest;
      assert "" + (d + Join(rest, d)) == d + Join(rest, d);
    } else {
      var first := PrintPart(CRLF, FieldHeader(fields[0].0), fields[0].1);
      var more := FieldParts(fields[1..]) + rest;
      assert FieldParts(fields) + rest == [first] + more;
      assert ([first] + more)[1..] == more;
      FieldsJoined(fields[1..], d, rest);
      Chain(d, first, PrintFields(fields[1..], d), d + Join(rest, d), Join(more, d));
    }
  }

  lemma Chain(d: string, first: string, fields: string, rest: string, more: string)
    requires fields + rest == d + more
    ensures d + first + fields + rest == d + (first + d + more)
  {
    assert d + first + fields + rest == d + (first + (fields + rest));
    assert first + (d + more) == first + d + more;
  }

  /** A printed body is the join of its segments. */
  lemma BodyJoined(fields: seq<Field>, filename: string, fileBytes: string, boundary: string)
    ensures PrintBody(fields, filename, fileBytes, boundary)
      == Join(PrintedSegments(fields, filename, fileBytes), Delimiter(boundary))
  {
    hide PrintPart, FileHeader;
    var d := Delimiter(boundary);
    var part, end := PrintPart(CRLF, FileHeader(filename), fileBytes), "--" + CRLF;
    var rest := [part, end];
    assert rest[1..] == [end];
    assert Join(rest, d) == part + d + end;
    FieldsJoined(fields, d, rest);
    assert d + part + d + "--" + CRLF == d + (part + d + end);
    var inner := FieldParts(fields) + rest;
    assert PrintedSegments(fields, filename, fileBytes) == [""] + inner;
    assert ([""] + inner)[1..] == inner;
    assert "" + d + Join(inner, d) == d + Join(inner, d);
  }

  // ---------------------------------------------------------------- reading the file part back

  function FileItems(filename: string): seq<string> {
    [ItemText("name", "filedata"), ItemText("filename", filename)]
  }

  lemma KeysPlain()
    ensures PlainKey("filename") && IsAscii("filename") && ';' !in "filename" && '\n' !in "filename"
    ensures IsAscii("filedata") && ';' !in "filedata" && '\n' !in "filedata"
  {
  }

  lemma FileItemsPlain(filename: string)
    requires LegalUpload(filename)
    ensures forall i | 0 <= i < 2 :: PlainItem(FileItems(filename)[i]) && '\n' !in FileItems(filename)[i]
  {
    hide ItemText, PlainItem;
    NamePlain();
    KeysPlain();
    ItemPlain("name", "filedata");
    ItemLacksLf("name", "filedata");
    assert '\n' !in filename;
    ItemPlain("filename", filename);
    ItemLacksLf("filename", filename);
  }

  lemma TwoParameters(a: string, b: string, name: string, filename: string)
    requires ReadItem(a) == Some(("name", name)) && ReadItem(b) == Some(("filename", filename))
    requires name != "" && LegalFilename(filename)
    ensures NamesOf([a, b]) == Success((name, Some(filename)))
  {
    hide ReadItem, LegalFilename;
    assert [a, b][1..] == [b] && [b][1..] == [];
    assert ReadParameters([b], map["name" := name]) == map["name" := name]["filename" := filename];
    assert ReadParameters([a, b], map[]) == map["name" := name, "filename" := filename];
  }

  lemma FileNames(filename: string)
    requires LegalUpload(filename)
    ensures NamesOf(FileItems(filename)) == Success(("filedata", Some(filename)))
  {
    assert filename != "" && "filedata"[0] != '"' && "filedata"[7] != '"';
    hide ReadItem, NamesOf, ItemText, LegalFilename;
    NamePlain();
    KeysPlain();
    Item("name", "filedata");
    Item("filename", filename);
    TwoParameters(ItemText("name", "filedata"), ItemText("filename", filename), "filedata", filename);
  }

  lemma TypeLineParts()
    ensures ':' !in TYPE_KEY && IsAscii(TYPE_KEY) && |TYPE_KEY| < 19 && '\n' !in TYPE_KEY
    ensures IsAscii(TYPE_VALUE) && '\n' !in TYPE_VALUE && |TYPE_VALUE| == 24
    ensures !IsSpace(TYPE_VALUE[0]) && !IsSpace(TYPE_VALUE[23]) && TYPE_VALUE[23] == 'm'
  {
  }

  lemma TypeLineRead()
    ensures ReadLine(TYPE_LINE).Some? && ReadLine(TYPE_LINE).value.0 != "content-disposition"
  {
    hide ReadLine, Strip, Lower, Trim, IsSpace;
    TypeLineParts();
    LineRead(TYPE_KEY, TYPE_VALUE);
    ShortKey(TYPE_KEY);
  }

  lemma ShortKey(key: string)
    requires |key| < 19
    ensures Lower(Strip(key)) != "content-disposition"
  {
    hide Lower, TrimLeft, TrimRight, Find;
    TrimContained(key, IsSpace);
    ContainsLength(key, Strip(key));
    assert |"content-disposition"| == 19;
  }

  lemma TwoLines(line: string, more: string)
    requires line != "" && line[|line| - 1] == '"' && !Contains(line, CRLF) && '\n' !in more
    ensures var text := line + CRLF + more;
      && Split(text, LineBreak(text)) == [line, more] && !Contains(text, CRLF + CRLF)
  {
    hide Find, OccursAt;
    var text := line + CRLF + more;
    assert CRLF[1] == '\n';
    LacksChar(more, CRLF, '\n');
    var p := line[..|line| - 1];
    assert line == p + ['"'];
    SliceLacks(line, 0, |line| - 1, CRLF);
    assert line[0..|line| - 1] == p;
    CleanPart(p, '"', CRLF);
    assert [line, more][1..] == [more];
    assert Join([line, more], CRLF) == text;
    assert Clean([line, more], CRLF);
    SplitJoin([line, more], CRLF);
    FindDelimiter(line, CRLF, more);
    assert text == p + ['"'] + (CRLF + more);
    ContainsAcross(p, '"', CRLF + more, CRLF + CRLF);
    OneBreak(more);
    TwoBreaksHoldOne(p);
  }

  lemma TwoBreaksHoldOne(s: string)
    requires !Contains(s, CRLF)
    ensures !Contains(s, CRLF + CRLF)
  {
    var w := CRLF + CRLF;
    if Contains(s, w) {
      assert w[0..2] == CRLF;
      SliceContained(w, 0, 2);
      ContainsTransitive(s, w, CRLF);
    }
  }

  lemma LineEndsInQuote(items: seq<string>)
    requires items != [] && items[|items| - 1] != "" && items[|items| - 1][|items[|items| - 1]| - 1] == '"'
    ensures var line := DispositionLine(items); line != "" && line[|line| - 1] == '"'
  {
    ItemsEndInQuote(items);
  }

  lemma {:induction false} ItemsEndInQuote(items: seq<string>)
    requires items != [] && items[|items| - 1] != "" && items[|items| - 1][|items[|items| - 1]| - 1] == '"'
    ensures ItemsText(items) != "" && ItemsText(items)[|ItemsText(items)| - 1] == '"'
    decreases |items|
  {
    if |items| == 1 {
      assert ItemsText(items) == "; " + items[0] + "";
    } else {
      ItemsEndInQuote(items[1..]);
    }
  }

  lemma FileHeaderRead(filename: string)
    requires LegalUpload(filename)
    ensures var h := FileHeader(filename);
      && ReadDisposition(h) == Success(("filedata", Some(filename)))
      && h != "" && h[|h| - 1] == 'm' && !Contains(h, CRLF + CRLF)
  {
    hide DispositionLine, NamesOf, ReadLine, Split, ReadDispositionValue, ItemText, LegalUpload, PlainItem,
      LineBreak, Find;
    var items := FileItems(filename);
    var line := DispositionLine(items);
    FileItemsPlain(filename);
    FileNames(filename);
    LineLacks(items);
    QuoteEnd("filename", filename);
    LineEndsInQuote(items);
    TypeLineEnd(line + CRLF);
    TypeLineRead();
    LacksLineBreak(line);
    TwoLines(line, TYPE_LINE);
    DispositionRead(items);
    ItemsRead(items);
    FileHeaders(line, TYPE_LINE, FORM_DATA + ItemsText(items));
  }

  lemma TypeLineEnd(s: string)
    ensures var t := s + TYPE_LINE; t != "" && t[|t| - 1] == 'm'
    ensures '\n' !in TYPE_LINE
  {
    TypeLineParts();
  }

  lemma QuoteEnd(key: string, name: string)
    ensures var item := ItemText(key, name); item != "" && item[|item| - 1] == '"'
  {
    var q := "\"" + name + "\"";
    assert q[|q| - 1] == '"';
  }

  lemma FileHeaders(line: string, more: string, value: string)
    requires ReadLine(line) == Some(("content-disposition", value))
    requires ReadLine(more).Some? && ReadLine(more).value.0 != "content-disposition"
    ensures var headers := ReadPartHeaders([line, more], map[]);
      headers.Success? && Get(headers.value, "content-disposition") == value
  {
    hide ReadLine;
    assert [line, more][1..] == [more] && [more][1..] == [];
    var (key, other) := ReadLine(more).value;
    var first := map["content-disposition" := value];
    assert ReadPartHeaders([more], first) == Success(first[key := other]);
    assert ReadPartHeaders([line, more], map[]) == ReadPartHeaders([more], first);
  }

  /** The printed file part is read back, name and bytes. */
  lemma FilePartRead(filename: string, fileBytes: string)
    requires LegalUpload(filename)
    ensures ReadPart(PrintPart(CRLF, FileHeader(filename), fileBytes))
      == Success(Part("filedata", Some(filename), fileBytes))
  {
    hide ReadPart, PrintPart, FileHeader, ReadDisposition, Find, LegalUpload;
    var h := FileHeader(filename);
    FileHeaderRead(filename);
    BlankPresent(h, fileBytes + CRLF);
    PartRead(CRLF, h, fileBytes);
  }

  // ---------------------------------------------------------------- where a delimiter can stand

  const NAME_PREFIX := DISPOSITION + ":" + (" " + (FORM_DATA + "; name="))
  const FILE_PREFIX := NAME_PREFIX + "\"filedata\"; filename="

  lemma FieldShape(name: string)
    ensures FieldHeader(name) == NAME_PREFIX + ("\"" + name + "\"")
  {
    hide ItemText;
    var item := ItemText("name", name);
    assert ItemsText([item]) == "; " + item by {
      assert [item][1..] == [];
      assert "; " + item + "" == "; " + item;
    }
    NameShape(FORM_DATA, name);
  }

  lemma NameShape(w: string, name: string)
    ensures DISPOSITION + ":" + (" " + (w + ("; " + ItemText("name", name))))
      == DISPOSITION + ":" + (" " + (w + "; name=")) + ("\"" + name + "\"")
  {
  }

  lemma PrefixHasNoDashes()
    ensures NoDashes(NAME_PREFIX) && NoDashes(FILE_PREFIX) && NoDashes(TYPE_LINE)
  {
    hide NoDashes;
    LiteralsHaveNoDashes();
    PrefixPieces();
    NoDashesJoined(FORM_DATA, "; name=");
    NoDashesJoined(" ", FORM_DATA + "; name=");
    NoDashesJoined(DISPOSITION + ":", " " + (FORM_DATA + "; name="));
    NoDashesJoined(NAME_PREFIX, "\"filedata\"; filename=");
    NoDashesJoined(TYPE_KEY + ":", " " + TYPE_VALUE);
  }

  lemma PrefixPieces()
    ensures NoDashes(" ") && NoDashes("; name=") && NoDashes(DISPOSITION + ":")
    ensures NoDashes("\"filedata\"; filename=") && NoDashes(TYPE_KEY + ":") && NoDashes(" " + TYPE_VALUE)
  {
  }

  lemma SafeDelimiter(boundary: string)
    requires SafeBoundary(boundary)
    ensures var d := Delimiter(boundary); '"' !in d && '\r' !in d && '\n' !in d
  {
    var d := Delimiter(boundary);
    forall i | 0 <= i < |d|
      ensures d[i] != '"' && d[i] != '\r' && d[i] != '\n'
    {
      assert d[i] == '-' || d[i] == boundary[i - 2];
    }
  }

  /** Text between foreign separators holds a delimiter only where one of its pieces does. */
  lemma Sandwich(a: string, f: string, x: string, g: string, y: string, h: string, d: string)
    requires d != "" && f != "" && g != "" && h != "" && Foreign(f, d) && Foreign(g, d) && Foreign(h, d)
    ensures Contains(a + f + (x + g + (y + h)), d) <==> Contains(a, d) || Contains(x, d) || Contains(y, d)
  {
    hide Contains;
    ContainsAcrossText(a, f, x + g + (y + h), d);
    ContainsAcrossText(x, g, y + h, d);
    ContainsAcrossText(y, h, "", d);
    assert y + h + "" == y + h;
    EmptyLacks(d);
  }

  lemma Separators(boundary: string)
    requires SafeBoundary(boundary)
    ensures var d := Delimiter(boundary);
      && Foreign("\"", d) && Foreign("\"" + (CRLF + CRLF), d) && Foreign("\"" + CRLF, d)
      && Foreign(CRLF, d) && Foreign(CRLF + CRLF, d)
  {
    SafeDelimiter(boundary);
  }

  /** A printed field holds a delimiter exactly when its name or its value does. */
  lemma FieldHolds(name: string, value: string, boundary: string)
    requires SafeBoundary(boundary)
    ensures var d := Delimiter(boundary);
      Contains(PrintPart(CRLF, FieldHeader(name), value), d) <==> Contains(name, d) || Contains(value, d)
  {
    hide Contains, FieldHeader, NoDashes, SafeBoundary, Foreign;
    var d := Delimiter(boundary);
    FieldShape(name);
    Separators(boundary);
    PrefixHasNoDashes();
    NoDashesJoined(CRLF, NAME_PREFIX);
    NoDashesLacks(CRLF + NAME_PREFIX, boundary);
    Sandwich(CRLF + NAME_PREFIX, "\"", name, "\"" + (CRLF + CRLF), value, CRLF, d);
    FieldText(CRLF, NAME_PREFIX, "\"", name, CRLF + CRLF, value, CRLF);
  }

  lemma FieldText(lb: string, prefix: string, q: string, name: string, blank: string, value: string, end: string)
    ensures lb + ((prefix + (q + name + q)) + blank + (value + end))
      == (lb + prefix) + q + (name + (q + blank) + (value + end))
  {
  }

  lemma FileShape(filename: string)
    ensures FileHeader(filename) == FILE_PREFIX + ("\"" + filename + "\"") + CRLF + TYPE_LINE
  {
    hide ItemText;
    var a, b := ItemText("name", "filedata"), ItemText("filename", filename);
    assert ItemsText([b]) == "; " + b by {
      assert [b][1..] == [];
      assert "; " + b + "" == "; " + b;
    }
    assert [a, b][1..] == [b];
    FileLineShape(FORM_DATA, filename);
  }

  lemma FileLineShape(w: string, filename: string)
    ensures DISPOSITION + ":" + (" " + (w + ("; " + ItemText("name", "filedata") + ("; "
      + ItemText("filename", filename)))))
      == DISPOSITION + ":" + (" " + (w + "; name=")) + "\"filedata\"; filename=" + ("\"" + filename + "\"")
  {
    assert "; " + ItemText("name", "filedata") + "; " == "; name=" + "\"filedata\"; ";
    assert "\"filedata\"; " + "filename=" == "\"filedata\"; filename=";
  }

  lemma FileText(lb: string, prefix: string, q: string, name: string, line: string, blank: string, value: string,
      end: string)
    ensures lb + ((prefix + (q + name + q) + lb + line) + blank + (value + end))
      == (lb + prefix) + q + (name + (q + lb) + (line + blank + (value + end)))
  {
  }

  /** The printed file part holds a delimiter exactly when the file name or the bytes do. */
  lemma FileHolds(filename: string, fileBytes: string, boundary: string)
    requires SafeBoundary(boundary)
    ensures var d := Delimiter(boundary);
      Contains(PrintPart(CRLF, FileHeader(filename), fileBytes), d) <==> Contains(filename, d) || Contains(fileBytes, d)
  {
    hide Contains, FileHeader, NoDashes, SafeBoundary, Foreign;
    var d := Delimiter(boundary);
    FileShape(filename);
    Separators(boundary);
    PrefixHasNoDashes();
    NoDashesJoined(CRLF, FILE_PREFIX);
    NoDashesLacks(CRLF + FILE_PREFIX, boundary);
    NoDashesLacks(TYPE_LINE, boundary);
    var q, blank := "\"", CRLF + CRLF;
    var tail := TYPE_LINE + blank + (fileBytes + CRLF);
    FileText(CRLF, FILE_PREFIX, q, filename, TYPE_LINE, blank, fileBytes, CRLF);
    ContainsAcrossText(CRLF + FILE_PREFIX, q, filename + (q + CRLF) + tail, d);
    ContainsAcrossText(filename, q + CRLF, tail, d);
    ContainsAcrossText(TYPE_LINE, blank, fileBytes + CRLF, d);
    ContainsAcrossText(fileBytes, CRLF, "", d);
    assert fileBytes + CRLF + "" == fileBytes + CRLF;
    EmptyLacks(d);
  }

  // ---------------------------------------------------------------- reading the segments back

  /** No name and no content holds the delimiter. */
  predicate Undelimited(fields: seq<Field>, filename: string, fileBytes: string, d: string) {
    && (forall i | 0 <= i < |fields| :: !Contains(fields[i].0, d) && !Contains(fields[i].1, d))
    && !Contains(filename, d) && !Contains(fileBytes, d)
  }

  lemma PartEnd(header: string, content: string)
    ensures var part := PrintPart(CRLF, header, content); part != "" && part[|part| - 1] == '\n'
  {
  }

  lemma CleanPrinted(part: string, boundary: string)
    requires SafeBoundary(boundary) && part != "" && part[|part| - 1] == '\n'
    requires !Contains(part, Delimiter(boundary))
    ensures var d := Delimiter(boundary); Find(part + d, d) == |part|
  {
    var d := Delimiter(boundary);
    SafeDelimiter(boundary);
    var p := part[..|part| - 1];
    SliceLacks(part, 0, |part| - 1, d);
    CleanPart(p, '\n', d);
    assert part == p + ['\n'];
  }

  lemma EndLacks(boundary: string)
    requires SafeBoundary(boundary)
    ensures !Contains("--" + CRLF, Delimiter(boundary))
  {
    var d := Delimiter(boundary);
    assert d[2] == boundary[0];
    if Contains("--" + CRLF, d) {
      var k := Find("--" + CRLF, d);
      DelimiterAt("--" + CRLF, d, k);
      PieceStart("--" + CRLF, d, k);
    }
  }

  lemma PieceStart(s: string, d: string, k: nat)
    requires OccursAt(s, d, k) && 3 <= |d|
    ensures k + 2 < |s| && s[k + 2] == d[2]
  {
    assert s[k..k + |d|][2] == s[k + 2];
  }

  lemma SegmentsClean(fields: seq<Field>, filename: string, fileBytes: string, boundary: string)
    requires SafeBoundary(boundary) && Undelimited(fields, filename, fileBytes, Delimiter(boundary))
    ensures Clean(PrintedSegments(fields, filename, fileBytes), Delimiter(boundary))
  {
    hide Contains, Find, PrintPart, FieldHeader, FileHeader, SafeBoundary;
    var d := Delimiter(boundary);
    var segments := PrintedSegments(fields, filename, fileBytes);
    var n := |fields|;
    EndLacks(boundary);
    FileHolds(filename, fileBytes, boundary);
    PartEnd(FileHeader(filename), fileBytes);
    CleanPrinted(segments[n + 1], boundary);
    DelimiterAlone(d);
    forall i | 0 <= i < |segments| - 1
      ensures Find(segments[i] + d, d) == |segments[i]|
    {
      if 1 <= i <= n {
        var (name, value) := fields[i - 1];
        assert segments[i] == FieldParts(fields)[i - 1];
        FieldHolds(name, value, boundary);
        PartEnd(FieldHeader(name), value);
        CleanPrinted(segments[i], boundary);
      }
    }
  }

  lemma DelimiterAlone(d: string)
    ensures Find("" + d, d) == 0
  {
    assert OccursAt("" + d, d, 0);
  }

  // ---------------------------------------------------------------- the form read back

  /** The client's dictionary: distinct names, values that are text. */
  predicate Dictionary(fields: seq<Field>) {
    && (forall i, j | 0 <= i < j < |fields| :: fields[i].0 != fields[j].0)
    && forall i | 0 <= i < |fields| :: ValidUtf8(fields[i].1)
  }

  function FieldMap(fields: seq<Field>, m: map<string, string>): map<string, string> {
    if fields == [] then m else FieldMap(fields[1..], m[fields[0].0 := fields[0].1])
  }

  function FieldResults(fields: seq<Field>): (parts: PartResults)
    ensures |parts| == |fields|
    ensures forall i | 0 <= i < |parts| :: parts[i] == Success(Part(fields[i].0, None, fields[i].1))
  {
    seq(|fields|, i requires 0 <= i < |fields| => Success(Part(fields[i].0, None, fields[i].1)))
  }

  lemma {:induction false} AddFields(fields: seq<Field>, form: Form)
    requires Dictionary(fields) && forall i | 0 <= i < |fields| :: fields[i].0 !in form.fields
    ensures AddParts(FieldResults(fields), form) == Success(form.(fields := FieldMap(fields, form.fields)))
    decreases |fields|
  {
    hide ValidUtf8;
    if fields != [] {
      var (name, value) := fields[0];
      var rest := fields[1..];
      var next := form.(fields := form.fields[name := value]);
      assert FieldResults(fields)[1..] == FieldResults(rest);
      assert Dictionary(rest) by {
        forall i, j | 0 <= i < j < |rest|
          ensures rest[i].0 != rest[j].0
        {
          assert fields[i + 1].0 != fields[j + 1].0;
        }
      }
      AddFields(rest, next);
    }
  }

  lemma PrintedResults(fields: seq<Field>, filename: string, fileBytes: string)
    requires (forall i | 0 <= i < |fields| :: LegalName(fields[i].0)) && LegalUpload(filename)
    ensures var segments := PrintedSegments(fields, filename, fileBytes);
      ReadEach(segments[1..|segments| - 1])
        == FieldResults(fields) + [Success(Part("filedata", Some(filename), fileBytes))]
  {
    hide ReadPart, PrintPart, FieldHeader, FileHeader, LegalName, LegalUpload;
    var segments := PrintedSegments(fields, filename, fileBytes);
    var inner := segments[1..|segments| - 1];
    FilePartRead(filename, fileBytes);
    forall i | 0 <= i < |inner|
      ensures ReadPart(inner[i])
        == (FieldResults(fields) + [Success(Part("filedata", Some(filename), fileBytes))])[i]
    {
      if i < |fields| {
        assert inner[i] == FieldParts(fields)[i];
        FieldPartRead(CRLF, fields[i].0, fields[i].1);
      }
    }
  }

  lemma FormRead(fields: seq<Field>, file: Part)
    requires Dictionary(fields) && file.filename.Some?
    ensures AddParts(FieldResults(fields) + [Success(file)], Form(map[], []))
      == Success(Form(FieldMap(fields, map[]), [file]))
  {
    AddFields(fields, Form(map[], []));
    AddPartsAppend(FieldResults(fields), [Success(file)], Form(map[], []));
    assert [] + [file] == [file];
  }

  lemma SegmentsShape(fields: seq<Field>, filename: string, fileBytes: string)
    ensures var segments := PrintedSegments(fields, filename, fileBytes);
      3 <= |segments| && segments[0] == "" && Terminator(segments[|segments| - 1])
  {
    hide PrintPart;
  }

  /** Printed segments are read back as the form they were printed from. */
  lemma SegmentsRead(fields: seq<Field>, filename: string, fileBytes: string)
    requires Dictionary(fields) && (forall i | 0 <= i < |fields| :: LegalName(fields[i].0)) && LegalUpload(filename)
    ensures ReadSegments(PrintedSegments(fields, filename, fileBytes))
      == Success(Content(FieldMap(fields, map[]), filename, fileBytes))
  {
    hide ReadPart, PrintedSegments, LegalName, LegalUpload, Dictionary, ReadEach, FieldResults, Terminator, AddParts;
    SegmentsShape(fields, filename, fileBytes);
    PrintedResults(fields, filename, fileBytes);
    FormRead(fields, Part("filedata", Some(filename), fileBytes));
  }

  lemma PrintedStart(fields: seq<Field>, filename: string, fileBytes: string)
    ensures var segments := PrintedSegments(fields, filename, fileBytes);
      3 <= |segments| && segments[0] == "" && StartsWith(segments[1], CRLF)
  {
    var segments := PrintedSegments(fields, filename, fileBytes);
    if fields == [] {
      PartStart(FileHeader(filename), fileBytes);
    } else {
      assert segments[1] == FieldParts(fields)[0];
      PartStart(FieldHeader(fields[0].0), fields[0].1);
    }
  }

  lemma PartStart(header: string, content: string)
    ensures StartsWith(PrintPart(CRLF, header, content), CRLF)
  {
    hide StartsWith;
    PrefixStart(CRLF, header + (CRLF + CRLF) + (content + CRLF));
  }

  lemma PrefixStart(p: string, q: string)
    ensures StartsWith(p + q, p)
  {
  }

  /** A printed body is read back as the form it was printed from. */
  lemma BodyRead(fields: seq<Field>, filename: string, fileBytes: string, boundary: string)
    requires Dictionary(fields) && (forall i | 0 <= i < |fields| :: LegalName(fields[i].0)) && LegalUpload(filename)
    requires SafeBoundary(boundary) && Undelimited(fields, filename, fileBytes, Delimiter(boundary))
    ensures ReadBody(PrintBody(fields, filename, fileBytes, boundary), boundary)
      == Success(Content(FieldMap(fields, map[]), filename, fileBytes))
  {
    hide ReadBody, ReadSegments, PrintBody, PrintedSegments, Clean, StartsWith, Dictionary, LegalName, LegalUpload,
      SafeBoundary, Undelimited, Join;
    BodyJoined(fields, filename, fileBytes, boundary);
    SegmentsClean(fields, filename, fileBytes, boundary);
    SegmentsRead(fields, filename, fileBytes);
    PrintedStart(fields, filename, fileBytes);
    ReadJoined(PrintedSegments(fields, filename, fileBytes), boundary);
  }
}
