/** What becomes of a printed seed whose file name the parser does not accept. */
module MultipartFilename {
  import opened Wrappers
  import opened ByteStrings
  import opened MultipartParser
  import opened MultipartPrinter
  import opened MultipartArms
  import opened MultipartAppend
  import opened MultipartRoundTrip
  import opened MultipartSeed
  import opened MultipartGrammar

  /** ASCII names that the header syntax carries: no semicolon, no quote, no CRLF. */
  predicate Carriable(filename: string) {
    IsAscii(filename) && ';' !in filename && '"' !in filename && !Contains(filename, CRLF)
  }

  lemma EmptyItem(key: string)
    requires PlainKey(key)
    ensures ReadItem(ItemText(key, "")) == Some((key, ""))
  {
    hide Trim, Lower;
    var value := "\"" + "" + "\"";
    CutChar(key, '=', value);
    assert ['='] == "=";
    TrimKeeps(key, IsSpace);
    LowerIs(key, key);
    TrimKeeps(value, IsSpace);
    OnlyQuotes(value);
  }

  lemma OnlyQuotes(s: string)
    requires s == "\"" + "" + "\""
    ensures StripQuotes(s) == ""
  {
    hide Trim, TrimLeft;
    var lo, hi := TrimPlace(s, (c: char) => c == '"');
    assert s[0] == '"' && s[1] == '"' && |s| == 2;
  }

  lemma FilenameItem(filename: string)
    requires Carriable(filename)
    ensures ReadItem(ItemText("filename", filename)) == Some(("filename", filename))
  {
    hide ReadItem, ItemText, Contains;
    KeysPlain();
    if filename == "" {
      EmptyItem("filename");
    } else {
      assert filename[0] in filename && filename[|filename| - 1] in filename;
      Item("filename", filename);
    }
  }

  lemma BadNames(filename: string)
    requires Carriable(filename) && !GoodFilename(filename)
    ensures NamesOf(FileItems(filename)) == Failure(FilenameInvalid)
  {
    hide ReadItem, ItemText, LegalFilename, GoodFilename, Carriable;
    FilenameIs(filename);
    FilenameItem(filename);
    NamePlain();
    FiledataChars();
    Item("name", "filedata");
    TwoNames(ItemText("name", "filedata"), ItemText("filename", filename), "filedata", filename);
  }

  lemma FiledataChars()
    ensures "filedata" != "" && "filedata"[0] != '"' && "filedata"[|"filedata"| - 1] != '"'
  {
  }

  lemma TwoNames(a: string, b: string, name: string, filename: string)
    requires ReadItem(a) == Some(("name", name)) && ReadItem(b) == Some(("filename", filename))
    requires name != "" && !LegalFilename(filename)
    ensures NamesOf([a, b]) == Failure(FilenameInvalid)
  {
    hide ReadItem, LegalFilename;
    assert [a, b][1..] == [b] && [b][1..] == [];
    assert ReadParameters([b], map["name" := name]) == map["name" := name]["filename" := filename];
    assert ReadParameters([a, b], map[]) == map["name" := name, "filename" := filename];
  }

  lemma ItemsPlain(filename: string)
    requires Carriable(filename)
    ensures forall i | 0 <= i < 2 :: PlainItem(FileItems(filename)[i])
  {
    hide ItemText, PlainItem, Contains;
    NamePlain();
    KeysPlain();
    ItemPlain("name", "filedata");
    ItemPlain("filename", filename);
  }

  /** The Content-Disposition line of the file holds no CRLF of its own. */
  lemma LineLacksBreak(filename: string)
    requires Carriable(filename)
    ensures var line := DispositionLine(FileItems(filename));
      line != "" && line[|line| - 1] == '"' && !Contains(line, CRLF)
  {
    hide DispositionLine, ItemText, Contains, FileItems;
    var line := DispositionLine(FileItems(filename));
    LineShape(filename);
    var q := FILE_PREFIX + ['"'] + filename;
    assert line == q + ['"'];
    assert '"' !in CRLF;
    PrefixLacksBreak();
    ContainsAcross(FILE_PREFIX, '"', filename, CRLF);
    ContainsAcross(q, '"', "", CRLF);
    EmptyLacks(CRLF);
    assert q + ['"'] + "" == line;
  }

  lemma LineShape(filename: string)
    ensures DispositionLine(FileItems(filename)) == FILE_PREFIX + ("\"" + filename + "\"")
  {
    hide DispositionLine;
    FileShape(filename);
    SameFront(DispositionLine(FileItems(filename)), FILE_PREFIX + ("\"" + filename + "\""), CRLF, TYPE_LINE);
  }

  lemma SameFront(a: string, b: string, c: string, d: string)
    requires a + c + d == b + c + d
    ensures a == b
  {
    assert |a| == |b|;
    assert (a + c + d)[..|a|] == a && (b + c + d)[..|b|] == b;
  }

  lemma PrefixLacksBreak()
    ensures !Contains(FILE_PREFIX, CRLF)
  {
    hide Contains;
    assert '\n' !in FILE_PREFIX && '\n' in CRLF by {
      assert CRLF[1] == '\n';
    }
    LacksChar(FILE_PREFIX, CRLF, '\n');
  }

  lemma FileHeaderRefused(filename: string)
    requires Carriable(filename) && !GoodFilename(filename)
    ensures var h := FileHeader(filename);
      && ReadDisposition(h) == Failure(FilenameInvalid)
      && h != "" && h[|h| - 1] == 'm' && !Contains(h, CRLF + CRLF)
  {
    hide DispositionLine, NamesOf, ReadLine, Split, ReadDispositionValue, ItemText, PlainItem, LineBreak, Find,
      GoodFilename, Carriable;
    var items := FileItems(filename);
    var line := DispositionLine(items);
    ItemsPlain(filename);
    BadNames(filename);
    LineLacksBreak(filename);
    TypeLineEnd(line + CRLF);
    TypeLineRead();
    TwoLines(line, TYPE_LINE);
    DispositionRead(items);
    ItemsRead(items);
    FileHeaders(line, TYPE_LINE, FORM_DATA + ItemsText(items));
  }

  lemma FilePartRefused(filename: string, fileBytes: string)
    requires Carriable(filename) && !GoodFilename(filename)
    ensures ReadPart(PrintPart(CRLF, FileHeader(filename), fileBytes)) == Failure(FilenameInvalid)
  {
    hide ReadPart, PrintPart, FileHeader, ReadDisposition, Find, GoodFilename, Carriable;
    var h := FileHeader(filename);
    FileHeaderRefused(filename);
    BlankPresent(h, fileBytes + CRLF);
    PartRead(CRLF, h, fileBytes);
  }

  lemma ResultsRefused(fields: seq<Field>, filename: string, fileBytes: string)
    requires (forall i | 0 <= i < |fields| :: LegalName(fields[i].0)) && Carriable(filename) && !GoodFilename(filename)
    ensures var segments := PrintedSegments(fields, filename, fileBytes);
      ReadEach(segments[1..|segments| - 1]) == FieldResults(fields) + [Failure(FilenameInvalid)]
  {
    hide ReadPart, PrintPart, FieldHeader, FileHeader, LegalName, GoodFilename, Carriable;
    var segments := PrintedSegments(fields, filename, fileBytes);
    var inner := segments[1..|segments| - 1];
    FilePartRefused(filename, fileBytes);
    forall i | 0 <= i < |inner|
      ensures ReadPart(inner[i]) == (FieldResults(fields) + [Failure(FilenameInvalid)])[i]
    {
      if i < |fields| {
        assert inner[i] == FieldParts(fields)[i];
        FieldPartRead(CRLF, fields[i].0, fields[i].1);
      }
    }
  }

  lemma AddedRefused(fields: seq<Field>)
    requires Dictionary(fields)
    ensures AddParts(FieldResults(fields) + [Failure(FilenameInvalid)], Form(map[], [])) == Failure(FilenameInvalid)
  {
    AddFields(fields, Form(map[], []));
    AddPartsAppend(FieldResults(fields), [Failure(FilenameInvalid)], Form(map[], []));
  }

  /**
   A printed seed whose file name is empty, `.` or `..`, or holds a slash, a backslash or a control
   character, is refused for its file name; everything else about it may be as it should.
   */
  lemma BadFilenameRefused(path: string, fields: seq<Field>, filename: string, fileBytes: string, boundary: string)
    requires LegalPath(path) && SafeBoundary(boundary) && Dictionary(fields)
    requires forall i | 0 <= i < |fields| :: LegalName(fields[i].0)
    requires Undelimited(fields, filename, fileBytes, Delimiter(boundary))
    requires Carriable(filename) && !GoodFilename(filename)
    ensures Parse(PrintSeed(path, fields, filename, fileBytes, boundary)) == Failure(FilenameInvalid)
  {
    hide Parse, HeadText, PrintBody, ReadBody, ReadSegments, LegalPath, SafeBoundary, Dictionary, LegalName,
      Undelimited, PrintedHead, PrintedSegments, Clean, StartsWith, Carriable, GoodFilename, Join;
    BodyJoined(fields, filename, fileBytes, boundary);
    SegmentsClean(fields, filename, fileBytes, boundary);
    PrintedStart(fields, filename, fileBytes);
    ReadJoined(PrintedSegments(fields, filename, fileBytes), boundary);
    SegmentsRefused(fields, filename, fileBytes);
    PrintedMessage(path, PrintBody(fields, filename, fileBytes, boundary), boundary);
  }

  lemma SegmentsRefused(fields: seq<Field>, filename: string, fileBytes: string)
    requires Dictionary(fields) && forall i | 0 <= i < |fields| :: LegalName(fields[i].0)
    requires Carriable(filename) && !GoodFilename(filename)
    ensures ReadSegments(PrintedSegments(fields, filename, fileBytes)) == Failure(FilenameInvalid)
  {
    hide ReadPart, PrintedSegments, LegalName, Dictionary, ReadEach, FieldResults, Terminator, AddParts, GoodFilename,
      Carriable;
    SegmentsShape(fields, filename, fileBytes);
    ResultsRefused(fields, filename, fileBytes);
    AddedRefused(fields);
  }
}
