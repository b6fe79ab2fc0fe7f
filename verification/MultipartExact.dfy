/** When printing and parsing round-trips, exactly. */
module MultipartExact {
  import opened Wrappers
  import opened ByteStrings
  import opened MultipartParser
  import opened MultipartPrinter
  import opened MultipartArms
  import opened MultipartAppend
  import opened MultipartRoundTrip
  import opened MultipartSeed
  import opened MultipartLegal

  lemma {:induction false} FieldMapHas(fields: seq<Field>, m: map<string, string>, i: nat)
    requires Dictionary(fields) && i < |fields|
    ensures fields[i].0 in FieldMap(fields, m) && FieldMap(fields, m)[fields[i].0] == fields[i].1
    decreases |fields|
  {
    hide ValidUtf8;
    var rest := fields[1..];
    var next := m[fields[0].0 := fields[0].1];
    assert Dictionary(rest) by {
      forall a, b | 0 <= a < b < |rest|
        ensures rest[a].0 != rest[b].0
      {
        assert fields[a + 1].0 != fields[b + 1].0;
      }
    }
    if i == 0 {
      FieldMapKeeps(rest, next, fields[0].0);
    } else {
      FieldMapHas(rest, next, i - 1);
    }
  }

  lemma {:induction false} FieldMapKeeps(fields: seq<Field>, m: map<string, string>, key: string)
    requires key in m && forall i | 0 <= i < |fields| :: fields[i].0 != key
    ensures key in FieldMap(fields, m) && FieldMap(fields, m)[key] == m[key]
    decreases |fields|
  {
    if fields != [] {
      FieldMapKeeps(fields[1..], m[fields[0].0 := fields[0].1], key);
    }
  }

  /** A printed field whose name holds no CRLF is read with a name that holds no LF. */
  lemma FieldNameLacksLf(name: string, value: string)
    requires !Contains(name, CRLF) && IsAscii(name)
    requires ReadPart(PrintPart(CRLF, FieldHeader(name), value)).Success?
    ensures '\n' !in ReadPart(PrintPart(CRLF, FieldHeader(name), value)).value.name
  {
    hide ReadPart, PrintPart, FieldHeader, ReadDisposition, Find, DropLineStart, BlankLine, Cut, IsAscii;
    var segment := PrintPart(CRLF, FieldHeader(name), value);
    var h := PartPieces(segment);
    PrintedCut(name, value);
    DispositionPieces(h);
    FieldHeaderLacks(name);
    PieceLacksLf(h, ReadPart(segment).value.name);
  }

  lemma PieceLacksLf(h: string, x: string)
    requires ParameterPiece(h, x) && !Contains(h, CRLF)
    ensures '\n' !in x
  {
    ContainsChar(x, '\n');
  }

  /** The header block of a printed field holds a CRLF only where the name does. */
  lemma FieldHeaderLacks(name: string)
    requires !Contains(name, CRLF)
    ensures !Contains(FieldHeader(name), CRLF) && !Contains(FieldHeader(name), CRLF + CRLF)
  {
    hide Contains, FieldHeader;
    FieldShape(name);
    var q := "\"";
    assert Foreign(q, CRLF) && CRLF != "";
    PrefixLacksBreaks();
    ContainsAcrossText(NAME_PREFIX, q, name + q, CRLF);
    ContainsAcrossText(name, q, "", CRLF);
    assert name + q + "" == name + q;
    EmptyLacks(CRLF);
    var h := FieldHeader(name);
    assert h == NAME_PREFIX + q + (name + q);
    DoubleLacks(h);
  }

  lemma DoubleLacks(h: string)
    requires !Contains(h, CRLF)
    ensures !Contains(h, CRLF + CRLF)
  {
    if Contains(h, CRLF + CRLF) {
      HeadContained(CRLF + CRLF, 2);
      assert (CRLF + CRLF)[..2] == CRLF;
      ContainsTransitive(h, CRLF + CRLF, CRLF);
    }
  }

  lemma PrefixLacksBreaks()
    ensures !Contains(NAME_PREFIX, CRLF)
  {
    hide Contains;
    DispositionBreaks();
    assert CRLF[1] == '\n';
    LacksChar(NAME_PREFIX, CRLF, '\n');
  }

  lemma DispositionBreaks()
    ensures '\n' !in DISPOSITION && '\n' !in FORM_DATA && '\n' !in "; name="
  {
  }

  lemma FieldHeaderEnd(name: string)
    ensures var h := FieldHeader(name); h != "" && h[|h| - 1] == '"'
  {
    hide FieldHeader;
    FieldShape(name);
    var q := "\"" + name + "\"";
    assert q[|q| - 1] == '"';
  }

  /** The printed field is cut at the blank line that the printer wrote. */
  lemma PrintedCut(name: string, value: string)
    requires !Contains(name, CRLF)
    ensures var text := DropLineStart(PrintPart(CRLF, FieldHeader(name), value));
      Cut(text, BlankLine(text)) == Some((FieldHeader(name), value + CRLF))
  {
    hide Contains, FieldHeader, Find, BlankLine, DropLineStart, Cut;
    var h := FieldHeader(name);
    var sep := CRLF + CRLF;
    LineStartDropped(CRLF, h + sep + (value + CRLF));
    FieldHeaderLacks(name);
    FieldHeaderEnd(name);
    BlankAfter(h, sep);
    BlankPresent(h, value + CRLF);
    CutPrinted(h, sep, value + CRLF);
  }

  /** If every printed name lacks CRLF, the fields read back have names that lack LF. */
  lemma NamesLackLf(fields: seq<Field>, filename: string, fileBytes: string, content: Content)
    requires forall i | 0 <= i < |fields| :: !Contains(fields[i].0, CRLF) && IsAscii(fields[i].0)
    requires LegalUpload(filename)
    requires ReadSegments(PrintedSegments(fields, filename, fileBytes)) == Success(content)
    ensures forall k | k in content.fields :: '\n' !in k
  {
    hide ReadPart, PrintPart, FieldHeader, FileHeader, Contains, IsAscii, LegalUpload, Terminator, AddParts, Finish,
      ValidUtf8;
    var segments := PrintedSegments(fields, filename, fileBytes);
    var inner := segments[1..|segments| - 1];
    var parts := ReadEach(inner);
    var ok := (p: Part) => p.filename.None? ==> '\n' !in p.name;
    forall i | 0 <= i < |parts| && parts[i].Success?
      ensures ok(parts[i].value)
    {
      if i < |fields| {
        assert inner[i] == FieldParts(fields)[i];
        FieldNameLacksLf(fields[i].0, fields[i].1);
      } else {
        FilePartRead(filename, fileBytes);
      }
    }
    AddPartsAll(parts, Form(map[], []), ok);
    FinishFields(AddParts(parts, Form(map[], [])).value, content);
  }

  lemma FinishFields(form: Form, content: Content)
    requires Finish(form) == Success(content)
    ensures content.fields == form.fields
  {
  }

  /** Content that came out of the parser and equals what was printed is legal but for LF in names. */
  lemma CarriedFields(fields: seq<Field>, filename: string, fileBytes: string, d: string)
    requires Dictionary(fields)
    requires CarriedContent(Content(FieldMap(fields, map[]), filename, fileBytes), d)
    ensures forall i | 0 <= i < |fields| :: CarriedName(fields[i].0)
    ensures LegalUpload(filename) && Undelimited(fields, filename, fileBytes, d)
  {
    hide CarriedName, LegalUpload, Contains, Dictionary;
    forall i | 0 <= i < |fields|
      ensures CarriedName(fields[i].0) && !Contains(fields[i].0, d) && !Contains(fields[i].1, d)
    {
      FieldMapHas(fields, map[], i);
    }
  }

  lemma CarriedIsLegal(name: string)
    requires CarriedName(name) && '\n' !in name
    ensures LegalName(name)
  {
  }

  lemma LegalFields(fields: seq<Field>, content: Content)
    requires Dictionary(fields) && content.fields == FieldMap(fields, map[])
    requires (forall i | 0 <= i < |fields| :: CarriedName(fields[i].0)) && forall k | k in content.fields :: '\n' !in k
    ensures forall i | 0 <= i < |fields| :: LegalName(fields[i].0)
  {
    hide CarriedName, LegalName, Dictionary;
    forall i | 0 <= i < |fields|
      ensures LegalName(fields[i].0)
    {
      FieldMapHas(fields, map[], i);
      CarriedIsLegal(fields[i].0);
    }
  }

  lemma PrintedContent(path: string, fields: seq<Field>, filename: string, fileBytes: string, boundary: string)
    requires LegalPath(path) && SafeBoundary(boundary)
    requires Parse(PrintSeed(path, fields, filename, fileBytes, boundary))
      == Success(Intended(path, fields, filename, fileBytes, boundary))
    requires Undelimited(fields, filename, fileBytes, Delimiter(boundary))
    ensures ReadSegments(PrintedSegments(fields, filename, fileBytes))
      == Success(Content(FieldMap(fields, map[]), filename, fileBytes))
  {
    hide Parse, HeadText, ReadSegments, ReadBody, PrintBody, PrintedSegments, Clean, StartsWith, LegalPath,
      SafeBoundary, Undelimited, PrintedHead, Join;
    PrintedMessage(path, PrintBody(fields, filename, fileBytes, boundary), boundary);
    BodyJoined(fields, filename, fileBytes, boundary);
    SegmentsClean(fields, filename, fileBytes, boundary);
    PrintedStart(fields, filename, fileBytes);
    ReadJoined(PrintedSegments(fields, filename, fileBytes), boundary);
  }

  lemma LegalFromParsed(path: string, fields: seq<Field>, filename: string, fileBytes: string, boundary: string)
    requires LegalPath(path) && SafeBoundary(boundary) && Dictionary(fields)
    requires Parse(PrintSeed(path, fields, filename, fileBytes, boundary))
      == Success(Intended(path, fields, filename, fileBytes, boundary))
    ensures Legal(fields, filename, fileBytes, boundary)
  {
    hide Parse, PrintSeed, ReadSegments, PrintedSegments, LegalPath, SafeBoundary, Dictionary, CarriedContent,
      LegalUpload, Undelimited, LegalName;
    var d := Delimiter(boundary);
    ParsedIsCarried(PrintSeed(path, fields, filename, fileBytes, boundary),
                    Intended(path, fields, filename, fileBytes, boundary));
    MessageHead(path, boundary);
    CarriedFields(fields, filename, fileBytes, d);
    PrintedContent(path, fields, filename, fileBytes, boundary);
    var content := Content(FieldMap(fields, map[]), filename, fileBytes);
    NamesLackLf(fields, filename, fileBytes, content);
    LegalFields(fields, content);
  }

  /**
   Printing then parsing a form gives exactly that form if and only if the form is legal: the names
   and the file name are such as the header syntax carries, and no name and no content holds the
   delimiter.
   */
  lemma RoundTripExactly(path: string, fields: seq<Field>, filename: string, fileBytes: string, boundary: string)
    requires LegalPath(path) && SafeBoundary(boundary) && Dictionary(fields)
    ensures Parse(PrintSeed(path, fields, filename, fileBytes, boundary))
        == Success(Intended(path, fields, filename, fileBytes, boundary))
      <==> Legal(fields, filename, fileBytes, boundary)
  {
    hide Parse, PrintSeed, LegalPath, SafeBoundary, Dictionary, Legal, Intended;
    if Legal(fields, filename, fileBytes, boundary) {
      PrintParse(path, fields, filename, fileBytes, boundary);
    }
    if Parse(PrintSeed(path, fields, filename, fileBytes, boundary))
      == Success(Intended(path, fields, filename, fileBytes, boundary)) {
      LegalFromParsed(path, fields, filename, fileBytes, boundary);
    }
  }

  // ---------------------------------------------------------------- the client's boundary

  predicate HexDigest(digest: string) {
    |digest| == 24 && forall i | 0 <= i < |digest| :: '0' <= digest[i] <= '9' || 'a' <= digest[i] <= 'f'
  }

  /** The boundary the client makes from the digest of the file. */
  function ClientBoundary(digest: string): string {
    "----nv-alfresco-" + digest
  }

  /** The client's boundary is safe whatever the digest. */
  lemma ClientBoundarySafe(digest: string)
    requires HexDigest(digest)
    ensures SafeBoundary(ClientBoundary(digest))
  {
    var b := ClientBoundary(digest);
    forall i | 0 <= i < |b|
      ensures 33 as char <= b[i] <= 126 as char && b[i] != ';' && b[i] != '"'
    {
      if 16 <= i {
        assert b[i] == digest[i - 16];
      }
    }
  }
}
