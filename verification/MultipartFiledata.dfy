/**
 Arm 0 on the seeds that the client prints.  The mutator takes the first part whose header block holds
 `name="filedata"` for the file part; a text field can be that part.
 */
module MultipartFiledata {
  import opened Wrappers
  import opened ByteStrings
  import opened MultipartParser
  import opened MultipartPrinter
  import opened MultipartMutator
  import opened MultipartArms
  import opened MultipartAppend
  import opened MultipartAppendExact
  import opened MultipartRoundTrip
  import opened MultipartSeed
  import opened MultipartWitness

  /** The header block that the client prints for this field looks like that of the file to the mutator. */
  predicate LooksLikeFile(name: string) {
    Contains(FieldHeader(name), FILEDATA)
  }

  lemma FieldHeaderStart(name: string)
    requires LegalName(name)
    ensures var h := FieldHeader(name);
      && h != "" && h[0] == 'C' && h[|h| - 1] == '"' && '\n' !in h && !Contains(h, CRLF + CRLF)
  {
    hide Contains;
    FieldHeaderShape(name);
    FieldShape(name);
    PrefixStartsC();
    LacksChar(FieldHeader(name), CRLF + CRLF, '\n');
  }

  lemma PrefixStartsC()
    ensures NAME_PREFIX != "" && NAME_PREFIX[0] == 'C' && '\n' in CRLF + CRLF && '"' !in CRLF
  {
    FirstOfDisposition();
    assert (CRLF + CRLF)[1] == '\n';
  }

  /** The mutator takes a printed text field for the file exactly when its header block looks like it. */
  lemma FieldView(name: string, content: string)
    requires LegalName(name)
    ensures ViewFile(PrintPart(CRLF, FieldHeader(name), content)) ==
      if LooksLikeFile(name) then Some(FileView(CRLF + FieldHeader(name), CRLF + CRLF, content, CRLF)) else None
  {
    hide Contains, ViewFile, PrintPart, FieldHeader, LegalName;
    FieldHeaderStart(name);
    PrefixStartsC();
    SegmentView(FieldHeader(name), content);
  }

  /** How both sides see a printed seed, and which part the mutator takes. */
  lemma PrintedView(path: string, fields: seq<Field>, filename: string, fileBytes: string, boundary: string)
    requires LegalPath(path) && SafeBoundary(boundary) && Dictionary(fields)
    requires Legal(fields, filename, fileBytes, boundary)
    ensures var seed := PrintSeed(path, fields, filename, fileBytes, boundary);
      && ViewSeed(seed).Some?
      && Agree(seed, Intended(path, fields, filename, fileBytes, boundary), ViewSeed(seed).value)
      && ViewSeed(seed).value.parts == PrintedSegments(fields, filename, fileBytes)
      && ViewSeed(seed).value.index <= |fields| + 1
  {
    hide Parse, ViewSeed, LegalPath, SafeBoundary, Dictionary, Legal, HeadText, Join, PrintBody, PrintedSegments,
      PrintedHead;
    FormSeedView(path, fields, filename, fileBytes, boundary, false);
    BodyJoined(fields, filename, fileBytes, boundary);
  }

  /** The mutator takes the first inner part that it can take. */
  lemma FirstChosen(seed: string, v: View, i: nat)
    requires ViewSeed(seed) == Some(v) && 1 <= i < v.index
    ensures ViewFile(v.parts[i]).None?
  {
    hide ViewFile, ViewBoundary, Split, Contains, Cut;
    assert ViewEach(v.parts)[i].None?;
  }

  /** No text field looks like the file. */
  predicate FileStandsOut(fields: seq<Field>) {
    forall i | 0 <= i < |fields| :: !LooksLikeFile(fields[i].0)
  }

  lemma PrintedPart(fields: seq<Field>, filename: string, fileBytes: string, i: nat)
    requires i < |fields|
    ensures PrintedSegments(fields, filename, fileBytes)[i + 1]
      == PrintPart(CRLF, FieldHeader(fields[i].0), fields[i].1)
  {
    hide PrintPart, FieldHeader, FileHeader;
    assert PrintedSegments(fields, filename, fileBytes)[i + 1] == FieldParts(fields)[i];
  }

  /** The part that the mutator takes carries a file name exactly when no text field looks like the file. */
  lemma ChosenPart(seed: string, v: View, fields: seq<Field>, filename: string, fileBytes: string)
    requires ViewSeed(seed) == Some(v) && v.parts == PrintedSegments(fields, filename, fileBytes)
    requires v.index <= |fields| + 1 && LegalUpload(filename) && forall i | 0 <= i < |fields| :: LegalName(fields[i].0)
    ensures ReadPart(v.parts[v.index]).Success?
    ensures ReadPart(v.parts[v.index]).value.filename.Some? <==> FileStandsOut(fields)
    ensures FileStandsOut(fields) ==> v.file == FileView(CRLF + FileHeader(filename), CRLF + CRLF, fileBytes, CRLF)
  {
    hide ViewSeed, ViewFile, ReadPart, LegalUpload, LegalName, LooksLikeFile, PrintPart, FieldHeader, FileHeader,
      PrintedSegments;
    if v.index <= |fields| {
      var k := v.index - 1;
      PrintedPart(fields, filename, fileBytes, k);
      FieldView(fields[k].0, fields[k].1);
      FieldPartRead(CRLF, fields[k].0, fields[k].1);
    } else {
      FilePartPrinted(fields, filename, fileBytes);
      FileSegmentViewed(filename, fileBytes);
      FilePartRead(filename, fileBytes);
      forall i | 0 <= i < |fields|
        ensures !LooksLikeFile(fields[i].0)
      {
        FirstChosen(seed, v, i + 1);
        PrintedPart(fields, filename, fileBytes, i);
        FieldView(fields[i].0, fields[i].1);
      }
    }
  }

  /**
   On a seed that the client prints, arm 0 appends one byte to the file and changes nothing else if and
   only if no text field looks like the file and the longer file does not hold the delimiter.
   */
  lemma PrintedAppend(path: string, fields: seq<Field>, filename: string, fileBytes: string, boundary: string, c: char)
    requires LegalPath(path) && SafeBoundary(boundary) && Dictionary(fields) && Choice(c)
    requires Legal(fields, filename, fileBytes, boundary)
    ensures Parse(Mutate(PrintSeed(path, fields, filename, fileBytes, boundary), 0, c, 0))
        == Success(Intended(path, fields, filename, fileBytes + [c], boundary))
      <==> FileStandsOut(fields) && !Contains(fileBytes + [c], Delimiter(boundary))
  {
    hide Parse, ViewSeed, LegalPath, SafeBoundary, Dictionary, LegalName, LegalUpload, Undelimited, PrintSeed,
      Mutate, ReadPart, NoNewDelimiter, FileStandsOut, PrintedSegments, PrintedHead, Contains, AppendByte;
    var seed := PrintSeed(path, fields, filename, fileBytes, boundary);
    PrintedView(path, fields, filename, fileBytes, boundary);
    var r, v := Intended(path, fields, filename, fileBytes, boundary), ViewSeed(seed).value;
    ChosenPart(seed, v, fields, filename, fileBytes);
    FileAppendExactly(seed, r, v, c, 0);
    HeadBoundaryIs(path, boundary, boundary);
    if FileStandsOut(fields) {
      AppendWithLineEnd(seed, r, v, c);
    }
  }

  /** The intended result of arm 0 on the only field of a form, named `filedata`. */
  lemma FieldIntended(path: string, value: string, filename: string, fileBytes: string, boundary: string, v: View,
                      c: char)
    requires v.index < |v.parts| && ReadPart(v.parts[v.index]) == Success(Part("filedata", None, value))
    ensures AppendIntended(Intended(path, [("filedata", value)], filename, fileBytes, boundary), v, c)
      == Intended(path, [("filedata", value + [c])], filename, fileBytes, boundary)
  {
    hide ReadPart, PrintedHead;
    var was, now := [("filedata", value)], [("filedata", value + [c])];
    assert was[1..] == [] && now[1..] == [];
    assert FieldMap(was, map[]) == map["filedata" := value];
    assert FieldMap(now, map[]) == map["filedata" := value + [c]];
    assert map["filedata" := value]["filedata" := value + [c]] == map["filedata" := value + [c]];
  }

  /**
   A text field named `filedata` is taken for the file: the seed is accepted, and arm 0 does not give its
   file one more byte, but the field, when that does not hold the delimiter then.
   */
  lemma FieldMutated(path: string, value: string, filename: string, fileBytes: string, boundary: string, c: char)
    requires LegalPath(path) && SafeBoundary(boundary) && ValidUtf8(value) && Choice(c)
    requires Legal([("filedata", value)], filename, fileBytes, boundary)
    ensures var seed := PrintSeed(path, [("filedata", value)], filename, fileBytes, boundary);
      var out := Parse(Mutate(seed, 0, c, 0));
      && Parse(seed) == Success(Intended(path, [("filedata", value)], filename, fileBytes, boundary))
      && out != Success(Intended(path, [("filedata", value)], filename, fileBytes + [c], boundary))
      && (!Contains(value + [c], Delimiter(boundary)) ==>
            out == Success(Intended(path, [("filedata", value + [c])], filename, fileBytes, boundary)))
  {
    hide Parse, LegalPath, SafeBoundary, PrintSeed, Mutate, LooksLikeFile, ViewSeed, ViewFile, ReadPart, Contains,
      LegalUpload, LegalName, Undelimited, PrintedSegments, FieldHeader, PrintPart, NoNewDelimiter, AppendByte,
      Intended, AppendIntended;
    var fields := [("filedata", value)];
    var seed := PrintSeed(path, fields, filename, fileBytes, boundary);
    PrintParse(path, fields, filename, fileBytes, boundary);
    PrintedAppend(path, fields, filename, fileBytes, boundary, c);
    FiledataLooks();
    assert LooksLikeFile(fields[0].0);
    PrintedView(path, fields, filename, fileBytes, boundary);
    var r, v := Intended(path, fields, filename, fileBytes, boundary), ViewSeed(seed).value;
    PrintedPart(fields, filename, fileBytes, 0);
    FieldView("filedata", value);
    if 1 < v.index {
      FirstChosen(seed, v, 1);
    }
    FieldPartRead(CRLF, "filedata", value);
    FieldIntended(path, value, filename, fileBytes, boundary, v, c);
    AppendExactly(seed, r, v, c, 0);
    AppendWithLineEnd(seed, r, v, c);
    BoundaryOf(path, fields, filename, fileBytes, boundary);
  }

  lemma BoundaryOf(path: string, fields: seq<Field>, filename: string, fileBytes: string, boundary: string)
    ensures Intended(path, fields, filename, fileBytes, boundary).head.boundary == boundary
  {
    HeadBoundaryIs(path, boundary, boundary);
  }

  lemma FiledataLooks()
    ensures LooksLikeFile("filedata")
  {
    hide Contains;
    FieldShape("filedata");
    NamePrefixShape();
    var x := DISPOSITION + ":" + (" " + (FORM_DATA + "; "));
    MiddleContained(x, FILEDATA, "");
    assert FieldHeader("filedata") == x + FILEDATA + "";
  }

  lemma NamePrefixShape()
    ensures NAME_PREFIX + ("\"" + "filedata" + "\"") == DISPOSITION + ":" + (" " + (FORM_DATA + "; ")) + FILEDATA
  {
    assert "name=" + ("\"" + "filedata" + "\"") == FILEDATA;
  }

  lemma NoDash(s: string, boundary: string)
    requires '-' !in s
    ensures !Contains(s, Delimiter(boundary))
  {
    assert Delimiter(boundary)[0] == '-';
    LacksChar(s, Delimiter(boundary), '-');
  }

  /** One such seed. */
  lemma FieldMutatedExists()
    ensures var seed := PrintSeed("/", [("filedata", "v")], "f", "x", "b");
      && Parse(seed).Success? && Parse(seed).value.content.fileBytes == "x"
      && Parse(Mutate(seed, 0, 'A', 0)) != Success(Intended("/", [("filedata", "v")], "f", "x" + ['A'], "b"))
  {
    hide Parse, PrintSeed, Mutate, LegalPath, SafeBoundary, LegalUpload, Contains, Intended;
    ExampleLegal();
    AsciiIsUtf8("v");
    assert LegalName("filedata");
    NoDash("filedata", "b");
    NoDash("v", "b");
    FieldMutated("/", "v", "f", "x", "b", 'A');
    IntendedFile("/", [("filedata", "v")], "f", "x", "b");
  }

  lemma IntendedFile(path: string, fields: seq<Field>, filename: string, fileBytes: string, boundary: string)
    ensures Intended(path, fields, filename, fileBytes, boundary).content.fileBytes == fileBytes
  {
    hide PrintedHead;
  }
}
