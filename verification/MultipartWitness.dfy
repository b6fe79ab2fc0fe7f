/** Seeds that show where the arms of the mutator miss their purpose. */
module MultipartWitness {
  import opened Wrappers
  import opened ByteStrings
  import opened MultipartParser
  import opened MultipartPrinter
  import opened MultipartMutator
  import opened MultipartArms
  import opened MultipartAppend
  import opened MultipartAppendExact
  import opened MultipartDescribe
  import opened MultipartRedelimit
  import opened MultipartRedelimitExact
  import opened MultipartRoundTrip
  import opened MultipartSeed

  // ---------------------------------------------------------------- how the mutator sees a printed head

  /** The Content-Type line up to its boundary parameter. */
  const TYPE_PREFIX := TYPE_KEY + ":" + (" " + (FORM_TYPE + "; "))

  lemma TypeShape(written: string)
    ensures ContentTypeText(written) == TYPE_PREFIX + MARKER + written
  {
    OneItem(BoundaryText(written));
    MarkerIs();
    var w := FORM_TYPE;
    assert TYPE_KEY + ":" + (" " + (w + ("; " + (KEY + "=" + written))))
      == TYPE_KEY + ":" + (" " + (w + "; ")) + (KEY + "=") + written;
  }

  lemma MarkerIs()
    ensures MARKER == KEY + "="
  {
  }

  lemma PrefixPlain()
    ensures '=' !in TYPE_PREFIX
  {
    FormTypeBreaks();
    assert '=' !in TYPE_KEY;
  }

  lemma FirstEquals(prefix: string, rest: string)
    requires '=' !in prefix
    ensures forall j | 0 <= j < |prefix| + 8 :: (prefix + MARKER + rest)[j] != '='
  {
    assert '=' !in KEY && MARKER[..8] == KEY;
    var s := prefix + MARKER + rest;
    forall j | 0 <= j < |prefix| + 8
      ensures s[j] != '='
    {
      if |prefix| <= j {
        assert s[j] == MARKER[..8][j - |prefix|];
      }
    }
  }

  lemma MarkerEquals(s: string, k: int)
    requires OccursAt(Lower(s), MARKER, k)
    ensures 0 <= k && k + 8 < |s| && s[k + 8] == '='
  {
    hide Lower;
    PieceChar(Lower(s), MARKER, k, 8);
  }

  /** The marker is found where the boundary parameter starts. */
  lemma MarkerFound(prefix: string, rest: string)
    requires '=' !in prefix
    ensures Find(Lower(prefix + MARKER + rest), MARKER) == |prefix|
  {
    hide Lower;
    var s := prefix + MARKER + rest;
    MarkerText(prefix, rest);
    FirstEquals(prefix, rest);
    forall k | k < |prefix|
      ensures !OccursAt(Lower(s), MARKER, k)
    {
      if OccursAt(Lower(s), MARKER, k) {
        MarkerEquals(s, k);
      }
    }
  }

  lemma MarkerText(prefix: string, rest: string)
    ensures OccursAt(Lower(prefix + MARKER + rest), MARKER, |prefix|)
  {
    hide Lower;
    var s := prefix + MARKER + rest;
    assert s[|prefix|..|prefix| + 9] == MARKER;
    LowerSlice(s, |prefix|, |prefix| + 9);
    LowerIs(MARKER, MARKER);
  }

  lemma LowerStart(line: string, prefix: string)
    requires |prefix| <= |line| && forall i | 0 <= i < |prefix| :: LowerChar(line[i]) == prefix[i]
    ensures StartsWith(Lower(line), prefix)
  {
    hide Lower;
    assert Lower(line)[..|prefix|] == prefix;
  }

  lemma TypeLineStarts(written: string)
    ensures StartsWith(Lower(ContentTypeText(written)), "content-type:")
  {
    hide Lower;
    LowerStart(ContentTypeText(written), "content-type:");
  }

  lemma RequestLineDiffers(path: string)
    ensures !StartsWith(Lower(RequestLine(path)), "content-type:")
  {
    hide Lower;
    RequestConstants();
    var s := Lower(RequestLine(path));
    assert s[0] == 'p';
    StartChar(s, "content-type:", 0);
  }

  lemma ByteSpaceIsSpace(c: char)
    ensures IsByteSpace(c) ==> IsSpace(c)
  {
  }

  lemma WrittenTrimmed(boundary: string, quoted: bool)
    requires SafeBoundary(boundary)
    ensures StripQuotes(Trim(Written(boundary, quoted), IsByteSpace)) == boundary
  {
    hide TrimLeft, TrimRight, StripQuotes;
    var w := Written(boundary, quoted);
    WrittenRead(boundary, quoted);
    ByteSpaceIsSpace(w[0]);
    ByteSpaceIsSpace(w[|w| - 1]);
    TrimKeeps(w, IsByteSpace);
    TrimKeeps(w, IsSpace);
  }

  /** The mutator reads the boundary from a printed head, bare or in quotes. */
  lemma ViewBoundaryRead(lb: string, path: string, boundary: string, quoted: bool)
    requires (lb == CRLF || lb == LF) && LegalPath(path) && SafeBoundary(boundary)
    ensures ViewBoundary(HeadText(lb, path, Written(boundary, quoted))) == boundary
  {
    hide Split, Lower, LineBreak, Find, Written, StripQuotes, Trim, StartsWith, LegalPath, SafeBoundary, ReadHead,
      HeadText, RequestLine, ContentTypeText;
    var w := Written(boundary, quoted);
    HeadRead(lb, path, boundary, quoted);
    var a, b := RequestLine(path), ContentTypeText(w);
    RequestLineDiffers(path);
    TypeLineStarts(w);
    assert [a, b][1..] == [b];
    assert ContentTypeLine([a, b]) == b;
    PrefixPlain();
    TypeShape(w);
    MarkerFound(TYPE_PREFIX, w);
    assert b[|TYPE_PREFIX| + |MARKER|..] == w by {
      DropPrefix(TYPE_PREFIX, MARKER, w);
    }
    WrittenTrimmed(boundary, quoted);
  }

  lemma DropPrefix(p: string, m: string, w: string)
    ensures (p + m + w)[|p| + |m|..] == w
  {
  }

  /** The mutator's view of a printed seed with some part it takes for the file. */
  lemma ViewPrinted(lb: string, path: string, boundary: string, quoted: bool, parts: seq<string>, i: nat)
    requires (lb == CRLF || lb == LF) && LegalPath(path) && SafeBoundary(boundary)
    requires 3 <= |parts| && Clean(parts, Delimiter(boundary))
    requires 1 <= i < |parts| - 1 && ViewFile(parts[i]).Some?
    requires var head := HeadText(lb, path, Written(boundary, quoted));
      BlankLine(head + (lb + lb) + Join(parts, Delimiter(boundary))) == lb + lb
    ensures var head := HeadText(lb, path, Written(boundary, quoted));
      var body := Join(parts, Delimiter(boundary));
      var v := ViewSeed(head + (lb + lb) + body);
      && v.Some? && v.value.header == head && v.value.sep == lb + lb && v.value.body == body
      && v.value.boundary == boundary && v.value.parts == parts && v.value.index <= i
  {
    hide Split, Find, Written, LegalPath, SafeBoundary, ReadHead, HeadText, ViewBoundary, ViewFile, Join, Clean,
      BlankLine, LineBreak;
    var head := HeadText(lb, path, Written(boundary, quoted));
    var d := Delimiter(boundary);
    var body := Join(parts, d);
    HeadRead(lb, path, boundary, quoted);
    CutPrinted(head, lb + lb, body);
    ViewBoundaryRead(lb, path, boundary, quoted);
    assert boundary != "" by {
      SafeNonempty(boundary);
    }
    SplitJoin(parts, d);
    var views := ViewEach(parts);
    assert views[i].Some?;
  }

  lemma SafeNonempty(boundary: string)
    requires SafeBoundary(boundary)
    ensures boundary != ""
  {
  }

  /** A seed whose body is put together from clean segments is parsed as these segments. */
  lemma ParsePrinted(lb: string, path: string, boundary: string, quoted: bool, parts: seq<string>)
    requires (lb == CRLF || lb == LF) && LegalPath(path) && SafeBoundary(boundary)
    requires 3 <= |parts| && Clean(parts, Delimiter(boundary)) && parts[0] == ""
    requires StartsWith(parts[1], CRLF) || StartsWith(parts[1], LF)
    requires ReadSegments(parts).Success?
    requires var head := HeadText(lb, path, Written(boundary, quoted));
      BlankLine(head + (lb + lb) + Join(parts, Delimiter(boundary))) == lb + lb
    ensures var w := Written(boundary, quoted);
      var seed := HeadText(lb, path, w) + (lb + lb) + Join(parts, Delimiter(boundary));
      Parse(seed) == Success(Seed(PrintedHead(path, w, boundary), ReadSegments(parts).value))
  {
    hide Parse, Split, Find, Written, LegalPath, SafeBoundary, ReadHead, HeadText, Join, Clean, BlankLine,
      LineBreak, ReadSegments, ReadBody, StartsWith;
    var head := HeadText(lb, path, Written(boundary, quoted));
    HeadRead(lb, path, boundary, quoted);
    ReadJoined(parts, boundary);
    ParseJoined(head, lb + lb, Join(parts, Delimiter(boundary)));
  }

  // ---------------------------------------------------------------- arm 0: a delimiter that starts too early

  /** A boundary whose delimiter starts again in its own middle. */
  const STRADDLING := "A--A"

  /** A form whose file part ends without a line break, in the two dashes `--`. */
  function UnendedPart(filename: string): string {
    CRLF + FileHeader(filename) + (CRLF + CRLF) + "--"
  }

  function UnendedSegments(filename: string): seq<string> {
    ["", UnendedPart(filename), "--" + CRLF]
  }

  function UnendedSeed(path: string, filename: string): string {
    HeadText(CRLF, path, Written(STRADDLING, false)) + (CRLF + CRLF)
      + Join(UnendedSegments(filename), Delimiter(STRADDLING))
  }

  /** What stands before the content of the file part. */
  function UnendedFront(filename: string): string {
    CRLF + FileHeader(filename) + (CRLF + CRLF)
  }

  /** Text that lacks the delimiter and ends in a foreign character does not change where it is found. */
  lemma FindBehind(front: string, tail: string, d: string)
    requires front != "" && front[|front| - 1] !in d && d != "" && !Contains(front, d)
    ensures 0 <= Find(tail, d) ==> Find(front + tail, d) == |front| + Find(tail, d)
    ensures Find(tail, d) < 0 ==> Find(front + tail, d) < 0
  {
    hide Find, OccursAt;
    var p, c := front[..|front| - 1], front[|front| - 1];
    var s, k := front + tail, Find(tail, d);
    assert s == p + [c] + tail;
    SliceLacks(front, 0, |front| - 1, d);
    assert front[0..|front| - 1] == p;
    if 0 <= k {
      OccursInSuffix(front, tail, d, |front| + k);
    }
    if 0 <= Find(s, d) {
      NoStraddle(p, c, tail, d, Find(s, d));
    }
  }

  lemma StraddlingFinds()
    ensures var d := Delimiter(STRADDLING);
      d == "--A--A" && Find("--" + d, d) == 2 && Find("--A" + d, d) == 0
  {
    var d := Delimiter(STRADDLING);
    assert d == "--A--A";
    var s, t := "--" + d, "--A" + d;
    assert |d| == 6 && s[2] == '-' && s[3] == '-' && d[2] == 'A';
    OccursInSuffix("--", d, d, 2);
    assert d[0..6] == d && OccursAt(d, d, 0);
    assert t == d + "--A" && t[0..6] == d && OccursAt(t, d, 0);
    forall k | k < 2
      ensures !OccursAt(s, d, k)
    {
      CharAt(s, d, k, 2);
    }
  }

  lemma StraddlingLacks(d: string)
    requires d == "--A--A"
    ensures Find("--A--\r\n", d) < 0 && Find("--\r\n", d) < 0 && Find("--A", d) < 0
  {
    var u, v, w := "--A--\r\n", "--\r\n", "--A";
    assert |d| == 6 && |v| == 4 && |w| == 3 && |u| == 7;
    assert u[5] == '\r' && u[6] == '\n' && d[5] == 'A';
    CharAt(u, d, 0, 5);
    CharAt(u, d, 1, 5);
    assert Find(u, d) != 0 && Find(u, d) != 1;
    TooShort(v, d);
    TooShort(w, d);
  }

  lemma TooShort(s: string, d: string)
    requires |s| < |d|
    ensures Find(s, d) < 0 && !Contains(s, d)
  {
  }

  /** A character of an occurrence is the character of the delimiter. */
  lemma CharAt(s: string, d: string, k: int, i: nat)
    requires i < |d|
    ensures OccursAt(s, d, k) ==> 0 <= k + i < |s| && s[k + i] == d[i]
  {
    if OccursAt(s, d, k) {
      PieceChar(s, d, k, i);
    }
  }

  lemma FrontOf(filename: string)
    requires LegalUpload(filename) && !Contains(filename, Delimiter(STRADDLING))
    ensures var front, d := UnendedFront(filename), Delimiter(STRADDLING);
      front != "" && front[|front| - 1] == '\n' && '\n' !in d && !Contains(front, d)
  {
    hide FileHeader, Contains, LegalUpload;
    var d := Delimiter(STRADDLING);
    StraddlingFinds();
    StraddlingSafe();
    LacksChar("", d, 'A');
    FileHolds(filename, "", STRADDLING);
    var front := UnendedFront(filename);
    var whole := PrintPart(CRLF, FileHeader(filename), "");
    assert whole == front + CRLF;
    SliceLacks(whole, 0, |front|, d);
    assert whole[0..|front|] == front;
  }

  lemma StraddlingSafe()
    ensures SafeBoundary(STRADDLING) && STRADDLING != ""
  {
  }

  lemma UnendedClean(filename: string)
    requires LegalUpload(filename) && !Contains(filename, Delimiter(STRADDLING))
    ensures Clean(UnendedSegments(filename), Delimiter(STRADDLING))
    ensures var d, front := Delimiter(STRADDLING), UnendedFront(filename);
      Find(front + "--A" + d, d) == |front|
  {
    hide FileHeader, Contains, Find, LegalUpload;
    var d, front := Delimiter(STRADDLING), UnendedFront(filename);
    StraddlingFinds();
    FrontOf(filename);
    FindBehind(front, "--" + d, d);
    FindBehind(front, "--A" + d, d);
    assert UnendedPart(filename) + d == front + ("--" + d);
    assert front + "--A" + d == front + ("--A" + d);
    DelimiterAlone(d);
    assert "--" + CRLF == "--\r\n";
    StraddlingLacks(d);
    LacksIs("--\r\n", d);
  }

  lemma LacksIs(s: string, d: string)
    ensures Contains(s, d) <==> 0 <= Find(s, d)
  {
  }

  lemma DashesEnd()
    ensures DropLineEnd("--") == "--" && LineEnd("--") == ""
  {
    assert "--"[..2] == "--";
  }

  lemma UnendedPartRead(filename: string)
    requires LegalUpload(filename)
    ensures ReadPart(UnendedPart(filename)) == Success(Part("filedata", Some(filename), "--"))
  {
    hide FileHeader, ReadDisposition, LegalUpload, BlankLine, Contains, Cut, LineEnd, DropLineEnd, DropLineStart;
    var h, sep := FileHeader(filename), CRLF + CRLF;
    FileHeaderRead(filename);
    BlankAfter(h, sep);
    BlankPresent(h, "--");
    CutPrinted(h, sep, "--");
    DashesEnd();
    LineStartDropped(CRLF, h + sep + "--");
    FrontJoined(h, sep, "--");
  }

  lemma FrontJoined(h: string, sep: string, t: string)
    ensures CRLF + (h + sep + t) == CRLF + h + sep + t
  {
  }

  lemma UnendedView(filename: string)
    requires LegalUpload(filename)
    ensures ViewFile(UnendedPart(filename)) == Some(FileView(CRLF + FileHeader(filename), CRLF + CRLF, "--", ""))
  {
    hide FileHeader, ReadDisposition, LegalUpload, BlankLine, Contains, Cut, LineEnd, DropLineEnd;
    var h, sep := FileHeader(filename), CRLF + CRLF;
    FileHeaderRead(filename);
    NamesFiledata(filename);
    HeaderAfterBreak(h);
    BlankAfter(CRLF + h, sep);
    BlankPresent(CRLF + h, "--");
    CutPrinted(CRLF + h, sep, "--");
    DashesEnd();
  }

  lemma UnendedRead(filename: string)
    requires LegalUpload(filename)
    ensures ReadSegments(UnendedSegments(filename)) == Success(Content(map[], filename, "--"))
  {
    hide ReadPart, UnendedPart, LegalUpload;
    UnendedPartRead(filename);
    OneFileRead(UnendedPart(filename), "--" + CRLF, Part("filedata", Some(filename), "--"));
  }

  /** A body of one part, the file. */
  lemma OneFileRead(part: string, end: string, file: Part)
    requires ReadPart(part) == Success(file) && file.filename.Some? && file.name == "filedata" && Terminator(end)
    ensures ReadSegments(["", part, end]) == Success(Content(map[], file.filename.value, file.body))
  {
    hide ReadPart, Terminator;
    var parts := ["", part, end];
    var inner := parts[1..2];
    assert inner == [part];
    assert ReadEach(inner) == FieldResults([]) + [Success(file)];
    FormRead([], file);
  }

  lemma UnendedAgrees(path: string, filename: string)
    requires LegalPath(path) && LegalUpload(filename) && !Contains(filename, Delimiter(STRADDLING))
    ensures var seed := UnendedSeed(path, filename);
      && Parse(seed).Success? && Parse(seed).value.content == Content(map[], filename, "--")
      && ViewSeed(seed).Some? && Agree(seed, Parse(seed).value, ViewSeed(seed).value)
      && ViewSeed(seed).value.parts == UnendedSegments(filename)
      && ViewSeed(seed).value.boundary == STRADDLING
  {
    hide Parse, ViewSeed, LegalPath, LegalUpload, ReadSegments, HeadText, Written, Join, Clean, BlankLine,
      UnendedPart, ViewFile, StartsWith, PrintedHead, SafeBoundary, Contains;
    var parts := UnendedSegments(filename);
    StraddlingSafe();
    UnendedClean(filename);
    UnendedRead(filename);
    UnendedView(filename);
    UnendedStart(filename);
    var head := HeadText(CRLF, path, Written(STRADDLING, false));
    BlankPresent(head, Join(parts, Delimiter(STRADDLING)));
    ParsePrinted(CRLF, path, STRADDLING, false, parts);
    ViewPrinted(CRLF, path, STRADDLING, false, parts, 1);
    HeadBoundaryIs(path, Written(STRADDLING, false), STRADDLING);
  }

  lemma UnendedStart(filename: string)
    ensures StartsWith(UnendedPart(filename), CRLF)
  {
    hide FileHeader;
    PrefixStart(CRLF, FileHeader(filename) + (CRLF + CRLF) + "--");
    assert CRLF + (FileHeader(filename) + (CRLF + CRLF) + "--") == UnendedPart(filename);
  }

  /** Where the body is cut once `A` stands behind the two dashes. */
  lemma UnendedSplit(front: string, d: string)
    requires d == "--A--A" && Find(front + "--A" + d, d) == |front|
    requires Find("" + d, d) == 0 && Find("--A--\r\n", d) < 0
    ensures Split(Join(["", front + "--A", "--" + CRLF], d), d) == ["", front, "--A--\r\n"]
  {
    hide Find;
    var text, end := front + "--A", "--" + CRLF;
    assert ["", text, end][1..] == [text, end] && [text, end][1..] == [end];
    var rest := text + d + end;
    assert Join([text, end], d) == rest && Join(["", text, end], d) == "" + d + rest;
    FindDelimiter("", d, rest);
    assert ("" + d + rest)[..0] == "" && ("" + d + rest)[|d|..] == rest;
    FindEarlyAt(text, d, end, |front|);
    assert rest[..|front|] == front;
    assert rest[|front| + |d|..] == "--A--\r\n";
    SplitNoneFound("--A--\r\n", d);
  }

  lemma FindEarlyAt(text: string, d: string, rest: string, j: nat)
    requires j < |text| && Find(text + d, d) == j
    ensures Find(text + d + rest, d) == j
  {
    FindEarly(text, d, rest);
  }

  lemma SplitNoneFound(s: string, d: string)
    requires d != "" && Find(s, d) < 0
    ensures Split(s, d) == [s]
  {
  }

  /**
   Arm 0 does not keep the meaning of a seed whose file part has no line break at its end and whose
   content, grown by the new byte, is the front half of the delimiter: the content holds no delimiter, but
   one starts in it, and the seed is refused.
   */
  lemma StraddleExample(path: string, filename: string)
    requires LegalPath(path) && LegalUpload(filename) && !Contains(filename, Delimiter(STRADDLING))
    ensures var seed := UnendedSeed(path, filename);
      && Parse(seed).Success? && Parse(seed).value.content.fileBytes == "--"
      && !Contains("--" + ['A'], Delimiter(STRADDLING))
      && Parse(Mutate(seed, 0, 'A', 0)) == Failure(TerminatorMissing)
  {
    hide Parse, ViewSeed, LegalPath, LegalUpload, UnendedSeed, UnendedPart, UnendedSegments, Mutate, ReadMessage,
      Contains, Find;
    var seed := UnendedSeed(path, filename);
    UnendedAgrees(path, filename);
    UnendedMutated(seed, Parse(seed).value, ViewSeed(seed).value, filename);
    StraddlingFinds();
    StraddlingLacks(Delimiter(STRADDLING));
    assert "--" + ['A'] == "--A";
    LacksIs("--A", Delimiter(STRADDLING));
  }

  lemma UnendedMutated(seed: string, r: Seed, v: View, filename: string)
    requires LegalUpload(filename) && !Contains(filename, Delimiter(STRADDLING)) && Agree(seed, r, v)
    requires v.parts == UnendedSegments(filename) && v.boundary == STRADDLING
    ensures Parse(Mutate(seed, 0, 'A', 0)) == Failure(TerminatorMissing)
  {
    hide Parse, ViewSeed, LegalUpload, ReadHead, Mutate, ReadMessage, Contains, Find, Split, FileHeader, Join,
      ViewFile, UnendedPart, NewPart;
    var d, front := Delimiter(STRADDLING), UnendedFront(filename);
    UnendedClean(filename);
    UnendedView(filename);
    StraddlingFinds();
    StraddlingLacks(d);
    DelimiterAlone(d);
    UnendedSplit(front, d);
    UnendedFile(seed, v, filename);
    UnendedGrown(v.file, filename);
    AppendedMessage(seed, r, v, 'A', 0);
    assert v.parts[1 := front + "--A"] == ["", front + "--A", "--" + CRLF];
    PrefixStart(CRLF, FileHeader(filename) + (CRLF + CRLF));
    assert CRLF + (FileHeader(filename) + (CRLF + CRLF)) == front;
    UnendedRefused(v.header, r.head, front, d);
  }

  lemma UnendedGrown(f: FileView, filename: string)
    requires f == FileView(CRLF + FileHeader(filename), CRLF + CRLF, "--", "")
    ensures NewPart(f, 'A') == UnendedFront(filename) + "--A"
  {
    hide FileHeader;
    var front := UnendedFront(filename);
    assert "--" + ['A'] == "--A";
    assert front + "--A" + "" == front + "--A";
  }

  lemma UnendedFile(seed: string, v: View, filename: string)
    requires ViewSeed(seed) == Some(v) && v.parts == UnendedSegments(filename)
    ensures v.index == 1 && ViewFile(v.parts[1]) == Some(v.file)
  {
    hide ViewFile;
  }

  lemma UnendedRefused(header: string, head: Head, front: string, d: string)
    requires ReadHead(header) == Success(head) && d == Delimiter(head.boundary) && '\r' == CRLF[0]
    requires Split(Join(["", front + "--A", "--" + CRLF], d), d) == ["", front, "--A--\r\n"]
    requires StartsWith(front, CRLF)
    ensures ReadMessage(header, Join(["", front + "--A", "--" + CRLF], d)) == Failure(TerminatorMissing)
  {
    hide ReadHead, Split, Join;
    var body := Join(["", front + "--A", "--" + CRLF], d);
    UnendedBodyStart(front, d);
  }

  lemma UnendedBodyStart(front: string, d: string)
    requires StartsWith(front, CRLF)
    ensures StartsWith(Join(["", front + "--A", "--" + CRLF], d), d + CRLF)
  {
    var text, end := front + "--A", "--" + CRLF;
    assert ["", text, end][1..] == [text, end] && [text, end][1..] == [end];
    var body := Join(["", text, end], d);
    assert Join([text, end], d) == text + d + end;
    assert front == CRLF + front[2..];
    LeadOut(d, CRLF, front[2..], "--A", end);
    PrefixStart(d + CRLF, front[2..] + "--A" + d + end);
  }

  lemma LeadOut(d: string, lb: string, x: string, a: string, end: string)
    ensures "" + d + (((lb + x) + a) + d + end) == (d + lb) + (x + a + d + end)
  {
  }

  /** One such seed. */
  lemma StraddleExists()
    ensures var seed := UnendedSeed("/", "f");
      Parse(seed).Success? && Parse(Mutate(seed, 0, 'A', 0)) == Failure(TerminatorMissing)
  {
    hide Parse, Mutate, UnendedSeed, Contains;
    ExampleLegal();
    StraddlingFinds();
    TooShort("f", Delimiter(STRADDLING));
    StraddleExample("/", "f");
  }

  // ---------------------------------------------------------------- arm 1: the quoted boundary

  lemma MarkerAfterEquals(s: string, boundary: string, k: int)
    requires OccursAt(s, MARKER + boundary, k) && boundary != ""
    ensures 0 <= k && k + 9 < |s| && s[k + 8] == '=' && s[k + 9] == boundary[0]
  {
    PieceChar(s, MARKER + boundary, k, 8);
    PieceChar(s, MARKER + boundary, k, 9);
  }

  /** With the boundary in quotes the literal the mutator replaces does not occur. */
  lemma QuotedLacksLiteral(prefix: string, boundary: string)
    requires '=' !in prefix && '=' !in boundary && boundary != "" && boundary[0] != '"'
    ensures !Contains(prefix + MARKER + ("\"" + boundary + "\""), MARKER + boundary)
  {
    var q := "\"" + boundary + "\"";
    var s := prefix + MARKER + q;
    FirstEquals(prefix, q);
    forall j | |prefix| + 9 <= j < |s|
      ensures s[j] != '='
    {
      assert s[j] == q[j - |prefix| - 9];
    }
    assert s[|prefix| + 9] == q[0] == '"';
    if Contains(s, MARKER + boundary) {
      MarkerAfterEquals(s, boundary, Find(s, MARKER + boundary));
    }
  }

  /** How the mutator sees a printed part. */
  lemma SegmentView(h: string, content: string)
    requires h != "" && h[0] == 'C' && h[|h| - 1] !in CRLF && !Contains(h, CRLF + CRLF)
    ensures ViewFile(PrintPart(CRLF, h, content)) ==
      if Contains(h, FILEDATA) then Some(FileView(CRLF + h, CRLF + CRLF, content, CRLF)) else None
  {
    hide BlankLine, Contains, Cut, LineEnd;
    var sep := CRLF + CRLF;
    HeaderAfterBreak(h);
    BlankAfter(CRLF + h, sep);
    BlankPresent(CRLF + h, content + CRLF);
    CutPrinted(CRLF + h, sep, content + CRLF);
    assert CRLF + (h + sep + (content + CRLF)) == (CRLF + h) + sep + (content + CRLF);
    LineEndDropped(CRLF, content);
    BreakNotNamed(h);
    PrintedEnd(content);
  }

  lemma PrintedEnd(content: string)
    ensures LineEnd(content + CRLF) == CRLF
  {
    var s := content + CRLF;
    assert s[|s| - 2] == '\r' && s[|s| - 1] == '\n';
  }

  lemma BreakNotNamed(h: string)
    ensures Contains(CRLF + h, FILEDATA) <==> Contains(h, FILEDATA)
  {
    hide Contains;
    assert Foreign(CRLF, FILEDATA) by {
      assert '\r' !in FILEDATA && '\n' !in FILEDATA;
    }
    ContainsAcrossText("", CRLF, h, FILEDATA);
    assert "" + CRLF + h == CRLF + h;
    EmptyLacks(FILEDATA);
  }

  lemma FileSegmentViewed(filename: string, fileBytes: string)
    requires LegalUpload(filename)
    ensures ViewFile(PrintPart(CRLF, FileHeader(filename), fileBytes))
      == Some(FileView(CRLF + FileHeader(filename), CRLF + CRLF, fileBytes, CRLF))
  {
    hide FileHeader, ReadDisposition, LegalUpload, Contains, PrintPart, ViewFile;
    var h := FileHeader(filename);
    FileHeaderRead(filename);
    NamesFiledata(filename);
    BreakNotNamed(h);
    SegmentView(h, fileBytes);
  }

  lemma HeaderAfterBreak(h: string)
    requires h != "" && h[0] != '\r' && h[0] != '\n' && !Contains(h, CRLF + CRLF)
    ensures !Contains(CRLF + h, CRLF + CRLF)
  {
    var sep := CRLF + CRLF;
    var c, t := h[0], h[1..];
    assert CRLF + h == CRLF + [c] + t && h == "" + [c] + t;
    assert c !in sep;
    ContainsAcross(CRLF, c, t, sep);
    ContainsAcross("", c, t, sep);
  }

  lemma NamesFiledata(filename: string)
    ensures var h := FileHeader(filename);
      Contains(CRLF + h, FILEDATA) && h != "" && h[0] == 'C'
  {
    hide FileHeader, Contains;
    FileShape(filename);
    FilePrefixShape();
    var x := DISPOSITION + ":" + (" " + (FORM_DATA + "; "));
    var q := "\"" + filename + "\"";
    AroundName(CRLF, x, FILEDATA, "; filename=", q, CRLF, TYPE_LINE);
    MiddleContained(CRLF + x, FILEDATA, "; filename=" + q + CRLF + TYPE_LINE);
    FirstOfDisposition();
  }

  lemma AroundName(lb: string, x: string, m: string, y: string, q: string, nl: string, t: string)
    ensures lb + (x + m + y + q + nl + t) == (lb + x) + m + (y + q + nl + t)
  {
  }

  lemma FirstOfDisposition()
    ensures DISPOSITION != "" && DISPOSITION[0] == 'C'
  {
  }

  lemma FilePrefixShape()
    ensures FILE_PREFIX == DISPOSITION + ":" + (" " + (FORM_DATA + "; ")) + FILEDATA + "; filename="
  {
    assert "; name=" + "\"filedata\"; filename=" == "; " + FILEDATA + "; filename=";
  }

  lemma MiddleContained(p: string, m: string, q: string)
    ensures Contains(p + m + q, m)
  {
    OccursInSuffix(p, m + q, m, |p|);
    assert p + m + q == p + (m + q);
    assert (m + q)[0..|m|] == m;
  }

  /** The seed of a printed form, its boundary bare or in quotes. */
  function FormSeed(path: string, fields: seq<Field>, filename: string, fileBytes: string, boundary: string,
                    quoted: bool): string {
    HeadText(CRLF, path, Written(boundary, quoted)) + (CRLF + CRLF)
      + Join(PrintedSegments(fields, filename, fileBytes), Delimiter(boundary))
  }

  /** How both sides see a printed seed. */
  lemma FormSeedView(path: string, fields: seq<Field>, filename: string, fileBytes: string, boundary: string,
                     quoted: bool)
    requires LegalPath(path) && SafeBoundary(boundary) && Dictionary(fields)
    requires Legal(fields, filename, fileBytes, boundary)
    ensures var seed := FormSeed(path, fields, filename, fileBytes, boundary, quoted);
      var head := PrintedHead(path, Written(boundary, quoted), boundary);
      && Parse(seed) == Success(Seed(head, Content(FieldMap(fields, map[]), filename, fileBytes)))
      && ViewSeed(seed).Some? && Agree(seed, Parse(seed).value, ViewSeed(seed).value)
      && ViewSeed(seed).value.header == HeadText(CRLF, path, Written(boundary, quoted))
      && ViewSeed(seed).value.parts == PrintedSegments(fields, filename, fileBytes)
      && ViewSeed(seed).value.index <= |fields| + 1
  {
    hide Parse, ViewSeed, LegalPath, SafeBoundary, LegalName, LegalUpload, Undelimited, Dictionary, ReadSegments,
      HeadText, Written, Join, Clean, BlankLine, PrintPart, FileHeader, ViewFile, StartsWith, PrintedHead,
      PrintedSegments;
    var parts := PrintedSegments(fields, filename, fileBytes);
    SegmentsClean(fields, filename, fileBytes, boundary);
    SegmentsRead(fields, filename, fileBytes);
    PrintedStart(fields, filename, fileBytes);
    var head := HeadText(CRLF, path, Written(boundary, quoted));
    BlankPresent(head, Join(parts, Delimiter(boundary)));
    ParsePrinted(CRLF, path, boundary, quoted, parts);
    FileSegmentViewed(filename, fileBytes);
    FilePartPrinted(fields, filename, fileBytes);
    ViewPrinted(CRLF, path, boundary, quoted, parts, |fields| + 1);
    HeadBoundaryIs(path, Written(boundary, quoted), boundary);
  }

  lemma FilePartPrinted(fields: seq<Field>, filename: string, fileBytes: string)
    ensures var parts := PrintedSegments(fields, filename, fileBytes);
      && |parts| == |fields| + 3
      && parts[|fields| + 1] == PrintPart(CRLF, FileHeader(filename), fileBytes)
  {
    hide PrintPart, FieldHeader, FileHeader;
  }

  lemma HeadBoundaryIs(path: string, written: string, boundary: string)
    ensures PrintedHead(path, written, boundary).boundary == boundary
  {
  }

  /** The boundary parameter of a printed head with the boundary in quotes. */
  lemma QuotedItem(boundary: string)
    requires SafeBoundary(boundary)
    ensures var item := BoundaryText(Written(boundary, true));
      && StripAll(Split(FORM_TYPE + ItemsText([item]), ";")) == [FORM_TYPE, item]
      && 9 < |item| && item[9] == '"' && Literal(boundary)[9] != '"'
  {
    hide Strip, Split, PlainItem, ReadItem, Lower;
    var item := BoundaryText(Written(boundary, true));
    BoundaryItemRead(boundary, true);
    FormTypePlain();
    PlainWordKept(FORM_TYPE);
    SplitItems(FORM_TYPE, [item]);
    assert [FORM_TYPE] + [item] == [FORM_TYPE, item];
    MarkerIs();
    var w := "\"" + boundary + "\"";
    assert item == MARKER + w;
    MarkerChars(w);
    MarkerChars(boundary);
    assert item[9 + 0] == w[0] == '"';
    assert Literal(boundary)[9 + 0] == boundary[0] && boundary[0] in boundary;
  }

  /** With the boundary in quotes the literal never stands at the parameter. */
  lemma QuotedElsewhere(path: string, boundary: string)
    requires LegalPath(path) && SafeBoundary(boundary)
    ensures var h := HeadText(CRLF, path, Written(boundary, true));
      0 <= Find(h, MARKER + boundary) ==> Find(h, MARKER + boundary) != BoundaryPosition(h)
  {
    hide ReadHead, Split, ReadLine, Strip, OccursAt, Find, LineBreak, LegalPath, SafeBoundary, HeadText, Written,
      BoundaryText, ReadItem, Lower, BoundaryPosition, ParameterPosition, Literal, NamesBoundary;
    var w := Written(boundary, true);
    var h := HeadText(CRLF, path, w);
    HeadRead(CRLF, path, boundary, true);
    QuotedItem(boundary);
    if 0 <= Find(h, MARKER + boundary) == BoundaryPosition(h) {
      var head := PrintedHead(path, w, boundary);
      var j, m := ContentTypeAt(h, head);
      var value := head.headers["content-type"];
      StrippedEnds(Split(value, ";")[m], boundary);
      ContentTypeNonempty(value);
      ParameterInHeader(h, j, value, m);
      LiteralFound(h, boundary);
      SamePlace(h, BoundaryText(w), Literal(boundary), BoundaryPosition(h));
      LiteralLonger(boundary);
    }
  }

  lemma LiteralLonger(boundary: string)
    requires SafeBoundary(boundary)
    ensures 9 < |Literal(boundary)|
  {
    MarkerChars(boundary);
  }

  /**
   Arm 1 does not keep the meaning of a seed whose boundary is in quotes: the parser accepts the seed
   and refuses the mutated one, for every path, form and boundary.
   */
  lemma QuotedRefused(path: string, fields: seq<Field>, filename: string, fileBytes: string, boundary: string, c: char)
    requires LegalPath(path) && SafeBoundary(boundary) && Dictionary(fields)
    requires Legal(fields, filename, fileBytes, boundary)
    ensures var seed := FormSeed(path, fields, filename, fileBytes, boundary, true);
      && Parse(seed).Success? && Parse(Mutate(seed, 1, c, 0)).Failure?
      && ('=' !in path && '=' !in boundary ==> Parse(Mutate(seed, 1, c, 0)) == Failure(BoundaryMismatch))
  {
    hide Parse, ViewSeed, LegalPath, Legal, Dictionary, FormSeed, HeadText, PrintedHead, Mutate, Redelimit,
      Contains, SafeBoundary, BoundaryPosition, Find;
    var seed := FormSeed(path, fields, filename, fileBytes, boundary, true);
    FormSeedView(path, fields, filename, fileBytes, boundary, true);
    HeadBoundaryIs(path, Written(boundary, true), boundary);
    var r, v := Parse(seed).value, ViewSeed(seed).value;
    QuotedElsewhere(path, boundary);
    RedelimitExactly(seed, r, v, c, 0);
    if '=' !in path && '=' !in boundary {
      HeadWithoutLiteral(path, boundary);
      RedelimitRefused(seed, r, v);
      MutatedWhole(seed, v, c);
    }
  }

  lemma MutatedWhole(seed: string, v: View, c: char)
    requires ViewSeed(seed) == Some(v)
    ensures Mutate(seed, 1, c, 0) == Redelimit(v) && Mutate(seed, 2, c, 0) == AddDescription(v)
  {
    hide ViewSeed, Redelimit, AddDescription;
  }

  lemma HeadWithoutLiteral(path: string, boundary: string)
    requires '=' !in path && SafeBoundary(boundary) && '=' !in boundary
    ensures !Contains(HeadText(CRLF, path, Written(boundary, true)), MARKER + boundary)
  {
    hide RequestLine, ContentTypeText, Contains;
    var w := "\"" + boundary + "\"";
    TypeShape(w);
    PrefixPlain();
    RequestEquals(path);
    var prefix := RequestLine(path) + CRLF + TYPE_PREFIX;
    assert HeadText(CRLF, path, w) == prefix + MARKER + w;
    QuotedLacksLiteral(prefix, boundary);
  }

  lemma RequestEquals(path: string)
    requires '=' !in path
    ensures '=' !in RequestLine(path)
  {
  }

  /** One such seed. */
  lemma QuotedExample()
    ensures var seed := FormSeed("/", [], "f", "x", "b", true);
      Parse(seed).Success? && Parse(Mutate(seed, 1, 'A', 0)) == Failure(BoundaryMismatch)
  {
    hide Parse, FormSeed, Mutate, Undelimited;
    ExampleLegal();
    QuotedRefused("/", [], "f", "x", "b", 'A');
  }

  lemma ExampleLegal()
    ensures LegalPath("/") && '=' !in "/" && SafeBoundary("b") && '=' !in "b" && LegalUpload("f")
    ensures Undelimited([], "f", "x", Delimiter("b"))
  {
  }

  // ---------------------------------------------------------------- arm 2: mixed line breaks

  /** A seed with LF line breaks whose file holds a CRLF. */
  function MixedSegments(filename: string, content: string): seq<string> {
    ["", PrintPart(LF, DispositionLine(FileItems(filename)), content), "--" + LF]
  }

  function MixedSeed(path: string, filename: string, content: string, boundary: string): string {
    HeadText(LF, path, Written(boundary, false)) + (LF + LF)
      + Join(MixedSegments(filename, content), Delimiter(boundary))
  }

  /** Content that mixes line breaks but holds no CRLF CRLF, and ends in no line break. */
  predicate MixedContent(content: string) {
    && Contains(content, CRLF) && !Contains(content, CRLF + CRLF)
    && content != "" && content[|content| - 1] != '\r' && content[|content| - 1] != '\n'
  }

  lemma MixedLine(filename: string)
    requires LegalUpload(filename)
    ensures var line := DispositionLine(FileItems(filename));
      && ReadDisposition(line) == Success(("filedata", Some(filename)))
      && line != "" && line[|line| - 1] == '"' && '\n' !in line
      && line == NAME_PREFIX + "\"filedata\"; filename=" + ("\"" + filename + "\"")
  {
    hide ReadDisposition, DispositionLine, NamesOf, ItemText, PlainItem, LegalUpload;
    var items := FileItems(filename);
    FileItemsPlain(filename);
    FileNames(filename);
    LineLacks(items);
    QuoteEnd("filename", filename);
    LineEndsInQuote(items);
    OneLineRead(items);
    LineShape(filename);
  }

  lemma LineShape(filename: string)
    ensures DispositionLine(FileItems(filename)) == NAME_PREFIX + "\"filedata\"; filename=" + ("\"" + filename + "\"")
  {
    hide ItemText;
    var a, b := ItemText("name", "filedata"), ItemText("filename", filename);
    OneItem(b);
    assert [a, b][1..] == [b];
    FileLineShape(FORM_DATA, filename);
  }

  /** Text without the first character of `d` in front changes nothing. */
  lemma LeadingTransparent(p: string, s: string, d: string)
    requires d != "" && d[0] !in p
    ensures Contains(p + s, d) <==> Contains(s, d)
  {
    if Contains(p + s, d) {
      var k := Find(p + s, d);
      FirstChar(p + s, d, k);
      OccursInSuffix(p, s, d, k);
    }
    if Contains(s, d) {
      OccursInSuffix(p, s, d, |p| + Find(s, d));
    }
  }

  /** Between texts without CR, a content without CRLF CRLF brings none. */
  lemma NoBlankAround(p: string, content: string, rest: string)
    requires '\r' !in p && '\r' !in rest
    requires content != "" && content[|content| - 1] != '\r' && content[|content| - 1] != '\n'
    requires !Contains(content, CRLF + CRLF)
    ensures !Contains(p + content + rest, CRLF + CRLF)
    ensures BlankLine(p + content + rest) == LF + LF
  {
    var sep := CRLF + CRLF;
    assert sep[0] == '\r';
    var y, c := content[..|content| - 1], content[|content| - 1];
    assert content == y + [c];
    SliceLacks(content, 0, |content| - 1, sep);
    assert content[0..|content| - 1] == y;
    LacksChar(rest, sep, '\r');
    ContainsAcross(y, c, rest, sep);
    assert y + [c] + rest == content + rest;
    LeadingTransparent(p, content + rest, sep);
    assert p + (content + rest) == p + content + rest;
  }

  lemma MixedLineBreakFree(filename: string)
    requires LegalUpload(filename)
    ensures '\r' !in DispositionLine(FileItems(filename))
  {
    hide DispositionLine;
    LineShape(filename);
    PrefixNoReturn();
    assert '\r' !in filename;
  }

  lemma PrefixNoReturn()
    ensures '\r' !in NAME_PREFIX && '\r' !in "\"filedata\"; filename="
  {
    assert '\r' !in DISPOSITION && '\r' !in FORM_DATA;
  }

  /** The part of the mixed seed, taken apart at its content. */
  lemma MixedPart(line: string, content: string)
    ensures PrintPart(LF, line, content) == (LF + line + (LF + LF)) + content + LF
  {
  }

  lemma MixedPartRead(filename: string, content: string)
    requires LegalUpload(filename) && MixedContent(content)
    ensures ReadPart(MixedSegments(filename, content)[1]) == Success(Part("filedata", Some(filename), content))
  {
    hide ReadPart, ReadDisposition, DispositionLine, LegalUpload, BlankLine, Contains, PrintPart;
    var line := DispositionLine(FileItems(filename));
    MixedLine(filename);
    MixedLineBreakFree(filename);
    var blank := LF + LF;
    NoBlankAround(line + blank, content, LF);
    assert line + blank + (content + LF) == (line + blank) + content + LF;
    LacksChar(line, blank, '\n');
    PartRead(LF, line, content);
  }

  lemma MixedPartViewed(filename: string, content: string)
    requires LegalUpload(filename) && MixedContent(content)
    ensures ViewFile(MixedSegments(filename, content)[1]).Some?
  {
    hide ReadDisposition, DispositionLine, LegalUpload, BlankLine, Contains, Cut, PrintPart;
    var line := DispositionLine(FileItems(filename));
    var blank := LF + LF;
    MixedLine(filename);
    MixedLineBreakFree(filename);
    NoBlankAround(LF + line + blank, content, LF);
    MixedPart(line, content);
    OneLineBreak(LF, line);
    BlankAfter(LF + line, blank);
    CutPrinted(LF + line, blank, content + LF);
    assert (LF + line + blank) + content + LF == (LF + line) + blank + (content + LF);
    LineNamesFiledata(filename);
  }

  lemma LineNamesFiledata(filename: string)
    ensures Contains(LF + DispositionLine(FileItems(filename)), FILEDATA)
  {
    hide DispositionLine, Contains;
    LineShape(filename);
    FilePrefixShape();
    var x := DISPOSITION + ":" + (" " + (FORM_DATA + "; "));
    var q := "\"" + filename + "\"";
    AroundLine(LF, x, FILEDATA, "; filename=", q);
    MiddleContained(LF + x, FILEDATA, "; filename=" + q);
  }

  lemma AroundLine(lb: string, x: string, m: string, y: string, q: string)
    ensures lb + (x + m + y + q) == (lb + x) + m + (y + q)
  {
  }

  lemma MixedHolds(filename: string, content: string, boundary: string)
    requires SafeBoundary(boundary) && !Contains(filename, Delimiter(boundary))
      && !Contains(content, Delimiter(boundary))
    ensures !Contains(MixedSegments(filename, content)[1], Delimiter(boundary))
  {
    hide Contains, DispositionLine, NoDashes, SafeBoundary, Foreign;
    var d := Delimiter(boundary);
    var q, blank := "\"", LF + LF;
    LineShape(filename);
    MixedSeparators(boundary);
    PrefixHasNoDashes();
    NoDashesJoined(LF, FILE_PREFIX);
    NoDashesLacks(LF + FILE_PREFIX, boundary);
    Sandwich(LF + FILE_PREFIX, q, filename, q + blank, content, LF, d);
    FieldText(LF, FILE_PREFIX, q, filename, blank, content, LF);
  }

  lemma MixedSeparators(boundary: string)
    requires SafeBoundary(boundary)
    ensures var d := Delimiter(boundary); Foreign("\"", d) && Foreign("\"" + (LF + LF), d) && Foreign(LF, d)
  {
    SafeDelimiter(boundary);
  }

  lemma MixedClean(filename: string, content: string, boundary: string)
    requires SafeBoundary(boundary) && !Contains(filename, Delimiter(boundary))
      && !Contains(content, Delimiter(boundary))
    ensures Clean(MixedSegments(filename, content), Delimiter(boundary))
  {
    hide Contains, Find, DispositionLine, SafeBoundary;
    var d := Delimiter(boundary);
    var parts := MixedSegments(filename, content);
    MixedHolds(filename, content, boundary);
    assert parts[1][|parts[1]| - 1] == '\n';
    CleanPrinted(parts[1], boundary);
    DelimiterAlone(d);
    MixedEndLacks(boundary);
    forall i | 0 <= i < 2
      ensures Find(parts[i] + d, d) == |parts[i]|
    {
    }
  }

  lemma MixedEndLacks(boundary: string)
    requires SafeBoundary(boundary)
    ensures !Contains("--" + LF, Delimiter(boundary))
  {
    EndLacks(boundary);
    var d := Delimiter(boundary);
    if Contains("--" + LF, d) {
      var k := Find("--" + LF, d);
      PieceStart("--" + LF, d, k);
      SafeDelimiter(boundary);
    }
  }

  lemma MixedSegmentsRead(filename: string, content: string)
    requires LegalUpload(filename) && MixedContent(content)
    ensures ReadSegments(MixedSegments(filename, content)) == Success(Content(map[], filename, content))
  {
    hide ReadPart, PrintPart, DispositionLine, LegalUpload;
    var parts := MixedSegments(filename, content);
    MixedPartRead(filename, content);
    var inner := parts[1..2];
    assert inner == [parts[1]];
    var file := Part("filedata", Some(filename), content);
    assert ReadEach(inner) == FieldResults([]) + [Success(file)];
    FormRead([], file);
  }

  /** The mixed seed, taken apart at its content. */
  lemma MixedSeedText(head: string, line: string, content: string, d: string)
    ensures var part := PrintPart(LF, line, content);
      head + (LF + LF) + Join(["", part, "--" + LF], d)
        == (head + (LF + LF) + d + (LF + line + (LF + LF))) + content + (LF + d + ("--" + LF))
  {
    hide PrintPart;
    var part := PrintPart(LF, line, content);
    var end := "--" + LF;
    assert ["", part, end][1..] == [part, end] && [part, end][1..] == [end];
    assert Join([part, end], d) == part + d + end;
    assert Join(["", part, end], d) == "" + d + (part + d + end);
    MixedPart(line, content);
    Unfold(head + (LF + LF), d, LF + line + (LF + LF), content, LF, end);
  }

  lemma Unfold(h: string, d: string, p: string, content: string, lb: string, end: string)
    ensures h + ("" + d + ((p + content + lb) + d + end)) == (h + d + p) + content + (lb + d + end)
  {
  }

  lemma MixedBlankLine(path: string, filename: string, content: string, boundary: string)
    requires LegalPath(path) && SafeBoundary(boundary) && LegalUpload(filename) && MixedContent(content)
    ensures BlankLine(MixedSeed(path, filename, content, boundary)) == LF + LF
  {
    hide LegalPath, SafeBoundary, LegalUpload, DispositionLine, RequestLine, ContentTypeText, PrintPart, Join,
      BlankLine, Contains;
    var w := Written(boundary, false);
    var head := HeadText(LF, path, w);
    var line := DispositionLine(FileItems(filename));
    var d := Delimiter(boundary);
    HeadBreaks(path, boundary, false);
    MixedLineBreakFree(filename);
    SafeDelimiter(boundary);
    MixedSeedText(head, line, content, d);
    NoBlankAround(head + (LF + LF) + d + (LF + line + (LF + LF)), content, LF + d + ("--" + LF));
  }

  lemma MixedBody(filename: string, content: string, d: string)
    requires MixedContent(content)
    ensures Contains(Join(MixedSegments(filename, content), d), CRLF)
  {
    hide PrintPart, DispositionLine, Contains;
    var line := DispositionLine(FileItems(filename));
    MixedSeedText("", line, content, d);
    var x, y := "" + (LF + LF) + d + (LF + line + (LF + LF)), LF + d + ("--" + LF);
    MiddleContained(x, content, y);
    ContainsTransitive(x + content + y, content, CRLF);
    var body := Join(MixedSegments(filename, content), d);
    assert x + content + y == (LF + LF) + body;
    assert CRLF[0] !in LF + LF;
    LeadingTransparent(LF + LF, body, CRLF);
  }

  lemma MixedView(path: string, filename: string, content: string, boundary: string)
    requires LegalPath(path) && SafeBoundary(boundary) && LegalUpload(filename) && MixedContent(content)
    requires !Contains(filename, Delimiter(boundary)) && !Contains(content, Delimiter(boundary))
    ensures var seed := MixedSeed(path, filename, content, boundary);
      && Parse(seed).Success? && DESCRIPTION !in Parse(seed).value.content.fields
      && ViewSeed(seed).Some? && Agree(seed, Parse(seed).value, ViewSeed(seed).value)
      && MixedLineBreaks(ViewSeed(seed).value)
  {
    hide Parse, ViewSeed, LegalPath, SafeBoundary, LegalUpload, ReadSegments, HeadText, Written, Join, Clean,
      BlankLine, MixedSegments, ViewFile, StartsWith, PrintedHead, Contains, MixedContent;
    var parts := MixedSegments(filename, content);
    var d := Delimiter(boundary);
    MixedShape(filename, content);
    MixedClean(filename, content, boundary);
    MixedSegmentsRead(filename, content);
    MixedPartViewed(filename, content);
    MixedBlankLine(path, filename, content, boundary);
    ParsePrinted(LF, path, boundary, false, parts);
    ViewPrinted(LF, path, boundary, false, parts, 1);
    MixedBody(filename, content, d);
    HeadBoundaryIs(path, Written(boundary, false), boundary);
  }

  lemma MixedShape(filename: string, content: string)
    ensures var parts := MixedSegments(filename, content);
      |parts| == 3 && parts[0] == "" && StartsWith(parts[1], LF)
  {
    hide DispositionLine, StartsWith;
    PrefixStart(LF, DispositionLine(FileItems(filename)) + (LF + LF) + (content + LF));
  }

  /**
   Arm 2 does not keep the meaning of a seed with LF line breaks whose file holds a CRLF: the parser
   accepts the seed and refuses the mutated one, although there is no `description` field yet.
   */
  lemma MixedExample(path: string, filename: string, content: string, boundary: string, c: char)
    requires LegalPath(path) && SafeBoundary(boundary) && LegalUpload(filename) && MixedContent(content)
    requires !Contains(filename, Delimiter(boundary)) && !Contains(content, Delimiter(boundary))
    ensures var seed := MixedSeed(path, filename, content, boundary);
      && Parse(seed).Success? && DESCRIPTION !in Parse(seed).value.content.fields
      && Parse(Mutate(seed, 2, c, 0)).Failure?
  {
    hide Parse, ViewSeed, LegalPath, SafeBoundary, LegalUpload, MixedSeed, MixedContent, Mutate, AddDescription,
      Contains, MixedLineBreaks, ReadBody, ReadHead;
    var seed := MixedSeed(path, filename, content, boundary);
    MixedView(path, filename, content, boundary);
    var r, v := Parse(seed).value, ViewSeed(seed).value;
    AcceptedView(seed, r, v);
    BoundaryPrintable(seed, r);
    AcceptedBody(v.body, v.boundary, r.content);
    MixedRefused(seed, v);
    MutatedWhole(seed, v, c);
  }

  /** One such seed. */
  lemma MixedExists()
    ensures var seed := MixedSeed("/", "f", "a\r\nb", "b");
      Parse(seed).Success? && Parse(Mutate(seed, 2, 'A', 0)).Failure?
  {
    hide Parse, Mutate, MixedSeed, MixedContent, Contains;
    ExampleLegal();
    ExampleMixed();
    MixedExample("/", "f", "a\r\nb", "b", 'A');
  }

  lemma ExampleMixed()
    ensures MixedContent("a\r\nb") && !Contains("f", Delimiter("b")) && !Contains("a\r\nb", Delimiter("b"))
  {
    var s := "a\r\nb";
    assert OccursAt(s, CRLF, 1);
    assert s[0] == 'a' && (CRLF + CRLF)[0] == '\r';
    ContainsLengthBelow(s, CRLF + CRLF);
    assert '-' !in s && '-' !in "f";
    LacksChar(s, Delimiter("b"), '-');
    LacksChar("f", Delimiter("b"), '-');
  }

  lemma ContainsLengthBelow(s: string, d: string)
    requires |s| == |d| && s != d
    ensures !Contains(s, d)
  {
  }
}
