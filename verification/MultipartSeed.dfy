/** A whole printed seed: request line, Content-Type header, blank line and body. */
module MultipartSeed {
  import opened Wrappers
  import opened ByteStrings
  import opened MultipartParser
  import opened MultipartPrinter
  import opened MultipartArms
  import opened MultipartAppend
  import opened MultipartDescribe
  import opened MultipartRoundTrip

  const METHOD := "POST"
  const VERSION := "HTTP/1.1"
  const FORM_TYPE := "multipart/form-data"
  const KEY := "boundary"

  /** The boundary as a header may write it: bare, or in quotes. */
  function Written(boundary: string, quoted: bool): string {
    if quoted then "\"" + boundary + "\"" else boundary
  }

  function BoundaryText(written: string): string {
    KEY + "=" + written
  }

  function RequestLine(path: string): string {
    METHOD + " " + (path + " " + VERSION)
  }

  function ContentTypeText(written: string): string {
    TYPE_KEY + ":" + (" " + (FORM_TYPE + ItemsText([BoundaryText(written)])))
  }

  function HeadText(lb: string, path: string, written: string): string {
    RequestLine(path) + lb + ContentTypeText(written)
  }

  predicate LegalPath(path: string) {
    IsAscii(path) && path != "" && path[0] == '/' && forall i | 0 <= i < |path| :: !IsSpace(path[i])
  }

  // ---------------------------------------------------------------- the request line

  predicate Word(w: string) {
    w != "" && forall i | 0 <= i < |w| :: !IsSpace(w[i])
  }

  lemma {:induction false} WordLengthIs(w: string, t: string)
    requires Word(w) && (t == "" || IsSpace(t[0]))
    ensures WordLength(w + t) == |w|
    decreases |w|
  {
    if |w| == 1 {
      assert (w + t)[1..] == t;
    } else {
      assert (w + t)[1..] == w[1..] + t;
      WordLengthIs(w[1..], t);
    }
  }

  lemma WordsCons(w: string, t: string)
    requires Word(w)
    ensures Words(w + " " + t) == [w] + Words(t)
  {
    hide TrimLeft, WordLength, IsSpace;
    var s := w + " " + t;
    var rest := " " + t;
    assert s == w + rest && s[0] == w[0];
    assert IsSpace(' ') by {
      SpaceIsSpace();
    }
    TrimLeftSpace(t);
    NoLeadingSpace(s);
    WordLengthIs(w, rest);
    assert s[..|w|] == w && s[|w|..] == rest;
    assert Words(rest) == Words(t) by {
      WordsTrimmed(rest, t);
    }
  }

  lemma SpaceIsSpace()
    ensures IsSpace(' ')
  {
  }

  lemma NoLeadingSpace(s: string)
    requires s != "" && !IsSpace(s[0])
    ensures TrimLeft(s, IsSpace) == s
  {
  }

  lemma TrimLeftSpace(t: string)
    ensures TrimLeft(" " + t, IsSpace) == TrimLeft(t, IsSpace)
  {
    assert (" " + t)[1..] == t;
  }

  lemma WordsTrimmed(s: string, t: string)
    requires TrimLeft(s, IsSpace) == TrimLeft(t, IsSpace)
    ensures Words(s) == Words(t)
  {
    hide TrimLeft, WordLength;
  }

  lemma WordsOne(w: string)
    requires Word(w)
    ensures Words(w) == [w]
  {
    hide TrimLeft, WordLength, IsSpace;
    NoLeadingSpace(w);
    WordLengthIs(w, "");
    assert w + "" == w && w[|w|..] == "" && w[..|w|] == w;
    EmptyWords();
  }

  lemma EmptyWords()
    ensures Words("") == []
  {
  }

  lemma RequestConstants()
    ensures Word(METHOD) && Word(VERSION) && IsAscii(METHOD) && IsAscii(VERSION)
    ensures '\n' !in METHOD && '\n' !in VERSION && '\r' !in METHOD && '\r' !in VERSION
    ensures VERSION[|VERSION| - 1] == '1' && METHOD[0] == 'P'
  {
  }

  lemma RequestRead(path: string)
    requires LegalPath(path)
    ensures ReadRequestLine(RequestLine(path)) == Success(path)
  {
    hide Words, IsSpace;
    RequestConstants();
    WordsCons(METHOD, path + " " + VERSION);
    WordsCons(path, VERSION);
    WordsOne(VERSION);
    RequestAscii(path);
    assert path[..1] == "/";
  }

  lemma RequestAscii(path: string)
    requires IsAscii(path)
    ensures IsAscii(RequestLine(path))
  {
    RequestConstants();
  }

  // ---------------------------------------------------------------- the Content-Type line

  lemma WrittenRead(boundary: string, quoted: bool)
    requires SafeBoundary(boundary)
    ensures var w := Written(boundary, quoted);
      && w != "" && !IsSpace(w[0]) && !IsSpace(w[|w| - 1]) && IsAscii(w) && ';' !in w
      && StripQuotes(Strip(w)) == boundary && '\n' !in w && '\r' !in w
  {
    hide TrimLeft, TrimRight;
    var w := Written(boundary, quoted);
    if quoted {
      Quoted(boundary);
      assert w == "\"" + boundary + "\"";
      assert w[0] == '"' && w[|w| - 1] == '"';
    } else {
      TrimKeeps(w, IsSpace);
      TrimKeeps(w, (c: char) => c == '"');
    }
  }

  lemma KeyPlain()
    ensures PlainKey(KEY) && IsAscii(KEY) && ';' !in KEY && '\n' !in KEY && '\r' !in KEY
  {
  }

  lemma FormTypePlain()
    ensures PlainWord(FORM_TYPE) && IsAscii(FORM_TYPE)
  {
  }

  lemma FormTypeBreaks()
    ensures '\n' !in FORM_TYPE && '\r' !in FORM_TYPE && '=' !in FORM_TYPE
  {
  }

  lemma BoundaryItemRead(boundary: string, quoted: bool)
    requires SafeBoundary(boundary)
    ensures var item := BoundaryText(Written(boundary, quoted));
      PlainItem(item) && ReadItem(item) == Some((KEY, boundary))
  {
    hide Strip, StripQuotes, Lower, Written;
    var w := Written(boundary, quoted);
    WrittenRead(boundary, quoted);
    KeyPlain();
    CutChar(KEY, '=', w);
    assert Lower(Strip(KEY)) == KEY by {
      KeyKept(KEY);
    }
  }

  lemma KeyKept(key: string)
    requires PlainKey(key)
    ensures Lower(Strip(key)) == key
  {
    TrimKeeps(key, IsSpace);
    LowerIs(key, key);
  }

  lemma ContentTypeRead(boundary: string, quoted: bool)
    requires SafeBoundary(boundary)
    ensures ContentBoundary(FORM_TYPE + ItemsText([BoundaryText(Written(boundary, quoted))])) == Success(boundary)
  {
    hide ReadItem, Strip, Lower, Split, PlainItem, BoundaryText;
    var item := BoundaryText(Written(boundary, quoted));
    BoundaryItemRead(boundary, quoted);
    FormTypePlain();
    PlainWordKept(FORM_TYPE);
    SplitItems(FORM_TYPE, [item]);
    assert ([FORM_TYPE] + [item])[1..] == [item];
    assert BoundaryParameter([item]) == boundary;
  }

  lemma TypeKeyRead()
    ensures Lower(Strip(TYPE_KEY)) == "content-type"
  {
    hide Trim, TrimLeft, TrimRight, Lower;
    TrimKeeps(TYPE_KEY, IsSpace);
    LowerIs(TYPE_KEY, "content-type");
  }

  lemma ContentTypeLineRead(boundary: string, quoted: bool)
    requires SafeBoundary(boundary)
    ensures var w := Written(boundary, quoted);
      ReadLine(ContentTypeText(w)) == Some(("content-type", FORM_TYPE + ItemsText([BoundaryText(w)])))
  {
    hide ReadLine, ReadItem, PlainItem, BoundaryText, Strip, Lower, IsSpace;
    var item := BoundaryText(Written(boundary, quoted));
    BoundaryItemRead(boundary, quoted);
    FormTypePlain();
    TypeLineParts();
    ItemsEdges(FORM_TYPE, [item]);
    LineRead(TYPE_KEY, FORM_TYPE + ItemsText([item]));
    TypeKeyRead();
  }

  // ---------------------------------------------------------------- the head

  lemma HeadBreaks(path: string, boundary: string, quoted: bool)
    requires LegalPath(path) && SafeBoundary(boundary)
    ensures var a, b := RequestLine(path), ContentTypeText(Written(boundary, quoted));
      && '\n' !in a && '\r' !in a && '\n' !in b && '\r' !in b
      && a != "" && a[|a| - 1] == '1' && b != "" && b[|b| - 1] != '\r' && b[|b| - 1] != '\n'
  {
    hide Strip, StripQuotes, Written, ItemsText;
    RequestConstants();
    assert '\n' !in path && '\r' !in path by {
      assert IsSpace('\n') && IsSpace('\r');
    }
    var w := Written(boundary, quoted);
    WrittenRead(boundary, quoted);
    KeyPlain();
    FormTypeBreaks();
    TypeLineParts();
    var item := BoundaryText(w);
    OneItem(item);
    assert '\r' !in TYPE_KEY by {
      TypeKeyBreaks();
    }
    LastChar(TYPE_KEY + ":", " " + (FORM_TYPE + ("; " + item)), w);
  }

  lemma TypeKeyBreaks()
    ensures '\r' !in TYPE_KEY
  {
  }

  lemma OneItem(item: string)
    ensures ItemsText([item]) == "; " + item
  {
    assert [item][1..] == [];
    assert "; " + item + "" == "; " + item;
  }

  lemma LastChar(s: string, t: string, w: string)
    requires w != "" && |w| <= |t| && t[|t| - |w|..] == w
    ensures (s + t)[|s + t| - 1] == w[|w| - 1]
  {
    assert t[|t| - 1] == t[|t| - |w|..][|w| - 1];
  }

  /** Two lines joined by a line break are split again, and hold no blank line. */
  lemma TwoHeadLines(lb: string, a: string, b: string)
    requires lb == CRLF || lb == LF
    requires '\n' !in a && '\r' !in a && '\n' !in b && '\r' !in b && a != ""
    ensures var text := a + lb + b;
      LineBreak(text) == lb && Split(text, lb) == [a, b] && !Contains(text, lb + lb)
  {
    hide Find, OccursAt;
    var text := a + lb + b;
    var p, c := a[..|a| - 1], a[|a| - 1];
    assert a == p + [c] && c !in lb && c !in lb + lb;
    assert lb[|lb| - 1] == '\n';
    LacksChar(p, lb, '\n');
    LacksChar(b, lb, '\n');
    CleanPart(p, c, lb);
    assert [a, b][1..] == [b];
    assert Join([a, b], lb) == text;
    assert Clean([a, b], lb);
    SplitJoin([a, b], lb);
    FindDelimiter(a, lb, b);
    if lb == LF {
      assert '\r' !in text && CRLF[0] == '\r';
      LacksChar(text, CRLF, '\r');
    }
    assert text == p + [c] + (lb + b);
    ContainsAcross(p, c, lb + b, lb + lb);
    assert (lb + lb)[|lb + lb| - 1] == '\n';
    LacksChar(p, lb + lb, '\n');
    OneLineBreak(lb, b);
  }

  lemma OneLineBreak(lb: string, b: string)
    requires (lb == CRLF || lb == LF) && '\n' !in b
    ensures !Contains(lb + b, lb + lb)
  {
    if lb == CRLF {
      OneBreak(b);
    } else {
      var s := LF + b;
      forall k
        ensures !OccursAt(s, LF + LF, k)
      {
        if 0 <= k && k + 2 <= |s| {
          assert s[k..k + 2][1] == s[k + 1] == b[k];
        }
      }
    }
  }

  function PrintedHead(path: string, written: string, boundary: string): Head {
    Head(path, map["content-type" := FORM_TYPE + ItemsText([BoundaryText(written)])], boundary)
  }

  lemma OneHeader(line: string, key: string, value: string)
    requires ReadLine(line) == Some((key, value)) && key != ""
    ensures ReadHeaders([line], map[]) == Success(map[key := value])
  {
    hide ReadLine;
    assert [line][1..] == [];
  }

  lemma HeadRead(lb: string, path: string, boundary: string, quoted: bool)
    requires (lb == CRLF || lb == LF) && LegalPath(path) && SafeBoundary(boundary)
    ensures var w := Written(boundary, quoted);
      var h := HeadText(lb, path, w);
      && ReadHead(h) == Success(PrintedHead(path, w, boundary))
      && Find(h + (lb + lb), lb + lb) == |h|
      && LineBreak(h) == lb && Split(h, lb) == [RequestLine(path), ContentTypeText(w)]
  {
    hide Split, ReadLine, ReadRequestLine, ContentBoundary, RequestLine, ContentTypeText, Written, Find, LegalPath,
      SafeBoundary, LineBreak;
    var w := Written(boundary, quoted);
    var a, b := RequestLine(path), ContentTypeText(w);
    HeadBreaks(path, boundary, quoted);
    TwoHeadLines(lb, a, b);
    RequestRead(path);
    ContentTypeLineRead(boundary, quoted);
    ContentTypeRead(boundary, quoted);
    assert [a, b][1..] == [b];
    OneHeader(b, "content-type", FORM_TYPE + ItemsText([BoundaryText(w)]));
    var h := HeadText(lb, path, w);
    assert h[|h| - 1] == b[|b| - 1];
    BlankAfter(h, lb + lb);
  }

  /** The seed that carries a printed body. */
  function PrintSeed(path: string, fields: seq<Field>, filename: string, fileBytes: string, boundary: string): string {
    HeadText(CRLF, path, boundary) + (CRLF + CRLF) + PrintBody(fields, filename, fileBytes, boundary)
  }

  /** What a printed seed has to parse to. */
  function Intended(path: string, fields: seq<Field>, filename: string, fileBytes: string, boundary: string): Seed {
    Seed(PrintedHead(path, boundary, boundary), Content(FieldMap(fields, map[]), filename, fileBytes))
  }

  /** Names, file name and contents that the printer's format can carry. */
  predicate Legal(fields: seq<Field>, filename: string, fileBytes: string, boundary: string) {
    && (forall i | 0 <= i < |fields| :: LegalName(fields[i].0)) && LegalUpload(filename)
    && Undelimited(fields, filename, fileBytes, Delimiter(boundary))
  }

  /** A printed seed is parsed as its head and its printed body. */
  lemma PrintedMessage(path: string, body: string, boundary: string)
    requires LegalPath(path) && SafeBoundary(boundary)
    ensures Parse(HeadText(CRLF, path, boundary) + (CRLF + CRLF) + body) ==
      match ReadBody(body, boundary)
      case Success(content) => Success(Seed(PrintedHead(path, boundary, boundary), content))
      case Failure(e) => Failure(e)
  {
    hide Parse, ReadHead, ReadBody, HeadText, LegalPath, SafeBoundary, PrintedHead, Find;
    HeadRead(CRLF, path, boundary, false);
    var h := HeadText(CRLF, path, boundary);
    BlankPresent(h, body);
    ParseJoined(h, CRLF + CRLF, body);
    MessageHead(path, boundary);
  }

  lemma MessageHead(path: string, boundary: string)
    ensures PrintedHead(path, boundary, boundary).boundary == boundary
  {
  }

  /** Printing and parsing a legal form gives the form back. */
  lemma PrintParse(path: string, fields: seq<Field>, filename: string, fileBytes: string, boundary: string)
    requires LegalPath(path) && SafeBoundary(boundary) && Dictionary(fields)
    requires Legal(fields, filename, fileBytes, boundary)
    ensures Parse(PrintSeed(path, fields, filename, fileBytes, boundary))
      == Success(Intended(path, fields, filename, fileBytes, boundary))
  {
    hide Parse, HeadText, PrintBody, ReadBody, LegalPath, SafeBoundary, Dictionary, LegalName, LegalUpload,
      Undelimited, PrintedHead;
    BodyRead(fields, filename, fileBytes, boundary);
    PrintedMessage(path, PrintBody(fields, filename, fileBytes, boundary), boundary);
  }
}
