/** What is left of a multipart seed when its last bytes are cut off to meet the maximal size. */
module MultipartTruncated {
  import opened Wrappers
  import opened ByteStrings
  import opened MultipartParser
  import opened MultipartMutator
  import opened MultipartArms
  import opened MultipartAppend

  /** What follows the last delimiter of an accepted seed: two dashes and perhaps a line break. */
  function Closing(text: string, r: Seed): string {
    match Cut(text, BlankLine(text))
    case None => ""
    case Some((_, body)) => var parts := Split(body, Delimiter(r.head.boundary)); parts[|parts| - 1]
  }

  /** Of a closing line only the whole line break can go. */
  lemma TerminatorCut(last: string, m: nat)
    requires Terminator(last) && 1 <= m <= |last|
    ensures Terminator(last[..|last| - m]) <==> m == |last| - 2
  {
    var short := last[..|last| - m];
    assert last[0] == '-' && last[1] == '-';
    if m == |last| - 2 {
      assert short == "--";
    } else if |short| == 3 {
      assert short[2] == '\r';
    }
  }

  lemma AcceptedText(text: string, r: Seed)
    requires Parse(text) == Success(r)
    ensures var sep := BlankLine(text);
      && Cut(text, sep).Some?
      && var (header, body) := Cut(text, sep).value;
      && text == header + sep + body && Find(header + sep, sep) == |header|
      && ReadHead(header) == Success(r.head) && ReadBody(body, r.head.boundary) == Success(r.content)
  {
    hide ReadHead, ReadBody, BlankLine, Find;
    CutParts(text, BlankLine(text));
  }

  /** Cutting the end of the text off leaves its blank line where it is. */
  lemma BlankLineStays(header: string, sep: string, body: string, n: nat)
    requires BlankLine(header + sep + body) == sep && n <= |body|
    ensures BlankLine(header + sep + body[..n]) == sep
  {
    hide Find;
    var s := header + sep + body;
    if sep == CRLF + CRLF {
      BlankPresent(header, body[..n]);
    } else {
      SliceLacks(s, 0, |header + sep| + n, CRLF + CRLF);
      assert s[0..|header + sep| + n] == header + sep + body[..n];
    }
  }

  lemma JoinShorter(parts: seq<string>, d: string, m: nat)
    requires 2 <= |parts| && m <= |parts[|parts| - 1]|
    ensures var n := |parts| - 1;
      var body := Join(parts, d);
      && m <= |body| && Join(parts[n := parts[n][..|parts[n]| - m]], d) == body[..|body| - m]
  {
    var n := |parts| - 1;
    var short := parts[n][..|parts[n]| - m];
    assert parts == parts[..n] + [parts[n]];
    assert parts[n := short] == parts[..n] + [short];
    JoinAppend(parts[..n], [parts[n]], d);
    JoinAppend(parts[..n], [short], d);
  }

  /** A shorter last segment: the body is refused unless that is still a closing one. */
  lemma SegmentsShorter(parts: seq<string>, last: string, content: Content)
    requires ReadSegments(parts) == Success(content)
    ensures ReadSegments(parts[|parts| - 1 := last]) ==
      if Terminator(last) then Success(content) else Failure(TerminatorMissing)
  {
    hide Terminator, ReadEach, AddParts;
    var now := parts[|parts| - 1 := last];
    assert now[1..|now| - 1] == parts[1..|parts| - 1];
  }

  lemma CleanShorter(parts: seq<string>, d: string, m: nat)
    requires 1 <= |parts| && Clean(parts, d) && m <= |parts[|parts| - 1]|
    ensures var last := parts[|parts| - 1]; Clean(parts[|parts| - 1 := last[..|last| - m]], d)
  {
    hide Find;
    var last := parts[|parts| - 1];
    SliceLacks(last, 0, |last| - m, d);
    assert last[0..|last| - m] == last[..|last| - m];
  }

  lemma BodyShorter(body: string, boundary: string, content: Content, m: nat)
    requires ReadBody(body, boundary) == Success(content) && PrintableBoundary(boundary)
    requires var parts := Split(body, Delimiter(boundary)); 1 <= m <= |parts[|parts| - 1]|
    ensures var parts := Split(body, Delimiter(boundary));
      var last := parts[|parts| - 1];
      && m <= |body|
      && ReadBody(body[..|body| - m], boundary) ==
           if m == |last| - 2 then Success(content) else Failure(TerminatorMissing)
  {
    hide ReadSegments, Find, Split, StartsWith, Join, Clean, ReadBody;
    var d := Delimiter(boundary);
    var parts := Split(body, d);
    AcceptedBody(body, boundary, content);
    var last := parts[|parts| - 1];
    var short := last[..|last| - m];
    LastCloses(parts, content);
    TerminatorCut(last, m);
    JoinShorter(parts, d, m);
    CleanShorter(parts, d, m);
    SegmentsShorter(parts, short, content);
    ReadJoined(parts[|parts| - 1 := short], boundary);
  }

  lemma LastCloses(parts: seq<string>, content: Content)
    requires ReadSegments(parts) == Success(content)
    ensures 3 <= |parts| && Terminator(parts[|parts| - 1])
  {
    hide AddParts, ReadEach;
  }

  /**
   An accepted seed that loses its last `m` bytes, all of them behind its last delimiter: it keeps its
   meaning if just the line break behind the closing dashes is gone, and it is refused otherwise.
   */
  lemma ClosingCut(text: string, r: Seed, m: nat)
    requires Parse(text) == Success(r) && 1 <= m <= |Closing(text, r)|
    ensures m <= |text|
    ensures Parse(text[..|text| - m]) ==
      if m == |Closing(text, r)| - 2 then Success(r) else Failure(TerminatorMissing)
  {
    hide ReadHead, ReadBody, BlankLine, Find, Split, Parse;
    var sep := BlankLine(text);
    var (header, body) := Cut(text, sep).value;
    AcceptedText(text, r);
    BoundaryPrintable(text, r);
    BodyShorter(body, r.head.boundary, r.content, m);
    BlankLineStays(header, sep, body, |body| - m);
    ParseJoined(header, sep, body[..|body| - m]);
    assert text[..|text| - m] == header + sep + body[..|body| - m];
  }

  /** The result of an arm before it is cut to the maximal size. */
  function Whole(v: View, arm: nat, choice: char): string
    requires 1 <= |v.parts| && v.index < |v.parts|
  {
    if arm == 0 then AppendByte(v, choice) else if arm == 1 then Redelimit(v) else AddDescription(v)
  }

  /**
   A result that parses, cut within its closing line: its meaning is kept exactly when the maximal
   size leaves the two dashes and nothing behind them.
   */
  lemma TruncatedExactly(seed: string, v: View, arm: nat, c: char, maxSize: nat, r: Seed)
    requires ViewSeed(seed) == Some(v) && Parse(Whole(v, arm, c)) == Success(r)
    requires var out := Whole(v, arm, c);
      maxSize != 0 && |out| - |Closing(out, r)| <= maxSize < |out|
    ensures var out := Whole(v, arm, c);
      Parse(Mutate(seed, arm, c, maxSize)) ==
        if maxSize == |out| - |Closing(out, r)| + 2 then Success(r) else Failure(TerminatorMissing)
  {
    hide ViewSeed, AppendByte, Redelimit, AddDescription, Parse, Closing;
    var out := Whole(v, arm, c);
    ClosingCut(out, r, |out| - maxSize);
  }
}
