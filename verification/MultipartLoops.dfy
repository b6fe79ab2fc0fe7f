/**
 The loops of the harness parser, of the client's printer and of the mutator, each proved to compute
 what MultipartParser, MultipartRoundTrip and MultipartMutator say.
 */
module MultipartLoops {
  import opened Wrappers
  import opened ByteStrings
  import opened MultipartParser
  import opened MultipartPrinter
  import opened MultipartMutator
  import opened MultipartRoundTrip

  /** The header loop: early exit on a malformed or repeated key. */
  method ParseHeaders(lines: seq<string>) returns (r: Result<Headers, Error>)
    ensures r == ReadHeaders(lines, map[])
  {
    hide ReadLine;
    var headers: Headers := map[];
    var i := 0;
    while i < |lines|
      invariant 0 <= i <= |lines|
      invariant ReadHeaders(lines, map[]) == ReadHeaders(lines[i..], headers)
    {
      assert lines[i..][1..] == lines[i + 1..];
      var line := ReadLine(lines[i]);
      if line.None? {
        return Failure(HeaderInvalid);
      }
      var (key, value) := line.value;
      if key == "" || key in headers {
        return Failure(HeaderInvalid);
      }
      headers := headers[key := value];
      i := i + 1;
    }
    return Success(headers);
  }

  /** The loop over the Content-Type parameters, left at the first `boundary`. */
  method FindBoundary(params: seq<string>) returns (boundary: string)
    ensures boundary == BoundaryParameter(params)
  {
    hide ReadItem;
    boundary := "";
    var i := 0;
    while i < |params|
      invariant 0 <= i <= |params| && boundary == ""
      invariant BoundaryParameter(params) == BoundaryParameter(params[i..])
    {
      assert params[i..][1..] == params[i + 1..];
      var item := ReadItem(params[i]);
      if item.Some? && item.value.0 == "boundary" {
        return item.value.1;
      }
      i := i + 1;
    }
  }

  method ParsePartHeaders(lines: seq<string>) returns (r: Result<Headers, Error>)
    ensures r == ReadPartHeaders(lines, map[])
  {
    hide ReadLine;
    var headers: Headers := map[];
    var i := 0;
    while i < |lines|
      invariant 0 <= i <= |lines|
      invariant ReadPartHeaders(lines, map[]) == ReadPartHeaders(lines[i..], headers)
    {
      assert lines[i..][1..] == lines[i + 1..];
      var line := ReadLine(lines[i]);
      if line.None? {
        return Failure(PartHeaderInvalid);
      }
      headers := headers[line.value.0 := line.value.1];
      i := i + 1;
    }
    return Success(headers);
  }

  method ParseParameters(items: seq<string>) returns (params: Headers)
    ensures params == ReadParameters(items, map[])
  {
    hide ReadItem;
    params := map[];
    var i := 0;
    while i < |items|
      invariant 0 <= i <= |items|
      invariant ReadParameters(items, map[]) == ReadParameters(items[i..], params)
    {
      assert items[i..][1..] == items[i + 1..];
      var item := ReadItem(items[i]);
      if item.Some? {
        params := params[item.value.0 := item.value.1];
      }
      i := i + 1;
    }
  }

  /** One part of the body. */
  method ParsePart(segment: string) returns (r: Result<Part, Error>)
    ensures r == ReadPart(segment)
  {
    hide Split, ReadPartHeaders, ReadParameters, LegalFilename, BlankLine, DropLineStart, DropLineEnd, Find, Lower,
      StripAll;
    var text := DropLineStart(segment);
    var cut := Cut(text, BlankLine(text));
    if cut.None? {
      return Failure(PartHeadersMissing);
    }
    var (header, body) := cut.value;
    var headers :- ParsePartHeaders(Split(header, LineBreak(header)));
    var items := StripAll(Split(Get(headers, "content-disposition"), ";"));
    if Lower(items[0]) != "form-data" {
      return Failure(DispositionInvalid);
    }
    var params := ParseParameters(items[1..]);
    if Get(params, "name") == "" {
      return Failure(FieldNameMissing);
    }
    if "filename" !in params {
      return Success(Part(params["name"], None, DropLineEnd(body)));
    }
    if !LegalFilename(params["filename"]) {
      return Failure(FilenameInvalid);
    }
    return Success(Part(params["name"], Some(params["filename"]), DropLineEnd(body)));
  }

  /** The loop over the segments: it fills the fields and the file parts. */
  method ParseParts(segments: seq<string>) returns (r: Result<Form, Error>)
    ensures r == AddParts(ReadEach(segments), Form(map[], []))
  {
    hide ReadPart, ValidUtf8;
    ghost var parts := ReadEach(segments);
    var form := Form(map[], []);
    var i := 0;
    while i < |segments|
      invariant 0 <= i <= |segments|
      invariant AddParts(parts, Form(map[], [])) == AddParts(parts[i..], form)
    {
      assert parts[i..][1..] == parts[i + 1..];
      var part :- ParsePart(segments[i]);
      if part.filename.Some? {
        form := form.(files := form.files + [part]);
      } else if part.name in form.fields {
        return Failure(FieldDuplicate);
      } else if !ValidUtf8(part.body) {
        return Failure(FieldInvalidUtf8);
      } else {
        form := form.(fields := form.fields[part.name := part.body]);
      }
      i := i + 1;
    }
    return Success(form);
  }

  method ParseHead(text: string) returns (r: Result<Head, Error>)
    ensures r == ReadHead(text)
  {
    hide Split, ReadHeaders, ReadRequestLine, BoundaryParameter, PrintableBoundary, Lower, StripAll;
    var lines := Split(text, LineBreak(text));
    var path :- ReadRequestLine(lines[0]);
    var headers :- ParseHeaders(lines[1..]);
    var params := StripAll(Split(Get(headers, "content-type"), ";"));
    if Lower(params[0]) != "multipart/form-data" {
      return Failure(ContentTypeInvalid);
    }
    var boundary := FindBoundary(params[1..]);
    if !PrintableBoundary(boundary) {
      return Failure(BoundaryInvalid);
    }
    return Success(Head(path, headers, boundary));
  }

  method ParseBody(body: string, boundary: string) returns (r: Result<Content, Error>)
    ensures r == ReadBody(body, boundary)
  {
    hide Split, AddParts, ReadEach, Terminator, StartsWith;
    var d := Delimiter(boundary);
    if !StartsWith(body, d + CRLF) && !StartsWith(body, d + LF) {
      return Failure(BoundaryMismatch);
    }
    var segments := Split(body, d);
    if |segments| < 3 || segments[0] != "" {
      return Failure(BoundaryMismatch);
    }
    if !Terminator(segments[|segments| - 1]) {
      return Failure(TerminatorMissing);
    }
    var form :- ParseParts(segments[1..|segments| - 1]);
    if |form.files| != 1 || form.files[0].name != "filedata" {
      return Failure(FiledataInvalid);
    }
    return Success(Content(form.fields, form.files[0].filename.GetOr(""), form.files[0].body));
  }

  /** The whole parser, loop by loop. */
  method ParseSeed(raw: string) returns (r: Result<Seed, Error>)
    ensures r == Parse(raw)
  {
    hide ReadHead, ReadBody, BlankLine, Cut;
    var cut := Cut(raw, BlankLine(raw));
    if cut.None? {
      return Failure(HttpHeadersMissing);
    }
    var head :- ParseHead(cut.value.0);
    var content :- ParseBody(cut.value.1, head.boundary);
    return Success(Seed(head, content));
  }

  /** The client's chunk list: a field name that is not ASCII cannot be encoded. */
  method BuildBody(fields: seq<Field>, filename: string, fileBytes: string, boundary: string)
    returns (body: Option<string>)
    ensures body.Some? <==> forall i | 0 <= i < |fields| :: IsAscii(fields[i].0)
    ensures body.Some? ==> body.value == PrintBody(fields, filename, fileBytes, boundary)
  {
    hide FieldHeader, FileHeader, PrintPart;
    var d := Delimiter(boundary);
    var text := "";
    var i := 0;
    while i < |fields|
      invariant 0 <= i <= |fields|
      invariant forall j | 0 <= j < i :: IsAscii(fields[j].0)
      invariant text + PrintFields(fields[i..], d) == PrintFields(fields, d)
    {
      var (name, value) := fields[i];
      if !IsAscii(name) {
        return None;
      }
      assert fields[i..][0] == fields[i] && fields[i..][1..] == fields[i + 1..];
      ChunkText(text, d, FieldHeader(name), value, PrintFields(fields[i + 1..], d));
      text := text + (d + CRLF) + (FieldHeader(name) + CRLF + CRLF) + value + CRLF;
      i := i + 1;
    }
    assert fields[i..] == [] && text + "" == text;
    EndText(text, d, FileHeader(filename), fileBytes);
    text := text + (d + CRLF) + (FileHeader(filename) + CRLF + CRLF) + fileBytes + CRLF + (d + "--" + CRLF);
    return Some(text);
  }

  lemma ChunkText(text: string, d: string, header: string, value: string, rest: string)
    ensures text + (d + CRLF) + (header + CRLF + CRLF) + value + CRLF + rest
      == text + (d + PrintPart(CRLF, header, value) + rest)
  {
  }

  lemma EndText(text: string, d: string, header: string, fileBytes: string)
    ensures text + (d + CRLF) + (header + CRLF + CRLF) + fileBytes + CRLF + (d + "--" + CRLF)
      == text + (d + PrintPart(CRLF, header, fileBytes) + d + "--" + CRLF)
  {
  }

  /** The scan for the file part, left at the first part that names `filedata`. */
  method ScanParts(parts: seq<string>) returns (index: Option<nat>)
    ensures index == FindFile(ViewEach(parts), 1)
  {
    hide ViewFile;
    ghost var views := ViewEach(parts);
    var i := 1;
    while i < |parts| - 1
      invariant 1 <= i
      invariant FindFile(views, 1) == FindFile(views, i)
      decreases |parts| - i
    {
      var view := ViewFile(parts[i]);
      if view.Some? {
        return Some(i);
      }
      i := i + 1;
    }
    return None;
  }

  /** The mutator: `choice` is the byte that `random.choice` picks. */
  method MutateMultipart(seed: string, arm: nat, choice: char, maxSize: nat) returns (out: string)
    ensures out == Mutate(seed, arm, choice, maxSize)
  {
    hide Split, ViewBoundary, BlankLine, FindFile, ViewFile, Cut, NewPart, WithDescription, ReplaceFirst, LineBreak,
      Join;
    var cut := Cut(seed, BlankLine(seed));
    if cut.None? {
      return seed;
    }
    var (header, body) := cut.value;
    var boundary := ViewBoundary(header);
    if boundary == "" {
      return seed;
    }
    var delimiter := Delimiter(boundary);
    var parts := Split(body, delimiter);
    if |parts| < 3 {
      return seed;
    }
    var index := ScanParts(parts);
    if index.None? {
      return seed;
    }
    var file := ViewFile(parts[index.value]).value;
    if arm == 0 {
      parts := parts[index.value := NewPart(file, choice)];
      out := header + BlankLine(seed) + Join(parts, delimiter);
    } else if arm == 1 {
      var now := NewBoundary(boundary);
      out := ReplaceFirst(header, MARKER + boundary, MARKER + now) + BlankLine(seed) + Join(parts, Delimiter(now));
    } else {
      parts := WithDescription(parts, LineBreak(body));
      out := header + BlankLine(seed) + Join(parts, delimiter);
    }
    return Truncate(out, maxSize);
  }
}
