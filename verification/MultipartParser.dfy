/**
 `parse_multipart_http_seed` of nv_http_harness.py: what a full HTTP multipart seed means.
 The functions say what is read; the methods of `MultipartLoops` are the loops that read it.
 A decoded Python `str` is represented by its UTF-8 bytes.
 */
module MultipartParser {
  import opened Wrappers
  import opened ByteStrings

  datatype Error =
    | HttpHeadersMissing
    | RequestLineInvalid
    | RequestContractInvalid
    | HeaderInvalid
    | ContentTypeInvalid
    | BoundaryInvalid
    | BoundaryMismatch
    | TerminatorMissing
    | PartHeadersMissing
    | PartHeaderInvalid
    | DispositionInvalid
    | FieldNameMissing
    | FilenameInvalid
    | FieldDuplicate
    | FieldInvalidUtf8
    | FiledataInvalid

  type Headers = map<string, string>

  /** What the request line and the headers say. */
  datatype Head = Head(path: string, headers: Headers, boundary: string)

  /** One form-data part. */
  datatype Part = Part(name: string, filename: Option<string>, body: string)

  /** The parts read so far: text fields by name, and the parts that carry a file name. */
  datatype Form = Form(fields: map<string, string>, files: seq<Part>)

  /** The fields, the file name and the file bytes of an accepted body. */
  datatype Content = Content(fields: map<string, string>, filename: string, fileBytes: string)

  datatype Seed = Seed(head: Head, content: Content)

  // ---------------------------------------------------------------- the head

  /** The blank line that ends a header block: CRLF CRLF when that occurs anywhere, else LF LF. */
  function BlankLine(text: string): (sep: string)
    ensures (sep == CRLF + CRLF || sep == LF + LF) && 2 <= |sep|
  {
    if Contains(text, CRLF + CRLF) then CRLF + CRLF else LF + LF
  }

  function LineBreak(text: string): (sep: string)
    ensures (sep == CRLF || sep == LF) && 1 <= |sep|
  {
    if Contains(text, CRLF) then CRLF else LF
  }

  function StripAll(items: seq<string>): (r: seq<string>)
    ensures |r| == |items| && forall i | 0 <= i < |r| :: r[i] == Strip(items[i])
  {
    seq(|items|, i requires 0 <= i < |items| => Strip(items[i]))
  }

  function Get(m: Headers, key: string): string {
    if key in m then m[key] else ""
  }

  /** One `key: value` line. */
  function ReadLine(line: string): Option<(string, string)> {
    match Cut(line, ":")
    case None => None
    case Some((key, value)) =>
      if IsAscii(key) && IsAscii(value) then Some((Lower(Strip(key)), Strip(value))) else None
  }

  function ReadHeaders(lines: seq<string>, headers: Headers): Result<Headers, Error> {
    if lines == [] then Success(headers)
    else
      match ReadLine(lines[0])
      case None => Failure(HeaderInvalid)
      case Some((key, value)) =>
        if key == "" || key in headers then Failure(HeaderInvalid)
        else ReadHeaders(lines[1..], headers[key := value])
  }

  /** One `key=value` item, its key in lower case and its value without quotes. */
  function ReadItem(item: string): Option<(string, string)> {
    match Cut(item, "=")
    case None => None
    case Some((key, value)) => Some((Lower(Strip(key)), StripQuotes(Strip(value))))
  }

  /** The first `boundary` parameter, or "" when there is none. */
  function BoundaryParameter(params: seq<string>): string {
    if params == [] then ""
    else
      match ReadItem(params[0])
      case Some((key, value)) => if key == "boundary" then value else BoundaryParameter(params[1..])
      case None => BoundaryParameter(params[1..])
  }

  predicate PrintableBoundary(boundary: string) {
    boundary != "" && forall i | 0 <= i < |boundary| :: 33 as char <= boundary[i] <= 126 as char
  }

  /** The boundary that a Content-Type value names. */
  function ContentBoundary(value: string): Result<string, Error> {
    var params := StripAll(Split(value, ";"));
    if Lower(params[0]) != "multipart/form-data" then Failure(ContentTypeInvalid)
    else
      var boundary := BoundaryParameter(params[1..]);
      if PrintableBoundary(boundary) then Success(boundary) else Failure(BoundaryInvalid)
  }

  /** The path that the request line names. */
  function ReadRequestLine(line: string): Result<string, Error> {
    if !IsAscii(line) then Failure(RequestLineInvalid)
    else
      var words := Words(line);
      if |words| != 3 || words[2] != "HTTP/1.1" then Failure(RequestLineInvalid)
      else if words[0] != "POST" || !StartsWith(words[1], "/") then Failure(RequestContractInvalid)
      else Success(words[1])
  }

  function ReadHead(text: string): Result<Head, Error> {
    var lines := Split(text, LineBreak(text));
    var path :- ReadRequestLine(lines[0]);
    var headers :- ReadHeaders(lines[1..], map[]);
    var boundary :- ContentBoundary(Get(headers, "content-type"));
    Success(Head(path, headers, boundary))
  }

  // ---------------------------------------------------------------- the parts

  function ReadPartHeaders(lines: seq<string>, headers: Headers): Result<Headers, Error> {
    if lines == [] then Success(headers)
    else
      match ReadLine(lines[0])
      case None => Failure(PartHeaderInvalid)
      case Some((key, value)) => ReadPartHeaders(lines[1..], headers[key := value])
  }

  /** The `key=value` items of a Content-Disposition; a later item replaces an earlier one. */
  function ReadParameters(items: seq<string>, params: Headers): Headers {
    if items == [] then params
    else
      match ReadItem(items[0])
      case Some((key, value)) => ReadParameters(items[1..], params[key := value])
      case None => ReadParameters(items[1..], params)
  }

  function DropLineStart(segment: string): string {
    if StartsWith(segment, CRLF) then segment[2..]
    else if StartsWith(segment, LF) then segment[1..]
    else segment
  }

  /** The line break that `DropLineEnd` takes off. */
  function LineEnd(body: string): (suffix: string)
    ensures |suffix| <= |body| && (suffix == CRLF || suffix == LF || suffix == "")
  {
    if |body| >= 2 && body[|body| - 2] == '\r' && body[|body| - 1] == '\n' then CRLF
    else if |body| >= 1 && body[|body| - 1] == '\n' then LF
    else ""
  }

  function DropLineEnd(body: string): string {
    body[..|body| - |LineEnd(body)|]
  }

  predicate LegalFilename(filename: string) {
    && filename != "" && filename != "." && filename != ".."
    && '/' !in filename && '\\' !in filename
    && forall i | 0 <= i < |filename| :: 32 as char <= filename[i] && filename[i] != 127 as char
  }

  /** The name and the file name among the parameters of a Content-Disposition. */
  function NamesOf(items: seq<string>): Result<(string, Option<string>), Error> {
    var params := ReadParameters(items, map[]);
    if Get(params, "name") == "" then Failure(FieldNameMissing)
    else if "filename" !in params then Success((params["name"], None))
    else if LegalFilename(params["filename"]) then Success((params["name"], Some(params["filename"])))
    else Failure(FilenameInvalid)
  }

  function ReadDispositionValue(value: string): Result<(string, Option<string>), Error> {
    var items := StripAll(Split(value, ";"));
    if Lower(items[0]) != "form-data" then Failure(DispositionInvalid) else NamesOf(items[1..])
  }

  /** The name and the file name that a part's header block gives. */
  function ReadDisposition(text: string): Result<(string, Option<string>), Error> {
    var headers :- ReadPartHeaders(Split(text, LineBreak(text)), map[]);
    ReadDispositionValue(Get(headers, "content-disposition"))
  }

  function MakePart(header: string, body: string): Result<Part, Error> {
    var (name, filename) :- ReadDisposition(header);
    Success(Part(name, filename, DropLineEnd(body)))
  }

  function ReadPart(segment: string): Result<Part, Error> {
    var text := DropLineStart(segment);
    match Cut(text, BlankLine(text))
    case None => Failure(PartHeadersMissing)
    case Some((header, body)) => MakePart(header, body)
  }

  function AddPart(form: Form, part: Part): Result<Form, Error> {
    if part.filename.Some? then Success(form.(files := form.files + [part]))
    else if part.name in form.fields then Failure(FieldDuplicate)
    else if !ValidUtf8(part.body) then Failure(FieldInvalidUtf8)
    else Success(form.(fields := form.fields[part.name := part.body]))
  }

  /** The parts are added one after the other; the first part that cannot be read or added decides. */
  function AddParts(parts: seq<Result<Part, Error>>, form: Form): Result<Form, Error> {
    if parts == [] then Success(form)
    else
      var part :- parts[0];
      var next :- AddPart(form, part);
      AddParts(parts[1..], next)
  }

  function ReadEach(segments: seq<string>): (parts: seq<Result<Part, Error>>)
    ensures |parts| == |segments| && forall i | 0 <= i < |parts| :: parts[i] == ReadPart(segments[i])
  {
    seq(|segments|, i requires 0 <= i < |segments| => ReadPart(segments[i]))
  }

  function Finish(form: Form): Result<Content, Error> {
    if |form.files| == 1 && form.files[0].name == "filedata"
    then Success(Content(form.fields, form.files[0].filename.GetOr(""), form.files[0].body))
    else Failure(FiledataInvalid)
  }

  predicate Terminator(segment: string) {
    segment == "--" || segment == "--" + CRLF || segment == "--" + LF
  }

  /** The segments between the delimiters of a body. */
  function ReadSegments(segments: seq<string>): Result<Content, Error> {
    if |segments| < 3 || segments[0] != "" then Failure(BoundaryMismatch)
    else if !Terminator(segments[|segments| - 1]) then Failure(TerminatorMissing)
    else
      var form :- AddParts(ReadEach(segments[1..|segments| - 1]), Form(map[], []));
      Finish(form)
  }

  function Delimiter(boundary: string): (d: string)
    ensures d != ""
  {
    "--" + boundary
  }

  function ReadBody(body: string, boundary: string): Result<Content, Error> {
    var d := Delimiter(boundary);
    if !StartsWith(body, d + CRLF) && !StartsWith(body, d + LF) then Failure(BoundaryMismatch)
    else ReadSegments(Split(body, d))
  }

  function ReadMessage(headText: string, body: string): Result<Seed, Error> {
    var head :- ReadHead(headText);
    var content :- ReadBody(body, head.boundary);
    Success(Seed(head, content))
  }

  /** The whole parser. */
  function Parse(raw: string): Result<Seed, Error> {
    match Cut(raw, BlankLine(raw))
    case None => Failure(HttpHeadersMissing)
    case Some((headText, body)) => ReadMessage(headText, body)
  }
}
