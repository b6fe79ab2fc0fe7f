/**
 `_mutate_multipart` of nv_json_mutator.py: three ways of rewriting a multipart seed.
 A seed that the mutator cannot read is returned unchanged.
 */
module MultipartMutator {
  import opened Wrappers
  import opened ByteStrings
  import opened MultipartParser
  import opened MultipartPrinter

  /** How the mutator sees a part that it takes for the file part. */
  datatype FileView = FileView(header: string, sep: string, original: string, suffix: string)

  /** How the mutator sees a seed: `parts[index]` is the first part whose header names `filedata`. */
  datatype View = View(header: string, sep: string, body: string, boundary: string,
                       parts: seq<string>, index: nat, file: FileView)

  const MARKER := "boundary="
  const FILEDATA := "name=\"filedata\""

  const DESCRIPTION := "description"
  const STRUCTURE := "nv-structure"

  /** The first header line that starts with `Content-Type:` in any case, or "". */
  function ContentTypeLine(lines: seq<string>): string {
    if lines == [] then ""
    else if StartsWith(Lower(lines[0]), "content-type:") then lines[0]
    else ContentTypeLine(lines[1..])
  }

  /** Everything after `boundary=` on the Content-Type line, trimmed; "" when there is none. */
  function ViewBoundary(header: string): string {
    var line := ContentTypeLine(Split(header, LineBreak(header)));
    var start := Find(Lower(line), MARKER);
    if start < 0 then "" else StripQuotes(Trim(line[start + |MARKER|..], IsByteSpace))
  }

  function ViewFile(part: string): Option<FileView> {
    match Cut(part, BlankLine(part))
    case None => None
    case Some((header, body)) =>
      if Contains(header, FILEDATA)
      then Some(FileView(header, BlankLine(part), DropLineEnd(body), LineEnd(body)))
      else None
  }

  function ViewEach(parts: seq<string>): (views: seq<Option<FileView>>)
    ensures |views| == |parts| && forall i | 0 <= i < |views| :: views[i] == ViewFile(parts[i])
  {
    seq(|parts|, i requires 0 <= i < |parts| => ViewFile(parts[i]))
  }

  /** The first part from `index` on, the last part excluded, that is taken for the file part. */
  function FindFile(views: seq<Option<FileView>>, index: nat): (r: Option<nat>)
    ensures r.Some? ==>
      && index <= r.value < |views| - 1 && views[r.value].Some?
      && forall i | index <= i < r.value :: views[i].None?
    ensures r.None? ==> forall i | index <= i < |views| - 1 :: views[i].None?
    decreases |views| - index
  {
    if |views| - 1 <= index then None
    else if views[index].Some? then Some(index)
    else FindFile(views, index + 1)
  }

  function ViewSeed(seed: string): (v: Option<View>)
    ensures v.Some? ==>
      && 3 <= |v.value.parts| && 1 <= v.value.index < |v.value.parts| - 1
      && ViewFile(v.value.parts[v.value.index]) == Some(v.value.file)
  {
    match Cut(seed, BlankLine(seed))
    case None => None
    case Some((header, body)) =>
      var boundary := ViewBoundary(header);
      if boundary == "" then None
      else
        var parts := Split(body, Delimiter(boundary));
        if |parts| < 3 then None
        else
          var views := ViewEach(parts);
          match FindFile(views, 1)
          case None => None
          case Some(index) =>
            Some(View(header, BlankLine(seed), body, boundary, parts, index, views[index].value))
  }

  /** `s.replace(old, new, 1)` */
  function ReplaceFirst(s: string, was: string, now: string): string {
    var k := Find(s, was);
    if k < 0 then s else s[..k] + now + s[k + |was|..]
  }

  function NewPart(f: FileView, choice: char): string {
    f.header + f.sep + (f.original + [choice]) + f.suffix
  }

  /** Arm 0: one byte appended to the file. */
  function AppendByte(v: View, choice: char): string
    requires v.index < |v.parts|
  {
    v.header + v.sep + Join(v.parts[v.index := NewPart(v.file, choice)], Delimiter(v.boundary))
  }

  function NewBoundary(boundary: string): string {
    boundary + "-nv"
  }

  /** Arm 1: another boundary. */
  function Redelimit(v: View): string
    requires 1 <= |v.parts|
  {
    ReplaceFirst(v.header, MARKER + v.boundary, MARKER + NewBoundary(v.boundary)) + v.sep
      + Join(v.parts, Delimiter(NewBoundary(v.boundary)))
  }

  function DescriptionPart(lineBreak: string): string {
    PrintPart(lineBreak, FieldHeader(DESCRIPTION), STRUCTURE)
  }

  /** `parts` with the description part put in before the last. */
  function WithDescription(parts: seq<string>, lb: string): (r: seq<string>)
    requires 1 <= |parts|
    ensures |r| == |parts| + 1
  {
    parts[..|parts| - 1] + [DescriptionPart(lb)] + parts[|parts| - 1..]
  }

  /** Arm 2: one more text part, before the terminator. */
  function AddDescription(v: View): string
    requires 1 <= |v.parts|
  {
    v.header + v.sep + Join(WithDescription(v.parts, LineBreak(v.body)), Delimiter(v.boundary))
  }

  function Truncate(out: string, maxSize: nat): string {
    if maxSize != 0 && maxSize < |out| then out[..maxSize] else out
  }

  function Mutate(seed: string, arm: nat, choice: char, maxSize: nat): string {
    match ViewSeed(seed)
    case None => seed
    case Some(v) =>
      Truncate(if arm == 0 then AppendByte(v, choice)
               else if arm == 1 then Redelimit(v)
               else AddDescription(v), maxSize)
  }
}
