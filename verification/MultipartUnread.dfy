/**
 Which seeds the multipart mutator can read, and what it makes of the text of any seed: the ones it
 cannot read come back as they are, however long, and the others change in one place.
 */
module MultipartUnread {
  import opened Wrappers
  import opened ByteStrings
  import opened MultipartParser
  import opened MultipartPrinter
  import opened MultipartMutator
  import opened MultipartAppend
  import opened MultipartRoundTrip

  // ---------------------------------------------------------------- what can be read

  predicate HasBlankLine(text: string) {
    Contains(text, CRLF + CRLF) || Contains(text, LF + LF)
  }

  /** The text before the first blank line: of CRLF CRLF when there is one anywhere, else of LF LF. */
  function BeforeBlank(text: string): string
    requires HasBlankLine(text)
  {
    if Contains(text, CRLF + CRLF) then text[..Find(text, CRLF + CRLF)] else text[..Find(text, LF + LF)]
  }

  function BehindBlank(text: string): string
    requires HasBlankLine(text)
  {
    if Contains(text, CRLF + CRLF) then text[Find(text, CRLF + CRLF) + 4..] else text[Find(text, LF + LF) + 2..]
  }

  function LinesOf(header: string): seq<string> {
    if Contains(header, CRLF) then Split(header, CRLF) else Split(header, LF)
  }

  /** Line `i` is the first that starts with `Content-Type:` in any case. */
  predicate FirstTypeLine(lines: seq<string>, i: nat) {
    && i < |lines| && StartsWith(Lower(lines[i]), "content-type:")
    && forall j | 0 <= j < i :: !StartsWith(Lower(lines[j]), "content-type:")
  }

  /** What stands behind the first `boundary=` of a line, in any case, without white space and quotes around it. */
  function NamedOn(line: string): string {
    if !Contains(Lower(line), "boundary=") then ""
    else StripQuotes(Trim(line[Find(Lower(line), "boundary=") + 9..], IsByteSpace))
  }

  /** The header block names this boundary, which is not empty. */
  ghost predicate NamesBoundaryText(header: string, boundary: string) {
    boundary != "" && exists i: nat :: FirstTypeLine(LinesOf(header), i) && boundary == NamedOn(LinesOf(header)[i])
  }

  predicate NamesFiledata(part: string) {
    HasBlankLine(part) && Contains(BeforeBlank(part), "name=\"filedata\"")
  }

  /**
   The seed has a blank line, the header block names a boundary, the body has three pieces or more, and
   some piece other than the first and the last has a header block that names `filedata`.
   */
  ghost predicate Readable(seed: string, boundary: string) {
    && HasBlankLine(seed) && NamesBoundaryText(BeforeBlank(seed), boundary)
    && var parts := Split(BehindBlank(seed), "--" + boundary);
    3 <= |parts| && exists i :: 1 <= i < |parts| - 1 && NamesFiledata(parts[i])
  }

  lemma BlankIs(text: string)
    ensures HasBlankLine(text) <==> Cut(text, BlankLine(text)).Some?
    ensures HasBlankLine(text) ==> Cut(text, BlankLine(text)) == Some((BeforeBlank(text), BehindBlank(text)))
  {
    hide Find;
    assert |CRLF + CRLF| == 4 && |LF + LF| == 2;
  }

  lemma FileViewIs(part: string)
    ensures ViewFile(part).Some? <==> NamesFiledata(part)
  {
    hide Find, BlankLine, Cut, HasBlankLine, BeforeBlank, BehindBlank, Contains;
    BlankIs(part);
  }

  lemma {:induction false} TypeLineIs(lines: seq<string>, i: nat)
    requires FirstTypeLine(lines, i)
    ensures ContentTypeLine(lines) == lines[i]
    decreases i
  {
    hide Lower, StartsWith;
    if i > 0 {
      assert forall j | 0 <= j < i - 1 :: lines[1..][j] == lines[j + 1];
      TypeLineIs(lines[1..], i - 1);
    }
  }

  lemma TypeLineTail(lines: seq<string>, j: nat)
    requires FirstTypeLine(lines, j)
    ensures j > 0 ==> FirstTypeLine(lines[1..], j - 1)
  {
    hide Lower, StartsWith;
    if j > 0 {
      assert forall k | 0 <= k < j - 1 :: lines[1..][k] == lines[k + 1];
    }
  }

  lemma {:induction false} NoTypeLine(lines: seq<string>) returns (i: nat)
    ensures i <= |lines|
    ensures i < |lines| ==> FirstTypeLine(lines, i)
    ensures i == |lines| ==> ContentTypeLine(lines) == "" && forall j: nat :: !FirstTypeLine(lines, j)
    decreases |lines|
  {
    hide Lower, StartsWith;
    if lines == [] {
      i := 0;
    } else if StartsWith(Lower(lines[0]), "content-type:") {
      i := 0;
    } else {
      var n := NoTypeLine(lines[1..]);
      i := n + 1;
      if n < |lines[1..]| {
        assert forall j | 0 < j < i :: lines[j] == lines[1..][j - 1];
      } else {
        forall j: nat
          ensures !FirstTypeLine(lines, j)
        {
          if FirstTypeLine(lines, j) {
            TypeLineTail(lines, j);
          }
        }
      }
    }
  }

  lemma EmptyLine()
    ensures Find(Lower(""), "boundary=") < 0 && NamedOn("") == ""
  {
  }

  /** The mutator's boundary is what the first Content-Type line names, or "" when nothing does. */
  lemma BoundaryIs(header: string)
    ensures forall b :: NamesBoundaryText(header, b) <==> b != "" && b == ViewBoundary(header)
  {
    hide Lower, StartsWith, Split, Find, Trim, ContentTypeLine, NamedOn, ViewBoundary;
    var lines := LinesOf(header);
    LinesAre(header);
    var i := NoTypeLine(lines);
    EmptyLine();
    ViewNamed(header);
    if i < |lines| {
      TypeLineIs(lines, i);
    }
    forall b
      ensures NamesBoundaryText(header, b) <==> b != "" && b == ViewBoundary(header)
    {
      if NamesBoundaryText(header, b) {
        var j: nat :| FirstTypeLine(lines, j) && b == NamedOn(lines[j]);
        TypeLineIs(lines, j);
      }
    }
  }

  lemma LinesAre(header: string)
    ensures LinesOf(header) == Split(header, LineBreak(header))
  {
    hide Split, Contains;
  }

  lemma ViewNamed(header: string)
    ensures ViewBoundary(header) == NamedOn(ContentTypeLine(Split(header, LineBreak(header))))
  {
    hide Split, Find, Trim, Lower, ContentTypeLine;
  }

  /** The mutator reads a seed exactly when it is readable, with that boundary. */
  lemma ReadableIsViewed(seed: string)
    ensures ViewSeed(seed).Some? <==> exists b :: Readable(seed, b)
    ensures ViewSeed(seed).Some? ==>
      var v := ViewSeed(seed).value;
      && Readable(seed, v.boundary) && v.header == BeforeBlank(seed) && v.body == BehindBlank(seed)
      && v.parts == Split(v.body, "--" + v.boundary) && NamesFiledata(v.parts[v.index])
      && forall i | 1 <= i < v.index :: !NamesFiledata(v.parts[i])
  {
    hide HasBlankLine, BeforeBlank, BehindBlank, NamesFiledata, Split, ViewFile, ViewBoundary, NamesBoundaryText,
      Cut, BlankLine, FindFile;
    BlankIs(seed);
    if HasBlankLine(seed) {
      var header, body := BeforeBlank(seed), BehindBlank(seed);
      BoundaryIs(header);
      var boundary := ViewBoundary(header);
      if boundary != "" {
        var parts := Split(body, Delimiter(boundary));
        forall i | 0 <= i < |parts|
          ensures ViewFile(parts[i]).Some? <==> NamesFiledata(parts[i])
        {
          FileViewIs(parts[i]);
        }
        FoundFile(parts);
        assert 3 <= |parts| && (exists i :: 1 <= i < |parts| - 1 && NamesFiledata(parts[i]))
          ==> Readable(seed, boundary);
      }
      assert forall b | Readable(seed, b) :: b == boundary;
    }
  }

  lemma FoundFile(parts: seq<string>)
    ensures var found := FindFile(ViewEach(parts), 1);
      && (found.Some? <==> exists i :: 1 <= i < |parts| - 1 && ViewFile(parts[i]).Some?)
      && (found.Some? ==> forall i | 1 <= i < found.value :: ViewFile(parts[i]).None?)
  {
    hide ViewFile, FindFile;
    var views := ViewEach(parts);
    var found := FindFile(views, 1);
    forall i | 0 <= i < |parts|
      ensures views[i] == ViewFile(parts[i])
    {
    }
    if found.Some? {
      assert ViewFile(parts[found.value]).Some?;
    }
  }

  /**
   A seed without a blank line, without a boundary on its Content-Type line, with fewer than three
   pieces, or without an inner part that names `filedata` comes back as it is: for every arm and byte,
   and even when it is longer than the maximal size.
   */
  lemma UnreadableKept(seed: string, arm: nat, c: char, maxSize: nat)
    requires forall b :: !Readable(seed, b)
    ensures Mutate(seed, arm, c, maxSize) == seed
  {
    hide Readable, ViewSeed;
    ReadableIsViewed(seed);
  }

  // ---------------------------------------------------------------- what changes in the text

  /** Arm 0 puts one byte right behind the content of the chosen part, and changes nothing else. */
  lemma AppendText(seed: string, v: View, c: char) returns (front: string, rest: string)
    requires ViewSeed(seed) == Some(v)
    ensures seed == front + v.file.original + (v.file.suffix + Delimiter(v.boundary) + rest)
    ensures AppendByte(v, c) == front + v.file.original + [c] + (v.file.suffix + Delimiter(v.boundary) + rest)
    ensures EndsWithBlank(front)
  {
    hide ViewFile, Split, Find, Join, BlankLine, ViewBoundary, FindFile;
    var d, k, f := Delimiter(v.boundary), v.index, v.file;
    ViewedText(seed, v);
    ViewedPart(seed, v);
    FileSep(v.parts[k], f);
    JoinAround(v.parts, k, d);
    var now := v.parts[k := NewPart(f, c)];
    JoinAround(now, k, d);
    assert now[..k] == v.parts[..k] && now[k + 1..] == v.parts[k + 1..];
    var before := v.header + v.sep + Join(v.parts[..k], d) + d;
    rest := Join(v.parts[k + 1..], d);
    front := before + f.header + f.sep;
    assert EndsWithBlank(front);
    Regrouped(v.header + v.sep, Join(v.parts[..k], d), d, f.header, f.sep, f.original, [c], f.suffix, rest);
  }

  ghost predicate EndsWithBlank(text: string) {
    exists before :: text == before + (CRLF + CRLF) || text == before + (LF + LF)
  }

  lemma ViewedText(seed: string, v: View)
    requires ViewSeed(seed) == Some(v)
    ensures seed == v.header + v.sep + Join(v.parts, Delimiter(v.boundary)) && 1 <= v.index < |v.parts| - 1
  {
    hide ViewFile, Find, BlankLine, ViewBoundary, FindFile, Split, Join;
    CutParts(seed, BlankLine(seed));
    JoinSplit(v.body, Delimiter(v.boundary));
  }

  lemma FileSep(part: string, f: FileView)
    requires ViewFile(part) == Some(f)
    ensures f.sep == CRLF + CRLF || f.sep == LF + LF
  {
    hide Find, LineEnd, DropLineEnd;
  }

  lemma Regrouped(a: string, b: string, d: string, h: string, sep: string, x: string, c: string, y: string,
                  rest: string)
    ensures a + (b + d + (h + sep + x + y) + d + rest) == (a + b + d + h + sep) + x + (y + d + rest)
    ensures a + (b + d + (h + sep + (x + c) + y) + d + rest) == (a + b + d + h + sep) + x + c + (y + d + rest)
  {
  }

  /** Arm 2 puts one part and a delimiter in front of what follows the last delimiter. */
  lemma AddedText(seed: string, v: View) returns (front: string, last: string)
    requires ViewSeed(seed) == Some(v)
    ensures var d := Delimiter(v.boundary);
      var lb := if Contains(v.body, CRLF) then CRLF else LF;
      && seed == front + d + last && !Contains(last, d)
      && AddDescription(v) == front + d
           + (lb + "Content-Disposition: form-data; name=\"description\"" + lb + lb + "nv-structure" + lb) + d + last
  {
    hide ViewFile, Find, Join, BlankLine, ViewBoundary, FindFile, Split, DescriptionPart;
    var d, n := Delimiter(v.boundary), |v.parts| - 1;
    ViewedText(seed, v);
    last := v.parts[n];
    LastLacks(v.body, d);
    assert v.parts == v.parts[..n] + [last];
    JoinAppend(v.parts[..n], [last], d);
    var more := DescriptionPart(LineBreak(v.body));
    JoinAppend(v.parts[..n], [more, last], d);
    assert WithDescription(v.parts, LineBreak(v.body)) == v.parts[..n] + [more, last];
    JoinTwo(more, last, d);
    front := v.header + v.sep + Join(v.parts[..n], d);
    DescriptionIs(LineBreak(v.body));
    PutIn(v.header + v.sep, Join(v.parts[..n], d), d, more, last);
  }

  lemma JoinTwo(x: string, y: string, d: string)
    ensures Join([y], d) == y && Join([x, y], d) == x + d + y
  {
    assert [x, y][1..] == [y];
  }

  lemma PutIn(a: string, b: string, d: string, more: string, last: string)
    ensures a + (b + d + last) == (a + b) + d + last
    ensures a + (b + d + (more + d + last)) == (a + b) + d + more + d + last
  {
  }

  lemma LastLacks(body: string, d: string)
    requires d != ""
    ensures var parts := Split(body, d); !Contains(parts[|parts| - 1], d)
  {
    hide Split, Find;
    JoinSplit(body, d);
  }

  lemma DescriptionIs(lb: string)
    ensures DescriptionPart(lb)
      == lb + "Content-Disposition: form-data; name=\"description\"" + lb + lb + "nv-structure" + lb
  {
    hide PrintPart, FieldHeader;
    DescriptionHeader();
    PrintedText(lb, FieldHeader("description"), "nv-structure");
  }

  lemma DescriptionHeader()
    ensures FieldHeader("description") == "Content-Disposition: form-data; name=\"description\""
  {
    hide FieldHeader;
    FieldShape("description");
    assert NAME_PREFIX == "Content-Disposition: form-data; name=";
  }

  lemma PrintedText(lb: string, h: string, content: string)
    ensures PrintPart(lb, h, content) == lb + h + lb + lb + content + lb
  {
  }
}
