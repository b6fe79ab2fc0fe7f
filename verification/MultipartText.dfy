/** The texts of printed seeds and of re-delimited ones, written out. */
module MultipartText {
  import opened Wrappers
  import opened ByteStrings
  import opened MultipartParser
  import opened MultipartPrinter
  import opened MultipartMutator
  import opened MultipartRoundTrip
  import opened MultipartSeed
  import opened MultipartUnread

  // ---------------------------------------------------------------- what the client prints

  /** A text field with its delimiter, as the client's format strings give it. */
  function FieldText(boundary: string, name: string, value: string): string {
    "--" + boundary + "\r\n"
    + "Content-Disposition: form-data; name=\"" + name + "\"\r\n\r\n"
    + value + "\r\n"
  }

  /** The file and the closing delimiter. */
  function FileText(boundary: string, filename: string, fileBytes: string): string {
    "--" + boundary + "\r\n"
    + "Content-Disposition: form-data; name=" + "\"filedata\"; filename=" + "\"" + filename + "\"\r\n"
    + "Content-Type:" + " application/octet-stream" + "\r\n\r\n"
    + fileBytes + "\r\n"
    + "--" + boundary + "--\r\n"
  }

  function FieldTexts(boundary: string, fields: seq<Field>): string {
    if fields == [] then "" else FieldText(boundary, fields[0].0, fields[0].1) + FieldTexts(boundary, fields[1..])
  }

  lemma FieldPrinted(boundary: string, name: string, value: string)
    ensures Delimiter(boundary) + PrintPart(CRLF, FieldHeader(name), value) == FieldText(boundary, name, value)
  {
    hide FieldHeader;
    FieldShape(name);
    NamePrefix();
    var a, b := NAME_PREFIX, "\"";
    assert a + b == "Content-Disposition: form-data; name=\"";
    assert b + (CRLF + CRLF) == "\"\r\n\r\n";
    FieldGlued("--", boundary, CRLF, a, b, name, value);
  }

  lemma FieldGlued(dashes: string, boundary: string, lb: string, a: string, b: string, name: string, value: string)
    ensures dashes + boundary + PrintPart(lb, a + (b + name + b), value)
      == dashes + boundary + lb + (a + b) + name + (b + (lb + lb)) + value + lb
  {
  }

  lemma NamePrefix()
    ensures NAME_PREFIX == "Content-Disposition: form-data; name="
  {
  }

  lemma FilePieces()
    ensures "\"" + CRLF == "\"\r\n" && "--" + CRLF == "--\r\n"
    ensures TYPE_KEY + ":" == "Content-Type:" && " " + TYPE_VALUE == " application/octet-stream"
    ensures CRLF + CRLF == "\r\n\r\n"
  {
  }

  lemma FilePrinted(boundary: string, filename: string, fileBytes: string)
    ensures var d := Delimiter(boundary);
      d + PrintPart(CRLF, FileHeader(filename), fileBytes) + d + "--" + CRLF == FileText(boundary, filename, fileBytes)
  {
    hide FileHeader, PrintPart;
    FileShape(filename);
    NamePrefix();
    FilePieces();
    FileGlued("--", boundary, CRLF, NAME_PREFIX, "\"filedata\"; filename=", "\"", TYPE_KEY + ":", " " + TYPE_VALUE,
      filename, fileBytes);
  }

  lemma FileGlued(dashes: string, boundary: string, lb: string, a: string, a': string, b: string, k: string,
                  k': string, name: string, content: string)
    ensures var d := dashes + boundary; var header := a + a' + (b + name + b) + lb + (k + k');
      d + PrintPart(lb, header, content) + d + dashes + lb
        == dashes + boundary + lb + a + a' + b + name + (b + lb) + k + k' + (lb + lb) + content + lb
           + dashes + boundary + (dashes + lb)
  {
  }

  lemma {:induction false} FieldsPrinted(fields: seq<Field>, boundary: string)
    ensures PrintFields(fields, Delimiter(boundary)) == FieldTexts(boundary, fields)
    decreases |fields|
  {
    if fields != [] {
      hide FieldHeader, PrintPart, FieldText;
      FieldPrinted(boundary, fields[0].0, fields[0].1);
      FieldsPrinted(fields[1..], boundary);
    }
  }

  /** The body that the client sends is, character by character, what its format strings give. */
  lemma BodyPrinted(fields: seq<Field>, filename: string, fileBytes: string, boundary: string)
    ensures PrintBody(fields, filename, fileBytes, boundary)
      == FieldTexts(boundary, fields) + FileText(boundary, filename, fileBytes)
  {
    hide FileHeader, PrintPart, FileText, FieldTexts, PrintFields;
    FieldsPrinted(fields, boundary);
    FilePrinted(boundary, filename, fileBytes);
  }

  /** The head of a printed seed: a request line and the Content-Type. */
  lemma HeadPrinted(path: string, boundary: string)
    ensures HeadText(CRLF, path, boundary)
      == "POST " + path + " HTTP/1.1\r\n" + "Content-Type:" + " multipart/form-data" + "; boundary=" + boundary
  {
    HeadPieces();
    assert ItemsText([BoundaryText(boundary)]) == "; " + (KEY + "=" + boundary) by {
      assert [BoundaryText(boundary)][1..] == [];
      assert "; " + (KEY + "=" + boundary) + "" == "; " + (KEY + "=" + boundary);
    }
    HeadGlued(METHOD, " ", VERSION, CRLF, path, TYPE_KEY, ":", FORM_TYPE, "; ", KEY, "=", boundary);
  }

  lemma HeadGlued(m: string, sp: string, v: string, lb: string, path: string, k: string, c: string, f: string,
                  semi: string, key: string, eq: string, boundary: string)
    ensures m + sp + (path + sp + v) + lb + (k + c + (sp + (f + (semi + (key + eq + boundary)))))
      == m + sp + path + (sp + v + lb) + (k + c) + (sp + f) + (semi + key + eq) + boundary
  {
  }

  lemma HeadPieces()
    ensures METHOD + " " == "POST " && " " + VERSION + CRLF == " HTTP/1.1\r\n"
    ensures TYPE_KEY + ":" == "Content-Type:" && " " + FORM_TYPE == " multipart/form-data"
    ensures "; " + KEY + "=" == "; boundary="
  {
  }

  // ---------------------------------------------------------------- another boundary

  /** Arm 1: `-nv` goes in behind the first literal parameter of the header block and behind every delimiter. */
  lemma RedelimitText(seed: string, v: View) returns (before: string, after: string)
    requires ViewSeed(seed) == Some(v)
    ensures var literal := "boundary=" + v.boundary;
      var header := if Contains(v.header, literal) then before + literal + "-nv" + after else v.header;
      && seed == v.header + v.sep + Join(v.parts, "--" + v.boundary)
      && (forall i | 0 <= i < |v.parts| :: !Contains(v.parts[i], "--" + v.boundary))
      && (Contains(v.header, literal) ==>
           v.header == before + literal + after && !Contains(before + literal[..|literal| - 1], literal))
      && Redelimit(v) == header + v.sep + Join(v.parts, "--" + v.boundary + "-nv")
  {
    hide ViewSeed, Join, NewBoundary, OccursAt;
    ViewedText(seed, v);
    ViewedPieces(seed, v);
    NewDelimiter(v.boundary);
    var literal := "boundary=" + v.boundary;
    before, after := "", "";
    if Contains(v.header, literal) {
      before, after := Replaced(v.header, literal, "-nv");
    }
  }

  lemma ViewedPieces(seed: string, v: View)
    requires ViewSeed(seed) == Some(v)
    ensures forall i | 0 <= i < |v.parts| :: !Contains(v.parts[i], Delimiter(v.boundary))
  {
    hide ViewFile, BlankLine, ViewBoundary, FindFile, Split, Find;
    SplitPiecesLack(v.body, Delimiter(v.boundary));
  }

  lemma Replaced(s: string, literal: string, more: string) returns (before: string, after: string)
    requires literal != "" && Contains(s, literal)
    ensures s == before + literal + after && !Contains(before + literal[..|literal| - 1], literal)
    ensures ReplaceFirst(s, literal, literal + more) == before + literal + more + after
  {
    var k, n := Find(s, literal), |literal|;
    before, after := s[..k], s[k + n..];
    assert s[k..k + n] == literal;
    var head := s[..k + n - 1];
    assert before + literal[..n - 1] == head;
    if Contains(head, literal) {
      FoundBefore(s, k + n - 1, literal);
    }
  }

  lemma FoundBefore(s: string, i: nat, d: string)
    requires i <= |s| && Contains(s[..i], d)
    ensures 0 <= Find(s, d) && Find(s, d) + |d| <= i
  {
    var j := Find(s[..i], d);
    assert s[..i][j..j + |d|] == s[j..j + |d|];
    assert OccursAt(s, d, j);
  }

  lemma NewDelimiter(boundary: string)
    ensures Delimiter(NewBoundary(boundary)) == "--" + boundary + "-nv"
    ensures MARKER + NewBoundary(boundary) == "boundary=" + boundary + "-nv"
  {
  }
}
