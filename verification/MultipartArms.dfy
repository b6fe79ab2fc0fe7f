/**
 What the three mutator arms do to the meaning of a seed, where the meaning of a seed is
 what the harness parser reads from it.
 */
module MultipartArms {
  import opened Wrappers
  import opened ByteStrings
  import opened MultipartParser
  import opened MultipartMutator

  /** Parser and mutator read the same boundary from an accepted seed. */
  ghost predicate Agree(seed: string, r: Seed, v: View) {
    && Parse(seed) == Success(r)
    && ViewSeed(seed) == Some(v)
    && v.boundary == r.head.boundary
  }

  predicate Untruncated(out: string, maxSize: nat) {
    maxSize == 0 || |out| <= maxSize
  }

  /** What an accepted seed looks like in the mutator's terms. */
  lemma AcceptedView(seed: string, r: Seed, v: View)
    requires Agree(seed, r, v)
    ensures v.sep == BlankLine(seed) && seed == v.header + v.sep + v.body
    ensures Find(v.header + v.sep, v.sep) == |v.header|
    ensures v.parts == Split(v.body, Delimiter(v.boundary))
    ensures ReadHead(v.header) == Success(r.head)
    ensures ReadBody(v.body, v.boundary) == Success(r.content)
  {
    hide ReadHead, ReadBody, BlankLine, Split, FindFile, ViewFile, ViewBoundary;
    CutParts(seed, BlankLine(seed));
  }

  lemma AcceptedBody(body: string, boundary: string, content: Content)
    requires ReadBody(body, boundary) == Success(content) && PrintableBoundary(boundary)
    ensures var d := Delimiter(boundary);
      var parts := Split(body, d);
      && ReadSegments(parts) == Success(content)
      && Clean(parts, d) && body == Join(parts, d)
      && 3 <= |parts| && parts[0] == "" && (StartsWith(parts[1], CRLF) || StartsWith(parts[1], LF))
  {
    var d := Delimiter(boundary);
    var parts := Split(body, d);
    JoinSplit(body, d);
    PrintableDelimiter(boundary);
    assert 3 <= |parts| && parts[0] == "";
    SecondPart(parts, d);
  }

  /** A prefix of `t + d` made of characters foreign to `d` is a prefix of `t`. */
  lemma ForeignPrefix(t: string, d: string, tail: string, lead: string)
    requires d != "" && Foreign(lead, d) && StartsWith(t + d + tail, lead)
    ensures StartsWith(t, lead)
  {
    var s := t + d + tail;
    forall i | 0 <= i < |lead|
      ensures s[i] == lead[i]
    {
      assert s[i] == s[..|lead|][i];
    }
    assert s[|t|] == d[0];
    if |lead| <= |t| {
      assert s[..|lead|] == t[..|lead|];
    }
  }

  lemma DropLead(d: string, t: string, lead: string)
    requires StartsWith(d + t, d + lead)
    ensures StartsWith(t, lead)
  {
    var s := d + t;
    assert |lead| <= |t|;
    assert t[..|lead|] == s[..|d + lead|][|d|..];
  }

  /** The line break after the opening delimiter is where the first part starts. */
  lemma SecondPart(parts: seq<string>, d: string)
    requires 3 <= |parts| && parts[0] == "" && d != "" && Foreign(CRLF, d)
    requires StartsWith(Join(parts, d), d + CRLF) || StartsWith(Join(parts, d), d + LF)
    ensures StartsWith(parts[1], CRLF) || StartsWith(parts[1], LF)
  {
    var body := Join(parts, d);
    var tail := Join(parts[1..][1..], d);
    var t := parts[1] + d + tail;
    assert Join(parts[1..], d) == t;
    assert body == d + t;
    var lead := if StartsWith(body, d + CRLF) then CRLF else LF;
    DropLead(d, t, lead);
    assert Foreign(lead, d) by {
      assert CRLF[1] == '\n' && CRLF[0] !in d && CRLF[1] !in d;
    }
    ForeignPrefix(parts[1], d, tail, lead);
  }

  lemma PrintableDelimiter(boundary: string)
    requires PrintableBoundary(boundary)
    ensures Foreign(CRLF, Delimiter(boundary)) && Foreign(LF, Delimiter(boundary))
  {
    var d := Delimiter(boundary);
    forall i | 0 <= i < |d|
      ensures d[i] != '\r' && d[i] != '\n'
    {
      assert d[i] == '-' || d[i] == boundary[i - 2];
    }
  }

  /** A head and a body put together with the right blank line are read apart again. */
  lemma ParseJoined(header: string, sep: string, body: string)
    requires Find(header + sep, sep) == |header|
    requires BlankLine(header + sep + body) == sep
    ensures Parse(header + sep + body) == ReadMessage(header, body)
  {
    var raw := header + sep + body;
    FindDelimiter(header, sep, body);
    assert raw[..|header|] == header;
    assert raw[|header| + |sep|..] == body;
  }

  /** A body joined from clean parts is read as those parts. */
  lemma ReadJoined(parts: seq<string>, boundary: string)
    requires 3 <= |parts| && parts[0] == "" && Clean(parts, Delimiter(boundary))
    requires StartsWith(parts[1], CRLF) || StartsWith(parts[1], LF)
    ensures ReadBody(Join(parts, Delimiter(boundary)), boundary) == ReadSegments(parts)
  {
    hide ReadSegments, Find;
    var d := Delimiter(boundary);
    var body := Join(parts, d);
    SplitJoin(parts, d);
    var rest := Join(parts[1..], d);
    assert body == d + rest;
    assert parts[1..][0] == parts[1];
    assert StartsWith(rest, parts[1]);
    var lead := if StartsWith(parts[1], CRLF) then CRLF else LF;
    assert rest[..|lead|] == parts[1][..|lead|];
    assert body[..|d + lead|] == d + lead;
  }

  // ---------------------------------------------------------------- adding parts in pieces

  type PartResults = seq<Result<Part, Error>>

  lemma {:induction false} AddPartsAppend(a: PartResults, b: PartResults, form: Form)
    ensures AddParts(a + b, form) ==
      match AddParts(a, form) case Success(mid) => AddParts(b, mid) case Failure(e) => Failure(e)
    decreases |a|
  {
    if a == [] {
      assert a + b == b;
    } else {
      assert (a + b)[1..] == a[1..] + b;
      if a[0].Success? && AddPart(form, a[0].value).Success? {
        AddPartsAppend(a[1..], b, AddPart(form, a[0].value).value);
      }
    }
  }

  /** The parts added later only add to the form: fields stay as they are, files go on the end. */
  lemma {:induction false} AddPartsKeep(parts: PartResults, form: Form)
    requires AddParts(parts, form).Success?
    ensures var out := AddParts(parts, form).value;
      && (forall k | k in form.fields :: k in out.fields && out.fields[k] == form.fields[k])
      && form.files <= out.files
    decreases |parts|
  {
    if parts != [] {
      AddPartsKeep(parts[1..], AddPart(form, parts[0].value).value);
    }
  }

  /** Which files came before makes no difference to the parts added later. */
  lemma {:induction false} AddPartsFiles(parts: PartResults, form: Form, files: seq<Part>)
    requires AddParts(parts, form).Success?
    ensures var out := AddParts(parts, form).value;
      && form.files <= out.files
      && AddParts(parts, form.(files := files)) == Success(out.(files := files + out.files[|form.files|..]))
    decreases |parts|
  {
    if parts == [] {
      assert files + form.files[|form.files|..] == files;
    } else {
      var part := parts[0].value;
      var next := AddPart(form, part).value;
      AddPartsKeep(parts[1..], next);
      var out := AddParts(parts[1..], next).value;
      if part.filename.Some? {
        AddPartsFiles(parts[1..], next, files + [part]);
        assert files + [part] + out.files[|next.files|..] == files + out.files[|form.files|..];
      } else {
        AddPartsFiles(parts[1..], next, files);
      }
    }
  }

  /** The value of an earlier field makes no difference to the parts added later. */
  lemma {:induction false} AddPartsField(parts: PartResults, form: Form, name: string, value: string)
    requires AddParts(parts, form).Success? && name in form.fields
    ensures var out := AddParts(parts, form).value;
      AddParts(parts, form.(fields := form.fields[name := value]))
        == Success(out.(fields := out.fields[name := value]))
    decreases |parts|
  {
    if parts != [] {
      var part := parts[0].value;
      var next := AddPart(form, part).value;
      AddPartsField(parts[1..], next, name, value);
      if part.filename.None? {
        assert form.fields[name := value][part.name := part.body] == next.fields[name := value];
      }
    }
  }
}
