/**
 The grammar of an accepted multipart seed, said of lines, items and parts at once instead of by the
 parser's passes over them, with every character class written out.
 */
module MultipartGrammar {
  import opened Wrappers
  import opened ByteStrings
  import opened MultipartParser
  import opened MultipartUnread

  // ---------------------------------------------------------------- characters

  /** A file name that names no directory and no path, without control characters. */
  predicate GoodFilename(name: string) {
    && name != "" && name != "." && name != ".."
    && forall i | 0 <= i < |name| ::
      name[i] != '/' && name[i] != '\\' && 32 as char <= name[i] && name[i] != 127 as char
  }

  lemma FilenameIs(name: string)
    ensures LegalFilename(name) <==> GoodFilename(name)
  {
    assert '/' !in name <==> forall i | 0 <= i < |name| :: name[i] != '/';
    assert '\\' !in name <==> forall i | 0 <= i < |name| :: name[i] != '\\';
  }

  /** Visible ASCII characters, one at least. */
  predicate GoodBoundary(boundary: string) {
    0 < |boundary| && forall i | 0 <= i < |boundary| :: '!' <= boundary[i] <= '~'
  }

  lemma BoundaryIsGood(boundary: string)
    ensures PrintableBoundary(boundary) <==> GoodBoundary(boundary)
  {
  }

  /** Where `c` stands first. */
  function FirstAt(s: string, c: char): (k: nat)
    requires c in s
    ensures k < |s| && s[k] == c && c !in s[..k]
  {
    if s[0] == c then 0 else 1 + FirstAt(s[1..], c)
  }

  lemma FirstIsFind(s: string, c: char)
    ensures c in s ==> Find(s, [c]) == FirstAt(s, c)
    ensures c !in s ==> Find(s, [c]) < 0
  {
    hide FirstAt;
    ContainsChar(s, c);
    if c in s {
      var k := FirstAt(s, c);
      assert s == s[..k] + [c] + s[k + 1..];
      FindChar(s[..k], c, s[k + 1..]);
    }
  }

  // ---------------------------------------------------------------- header lines

  /** A `key: value` line in ASCII. */
  predicate GoodLine(line: string) {
    ':' in line && forall i | 0 <= i < |line| :: line[i] < 128 as char
  }

  function KeyOf(line: string): string {
    if ':' in line then Lower(Strip(line[..FirstAt(line, ':')])) else ""
  }

  function ValueOf(line: string): string {
    if ':' in line then Strip(line[FirstAt(line, ':') + 1..]) else ""
  }

  lemma LineIs(line: string)
    ensures ReadLine(line) == if GoodLine(line) then Some((KeyOf(line), ValueOf(line))) else None
  {
    hide Find, FirstAt, Strip, Lower;
    FirstIsFind(line, ':');
    assert [':'] == ":";
    if ':' in line {
      var k := FirstAt(line, ':');
      AsciiParts(line, k);
    }
  }

  lemma AsciiParts(s: string, k: nat)
    requires k < |s| && s[k] < 128 as char
    ensures (IsAscii(s[..k]) && IsAscii(s[k + 1..])) <==> forall i | 0 <= i < |s| :: s[i] < 128 as char
  {
    if IsAscii(s[..k]) && IsAscii(s[k + 1..]) {
      forall i | 0 <= i < |s|
        ensures s[i] < 128 as char
      {
        if i < k {
          assert s[..k][i] == s[i];
        } else if k < i {
          assert s[k + 1..][i - k - 1] == s[i];
        }
      }
    }
  }

  /** All lines are good and name different keys, none empty; the headers are these keys with their values. */
  ghost predicate HeadersSay(lines: seq<string>, headers: Headers) {
    && (forall i | 0 <= i < |lines| :: GoodLine(lines[i]) && KeyOf(lines[i]) != "")
    && (forall i, j | 0 <= i < j < |lines| :: KeyOf(lines[i]) != KeyOf(lines[j]))
    && (forall i | 0 <= i < |lines| :: KeyOf(lines[i]) in headers && headers[KeyOf(lines[i])] == ValueOf(lines[i]))
    && (forall k | k in headers :: exists i :: 0 <= i < |lines| && KeyOf(lines[i]) == k)
  }

  ghost predicate HeadersFrom(lines: seq<string>, was: Headers, now: Headers) {
    && (forall i | 0 <= i < |lines| :: GoodLine(lines[i]) && KeyOf(lines[i]) != "" && KeyOf(lines[i]) !in was)
    && (forall i, j | 0 <= i < j < |lines| :: KeyOf(lines[i]) != KeyOf(lines[j]))
    && (forall i | 0 <= i < |lines| :: KeyOf(lines[i]) in now && now[KeyOf(lines[i])] == ValueOf(lines[i]))
    && (forall k | k in was :: k in now && now[k] == was[k])
    && (forall k | k in now :: k in was || exists i :: 0 <= i < |lines| && KeyOf(lines[i]) == k)
  }

  lemma HeadersTail(lines: seq<string>, was: Headers, now: Headers)
    requires lines != [] && HeadersFrom(lines, was, now)
    ensures HeadersFrom(lines[1..], was[KeyOf(lines[0]) := ValueOf(lines[0])], now)
  {
    hide KeyOf, ValueOf, GoodLine;
    var rest := lines[1..];
    var next := was[KeyOf(lines[0]) := ValueOf(lines[0])];
    assert forall i | 0 <= i < |rest| :: rest[i] == lines[i + 1];
    forall k | k in now
      ensures k in next || exists i :: 0 <= i < |rest| && KeyOf(rest[i]) == k
    {
      if k !in was {
        var i :| 0 <= i < |lines| && KeyOf(lines[i]) == k;
        if i > 0 {
          assert KeyOf(rest[i - 1]) == k;
        }
      }
    }
  }

  lemma LineOfRest(lines: seq<string>, i: nat)
    requires 0 < i < |lines|
    ensures lines[i] == lines[1..][i - 1]
  {
  }

  lemma HeadersHead(lines: seq<string>, was: Headers, now: Headers)
    requires lines != [] && GoodLine(lines[0]) && KeyOf(lines[0]) != "" && KeyOf(lines[0]) !in was
    requires HeadersFrom(lines[1..], was[KeyOf(lines[0]) := ValueOf(lines[0])], now)
    ensures HeadersFrom(lines, was, now)
  {
    hide KeyOf, ValueOf, GoodLine;
    var rest := lines[1..];
    var key := KeyOf(lines[0]);
    assert key in now && now[key] == ValueOf(lines[0]);
    forall i | 0 < i < |lines|
      ensures GoodLine(lines[i]) && KeyOf(lines[i]) != "" && KeyOf(lines[i]) !in was && KeyOf(lines[i]) != key
      ensures KeyOf(lines[i]) in now && now[KeyOf(lines[i])] == ValueOf(lines[i])
    {
      LineOfRest(lines, i);
    }
    forall i, j | 0 <= i < j < |lines|
      ensures KeyOf(lines[i]) != KeyOf(lines[j])
    {
      if i > 0 {
        LineOfRest(lines, i);
        LineOfRest(lines, j);
      }
    }
    forall k | k in now && k !in was
      ensures exists i :: 0 <= i < |lines| && KeyOf(lines[i]) == k
    {
      if k != key {
        var i :| 0 <= i < |rest| && KeyOf(rest[i]) == k;
        assert KeyOf(lines[i + 1]) == k;
      }
    }
  }

  lemma {:induction false} HeadersRead(lines: seq<string>, was: Headers, now: Headers)
    ensures ReadHeaders(lines, was) == Success(now) <==> HeadersFrom(lines, was, now)
    decreases |lines|
  {
    hide ReadLine, KeyOf, ValueOf, GoodLine, HeadersFrom;
    if lines == [] {
      NoLines(was, now);
    } else {
      LineIs(lines[0]);
      if GoodLine(lines[0]) && KeyOf(lines[0]) != "" && KeyOf(lines[0]) !in was {
        HeadersRead(lines[1..], was[KeyOf(lines[0]) := ValueOf(lines[0])], now);
        if HeadersFrom(lines, was, now) {
          HeadersTail(lines, was, now);
        } else if HeadersFrom(lines[1..], was[KeyOf(lines[0]) := ValueOf(lines[0])], now) {
          HeadersHead(lines, was, now);
        }
      } else {
        BadFirst(lines, was, now);
      }
    }
  }

  lemma NoLines(was: Headers, now: Headers)
    ensures HeadersFrom([], was, now) <==> was == now
  {
  }

  lemma BadFirst(lines: seq<string>, was: Headers, now: Headers)
    requires lines != [] && (GoodLine(lines[0]) ==> KeyOf(lines[0]) == "" || KeyOf(lines[0]) in was)
    ensures !HeadersFrom(lines, was, now)
  {
  }

  /** The header loop accepts exactly such lines, with exactly these headers. */
  lemma HeadersExactly(lines: seq<string>, headers: Headers)
    ensures ReadHeaders(lines, map[]) == Success(headers) <==> HeadersSay(lines, headers)
  {
    hide ReadHeaders, KeyOf, ValueOf, GoodLine;
    HeadersRead(lines, map[], headers);
  }

  // ---------------------------------------------------------------- the first and the last with a key

  /** The last text with a property, or the length. */
  function LastIndex(texts: seq<string>, p: string -> bool): (k: nat)
    ensures k <= |texts| && (k < |texts| ==> p(texts[k])) && forall j | k < j < |texts| :: !p(texts[j])
    ensures k == |texts| ==> forall j | 0 <= j < |texts| :: !p(texts[j])
    decreases |texts|
  {
    if texts == [] then 0
    else
      var last := |texts| - 1;
      if p(texts[last]) then last
      else
        var k := LastIndex(texts[..last], p);
        if k < last then k else |texts|
  }

  lemma LastOfRest(texts: seq<string>, p: string -> bool)
    requires texts != []
    ensures var n := LastIndex(texts[1..], p);
      LastIndex(texts, p) == if n < |texts| - 1 then n + 1 else if p(texts[0]) then 0 else |texts|
  {
    hide LastIndex;
    var k, n := LastIndex(texts, p), LastIndex(texts[1..], p);
    assert forall j | 0 <= j < |texts| - 1 :: texts[1..][j] == texts[j + 1];
    if 0 < k < |texts| {
      assert p(texts[1..][k - 1]);
    }
    if n < |texts| - 1 {
      assert p(texts[n + 1]);
      assert forall j | n + 1 < j < |texts| :: texts[j] == texts[1..][j - 1];
    }
  }

  function HasKey(key: string): string -> bool {
    (line: string) => KeyOf(line) == key
  }

  /** The value of the last line with the key, or `other` when there is none. */
  function LastValue(lines: seq<string>, key: string, other: string): string {
    var k := LastIndex(lines, HasKey(key));
    if k < |lines| then ValueOf(lines[k]) else other
  }

  lemma {:induction false} PartHeadersRead(lines: seq<string>, was: Headers, key: string)
    ensures ReadPartHeaders(lines, was).Success? <==> forall i | 0 <= i < |lines| :: GoodLine(lines[i])
    ensures ReadPartHeaders(lines, was).Success? ==>
      Get(ReadPartHeaders(lines, was).value, key) == LastValue(lines, key, Get(was, key))
    decreases |lines|
  {
    hide ReadLine, KeyOf, ValueOf, GoodLine, LastIndex;
    if lines != [] {
      var rest := lines[1..];
      LineIs(lines[0]);
      assert forall i | 0 < i < |lines| :: lines[i] == rest[i - 1];
      assert forall i | 0 <= i < |rest| :: rest[i] == lines[i + 1];
      if GoodLine(lines[0]) {
        PartHeadersRead(rest, was[KeyOf(lines[0]) := ValueOf(lines[0])], key);
        LastOfRest(lines, HasKey(key));
      }
    }
  }

  // ---------------------------------------------------------------- items

  predicate GoodItem(item: string) {
    '=' in item
  }

  /** The name of a `name=value` item, in lower case. */
  function NameOf(item: string): string {
    if '=' in item then Lower(Strip(item[..FirstAt(item, '=')])) else ""
  }

  /** Its value without quotes. */
  function TextOf(item: string): string {
    if '=' in item then StripQuotes(Strip(item[FirstAt(item, '=') + 1..])) else ""
  }

  lemma ItemIs(item: string)
    ensures ReadItem(item) == if GoodItem(item) then Some((NameOf(item), TextOf(item))) else None
  {
    hide Find, FirstAt, Strip, StripQuotes, Lower;
    FirstIsFind(item, '=');
    assert ['='] == "=";
  }

  function HasName(name: string): string -> bool {
    (item: string) => GoodItem(item) && NameOf(item) == name
  }

  /** The parameters after the loop: under each name the value of the last item that gives it. */
  lemma {:induction false} ParametersRead(items: seq<string>, was: Headers, name: string)
    ensures var now := ReadParameters(items, was);
      var k := LastIndex(items, HasName(name));
      if k < |items| then name in now && now[name] == TextOf(items[k])
      else (name in now <==> name in was) && Get(now, name) == Get(was, name)
    decreases |items|
  {
    hide ReadItem, GoodItem, NameOf, TextOf, LastIndex;
    if items != [] {
      ItemIs(items[0]);
      LastOfRest(items, HasName(name));
      if GoodItem(items[0]) {
        ParametersRead(items[1..], was[NameOf(items[0]) := TextOf(items[0])], name);
      } else {
        ParametersRead(items[1..], was, name);
      }
    }
  }

  /** The first parameter with the name, without quotes, or "" when there is none. */
  function FirstText(items: seq<string>, name: string): string {
    var k := FirstIndex(items, HasName(name));
    if k < |items| then TextOf(items[k]) else ""
  }

  lemma {:induction false} BoundaryRead(items: seq<string>)
    ensures BoundaryParameter(items) == FirstText(items, "boundary")
    decreases |items|
  {
    hide ReadItem, GoodItem, NameOf, TextOf;
    if items != [] {
      ItemIs(items[0]);
      BoundaryRead(items[1..]);
    }
  }

  /** The names among the items behind `form-data`: the last `name`, and the last `filename` if there is one. */
  predicate NamesSay(items: seq<string>, name: string, filename: Option<string>) {
    var n, f := LastIndex(items, HasName("name")), LastIndex(items, HasName("filename"));
    && n < |items| && name == TextOf(items[n]) && name != ""
    && if f < |items| then filename == Some(TextOf(items[f])) && GoodFilename(TextOf(items[f])) else filename == None
  }

  lemma NamesExactly(items: seq<string>, name: string, filename: Option<string>)
    ensures NamesOf(items) == Success((name, filename)) <==> NamesSay(items, name, filename)
  {
    hide ReadParameters, TextOf, LastIndex, HasName, LegalFilename, GoodFilename;
    ParametersRead(items, map[], "name");
    ParametersRead(items, map[], "filename");
    var f := LastIndex(items, HasName("filename"));
    if f < |items| {
      FilenameIs(TextOf(items[f]));
    }
  }

  predicate DispositionSays(value: string, name: string, filename: Option<string>) {
    var items := StripAll(Split(value, ";"));
    Lower(items[0]) == "form-data" && NamesSay(items[1..], name, filename)
  }

  lemma DispositionExactly(value: string, name: string, filename: Option<string>)
    ensures ReadDispositionValue(value) == Success((name, filename)) <==> DispositionSays(value, name, filename)
  {
    hide Split, Strip, Lower, NamesOf, NamesSay;
    NamesExactly(StripAll(Split(value, ";"))[1..], name, filename);
  }

  // ---------------------------------------------------------------- parts

  /** The text without one line break at its front. */
  function WithoutBreak(segment: string): string {
    if |segment| >= 2 && segment[0] == '\r' && segment[1] == '\n' then segment[2..]
    else if |segment| >= 1 && segment[0] == '\n' then segment[1..]
    else segment
  }

  /** The text without one line break at its end. */
  function WithoutEnd(body: string): string {
    var n := |body|;
    if n >= 2 && body[n - 2] == '\r' && body[n - 1] == '\n' then body[..n - 2]
    else if n >= 1 && body[n - 1] == '\n' then body[..n - 1]
    else body
  }

  lemma BreaksAre(s: string)
    ensures DropLineStart(s) == WithoutBreak(s) && DropLineEnd(s) == WithoutEnd(s)
  {
    if |s| >= 2 {
      assert s[..2] == [s[0], s[1]];
    }
    if |s| >= 1 {
      assert s[..1] == [s[0]];
    }
  }

  /** A segment says this part. */
  predicate PartSays(segment: string, part: Part) {
    var text := WithoutBreak(segment);
    && HasBlankLine(text)
    && var lines := LinesOf(BeforeBlank(text));
    && (forall i | 0 <= i < |lines| :: GoodLine(lines[i]))
    && DispositionSays(LastValue(lines, "content-disposition", ""), part.name, part.filename)
    && part.body == WithoutEnd(BehindBlank(text))
  }

  lemma HeaderExactly(header: string, name: string, filename: Option<string>)
    ensures ReadDisposition(header) == Success((name, filename)) <==>
      var lines := LinesOf(header);
      && (forall i | 0 <= i < |lines| :: GoodLine(lines[i]))
      && DispositionSays(LastValue(lines, "content-disposition", ""), name, filename)
  {
    hide Split, ReadPartHeaders, ReadDispositionValue, DispositionSays, LastValue, GoodLine;
    LinesAre(header);
    var lines := LinesOf(header);
    PartHeadersRead(lines, map[], "content-disposition");
    DispositionExactly(LastValue(lines, "content-disposition", ""), name, filename);
  }

  lemma PartExactly(segment: string, part: Part)
    ensures ReadPart(segment) == Success(part) <==> PartSays(segment, part)
  {
    hide ReadDisposition, LinesOf, HasBlankLine, BeforeBlank, BehindBlank, BlankLine, Cut, LastValue, DispositionSays,
      GoodLine, DropLineEnd, DropLineStart, WithoutBreak, WithoutEnd;
    BreaksAre(segment);
    var text := DropLineStart(segment);
    BlankIs(text);
    if HasBlankLine(text) {
      BreaksAre(BehindBlank(text));
      HeaderExactly(BeforeBlank(text), part.name, part.filename);
      if ReadDisposition(BeforeBlank(text)).Success? {
        var (name, filename) := ReadDisposition(BeforeBlank(text)).value;
        HeaderExactly(BeforeBlank(text), name, filename);
      }
    }
  }

  // ---------------------------------------------------------------- fields and files

  type Results = seq<Result<Part, Error>>

  predicate IsText(r: Result<Part, Error>) {
    r.Success? && r.value.filename.None?
  }

  predicate IsFile(r: Result<Part, Error>) {
    r.Success? && r.value.filename.Some?
  }

  function FilesIn(rs: Results): seq<Part> {
    if rs == [] then [] else (if IsFile(rs[0]) then [rs[0].value] else []) + FilesIn(rs[1..])
  }

  ghost predicate TextsFrom(rs: Results, was: map<string, string>, now: map<string, string>) {
    && (forall i | 0 <= i < |rs| && IsText(rs[i]) ::
          && rs[i].value.name !in was && ValidUtf8(rs[i].value.body)
          && rs[i].value.name in now && now[rs[i].value.name] == rs[i].value.body)
    && (forall i, j | 0 <= i < j < |rs| && IsText(rs[i]) && IsText(rs[j]) :: rs[i].value.name != rs[j].value.name)
    && (forall k | k in was :: k in now && now[k] == was[k])
    && (forall k | k in now :: k in was || exists i :: 0 <= i < |rs| && IsText(rs[i]) && rs[i].value.name == k)
  }

  ghost predicate FormFrom(rs: Results, was: Form, now: Form) {
    && (forall i | 0 <= i < |rs| :: rs[i].Success?)
    && TextsFrom(rs, was.fields, now.fields) && now.files == was.files + FilesIn(rs)
  }

  lemma TextsTail(rs: Results, was: map<string, string>, now: map<string, string>)
    requires rs != [] && IsText(rs[0]) && TextsFrom(rs, was, now)
    ensures TextsFrom(rs[1..], was[rs[0].value.name := rs[0].value.body], now)
  {
    hide ValidUtf8;
    var rest := rs[1..];
    assert forall i | 0 <= i < |rest| :: rest[i] == rs[i + 1];
    forall k | k in now && k !in was && k != rs[0].value.name
      ensures exists i :: 0 <= i < |rest| && IsText(rest[i]) && rest[i].value.name == k
    {
      var i :| 0 <= i < |rs| && IsText(rs[i]) && rs[i].value.name == k;
      assert IsText(rest[i - 1]) && rest[i - 1].value.name == k;
    }
  }

  lemma ResultOfRest(rs: Results, i: nat)
    requires 0 < i < |rs|
    ensures rs[i] == rs[1..][i - 1]
  {
  }

  lemma TextsHead(rs: Results, was: map<string, string>, now: map<string, string>)
    requires rs != [] && IsText(rs[0]) && rs[0].value.name !in was && ValidUtf8(rs[0].value.body)
    requires TextsFrom(rs[1..], was[rs[0].value.name := rs[0].value.body], now)
    ensures TextsFrom(rs, was, now)
  {
    hide ValidUtf8;
    var rest, name := rs[1..], rs[0].value.name;
    assert name in now && now[name] == rs[0].value.body;
    forall i | 0 < i < |rs| && IsText(rs[i])
      ensures rs[i].Success? && rs[i].value.name !in was && ValidUtf8(rs[i].value.body) && rs[i].value.name != name
      ensures rs[i].value.name in now && now[rs[i].value.name] == rs[i].value.body
    {
      ResultOfRest(rs, i);
    }
    forall i, j | 0 <= i < j < |rs| && IsText(rs[i]) && IsText(rs[j])
      ensures rs[i].Success? && rs[j].Success? && rs[i].value.name != rs[j].value.name
    {
      if i > 0 {
        ResultOfRest(rs, i);
        ResultOfRest(rs, j);
      }
    }
    forall k | k in now && k !in was
      ensures exists i :: 0 <= i < |rs| && IsText(rs[i]) && rs[i].value.name == k
    {
      if k != name {
        var i :| 0 <= i < |rest| && IsText(rest[i]) && rest[i].value.name == k;
        assert IsText(rs[i + 1]) && rs[i + 1].value.name == k;
      }
    }
  }

  lemma TextsSkip(rs: Results, was: map<string, string>, now: map<string, string>)
    requires rs != [] && !IsText(rs[0])
    ensures TextsFrom(rs, was, now) <==> TextsFrom(rs[1..], was, now)
  {
    hide ValidUtf8;
    var rest := rs[1..];
    assert forall i | 0 <= i < |rest| :: rest[i] == rs[i + 1];
    assert forall i | 0 < i < |rs| :: rs[i] == rest[i - 1];
    if TextsFrom(rs, was, now) {
      forall k | k in now && k !in was
        ensures exists i :: 0 <= i < |rest| && IsText(rest[i]) && rest[i].value.name == k
      {
        var i :| 0 <= i < |rs| && IsText(rs[i]) && rs[i].value.name == k;
        assert IsText(rest[i - 1]);
      }
    }
    if TextsFrom(rest, was, now) {
      forall k | k in now && k !in was
        ensures exists i :: 0 <= i < |rs| && IsText(rs[i]) && rs[i].value.name == k
      {
        var i :| 0 <= i < |rest| && IsText(rest[i]) && rest[i].value.name == k;
        assert IsText(rs[i + 1]);
      }
    }
  }

  lemma AllGood(rs: Results)
    requires rs != []
    ensures (forall i | 0 <= i < |rs| :: rs[i].Success?)
      <==> rs[0].Success? && forall i | 0 <= i < |rs[1..]| :: rs[1..][i].Success?
  {
    assert forall i | 0 < i < |rs| :: rs[i] == rs[1..][i - 1];
    assert forall i | 0 <= i < |rs[1..]| :: rs[1..][i] == rs[i + 1];
  }

  lemma FileFirst(rs: Results, was: Form, now: Form)
    requires rs != [] && IsFile(rs[0])
    ensures FormFrom(rs, was, now) <==> FormFrom(rs[1..], was.(files := was.files + [rs[0].value]), now)
  {
    hide TextsFrom, FilesIn;
    AllGood(rs);
    TextsSkip(rs, was.fields, now.fields);
    FilesCons(rs);
    assert was.files + ([rs[0].value] + FilesIn(rs[1..])) == was.files + [rs[0].value] + FilesIn(rs[1..]);
  }

  lemma FilesCons(rs: Results)
    requires rs != []
    ensures FilesIn(rs) == (if IsFile(rs[0]) then [rs[0].value] else []) + FilesIn(rs[1..])
    ensures !IsFile(rs[0]) ==> FilesIn(rs) == FilesIn(rs[1..])
  {
  }

  lemma TextFirst(rs: Results, was: Form, now: Form)
    requires rs != [] && IsText(rs[0])
    ensures FormFrom(rs, was, now) <==>
      && rs[0].value.name !in was.fields && ValidUtf8(rs[0].value.body)
      && FormFrom(rs[1..], was.(fields := was.fields[rs[0].value.name := rs[0].value.body]), now)
  {
    hide TextsFrom, FilesIn, ValidUtf8;
    AllGood(rs);
    AddedText(rs, was.fields, now.fields);
    FilesCons(rs);
  }

  /** Adding the parts one after the other, said at once. */
  lemma {:induction false} AddedExactly(rs: Results, was: Form, now: Form)
    ensures AddParts(rs, was) == Success(now) <==> FormFrom(rs, was, now)
    decreases |rs|
  {
    hide FormFrom, ValidUtf8;
    if rs == [] {
      NothingAdded(was, now);
    } else if IsFile(rs[0]) {
      FileFirst(rs, was, now);
      AddedExactly(rs[1..], was.(files := was.files + [rs[0].value]), now);
    } else if IsText(rs[0]) {
      TextFirst(rs, was, now);
      AddedExactly(rs[1..], was.(fields := was.fields[rs[0].value.name := rs[0].value.body]), now);
    } else {
      NotAdded(rs, was, now);
    }
  }

  lemma NotAdded(rs: Results, was: Form, now: Form)
    requires rs != [] && !rs[0].Success?
    ensures !FormFrom(rs, was, now)
  {
  }

  lemma NothingAdded(was: Form, now: Form)
    ensures FormFrom([], was, now) <==> was == now
  {
    hide TextsFrom;
    NoTexts(was.fields, now.fields);
    assert was.files + [] == was.files;
  }

  lemma NoTexts(was: map<string, string>, now: map<string, string>)
    ensures TextsFrom([], was, now) <==> was == now
  {
  }

  lemma AddedText(rs: Results, was: map<string, string>, now: map<string, string>)
    requires rs != [] && IsText(rs[0])
    ensures TextsFrom(rs, was, now) <==>
      && rs[0].value.name !in was && ValidUtf8(rs[0].value.body)
      && TextsFrom(rs[1..], was[rs[0].value.name := rs[0].value.body], now)
  {
    hide TextsFrom, ValidUtf8;
    if TextsFrom(rs, was, now) {
      TextsTail(rs, was, now);
      TextsFirst(rs, was, now);
    } else if rs[0].value.name !in was && ValidUtf8(rs[0].value.body)
      && TextsFrom(rs[1..], was[rs[0].value.name := rs[0].value.body], now) {
      TextsHead(rs, was, now);
    }
  }

  lemma TextsFirst(rs: Results, was: map<string, string>, now: map<string, string>)
    requires rs != [] && IsText(rs[0]) && TextsFrom(rs, was, now)
    ensures rs[0].value.name !in was && ValidUtf8(rs[0].value.body)
  {
    hide ValidUtf8;
  }

  /** One file in the list is one place that holds a file. */
  lemma {:induction false} OneFileAt(rs: Results, f: nat)
    requires f < |rs| && IsFile(rs[f]) && forall i | 0 <= i < |rs| && i != f :: !IsFile(rs[i])
    ensures FilesIn(rs) == [rs[f].value]
    decreases f
  {
    assert forall i | 0 < i < |rs| :: rs[i] == rs[1..][i - 1];
    if f > 0 {
      OneFileAt(rs[1..], f - 1);
    } else {
      NoFiles(rs[1..]);
    }
  }

  lemma {:induction false} NoFiles(rs: Results)
    ensures FilesIn(rs) == [] <==> forall i | 0 <= i < |rs| :: !IsFile(rs[i])
    decreases |rs|
  {
    if rs != [] {
      assert forall i | 0 < i < |rs| :: rs[i] == rs[1..][i - 1];
      assert forall i | 0 <= i < |rs| - 1 :: rs[1..][i] == rs[i + 1];
      NoFiles(rs[1..]);
    }
  }

  lemma {:induction false} FileAt(rs: Results) returns (f: nat)
    requires |FilesIn(rs)| == 1
    ensures f < |rs| && IsFile(rs[f]) && FilesIn(rs) == [rs[f].value]
    ensures forall i | 0 <= i < |rs| && i != f :: !IsFile(rs[i])
    decreases |rs|
  {
    var rest := rs[1..];
    assert forall i | 0 < i < |rs| :: rs[i] == rest[i - 1];
    if IsFile(rs[0]) {
      f := 0;
      NoFiles(rest);
    } else {
      var g := FileAt(rest);
      f := g + 1;
    }
  }

  /**
   The parts say this content: one of them is the file, named `filedata`; all others are texts in UTF-8
   with different names, and the fields are these names with these texts.
   */
  ghost predicate ContentSays(parts: seq<Part>, content: Content) {
    exists f: nat :: FileIs(parts, content, f)
  }

  ghost predicate FileIs(parts: seq<Part>, content: Content, f: nat) {
    && f < |parts| && parts[f] == Part("filedata", Some(content.filename), content.fileBytes)
    && (forall i | 0 <= i < |parts| && i != f ::
          && parts[i].filename == None && ValidUtf8(parts[i].body)
          && parts[i].name in content.fields && content.fields[parts[i].name] == parts[i].body)
    && (forall i, j | 0 <= i < j < |parts| && i != f && j != f :: parts[i].name != parts[j].name)
    && (forall k | k in content.fields :: exists i :: 0 <= i < |parts| && i != f && parts[i].name == k)
  }

  function Succeeded(parts: seq<Part>): (rs: Results)
    ensures |rs| == |parts| && forall i | 0 <= i < |rs| :: rs[i] == Success(parts[i])
  {
    seq(|parts|, i requires 0 <= i < |parts| => Success(parts[i]))
  }

  lemma TextsOf(parts: seq<Part>, content: Content, f: nat)
    requires f < |parts| && parts[f].filename.Some?
    requires forall i | 0 <= i < |parts| && i != f :: parts[i].filename.None?
    ensures TextsFrom(Succeeded(parts), map[], content.fields) <==>
      && (forall i | 0 <= i < |parts| && i != f ::
            && ValidUtf8(parts[i].body)
            && parts[i].name in content.fields && content.fields[parts[i].name] == parts[i].body)
      && (forall i, j | 0 <= i < j < |parts| && i != f && j != f :: parts[i].name != parts[j].name)
      && (forall k | k in content.fields :: exists i :: 0 <= i < |parts| && i != f && parts[i].name == k)
  {
    hide ValidUtf8;
    var rs := Succeeded(parts);
    assert forall i | 0 <= i < |parts| :: IsText(rs[i]) <==> i != f;
    if TextsFrom(rs, map[], content.fields) {
      forall k | k in content.fields
        ensures exists i :: 0 <= i < |parts| && i != f && parts[i].name == k
      {
        var i :| 0 <= i < |rs| && IsText(rs[i]) && rs[i].value.name == k;
      }
    } else if forall k | k in content.fields :: exists i :: 0 <= i < |parts| && i != f && parts[i].name == k {
      forall k | k in content.fields
        ensures exists i :: 0 <= i < |rs| && IsText(rs[i]) && rs[i].value.name == k
      {
        var i :| 0 <= i < |parts| && i != f && parts[i].name == k;
        assert IsText(rs[i]);
      }
    }
  }

  lemma ContentExactly(parts: seq<Part>, content: Content)
    ensures (exists f :: AddParts(Succeeded(parts), Form(map[], [])) == Success(f) && Finish(f) == Success(content))
      <==> ContentSays(parts, content)
  {
    hide TextsFrom, AddParts, FilesIn;
    var rs := Succeeded(parts);
    if form :| AddParts(rs, Form(map[], [])) == Success(form) && Finish(form) == Success(content) {
      AddedExactly(rs, Form(map[], []), form);
      assert [] + FilesIn(rs) == FilesIn(rs);
      var f := FileAt(rs);
      TextsOf(parts, content, f);
      assert FileIs(parts, content, f);
    }
    if f: nat :| FileIs(parts, content, f) {
      var form := Form(content.fields, [parts[f]]);
      OneFileAt(rs, f);
      TextsOf(parts, content, f);
      assert [] + FilesIn(rs) == FilesIn(rs);
      AddedExactly(rs, Form(map[], []), form);
    }
  }

  // ---------------------------------------------------------------- the body

  /** The closing segment: two dashes, and a line break or nothing. */
  predicate Closes(segment: string) {
    segment == "--" || segment == "--\r\n" || segment == "--\n"
  }

  ghost predicate PartsRead(segments: seq<string>, parts: seq<Part>) {
    |segments| == |parts| + 2 && forall i | 0 <= i < |parts| :: PartSays(segments[i + 1], parts[i])
  }

  /** Nothing before the first delimiter, a closing segment behind the last, parts between that say the content. */
  ghost predicate SegmentsSay(segments: seq<string>, content: Content) {
    && 3 <= |segments| && segments[0] == "" && Closes(segments[|segments| - 1])
    && exists parts :: PartsRead(segments, parts) && ContentSays(parts, content)
  }

  lemma ClosesIs(segment: string)
    ensures Terminator(segment) <==> Closes(segment)
  {
    assert "--" + CRLF == "--\r\n" && "--" + LF == "--\n";
  }

  lemma EachRead(segments: seq<string>, parts: seq<Part>)
    requires 2 <= |segments|
    ensures PartsRead(segments, parts) <==> ReadEach(segments[1..|segments| - 1]) == Succeeded(parts)
  {
    hide ReadPart, PartSays;
    var inner := segments[1..|segments| - 1];
    forall i | 0 <= i < |inner| && i < |parts|
      ensures PartSays(segments[i + 1], parts[i]) <==> ReadEach(inner)[i] == Success(parts[i])
    {
      PartExactly(segments[i + 1], parts[i]);
    }
    if PartsRead(segments, parts) {
      assert ReadEach(inner) == Succeeded(parts);
    } else if ReadEach(inner) == Succeeded(parts) {
      forall i | 0 <= i < |parts|
        ensures PartSays(segments[i + 1], parts[i])
      {
        assert ReadEach(inner)[i] == Succeeded(parts)[i];
      }
    }
  }

  /** When all parts can be added, all could be read. */
  lemma PartsOf(rs: Results, form: Form) returns (parts: seq<Part>)
    requires AddParts(rs, Form(map[], [])) == Success(form)
    ensures rs == Succeeded(parts)
  {
    hide TextsFrom;
    AddedExactly(rs, Form(map[], []), form);
    parts := seq(|rs|, i requires 0 <= i < |rs| => rs[i].value);
  }

  lemma SegmentsExactly(segments: seq<string>, content: Content)
    ensures ReadSegments(segments) == Success(content) <==> SegmentsSay(segments, content)
  {
    hide ReadEach, AddParts, Finish, Terminator, Closes, ContentSays, PartsRead;
    if 3 <= |segments| && segments[0] == "" {
      ClosesIs(segments[|segments| - 1]);
      var rs := ReadEach(segments[1..|segments| - 1]);
      if ReadSegments(segments) == Success(content) {
        var form := AddParts(rs, Form(map[], [])).value;
        var parts := PartsOf(rs, form);
        EachRead(segments, parts);
        ContentExactly(parts, content);
      }
      if SegmentsSay(segments, content) {
        var parts :| PartsRead(segments, parts) && ContentSays(parts, content);
        EachRead(segments, parts);
        ContentExactly(parts, content);
      }
    }
  }

  /** The body starts with the delimiter and a line break, and what stands between the delimiters says the content. */
  ghost predicate BodySays(body: string, boundary: string, content: Content) {
    var d := "--" + boundary;
    (StartsWith(body, d + "\r\n") || StartsWith(body, d + "\n")) && SegmentsSay(Split(body, d), content)
  }

  lemma BodyExactly(body: string, boundary: string, content: Content)
    ensures ReadBody(body, boundary) == Success(content) <==> BodySays(body, boundary, content)
  {
    hide ReadSegments, Split, SegmentsSay, StartsWith;
    SegmentsExactly(Split(body, Delimiter(boundary)), content);
    assert CRLF == "\r\n" && LF == "\n";
  }

  // ---------------------------------------------------------------- the head

  /** `POST /path HTTP/1.1` in ASCII. */
  predicate RequestSays(line: string, path: string) {
    && (forall i | 0 <= i < |line| :: line[i] < 128 as char)
    && Words(line) == ["POST", path, "HTTP/1.1"] && path != "" && path[0] == '/'
  }

  lemma RequestExactly(line: string, path: string)
    ensures ReadRequestLine(line) == Success(path) <==> RequestSays(line, path)
  {
    hide Words;
    assert StartsWith(path, "/") <==> path != "" && path[0] == '/' by {
      if path != "" {
        assert path[..1] == [path[0]];
      }
    }
    var words := Words(line);
    if |words| == 3 {
      assert words == [words[0], words[1], words[2]];
    }
  }

  /** `multipart/form-data`, and among the parameters behind it a first `boundary` of visible characters. */
  predicate TypeSays(value: string, boundary: string) {
    var items := StripAll(Split(value, ";"));
    Lower(items[0]) == "multipart/form-data" && boundary == FirstText(items[1..], "boundary") && GoodBoundary(boundary)
  }

  lemma TypeExactly(value: string, boundary: string)
    ensures ContentBoundary(value) == Success(boundary) <==> TypeSays(value, boundary)
  {
    hide Split, Strip, Lower, BoundaryParameter, FirstText, PrintableBoundary, GoodBoundary;
    var items := StripAll(Split(value, ";"));
    BoundaryRead(items[1..]);
    BoundaryIsGood(FirstText(items[1..], "boundary"));
  }

  /** The request line, then header lines with different keys, the Content-Type naming the boundary. */
  ghost predicate HeadSays(text: string, head: Head) {
    var lines := LinesOf(text);
    && RequestSays(lines[0], head.path) && HeadersSay(lines[1..], head.headers)
    && TypeSays(if "content-type" in head.headers then head.headers["content-type"] else "", head.boundary)
  }

  lemma HeadExactly(text: string, head: Head)
    ensures ReadHead(text) == Success(head) <==> HeadSays(text, head)
  {
    hide Split, ReadHeaders, HeadersSay, ReadRequestLine, RequestSays, ContentBoundary, TypeSays;
    LinesAre(text);
    var lines := LinesOf(text);
    RequestExactly(lines[0], head.path);
    HeadersExactly(lines[1..], head.headers);
    TypeExactly(Get(head.headers, "content-type"), head.boundary);
    if ReadRequestLine(lines[0]).Success? && ReadHeaders(lines[1..], map[]).Success? {
      RequestExactly(lines[0], ReadRequestLine(lines[0]).value);
      HeadersExactly(lines[1..], ReadHeaders(lines[1..], map[]).value);
    }
  }

  /** The whole grammar. */
  ghost predicate SeedSays(raw: string, r: Seed) {
    && HasBlankLine(raw) && HeadSays(BeforeBlank(raw), r.head)
    && BodySays(BehindBlank(raw), r.head.boundary, r.content)
  }

  /** The parser accepts exactly the seeds of the grammar, and reads what they say. */
  lemma ParseExactly(raw: string, r: Seed)
    ensures Parse(raw) == Success(r) <==> SeedSays(raw, r)
  {
    hide ReadHead, ReadBody, HeadSays, BodySays, HasBlankLine, BeforeBlank, BehindBlank, BlankLine, Cut;
    BlankIs(raw);
    if HasBlankLine(raw) {
      HeadExactly(BeforeBlank(raw), r.head);
      BodyExactly(BehindBlank(raw), r.head.boundary, r.content);
    }
  }

  // ---------------------------------------------------------------- file names

  /** The file name of an accepted seed is no path: whatever wrote the seed. */
  lemma AcceptedFilename(raw: string, r: Seed)
    requires Parse(raw) == Success(r)
    ensures var name := r.content.filename;
      && name != "" && name != "." && name != ".." && '/' !in name && '\\' !in name
      && forall i | 0 <= i < |name| :: 32 as char <= name[i] && name[i] != 127 as char
  {
    hide HeadSays, HasBlankLine, BeforeBlank, BehindBlank, Split, StartsWith, PartSays;
    ParseExactly(raw, r);
    var segments := Split(BehindBlank(raw), "--" + r.head.boundary);
    assert SegmentsSay(segments, r.content);
    var parts :| PartsRead(segments, parts) && ContentSays(parts, r.content);
    var f: nat :| FileIs(parts, r.content, f);
    assert PartSays(segments[f + 1], parts[f]);
    PartFilename(segments[f + 1], parts[f]);
  }

  lemma PartFilename(segment: string, part: Part)
    requires PartSays(segment, part) && part.filename.Some?
    ensures GoodFilename(part.filename.value)
  {
    hide HasBlankLine, BeforeBlank, BehindBlank, WithoutBreak, LinesOf, LastValue, GoodLine, Split, Strip, LastIndex,
      HasName, TextOf, Lower, WithoutEnd;
  }
}
