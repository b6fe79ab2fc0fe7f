/**
 Arm 1 replaces the first literal `boundary=B` of the header block, wherever that stands.  When it
 is not the parameter the parser reads, the parser still expects the old boundary, or refuses the head.
 */
module MultipartRedelimitExact {
  import opened Wrappers
  import opened ByteStrings
  import opened MultipartParser
  import opened MultipartMutator
  import opened MultipartArms
  import opened MultipartAppend
  import opened MultipartRedelimit

  // ---------------------------------------------------------------- a literal inside pieces

  /** Occurrences of texts without a common character do not overlap. */
  lemma NoOverlap(s: string, x: string, k: nat, d: string, f: nat)
    requires OccursAt(s, x, k) && OccursAt(s, d, f) && Foreign(x, d) && x != "" && d != ""
    ensures k + |x| <= f || f + |d| <= k
  {
    hide OccursAt;
    if f < k + |x| && k < f + |d| {
      var t := if k < f then f else k;
      OccursFits(s, x, k);
      PieceChar(s, x, k, t - k);
      PieceChar(s, d, f, t - f);
      assert false;
    }
  }

  lemma OccursDrop(s: string, n: nat, x: string, k: nat)
    requires OccursAt(s, x, k) && n <= k
    ensures OccursAt(s[n..], x, k - n)
  {
    assert s[n..][k - n..k - n + |x|] == s[k..k + |x|];
  }

  lemma OccursTake(s: string, n: nat, x: string, k: nat)
    requires OccursAt(s, x, k) && k + |x| <= n <= |s|
    ensures OccursAt(s[..n], x, k)
  {
    assert s[..n][k..k + |x|] == s[k..k + |x|];
  }

  /** Text without a character of the delimiter lies within one piece. */
  lemma {:induction false} PieceHolding(s: string, d: string, x: string, k: nat) returns (i: nat, q: nat)
    requires d != "" && x != "" && OccursAt(s, x, k) && Foreign(x, d)
    ensures var parts := Split(s, d);
      i < |parts| && OccursAt(parts[i], x, q) && k == Offset(parts, d, i) + q
    decreases |s|
  {
    hide OccursAt, Find, Split, Foreign;
    SplitCut(s, d);
    var f := Find(s, d);
    i, q := 0, k;
    if 0 <= f {
      NoOverlap(s, x, k, d, f);
      if k + |x| <= f {
        OccursTake(s, f, x, k);
      } else {
        var n := f + |d|;
        OccursDrop(s, n, x, k);
        i, q := PieceHolding(s[n..], d, x, k - n);
        i := i + 1;
        assert Split(s, d)[1..] == Split(s[n..], d);
      }
    }
  }

  /** Text whose ends are not dropped survives a trim. */
  lemma OccursInTrim(s: string, drop: char -> bool, x: string, q: nat)
    requires OccursAt(s, x, q) && x != "" && !drop(x[0]) && !drop(x[|x| - 1])
    ensures var n := |s| - |TrimLeft(s, drop)|;
      n <= q && OccursAt(Trim(s, drop), x, q - n)
  {
    hide Trim, TrimLeft, OccursAt;
    var lo, hi := TrimPlace(s, drop);
    OccursFits(s, x, q);
    PieceChar(s, x, q, 0);
    PieceChar(s, x, q, |x| - 1);
    assert lo <= q && q + |x| <= hi;
    OccursTake(s, hi, x, q);
    OccursDrop(s[..hi], lo, x, q);
    assert s[..hi][lo..] == s[lo..hi];
  }

  // ---------------------------------------------------------------- the literal

  function Literal(boundary: string): string {
    MARKER + boundary
  }

  /** What matters about the characters of the literal. */
  lemma LiteralChars(boundary: string)
    requires PrintableBoundary(boundary)
    ensures var x := Literal(boundary);
      && |x| == 9 + |boundary| && x[8] == '=' && x[7] == 'y' && !IsSpace('y')
      && (forall i | 0 <= i < 8 :: x[i] != '=' && x[i] != ':')
      && !IsSpace(x[0]) && x[0] != '"' && !IsSpace(x[|x| - 1]) && x[|x| - 1] == boundary[|boundary| - 1]
  {
    MarkerChars(boundary);
    MarkerWord();
    forall i | 0 <= i < 9
      ensures Literal(boundary)[i] == MARKER[i]
    {
    }
    assert Literal(boundary)[9 + (|boundary| - 1)] == boundary[|boundary| - 1];
  }

  lemma MarkerWord()
    ensures |MARKER| == 9 && MARKER[0] == 'b' && MARKER[7] == 'y' && MARKER[8] == '='
    ensures forall i | 0 <= i < 8 :: MARKER[i] != '=' && MARKER[i] != ':'
  {
  }

  lemma LiteralForeign(boundary: string)
    requires PrintableBoundary(boundary)
    ensures Foreign(Literal(boundary), CRLF) && Foreign(Literal(boundary), LF)
    ensures ';' !in boundary ==> Foreign(Literal(boundary), ";")
  {
    var x := Literal(boundary);
    assert ';' !in MARKER && '\r' !in MARKER && '\n' !in MARKER;
    forall i | 0 <= i < |x|
      ensures x[i] !in CRLF && x[i] !in LF && (';' !in boundary ==> x[i] !in ";")
    {
      if i < 9 {
        assert x[i] == MARKER[i];
      } else {
        assert x[i] == boundary[i - 9];
      }
    }
  }

  // ---------------------------------------------------------------- inside one parameter

  /** In the parameter that gives B, the literal can only stand at the front. */
  lemma LiteralInFront(item: string, boundary: string, q: nat)
    requires item != "" && !IsSpace(item[0]) && PrintableBoundary(boundary)
    requires ReadItem(item) == Some((WORD, boundary)) && OccursAt(item, Literal(boundary), q)
    ensures q == 0
  {
    hide Trim, Lower, Find, OccursAt, PrintableBoundary, Literal, IsSpace;
    var x := Literal(boundary);
    var e := Find(item, "=");
    LiteralChars(boundary);
    OccursFits(item, x, q);
    PieceChar(item, x, q, 8);
    PieceChar(item, x, q, 7);
    OccursChar(item, '=', q + 8);
    OccursChar(item, '=', e);
    assert ['='] == "=";
    if e == q + 8 {
      KeyAlone(item[..e]);
    } else {
      assert e < q + 8;
      if q <= e {
        PieceChar(item, x, q, e - q);
        assert false;
      }
      OccursDrop(item, e + 1, x, q);
      TooLongForValue(item[e + 1..], boundary, q - e - 1);
    }
  }

  lemma KeyAlone(key: string)
    requires Lower(Strip(key)) == WORD && key != "" && !IsSpace(key[0]) && !IsSpace(key[|key| - 1])
    ensures |key| == 8
  {
    hide Trim, Lower;
    TrimKeeps(key, IsSpace);
    assert |WORD| == 8;
  }

  lemma TooLongForValue(value: string, boundary: string, q: nat)
    requires StripQuotes(Strip(value)) == boundary && PrintableBoundary(boundary)
    ensures !OccursAt(value, Literal(boundary), q)
  {
    hide Trim, TrimLeft, OccursAt, Literal;
    var drop := (c: char) => c == '"';
    LiteralChars(boundary);
    if OccursAt(value, Literal(boundary), q) {
      OccursInTrim(value, IsSpace, Literal(boundary), q);
      var n := |value| - |TrimLeft(value, IsSpace)|;
      TrimContained(Strip(value), drop);
      OccursInTrim(Strip(value), drop, Literal(boundary), q - n);
      OccursFits(boundary, Literal(boundary), q - n - (|Strip(value)| - |TrimLeft(Strip(value), drop)|));
    }
  }

  /** `-nv` behind the literal leaves the key of a parameter as it is. */
  lemma KeyKept(item: string, boundary: string, q: nat)
    requires PrintableBoundary(boundary) && OccursAt(item, Literal(boundary), q)
    ensures var n := q + 9 + |boundary|;
      n <= |item| && (NamesBoundary(Ins(item, n)) <==> NamesBoundary(item))
  {
    hide Trim, Lower, Find, OccursAt, PrintableBoundary, Literal, Ins;
    var x := Literal(boundary);
    LiteralChars(boundary);
    OccursFits(item, x, q);
    PieceChar(item, x, q, 8);
    OccursChar(item, '=', q + 8);
    assert ['='] == "=";
    CutIns(item, "=", q + 9 + |boundary|);
  }

  // ---------------------------------------------------------------- inside the Content-Type value

  lemma {:induction false} BoundaryFirst(items: seq<string>, m: nat, boundary: string)
    requires m < |items| && ReadItem(items[m]) == Some((WORD, boundary))
    requires forall i | 0 <= i < m :: !NamesBoundary(items[i])
    ensures BoundaryParameter(items) == boundary
  {
    hide ReadItem;
    assert items[m := items[m]] == items;
    BoundaryReplaced(items, m, items[m], boundary);
  }

  lemma NoEquals(item: string)
    requires Lower(item) == "multipart/form-data"
    ensures '=' !in item
  {
    hide Lower;
    if '=' in item {
      LowerHas(item, '=');
    }
  }

  lemma OccursIn(s: string, x: string, q: nat, i: nat)
    requires OccursAt(s, x, q) && i < |x|
    ensures x[i] in s
  {
    PieceChar(s, x, q, i);
  }

  /** Parameter `m` is the first that names the boundary, and it gives B. */
  predicate NamedBy(value: string, m: nat, boundary: string) {
    var items := StripAll(Split(value, ";"));
    && 1 <= m < |items| && ReadItem(items[m]) == Some((WORD, boundary)) && PrintableBoundary(boundary)
    && Lower(items[0]) == "multipart/form-data"
    && forall i | 1 <= i < m :: !NamesBoundary(items[i])
  }

  /** The parameter that holds the literal, with `-nv` put in behind it. */
  lemma ParameterHolding(value: string, boundary: string, q: nat) returns (i: nat, at: nat)
    requires PrintableBoundary(boundary) && ';' !in boundary && OccursAt(value, Literal(boundary), q)
    ensures var params := Split(value, ";");
      var n := at + 9 + |boundary|;
      && i < |params| && OccursAt(Strip(params[i]), Literal(boundary), at) && n <= |Strip(params[i])|
      && q == Offset(params, ";", i) + LeadSpace(params[i]) + at && q + 9 + |boundary| <= |value|
      && StripAll(Split(Ins(value, q + 9 + |boundary|), ";"))
        == StripAll(params)[i := Ins(Strip(params[i]), n)]
  {
    hide Split, Trim, TrimLeft, OccursAt, Literal, PrintableBoundary, Ins, Offset, IsSpace;
    var x := Literal(boundary);
    LiteralChars(boundary);
    LiteralForeign(boundary);
    OccursFits(value, x, q);
    var q0: nat;
    i, q0 := PieceHolding(value, ";", x, q);
    var params := Split(value, ";");
    var raw := params[i];
    var a := q0 + 9 + |boundary|;
    OccursFits(raw, x, q0);
    PieceChar(raw, x, q0, |x| - 1);
    OccursInTrim(raw, IsSpace, x, q0);
    at := q0 - LeadSpace(raw);
    OccursFits(Strip(raw), x, at);
    StripIns(raw, a);
    SplitLacks(value, ";", i, a - 1);
    SuffixForeign(";");
    SplitIns(value, ";", i, a);
    StripAllReplaced(params, i, Ins(raw, a));
  }

  /** With the literal away from the parameter that names it, the value still gives B. */
  lemma ValueElsewhere(value: string, m: nat, boundary: string, q: nat)
    requires NamedBy(value, m, boundary) && ';' !in boundary && OccursAt(value, Literal(boundary), q)
    requires q != Offset(Split(value, ";"), ";", m) + LeadSpace(Split(value, ";")[m])
    ensures q + 9 + |boundary| <= |value|
    ensures ContentBoundary(Ins(value, q + 9 + |boundary|)) == Success(boundary)
  {
    hide Split, Strip, TrimLeft, OccursAt, Literal, PrintableBoundary, Ins, Offset, LeadSpace, ReadItem, Lower,
      BoundaryParameter, NamesBoundary, IsSpace;
    var i, at := ParameterHolding(value, boundary, q);
    var items := StripAll(Split(value, ";"));
    var now := Ins(items[i], at + 9 + |boundary|);
    if i == 0 {
      NoEquals(items[0]);
      LiteralChars(boundary);
      OccursIn(items[0], Literal(boundary), at, 8);
      assert false;
    }
    if i == m {
      StrippedEnds(Split(value, ";")[m], boundary);
      LiteralInFront(items[m], boundary, at);
      assert false;
    }
    KeyKept(items[i], boundary, at);
    ItemsElsewhere(items, i, now, m, boundary);
  }

  lemma ItemsElsewhere(items: seq<string>, i: nat, now: string, m: nat, boundary: string)
    requires 1 <= i < |items| && 1 <= m < |items| && i != m
    requires ReadItem(items[m]) == Some((WORD, boundary))
    requires forall l | 1 <= l < m :: !NamesBoundary(items[l])
    requires NamesBoundary(now) <==> NamesBoundary(items[i])
    ensures BoundaryParameter(items[i := now][1..]) == boundary && items[i := now][0] == items[0]
  {
    hide ReadItem, NamesBoundary, BoundaryParameter;
    var rest := items[i := now][1..];
    assert rest[m - 1] == items[m];
    forall l | 0 <= l < m - 1
      ensures !NamesBoundary(rest[l])
    {
      assert !NamesBoundary(items[l + 1]);
      assert rest[l] == if l + 1 == i then now else items[l + 1];
    }
    BoundaryFirst(rest, m - 1, boundary);
  }

  // ---------------------------------------------------------------- inside the header block

  lemma KeyNoEquals(key: string)
    requires Lower(Strip(key)) == "content-type"
    ensures '=' !in key
  {
    hide Trim, Lower;
    if '=' in key {
      TrimKeepsChar(key, IsSpace, '=');
      LowerHas(Strip(key), '=');
    }
  }

  lemma TypeLineKey(line: string)
    requires IsTypeLine(line)
    ensures Contains(line, ":") && '=' !in line[..Find(line, ":")]
  {
    hide Strip, Lower, Find, IsAscii;
    KeyNoEquals(line[..Find(line, ":")]);
  }

  lemma NotBefore(s: string, n: nat, c: char, i: nat)
    requires n <= |s| && i < |s| && c !in s[..n] && s[i] == c
    ensures n <= i
  {
    forall j | 0 <= j < n
      ensures s[j] != c
    {
      assert s[..n][j] == s[j];
    }
  }

  lemma BehindColon(line: string, boundary: string, q: nat)
    requires IsTypeLine(line) && PrintableBoundary(boundary) && OccursAt(line, Literal(boundary), q)
    ensures Contains(line, ":") && Find(line, ":") < q
  {
    hide ReadLine, OccursAt, Literal, PrintableBoundary, Find, IsSpace;
    var x := Literal(boundary);
    TypeLineKey(line);
    LiteralChars(boundary);
    var c := Find(line, ":");
    OccursChar(line, ':', c);
    assert [':'] == ":";
    OccursFits(line, x, q);
    PieceChar(line, x, q, 8);
    NotBefore(line, c, '=', q + 8);
    if q <= c {
      PieceChar(line, x, q, c - q);
      assert false;
    }
  }

  /** A literal on the Content-Type line lies in its value. */
  lemma LineHolding(line: string, value: string, boundary: string, q: nat) returns (at: nat)
    requires ReadLine(line) == Some(("content-type", value)) && PrintableBoundary(boundary)
    requires OccursAt(line, Literal(boundary), q)
    ensures Contains(line, ":") && q == LinePosition(line, 0) + at && OccursAt(value, Literal(boundary), at)
  {
    hide ReadLine, Trim, TrimLeft, OccursAt, Literal, PrintableBoundary, Find, IsSpace;
    LineValue(line, "content-type", value);
    LiteralChars(boundary);
    BehindColon(line, boundary, q);
    var n := Find(line, ":") + 1;
    OccursDrop(line, n, Literal(boundary), q);
    OccursInTrim(line[n..], IsSpace, Literal(boundary), q - n);
    at := q - LinePosition(line, 0);
  }

  /** The head after a replacement away from the parameter: refused, or still with the old boundary. */
  ghost predicate StillOld(header: string, boundary: string) {
    var head := ReadHead(header);
    head.Failure? || head.value.boundary == boundary
  }

  /** The header line that holds the literal, with `-nv` put in behind it. */
  lemma HeaderHolding(header: string, boundary: string, k: nat) returns (l: nat, q: nat)
    requires PrintableBoundary(boundary) && OccursAt(header, Literal(boundary), k)
    ensures var lines := Split(header, LineBreak(header));
      var n := q + 9 + |boundary|;
      && l < |lines| && OccursAt(lines[l], Literal(boundary), q) && n <= |lines[l]|
      && k == Offset(lines, LineBreak(header), l) + q && k + 9 + |boundary| <= |header|
      && var now := Ins(header, k + 9 + |boundary|);
      && LineBreak(now) == LineBreak(header)
      && Split(now, LineBreak(header)) == lines[l := Ins(lines[l], n)]
  {
    hide Split, OccursAt, Literal, PrintableBoundary, Ins, Offset, Contains, IsSpace;
    var x := Literal(boundary);
    var lb := LineBreak(header);
    LiteralChars(boundary);
    LiteralForeign(boundary);
    OccursFits(header, x, k);
    l, q := PieceHolding(header, lb, x, k);
    var lines := Split(header, lb);
    OccursFits(lines[l], x, q);
    PieceChar(lines[l], x, q, |x| - 1);
    LinesIns(header, l, q + 9 + |boundary|);
  }

  /** Another header line changes: if the head is still accepted, the Content-Type is as before. */
  lemma OtherLine(lines: seq<string>, l: nat, now: string, j: nat, value: string, boundary: string)
    requires l < |lines| && 1 <= j < |lines| && l != j
    requires ReadLine(lines[j]) == Some(("content-type", value)) && ContentBoundary(value) == Success(boundary)
    requires ReadHeaders(lines[l := now][1..], map[]).Success?
    ensures ContentBoundary(Get(ReadHeaders(lines[l := now][1..], map[]).value, "content-type")) == Success(boundary)
  {
    hide ReadLine, ReadHeaders, ContentBoundary;
    var rest := lines[l := now][1..];
    assert rest[j - 1] == lines[j];
    HeaderValue(rest, map[], j - 1);
  }

  /** With the literal away from the parameter, the changed head does not give the new boundary. */
  lemma HeadElsewhere(header: string, head: Head, k: nat)
    requires ReadHead(header) == Success(head) && OccursAt(header, Literal(head.boundary), k)
    requires k != BoundaryPosition(header)
    ensures k + 9 + |head.boundary| <= |header|
    ensures StillOld(Ins(header, k + 9 + |head.boundary|), head.boundary)
  {
    hide Split, ReadLine, ReadHeaders, ReadRequestLine, ContentBoundary, OccursAt, Literal, PrintableBoundary, Ins,
      Offset, BoundaryPosition, LinePosition, ReadItem, Strip, LeadSpace, LineBreak, Lower, NamesBoundary;
    var boundary := head.boundary;
    var j, m := ContentTypeAt(header, head);
    var l, q := HeaderHolding(header, boundary, k);
    var lines := Split(header, LineBreak(header));
    var value := head.headers["content-type"];
    var now := Ins(lines[l], q + 9 + |boundary|);
    if l == j {
      LineElsewhere(header, head, j, m, q);
    } else if ReadHeaders(lines[l := now][1..], map[]).Success? {
      OtherLine(lines, l, now, j, value, boundary);
    }
  }

  lemma LineElsewhere(header: string, head: Head, j: nat, m: nat, q: nat)
    requires ReadHead(header) == Success(head) && "content-type" in head.headers
    requires var lines := Split(header, LineBreak(header));
      var value := head.headers["content-type"];
      && 1 <= j < |lines| && ReadLine(lines[j]) == Some(("content-type", value))
      && NamedBy(value, m, head.boundary) && OccursAt(lines[j], Literal(head.boundary), q)
      && Contains(lines[j], ":")
      && Offset(lines, LineBreak(header), j) + q != ParameterPosition(header, j, value, m)
    ensures var n := Offset(Split(header, LineBreak(header)), LineBreak(header), j) + q + 9 + |head.boundary|;
      n <= |header| && StillOld(Ins(header, n), head.boundary)
  {
    hide Split, ReadLine, ReadHead, ContentBoundary, OccursAt, Literal, PrintableBoundary, Ins, Offset, ReadItem,
      Strip, LeadSpace, LineBreak, Lower, NamesBoundary;
    var boundary := head.boundary;
    var line := Split(header, LineBreak(header))[j];
    var value := head.headers["content-type"];
    LiteralChars(boundary);
    var at := LineHolding(line, value, boundary, q);
    NoSemicolon(value, m, boundary);
    ValueElsewhere(value, m, boundary, at);
    OccursFits(value, Literal(boundary), at);
    PieceChar(value, Literal(boundary), at, |Literal(boundary)| - 1);
    var end := at + 9 + |boundary|;
    HeadIns(header, head, j, value, end, boundary);
  }

  // ---------------------------------------------------------------- arm 1

  /** A literal away from the parameter: the body gets a delimiter the head does not name. */
  lemma RedelimitedElsewhere(seed: string, r: Seed, v: View)
    requires Agree(seed, r, v) && Contains(v.header, MARKER + v.boundary)
    requires Find(v.header, MARKER + v.boundary) != BoundaryPosition(v.header)
    ensures Parse(Redelimit(v)).Failure?
  {
    hide ReadHead, ReadBody, ReadSegments, Find, Split, BlankLine, Clean, ViewSeed, ViewFile, Parse, StartsWith,
      BoundaryPosition, Ins, ReplaceFirst, Join, Contains, OccursAt;
    AcceptedView(seed, r, v);
    BoundaryPrintable(seed, r);
    AcceptedBody(v.body, v.boundary, r.content);
    ReplaceIsIns(v.header, v.boundary);
    AfterBoundary(v.header, v.boundary);
    LiteralFound(v.header, v.boundary);
    var n := Find(v.header, MARKER + v.boundary) + 9 + |v.boundary|;
    var header := Ins(v.header, n);
    HeadElsewhere(v.header, r.head, Find(v.header, MARKER + v.boundary));
    HeadEnd(v.header, v.sep, n);
    RedelimitedBlankLine(v, header);
    WrongDelimiter(v.parts, v.boundary);
    ParseJoined(header, v.sep, Join(v.parts, Delimiter(NewBoundary(v.boundary))));
  }

  lemma LiteralFound(header: string, boundary: string)
    requires Contains(header, MARKER + boundary)
    ensures 0 <= Find(header, MARKER + boundary)
    ensures OccursAt(header, Literal(boundary), Find(header, MARKER + boundary))
  {
  }

  /**
   Arm 1 keeps the fields, the file name and the file bytes, under the boundary `B-nv`, exactly when
   the first literal `boundary=B` of the header block is the parameter that the parser reads.
   In every other case the result is refused.
   */
  lemma RedelimitExactly(seed: string, r: Seed, v: View, c: char, maxSize: nat)
    requires Agree(seed, r, v) && Untruncated(Redelimit(v), maxSize)
    ensures var out := Parse(Mutate(seed, 1, c, maxSize));
      var k := Find(v.header, MARKER + v.boundary);
      if 0 <= k && k == BoundaryPosition(v.header)
      then out.Success? && out.value.content == r.content && Redelimited(r.head, out.value.head)
      else out.Failure?
  {
    hide Parse, ViewSeed, Redelimited, Find, BoundaryPosition;
    if !Contains(v.header, MARKER + v.boundary) {
      RedelimitRefused(seed, r, v);
    } else if Find(v.header, MARKER + v.boundary) == BoundaryPosition(v.header) {
      RedelimitedParsed(seed, r, v);
    } else {
      RedelimitedElsewhere(seed, r, v);
    }
  }
}
