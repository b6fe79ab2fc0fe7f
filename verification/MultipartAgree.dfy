/**
 When the mutator reads the boundary that the parser reads.  The mutator takes the rest of the
 Content-Type line behind `boundary=`; the parser splits the header value into parameters.
 */
module MultipartAgree {
  import opened Wrappers
  import opened ByteStrings
  import opened MultipartParser
  import opened MultipartMutator
  import opened MultipartRedelimit

  // ---------------------------------------------------------------- trimming

  /** Text between its own trimmed form and trimmed rest trims to the same. */
  lemma TrimBehind(s: string, tail: string, drop: char -> bool)
    requires s != "" && !drop(s[|s| - 1]) && forall i | 0 <= i < |tail| :: drop(tail[i])
    ensures Trim(s + tail, drop) == Trim(s, drop)
  {
    hide Trim, TrimLeft;
    var lo, hi := TrimPlace(s, drop);
    assert hi == |s|;
    TrimIs(s + tail, drop, lo, hi);
    assert (s + tail)[lo..hi] == s[lo..hi];
  }

  /** Bytes and text trim alike, or what the bytes keep has an edge that only text takes for space. */
  lemma TrimAlike(s: string)
    requires Trim(s, IsByteSpace) != Strip(s)
    ensures var y := Trim(s, IsByteSpace);
      y == "" || exists c :: c in y && 28 as char <= c <= 31 as char
  {
    hide Trim, TrimLeft;
    var lo, hi := TrimPlace(s, IsByteSpace);
    var y := Trim(s, IsByteSpace);
    if y != "" {
      assert y[0] == s[lo] && y[|y| - 1] == s[hi - 1];
      if !IsSpace(s[lo]) && !IsSpace(s[hi - 1]) {
        TrimIs(s, IsSpace, lo, hi);
      } else if IsSpace(s[lo]) {
        assert y[0] in y;
      } else {
        assert y[|y| - 1] in y;
      }
    }
  }

  // ---------------------------------------------------------------- the mutator's line

  /** Where the mutator looks: the Content-Type line and the place of `boundary=` in it, or -1. */
  function MutatorLine(header: string): string {
    ContentTypeLine(Split(header, LineBreak(header)))
  }

  function MutatorPlace(header: string): (k: int)
    ensures k < 0 || k + 9 <= |MutatorLine(header)|
  {
    Find(Lower(MutatorLine(header)), MARKER)
  }

  /**
   The line starts with `Content-Type:`, `boundary=` stands on it without space before the equals
   sign, no other parameter follows, and the value has the same edges as bytes and as text.
   */
  predicate PlainParameter(header: string) {
    var k := MutatorPlace(header);
    && 0 <= k
    && var tail := MutatorLine(header)[k + 9..];
    && ';' !in tail && Trim(tail, IsByteSpace) == Strip(tail)
  }

  const LEAD := "content-type:"

  lemma {:induction false} LineChosen(lines: seq<string>) returns (i: nat)
    requires ContentTypeLine(lines) != ""
    ensures i < |lines| && lines[i] == ContentTypeLine(lines) && StartsWith(Lower(lines[i]), LEAD)
    decreases |lines|
  {
    hide Lower;
    if StartsWith(Lower(lines[0]), "content-type:") {
      i := 0;
    } else {
      var n := LineChosen(lines[1..]);
      i := n + 1;
    }
  }

  lemma LeadSplit(s: string, key: string, c: char)
    requires StartsWith(s, key + [c])
    ensures |key| < |s| && s[..|key|] == key && s[|key|] == c
  {
    var n := |key|;
    assert s[..n + 1][..n] == s[..n];
    assert (key + [c])[n] == c;
  }

  lemma LeadChars(line: string, key: string, c: char)
    requires StartsWith(Lower(line), key + [c]) && key != "" && c !in key && LowerChar(c) == c
    ensures var n := |key|;
      && n < |line| && Lower(line[..n]) == key && LowerChar(line[n]) == c && c !in line[..n]
      && LowerChar(line[0]) == key[0] && LowerChar(line[n - 1]) == key[n - 1]
  {
    hide Lower, StartsWith;
    var n := |key|;
    var lower := Lower(line);
    LeadSplit(lower, key, c);
    LowerSlice(line, 0, n);
    assert line[0..n] == line[..n] && lower[0..n] == lower[..n];
    if c in line[..n] {
      LowerHas(line[..n], c);
    }
    assert lower[0] == lower[..n][0] && lower[n - 1] == lower[..n][n - 1];
  }

  const CONTENT_TYPE := "content-type"

  lemma ContentTypeChars()
    ensures ':' !in CONTENT_TYPE && CONTENT_TYPE[0] == 'c' && CONTENT_TYPE[|CONTENT_TYPE| - 1] == 'e'
    ensures CONTENT_TYPE + [':'] == LEAD && CONTENT_TYPE != "" && LowerChar(':') == ':'
  {
  }

  lemma LeadKey(line: string, key: string, value: string)
    requires StartsWith(Lower(line), LEAD) && ReadLine(line) == Some((key, value))
    ensures key == CONTENT_TYPE
  {
    hide Lower, Find, Trim, Cut, StartsWith;
    ContentTypeChars();
    LeadChars(line, CONTENT_TYPE, ':');
    var n := |CONTENT_TYPE|;
    var p, q := line[..n], line[n + 1..];
    assert line[n] == ':';
    assert line == p + [':'] + q;
    CutChar(p, ':', q);
    assert [':'] == ":";
    assert p[0] == line[0] && p[|p| - 1] == line[n - 1];
    TrimKeeps(p, IsSpace);
  }

  lemma RequestLineStart(line: string)
    requires ReadRequestLine(line).Success? && line != "" && !IsSpace(line[0])
    ensures line[0] == 'P'
  {
    hide WordLength;
    assert TrimLeft(line, IsSpace) == line;
    assert Words(line)[0] == line[..WordLength(line)];
    assert Words(line)[0][0] == line[0];
  }

  /** No accepted request line is taken for a Content-Type line. */
  lemma RequestLineOther(line: string)
    requires ReadRequestLine(line).Success?
    ensures !StartsWith(Lower(line), LEAD)
  {
    hide Lower, StartsWith, ReadRequestLine;
    if StartsWith(Lower(line), LEAD) {
      ContentTypeChars();
      LeadChars(line, CONTENT_TYPE, ':');
      RequestLineStart(line);
      assert false;
    }
  }

  /** The line the mutator takes is the header line whose value the parser uses. */
  lemma MutatorTakes(header: string, head: Head) returns (i: nat)
    requires ReadHead(header) == Success(head) && MutatorLine(header) != ""
    ensures CONTENT_TYPE in head.headers
    ensures var lines := Split(header, LineBreak(header));
      && 1 <= i < |lines| && lines[i] == MutatorLine(header)
      && ReadLine(lines[i]) == Some((CONTENT_TYPE, head.headers[CONTENT_TYPE]))
  {
    hide Split, ReadLine, ReadRequestLine, ContentBoundary, StartsWith, Lower, LineBreak, ContentTypeLine;
    var lines := Split(header, LineBreak(header));
    i := LineChosen(lines);
    RequestLineOther(lines[0]);
    HeaderValue(lines[1..], map[], i - 1);
    assert lines[i] == lines[1..][i - 1];
    var (key, value) := ReadLine(lines[i]).value;
    LeadKey(lines[i], key, value);
  }

  // ---------------------------------------------------------------- the parameter on that line

  /** After the last piece the text ends; after any other comes the delimiter. */
  lemma {:induction false} PieceEnd(s: string, d: string, i: nat)
    requires d != "" && i < |Split(s, d)|
    ensures var parts := Split(s, d);
      var end := Offset(parts, d, i) + |parts[i]|;
      if i == |parts| - 1 then end == |s| else OccursAt(s, d, end)
    decreases |s|
  {
    hide Find, OccursAt;
    var k := Find(s, d);
    var parts := Split(s, d);
    if 0 <= k {
      if i > 0 {
        var t := s[k + |d|..];
        assert parts[1..] == Split(t, d);
        PieceEnd(t, d, i - 1);
        if i < |parts| - 1 {
          OccursShift(s, k + |d|, d, Offset(parts[1..], d, i - 1) + |parts[i]|);
        }
      }
    }
  }

  /** What `Strip` leaves is followed by white space only. */
  lemma StripEnd(s: string)
    ensures LeadSpace(s) + |Strip(s)| <= |s|
    ensures forall i | LeadSpace(s) + |Strip(s)| <= i < |s| :: IsSpace(s[i])
  {
    hide TrimLeft, TrimRight;
    var n := LeadSpace(s);
    var l := TrimLeft(s, IsSpace);
    TrimLeftSlice(s, IsSpace);
    assert l == s[n..];
    forall i | n + |Strip(s)| <= i < |s|
      ensures IsSpace(s[i])
    {
      assert l[i - n] == s[i];
    }
  }

  lemma SpaceBehind(line: string, n: nat, value: string)
    requires n <= |line| && value == Strip(line[n..])
    ensures forall i | n + LeadSpace(line[n..]) + |value| <= i < |line| :: IsSpace(line[i])
  {
    hide Strip, LeadSpace, IsSpace;
    var raw := line[n..];
    StripEnd(raw);
    forall i | n + LeadSpace(raw) + |value| <= i < |line|
      ensures IsSpace(line[i])
    {
      assert raw[i - n] == line[i];
    }
  }

  /** Behind the value of a header line there is white space only. */
  lemma ValueEndsLine(line: string, key: string, value: string)
    requires ReadLine(line) == Some((key, value))
    ensures Contains(line, ":")
    ensures forall i | LinePosition(line, 0) + |value| <= i < |line| :: IsSpace(line[i])
  {
    hide ReadLine, Strip, LeadSpace, Find, IsSpace;
    LineValue(line, key, value);
    SpaceBehind(line, Find(line, ":") + 1, value);
  }

  /** The rest of a Content-Type value behind parameter `m`. */
  lemma BehindInValue(value: string, m: nat)
    requires m < |Split(value, ";")|
    ensures var params := Split(value, ";");
      var at := Offset(params, ";", m) + LeadSpace(params[m]);
      && at + |Strip(params[m])| <= |value|
      && if m == |params| - 1 then forall i | at + |Strip(params[m])| <= i < |value| :: IsSpace(value[i])
         else exists i | at + |Strip(params[m])| <= i < |value| :: value[i] == ';'
  {
    hide Split, Strip, LeadSpace, OccursAt, IsSpace;
    var params := Split(value, ";");
    var o := Offset(params, ";", m);
    var at := o + LeadSpace(params[m]);
    PieceAt(value, ";", m);
    PieceEnd(value, ";", m);
    StripEnd(params[m]);
    if m == |params| - 1 {
      forall i | at + |Strip(params[m])| <= i < |value|
        ensures IsSpace(value[i])
      {
        PieceChar(value, params[m], o, i - o);
      }
    } else {
      FirstChar(value, ";", o + |params[m]|);
      assert value[o + |params[m]|] == ';';
    }
  }

  /** The rest of a Content-Type line behind its parameter `m`. */
  lemma BehindParameter(line: string, value: string, m: nat)
    requires ReadLine(line) == Some((CONTENT_TYPE, value)) && value != ""
    requires m < |Split(value, ";")|
    ensures Contains(line, ":")
    ensures var params := Split(value, ";");
      var end := LinePosition(line, Offset(params, ";", m) + LeadSpace(params[m])) + |Strip(params[m])|;
      && end <= |line|
      && if m == |params| - 1 then forall i | end <= i < |line| :: IsSpace(line[i])
         else exists i | end <= i < |line| :: line[i] == ';'
  {
    hide Split, ReadLine, Strip, LeadSpace, OccursAt, Find, IsSpace;
    var params := Split(value, ";");
    var at := Offset(params, ";", m) + LeadSpace(params[m]);
    BehindInValue(value, m);
    ValueInLine(line, CONTENT_TYPE, value);
    ValueEndsLine(line, CONTENT_TYPE, value);
    var start := LinePosition(line, 0);
    var end := LinePosition(line, at) + |Strip(params[m])|;
    assert LinePosition(line, at) == start + at;
    OccursFits(line, value, start);
    if m == |params| - 1 {
      forall i | end <= i < |line|
        ensures IsSpace(line[i])
      {
        if i < start + |value| {
          PieceChar(line, value, start, i - start);
        }
      }
    } else {
      var i :| at + |Strip(params[m])| <= i < |value| && value[i] == ';';
      PieceChar(line, value, start, i);
      assert line[start + i] == ';';
    }
  }

  // ---------------------------------------------------------------- what the mutator reads there

  lemma TailWithSemicolon(tail: string, boundary: string)
    requires ';' in tail && ';' !in boundary
    ensures StripQuotes(Trim(tail, IsByteSpace)) != boundary
  {
    hide Trim;
    TrimKeepsChar(tail, IsByteSpace, ';');
    TrimKeepsChar(Trim(tail, IsByteSpace), (c: char) => c == '"', ';');
  }

  lemma TailRead(x: string, after: string, boundary: string)
    requires StripQuotes(Strip(x)) == boundary && PrintableBoundary(boundary)
    requires x != "" && !IsSpace(x[|x| - 1]) && forall i | 0 <= i < |after| :: IsSpace(after[i])
    ensures var tail := x + after;
      StripQuotes(Trim(tail, IsByteSpace)) == boundary <==> Trim(tail, IsByteSpace) == Strip(tail)
  {
    hide Trim, IsSpace, PrintableBoundary;
    var tail := x + after;
    var y := Trim(tail, IsByteSpace);
    TrimBehind(x, after, IsSpace);
    if y != Strip(tail) {
      TrimAlike(tail);
      OddEdge(y, boundary);
    }
  }

  lemma PrintableChar(boundary: string, c: char)
    requires PrintableBoundary(boundary) && c in boundary
    ensures 33 as char <= c <= 126 as char
  {
  }

  lemma OddEdge(y: string, boundary: string)
    requires y == "" || exists c :: c in y && 28 as char <= c <= 31 as char
    requires PrintableBoundary(boundary)
    ensures StripQuotes(y) != boundary
  {
    hide Trim;
    var drop := (c: char) => c == '"';
    if y == "" {
      TrimKeeps(y, drop);
    } else {
      var c :| c in y && 28 as char <= c <= 31 as char;
      TrimKeepsChar(y, drop, c);
      if c in boundary {
        PrintableChar(boundary, c);
      }
    }
  }

  /** Behind an equals sign right after the word comes what the parser trims to the boundary. */
  lemma ItemValue(item: string, boundary: string)
    requires item != "" && !IsSpace(item[0]) && !IsSpace(item[|item| - 1])
    requires ReadItem(item) == Some((WORD, boundary)) && boundary != ""
    requires 8 < |item| && item[8] == '='
    ensures var x := item[9..];
      StripQuotes(Strip(x)) == boundary && x != "" && !IsSpace(x[|x| - 1])
  {
    hide Lower, Find, Trim;
    BoundaryKey(item);
    ValueLength(item[9..], boundary);
  }

  lemma ItemInLine(line: string, value: string, m: nat) returns (p: nat, after: string)
    requires ReadLine(line) == Some((CONTENT_TYPE, value)) && value != ""
    requires m < |Split(value, ";")| && Strip(Split(value, ";")[m]) != ""
    ensures Contains(line, ":")
    ensures var params := Split(value, ";");
      var item := Strip(params[m]);
      && p == LinePosition(line, Offset(params, ";", m) + LeadSpace(params[m]))
      && OccursAt(line, item, p) && p + |item| <= |line| && after == line[p + |item|..]
    ensures if m == |Split(value, ";")| - 1 then forall i | 0 <= i < |after| :: IsSpace(after[i]) else ';' in after
  {
    hide Split, ReadLine, Strip, LeadSpace, OccursAt, Find, IsSpace, Offset;
    var params := Split(value, ";");
    var item := Strip(params[m]);
    var at := Offset(params, ";", m) + LeadSpace(params[m]);
    BehindParameter(line, value, m);
    ValueInLine(line, CONTENT_TYPE, value);
    PieceAt(value, ";", m);
    LeadSpaceAt(params[m], 0);
    OccursCompose(value, params[m], item, Offset(params, ";", m), LeadSpace(params[m]));
    OccursCompose(line, value, item, LinePosition(line, 0), at);
    p := LinePosition(line, at);
    assert p == LinePosition(line, 0) + at;
    var n := p + |item|;
    after := line[n..];
    if m < |params| - 1 {
      var i :| n <= i < |line| && line[i] == ';';
      assert after[i - n] == ';';
    } else {
      forall i | 0 <= i < |after|
        ensures IsSpace(after[i])
      {
        assert after[i] == line[n + i];
      }
    }
  }

  lemma TailOfLine(line: string, item: string, p: nat)
    requires OccursAt(line, item, p) && 9 <= |item|
    ensures p + |item| <= |line| && line[p + 9..] == item[9..] + line[p + |item|..]
  {
    assert item == line[p..p + |item|];
  }

  lemma PrintableNonempty(boundary: string)
    requires PrintableBoundary(boundary)
    ensures boundary != ""
  {
  }

  lemma NoMarker()
    ensures Find(Lower(""), MARKER) < 0
  {
  }

  /** The text behind `boundary=` against the value of the item there. */
  lemma TailDecides(line: string, item: string, k: nat, boundary: string)
    requires item != "" && !IsSpace(item[0]) && !IsSpace(item[|item| - 1])
    requires ReadItem(item) == Some((WORD, boundary)) && PrintableBoundary(boundary) && ';' !in boundary
    requires OccursAt(line, item, k) && 8 < |item| && item[8] == '=' && k + |item| <= |line|
    requires var after := line[k + |item|..];
      ';' in after || forall i | 0 <= i < |after| :: IsSpace(after[i])
    ensures var tail := line[k + 9..];
      StripQuotes(Trim(tail, IsByteSpace)) == boundary <==> (';' !in tail && Trim(tail, IsByteSpace) == Strip(tail))
  {
    hide Trim, OccursAt, ReadItem, PrintableBoundary, IsSpace;
    PrintableNonempty(boundary);
    ItemValue(item, boundary);
    TailOfLine(line, item, k);
    var tail := line[k + 9..];
    if ';' in tail {
      TailWithSemicolon(tail, boundary);
    } else {
      TailRead(item[9..], line[k + |item|..], boundary);
    }
  }
}
