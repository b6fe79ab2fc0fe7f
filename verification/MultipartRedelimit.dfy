/**
 Arm 1 of the multipart mutator: a new boundary.  The work is to follow `-nv`, put in after the
 boundary in the header text, through every split, cut and trim of the parser.
 */
module MultipartRedelimit {
  import opened Wrappers
  import opened ByteStrings
  import opened MultipartParser
  import opened MultipartMutator
  import opened MultipartArms
  import opened MultipartAppend
  import opened MultipartDescribe

  const SUFFIX := "-nv"

  /** `-nv` put into `s` at offset `a`. */
  function Ins(s: string, a: nat): string
    requires a <= |s|
  {
    s[..a] + SUFFIX + s[a..]
  }

  // ---------------------------------------------------------------- through a search

  lemma SuffixForeign(d: string)
    requires '-' !in d && 'n' !in d && 'v' !in d
    ensures Foreign(SUFFIX, d) && SUFFIX != ""
  {
  }

  /** Putting foreign text in after a foreign character adds and removes no occurrence. */
  lemma ContainsIns(s: string, a: nat, d: string)
    requires 0 < a <= |s| && d != "" && s[a - 1] !in d && Foreign(SUFFIX, d)
    ensures Contains(Ins(s, a), d) <==> Contains(s, d)
  {
    var p, c, q := s[..a - 1], s[a - 1], s[a..];
    assert s == p + [c] + q;
    ContainsAcross(p, c, q, d);
    assert Ins(s, a) == p + ([c] + SUFFIX) + q;
    ContainsAcrossText(p, [c] + SUFFIX, q, d);
  }

  /** The first occurrence stays where it is when it stands before the new text. */
  lemma FindInsAfter(s: string, a: nat, d: string)
    requires a <= |s| && 0 <= Find(s, d) && Find(s, d) + |d| <= a
    ensures Find(Ins(s, a), d) == Find(s, d)
  {
    var k := Find(s, d);
    assert Ins(s, a) == s[..a] + (SUFFIX + s[a..]);
    assert s == s[..a] + s[a..];
    forall j | j <= k
      ensures OccursAt(Ins(s, a), d, j) <==> OccursAt(s, d, j)
    {
      OccursInPrefix(s[..a], SUFFIX + s[a..], d, j);
      OccursInPrefix(s[..a], s[a..], d, j);
    }
  }

  /** The first occurrence moves by three when the new text stands before it. */
  lemma FindInsBefore(s: string, a: nat, d: string)
    requires 0 < a <= |s| && d != "" && s[a - 1] !in d && Foreign(SUFFIX, d)
    requires a <= Find(s, d)
    ensures Find(Ins(s, a), d) == Find(s, d) + |SUFFIX|
  {
    var k := Find(s, d);
    var t := Ins(s, a);
    var p, q := s[..a], s[a..];
    FindShift(s, a, d);
    assert t == (p + SUFFIX) + q;
    OccursInSuffix(p + SUFFIX, q, d, k + |SUFFIX|);
    forall j | 0 <= j < k + |SUFFIX|
      ensures !OccursAt(t, d, j)
    {
      if OccursAt(t, d, j) {
        OccurrenceIns(s, a, d, j);
      }
    }
  }

  /** Every occurrence in the new text comes from one in the old. */
  lemma OccurrenceIns(s: string, a: nat, d: string, j: nat)
    requires 0 < a <= |s| && d != "" && s[a - 1] !in d && Foreign(SUFFIX, d)
    requires OccursAt(Ins(s, a), d, j)
    ensures (j + |d| < a && OccursAt(s, d, j)) || (a + |SUFFIX| <= j && OccursAt(s, d, j - |SUFFIX|))
  {
    hide OccursAt;
    var t := Ins(s, a);
    var p, c, q := s[..a - 1], s[a - 1], s[a..];
    assert s == p + ([c] + q) && s == (p + [c]) + q;
    assert t == p + [c] + (SUFFIX + q);
    NoStraddle(p, c, SUFFIX + q, d, j);
    if j < a {
      OccursInPrefix(p, [c] + q, d, j);
    } else {
      var i := j - a;
      assert OccursAt(SUFFIX + q, d, i);
      FirstChar(SUFFIX + q, d, i);
      OccursInSuffix(SUFFIX, q, d, i);
      OccursInSuffix(p + [c], q, d, j - |SUFFIX|);
    }
  }

  // ---------------------------------------------------------------- through split, cut and trim

  /** Where piece `i` of a split text starts. */
  function Offset(parts: seq<string>, d: string, i: nat): nat
    requires i < |parts|
    decreases i
  {
    if i == 0 then 0 else |parts[0]| + |d| + Offset(parts[1..], d, i - 1)
  }

  lemma OccursShift(s: string, n: nat, d: string, j: nat)
    requires n <= |s| && OccursAt(s[n..], d, j)
    ensures OccursAt(s, d, n + j)
  {
    assert s[n..][j..j + |d|] == s[n + j..n + j + |d|];
  }

  lemma OccursStart(s: string, n: nat)
    requires n <= |s|
    ensures OccursAt(s, s[..n], 0)
  {
  }

  lemma {:induction false} PieceAt(s: string, d: string, i: nat)
    requires d != "" && i < |Split(s, d)|
    ensures var parts := Split(s, d); OccursAt(s, parts[i], Offset(parts, d, i))
    decreases |s|
  {
    hide Find, OccursAt, Split;
    SplitCut(s, d);
    var k := Find(s, d);
    var parts := Split(s, d);
    if k < 0 {
      OccursStart(s, |s|);
      assert s[..|s|] == s;
    } else if i == 0 {
      OccursStart(s, k);
    } else {
      var t := s[k + |d|..];
      assert parts[1..] == Split(t, d);
      PieceAt(t, d, i - 1);
      OccursShift(s, k + |d|, parts[i], Offset(parts[1..], d, i - 1));
    }
  }

  lemma InsSlices(s: string, a: nat, b: nat)
    requires b <= a <= |s|
    ensures Ins(s, a)[..b] == s[..b] && Ins(s, a)[b..] == Ins(s[b..], a - b)
  {
  }

  lemma InsFront(s: string, a: nat, b: nat)
    requires a <= b <= |s|
    ensures Ins(s, a)[..b + |SUFFIX|] == Ins(s[..b], a) && Ins(s, a)[b + |SUFFIX|..] == s[b..]
  {
  }

  /** Putting `-nv` into the first piece of a split text. */
  lemma SplitInsFirst(s: string, d: string, a: nat)
    requires d != "" && 0 < a <= |Split(s, d)[0]|
    requires Split(s, d)[0][a - 1] !in d && Foreign(SUFFIX, d)
    ensures a <= |s| && Split(Ins(s, a), d) == Split(s, d)[0 := Ins(Split(s, d)[0], a)]
  {
    hide Find, Ins, OccursAt, Split;
    SplitCut(s, d);
    var k := Find(s, d);
    var t := Ins(s, a);
    SplitCut(t, d);
    if k < 0 {
      ContainsIns(s, a, d);
    } else {
      FindInsBefore(s, a, d);
      InsFront(s, a, k);
      InsFront(s, a, k + |d|);
      assert t[k + |SUFFIX| + |d|..] == s[k + |d|..];
    }
  }

  /** Putting `-nv` into one piece of a split text changes that piece only. */
  lemma {:induction false} SplitIns(s: string, d: string, i: nat, a: nat)
    requires d != "" && i < |Split(s, d)| && 0 < a <= |Split(s, d)[i]|
    requires Split(s, d)[i][a - 1] !in d && Foreign(SUFFIX, d)
    ensures var parts := Split(s, d);
      var at := Offset(parts, d, i) + a;
      && at <= |s| && Split(Ins(s, at), d) == parts[i := Ins(parts[i], a)]
    decreases |s|
  {
    hide Find, Ins, Split, OccursAt;
    SplitCut(s, d);
    var k := Find(s, d);
    var parts := Split(s, d);
    if i == 0 {
      SplitInsFirst(s, d, a);
    } else {
      var rest := s[k + |d|..];
      assert parts[1..] == Split(rest, d);
      SplitIns(rest, d, i - 1, a);
      var at := k + |d| + (Offset(parts[1..], d, i - 1) + a);
      FindInsAfter(s, at, d);
      InsSlices(s, at, k);
      InsSlices(s, at, k + |d|);
      SplitCut(Ins(s, at), d);
      assert parts[i := Ins(parts[i], a)] == [s[..k]] + parts[1..][i - 1 := Ins(parts[i], a)];
    }
  }

  /** Cutting at a delimiter before the new text. */
  lemma CutIns(s: string, d: string, a: nat)
    requires Contains(s, d) && d != "" && Find(s, d) + |d| <= a <= |s|
    ensures var k := Find(s, d);
      var (before, after) := Cut(s, d).value;
      && a - k - |d| <= |after| && Cut(Ins(s, a), d) == Some((before, Ins(after, a - k - |d|)))
  {
    var k := Find(s, d);
    FindInsAfter(s, a, d);
    var t := Ins(s, a);
    assert t[..k] == s[..k];
    assert t[k + |d|..] == Ins(s[k + |d|..], a - k - |d|);
  }

  /** How much white space `Strip` takes off the front. */
  function LeadSpace(s: string): (n: nat)
    ensures n <= |s|
  {
    |s| - |TrimLeft(s, IsSpace)|
  }

  lemma InsBefore(s: string, a: nat)
    requires a <= |s|
    ensures |Ins(s, a)| == |s| + |SUFFIX| && forall i | 0 <= i < a :: Ins(s, a)[i] == s[i]
  {
  }

  lemma TrimLeftIns(s: string, a: nat)
    requires LeadSpace(s) < a <= |s|
    ensures TrimLeft(Ins(s, a), IsSpace) == Ins(TrimLeft(s, IsSpace), a - LeadSpace(s))
  {
    hide TrimLeft, Ins, IsSpace;
    var n := LeadSpace(s);
    var l := TrimLeft(s, IsSpace);
    TrimLeftSlice(s, IsSpace);
    assert l == s[n..] && s[n] == l[0];
    InsBefore(s, a);
    InsSlices(s, a, n);
    TrimLeftIs(Ins(s, a), IsSpace, n);
  }

  lemma TrimRightIns(s: string, a: nat)
    requires 0 < a <= |s| && !IsSpace(s[a - 1])
    ensures a <= |TrimRight(s, IsSpace)| && TrimRight(Ins(s, a), IsSpace) == Ins(TrimRight(s, IsSpace), a)
  {
    var n := |TrimRight(s, IsSpace)|;
    assert s[n..] == "" || IsSpace(s[n]);
    assert a <= n;
    var t := Ins(s, a);
    var m := n + |SUFFIX|;
    assert t[m - 1] == if a == n then 'v' else s[n - 1];
    forall i | m <= i < |t|
      ensures IsSpace(t[i])
    {
      assert t[i] == s[i - |SUFFIX|];
    }
    TrimRightIs(t, IsSpace, m);
    InsFront(s, a, n);
  }

  /** Trimming around the new text. */
  lemma StripIns(s: string, a: nat)
    requires LeadSpace(s) < a <= |s| && !IsSpace(s[a - 1])
    ensures var n := LeadSpace(s);
      a - n <= |Strip(s)| && Strip(Ins(s, a)) == Ins(Strip(s), a - n)
  {
    hide Ins, TrimLeft, TrimRight;
    var n := LeadSpace(s);
    var l := TrimLeft(s, IsSpace);
    TrimLeftSlice(s, IsSpace);
    assert l[a - n - 1] == s[a - 1];
    TrimLeftIns(s, a);
    TrimRightIns(l, a - n);
  }

  // ---------------------------------------------------------------- one parameter

  const WORD := "boundary"

  /** A value that starts with its own unquoted form has nothing but quotes behind it. */
  lemma QuotesBehind(value: string, boundary: string)
    requires boundary != "" && StartsWith(value, boundary) && StripQuotes(value) == boundary
    ensures boundary[0] != '"' && boundary[|boundary| - 1] != '"'
    ensures forall i | |boundary| <= i < |value| :: value[i] == '"'
  {
    hide TrimLeft, TrimRight;
    var drop := (c: char) => c == '"';
    TrimContained(value, drop);
    var l := TrimLeft(value, drop);
    TrimLeftSlice(value, drop);
    assert value[0] == value[..|boundary|][0];
    assert l == value;
  }

  lemma StripQuotesIns(value: string, boundary: string)
    requires boundary != "" && StartsWith(value, boundary) && StripQuotes(value) == boundary
    ensures StripQuotes(Ins(value, |boundary|)) == NewBoundary(boundary)
  {
    hide TrimRight;
    QuotesBehind(value, boundary);
    var drop := (c: char) => c == '"';
    var t := Ins(value, |boundary|);
    var n := |boundary| + |SUFFIX|;
    assert value[..|boundary|] == boundary;
    assert t[0] == boundary[0];
    assert TrimLeft(t, drop) == t;
    forall i | n <= i < |t|
      ensures t[i] == '"'
    {
      assert t[i] == value[i - |SUFFIX|];
    }
    assert t[n - 1] == 'v';
    TrimRightIs(t, drop, n);
    assert t[..n] == boundary + SUFFIX;
  }

  /** An item that reads `boundary=B` with B right behind the equals sign. */
  predicate BoundaryItem(item: string, boundary: string) {
    && item != "" && !IsSpace(item[0]) && !IsSpace(item[|item| - 1])
    && ReadItem(item) == Some((WORD, boundary))
    && 9 + |boundary| <= |item| && item[8] == '=' && item[9..9 + |boundary|] == boundary
  }

  /** The key of a boundary item is exactly its first eight characters. */
  lemma BoundaryKey(item: string)
    requires item != "" && !IsSpace(item[0]) && Contains(item, "=")
    requires Lower(Strip(item[..Find(item, "=")])) == WORD
    requires |item| > 8 && item[8] == '='
    ensures Find(item, "=") == 8
  {
    hide Lower, TrimLeft, TrimRight;
    var k := Find(item, "=");
    var key := item[..k];
    OccursChar(item, '=', k);
    OccursChar(item, '=', 8);
    KeyLength(key);
  }

  lemma KeyLength(key: string)
    requires Lower(Strip(key)) == WORD
    ensures 8 <= |key|
  {
    hide Lower, TrimLeft, TrimRight;
    TrimContained(key, IsSpace);
    ContainsLength(key, Strip(key));
    assert |WORD| == 8;
  }

  lemma StripAgain(value: string)
    requires value != "" && !IsSpace(value[0]) && !IsSpace(value[|value| - 1])
    ensures Strip(value) == value
  {
    TrimKeeps(value, IsSpace);
  }

  /** The item with `-nv` put in reads the new boundary. */
  lemma ItemIns(item: string, boundary: string)
    requires BoundaryItem(item, boundary) && PrintableBoundary(boundary)
    ensures ReadItem(Ins(item, 9 + |boundary|)) == Some((WORD, NewBoundary(boundary)))
  {
    hide Find, Strip, StripQuotes, Lower, Ins;
    BoundaryKey(item);
    var value := item[9..];
    assert value[0] == item[9..9 + |boundary|][0] == boundary[0];
    assert value[|value| - 1] == item[|item| - 1];
    StripAgain(value);
    CutIns(item, "=", 9 + |boundary|);
    var now := Ins(value, |boundary|);
    assert value[..|boundary|] == boundary;
    StripQuotesIns(value, boundary);
    InsEnds(value, |boundary|);
    StripAgain(now);
  }

  lemma InsEnds(s: string, a: nat)
    requires 0 < a <= |s| && !IsSpace(s[0]) && !IsSpace(s[|s| - 1])
    ensures Ins(s, a) != "" && !IsSpace(Ins(s, a)[0]) && !IsSpace(Ins(s, a)[|Ins(s, a)| - 1])
  {
    assert Ins(s, a)[|Ins(s, a)| - 1] == if a == |s| then 'v' else s[|s| - 1];
  }

  // ---------------------------------------------------------------- the Content-Type value

  predicate NamesBoundary(item: string) {
    ReadItem(item).Some? && ReadItem(item).value.0 == WORD
  }

  lemma {:induction false} BoundaryIndex(items: seq<string>) returns (m: nat)
    requires BoundaryParameter(items) != ""
    ensures m < |items| && ReadItem(items[m]) == Some((WORD, BoundaryParameter(items)))
    ensures forall i | 0 <= i < m :: !NamesBoundary(items[i])
    decreases |items|
  {
    hide ReadItem;
    if NamesBoundary(items[0]) {
      m := 0;
    } else {
      var n := BoundaryIndex(items[1..]);
      m := n + 1;
      forall i | 0 <= i < m
        ensures !NamesBoundary(items[i])
      {
        if i > 0 {
          assert items[i] == items[1..][i - 1];
        }
      }
    }
  }

  lemma {:induction false} BoundaryReplaced(items: seq<string>, m: nat, item: string, boundary: string)
    requires m < |items| && ReadItem(item) == Some((WORD, boundary))
    requires forall i | 0 <= i < m :: !NamesBoundary(items[i])
    ensures BoundaryParameter(items[m := item]) == boundary
    decreases m
  {
    hide ReadItem;
    if m > 0 {
      assert items[m := item][1..] == items[1..][m - 1 := item];
      assert !NamesBoundary(items[0]);
      BoundaryReplaced(items[1..], m - 1, item, boundary);
    }
  }

  /** Where the boundary ends in a Content-Type value whose parameter `m` names it. */
  function ValueEnd(value: string, m: nat, boundary: string): nat
    requires m < |Split(value, ";")|
  {
    var params := Split(value, ";");
    Offset(params, ";", m) + LeadSpace(params[m]) + 9 + |boundary|
  }

  /** Parameter `m` is the one that gives the boundary, with the boundary right behind `=`. */
  predicate BoundaryAt(value: string, m: nat, boundary: string) {
    var items := StripAll(Split(value, ";"));
    && 1 <= m < |items| && BoundaryItem(items[m], boundary) && PrintableBoundary(boundary)
    && Lower(items[0]) == "multipart/form-data"
    && forall i | 1 <= i < m :: !NamesBoundary(items[i])
  }

  lemma LeadSpaceAt(s: string, i: nat)
    requires i < |Strip(s)|
    ensures LeadSpace(s) + i < |s| && s[LeadSpace(s) + i] == Strip(s)[i]
    ensures OccursAt(s, Strip(s), LeadSpace(s))
  {
    hide TrimLeft, TrimRight;
    var l := TrimLeft(s, IsSpace);
    TrimLeftSlice(s, IsSpace);
    assert l == s[LeadSpace(s)..];
    assert Strip(s) == l[..|Strip(s)|];
    assert s[LeadSpace(s)..LeadSpace(s) + |Strip(s)|] == Strip(s);
  }

  /** `-nv` put into one raw parameter ends up at the same place in the trimmed parameter. */
  lemma ParameterIns(raw: string, boundary: string)
    requires BoundaryItem(Strip(raw), boundary) && PrintableBoundary(boundary)
    ensures var a := LeadSpace(raw) + 9 + |boundary|;
      && a <= |raw| && !IsSpace(raw[a - 1])
      && Strip(Ins(raw, a)) == Ins(Strip(raw), 9 + |boundary|)
  {
    hide Strip, ReadItem, Ins;
    var item := Strip(raw);
    var last := 8 + |boundary|;
    LeadSpaceAt(raw, last);
    assert item[last] == item[9..9 + |boundary|][|boundary| - 1] == boundary[|boundary| - 1];
    StripIns(raw, LeadSpace(raw) + 9 + |boundary|);
  }

  lemma StripAllReplaced(items: seq<string>, m: nat, item: string)
    requires m < |items|
    ensures StripAll(items[m := item]) == StripAll(items)[m := Strip(item)]
  {
    hide Strip;
  }

  lemma SplitLacks(s: string, d: string, i: nat, a: nat)
    requires d != "" && |d| == 1 && i < |Split(s, d)| && a < |Split(s, d)[i]|
    ensures Split(s, d)[i][a] !in d
  {
    hide Split;
    SplitPiecesLack(s, d);
    ContainsChar(Split(s, d)[i], d[0]);
    assert d == [d[0]];
  }

  lemma ParameterChar(raw: string, boundary: string, c: char)
    requires ReadItem(Strip(raw)) == Some((WORD, boundary)) && c in boundary
    ensures c in raw
  {
    hide Trim, Lower, Find;
    var item := Strip(raw);
    var rest := item[Find(item, "=") + 1..];
    TrimmedChar(Strip(rest), (c: char) => c == '"', c);
    TrimmedChar(rest, IsSpace, c);
    assert c in item;
    TrimmedChar(raw, IsSpace, c);
  }

  /** A boundary that was read from a parameter has no semicolon. */
  lemma NoSemicolon(value: string, m: nat, boundary: string)
    requires m < |Split(value, ";")|
    requires ReadItem(Strip(Split(value, ";")[m])) == Some((WORD, boundary))
    ensures ';' !in boundary
  {
    hide Split, ReadItem, Strip, Contains;
    var raw := Split(value, ";")[m];
    SplitPiecesLack(value, ";");
    ContainsChar(raw, ';');
    assert [';'] == ";";
    if ';' in boundary {
      ParameterChar(raw, boundary, ';');
    }
  }

  /** The value with `-nv` put in after the boundary names the new boundary. */
  lemma ValueIns(value: string, m: nat, boundary: string)
    requires BoundaryAt(value, m, boundary)
    ensures var at := ValueEnd(value, m, boundary);
      && 0 < at <= |value| && !IsSpace(value[at - 1])
      && ContentBoundary(Ins(value, at)) == Success(NewBoundary(boundary))
  {
    hide Split, Strip, ReadItem, Ins, Lower, BoundaryParameter, LeadSpace;
    var params := Split(value, ";");
    var items := StripAll(params);
    var raw := params[m];
    var a := LeadSpace(raw) + 9 + |boundary|;
    ParameterIns(raw, boundary);
    SplitLacks(value, ";", m, a - 1);
    SuffixForeign(";");
    SplitIns(value, ";", m, a);
    PieceAt(value, ";", m);
    var at := ValueEnd(value, m, boundary);
    PieceChar(value, raw, Offset(params, ";", m), a - 1);
    StripAllReplaced(params, m, Ins(raw, a));
    var now := Ins(items[m], 9 + |boundary|);
    ItemIns(items[m], boundary);
    assert items[m := now][1..] == items[1..][m - 1 := now];
    forall i | 0 <= i < m - 1
      ensures !NamesBoundary(items[1..][i])
    {
      assert items[1..][i] == items[i + 1];
    }
    BoundaryReplaced(items[1..], m - 1, now, NewBoundary(boundary));
    NewBoundaryPrintable(boundary);
  }

  lemma PieceChar(s: string, piece: string, at: nat, i: nat)
    requires OccursAt(s, piece, at) && i < |piece|
    ensures at + i < |s| && s[at + i] == piece[i]
  {
    assert s[at..at + |piece|][i] == s[at + i];
  }

  lemma NewBoundaryPrintable(boundary: string)
    requires PrintableBoundary(boundary)
    ensures PrintableBoundary(NewBoundary(boundary))
  {
  }

  // ---------------------------------------------------------------- the header lines

  /** Where offset `at` of a header value lies in its line. */
  function LinePosition(line: string, at: nat): nat
    requires Contains(line, ":")
  {
    var k := Find(line, ":");
    k + 1 + LeadSpace(line[k + 1..]) + at
  }

  lemma LineIns(line: string, key: string, value: string, at: nat)
    requires ReadLine(line) == Some((key, value))
    requires 0 < at <= |value| && !IsSpace(value[at - 1])
    ensures Contains(line, ":")
    ensures var p := LinePosition(line, at);
      && 0 < p <= |line| && line[p - 1] == value[at - 1]
      && ReadLine(Ins(line, p)) == Some((key, Ins(value, at)))
  {
    hide Find, Strip, Lower, Ins, LeadSpace;
    var k := Find(line, ":");
    var raw := line[k + 1..];
    LeadSpaceAt(raw, at - 1);
    var a := LeadSpace(raw) + at;
    StripIns(raw, a);
    CutIns(line, ":", k + 1 + a);
    InsAscii(raw, a);
  }

  lemma InsAscii(s: string, a: nat)
    requires IsAscii(s) && a <= |s|
    ensures IsAscii(Ins(s, a))
  {
  }

  lemma {:induction false} HeaderIndex(lines: seq<string>, headers: Headers, key: string) returns (j: nat)
    requires ReadHeaders(lines, headers).Success? && key !in headers
    requires key in ReadHeaders(lines, headers).value
    ensures j < |lines| && ReadLine(lines[j]) == Some((key, ReadHeaders(lines, headers).value[key]))
    decreases |lines|
  {
    hide ReadLine;
    var (k, v) := ReadLine(lines[0]).value;
    if k == key {
      HeadersKeep(lines[1..], headers[k := v], key, v);
      j := 0;
    } else {
      var i := HeaderIndex(lines[1..], headers[k := v], key);
      j := i + 1;
    }
  }

  lemma {:induction false} HeadersKeep(lines: seq<string>, headers: Headers, key: string, value: string)
    requires ReadHeaders(lines, headers).Success? && key in headers
    ensures var h := ReadHeaders(lines, headers).value;
      && key in h && h[key] == headers[key]
      && ReadHeaders(lines, headers[key := value]) == Success(h[key := value])
    decreases |lines|
  {
    hide ReadLine;
    if lines != [] {
      var (k, v) := ReadLine(lines[0]).value;
      HeadersKeep(lines[1..], headers[k := v], key, value);
      assert headers[key := value][k := v] == headers[k := v][key := value];
    }
  }

  /** A header line that was read gives its key the value it has in the end. */
  lemma {:induction false} HeaderValue(lines: seq<string>, headers: Headers, i: nat)
    requires ReadHeaders(lines, headers).Success? && i < |lines|
    ensures ReadLine(lines[i]).Some?
    ensures var (key, value) := ReadLine(lines[i]).value;
      && key !in headers && key in ReadHeaders(lines, headers).value
      && ReadHeaders(lines, headers).value[key] == value
    decreases |lines|
  {
    hide ReadLine;
    var (k, v) := ReadLine(lines[0]).value;
    if i == 0 {
      HeadersKeep(lines[1..], headers[k := v], k, v);
    } else {
      HeaderValue(lines[1..], headers[k := v], i - 1);
      assert lines[i] == lines[1..][i - 1];
    }
  }

  lemma {:induction false} HeadersReplaced(lines: seq<string>, headers: Headers, j: nat, line: string, key: string,
      value: string)
    requires ReadHeaders(lines, headers).Success? && j < |lines|
    requires ReadLine(lines[j]).Some? && ReadLine(lines[j]).value.0 == key
    requires ReadLine(line) == Some((key, value))
    ensures ReadHeaders(lines[j := line], headers) == Success(ReadHeaders(lines, headers).value[key := value])
    decreases |lines|
  {
    hide ReadLine;
    var (k, v) := ReadLine(lines[0]).value;
    var next := headers[k := v];
    if j == 0 {
      HeadersKeep(lines[1..], next, key, value);
      assert next[key := value] == headers[key := value];
      assert lines[0 := line][1..] == lines[1..] && lines[0 := line][0] == line;
    } else {
      HeadersReplaced(lines[1..], next, j - 1, line, key, value);
      assert lines[j := line][1..] == lines[1..][j - 1 := line] && lines[j := line][0] == lines[0];
    }
  }

  predicate IsTypeLine(line: string) {
    ReadLine(line).Some? && ReadLine(line).value.0 == "content-type"
  }

  /** Putting `-nv` into header line `j` changes that line only. */
  lemma LinesIns(header: string, j: nat, p: nat)
    requires var lines := Split(header, LineBreak(header));
      j < |lines| && 0 < p <= |lines[j]| && !IsSpace(lines[j][p - 1])
    ensures var lb := LineBreak(header);
      var lines := Split(header, lb);
      var pos := Offset(lines, lb, j) + p;
      && pos <= |header| && LineBreak(Ins(header, pos)) == lb
      && Split(Ins(header, pos), lb) == lines[j := Ins(lines[j], p)]
  {
    hide Split, Ins, Contains, Offset;
    var lb := LineBreak(header);
    var lines := Split(header, lb);
    SuffixForeign(lb);
    SuffixForeign(CRLF);
    SplitIns(header, lb, j, p);
    PieceAt(header, lb, j);
    PieceChar(header, lines[j], Offset(lines, lb, j), p - 1);
    ContainsIns(header, Offset(lines, lb, j) + p, CRLF);
  }

  lemma HeadReplaced(header: string, head: Head, now: string, j: nat, line: string, value: string, boundary: string)
    requires ReadHead(header) == Success(head) && LineBreak(now) == LineBreak(header)
    requires var lines := Split(header, LineBreak(header));
      && 1 <= j < |lines| && Split(now, LineBreak(header)) == lines[j := line]
      && IsTypeLine(lines[j])
    requires ReadLine(line) == Some(("content-type", value)) && ContentBoundary(value) == Success(boundary)
    ensures ReadHead(now) == Success(Head(head.path, head.headers["content-type" := value], boundary))
  {
    hide Split, ReadLine, ReadHeaders, ReadRequestLine, ContentBoundary, LineBreak;
    var lines := Split(header, LineBreak(header));
    HeadersReplaced(lines[1..], map[], j - 1, line, "content-type", value);
    assert lines[j := line][1..] == lines[1..][j - 1 := line];
  }

  /** The head with `-nv` put into header line `j`. */
  lemma HeadIns(header: string, head: Head, j: nat, value: string, at: nat, boundary: string)
    requires ReadHead(header) == Success(head)
    requires var lines := Split(header, LineBreak(header));
      1 <= j < |lines| && ReadLine(lines[j]) == Some(("content-type", value))
    requires 0 < at <= |value| && !IsSpace(value[at - 1])
    requires ContentBoundary(Ins(value, at)) == Success(boundary)
    ensures var lines := Split(header, LineBreak(header));
      && Contains(lines[j], ":")
      && var pos := Offset(lines, LineBreak(header), j) + LinePosition(lines[j], at);
      && pos <= |header|
      && ReadHead(Ins(header, pos))
        == Success(Head(head.path, head.headers["content-type" := Ins(value, at)], boundary))
  {
    hide Split, ReadHead, ReadLine, ContentBoundary, Ins, LinePosition, Offset, LineBreak, IsSpace;
    var lines := Split(header, LineBreak(header));
    LineIns(lines[j], "content-type", value, at);
    var p := LinePosition(lines[j], at);
    LinesIns(header, j, p);
    var now := Ins(header, Offset(lines, LineBreak(header), j) + p);
    HeadReplaced(header, head, now, j, Ins(lines[j], p), Ins(value, at), boundary);
  }

  // ---------------------------------------------------------------- where the boundary stands

  /** The word `boundary`, in any case, stands at most once in the header block. */
  ghost predicate OneWord(header: string) {
    forall i, j :: OccursAt(Lower(header), WORD, i) && OccursAt(Lower(header), WORD, j) ==> i == j
  }

  lemma OccursCompose(s: string, t: string, x: string, i: nat, j: nat)
    requires OccursAt(s, t, i) && OccursAt(t, x, j)
    ensures OccursAt(s, x, i + j)
  {
    var y := s[i + j..i + j + |x|];
    forall k | 0 <= k < |x|
      ensures y[k] == x[k]
    {
      assert y[k] == s[i..i + |t|][j + k] == t[j..j + |x|][k];
    }
    assert y == x;
  }

  lemma LowerSlice(s: string, i: nat, j: nat)
    requires i <= j <= |s|
    ensures Lower(s[i..j]) == Lower(s)[i..j]
  {
    hide Lower;
    LowerIs(s[i..j], Lower(s)[i..j]);
  }

  lemma OccursLower(s: string, x: string, i: nat)
    requires OccursAt(s, x, i)
    ensures OccursAt(Lower(s), Lower(x), i)
  {
    hide Lower;
    LowerSlice(s, i, i + |x|);
  }

  lemma NoContentType()
    ensures ContentBoundary("") == Failure(ContentTypeInvalid)
  {
    hide Lower;
    SplitNone("", ";");
    assert Lower(StripAll([""])[0]) == "" by {
      LowerIs("", "");
    }
  }

  /** Offset of the boundary parameter in the header text. */
  function ParameterPosition(header: string, j: nat, value: string, m: nat): nat
    requires j < |Split(header, LineBreak(header))| && Contains(Split(header, LineBreak(header))[j], ":")
    requires m < |Split(value, ";")|
  {
    var lines := Split(header, LineBreak(header));
    var params := Split(value, ";");
    Offset(lines, LineBreak(header), j)
      + LinePosition(lines[j], Offset(params, ";", m) + LeadSpace(params[m]))
  }

  lemma LineValue(line: string, key: string, value: string)
    requires ReadLine(line) == Some((key, value))
    ensures Contains(line, ":") && value == Strip(line[Find(line, ":") + 1..])
  {
    hide Strip, Lower, IsAscii;
  }

  /** Where on a Content-Type line the boundary parameter stands, or -1. */
  function BoundaryInLine(line: string): int {
    if !Contains(line, ":") then -1
    else
      var value := Strip(line[Find(line, ":") + 1..]);
      var params := Split(value, ";");
      var m := 1 + FirstIndex(StripAll(params)[1..], NamesBoundary);
      if |params| <= m then -1 else LinePosition(line, Offset(params, ";", m) + LeadSpace(params[m]))
  }

  /** Where in a header block the boundary parameter stands that the parser reads, or -1. */
  function BoundaryPosition(header: string): int {
    var lines := Split(header, LineBreak(header));
    var j := 1 + FirstIndex(lines[1..], IsTypeLine);
    if |lines| <= j || BoundaryInLine(lines[j]) < 0 then -1
    else Offset(lines, LineBreak(header), j) + BoundaryInLine(lines[j])
  }

  lemma NamedIndexIs(items: seq<string>, n: nat)
    requires n < |items| && NamesBoundary(items[n]) && forall i | 0 <= i < n :: !NamesBoundary(items[i])
    ensures FirstIndex(items, NamesBoundary) == n
  {
    hide NamesBoundary, FirstIndex;
    var m := FirstIndex(items, NamesBoundary);
    assert m < |items| ==> NamesBoundary(items[m]);
  }

  lemma TypeLine(lines: seq<string>, headers: Headers) returns (j: nat)
    requires ReadHeaders(lines, headers).Success? && "content-type" !in headers
    requires "content-type" in ReadHeaders(lines, headers).value
    ensures j == FirstIndex(lines, IsTypeLine) < |lines|
    ensures ReadLine(lines[j]) == Some(("content-type", ReadHeaders(lines, headers).value["content-type"]))
  {
    hide ReadLine, ReadHeaders;
    var i := HeaderIndex(lines, headers, "content-type");
    assert IsTypeLine(lines[i]);
    j := FirstIndex(lines, IsTypeLine);
    HeaderValue(lines, headers, j);
  }

  lemma BoundaryInLineIs(line: string, value: string, m: nat)
    requires ReadLine(line) == Some(("content-type", value))
    requires m == 1 + FirstIndex(StripAll(Split(value, ";"))[1..], NamesBoundary) && m < |Split(value, ";")|
    ensures Contains(line, ":")
    ensures BoundaryInLine(line)
      == LinePosition(line, Offset(Split(value, ";"), ";", m) + LeadSpace(Split(value, ";")[m]))
  {
    hide Split, ReadLine, Strip, LinePosition, FirstIndex, Find, StripAll, NamesBoundary, LeadSpace, Offset;
    LineValue(line, "content-type", value);
  }

  lemma BoundaryPositionIs(header: string, j: nat, value: string, m: nat)
    requires var lines := Split(header, LineBreak(header));
      && j == 1 + FirstIndex(lines[1..], IsTypeLine) && j < |lines|
      && ReadLine(lines[j]) == Some(("content-type", value))
    requires m == 1 + FirstIndex(StripAll(Split(value, ";"))[1..], NamesBoundary) && m < |Split(value, ";")|
    ensures Contains(Split(header, LineBreak(header))[j], ":")
    ensures BoundaryPosition(header) == ParameterPosition(header, j, value, m)
  {
    hide Split, ReadLine, LineBreak, Find, BoundaryInLine, Strip, LeadSpace, Offset;
    BoundaryInLineIs(Split(header, LineBreak(header))[j], value, m);
  }

  /** The Content-Type line and its boundary parameter, for a head that was read. */
  lemma ContentTypeAt(header: string, head: Head) returns (j: nat, m: nat)
    requires ReadHead(header) == Success(head)
    ensures "content-type" in head.headers
    ensures var lines := Split(header, LineBreak(header));
      var value := head.headers["content-type"];
      var items := StripAll(Split(value, ";"));
      && 1 <= j < |lines| && ReadLine(lines[j]) == Some(("content-type", value))
      && 1 <= m < |items| && ReadItem(items[m]) == Some((WORD, head.boundary))
      && Lower(items[0]) == "multipart/form-data" && PrintableBoundary(head.boundary)
      && (forall i | 1 <= i < m :: !NamesBoundary(items[i]))
      && Contains(lines[j], ":") && BoundaryPosition(header) == ParameterPosition(header, j, value, m)
  {
    hide Split, ReadLine, ReadRequestLine, ReadItem, Strip, Lower, LineBreak, ParameterPosition, BoundaryPosition,
      IsTypeLine;
    var lines := Split(header, LineBreak(header));
    var value := Get(head.headers, "content-type");
    var items := StripAll(Split(value, ";"));
    if "content-type" !in head.headers {
      NoContentType();
    }
    var i := TypeLine(lines[1..], map[]);
    var n := BoundaryIndex(items[1..]);
    NamedIndexIs(items[1..], n);
    j, m := i + 1, n + 1;
    BoundaryPositionIs(header, j, value, m);
    forall i | 1 <= i < m
      ensures !NamesBoundary(items[i])
    {
      assert items[i] == items[1..][i - 1];
    }
  }

  lemma ValueInLine(line: string, key: string, value: string)
    requires ReadLine(line) == Some((key, value)) && value != ""
    ensures Contains(line, ":") && OccursAt(line, value, LinePosition(line, 0))
  {
    hide Find, Lower, Strip, LeadSpace;
    var k := Find(line, ":");
    var raw := line[k + 1..];
    LeadSpaceAt(raw, 0);
    OccursShift(line, k + 1, value, LeadSpace(raw));
  }

  lemma ParameterInHeader(header: string, j: nat, value: string, m: nat)
    requires var lines := Split(header, LineBreak(header));
      j < |lines| && ReadLine(lines[j]) == Some(("content-type", value)) && value != ""
    requires m < |Split(value, ";")| && Strip(Split(value, ";")[m]) != ""
    ensures Contains(Split(header, LineBreak(header))[j], ":")
    ensures OccursAt(header, Strip(Split(value, ";")[m]), ParameterPosition(header, j, value, m))
  {
    hide Split, ReadLine, Strip, LeadSpace, OccursAt, Find, LineBreak;
    var lb := LineBreak(header);
    var lines := Split(header, lb);
    var params := Split(value, ";");
    var item := Strip(params[m]);
    ValueInLine(lines[j], "content-type", value);
    PieceAt(header, lb, j);
    PieceAt(value, ";", m);
    LeadSpaceAt(params[m], 0);
    OccursCompose(value, params[m], item, Offset(params, ";", m), LeadSpace(params[m]));
    var at := Offset(params, ";", m) + LeadSpace(params[m]);
    OccursCompose(lines[j], value, item, LinePosition(lines[j], 0), at);
    OccursCompose(header, lines[j], item, Offset(lines, lb, j), LinePosition(lines[j], at));
  }

  lemma KeyStart(key: string)
    requires key != "" && !IsSpace(key[0]) && Lower(Strip(key)) == WORD
    ensures 8 <= |key| && Lower(key[..8]) == WORD
  {
    hide TrimLeft, TrimRight, Lower;
    KeyLength(key);
    LeadingWord(key);
    var r := TrimRight(key, IsSpace);
    assert |r| == 8;
    assert r == key[..8];
  }

  lemma LeadingWord(key: string)
    requires key != "" && !IsSpace(key[0])
    ensures TrimLeft(key, IsSpace) == key
  {
  }

  lemma ItemKey(item: string, key: string, value: string)
    requires ReadItem(item) == Some((key, value))
    ensures Contains(item, "=") && Lower(Strip(item[..Find(item, "=")])) == key
  {
    hide Strip, Lower, Find, StripQuotes;
  }

  lemma WordInFront(key: string, rest: string)
    requires 8 <= |key| && Lower(key[..8]) == WORD
    ensures OccursAt(Lower(key + rest), WORD, 0)
  {
    hide Lower, OccursAt;
    var s := key + rest;
    assert s[..8] == key[..8];
    OccursStart(s, 8);
    OccursLower(s, s[..8], 0);
  }

  lemma ItemStart(item: string, boundary: string)
    requires item != "" && !IsSpace(item[0]) && ReadItem(item) == Some((WORD, boundary))
    ensures OccursAt(Lower(item), WORD, 0) && 8 < |item|
  {
    hide ReadItem, Strip, Lower, Find, OccursAt, IsSpace;
    ItemKey(item, WORD, boundary);
    var k := Find(item, "=");
    var key := item[..k];
    KeyLength(key);
    KeyStart(key);
    assert item == key + item[k..];
    WordInFront(key, item[k..]);
  }

  lemma WordLower()
    ensures Lower(WORD) == WORD
  {
    hide Lower;
    LowerIs(WORD, WORD);
  }

  /** A literal `boundary=B` in a header with one such word is the parameter the parser reads. */
  lemma LiteralIsParameter(header: string, item: string, at: nat, boundary: string)
    requires OneWord(header) && OccursAt(header, item, at)
    requires item != "" && !IsSpace(item[0]) && !IsSpace(item[|item| - 1])
    requires ReadItem(item) == Some((WORD, boundary)) && PrintableBoundary(boundary)
    requires Contains(header, MARKER + boundary)
    ensures Find(header, MARKER + boundary) == at && BoundaryItem(item, boundary)
  {
    hide Lower, Find, OccursAt, ReadItem, BoundaryItem;
    var k := Find(header, MARKER + boundary);
    ItemStart(item, boundary);
    OccursLower(header, item, at);
    OccursCompose(Lower(header), Lower(item), WORD, at, 0);
    MarkerStart(boundary);
    OccursCompose(header, MARKER + boundary, WORD, k, 0);
    OccursLower(header, WORD, k);
    WordLower();
    assert k == at;
    LiteralItem(header, item, at, boundary);
  }

  lemma MarkerStart(boundary: string)
    ensures OccursAt(MARKER + boundary, WORD, 0)
  {
    assert (MARKER + boundary)[0..8] == WORD;
  }

  /** Two texts that occur at the same place agree as far as both reach. */
  lemma SamePlace(s: string, x: string, y: string, at: nat)
    requires OccursAt(s, x, at) && OccursAt(s, y, at)
    ensures forall i | 0 <= i < |x| && i < |y| :: x[i] == y[i]
  {
    forall i | 0 <= i < |x| && i < |y|
      ensures x[i] == y[i]
    {
      assert x[i] == s[at..at + |x|][i] == s[at + i];
      assert y[i] == s[at..at + |y|][i] == s[at + i];
    }
  }

  lemma MarkerChars(boundary: string)
    ensures var marker := MARKER + boundary;
      && |marker| == 9 + |boundary| && marker[8] == '='
      && forall i | 0 <= i < |boundary| :: marker[9 + i] == boundary[i]
  {
  }

  lemma LiteralItem(header: string, item: string, at: nat, boundary: string)
    requires OccursAt(header, item, at) && OccursAt(header, MARKER + boundary, at) && 8 < |item|
    requires item != "" && !IsSpace(item[0]) && !IsSpace(item[|item| - 1])
    requires ReadItem(item) == Some((WORD, boundary))
    ensures BoundaryItem(item, boundary)
  {
    hide Lower, Strip, StripQuotes, Find, OccursAt;
    SamePlace(header, item, MARKER + boundary, at);
    MarkerChars(boundary);
    assert item[8] == (MARKER + boundary)[8];
    BoundaryKey(item);
    ValueLength(item[9..], boundary);
    assert item[9..9 + |boundary|] == boundary;
  }

  lemma ValueLength(value: string, boundary: string)
    requires StripQuotes(Strip(value)) == boundary
    ensures |boundary| <= |value|
  {
    hide TrimLeft, TrimRight;
    TrimContained(value, IsSpace);
    ContainsLength(value, Strip(value));
    TrimContained(Strip(value), (c: char) => c == '"');
    ContainsLength(Strip(value), boundary);
  }

  lemma ReplaceIsIns(header: string, boundary: string)
    requires Contains(header, MARKER + boundary)
    ensures var k := Find(header, MARKER + boundary);
      && k + 9 + |boundary| <= |header|
      && ReplaceFirst(header, MARKER + boundary, MARKER + NewBoundary(boundary)) == Ins(header, k + 9 + |boundary|)
  {
    hide Find;
    var k := Find(header, MARKER + boundary);
    var n := k + 9 + |boundary|;
    assert header[..n] == header[..k] + header[k..k + |MARKER + boundary|];
    assert MARKER + NewBoundary(boundary) == MARKER + boundary + SUFFIX;
  }

  /** The same head but for the boundary and the Content-Type value that names it. */
  predicate Redelimited(was: Head, now: Head) {
    && now.boundary == NewBoundary(was.boundary) && now.path == was.path
    && now.headers == was.headers["content-type" := Get(now.headers, "content-type")]
  }

  /** The boundary item when the literal stands at its place. */
  lemma LiteralInItem(header: string, item: string, at: nat, boundary: string)
    requires OccursAt(header, item, at) && OccursAt(header, MARKER + boundary, at)
    requires item != "" && !IsSpace(item[0]) && !IsSpace(item[|item| - 1])
    requires ReadItem(item) == Some((WORD, boundary))
    ensures BoundaryItem(item, boundary)
  {
    hide OccursAt, ReadItem, BoundaryItem, Lower;
    ItemStart(item, boundary);
    LiteralItem(header, item, at, boundary);
  }

  /** The head after the boundary was replaced where the parser reads it. */
  lemma HeadRedelimited(header: string, head: Head)
    requires ReadHead(header) == Success(head)
    requires Find(header, MARKER + head.boundary) == BoundaryPosition(header)
    requires Contains(header, MARKER + head.boundary)
    ensures var now := ReadHead(ReplaceFirst(header, MARKER + head.boundary, MARKER + NewBoundary(head.boundary)));
      now.Success? && Redelimited(head, now.value)
  {
    hide Split, ReadLine, Strip, LeadSpace, OccursAt, Find, LineBreak, ReadHead, Ins, BoundaryItem, ReadItem,
      ReplaceFirst, Lower;
    var boundary := head.boundary;
    var j, m := ContentTypeAt(header, head);
    var value := head.headers["content-type"];
    var params := Split(value, ";");
    var item := Strip(params[m]);
    ReplaceIsIns(header, boundary);
    StrippedEnds(params[m], boundary);
    ContentTypeNonempty(value);
    ParameterInHeader(header, j, value, m);
    LiteralInItem(header, item, ParameterPosition(header, j, value, m), boundary);
    ValueIns(value, m, boundary);
    var at := ValueEnd(value, m, boundary);
    HeadIns(header, head, j, value, at, NewBoundary(boundary));
  }

  lemma CutLength(s: string, d: string)
    requires d != "" && Cut(s, d).Some?
    ensures s != ""
  {
  }

  lemma StrippedEnds(raw: string, boundary: string)
    requires ReadItem(Strip(raw)) == Some((WORD, boundary))
    ensures var item := Strip(raw); item != "" && !IsSpace(item[0]) && !IsSpace(item[|item| - 1])
  {
    hide TrimLeft, TrimRight, Lower, Find, Trim;
    TrimContained(raw, IsSpace);
    CutLength(Strip(raw), "=");
  }

  lemma ContentTypeNonempty(value: string)
    requires Lower(StripAll(Split(value, ";"))[0]) == "multipart/form-data"
    ensures value != ""
  {
    hide Split;
    if value == "" {
      NoContentType();
    }
  }

  // ---------------------------------------------------------------- the body

  lemma OccursLonger(s: string, d: string, more: string, k: int)
    requires OccursAt(s, d + more, k)
    ensures OccursAt(s, d, k)
  {
    assert s[k..k + |d|] == s[k..k + |d + more|][..|d|];
  }

  /** What is clean for a delimiter is clean for a longer one. */
  lemma CleanLongerPart(p: string, d: string, more: string)
    requires Find(p + d, d) == |p|
    ensures Find(p + (d + more), d + more) == |p|
  {
    hide OccursAt;
    var longer := d + more;
    OccursInSuffix(p, longer, longer, |p|);
    OccursStart(longer, |longer|);
    assert longer[..|longer|] == longer;
    forall k | k < |p|
      ensures !OccursAt(p + longer, longer, k)
    {
      if OccursAt(p + longer, longer, k) {
        OccursLonger(p + longer, d, more, k);
        assert p + longer == p + d + more;
        OccursInPrefix(p + d, more, d, k);
      }
    }
  }

  lemma CleanLonger(parts: seq<string>, d: string, more: string)
    requires 1 <= |parts| && Clean(parts, d) && d != ""
    ensures Clean(parts, d + more)
  {
    hide Find;
    forall i | 0 <= i < |parts| - 1
      ensures Find(parts[i] + (d + more), d + more) == |parts[i]|
    {
      CleanLongerPart(parts[i], d, more);
    }
    var last := parts[|parts| - 1];
    if Contains(last, d + more) {
      OccursLonger(last, d, more, Find(last, d + more));
    }
  }

  lemma NewDelimiter(boundary: string)
    ensures Delimiter(NewBoundary(boundary)) == Delimiter(boundary) + SUFFIX
  {
  }

  /** The blank line after the changed head. */
  lemma HeadEnd(header: string, sep: string, n: nat)
    requires sep == CRLF + CRLF || sep == LF + LF
    requires Find(header + sep, sep) == |header|
    requires 0 < n <= |header| && header[n - 1] != '\r' && header[n - 1] != '\n'
    ensures Find(Ins(header, n) + sep, sep) == |Ins(header, n)|
    ensures !Contains(header + sep, CRLF + CRLF) ==> !Contains(Ins(header, n) + sep, CRLF + CRLF)
  {
    var s := header + sep;
    assert Ins(s, n) == Ins(header, n) + sep;
    assert s[n - 1] == header[n - 1];
    SuffixForeign(sep);
    SuffixForeign(CRLF + CRLF);
    FindInsBefore(s, n, sep);
    ContainsIns(s, n, CRLF + CRLF);
  }

  lemma RedelimitedBody(v: View)
    requires 3 <= |v.parts| && v.parts[0] == "" && PrintableBoundary(v.boundary)
    requires !Contains(v.header + v.sep + Join(v.parts, Delimiter(v.boundary)), CRLF + CRLF)
    ensures !Contains(v.header + v.sep, CRLF + CRLF)
    ensures forall h :: !Contains(h, CRLF + CRLF) ==>
      !Contains(h + Join(v.parts, Delimiter(NewBoundary(v.boundary))), CRLF + CRLF)
  {
    hide Find, OccursAt;
    var d, d' := Delimiter(v.boundary), Delimiter(NewBoundary(v.boundary));
    var w := CRLF + CRLF;
    var h0 := v.header + v.sep;
    DelimiterForeign(v.boundary);
    NewBoundaryPrintable(v.boundary);
    DelimiterForeign(NewBoundary(v.boundary));
    var rest, rest' := Join(v.parts[1..], d), Join(v.parts[1..], d');
    assert Join(v.parts, d) == "" + d + rest && Join(v.parts, d') == "" + d' + rest';
    assert h0 + Join(v.parts, d) == h0 + d + rest;
    ContainsAcrossText(h0, d, rest, w);
    JoinLacks(v.parts[1..], d, w);
    JoinLacks(v.parts[1..], d', w);
    forall h | !Contains(h, w)
      ensures !Contains(h + Join(v.parts, d'), w)
    {
      assert h + Join(v.parts, d') == h + d' + rest';
      ContainsAcrossText(h, d', rest', w);
    }
  }

  /** The place after the boundary: its last character is no line break. */
  lemma AfterBoundary(header: string, boundary: string)
    requires Contains(header, MARKER + boundary) && PrintableBoundary(boundary)
    ensures var n := Find(header, MARKER + boundary) + 9 + |boundary|;
      0 < n <= |header| && header[n - 1] != '\r' && header[n - 1] != '\n'
  {
    hide Find;
    var k := Find(header, MARKER + boundary);
    PieceChar(header, MARKER + boundary, k, 8 + |boundary|);
    MarkerChars(boundary);
    assert (MARKER + boundary)[9 + (|boundary| - 1)] == boundary[|boundary| - 1];
  }

  lemma RedelimitedBlankLine(v: View, header: string)
    requires v.sep == CRLF + CRLF || v.sep == LF + LF
    requires 3 <= |v.parts| && v.parts[0] == "" && PrintableBoundary(v.boundary)
    requires BlankLine(v.header + v.sep + Join(v.parts, Delimiter(v.boundary))) == v.sep
    requires !Contains(v.header + v.sep, CRLF + CRLF) ==> !Contains(header + v.sep, CRLF + CRLF)
    ensures BlankLine(header + v.sep + Join(v.parts, Delimiter(NewBoundary(v.boundary)))) == v.sep
  {
    hide Find, Join;
    var d' := Delimiter(NewBoundary(v.boundary));
    if v.sep == CRLF + CRLF {
      BlankPresent(header, Join(v.parts, d'));
    } else {
      RedelimitedBody(v);
      assert !Contains(header + v.sep, CRLF + CRLF);
    }
  }

  /** A body whose delimiter is longer than the header says is refused. */
  lemma WrongDelimiter(parts: seq<string>, boundary: string)
    requires 3 <= |parts| && parts[0] == ""
    ensures ReadBody(Join(parts, Delimiter(NewBoundary(boundary))), boundary) == Failure(BoundaryMismatch)
  {
    hide ReadSegments, Split, StartsWith;
    var d := Delimiter(boundary);
    NewDelimiter(boundary);
    var rest := Join(parts[1..], d + SUFFIX);
    assert Join(parts, d + SUFFIX) == parts[0] + (d + SUFFIX) + rest;
    hide Join;
    DashAfter(d, rest);
    NotLineBreak("" + (d + SUFFIX) + rest, d);
  }

  lemma DashAfter(d: string, rest: string)
    ensures var body := "" + (d + SUFFIX) + rest;
      |d| < |body| && body[|d|] == '-'
  {
    assert SUFFIX[0] == '-';
  }

  lemma NotLineBreak(body: string, d: string)
    requires |d| < |body| && body[|d|] == '-'
    ensures !StartsWith(body, d + CRLF) && !StartsWith(body, d + LF)
  {
    StartChar(body, d + CRLF, |d|);
    StartChar(body, d + LF, |d|);
    assert (d + CRLF)[|d|] == '\r' && (d + LF)[|d|] == '\n';
  }

  lemma StartChar(s: string, prefix: string, i: nat)
    requires i < |prefix|
    ensures StartsWith(s, prefix) ==> s[i] == prefix[i]
  {
    assert StartsWith(s, prefix) ==> s[..|prefix|][i] == s[i];
  }

  lemma RedelimitedParsed(seed: string, r: Seed, v: View)
    requires Agree(seed, r, v) && Contains(v.header, MARKER + v.boundary)
    requires Find(v.header, MARKER + v.boundary) == BoundaryPosition(v.header)
    ensures var out := Parse(Redelimit(v));
      out.Success? && out.value.content == r.content && Redelimited(r.head, out.value.head)
  {
    hide ReadHead, ReadBody, ReadSegments, Find, Split, BlankLine, Clean, ViewSeed, ViewFile, Parse, StartsWith,
      BoundaryPosition, Ins, ReplaceFirst, Join, Contains;
    AcceptedView(seed, r, v);
    BoundaryPrintable(seed, r);
    AcceptedBody(v.body, v.boundary, r.content);
    HeadRedelimited(v.header, r.head);
    ReplaceIsIns(v.header, v.boundary);
    AfterBoundary(v.header, v.boundary);
    var n := Find(v.header, MARKER + v.boundary) + 9 + |v.boundary|;
    var header := Ins(v.header, n);
    HeadEnd(v.header, v.sep, n);
    RedelimitedBlankLine(v, header);
    NewDelimiter(v.boundary);
    CleanLonger(v.parts, Delimiter(v.boundary), SUFFIX);
    ReadJoined(v.parts, NewBoundary(v.boundary));
    ParseJoined(header, v.sep, Join(v.parts, Delimiter(NewBoundary(v.boundary))));
  }

  lemma RedelimitRefused(seed: string, r: Seed, v: View)
    requires Agree(seed, r, v) && !Contains(v.header, MARKER + v.boundary)
    ensures Parse(Redelimit(v)) == Failure(BoundaryMismatch)
  {
    hide ReadHead, ReadBody, ReadSegments, Find, Split, BlankLine, Clean, ViewSeed, ViewFile, Parse, StartsWith, Join;
    AcceptedView(seed, r, v);
    BoundaryPrintable(seed, r);
    AcceptedBody(v.body, v.boundary, r.content);
    RedelimitedBlankLine(v, v.header);
    WrongDelimiter(v.parts, v.boundary);
    ParseJoined(v.header, v.sep, Join(v.parts, Delimiter(NewBoundary(v.boundary))));
  }

  /** With one word `boundary`, a literal that is there at all is the parameter the parser reads. */
  lemma LiteralPosition(header: string, head: Head)
    requires ReadHead(header) == Success(head) && OneWord(header) && Contains(header, MARKER + head.boundary)
    ensures Find(header, MARKER + head.boundary) == BoundaryPosition(header)
  {
    hide ReadHead, Split, ReadLine, Strip, OccursAt, Find, Contains, LineBreak, ReadItem, Lower, OneWord,
      BoundaryPosition, ParameterPosition;
    var j, m := ContentTypeAt(header, head);
    var value := head.headers["content-type"];
    StrippedEnds(Split(value, ";")[m], head.boundary);
    ContentTypeNonempty(value);
    ParameterInHeader(header, j, value, m);
    LiteralIsParameter(header, Strip(Split(value, ";")[m]), ParameterPosition(header, j, value, m), head.boundary);
  }

  /**
   Arm 1.  For a header block with one word `boundary`: when the literal `boundary=B` is there, the
   result parses to the same fields, file name and file bytes under boundary `B-nv`; when it is not
   (the value is quoted, or the key is not in lower case), the result is refused.
   */
  lemma RedelimitMeaning(seed: string, r: Seed, v: View, c: char, maxSize: nat)
    requires Agree(seed, r, v) && OneWord(v.header) && Untruncated(Redelimit(v), maxSize)
    ensures var out := Parse(Mutate(seed, 1, c, maxSize));
      if Contains(v.header, MARKER + v.boundary)
      then out.Success? && out.value.content == r.content && Redelimited(r.head, out.value.head)
      else out == Failure(BoundaryMismatch)
  {
    hide Parse, ViewSeed, Contains, OneWord, Redelimited, Find, BoundaryPosition, ReadHead;
    if Contains(v.header, MARKER + v.boundary) {
      AcceptedView(seed, r, v);
      LiteralPosition(v.header, r.head);
      RedelimitedParsed(seed, r, v);
    } else {
      RedelimitRefused(seed, r, v);
    }
  }
}
