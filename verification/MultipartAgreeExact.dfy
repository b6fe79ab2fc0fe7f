/**
 When parser and mutator read the same boundary, for every accepted head: also for one in which
 `boundary=` stands in more than one place of the Content-Type line.
 */
module MultipartAgreeExact {
  import opened Wrappers
  import opened ByteStrings
  import opened MultipartParser
  import opened MultipartMutator
  import opened MultipartArms
  import opened MultipartAppend
  import opened MultipartRedelimit
  import opened MultipartRedelimitExact
  import opened MultipartAgree

  // ---------------------------------------------------------------- counting what a trim keeps

  lemma NoneDropped(s: string, c: char)
    requires c !in s
    ensures multiset(s)[c] == 0
  {
    assert c !in multiset(s);
  }

  lemma ThreeCounts(a: string, b: string, c: string, x: char)
    ensures multiset(a + b + c)[x] == multiset(a)[x] + multiset(b)[x] + multiset(c)[x]
  {
    assert multiset(a + b + c) == multiset(a) + multiset(b) + multiset(c);
  }

  /** Trimming drops no character that it is not meant to drop. */
  lemma TrimCount(s: string, drop: char -> bool, c: char)
    requires !drop(c)
    ensures multiset(Trim(s, drop))[c] == multiset(s)[c]
  {
    hide Trim, TrimLeft;
    var lo, hi := TrimPlace(s, drop);
    assert s == s[..lo] + s[lo..hi] + s[hi..];
    ThreeCounts(s[..lo], s[lo..hi], s[hi..], c);
    NoneDropped(s[..lo], c);
    NoneDropped(s[hi..], c);
  }

  lemma ValueCount(x: string)
    ensures multiset(StripQuotes(Strip(x)))['='] == multiset(x)['=']
  {
    hide Trim;
    TrimCount(x, IsSpace, '=');
    TrimCount(Strip(x), (c: char) => c == '"', '=');
  }

  /** What follows an equals sign in a value does not read as the whole value. */
  lemma ShorterTail(x: string, n: nat)
    requires n < |x| && x[n] == '='
    ensures StripQuotes(Strip(x[n + 1..])) != StripQuotes(Strip(x))
  {
    hide Trim;
    ValueCount(x);
    ValueCount(x[n + 1..]);
    assert x == x[..n] + [x[n]] + x[n + 1..];
    ThreeCounts(x[..n], [x[n]], x[n + 1..], '=');
  }

  // ---------------------------------------------------------------- a second marker in the parameter

  lemma MarkerLetters()
    ensures |MARKER| == 9 && MARKER[8] == '='
    ensures forall i | 0 <= i < 8 :: 'a' <= MARKER[i] <= 'z'
  {
  }

  lemma LetterLower(c: char)
    requires 'a' <= LowerChar(c) <= 'z'
    ensures c != '=' && c != ';' && !IsSpace(c)
  {
  }

  lemma LowerAt(s: string, x: string, q: nat, i: nat)
    requires OccursAt(Lower(s), x, q) && i < |x|
    ensures q + i < |s| && LowerChar(s[q + i]) == x[i]
  {
    hide Lower, OccursAt, LowerChar;
    PieceChar(Lower(s), x, q, i);
  }

  lemma EqualsOnly(c: char)
    requires LowerChar(c) == '='
    ensures c == '='
  {
  }

  /** Letters and an equals sign behind them, in any case. */
  lemma LettersLower(s: string, x: string, q: nat)
    requires OccursAt(Lower(s), x, q) && |x| == 9 && x[8] == '=' && forall i | 0 <= i < 8 :: 'a' <= x[i] <= 'z'
    ensures q + 9 <= |s| && s[q + 8] == '='
    ensures forall i {:trigger s[i]} | q <= i < q + 8 :: s[i] != '=' && s[i] != ';' && !IsSpace(s[i])
  {
    hide Lower, OccursAt, LowerChar, IsSpace;
    LowerAt(s, x, q, 8);
    EqualsOnly(s[q + 8]);
    forall i {:trigger s[i]} | q <= i < q + 8
      ensures s[i] != '=' && s[i] != ';' && !IsSpace(s[i])
    {
      LowerAt(s, x, q, i - q);
      LetterLower(s[i]);
    }
  }

  /** What matters about the characters of the marker in text of any case. */
  lemma MarkerLower(s: string, q: nat)
    requires OccursAt(Lower(s), MARKER, q)
    ensures q + 9 <= |s| && s[q + 8] == '='
    ensures forall i {:trigger s[i]} | q <= i < q + 8 :: s[i] != '=' && s[i] != ';' && !IsSpace(s[i])
  {
    hide Lower, OccursAt;
    MarkerLetters();
    LettersLower(s, MARKER, q);
  }

  /** Behind a marker further inside the boundary parameter there is less than the boundary. */
  lemma ItemElsewhere(item: string, boundary: string, q: nat)
    requires item != "" && !IsSpace(item[0]) && ReadItem(item) == Some((WORD, boundary))
    requires 0 < q && OccursAt(Lower(item), MARKER, q)
    ensures q + 9 <= |item| && StripQuotes(Strip(item[q + 9..])) != boundary
  {
    hide Trim, Lower, Find, OccursAt, IsSpace;
    MarkerLower(item, q);
    var e := Find(item, "=");
    ItemKey(item, WORD, boundary);
    OccursChar(item, '=', q + 8);
    OccursChar(item, '=', e);
    assert ['='] == "=";
    if e == q + 8 {
      KeyAlone(item[..e]);
    } else {
      assert e < q + 8;
      var x := item[e + 1..];
      ShorterTail(x, q + 7 - e);
      assert x[q + 8 - e..] == item[q + 9..];
    }
  }

  // ---------------------------------------------------------------- where the marker can stand

  lemma {:induction false} OffsetNext(parts: seq<string>, d: string, i: nat)
    requires i + 1 < |parts|
    ensures Offset(parts, d, i + 1) == Offset(parts, d, i) + |parts[i]| + |d|
    decreases i
  {
    if i > 0 {
      OffsetNext(parts[1..], d, i - 1);
    }
  }

  /** Before a parameter stands a semicolon, with nothing but white space between. */
  lemma BeforeInValue(value: string, m: nat) returns (s: nat)
    requires 1 <= m < |Split(value, ";")|
    ensures var params := Split(value, ";");
      var at := Offset(params, ";", m) + LeadSpace(params[m]);
      && s < at <= |value| && value[s] == ';' && forall i | s < i < at :: IsSpace(value[i])
  {
    hide Split, LeadSpace, OccursAt, IsSpace;
    var params := Split(value, ";");
    PieceEnd(value, ";", m - 1);
    OffsetNext(params, ";", m - 1);
    var o := Offset(params, ";", m);
    s := o - 1;
    FirstChar(value, ";", s);
    PieceAt(value, ";", m);
    OccursFits(value, params[m], o);
    forall i | s < i < o + LeadSpace(params[m])
      ensures IsSpace(value[i])
    {
      PieceChar(value, params[m], o, i - o);
      LeadIsSpace(params[m], i - o);
    }
  }

  lemma LeadIsSpace(s: string, i: nat)
    requires i < LeadSpace(s)
    ensures IsSpace(s[i])
  {
  }

  lemma NotBehind(s: string, n: nat, c: char, i: nat)
    requires n <= |s| && i < |s| && c !in s[n..] && s[i] == c
    ensures i < n
  {
    forall j | n <= j < |s|
      ensures s[j] != c
    {
      assert s[n..][j - n] == s[j];
    }
  }

  /** With no semicolon behind it, the marker does not stand before the parameter. */
  lemma NotBeforeParameter(line: string, value: string, m: nat, k: nat)
    requires ReadLine(line) == Some((CONTENT_TYPE, value)) && value != "" && 1 <= m < |Split(value, ";")|
    requires OccursAt(Lower(line), MARKER, k) && k + 9 <= |line| && ';' !in line[k + 9..]
    ensures Contains(line, ":")
    ensures LinePosition(line, Offset(Split(value, ";"), ";", m) + LeadSpace(Split(value, ";")[m])) <= k
  {
    hide Split, ReadLine, Lower, LeadSpace, OccursAt, Find, IsSpace, Offset;
    ValueInLine(line, CONTENT_TYPE, value);
    var start := LinePosition(line, 0);
    OccursFits(line, value, start);
    var s := BeforeInValue(value, m);
    var at := Offset(Split(value, ";"), ";", m) + LeadSpace(Split(value, ";")[m]);
    assert LinePosition(line, at) == start + at;
    MarkerLower(line, k);
    PieceChar(line, value, start, s);
    assert start + s < k by {
      NotBehind(line, k + 9, ';', start + s);
    }
    if k < start + at {
      PieceChar(line, value, start, k - start);
      assert false;
    }
  }

  lemma LowerInside(line: string, item: string, p: nat, k: nat)
    requires OccursAt(line, item, p) && OccursAt(Lower(line), MARKER, k) && p <= k && k + 9 <= p + |item|
    ensures OccursAt(Lower(item), MARKER, k - p)
  {
    hide Lower, OccursAt;
    MarkerLetters();
    OccursLower(line, item, p);
    OccursSlice(Lower(line), Lower(item), MARKER, p, k - p);
  }

  lemma AllSpace(s: string)
    requires forall i | 0 <= i < |s| :: IsSpace(s[i])
    ensures Strip(s) == ""
  {
    hide Trim;
    var lo, hi := TrimPlace(s, IsSpace);
    assert lo == hi;
  }

  /** Spaces behind a value do not matter. */
  lemma SpacesBehind(x: string, after: string)
    requires x == "" || !IsSpace(x[|x| - 1])
    requires forall i | 0 <= i < |after| :: IsSpace(after[i])
    ensures Strip(x + after) == Strip(x)
  {
    hide Trim, IsSpace;
    if x == "" {
      assert x + after == after;
      AllSpace(after);
      AllSpace(x);
    } else {
      TrimBehind(x, after, IsSpace);
    }
  }

  /** A marker behind the start of the last parameter: the text behind it does not read as the boundary. */
  lemma LastElsewhere(line: string, item: string, p: nat, after: string, k: nat, boundary: string)
    requires item != "" && !IsSpace(item[0]) && !IsSpace(item[|item| - 1])
    requires ReadItem(item) == Some((WORD, boundary))
    requires OccursAt(line, item, p) && p + |item| <= |line| && after == line[p + |item|..]
    requires forall i | 0 <= i < |after| :: IsSpace(after[i])
    requires OccursAt(Lower(line), MARKER, k) && p < k
    ensures k + 9 <= |line| && StripQuotes(Strip(line[k + 9..])) != boundary
  {
    hide Strip, StripQuotes, Lower, OccursAt, ReadItem, IsSpace;
    var n := p + |item|;
    MarkerEnd(line, n, after, k);
    LowerInside(line, item, p, k);
    ItemElsewhere(item, boundary, k - p);
    var x := item[k - p + 9..];
    TailAt(line, item, p, k - p + 9);
    SpacesBehind(x, after);
  }

  lemma MarkerEnd(line: string, n: nat, after: string, k: nat)
    requires n <= |line| && after == line[n..] && forall i | 0 <= i < |after| :: IsSpace(after[i])
    requires OccursAt(Lower(line), MARKER, k)
    ensures k + 9 <= n
  {
    hide Lower, OccursAt, IsSpace;
    MarkerLower(line, k);
    EqualsNoSpace();
    forall j | n <= j < |line|
      ensures IsSpace(line[j])
    {
      assert after[j - n] == line[j];
    }
  }

  lemma EqualsNoSpace()
    ensures !IsSpace('=')
  {
  }

  lemma TailAt(line: string, item: string, p: nat, n: nat)
    requires OccursAt(line, item, p) && n <= |item|
    ensures p + |item| <= |line| && line[p + n..] == item[n..] + line[p + |item|..]
  {
    assert item == line[p..p + |item|];
  }

  // ---------------------------------------------------------------- agreement

  /** The mutator's marker is the start of the parameter that the parser reads. */
  predicate AtParameter(header: string) {
    0 <= MutatorPlace(header) == BoundaryInLine(MutatorLine(header))
  }

  /** The parameter that names the boundary is the last one of the Content-Type value. */
  predicate LastNames(value: string) {
    var items := StripAll(Split(value, ";"));
    1 + FirstIndex(items[1..], NamesBoundary) == |items| - 1
  }

  /** The last parameter is not the one the parser reads, and behind its `boundary=` the same boundary stands again. */
  predicate RepeatedLater(value: string, boundary: string) {
    var items := StripAll(Split(value, ";"));
    var last := items[|items| - 1];
    var q := Find(Lower(last), MARKER);
    !LastNames(value) && 0 <= q && StripQuotes(Strip(last[q + 9..])) == boundary
  }

  /** A first marker with no semicolon behind it is the first marker of the last parameter. */
  lemma LastParameterTail(line: string, value: string, k: nat)
    requires ReadLine(line) == Some((CONTENT_TYPE, value)) && value != "" && 2 <= |Split(value, ";")|
    requires Find(Lower(line), MARKER) == k && k + 9 <= |line| && ';' !in line[k + 9..]
    ensures var params := Split(value, ";");
      var item := Strip(params[|params| - 1]);
      var q := Find(Lower(item), MARKER);
      0 <= q && q + 9 <= |item| && Strip(item[q + 9..]) == Strip(line[k + 9..])
  {
    hide Split, ReadLine, Lower, LeadSpace, OccursAt, Find, IsSpace, Offset, Strip, LinePosition;
    var m := |Split(value, ";")| - 1;
    var item := Strip(Split(value, ";")[m]);
    NotBeforeParameter(line, value, m, k);
    BehindParameter(line, value, m);
    var at := LinePosition(line, Offset(Split(value, ";"), ";", m) + LeadSpace(Split(value, ";")[m]));
    MarkerEnd(line, at + |item|, line[at + |item|..], k);
    var p, after := ItemInLine(line, value, m);
    LowerInside(line, item, p, k);
    FirstInside(line, item, p, k);
    StripEnds(Split(value, ";")[m]);
    var x := item[k - p + 9..];
    TailAt(line, item, p, k - p + 9);
    SpacesBehind(x, after);
  }

  lemma StripEnds(s: string)
    requires Strip(s) != ""
    ensures !IsSpace(Strip(s)[|Strip(s)| - 1])
  {
    hide TrimLeft, TrimRight;
  }

  /** The first marker of the line is also the first of the item that it stands in. */
  lemma FirstInside(line: string, item: string, p: nat, k: nat)
    requires OccursAt(line, item, p) && Find(Lower(line), MARKER) == k && p <= k
    requires OccursAt(Lower(item), MARKER, k - p)
    ensures Find(Lower(item), MARKER) == k - p
  {
    hide Lower, OccursAt;
    OccursLower(line, item, p);
    forall j: nat | OccursAt(Lower(item), MARKER, j)
      ensures k - p <= j
    {
      OccursCompose(Lower(line), Lower(item), MARKER, p, j);
    }
  }

  lemma OddTail(tail: string, boundary: string)
    requires PrintableBoundary(boundary) && Trim(tail, IsByteSpace) != Strip(tail)
    ensures StripQuotes(Trim(tail, IsByteSpace)) != boundary
  {
    hide Trim, PrintableBoundary;
    TrimAlike(tail);
    OddEdge(Trim(tail, IsByteSpace), boundary);
  }

  /** The boundary parameter on the mutator's line. */
  ghost predicate Located(line: string, item: string, p: nat, last: bool, boundary: string) {
    && item != "" && !IsSpace(item[0]) && !IsSpace(item[|item| - 1]) && ';' !in item
    && ReadItem(item) == Some((WORD, boundary)) && PrintableBoundary(boundary) && ';' !in boundary
    && OccursAt(line, item, p) && p + |item| <= |line|
    && var after := line[p + |item|..];
    if last then forall i | 0 <= i < |after| :: IsSpace(after[i]) else ';' in after
  }

  /** A marker at `k` with no semicolon behind it. */
  ghost predicate MarkerFree(line: string, k: nat) {
    OccursAt(Lower(line), MARKER, k) && k + 9 <= |line| && ';' !in line[k + 9..]
  }

  /** What the mutator reads behind its marker, against the boundary of the located parameter. */
  lemma MarkerDecides(line: string, item: string, p: nat, last: bool, boundary: string, k: nat)
    requires Located(line, item, p, last, boundary) && MarkerFree(line, k) && p <= k
    requires Trim(line[k + 9..], IsByteSpace) == Strip(line[k + 9..])
    ensures StripQuotes(Trim(line[k + 9..], IsByteSpace)) == boundary
      <==> (k == p || (!last && StripQuotes(Strip(line[k + 9..])) == boundary))
  {
    hide Trim, Lower, OccursAt, ReadItem, PrintableBoundary;
    if k == p {
      ItemStart(item, boundary);
      MarkerLower(line, k);
      PieceChar(line, item, p, 8);
      TailDecides(line, item, k, boundary);
    } else if last {
      LastElsewhere(line, item, p, line[p + |item|..], k, boundary);
    }
  }

  lemma ItemLacks(value: string, m: nat)
    requires m < |Split(value, ";")|
    ensures ';' !in Strip(Split(value, ";")[m])
  {
    hide Split, Trim, Contains;
    var raw := Split(value, ";")[m];
    SplitPiecesLack(value, ";");
    ContainsChar(raw, ';');
    assert [';'] == ";";
    if ';' in Strip(raw) {
      TrimmedChar(raw, IsSpace, ';');
    }
  }

  lemma ParameterOnLine(line: string, value: string, m: nat, boundary: string)
    requires ReadLine(line) == Some((CONTENT_TYPE, value)) && value != "" && 1 <= m < |Split(value, ";")|
    requires ReadItem(Strip(Split(value, ";")[m])) == Some((WORD, boundary)) && PrintableBoundary(boundary)
    ensures Contains(line, ":")
    ensures var params := Split(value, ";");
      var p := LinePosition(line, Offset(params, ";", m) + LeadSpace(params[m]));
      && Located(line, Strip(params[m]), p, m == |params| - 1, boundary)
      && forall k: nat :: MarkerFree(line, k) ==> p <= k
  {
    hide Split, ReadLine, Lower, Find, Strip, OccursAt, ReadItem, PrintableBoundary, LinePosition, LeadSpace,
      Offset, IsSpace, Located, MarkerFree;
    var params := Split(value, ";");
    StrippedEnds(params[m], boundary);
    var p, after := ItemInLine(line, value, m);
    NoSemicolon(value, m, boundary);
    ItemLacks(value, m);
    MakeLocated(line, Strip(params[m]), p, after, m == |params| - 1, boundary);
    forall k: nat | MarkerFree(line, k)
      ensures p <= k
    {
      FreeMarker(line, k);
      NotBeforeParameter(line, value, m, k);
    }
  }

  lemma MakeLocated(line: string, item: string, p: nat, after: string, last: bool, boundary: string)
    requires item != "" && !IsSpace(item[0]) && !IsSpace(item[|item| - 1]) && ';' !in item
    requires ReadItem(item) == Some((WORD, boundary)) && PrintableBoundary(boundary) && ';' !in boundary
    requires OccursAt(line, item, p) && p + |item| <= |line| && after == line[p + |item|..]
    requires if last then forall i | 0 <= i < |after| :: IsSpace(after[i]) else ';' in after
    ensures Located(line, item, p, last, boundary)
  {
    hide ReadItem, OccursAt, IsSpace, PrintableBoundary;
  }

  lemma FreeMarker(line: string, k: nat)
    requires MarkerFree(line, k)
    ensures OccursAt(Lower(line), MARKER, k) && k + 9 <= |line| && ';' !in line[k + 9..]
  {
    hide Lower, OccursAt;
  }

  /** The located parameter of an accepted head. */
  lemma ParameterLocated(header: string, head: Head) returns (item: string, p: nat, last: bool)
    requires ReadHead(header) == Success(head) && MutatorLine(header) != ""
    ensures Located(MutatorLine(header), item, p, last, head.boundary) && BoundaryInLine(MutatorLine(header)) == p
    ensures forall k: nat :: MarkerFree(MutatorLine(header), k) ==> p <= k
    ensures CONTENT_TYPE in head.headers
    ensures var value := head.headers[CONTENT_TYPE];
      && ReadLine(MutatorLine(header)) == Some((CONTENT_TYPE, value)) && value != ""
      && 2 <= |Split(value, ";")| && (last <==> LastNames(value))
  {
    hide ReadHead, Split, ReadLine, Lower, Find, Strip, OccursAt, LineBreak, ReadItem, PrintableBoundary,
      LinePosition, LeadSpace, Offset, BoundaryInLine, MutatorLine, Located, MarkerFree, NamesBoundary;
    var i := MutatorTakes(header, head);
    var j, m := ContentTypeAt(header, head);
    var line, value := MutatorLine(header), head.headers[CONTENT_TYPE];
    var params := Split(value, ";");
    ContentTypeNonempty(value);
    ParameterOnLine(line, value, m, head.boundary);
    NamedAfterFirst(StripAll(params), m, head.boundary);
    BoundaryInLineIs(line, value, m);
    item, p, last := Strip(params[m]), BoundaryInLine(line), m == |params| - 1;
  }

  lemma NamedAfterFirst(items: seq<string>, m: nat, boundary: string)
    requires 1 <= m < |items| && ReadItem(items[m]) == Some((WORD, boundary))
    requires forall i | 1 <= i < m :: !NamesBoundary(items[i])
    ensures m == 1 + FirstIndex(items[1..], NamesBoundary)
  {
    hide ReadItem;
    forall i | 0 <= i < m - 1
      ensures !NamesBoundary(items[1..][i])
    {
      assert items[1..][i] == items[i + 1];
    }
    NamedIndexIs(items[1..], m - 1);
  }

  /**
   For every accepted head, the mutator reads the boundary of the parser exactly when its parameter is
   plain and either is the one that the parser reads or repeats the boundary behind it.
   */
  lemma BoundaryAgreesExactly(header: string, head: Head)
    requires ReadHead(header) == Success(head)
    ensures ViewBoundary(header) == head.boundary
      <==> PlainParameter(header)
           && (AtParameter(header) || RepeatedLater(Get(head.headers, CONTENT_TYPE), head.boundary))
  {
    hide ReadHead, ReadLine, Split, Lower, Find, Strip, StripQuotes, OccursAt, MutatorLine, BoundaryInLine, Located,
      PrintableBoundary, LastNames, ViewBoundary;
    var boundary := head.boundary;
    var line := MutatorLine(header);
    var k := MutatorPlace(header);
    BoundaryOfHead(header, head);
    PrintableNonempty(boundary);
    if line == "" {
      NoMarker();
    }
    if 0 <= k {
      var item, p, last := ParameterLocated(header, head);
      var tail := line[k + 9..];
      LocatedBoundary(line, item, p, last, boundary);
      if ';' in tail {
        TailWithSemicolon(tail, boundary);
      } else if Trim(tail, IsByteSpace) != Strip(tail) {
        OddTail(tail, boundary);
      } else {
        assert MarkerFree(line, k);
        MarkerDecides(line, item, p, last, boundary, k);
        LastParameterTail(line, head.headers[CONTENT_TYPE], k);
      }
    }
  }

  lemma LocatedBoundary(line: string, item: string, p: nat, last: bool, boundary: string)
    requires Located(line, item, p, last, boundary)
    ensures ';' !in boundary && PrintableBoundary(boundary)
  {
  }

  lemma BoundaryOfHead(header: string, head: Head)
    requires ReadHead(header) == Success(head)
    ensures PrintableBoundary(head.boundary)
    ensures ViewBoundary(header) == if MutatorPlace(header) < 0 then ""
      else StripQuotes(Trim(MutatorLine(header)[MutatorPlace(header) + 9..], IsByteSpace))
  {
    hide ReadHeaders, ReadRequestLine, Split, Trim, Lower, Find, ContentTypeLine, LineBreak;
  }

  lemma HeadOfView(seed: string, r: Seed, v: View)
    requires Parse(seed) == Success(r) && ViewSeed(seed) == Some(v)
    ensures ReadHead(v.header) == Success(r.head)
  {
    hide ReadHead, ReadBody, ViewBoundary, FindFile, Split, Find, ViewFile, BlankLine;
  }

  /** The same for whole seeds. */
  lemma AgreesExactly(seed: string, r: Seed, v: View)
    requires Parse(seed) == Success(r) && ViewSeed(seed) == Some(v)
    ensures Agree(seed, r, v)
      <==> PlainParameter(v.header)
           && (AtParameter(v.header) || RepeatedLater(Get(r.head.headers, CONTENT_TYPE), r.head.boundary))
  {
    hide ReadHead, ReadBody, ViewBoundary, FindFile, PlainParameter, AtParameter, RepeatedLater, Split, Find, ViewFile;
    BoundaryAgreesExactly(v.header, r.head);
  }

  // ---------------------------------------------------------------- one word `boundary`

  lemma OneWordPlace(header: string, line: string, o: nat, item: string, boundary: string, p: nat, k: nat)
    requires OneWord(header) && OccursAt(header, line, o) && OccursAt(line, item, p)
    requires item != "" && !IsSpace(item[0]) && ReadItem(item) == Some((WORD, boundary))
    requires OccursAt(Lower(line), MARKER, k)
    ensures k == p
  {
    hide Lower, OccursAt, ReadItem;
    ItemStart(item, boundary);
    OccursLower(line, item, p);
    OccursCompose(Lower(line), Lower(item), WORD, p, 0);
    MarkerStart("");
    assert MARKER + "" == MARKER;
    OccursCompose(Lower(line), MARKER, WORD, k, 0);
    OccursLower(header, line, o);
    OccursCompose(Lower(header), Lower(line), WORD, o, p);
    OccursCompose(Lower(header), Lower(line), WORD, o, k);
  }

  /** With one word `boundary` in the header block the mutator's marker can only be the parameter. */
  lemma OneWordAt(header: string, head: Head)
    requires ReadHead(header) == Success(head) && OneWord(header) && 0 <= MutatorPlace(header)
    ensures AtParameter(header)
  {
    hide ReadHead, Split, Lower, Find, OccursAt, ContentTypeLine, LineBreak, OneWord, ReadItem, PrintableBoundary,
      BoundaryInLine;
    var line := MutatorLine(header);
    if line == "" {
      NoMarker();
    }
    var i := LineChosen(Split(header, LineBreak(header)));
    var o := Offset(Split(header, LineBreak(header)), LineBreak(header), i);
    PieceAt(header, LineBreak(header), i);
    var item, p, _ := ParameterLocated(header, head);
    OneWordPlace(header, line, o, item, head.boundary, p, MutatorPlace(header));
  }

  /**
   For an accepted head in which the word `boundary` stands once, the mutator reads the boundary of
   the parser exactly when the parameter is plain.
   */
  lemma BoundaryAgrees(header: string, head: Head)
    requires ReadHead(header) == Success(head) && OneWord(header)
    ensures ViewBoundary(header) == head.boundary <==> PlainParameter(header)
  {
    hide ReadHead, OneWord, ViewBoundary, AtParameter, RepeatedLater, MutatorPlace, MutatorLine, Trim;
    BoundaryAgreesExactly(header, head);
    if 0 <= MutatorPlace(header) {
      OneWordAt(header, head);
    }
  }

  // ---------------------------------------------------------------- arm 1 in terms of the text

  /** The parameter is in lower case and its value stands right behind the equals sign, unquoted. */
  predicate Unquoted(header: string) {
    var line := MutatorLine(header);
    var k := MutatorPlace(header);
    && 0 <= k && line[k..k + 9] == MARKER
    && k + 9 < |line| && !IsSpace(line[k + 9]) && line[k + 9] != '"'
  }

  lemma TrimFront(s: string, drop: char -> bool)
    requires s != "" && !drop(s[0])
    ensures Trim(s, drop) != "" && StartsWith(s, Trim(s, drop)) && Trim(s, drop)[0] == s[0]
  {
    hide Trim, TrimLeft;
    var lo, hi := TrimPlace(s, drop);
    assert lo == 0 && hi > 0;
    assert s[lo..hi] == s[..hi];
  }

  lemma QuotesFront(boundary: string, s: string)
    requires boundary != "" && StripQuotes(s) == boundary
    ensures boundary[0] != '"' && |boundary| <= |s|
  {
    hide Trim, Contains;
    var drop := (c: char) => c == '"';
    TrimContained(s, drop);
    ContainsLength(s, boundary);
  }

  /** An unquoted value starts with the boundary. */
  lemma UnquotedFront(tail: string, boundary: string)
    requires StripQuotes(Trim(tail, IsByteSpace)) == boundary
    requires tail != "" && !IsSpace(tail[0]) && tail[0] != '"'
    ensures StartsWith(tail, boundary)
  {
    hide Trim;
    var y := Trim(tail, IsByteSpace);
    TrimFront(tail, IsByteSpace);
    TrimFront(y, (c: char) => c == '"');
    assert tail[..|y|][..|boundary|] == tail[..|boundary|];
  }

  lemma MarkerAt(line: string, k: nat, boundary: string)
    requires k + 9 <= |line|
    ensures OccursAt(line, MARKER + boundary, k)
      <==> line[k..k + 9] == MARKER && StartsWith(line[k + 9..], boundary)
  {
    var n := k + 9 + |boundary|;
    if n <= |line| {
      assert line[k..n] == line[k..k + 9] + line[k + 9..][..|boundary|];
      MarkerChars(boundary);
      if line[k..n] == MARKER + boundary {
        assert line[k..n][..9] == line[k..k + 9];
        assert line[k..n][9..] == line[k + 9..][..|boundary|];
      }
    }
  }

  lemma OccursSlice(s: string, t: string, x: string, o: nat, k: nat)
    requires OccursAt(s, t, o) && OccursAt(s, x, o + k) && k + |x| <= |t|
    ensures OccursAt(t, x, k)
  {
    forall i | 0 <= i < |x|
      ensures t[k + i] == x[i]
    {
      PieceChar(s, t, o, k + i);
      PieceChar(s, x, o + k, i);
    }
    assert t[k..k + |x|] == x;
  }

  /** The literal that arm 1 replaces is there exactly for an unquoted parameter. */
  lemma LiteralIsUnquoted(header: string)
    requires OneWord(header) && PrintableBoundary(ViewBoundary(header))
    ensures Contains(header, MARKER + ViewBoundary(header)) <==> Unquoted(header)
  {
    hide Split, Lower, Trim, OccursAt, Find, ContentTypeLine, LineBreak, OneWord, IsSpace, StartsWith;
    var boundary := ViewBoundary(header);
    var line := MutatorLine(header);
    var k := MutatorPlace(header);
    PrintableNonempty(boundary);
    if line == "" {
      NoMarker();
    }
    var i := LineChosen(Split(header, LineBreak(header)));
    var o := Offset(Split(header, LineBreak(header)), LineBreak(header), i);
    PieceAt(header, LineBreak(header), i);
    var tail := line[k + 9..];
    MarkerAt(line, k, boundary);
    if Unquoted(header) {
      UnquotedFront(tail, boundary);
      OccursCompose(header, line, MARKER + boundary, o, k);
    }
    if Contains(header, MARKER + boundary) {
      LiteralPlace(header, line, o, k, boundary);
      TailLength(tail, boundary);
      OccursSlice(header, line, MARKER + boundary, o, k);
      UnquotedTail(tail, boundary);
    }
  }

  lemma TailLength(tail: string, boundary: string)
    requires StripQuotes(Trim(tail, IsByteSpace)) == boundary && boundary != ""
    ensures |boundary| <= |tail| && boundary[0] != '"'
  {
    hide Trim, Contains;
    QuotesFront(boundary, Trim(tail, IsByteSpace));
    TrimContained(tail, IsByteSpace);
    ContainsLength(tail, Trim(tail, IsByteSpace));
  }

  lemma UnquotedTail(tail: string, boundary: string)
    requires StartsWith(tail, boundary) && PrintableBoundary(boundary) && boundary[0] != '"'
    ensures tail != "" && !IsSpace(tail[0]) && tail[0] != '"'
  {
    assert tail[0] == tail[..|boundary|][0] == boundary[0];
  }

  lemma LiteralPlace(header: string, line: string, o: nat, k: nat, boundary: string)
    requires OneWord(header) && OccursAt(header, line, o) && OccursAt(Lower(line), MARKER, k)
    requires Contains(header, MARKER + boundary)
    ensures OccursAt(header, MARKER + boundary, o + k)
  {
    hide Lower, Find, OccursAt;
    var h := Find(header, MARKER + boundary);
    MarkerStart("");
    assert MARKER + "" == MARKER;
    OccursCompose(Lower(line), MARKER, WORD, k, 0);
    OccursLower(header, line, o);
    OccursCompose(Lower(header), Lower(line), WORD, o, k);
    MarkerStart(boundary);
    OccursCompose(header, MARKER + boundary, WORD, h, 0);
    OccursLower(header, WORD, h);
    WordLower();
    assert h == o + k;
  }

  /**
   Arm 1 on an accepted seed with one word `boundary`, that word a plain parameter: an unquoted
   value keeps the meaning under the longer boundary, a quoted one makes the result unreadable.
   */
  lemma PlainMeaning(seed: string, r: Seed, v: View, c: char, maxSize: nat)
    requires Parse(seed) == Success(r) && ViewSeed(seed) == Some(v) && OneWord(v.header)
    requires PlainParameter(v.header) && Untruncated(Redelimit(v), maxSize)
    ensures var out := Parse(Mutate(seed, 1, c, maxSize));
      if Unquoted(v.header)
      then out.Success? && out.value.content == r.content && Redelimited(r.head, out.value.head)
      else out == Failure(BoundaryMismatch)
  {
    hide ReadHead, ReadBody, OneWord, PlainParameter, Split, Find, ViewFile, Unquoted, Redelimited, Parse, ViewBoundary;
    AgreesExactly(seed, r, v);
    HeadOfView(seed, r, v);
    PlainAt(v.header, r.head);
    ViewedBoundary(seed, v);
    BoundaryPrintable(seed, r);
    LiteralIsUnquoted(v.header);
    RedelimitMeaning(seed, r, v, c, maxSize);
  }

  lemma ViewedBoundary(seed: string, v: View)
    requires ViewSeed(seed) == Some(v)
    ensures v.boundary == ViewBoundary(v.header)
  {
    hide ViewBoundary, Split, Find, ViewFile, FindFile;
  }

  lemma PlainAt(header: string, head: Head)
    requires ReadHead(header) == Success(head) && OneWord(header) && PlainParameter(header)
    ensures AtParameter(header)
  {
    hide ReadHead, OneWord, AtParameter, MutatorLine, Trim;
    OneWordAt(header, head);
  }
}
