/**
 Byte strings and the handful of Python `bytes`/`str` operations that the multipart
 code is built from.  A byte is a `char` below 256, so that literals stay readable.
 */
module ByteStrings {
  import opened Wrappers

  const CRLF := "\r\n"
  const LF := "\n"

  // ---------------------------------------------------------------- searching

  /** `d` occurs in `s` at offset `i`. */
  predicate OccursAt(s: string, d: string, i: int) {
    0 <= i && i + |d| <= |s| && s[i..i + |d|] == d
  }

  function FindFrom(s: string, d: string, i: nat): (r: int)
    requires i <= |s|
    ensures r < 0 ==> r == -1 && forall k | i <= k :: !OccursAt(s, d, k)
    ensures 0 <= r ==> i <= r && OccursAt(s, d, r) && forall k | i <= k < r :: !OccursAt(s, d, k)
    decreases |s| - i
  {
    if |s| < i + |d| then -1
    else if s[i..i + |d|] == d then i
    else FindFrom(s, d, i + 1)
  }

  /** The leftmost occurrence of `d`, or -1. */
  function Find(s: string, d: string): (r: int)
    ensures r < 0 ==> r == -1 && forall k :: !OccursAt(s, d, k)
    ensures 0 <= r ==> r + |d| <= |s| && OccursAt(s, d, r) && forall k | k < r :: !OccursAt(s, d, k)
  {
    FindFrom(s, d, 0)
  }

  predicate Contains(s: string, d: string) {
    0 <= Find(s, d)
  }

  /** `s.split(d, 1)` when `d` occurs. */
  function Cut(s: string, d: string): Option<(string, string)> {
    var k := Find(s, d);
    if k < 0 then None else Some((s[..k], s[k + |d|..]))
  }

  /** `s.split(d)`: cut at the leftmost non-overlapping occurrences. */
  function Split(s: string, d: string): (parts: seq<string>)
    requires d != ""
    ensures 1 <= |parts|
    decreases |s|
  {
    var k := Find(s, d);
    if k < 0 then [s] else [s[..k]] + Split(s[k + |d|..], d)
  }

  /** `d.join(parts)` */
  function Join(parts: seq<string>, d: string): string
    requires 1 <= |parts|
  {
    if |parts| == 1 then parts[0] else parts[0] + d + Join(parts[1..], d)
  }

  /** No part holds the delimiter, and no part's tail completes one with the delimiter after it. */
  predicate Clean(parts: seq<string>, d: string)
    requires 1 <= |parts|
  {
    && (forall i | 0 <= i < |parts| - 1 :: Find(parts[i] + d, d) == |parts[i]|)
    && !Contains(parts[|parts| - 1], d)
  }

  lemma {:induction false} JoinAppend(a: seq<string>, b: seq<string>, d: string)
    requires 1 <= |a| && 1 <= |b|
    ensures Join(a + b, d) == Join(a, d) + d + Join(b, d)
    decreases |a|
  {
    if |a| == 1 {
      assert (a + b)[1..] == b;
    } else {
      assert (a + b)[1..] == a[1..] + b;
      JoinAppend(a[1..], b, d);
      assert a[0] + d + (Join(a[1..], d) + d + Join(b, d)) == (a[0] + d + Join(a[1..], d)) + d + Join(b, d);
    }
  }

  /** A joined text around one of its inner parts. */
  lemma JoinAround(parts: seq<string>, k: nat, d: string)
    requires 1 <= k < |parts| - 1
    ensures Join(parts, d) == Join(parts[..k], d) + d + parts[k] + d + Join(parts[k + 1..], d)
  {
    assert parts == parts[..k] + parts[k..];
    JoinAppend(parts[..k], parts[k..], d);
    assert parts[k..][1..] == parts[k + 1..];
    assert Join(parts[..k], d) + d + (parts[k] + d + Join(parts[k + 1..], d))
      == Join(parts[..k], d) + d + parts[k] + d + Join(parts[k + 1..], d);
  }

  lemma OccursInPrefix(s: string, t: string, d: string, k: int)
    requires k + |d| <= |s|
    ensures OccursAt(s + t, d, k) <==> OccursAt(s, d, k)
  {
    if 0 <= k {
      assert (s + t)[k..k + |d|] == s[k..k + |d|];
    }
  }

  lemma OccursInSuffix(s: string, t: string, d: string, k: int)
    requires |s| <= k
    ensures OccursAt(s + t, d, k) <==> OccursAt(t, d, k - |s|)
  {
    if k + |d| <= |s + t| {
      assert (s + t)[k..k + |d|] == t[k - |s|..k - |s| + |d|];
    }
  }

  /** What follows the first delimiter has no say in where that delimiter is found. */
  lemma FindDelimiter(p: string, d: string, rest: string)
    ensures Find(p + d + rest, d) == |p| <==> Find(p + d, d) == |p|
  {
    hide OccursAt;
    forall k | k <= |p|
      ensures OccursAt(p + d + rest, d, k) <==> OccursAt(p + d, d, k)
    {
      OccursInPrefix(p + d, rest, d, k);
    }
    OccursInSuffix(p, d, d, |p|);
  }

  lemma CutParts(s: string, d: string)
    requires Contains(s, d)
    ensures var k := Find(s, d);
      && Cut(s, d) == Some((s[..k], s[k + |d|..]))
      && s == s[..k] + d + s[k + |d|..] && Find(s[..k] + d, d) == k
  {
    var k := Find(s, d);
    assert s == s[..k] + d + s[k + |d|..];
    FindDelimiter(s[..k], d, s[k + |d|..]);
  }

  lemma SplitCut(s: string, d: string)
    requires d != ""
    ensures var k := Find(s, d);
      Split(s, d) == if k < 0 then [s] else [s[..k]] + Split(s[k + |d|..], d)
  {
    hide Find;
  }

  lemma CleanTail(parts: seq<string>, d: string)
    requires 2 <= |parts| && Clean(parts, d)
    ensures Clean(parts[1..], d) && Find(parts[0] + d, d) == |parts[0]|
  {
    hide Find;
    forall i | 0 <= i < |parts[1..]| - 1
      ensures Find(parts[1..][i] + d, d) == |parts[1..][i]|
    {
      assert parts[1..][i] == parts[i + 1];
    }
  }

  lemma {:induction false} SplitJoin(parts: seq<string>, d: string)
    requires d != "" && 1 <= |parts| && Clean(parts, d)
    ensures Split(Join(parts, d), d) == parts
    decreases |parts|
  {
    hide OccursAt, Find, Split;
    var s := Join(parts, d);
    SplitCut(s, d);
    if |parts| > 1 {
      CleanTail(parts, d);
      var rest := Join(parts[1..], d);
      assert s == parts[0] + d + rest;
      FindDelimiter(parts[0], d, rest);
      assert s[..|parts[0]|] == parts[0];
      assert s[|parts[0]| + |d|..] == rest;
      SplitJoin(parts[1..], d);
    }
  }

  lemma CleanCons(p: string, parts: seq<string>, d: string)
    requires 1 <= |parts| && Clean(parts, d) && Find(p + d, d) == |p|
    ensures Clean([p] + parts, d)
  {
    hide Find;
    var all := [p] + parts;
    forall i | 0 <= i < |all| - 1
      ensures Find(all[i] + d, d) == |all[i]|
    {
      if i > 0 {
        assert all[i] == parts[i - 1];
      }
    }
  }

  lemma {:induction false} JoinSplit(s: string, d: string)
    requires d != ""
    ensures Join(Split(s, d), d) == s && Clean(Split(s, d), d)
    decreases |s|
  {
    hide OccursAt, Find;
    var k := Find(s, d);
    if 0 <= k {
      var tail := Split(s[k + |d|..], d);
      JoinSplit(s[k + |d|..], d);
      assert ([s[..k]] + tail)[1..] == tail;
      CutParts(s, d);
      CleanCons(s[..k], tail, d);
    }
  }

  /** Splitting undoes joining exactly for clean parts. */
  lemma SplitInvertsJoin(parts: seq<string>, d: string)
    requires d != "" && 1 <= |parts|
    ensures Split(Join(parts, d), d) == parts <==> Clean(parts, d)
  {
    if Clean(parts, d) {
      SplitJoin(parts, d);
    }
    JoinSplit(Join(parts, d), d);
  }

  // ---------------------------------------------------------------- substrings

  lemma ContainsTransitive(s: string, t: string, d: string)
    requires Contains(s, t) && Contains(t, d)
    ensures Contains(s, d)
  {
    var i := Find(s, t);
    var j := Find(t, d);
    assert s[i + j..i + j + |d|] == s[i..i + |t|][j..j + |d|];
    assert OccursAt(s, d, i + j);
  }

  lemma CharOf(s: string, d: string, c: char)
    requires Contains(s, d) && c in d
    ensures c in s
  {
    var k := Find(s, d);
    var j :| 0 <= j < |d| && d[j] == c;
    assert s[k..k + |d|][j] == s[k + j];
  }

  lemma LacksChar(s: string, d: string, c: char)
    requires c in d && c !in s
    ensures !Contains(s, d)
  {
    if Contains(s, d) {
      CharOf(s, d, c);
    }
  }

  lemma ContainsLength(s: string, d: string)
    requires Contains(s, d)
    ensures |d| <= |s|
  {
  }

  lemma SliceContained(s: string, i: nat, j: nat)
    requires i <= j <= |s|
    ensures Contains(s, s[i..j])
  {
    assert OccursAt(s, s[i..j], i);
  }

  /** A slice holds nothing that the whole does not hold. */
  lemma SliceLacks(s: string, i: nat, j: nat, d: string)
    requires i <= j <= |s| && !Contains(s, d)
    ensures !Contains(s[i..j], d)
  {
    if Contains(s[i..j], d) {
      SliceContained(s, i, j);
      ContainsTransitive(s, s[i..j], d);
    }
  }

  /** Dropping text before the first occurrence moves that occurrence forward. */
  lemma FindShift(s: string, n: nat, d: string)
    requires n <= |s| && n <= Find(s, d)
    ensures Find(s[n..], d) == Find(s, d) - n
  {
    hide OccursAt;
    var t := s[n..];
    assert s == s[..n] + t;
    forall j | 0 <= j
      ensures OccursAt(t, d, j) <==> OccursAt(s, d, n + j)
    {
      OccursInSuffix(s[..n], t, d, n + j);
    }
    assert OccursAt(t, d, Find(s, d) - n);
    var f := Find(t, d);
    assert OccursAt(s, d, n + f);
  }

  /** Nothing before the first occurrence holds another one. */
  lemma HeadLacks(s: string, d: string)
    requires d != "" && Find(s, d) >= 0
    ensures !Contains(s[..Find(s, d)], d)
  {
    var k := Find(s, d);
    if Contains(s[..k], d) {
      var j := Find(s[..k], d);
      assert s[..k][j..j + |d|] == s[j..j + |d|];
      assert OccursAt(s, d, j);
    }
  }

  lemma EmptyLacks(d: string)
    requires d != ""
    ensures !Contains("", d)
  {
  }

  lemma FirstChar(s: string, d: string, i: int)
    requires OccursAt(s, d, i) && d != ""
    ensures 0 <= i < |s| && s[i] == d[0] && d[0] in d
  {
    assert s[i..i + |d|][0] == s[i];
  }

  lemma OccursFits(s: string, d: string, i: int)
    requires OccursAt(s, d, i)
    ensures 0 <= i && i + |d| <= |s|
  {
  }

  ghost predicate PiecesLack(pieces: seq<string>, s: string, d: string) {
    forall i | 0 <= i < |pieces| :: !Contains(pieces[i], d) && Contains(s, pieces[i])
  }

  lemma MorePieces(head: string, rest: seq<string>, t: string, s: string, d: string)
    requires !Contains(head, d) && Contains(s, head) && PiecesLack(rest, t, d) && Contains(s, t)
    ensures PiecesLack([head] + rest, s, d)
  {
    hide Contains;
    forall i | 0 <= i < |rest|
      ensures Contains(s, rest[i])
    {
      ContainsTransitive(s, t, rest[i]);
    }
  }

  lemma WholePiece(s: string, d: string)
    requires Find(s, d) < 0
    ensures PiecesLack([s], s, d)
  {
    assert OccursAt(s, s, 0);
  }

  lemma {:induction false} SplitPiecesLack(s: string, d: string)
    requires d != ""
    ensures PiecesLack(Split(s, d), s, d)
    decreases |s|
  {
    hide PiecesLack, Contains, OccursAt;
    var k := Find(s, d);
    if k < 0 {
      WholePiece(s, d);
    } else {
      var t := s[k + |d|..];
      SplitPiecesLack(t, d);
      SliceContained(s, k + |d|, |s|);
      SliceContained(s, 0, k);
      HeadLacks(s, d);
      assert t == s[k + |d|..|s|] && s[..k] == s[0..k];
      MorePieces(s[..k], Split(t, d), t, s, d);
    }
  }

  /** An occurrence cannot reach across a character that the delimiter does not have. */
  lemma NoStraddle(p: string, c: char, q: string, d: string, k: int)
    requires c !in d && OccursAt(p + [c] + q, d, k) && d != ""
    ensures (k + |d| <= |p| && OccursAt(p, d, k)) || (|p| + 1 <= k && OccursAt(q, d, k - |p| - 1))
  {
    var s := p + [c] + q;
    forall m | k <= m < k + |d|
      ensures s[m] in d
    {
      assert s[m] == s[k..k + |d|][m - k];
    }
    assert s[|p|] == c;
    if k + |d| <= |p| {
      OccursInPrefix(p, [c] + q, d, k);
      assert s == p + ([c] + q);
    } else if |p| < k {
      OccursInSuffix(p + [c], q, d, k);
    }
  }

  lemma ContainsAcross(p: string, c: char, q: string, d: string)
    requires c !in d && d != ""
    ensures Contains(p + [c] + q, d) <==> Contains(p, d) || Contains(q, d)
  {
    var s := p + [c] + q;
    if Contains(s, d) {
      NoStraddle(p, c, q, d, Find(s, d));
    }
    if Contains(p, d) {
      assert s == p + ([c] + q);
      OccursInPrefix(p, [c] + q, d, Find(p, d));
    }
    if Contains(q, d) {
      OccursInSuffix(p + [c], q, d, |p| + 1 + Find(q, d));
    }
  }

  /** No character of `f` is in `d`. */
  predicate Foreign(f: string, d: string) {
    forall i | 0 <= i < |f| :: f[i] !in d
  }

  /** Foreign text is transparent to a search. */
  lemma {:induction false} ContainsAcrossText(p: string, f: string, q: string, d: string)
    requires f != "" && Foreign(f, d) && d != ""
    ensures Contains(p + f + q, d) <==> Contains(p, d) || Contains(q, d)
    decreases |f|
  {
    var c, g := f[0], f[1..];
    assert p + f + q == p + [c] + (g + q);
    ContainsAcross(p, c, g + q, d);
    if g == "" {
      assert g + q == q;
    } else {
      assert "" + g + q == g + q;
      ContainsAcrossText("", g, q, d);
      assert Contains("", d) ==> OccursAt("", d, Find("", d));
    }
  }

  /** A joined text lacks `w` when the parts do and the delimiter is foreign to `w`. */
  lemma {:induction false} JoinLacks(parts: seq<string>, d: string, w: string)
    requires 1 <= |parts| && d != "" && w != "" && Foreign(d, w)
    ensures Contains(Join(parts, d), w) <==> exists i | 0 <= i < |parts| :: Contains(parts[i], w)
    decreases |parts|
  {
    if |parts| == 1 {
    } else {
      var rest := parts[1..];
      ContainsAcrossText(parts[0], d, Join(rest, d), w);
      JoinLacks(rest, d, w);
      if i :| 0 <= i < |parts| && Contains(parts[i], w) {
        if i > 0 {
          assert rest[i - 1] == parts[i];
        }
      }
      if i :| 0 <= i < |rest| && Contains(rest[i], w) {
        assert parts[i + 1] == rest[i];
      }
    }
  }

  /** Text that ends in a character foreign to the delimiter never runs into the delimiter after it. */
  lemma CleanPart(p: string, c: char, d: string)
    requires c !in d && d != "" && !Contains(p, d)
    ensures Find(p + [c] + d, d) == |p| + 1
  {
    var s := p + [c] + d;
    OccursInSuffix(p + [c], d, d, |p| + 1);
    forall k | k < |p| + 1
      ensures !OccursAt(s, d, k)
    {
      if OccursAt(s, d, k) {
        NoStraddle(p, c, d, d, k);
      }
    }
  }

  // ---------------------------------------------------------------- one-character delimiters

  lemma OccursChar(s: string, c: char, k: nat)
    requires k < |s|
    ensures OccursAt(s, [c], k) <==> s[k] == c
  {
    assert s[k..k + 1] == [s[k]];
  }

  lemma ContainsChar(s: string, c: char)
    ensures Contains(s, [c]) <==> c in s
  {
    if Contains(s, [c]) {
      OccursChar(s, c, Find(s, [c]));
    }
    if c in s {
      var k :| 0 <= k < |s| && s[k] == c;
      OccursChar(s, c, k);
    }
  }

  lemma FindChar(p: string, c: char, q: string)
    requires c !in p
    ensures Find(p + [c] + q, [c]) == |p|
  {
    var s := p + [c] + q;
    OccursChar(s, c, |p|);
    forall k | 0 <= k < |p|
      ensures !OccursAt(s, [c], k)
    {
      OccursChar(s, c, k);
      assert s[k] == p[k];
    }
  }

  lemma CutChar(p: string, c: char, q: string)
    requires c !in p
    ensures Cut(p + [c] + q, [c]) == Some((p, q))
  {
    var s := p + [c] + q;
    FindChar(p, c, q);
    assert s[..|p|] == p;
    assert s[|p| + 1..] == q;
  }

  lemma SplitChar(p: string, c: char, q: string)
    requires c !in p
    ensures Split(p + [c] + q, [c]) == [p] + Split(q, [c])
  {
    CutChar(p, c, q);
  }

  lemma SplitNone(s: string, d: string)
    requires d != "" && !Contains(s, d)
    ensures Split(s, d) == [s]
  {
  }

  // ---------------------------------------------------------------- character operations

  predicate IsAscii(s: string) {
    forall i | 0 <= i < |s| :: s[i] < 128 as char
  }

  /** White space as `str.strip` and `str.split` see it, within ASCII. */
  predicate IsSpace(c: char) {
    c == ' ' || '\t' <= c <= '\r' || 28 as char <= c <= 31 as char
  }

  /** White space as `bytes.strip` sees it. */
  predicate IsByteSpace(c: char) {
    c == ' ' || '\t' <= c <= '\r'
  }

  function LowerChar(c: char): char {
    if 'A' <= c <= 'Z' then c + 32 as char else c
  }

  function Lower(s: string): (r: string)
    ensures |r| == |s| && forall i | 0 <= i < |s| :: r[i] == LowerChar(s[i])
  {
    if s == "" then "" else [LowerChar(s[0])] + Lower(s[1..])
  }

  /** No capital is left, each becoming the letter at the same place of the alphabet; all else stays. */
  lemma LowerFolds(s: string)
    ensures |Lower(s)| == |s|
    ensures forall i | 0 <= i < |s| :: !('A' <= Lower(s)[i] <= 'Z')
    ensures forall i | 0 <= i < |s| ::
      if 'A' <= s[i] <= 'Z' then Lower(s)[i] - 'a' == s[i] - 'A' else Lower(s)[i] == s[i]
  {
  }

  lemma LowerIs(s: string, t: string)
    requires |s| == |t| && forall i | 0 <= i < |s| :: LowerChar(s[i]) == t[i]
    ensures Lower(s) == t
  {
  }

  function TrimLeft(s: string, drop: char -> bool): (r: string)
    ensures |r| <= |s|
    ensures r != "" ==> !drop(r[0])
    ensures forall i | 0 <= i < |s| - |r| :: drop(s[i])
  {
    if s != "" && drop(s[0]) then TrimLeft(s[1..], drop) else s
  }

  function TrimRight(s: string, drop: char -> bool): (r: string)
    ensures |r| <= |s| && r == s[..|r|]
    ensures r != "" ==> !drop(r[|r| - 1])
    ensures forall i | |r| <= i < |s| :: drop(s[i])
  {
    if s != "" && drop(s[|s| - 1]) then TrimRight(s[..|s| - 1], drop) else s
  }

  /** What is left of the front is the end of the text. */
  lemma {:induction false} TrimLeftSlice(s: string, drop: char -> bool)
    ensures TrimLeft(s, drop) == s[|s| - |TrimLeft(s, drop)|..]
    decreases |s|
  {
    if s != "" && drop(s[0]) {
      TrimLeftSlice(s[1..], drop);
    }
  }

  function Trim(s: string, drop: char -> bool): (r: string) {
    TrimRight(TrimLeft(s, drop), drop)
  }

  /** `str.strip()` */
  function Strip(s: string): string {
    Trim(s, IsSpace)
  }

  /** `s.strip('"')` */
  function StripQuotes(s: string): string {
    Trim(s, (c: char) => c == '"')
  }

  lemma TrimContained(s: string, drop: char -> bool)
    ensures Contains(s, Trim(s, drop))
    ensures Trim(s, drop) != "" ==>
      !drop(Trim(s, drop)[0]) && !drop(Trim(s, drop)[|Trim(s, drop)| - 1])
  {
    var l := TrimLeft(s, drop);
    var r := TrimRight(l, drop);
    TrimLeftSlice(s, drop);
    SliceContained(l, 0, |r|);
    SliceContained(s, |s| - |l|, |s|);
    assert s[|s| - |l|..|s|] == l;
    ContainsTransitive(s, l, r);
  }

  /** Trimming leaves text alone whose ends are not dropped. */
  lemma TrimKeeps(s: string, drop: char -> bool)
    requires s != "" ==> !drop(s[0]) && !drop(s[|s| - 1])
    ensures Trim(s, drop) == s
  {
  }

  lemma {:induction false} TrimLeftIs(s: string, drop: char -> bool, lo: nat)
    requires lo < |s| && !drop(s[lo]) && forall i | 0 <= i < lo :: drop(s[i])
    ensures TrimLeft(s, drop) == s[lo..]
    decreases lo
  {
    if lo > 0 {
      TrimLeftIs(s[1..], drop, lo - 1);
      assert s[1..][lo - 1..] == s[lo..];
    }
  }

  lemma {:induction false} TrimRightIs(s: string, drop: char -> bool, hi: nat)
    requires 0 < hi <= |s| && !drop(s[hi - 1]) && forall i | hi <= i < |s| :: drop(s[i])
    ensures TrimRight(s, drop) == s[..hi]
    decreases |s| - hi
  {
    if hi < |s| {
      TrimRightIs(s[..|s| - 1], drop, hi);
      assert s[..|s| - 1][..hi] == s[..hi];
    }
  }

  lemma TrimIs(s: string, drop: char -> bool, lo: nat, hi: nat)
    requires lo < hi <= |s| && !drop(s[lo]) && !drop(s[hi - 1])
    requires forall i | 0 <= i < lo || hi <= i < |s| :: drop(s[i])
    ensures Trim(s, drop) == s[lo..hi]
  {
    hide TrimLeft, TrimRight;
    TrimLeftIs(s, drop, lo);
    var l := s[lo..];
    assert l[hi - lo - 1] == s[hi - 1];
    TrimRightIs(l, drop, hi - lo);
    assert l[..hi - lo] == s[lo..hi];
  }

  /** Where a trimmed text lies, and that everything around it was dropped. */
  lemma TrimPlace(s: string, drop: char -> bool) returns (lo: nat, hi: nat)
    ensures lo <= hi <= |s| && Trim(s, drop) == s[lo..hi] && lo == |s| - |TrimLeft(s, drop)|
    ensures forall i | 0 <= i < lo || hi <= i < |s| :: drop(s[i])
    ensures lo < hi ==> !drop(s[lo]) && !drop(s[hi - 1])
  {
    hide TrimLeft, TrimRight;
    var l := TrimLeft(s, drop);
    var r := TrimRight(l, drop);
    TrimLeftSlice(s, drop);
    lo := |s| - |l|;
    hi := lo + |r|;
    assert l == s[lo..] && r == l[..|r|];
    assert r == s[lo..hi];
    forall i | hi <= i < |s|
      ensures drop(s[i])
    {
      assert l[i - lo] == s[i];
    }
    if r != "" {
      assert l != "" && r[0] == l[0] && r[|r| - 1] == s[hi - 1];
    }
  }

  /** A character that is not dropped stays. */
  lemma TrimKeepsChar(s: string, drop: char -> bool, c: char)
    requires c in s && !drop(c)
    ensures c in Trim(s, drop)
  {
    hide Trim, TrimLeft;
    var i :| 0 <= i < |s| && s[i] == c;
    var lo, hi := TrimPlace(s, drop);
    assert lo <= i < hi;
    assert s[lo..hi][i - lo] == c;
  }

  lemma TrimmedChar(s: string, drop: char -> bool, c: char)
    requires c in Trim(s, drop)
    ensures c in s
  {
    hide Trim, Contains;
    TrimContained(s, drop);
    CharOf(s, Trim(s, drop), c);
  }

  lemma LowerHas(s: string, c: char)
    requires c in s && LowerChar(c) == c
    ensures c in Lower(s)
  {
    hide Lower;
    var i :| 0 <= i < |s| && s[i] == c;
    assert Lower(s)[i] == c;
  }

  /** `str.split()`: the maximal runs of characters that are not white space. */
  function Words(s: string): seq<string>
    decreases |s|
  {
    var l := TrimLeft(s, IsSpace);
    if l == "" then []
    else var n := WordLength(l); [l[..n]] + Words(l[n..])
  }

  function WordLength(s: string): (n: nat)
    ensures n <= |s| && (s != "" && !IsSpace(s[0]) ==> 0 < n)
    ensures forall i | 0 <= i < n :: !IsSpace(s[i])
    ensures n < |s| ==> IsSpace(s[n])
  {
    if s == "" || IsSpace(s[0]) then 0 else 1 + WordLength(s[1..])
  }

  predicate StartsWith(s: string, prefix: string) {
    |prefix| <= |s| && s[..|prefix|] == prefix
  }

  /** The first text with a property, or the length. */
  function FirstIndex(texts: seq<string>, p: string -> bool): (k: nat)
    ensures k <= |texts| && (k < |texts| ==> p(texts[k])) && forall i | 0 <= i < k :: !p(texts[i])
  {
    if texts == [] || p(texts[0]) then 0 else 1 + FirstIndex(texts[1..], p)
  }

  // ---------------------------------------------------------------- UTF-8

  predicate Continuation(c: char) {
    128 as char <= c <= 191 as char
  }

  /** The length of the well-formed UTF-8 sequence at the front of `s`, or 0 (section 4 of RFC 3629). */
  function Utf8Length(s: string): (n: nat)
    ensures n <= |s| && n <= 4
  {
    if |s| >= 1 && s[0] < 128 as char then 1
    else if |s| >= 2 && 194 as char <= s[0] <= 223 as char && Continuation(s[1]) then 2
    else if |s| >= 3 && 224 as char <= s[0] <= 239 as char && Continuation(s[1]) && Continuation(s[2])
      && (s[0] == 224 as char ==> 160 as char <= s[1])
      && (s[0] == 237 as char ==> s[1] <= 159 as char) then 3
    else if |s| >= 4 && 240 as char <= s[0] <= 244 as char
      && Continuation(s[1]) && Continuation(s[2]) && Continuation(s[3])
      && (s[0] == 240 as char ==> 144 as char <= s[1])
      && (s[0] == 244 as char ==> s[1] <= 143 as char) then 4
    else 0
  }

  /** `bytes.decode("utf-8")` accepts `s`. */
  predicate ValidUtf8(s: string)
    decreases |s|
  {
    s == "" || (0 < Utf8Length(s) && ValidUtf8(s[Utf8Length(s)..]))
  }

  lemma {:induction false} AsciiIsUtf8(s: string)
    requires IsAscii(s)
    ensures ValidUtf8(s)
    decreases |s|
  {
    if s != "" {
      AsciiIsUtf8(s[1..]);
    }
  }

  /** Appending an ASCII byte neither breaks nor repairs UTF-8. */
  lemma {:induction false} Utf8Append(s: string, c: char)
    requires c < 128 as char
    ensures ValidUtf8(s + [c]) <==> ValidUtf8(s)
    decreases |s|
  {
    if s == "" {
      AsciiIsUtf8([c]);
      assert s + [c] == [c];
    } else {
      assert Utf8Length(s + [c]) == Utf8Length(s);
      var n := Utf8Length(s);
      if 0 < n {
        assert (s + [c])[n..] == s[n..] + [c];
        Utf8Append(s[n..], c);
      }
    }
  }
}
