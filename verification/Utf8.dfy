/** What `bytes.decode("utf-8")` accepts: the encodings of Unicode scalar values (section 3 of RFC 3629), no more. */
module Utf8 {
  import opened ByteStrings

  /** The numbers of characters: all but the surrogates, up to 0x10FFFF. */
  predicate Scalar(v: nat) {
    v < 0xD800 || 0xE000 <= v < 0x11_0000
  }

  /** The lowest six bits, as a continuation byte. */
  function Tail(v: nat): char {
    (0x80 + v % 64) as char
  }

  function Encoded(v: nat): string
    requires Scalar(v)
  {
    if v < 0x80 then [v as char]
    else if v < 0x800 then [(0xC0 + v / 64) as char, Tail(v)]
    else if v < 0x1_0000 then [(0xE0 + v / 4096) as char, Tail(v / 64), Tail(v)]
    else [(0xF0 + v / 262144) as char, Tail(v / 4096), Tail(v / 64), Tail(v)]
  }

  /** The text starts with the encoding of a character. */
  ghost predicate Starts(s: string, v: nat) {
    Scalar(v) && Encoded(v) <= s
  }

  lemma LengthOf(s: string, v: nat)
    requires Starts(s, v)
    ensures Utf8Length(s) == |Encoded(v)|
  {
    var e := Encoded(v);
    assert s[0] == e[0] && (|e| > 1 ==> s[1] == e[1]) && (|e| > 2 ==> s[2] == e[2]) && (|e| > 3 ==> s[3] == e[3]);
    if v >= 0x1_0000 {
      Quad(v);
    }
  }

  lemma Quad(v: nat)
    requires 0x1_0000 <= v < 0x11_0000
    ensures var a := v / 262144; var b := v / 4096 % 64;
      a <= 4 && (a == 0 ==> 16 <= b) && (a == 4 ==> b <= 15)
  {
    assert v / 4096 == v / 262144 * 64 + v / 4096 % 64;
  }

  lemma Two(a: nat, b: nat)
    requires 194 <= a <= 223 && 128 <= b <= 191
    ensures var v := (a - 192) * 64 + (b - 128); Scalar(v) && Encoded(v) == [a as char, b as char]
  {
  }

  lemma Three(a: nat, b: nat, c: nat)
    requires 224 <= a <= 239 && 128 <= b <= 191 && 128 <= c <= 191
    requires (a == 224 ==> 160 <= b) && (a == 237 ==> b <= 159)
    ensures var v := (a - 224) * 4096 + (b - 128) * 64 + (c - 128);
      Scalar(v) && Encoded(v) == [a as char, b as char, c as char]
  {
    var v := (a - 224) * 4096 + (b - 128) * 64 + (c - 128);
    assert v / 64 == (a - 224) * 64 + (b - 128);
    assert v / 4096 == a - 224;
  }

  lemma Four(a: nat, b: nat, c: nat, d: nat)
    requires 240 <= a <= 244 && 128 <= b <= 191 && 128 <= c <= 191 && 128 <= d <= 191
    requires (a == 240 ==> 144 <= b) && (a == 244 ==> b <= 143)
    ensures var v := (a - 240) * 262144 + (b - 128) * 4096 + (c - 128) * 64 + (d - 128);
      Scalar(v) && Encoded(v) == [a as char, b as char, c as char, d as char]
  {
    var v := (a - 240) * 262144 + (b - 128) * 4096 + (c - 128) * 64 + (d - 128);
    assert v / 64 == (a - 240) * 4096 + (b - 128) * 64 + (c - 128);
    assert v / 4096 == (a - 240) * 64 + (b - 128);
    assert v / 262144 == a - 240;
  }

  lemma CharacterOf(s: string) returns (v: nat)
    requires 0 < Utf8Length(s)
    ensures Starts(s, v)
  {
    var n := Utf8Length(s);
    var a := s[0] as nat;
    if n == 1 {
      v := a;
    } else if n == 2 {
      v := (a - 192) * 64 + (s[1] as nat - 128);
      Two(a, s[1] as nat);
    } else if n == 3 {
      v := (a - 224) * 4096 + (s[1] as nat - 128) * 64 + (s[2] as nat - 128);
      Three(a, s[1] as nat, s[2] as nat);
    } else {
      v := (a - 240) * 262144 + (s[1] as nat - 128) * 4096 + (s[2] as nat - 128) * 64 + (s[3] as nat - 128);
      Four(a, s[1] as nat, s[2] as nat, s[3] as nat);
    }
  }

  /** The length found at the front is that of the character there, and 0 exactly when there is none. */
  lemma LengthExactly(s: string)
    ensures forall v | Starts(s, v) :: Utf8Length(s) == |Encoded(v)| > 0
    ensures Utf8Length(s) == 0 <==> forall v :: !Starts(s, v)
  {
    hide Utf8Length;
    forall v | Starts(s, v)
      ensures Utf8Length(s) == |Encoded(v)| > 0
    {
      LengthOf(s, v);
    }
    if 0 < Utf8Length(s) {
      var v := CharacterOf(s);
    }
  }

  predicate AllScalar(vs: seq<nat>) {
    forall i | 0 <= i < |vs| :: Scalar(vs[i])
  }

  function EncodedAll(vs: seq<nat>): string
    requires AllScalar(vs)
  {
    if vs == [] then "" else Encoded(vs[0]) + EncodedAll(vs[1..])
  }

  ghost predicate Encodes(vs: seq<nat>, s: string) {
    AllScalar(vs) && EncodedAll(vs) == s
  }

  lemma {:induction false} Decodes(s: string) returns (vs: seq<nat>)
    requires ValidUtf8(s)
    ensures Encodes(vs, s)
    decreases |s|
  {
    if s == "" {
      vs := [];
    } else {
      hide Utf8Length, Encoded, Scalar;
      var v := CharacterOf(s);
      LengthOf(s, v);
      var n := |Encoded(v)|;
      var rest := Decodes(s[n..]);
      vs := [v] + rest;
      assert vs[1..] == rest && s == Encoded(v) + s[n..];
    }
  }

  lemma {:induction false} EncodedIsValid(vs: seq<nat>)
    requires AllScalar(vs)
    ensures ValidUtf8(EncodedAll(vs))
    decreases |vs|
  {
    if vs != [] {
      hide Utf8Length, Encoded;
      var s := EncodedAll(vs);
      LengthExactly(s);
      assert Starts(s, vs[0]);
      EncodedIsValid(vs[1..]);
      assert s[|Encoded(vs[0])|..] == EncodedAll(vs[1..]);
    }
  }

  /** A text is valid exactly when it is the encoding of some characters. */
  lemma ValidExactly(s: string)
    ensures ValidUtf8(s) <==> exists vs :: Encodes(vs, s)
  {
    hide ValidUtf8, EncodedAll;
    if ValidUtf8(s) {
      var vs := Decodes(s);
    }
    if vs :| Encodes(vs, s) {
      EncodedIsValid(vs);
    }
  }
}
