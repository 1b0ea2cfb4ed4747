// unicode/utf8 of the Go library: which bytes are valid UTF-8 (RFC 3629).
module Utf8 {
  import opened Bytes

  predicate Continues(b: byte)
  {
    0x80 <= b <= 0xBF
  }

  // utf8.ValidString.
  predicate ValidUtf8(s: bytes)
  {
    if s == [] then true
    else if s[0] < 0x80 then ValidUtf8(s[1..])
    else if 0xC2 <= s[0] <= 0xDF then |s| >= 2 && Continues(s[1]) && ValidUtf8(s[2..])
    else if 0xE0 <= s[0] <= 0xEF then
      && |s| >= 3
      && (if s[0] == 0xE0 then 0xA0 <= s[1] <= 0xBF else if s[0] == 0xED then 0x80 <= s[1] <= 0x9F else Continues(s[1]))
      && Continues(s[2]) && ValidUtf8(s[3..])
    else if 0xF0 <= s[0] <= 0xF4 then
      && |s| >= 4
      && (if s[0] == 0xF0 then 0x90 <= s[1] <= 0xBF else if s[0] == 0xF4 then 0x80 <= s[1] <= 0x8F else Continues(s[1]))
      && Continues(s[2]) && Continues(s[3]) && ValidUtf8(s[4..])
    else false
  }

  // ----- what it computes -----

  // A Unicode scalar value: a code point other than a surrogate.
  predicate Scalar(c: int)
  {
    0 <= c < 0xD800 || 0xE000 <= c < 0x11_0000
  }

  // The encoding of section 3 of RFC 3629.
  function Rune(c: int): bytes
    requires Scalar(c)
  {
    if c < 0x80 then [c]
    else if c < 0x800 then [0xC0 + c / 0x40, 0x80 + c % 0x40]
    else if c < 0x1_0000 then [0xE0 + c / 0x1000, 0x80 + c / 0x40 % 0x40, 0x80 + c % 0x40]
    else [0xF0 + c / 0x4_0000, 0x80 + c / 0x1000 % 0x40, 0x80 + c / 0x40 % 0x40, 0x80 + c % 0x40]
  }

  predicate AllScalar(cs: seq<int>)
  {
    forall i :: 0 <= i < |cs| ==> Scalar(cs[i])
  }

  function Runes(cs: seq<int>): bytes
    requires AllScalar(cs)
  {
    if cs == [] then [] else Rune(cs[0]) + Runes(cs[1..])
  }

  ghost predicate Denotes(s: bytes, cs: seq<int>)
  {
    AllScalar(cs) && s == Runes(cs)
  }

  // The valid texts are exactly the encodings of scalar values.
  lemma ValidExactly(s: bytes)
    ensures ValidUtf8(s) <==> exists cs :: Denotes(s, cs)
  {
    if ValidUtf8(s) {
      var cs := Read(s);
      assert Denotes(s, cs);
    }
    if cs :| Denotes(s, cs) {
      RunesAreValid(cs);
    }
  }

  lemma {:induction false} RunesAreValid(cs: seq<int>)
    requires AllScalar(cs)
    ensures ValidUtf8(Runes(cs))
  {
    if cs != [] {
      RunesAreValid(cs[1..]);
      RuneThenValid(cs[0], Runes(cs[1..]));
    }
  }

  lemma RuneThenValid(c: int, rest: bytes)
    requires Scalar(c) && ValidUtf8(rest)
    ensures ValidUtf8(Rune(c) + rest)
  {
    var r := Rune(c);
    assert (r + rest)[|r|..] == rest;
  }

  // Up to four groups of six bits come apart again.
  lemma Groups(x: nat, y: nat, z: nat, w: nat)
    requires y < 0x40 && z < 0x40 && w < 0x40
    ensures (x * 0x40 + y) / 0x40 == x && (x * 0x40 + y) % 0x40 == y
    ensures var c := x * 0x1000 + y * 0x40 + z; c / 0x1000 == x && c / 0x40 % 0x40 == y && c % 0x40 == z
    ensures var c := x * 0x4_0000 + y * 0x1000 + z * 0x40 + w;
      c / 0x4_0000 == x && c / 0x1000 % 0x40 == y && c / 0x40 % 0x40 == z && c % 0x40 == w
  {
    var c := x * 0x1000 + y * 0x40 + z;
    assert c / 0x40 == x * 0x40 + y;
    var d := x * 0x4_0000 + y * 0x1000 + z * 0x40 + w;
    assert d / 0x40 == x * 0x1000 + y * 0x40 + z;
    assert d / 0x1000 == x * 0x40 + y;
  }

  lemma Two(s: bytes) returns (c: int)
    requires |s| >= 2 && 0xC2 <= s[0] <= 0xDF && Continues(s[1])
    ensures Scalar(c) && Rune(c) == s[..2]
  {
    var x, y := s[0] as int - 0xC0, s[1] as int - 0x80;
    c := x * 0x40 + y;
    Groups(x, y, 0, 0);
  }

  lemma Three(s: bytes) returns (c: int)
    requires |s| >= 3 && 0xE0 <= s[0] <= 0xEF && Continues(s[1]) && Continues(s[2])
    requires (s[0] == 0xE0 ==> 0xA0 <= s[1]) && (s[0] == 0xED ==> s[1] <= 0x9F)
    ensures Scalar(c) && Rune(c) == s[..3]
  {
    var x, y, z := s[0] as int - 0xE0, s[1] as int - 0x80, s[2] as int - 0x80;
    c := x * 0x1000 + y * 0x40 + z;
    Groups(x, y, z, 0);
  }

  lemma Four(s: bytes) returns (c: int)
    requires |s| >= 4 && 0xF0 <= s[0] <= 0xF4 && Continues(s[1]) && Continues(s[2]) && Continues(s[3])
    requires (s[0] == 0xF0 ==> 0x90 <= s[1]) && (s[0] == 0xF4 ==> s[1] <= 0x8F)
    ensures Scalar(c) && Rune(c) == s[..4]
  {
    var x, y, z, w := s[0] as int - 0xF0, s[1] as int - 0x80, s[2] as int - 0x80, s[3] as int - 0x80;
    c := x * 0x4_0000 + y * 0x1000 + z * 0x40 + w;
    Groups(x, y, z, w);
  }

  // The first encoded scalar value of a valid text, and what it takes up.
  lemma FirstRune(s: bytes) returns (c: int)
    requires s != [] && ValidUtf8(s)
    ensures Scalar(c) && Rune(c) <= s && ValidUtf8(s[|Rune(c)|..])
  {
    if s[0] < 0x80 {
      c := s[0];
    } else if s[0] <= 0xDF {
      c := Two(s);
    } else if s[0] <= 0xEF {
      c := Three(s);
    } else {
      c := Four(s);
    }
  }

  lemma {:induction false} Read(s: bytes) returns (cs: seq<int>)
    requires ValidUtf8(s)
    ensures AllScalar(cs) && s == Runes(cs)
  {
    if s == [] {
      cs := [];
    } else {
      var c := FirstRune(s);
      var rest := Read(s[|Rune(c)|..]);
      cs := [c] + rest;
      assert cs[1..] == rest;
      assert s == Rune(c) + s[|Rune(c)|..];
    }
  }
}
