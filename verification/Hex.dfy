// encoding/hex, and the string helpers of internal/disk/fingerprint.go. A Go
// string is written as a string of characters below 256, one per byte.
module Hex {
  import opened Wrappers
  import opened Bytes
  import opened Utf8

  function Digit(n: int): char
    requires 0 <= n < 16
  {
    if n < 10 then '0' + n as char else 'a' + (n - 10) as char
  }

  function DigitValue(c: char): Option<int>
  {
    if '0' <= c <= '9' then Some(c as int - '0' as int)
    else if 'a' <= c <= 'f' then Some(c as int - 'a' as int + 10)
    else if 'A' <= c <= 'F' then Some(c as int - 'A' as int + 10)
    else None
  }

  predicate IsDigit(c: char)
  {
    '0' <= c <= '9' || 'a' <= c <= 'f'
  }

  function Encode(b: bytes): (r: string)
    ensures |r| == 2 * |b|
  {
    if b == [] then "" else [Digit(b[0] / 16), Digit(b[0] % 16)] + Encode(b[1..])
  }

  function Decode(s: string): Option<bytes>
  {
    if s == "" then Some([])
    else if |s| == 1 then None
    else
      match (DigitValue(s[0]), DigitValue(s[1]), Decode(s[2..]))
      case (Some(hi), Some(lo), Some(rest)) =>
        if 0 <= 16 * hi + lo < 256 then Some([16 * hi + lo] + rest) else None
      case _ => None
  }

  lemma {:induction false} EncodeIsDigits(b: bytes)
    ensures forall i :: 0 <= i < |Encode(b)| ==> IsDigit(Encode(b)[i])
  {
    if b != [] {
      EncodeIsDigits(b[1..]);
    }
  }

  lemma DigitRoundTrip(n: int)
    requires 0 <= n < 16
    ensures DigitValue(Digit(n)) == Some(n)
  {
  }

  lemma {:induction false} DecodeEncode(b: bytes)
    ensures Decode(Encode(b)) == Some(b)
  {
    if b != [] {
      DecodeEncode(b[1..]);
      DigitRoundTrip(b[0] / 16);
      DigitRoundTrip(b[0] % 16);
      var e := Encode(b);
      assert e[0] == Digit(b[0] / 16) && e[1] == Digit(b[0] % 16) && e[2..] == Encode(b[1..]);
      assert 16 * (b[0] / 16) + b[0] % 16 == b[0];
      assert b == [b[0]] + b[1..];
    }
  }

  lemma EncodeInjective(a: bytes, b: bytes)
    ensures Encode(a) == Encode(b) <==> a == b
  {
    DecodeEncode(a);
    DecodeEncode(b);
  }

  function LowerChar(c: char): char
  {
    if 'A' <= c <= 'Z' then c + 32 as char else c
  }

  function Lower(s: string): (r: string)
    ensures |r| == |s|
    ensures forall i :: 0 <= i < |s| ==> r[i] == LowerChar(s[i])
  {
    seq(|s|, i requires 0 <= i < |s| => LowerChar(s[i]))
  }

  function StripPrefix(s: string, prefix: string): string
  {
    if prefix <= s then s[|prefix|..] else s
  }

  // The characters of `drop` taken out.
  function Without(s: string, drop: set<char>): string
  {
    if s == "" then ""
    else if s[0] in drop then Without(s[1..], drop)
    else [s[0]] + Without(s[1..], drop)
  }

  lemma {:induction false} WithoutNone(s: string, drop: set<char>)
    requires forall i :: 0 <= i < |s| ==> s[i] !in drop
    ensures Without(s, drop) == s
  {
    if s != "" {
      WithoutNone(s[1..], drop);
    }
  }

  predicate AllZero(b: bytes)
  {
    forall i :: 0 <= i < |b| ==> b[i] == 0
  }

  // The padding cut from both ends of an identifier.
  predicate IsPadding(b: byte)
  {
    b == 0 || b == 0x20 || b == 0x09 || b == 0x0D || b == 0x0A
  }

  function TrimPadding(b: bytes): bytes
  {
    if b != [] && IsPadding(b[0]) then TrimPadding(b[1..])
    else if b != [] && IsPadding(b[|b| - 1]) then TrimPadding(b[..|b| - 1])
    else b
  }

  function AsString(b: bytes): string
  {
    seq(|b|, i requires 0 <= i < |b| => b[i] as char)
  }

  // textIdentifier.
  function TextIdentifier(data: bytes): Option<string>
  {
    var value := TrimPadding(data);
    if value == [] || !ValidUtf8(value) || exists i :: 0 <= i < |value| && (value[i] < 0x20 || value[i] == 0x7F) then None
    else Some(AsString(value))
  }

  // ----- what they compute -----

  const LOWER_DIGITS := "0123456789abcdef"
  const UPPER_DIGITS := "0123456789ABCDEF"

  lemma DigitIsListed(n: int)
    requires 0 <= n < 16
    ensures Digit(n) == LOWER_DIGITS[n]
  {
  }

  predicate Denotes(c: char, n: int)
  {
    0 <= n < 16 && (c == LOWER_DIGITS[n] || c == UPPER_DIGITS[n])
  }

  lemma ValueIsDenoted(c: char, n: int)
    ensures DigitValue(c) == Some(n) <==> Denotes(c, n)
  {
  }

  function Nibbles(b: bytes): (r: seq<int>)
    ensures |r| == 2 * |b|
  {
    if b == [] then [] else [b[0] / 16, b[0] % 16] + Nibbles(b[1..])
  }

  // The digits of an encoding, one for each half byte.
  lemma {:induction false} EncodeIsNibbles(b: bytes)
    ensures forall i :: 0 <= i < |Encode(b)| ==> 0 <= Nibbles(b)[i] < 16 && Encode(b)[i] == LOWER_DIGITS[Nibbles(b)[i]]
  {
    if b != [] {
      EncodeIsNibbles(b[1..]);
      DigitIsListed(b[0] / 16);
      DigitIsListed(b[0] % 16);
      forall i | 0 <= i < |Encode(b)| ensures 0 <= Nibbles(b)[i] < 16 && Encode(b)[i] == LOWER_DIGITS[Nibbles(b)[i]] {
        if i >= 2 {
          assert Encode(b)[i] == Encode(b[1..])[i - 2] && Nibbles(b)[i] == Nibbles(b[1..])[i - 2];
        }
      }
    }
  }

  predicate Separator(c: char)
  {
    c == '-' || c == ':' || c == ' '
  }

  // A text is the given half bytes in hexadecimal of either case, with any
  // dashes, colons and blanks between them.
  predicate Spells(s: string, nibbles: seq<int>)
  {
    if s == "" then nibbles == []
    else if Separator(s[0]) then Spells(s[1..], nibbles)
    else nibbles != [] && Denotes(s[0], nibbles[0]) && Spells(s[1..], nibbles[1..])
  }

  // The half bytes a text spells, when it does.
  function Spelled(s: string): Option<seq<int>>
  {
    if s == "" then Some([])
    else if Separator(s[0]) then Spelled(s[1..])
    else
      match (DigitValue(s[0]), Spelled(s[1..]))
      case (Some(n), Some(rest)) => Some([n] + rest)
      case _ => None
  }

  lemma {:induction false} SpelledExactly(s: string, nibbles: seq<int>)
    ensures Spelled(s) == Some(nibbles) <==> Spells(s, nibbles)
  {
    if s != "" {
      if Separator(s[0]) {
        SpelledExactly(s[1..], nibbles);
      } else if nibbles != [] {
        SpelledExactly(s[1..], nibbles[1..]);
        ValueIsDenoted(s[0], nibbles[0]);
        assert nibbles == [nibbles[0]] + nibbles[1..];
        if Spelled(s) == Some(nibbles) {
          assert nibbles[0] == DigitValue(s[0]).value && nibbles[1..] == Spelled(s[1..]).value;
        }
      }
    }
  }

  // Decoding digits pairs up the half bytes.
  lemma {:induction false} DecodePairs(s: string, b: bytes)
    requires forall i :: 0 <= i < |s| ==> !Separator(s[i])
    ensures Decode(s) == Some(b) <==> Spelled(s) == Some(Nibbles(b))
  {
    if |s| == 1 {
      assert Spelled(s).Some? ==> |Spelled(s).value| == 1;
    } else if |s| > 1 {
      TwoSpelled(s);
      if b != [] {
        DecodePairs(s[2..], b[1..]);
        PairOf(s, b);
      }
    }
  }

  lemma TwoSpelled(s: string)
    requires |s| >= 2 && !Separator(s[0]) && !Separator(s[1])
    ensures Spelled(s) == match (DigitValue(s[0]), DigitValue(s[1]), Spelled(s[2..]))
                          case (Some(hi), Some(lo), Some(rest)) => Some([hi, lo] + rest)
                          case _ => None
  {
    assert s[1..][1..] == s[2..];
    if DigitValue(s[0]).Some? && DigitValue(s[1]).Some? && Spelled(s[2..]).Some? {
      assert [DigitValue(s[0]).value] + ([DigitValue(s[1]).value] + Spelled(s[2..]).value) ==
             [DigitValue(s[0]).value, DigitValue(s[1]).value] + Spelled(s[2..]).value;
    }
  }

  lemma SamePair(x: int, y: int, u: seq<int>, p: int, q: int, v: seq<int>)
    ensures [x, y] + u == [p, q] + v <==> x == p && y == q && u == v
  {
    var a, b := [x, y] + u, [p, q] + v;
    assert a[0] == x && a[1] == y && a[2..] == u && b[0] == p && b[1] == q && b[2..] == v;
  }

  lemma SameHead(x: byte, u: bytes, b: bytes)
    requires b != []
    ensures [x] + u == b <==> x == b[0] && u == b[1..]
  {
    var a := [x] + u;
    assert a[0] == x && a[1..] == u && b == [b[0]] + b[1..];
  }

  lemma PairOf(s: string, b: bytes)
    requires |s| >= 2 && !Separator(s[0]) && !Separator(s[1]) && b != []
    requires Decode(s[2..]) == Some(b[1..]) <==> Spelled(s[2..]) == Some(Nibbles(b[1..]))
    ensures Decode(s) == Some(b) <==> Spelled(s) == Some(Nibbles(b))
  {
    TwoSpelled(s);
    var hi, lo := DigitValue(s[0]), DigitValue(s[1]);
    if hi.Some? && lo.Some? {
      ValueIsDenoted(s[0], hi.value);
      ValueIsDenoted(s[1], lo.value);
      var x := 16 * hi.value + lo.value;
      if Spelled(s[2..]).Some? {
        SamePair(hi.value, lo.value, Spelled(s[2..]).value, b[0] / 16, b[0] % 16, Nibbles(b[1..]));
      }
      if Decode(s[2..]).Some? {
        SameHead(x, Decode(s[2..]).value, b);
      }
    }
  }

  lemma {:induction false} SeparatorsDoNotSpell(s: string)
    ensures Spelled(Without(s, {'-', ':', ' '})) == Spelled(s)
    ensures forall i :: 0 <= i < |Without(s, {'-', ':', ' '})| ==> !Separator(Without(s, {'-', ':', ' '})[i])
  {
    if s != "" {
      SeparatorsDoNotSpell(s[1..]);
      var rest := Without(s[1..], {'-', ':', ' '});
      if s[0] !in {'-', ':', ' '} {
        assert ([s[0]] + rest)[1..] == rest;
      }
    }
  }

  // What a text decodes to once separators are taken out is what it spells.
  lemma DecodesExactly(s: string, b: bytes)
    ensures Decode(Without(s, {'-', ':', ' '})) == Some(b) <==> Spells(s, Nibbles(b))
  {
    SeparatorsDoNotSpell(s);
    DecodePairs(Without(s, {'-', ':', ' '}), b);
    SpelledExactly(s, Nibbles(b));
  }

  // ----- texts in identifiers -----

  // Bytes that surround a text: NUL, blank, tab, line feed, carriage return.
  predicate AllPadding(b: bytes)
  {
    forall i :: 0 <= i < |b| ==> b[i] in {0, 9, 10, 13, 32}
  }

  lemma {:induction false} TrimPaddingOf(a: bytes, core: bytes, b: bytes)
    requires AllPadding(a) && AllPadding(b)
    requires core != [] && core[0] !in {0, 9, 10, 13, 32} && core[|core| - 1] !in {0, 9, 10, 13, 32}
    ensures TrimPadding(a + core + b) == core
    decreases |a| + |b|
  {
    var s := a + core + b;
    if a != [] {
      assert s[1..] == a[1..] + core + b;
      TrimPaddingOf(a[1..], core, b);
    } else if b != [] {
      assert s[0] == core[0] && s[..|s| - 1] == a + core + b[..|b| - 1];
      TrimPaddingOf(a, core, b[..|b| - 1]);
    } else {
      assert s == core;
    }
  }

  lemma {:induction false} TrimPaddingSplits(s: bytes) returns (a: bytes, b: bytes)
    ensures AllPadding(a) && AllPadding(b) && s == a + TrimPadding(s) + b
    ensures var core := TrimPadding(s);
      core != [] ==> core[0] !in {0, 9, 10, 13, 32} && core[|core| - 1] !in {0, 9, 10, 13, 32}
    decreases |s|
  {
    a, b := [], [];
    if s != [] && IsPadding(s[0]) {
      a, b := TrimPaddingSplits(s[1..]);
      a := [s[0]] + a;
    } else if s != [] && IsPadding(s[|s| - 1]) {
      a, b := TrimPaddingSplits(s[..|s| - 1]);
      b := b + [s[|s| - 1]];
      assert s == s[..|s| - 1] + [s[|s| - 1]];
    }
  }

  // A text that is valid and holds no control character.
  predicate Clean(core: bytes)
  {
    ValidUtf8(core) && forall i :: 0 <= i < |core| ==> core[i] >= 0x20 && core[i] != 0x7F
  }

  // The data is the text with padding around it.
  ghost predicate HoldsText(data: bytes, text: string)
  {
    exists a: bytes, core: bytes, b: bytes ::
      && data == a + core + b && AllPadding(a) && AllPadding(b)
      && core != [] && core[0] !in {0, 9, 10, 13, 32} && core[|core| - 1] !in {0, 9, 10, 13, 32}
      && Clean(core) && text == AsString(core)
  }

  lemma TextExactly(data: bytes, text: string)
    ensures TextIdentifier(data) == Some(text) <==> HoldsText(data, text)
  {
    if TextIdentifier(data) == Some(text) {
      TextIsHeld(data);
    }
    if HoldsText(data, text) {
      HeldIsText(data, text);
    }
  }

  lemma TextIsHeld(data: bytes)
    requires TextIdentifier(data).Some?
    ensures HoldsText(data, TextIdentifier(data).value)
  {
    var core := TrimPadding(data);
    var a, b := TrimPaddingSplits(data);
    assert Clean(core);
    assert data == a + core + b;
  }

  lemma HeldIsText(data: bytes, text: string)
    requires HoldsText(data, text)
    ensures TextIdentifier(data) == Some(text)
  {
    var a: bytes, core: bytes, b: bytes :|
      && data == a + core + b && AllPadding(a) && AllPadding(b)
      && core != [] && core[0] !in {0, 9, 10, 13, 32} && core[|core| - 1] !in {0, 9, 10, 13, 32}
      && Clean(core) && text == AsString(core);
    TrimPaddingOf(a, core, b);
  }

  // ----- letters and prefixes -----

  const UPPER_LETTERS := "ABCDEFGHIJKLMNOPQRSTUVWXYZ"
  const LOWER_LETTERS := "abcdefghijklmnopqrstuvwxyz"

  lemma LetterIsLowered(c: char)
    ensures (forall i :: 0 <= i < 26 && c == UPPER_LETTERS[i] ==> LowerChar(c) == LOWER_LETTERS[i])
    ensures (forall i :: 0 <= i < 26 ==> c != UPPER_LETTERS[i]) ==> LowerChar(c) == c
  {
    if 'A' <= c <= 'Z' {
      assert c == UPPER_LETTERS[c as int - 'A' as int];
    }
  }

  lemma {:induction false} SpelledChars(s: string, nibbles: seq<int>, i: nat)
    requires Spells(s, nibbles) && i < |s|
    ensures Separator(s[i]) || DigitValue(s[i]).Some?
  {
    if i == 0 {
      if !Separator(s[0]) {
        ValueIsDenoted(s[0], nibbles[0]);
      }
    } else if Separator(s[0]) {
      SpelledChars(s[1..], nibbles, i - 1);
    } else {
      SpelledChars(s[1..], nibbles[1..], i - 1);
    }
  }

  // Digits never start with one of the prefixes of a name.
  lemma SpelledIsBare(s: string, nibbles: seq<int>)
    requires Spells(s, nibbles)
    ensures !("naa." <= s) && !("eui." <= s) && !("0x" <= s)
  {
    if |s| >= 2 {
      SpelledChars(s, nibbles, 0);
      SpelledChars(s, nibbles, 1);
    }
    if |s| >= 4 {
      SpelledChars(s, nibbles, 3);
    }
  }

  lemma StripOnce(p: string, prefix: string, rest: string)
    requires p == "" || p == prefix
    requires p == "" ==> !(prefix <= rest)
    ensures StripPrefix(p + rest, prefix) == rest
  {
    if p == "" {
      assert p + rest == rest;
    }
  }

  lemma StripSplits(s: string, prefix: string) returns (p: string)
    ensures (p == "" || p == prefix) && s == p + StripPrefix(s, prefix)
  {
    p := if prefix <= s then prefix else "";
  }
}
