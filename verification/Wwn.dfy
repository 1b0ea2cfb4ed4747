// internal/disk/fingerprint.go: the textual forms of world-wide names.
module Wwn {
  import opened Wrappers
  import opened Bytes
  import opened Hex
  import Text

  const NAA := "naa."
  const EUI := "eui."
  const OX := "0x"

  function NormalizeIdentity(value: string): string
  {
    var v := Lower(Text.TrimSpace(value));
    Without(StripPrefix(StripPrefix(StripPrefix(v, NAA), EUI), OX), {'-'})
  }

  function CanonicalWWN(value: string): Option<string>
  {
    var lower := Lower(Text.TrimSpace(value));
    var prefix := if NAA <= lower then NAA else if EUI <= lower then EUI else if OX <= lower then OX else "";
    if prefix == "" then None
    else
      match Decode(Without(StripPrefix(lower, prefix), {'-', ':', ' '}))
      case None => None
      case Some(id) => if id == [] || AllZero(id) then None else Some(prefix + Encode(id))
  }

  predicate IsPrefix(prefix: string)
  {
    prefix == NAA || prefix == EUI || prefix == OX
  }

  // A name in canonical form carries the bytes `id`.
  ghost predicate Carries(wwn: string, id: bytes)
  {
    id != [] && !AllZero(id) && exists prefix :: IsPrefix(prefix) && wwn == prefix + Encode(id)
  }

  // Nothing that trimming or folding would touch.
  lemma CanonicalText(prefix: string, id: bytes)
    requires IsPrefix(prefix) && id != []
    ensures Text.TrimSpace(prefix + Encode(id)) == prefix + Encode(id)
    ensures Lower(prefix + Encode(id)) == prefix + Encode(id)
  {
    var w, hex := prefix + Encode(id), Encode(id);
    EncodeIsDigits(id);
    assert !Text.IsSpace(w[0]);
    assert w[|w| - 1] == hex[|hex| - 1];
    forall i | 0 <= i < |w| ensures LowerChar(w[i]) == w[i] {
      if i >= |prefix| {
        assert w[i] == hex[i - |prefix|];
      }
    }
  }

  // Only its own prefix comes off.
  lemma CanonicalPrefix(prefix: string, id: bytes)
    requires IsPrefix(prefix) && id != []
    ensures var w := prefix + Encode(id);
      && (NAA <= w <==> prefix == NAA) && (EUI <= w <==> prefix == EUI) && (OX <= w <==> prefix == OX)
      && StripPrefix(w, prefix) == Encode(id)
  {
    var w := prefix + Encode(id);
    assert w[0] == prefix[0];
    assert w[..|prefix|] == prefix && w[|prefix|..] == Encode(id);
  }

  lemma DigitsAreBare(id: bytes)
    requires id != []
    ensures !(EUI <= Encode(id)) && !(OX <= Encode(id))
    ensures Without(Encode(id), {'-'}) == Encode(id)
    ensures Without(Encode(id), {'-', ':', ' '}) == Encode(id)
  {
    var hex := Encode(id);
    EncodeIsDigits(id);
    assert IsDigit(hex[0]) && IsDigit(hex[1]);
    WithoutNone(hex, {'-'});
    WithoutNone(hex, {'-', ':', ' '});
  }

  lemma NormalizedIsBytes(wwn: string, id: bytes)
    requires Carries(wwn, id)
    ensures NormalizeIdentity(wwn) == Encode(id)
  {
    var prefix :| IsPrefix(prefix) && wwn == prefix + Encode(id);
    CanonicalText(prefix, id);
    CanonicalPrefix(prefix, id);
    DigitsAreBare(id);
  }

  // What is accepted carries bytes.
  lemma CanonicalCarries(value: string)
    ensures CanonicalWWN(value).Some? ==> exists id :: Carries(CanonicalWWN(value).value, id)
  {
    var lower := Lower(Text.TrimSpace(value));
    if CanonicalWWN(value).Some? {
      var prefix := if NAA <= lower then NAA else if EUI <= lower then EUI else OX;
      var id := Decode(Without(StripPrefix(lower, prefix), {'-', ':', ' '})).value;
      assert CanonicalWWN(value).value == prefix + Encode(id);
      assert Carries(CanonicalWWN(value).value, id);
    }
  }

  // Two names compare equal exactly when they carry the same bytes, whatever
  // their prefixes.
  lemma EqualExactlyOnBytes(a: string, b: string, ida: bytes, idb: bytes)
    requires Carries(a, ida) && Carries(b, idb)
    ensures NormalizeIdentity(a) == NormalizeIdentity(b) <==> ida == idb
  {
    NormalizedIsBytes(a, ida);
    NormalizedIsBytes(b, idb);
    EncodeInjective(ida, idb);
  }

  lemma CanonicalIsIdempotent(value: string)
    ensures CanonicalWWN(value).Some? ==> CanonicalWWN(CanonicalWWN(value).value) == CanonicalWWN(value)
  {
    if CanonicalWWN(value).Some? {
      CanonicalCarries(value);
      var w := CanonicalWWN(value).value;
      var id :| Carries(w, id);
      var prefix :| IsPrefix(prefix) && w == prefix + Encode(id);
      CanonicalText(prefix, id);
      CanonicalPrefix(prefix, id);
      DigitsAreBare(id);
      DecodeEncode(id);
    }
  }

  // ----- what the two functions do, letter by letter -----

  // The text of a value, in lower case and without the white space around it.
  ghost predicate Reads(value: string, text: string)
  {
    exists before: string, core: string, after: string ::
      && value == before + core + after && Text.AllSpace(before) && Text.AllSpace(after) && Text.Trimmed(core)
      && text == Lower(core)
  }

  lemma ReadsExactly(value: string, text: string)
    ensures Lower(Text.TrimSpace(value)) == text <==> Reads(value, text)
  {
    if Lower(Text.TrimSpace(value)) == text {
      var before, after := Text.TrimSpaceSplits(value);
    }
    if Reads(value, text) {
      var before: string, core: string, after: string :|
        && value == before + core + after && Text.AllSpace(before) && Text.AllSpace(after) && Text.Trimmed(core)
        && text == Lower(core);
      Text.TrimSpaceOf(before, core, after);
    }
  }

  // A value names the bytes `id` under a prefix: the prefix and the digits, of
  // either case, with any dashes, colons and blanks between the digits.
  ghost predicate NamesBytes(value: string, prefix: string, id: bytes)
  {
    exists digits :: Reads(value, prefix + digits) && Spells(digits, Nibbles(id))
  }

  // A name is accepted, and which name it is, exactly by the bytes it names.
  lemma CanonicalExactly(value: string, prefix: string, id: bytes)
    requires IsPrefix(prefix)
    ensures CanonicalWWN(value) == Some(prefix + Encode(id)) <==>
            id != [] && (exists i :: 0 <= i < |id| && id[i] != 0) && NamesBytes(value, prefix, id)
  {
    if id != [] && !AllZero(id) && NamesBytes(value, prefix, id) {
      NamedIsAccepted(value, prefix, id);
    }
    if CanonicalWWN(value) == Some(prefix + Encode(id)) {
      AcceptedIsNamed(value, prefix, id);
    }
  }

  lemma NamedIsAccepted(value: string, prefix: string, id: bytes)
    requires IsPrefix(prefix) && id != [] && !AllZero(id) && NamesBytes(value, prefix, id)
    ensures CanonicalWWN(value) == Some(prefix + Encode(id))
  {
    var digits :| Reads(value, prefix + digits) && Spells(digits, Nibbles(id));
    ReadsExactly(value, prefix + digits);
    OwnPrefix(prefix, digits);
    DecodesExactly(digits, id);
  }

  lemma AcceptedIsNamed(value: string, prefix: string, id: bytes)
    requires IsPrefix(prefix) && CanonicalWWN(value) == Some(prefix + Encode(id))
    ensures id != [] && !AllZero(id) && NamesBytes(value, prefix, id)
  {
    var lower := Lower(Text.TrimSpace(value));
    var own := if NAA <= lower then NAA else if EUI <= lower then EUI else OX;
    var digits := lower[|own|..];
    var named := Decode(Without(digits, {'-', ':', ' '})).value;
    assert lower == own + digits;
    SameName(own, named, prefix, id);
    DecodesExactly(digits, id);
    ReadsExactly(value, prefix + digits);
  }

  lemma OwnPrefix(prefix: string, digits: string)
    requires IsPrefix(prefix)
    ensures var w := prefix + digits;
      && (NAA <= w <==> prefix == NAA) && (EUI <= w <==> prefix == EUI) && (OX <= w <==> prefix == OX)
      && StripPrefix(w, prefix) == digits
  {
    var w := prefix + digits;
    assert w[0] == prefix[0] && w[..|prefix|] == prefix && w[|prefix|..] == digits;
  }

  lemma SameName(a: string, ida: bytes, b: string, idb: bytes)
    requires IsPrefix(a) && IsPrefix(b) && a + Encode(ida) == b + Encode(idb)
    ensures a == b && ida == idb
  {
    assert (a + Encode(ida))[0] == a[0] && (b + Encode(idb))[0] == b[0];
    assert (a + Encode(ida))[|a|..] == Encode(ida) && (b + Encode(idb))[|b|..] == Encode(idb);
    EncodeInjective(ida, idb);
  }

  // What is left of a text when the prefixes it starts with are taken off, each
  // at most once and in this order.
  ghost predicate Stem(text: string, stem: string)
  {
    exists p: string, q: string, r: string ::
      && (if "naa." <= text then p == "naa." else p == "") && text == p + (q + (r + stem))
      && (if "eui." <= q + (r + stem) then q == "eui." else q == "")
      && (if "0x" <= r + stem then r == "0x" else r == "")
  }

  lemma StemExactly(text: string, stem: string)
    ensures StripPrefix(StripPrefix(StripPrefix(text, NAA), EUI), OX) == stem <==> Stem(text, stem)
  {
    var first := StripPrefix(text, NAA);
    var second := StripPrefix(first, EUI);
    var third := StripPrefix(second, OX);
    var p := StripSplits(text, NAA);
    var q := StripSplits(first, EUI);
    var r := StripSplits(second, OX);
    if third == stem {
      assert text == p + (q + (r + stem)) && first == q + (r + stem) && second == r + stem;
      TakenOff(text, NAA, p, first);
      TakenOff(first, EUI, q, second);
      TakenOff(second, OX, r, third);
    }
    if Stem(text, stem) {
      var a: string, b: string, c: string :|
        && (if "naa." <= text then a == "naa." else a == "") && text == a + (b + (c + stem))
        && (if "eui." <= b + (c + stem) then b == "eui." else b == "")
        && (if "0x" <= c + stem then c == "0x" else c == "");
      TakenOff(text, NAA, a, b + (c + stem));
      TakenOff(b + (c + stem), EUI, b, c + stem);
      TakenOff(c + stem, OX, c, stem);
    }
  }

  lemma TakenOff(s: string, prefix: string, p: string, rest: string)
    requires prefix != "" && s == p + rest && (p == "" || p == prefix)
    ensures (p == prefix ==> prefix <= s)
    ensures (if prefix <= s then p == prefix else p == "") ==> StripPrefix(s, prefix) == rest
    ensures StripPrefix(s, prefix) == rest ==> if prefix <= s then p == prefix else p == ""
  {
    if p == "" {
      assert s == rest;
    }
  }

  // Two texts that differ in dashes only.
  predicate SameButDashes(a: string, b: string)
    decreases |a| + |b|
  {
    if a != "" && a[0] == '-' then SameButDashes(a[1..], b)
    else if b != "" && b[0] == '-' then SameButDashes(a, b[1..])
    else if a == "" || b == "" then a == b
    else a[0] == b[0] && SameButDashes(a[1..], b[1..])
  }

  lemma {:induction false} DashesExactly(a: string, b: string)
    ensures Without(a, {'-'}) == Without(b, {'-'}) <==> SameButDashes(a, b)
    decreases |a| + |b|
  {
    if a != "" && a[0] == '-' {
      DashesExactly(a[1..], b);
    } else if b != "" && b[0] == '-' {
      DashesExactly(a, b[1..]);
    } else if a != "" && b != "" {
      DashesExactly(a[1..], b[1..]);
      var u, v := Without(a[1..], {'-'}), Without(b[1..], {'-'});
      assert ([a[0]] + u)[0] == a[0] && ([b[0]] + v)[0] == b[0];
      assert ([a[0]] + u)[1..] == u && ([b[0]] + v)[1..] == v;
    }
  }

  // Two identities are the same up to the white space around them, case, the
  // prefixes of names, and dashes.
  ghost predicate SameIdentity(a: string, b: string)
  {
    exists s: string, t: string, x: string, y: string ::
      Reads(a, s) && Reads(b, t) && Stem(s, x) && Stem(t, y) && SameButDashes(x, y)
  }

  lemma NormalizedExactly(a: string, b: string)
    ensures NormalizeIdentity(a) == NormalizeIdentity(b) <==> SameIdentity(a, b)
  {
    var s, t := Lower(Text.TrimSpace(a)), Lower(Text.TrimSpace(b));
    var x := StripPrefix(StripPrefix(StripPrefix(s, NAA), EUI), OX);
    var y := StripPrefix(StripPrefix(StripPrefix(t, NAA), EUI), OX);
    ReadsExactly(a, s);
    ReadsExactly(b, t);
    StemExactly(s, x);
    StemExactly(t, y);
    DashesExactly(x, y);
    if SameIdentity(a, b) {
      var s', t', x', y' :| Reads(a, s') && Reads(b, t') && Stem(s', x') && Stem(t', y') && SameButDashes(x', y');
      ReadsExactly(a, s');
      ReadsExactly(b, t');
      StemExactly(s', x');
      StemExactly(t', y');
    }
  }
}
