// The string functions of the Go library that the source uses, on ASCII.
module Text {

  predicate IsSpace(c: char)
  {
    c == ' ' || c == '\t' || c == '\n' || c == '\r' || c == '\U{0B}' || c == '\U{0C}'
  }

  function TrimLeft(s: string): string
  {
    if s != "" && IsSpace(s[0]) then TrimLeft(s[1..]) else s
  }

  function TrimRight(s: string): string
  {
    if s != "" && IsSpace(s[|s| - 1]) then TrimRight(s[..|s| - 1]) else s
  }

  function TrimSpace(s: string): string
  {
    TrimRight(TrimLeft(s))
  }

  // strings.Cut: the part before the first `c`, the whole when there is none.
  function CutBefore(s: string, c: char): string
  {
    if s == "" || s[0] == c then "" else [s[0]] + CutBefore(s[1..], c)
  }

  function TrimSlashes(s: string): string
  {
    if s != "" && s[|s| - 1] == '/' then TrimSlashes(s[..|s| - 1]) else s
  }

  function AfterLastSlash(s: string): string
  {
    if s == "" || s[|s| - 1] == '/' then "" else AfterLastSlash(s[..|s| - 1]) + [s[|s| - 1]]
  }

  // filepath.Base.
  function Base(path: string): string
  {
    if path == "" then "."
    else if TrimSlashes(path) == "" then "/"
    else AfterLastSlash(TrimSlashes(path))
  }

  // ----- what they compute -----

  predicate AllSpace(s: string)
  {
    forall i :: 0 <= i < |s| ==> IsSpace(s[i])
  }

  // The white space of ASCII: blank, tab, line feed, vertical tab, form feed
  // and carriage return.
  lemma SpaceIsWhite(c: char)
    ensures IsSpace(c) <==> c in " \t\n\U{0B}\U{0C}\r"
  {
    var white := " \t\n\U{0B}\U{0C}\r";
    assert white[0] == ' ' && white[1] == '\t' && white[2] == '\n' && white[3] == '\U{0B}' && white[4] == '\U{0C}' && white[5] == '\r';
  }

  lemma {:induction false} TrimLeftOf(a: string, rest: string)
    requires AllSpace(a) && (rest == "" || !IsSpace(rest[0]))
    ensures TrimLeft(a + rest) == rest
  {
    if a == "" {
      assert a + rest == rest;
    } else {
      assert (a + rest)[1..] == a[1..] + rest;
      TrimLeftOf(a[1..], rest);
    }
  }

  lemma {:induction false} TrimRightOf(rest: string, b: string)
    requires AllSpace(b) && (rest == "" || !IsSpace(rest[|rest| - 1]))
    ensures TrimRight(rest + b) == rest
  {
    if b == "" {
      assert rest + b == rest;
    } else {
      var n := |b| - 1;
      assert (rest + b)[..|rest + b| - 1] == rest + b[..n];
      TrimRightOf(rest, b[..n]);
    }
  }

  predicate Trimmed(s: string)
  {
    s == "" || (!IsSpace(s[0]) && !IsSpace(s[|s| - 1]))
  }

  // White space around a text comes off, and nothing else.
  lemma TrimSpaceOf(a: string, core: string, b: string)
    requires AllSpace(a) && AllSpace(b) && Trimmed(core)
    ensures TrimSpace(a + core + b) == core
  {
    if core == "" {
      assert a + core + b == (a + b) + "";
      TrimLeftOf(a + b, "");
    } else {
      assert a + core + b == a + (core + b);
      TrimLeftOf(a, core + b);
      TrimRightOf(core, b);
    }
  }

  lemma {:induction false} TrimLeftSplits(s: string) returns (a: string)
    ensures AllSpace(a) && s == a + TrimLeft(s) && (TrimLeft(s) == "" || !IsSpace(TrimLeft(s)[0]))
  {
    a := "";
    if s != "" && IsSpace(s[0]) {
      a := TrimLeftSplits(s[1..]);
      a := [s[0]] + a;
      assert s == [s[0]] + s[1..];
    }
  }

  lemma {:induction false} TrimRightSplits(s: string) returns (b: string)
    ensures AllSpace(b) && s == TrimRight(s) + b && (TrimRight(s) == "" || !IsSpace(TrimRight(s)[|TrimRight(s)| - 1]))
  {
    b := "";
    if s != "" && IsSpace(s[|s| - 1]) {
      b := TrimRightSplits(s[..|s| - 1]);
      b := b + [s[|s| - 1]];
      assert s == s[..|s| - 1] + [s[|s| - 1]];
    }
  }

  lemma TrimSpaceSplits(s: string) returns (a: string, b: string)
    ensures AllSpace(a) && AllSpace(b) && s == a + TrimSpace(s) + b && Trimmed(TrimSpace(s))
  {
    a := TrimLeftSplits(s);
    b := TrimRightSplits(TrimLeft(s));
    assert s == a + (TrimSpace(s) + b);
  }

  // Trimming leaves nothing exactly of a text that is all white space.
  lemma BlankExactly(s: string)
    ensures TrimSpace(s) == "" <==> AllSpace(s)
  {
    if AllSpace(s) {
      TrimSpaceOf(s, "", "");
      assert s + "" + "" == s;
    } else {
      var a, b := TrimSpaceSplits(s);
      assert TrimSpace(s) == "" ==> s == a + b;
    }
  }

  // Something is left exactly of a text with a character that is not white.
  lemma TrimmedAway(s: string)
    ensures TrimSpace(s) != "" <==> exists j :: 0 <= j < |s| && s[j] !in " \t\n\U{0B}\U{0C}\r"
  {
    BlankExactly(s);
    forall j | 0 <= j < |s| ensures IsSpace(s[j]) <==> s[j] in " \t\n\U{0B}\U{0C}\r" {
      SpaceIsWhite(s[j]);
    }
  }

  lemma {:induction false} CutAt(a: string, c: char, b: string)
    requires c !in a
    ensures CutBefore(a + [c] + b, c) == a && CutBefore(a, c) == a
  {
    if a == "" {
    } else {
      assert (a + [c] + b)[1..] == a[1..] + [c] + b;
      CutAt(a[1..], c, b);
      assert a == [a[0]] + a[1..];
    }
  }

  lemma {:induction false} AfterLastSlashOf(dir: string, name: string)
    requires '/' !in name
    ensures AfterLastSlash(dir + "/" + name) == name && AfterLastSlash(name) == name
  {
    var path := dir + "/" + name;
    if name == "" {
      assert path[|path| - 1] == '/';
    } else {
      var n := |name| - 1;
      assert path[..|path| - 1] == dir + "/" + name[..n];
      AfterLastSlashOf(dir, name[..n]);
      assert name == name[..n] + [name[n]];
    }
  }

  // The base of a path is its last element.
  lemma BaseOf(dir: string, name: string)
    requires name != "" && '/' !in name
    ensures Base(dir + "/" + name) == name && Base(name) == name
  {
    var path := dir + "/" + name;
    assert path[|path| - 1] == name[|name| - 1];
    AfterLastSlashOf(dir, name);
  }
}
