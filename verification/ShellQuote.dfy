// internal/install/initramfs.go: shellQuote, and a reader of the shell words
// it is written for (sections 2.2.2 and 2.2.3 of the POSIX Shell Command
// Language).
module ShellQuote {
  import opened Wrappers

  // The replacement for a single quote: '"'"'.
  const ESCAPED := "'\"'\"'"

  // strings.ReplaceAll(value, "'", ESCAPED).
  function Replaced(value: string): string
  {
    if value == "" then ""
    else (if value[0] == '\'' then ESCAPED else [value[0]]) + Replaced(value[1..])
  }

  function Quote(value: string): string
  {
    "'" + Replaced(value) + "'"
  }

  // ----- the reader -----

  datatype Mode = Bare | Single | Double

  predicate Blank(c: char)
  {
    c == ' ' || c == '\t' || c == '\n'
  }

  // Characters that mean something of their own outside quotes.
  predicate Special(c: char)
  {
    c in "|&;<>()$`\\\"'*?[]#~=%{}!"
  }

  // Characters that keep a meaning between double quotes.
  predicate DoubleSpecial(c: char)
  {
    c in "$`\\\"!"
  }

  predicate NameChar(c: char)
  {
    'a' <= c <= 'z' || 'A' <= c <= 'Z' || '0' <= c <= '9' || c == '_'
  }

  function NameLength(s: string): (n: nat)
    ensures n <= |s|
  {
    if s == "" || !NameChar(s[0]) then 0 else 1 + NameLength(s[1..])
  }

  // The values of variables.
  type Environment = string -> string

  // Reads the rest of a word: its value, and what follows it. A word ends at
  // an unquoted blank or at the end of the text; between double quotes $NAME
  // is replaced. None when a quote is not closed or anything else with a
  // meaning of its own turns up.
  function ReadWord(s: string, mode: Mode, env: Environment): Option<(string, string)>
    decreases |s|
  {
    if s == "" then (if mode == Bare then Some(("", "")) else None)
    else
      var c := s[0];
      match mode
      case Bare =>
        if Blank(c) then Some(("", s))
        else if c == '\'' then ReadWord(s[1..], Single, env)
        else if c == '"' then ReadWord(s[1..], Double, env)
        else if Special(c) then None
        else Prepend([c], ReadWord(s[1..], Bare, env))
      case Single =>
        if c == '\'' then ReadWord(s[1..], Bare, env) else Prepend([c], ReadWord(s[1..], Single, env))
      case Double =>
        if c == '"' then ReadWord(s[1..], Bare, env)
        else if c == '$' && NameLength(s[1..]) > 0 then
          var n := NameLength(s[1..]);
          Prepend(env(s[1..1 + n]), ReadWord(s[1 + n..], Double, env))
        else if DoubleSpecial(c) then None
        else Prepend([c], ReadWord(s[1..], Double, env))
  }

  function Prepend(front: string, r: Option<(string, string)>): Option<(string, string)>
  {
    match r
    case None => None
    case Some((word, rest)) => Some((front + word, rest))
  }

  // The words of the first line: blanks separate them, a newline ends it.
  function ReadLine(s: string, env: Environment): Option<seq<string>>
    decreases |s|
  {
    if s == "" || s[0] == '\n' then Some([])
    else if Blank(s[0]) then ReadLine(s[1..], env)
    else
      match ReadWord(s, Bare, env)
      case None => None
      case Some((word, rest)) =>
        if |rest| >= |s| then None
        else
          match ReadLine(rest, env)
          case None => None
          case Some(words) => Some([word] + words)
  }

  // ----- quoting is undone by reading -----

  lemma EscapedReads(rest: string, env: Environment)
    ensures ReadWord(ESCAPED + rest, Single, env) == Prepend("'", ReadWord(rest, Single, env))
  {
    var s := ESCAPED + rest;
    var s1, s2, s3, s4 := s[1..], s[2..], s[3..], s[4..];
    assert s[0] == '\'' && s1[0] == '"' && s2[0] == '\'' && s3[0] == '"' && s4[0] == '\'';
    assert s[1..] == s1 && s1[1..] == s2 && s2[1..] == s3 && s3[1..] == s4 && s4[1..] == rest;
    assert ReadWord(s4, Bare, env) == ReadWord(rest, Single, env);
    assert ReadWord(s3, Double, env) == ReadWord(s4, Bare, env);
    assert ReadWord(s2, Double, env) == Prepend("'", ReadWord(s3, Double, env));
    assert ReadWord(s1, Bare, env) == ReadWord(s2, Double, env);
  }

  // Everything before the closing quote is read back.
  lemma {:induction false} ReplacedReads(value: string, rest: string, env: Environment)
    requires rest == "" || Blank(rest[0])
    ensures ReadWord(Replaced(value) + "'" + rest, Single, env) == Some((value, rest))
  {
    var s := Replaced(value) + "'" + rest;
    if value == "" {
      assert s[0] == '\'' && s[1..] == rest;
    } else {
      var tail := Replaced(value[1..]) + "'" + rest;
      ReplacedReads(value[1..], rest, env);
      assert value == [value[0]] + value[1..];
      if value[0] == '\'' {
        assert s == ESCAPED + tail;
        EscapedReads(tail, env);
      } else {
        assert s == [value[0]] + tail && s[1..] == tail;
      }
    }
  }

  // A quoted value is one word, equal to the value, wherever a blank or the
  // end of the text follows it.
  lemma QuoteIsOneWord(value: string, rest: string, env: Environment)
    requires rest == "" || Blank(rest[0])
    ensures ReadWord(Quote(value) + rest, Bare, env) == Some((value, rest))
  {
    var s := Quote(value) + rest;
    assert s[0] == '\'' && s[1..] == Replaced(value) + "'" + rest;
    ReplacedReads(value, rest, env);
  }

  // Different values are never quoted alike.
  lemma QuoteInjective(a: string, b: string)
    ensures Quote(a) == Quote(b) <==> a == b
  {
    QuoteIsOneWord(a, "", _ => "");
    QuoteIsOneWord(b, "", _ => "");
  }

  // ----- the copy commands of the hook -----

  predicate Plain(word: string)
  {
    forall i :: 0 <= i < |word| ==> !Blank(word[i]) && !Special(word[i])
  }

  lemma {:induction false} PlainReads(word: string, rest: string, env: Environment)
    requires Plain(word) && (rest == "" || Blank(rest[0]))
    ensures ReadWord(word + rest, Bare, env) == Some((word, rest))
  {
    if word == "" {
      assert word + rest == rest;
    } else {
      assert (word + rest)[1..] == word[1..] + rest;
      PlainReads(word[1..], rest, env);
      assert word == [word[0]] + word[1..];
    }
  }

  lemma {:induction false} DoubleReads(path: string, rest: string, env: Environment)
    requires Plain(path) && (rest == "" || Blank(rest[0]))
    ensures ReadWord(path + "\"" + rest, Double, env) == Some((path, rest))
  {
    var s := path + "\"" + rest;
    if path == "" {
      assert s[0] == '"' && s[1..] == rest;
    } else {
      assert s[1..] == path[1..] + "\"" + rest;
      DoubleReads(path[1..], rest, env);
      assert path == [path[0]] + path[1..];
    }
  }

  const DESTDIR := "DESTDIR"

  // "$DESTDIR<path>" with a path that starts with a slash.
  function InDestination(path: string): string
  {
    "\"$" + DESTDIR + path + "\""
  }

  lemma {:induction false} NameStops(name: string, rest: string)
    requires forall i :: 0 <= i < |name| ==> NameChar(name[i])
    requires rest != "" && !NameChar(rest[0])
    ensures NameLength(name + rest) == |name|
  {
    if name == "" {
      assert name + rest == rest;
    } else {
      assert (name + rest)[1..] == name[1..] + rest;
      NameStops(name[1..], rest);
    }
  }

  lemma DestinationReads(path: string, rest: string, env: Environment)
    requires Plain(path) && path != "" && path[0] == '/' && (rest == "" || Blank(rest[0]))
    ensures ReadWord(InDestination(path) + rest, Bare, env) == Some((env(DESTDIR) + path, rest))
  {
    var s := InDestination(path) + rest;
    var tail := path + "\"" + rest;
    assert s[0] == '"' && s[1..] == "$" + (DESTDIR + tail);
    VariableReads(tail, env);
    DoubleReads(path, rest, env);
  }

  lemma VariableReads(tail: string, env: Environment)
    requires tail != "" && !NameChar(tail[0])
    ensures ReadWord("$" + (DESTDIR + tail), Double, env) == Prepend(env(DESTDIR), ReadWord(tail, Double, env))
  {
    var s := "$" + (DESTDIR + tail);
    NameStops(DESTDIR, tail);
    assert s[1..] == DESTDIR + tail;
    assert s[1..1 + |DESTDIR|] == DESTDIR && s[1 + |DESTDIR|..] == tail;
  }

  // A word followed by a blank and more of the line.
  lemma NextWord(text: string, word: string, rest: string, more: seq<string>, env: Environment)
    requires text != "" && !Blank(text[0])
    requires ReadWord(text, Bare, env) == Some((word, rest)) && |rest| < |text|
    requires ReadLine(rest, env) == Some(more)
    ensures ReadLine(" " + text, env) == Some([word] + more)
    ensures ReadLine(text, env) == Some([word] + more)
  {
    assert (" " + text)[1..] == text;
  }

  lemma PlainWordNext(word: string, text: string, more: seq<string>, env: Environment)
    requires Plain(word) && word != "" && ReadLine(" " + text, env) == Some(more)
    ensures ReadLine(word + (" " + text), env) == Some([word] + more)
    ensures ReadLine(" " + (word + (" " + text)), env) == Some([word] + more)
  {
    PlainReads(word, " " + text, env);
    NextWord(word + (" " + text), word, " " + text, more, env);
  }

  lemma LastWord(path: string, after: string, env: Environment)
    requires Plain(path) && path != "" && path[0] == '/' && (after == "" || after[0] == '\n')
    ensures ReadLine(" " + (InDestination(path) + after), env) == Some([env(DESTDIR) + path])
  {
    DestinationReads(path, after, env);
    NextWord(InDestination(path) + after, env(DESTDIR) + path, after, [], env);
    assert [env(DESTDIR) + path] + [] == [env(DESTDIR) + path];
  }

  lemma QuotedWordNext(value: string, text: string, more: seq<string>, env: Environment)
    requires ReadLine(" " + text, env) == Some(more)
    ensures ReadLine(" " + (Quote(value) + (" " + text)), env) == Some([value] + more)
  {
    QuoteIsOneWord(value, " " + text, env);
    NextWord(Quote(value) + (" " + text), value, " " + text, more, env);
  }

  // A line of two plain words, a quoted value and a path below $DESTDIR, as
  // the `cp -p` lines of the hook are, has exactly these four words.
  lemma CopyLine(command: string, option: string, value: string, path: string, after: string, env: Environment)
    requires Plain(command) && command != "" && Plain(option) && option != ""
    requires Plain(path) && path != "" && path[0] == '/' && (after == "" || after[0] == '\n')
    ensures ReadLine(command + (" " + (option + (" " + (Quote(value) + (" " + (InDestination(path) + after)))))), env) ==
            Some([command] + ([option] + ([value] + [env(DESTDIR) + path])))
  {
    var t4 := InDestination(path) + after;
    LastWord(path, after, env);
    QuotedWordNext(value, t4, [env(DESTDIR) + path], env);
    var t3 := Quote(value) + (" " + t4);
    PlainWordNext(option, t3, [value] + [env(DESTDIR) + path], env);
    PlainWordNext(command, option + (" " + t3), [option] + ([value] + [env(DESTDIR) + path]), env);
  }
}
