// internal/mikrotik/client.go: parseContentRange, on the header text
// (section 14.4 of RFC 9110).
module ContentRange {
  import opened Wrappers

  const INT64_LIMIT := 0x8000_0000_0000_0000

  predicate IsDigit(c: char)
  {
    '0' <= c <= '9'
  }

  // The value of a run of digits.
  function Digits(s: string): Option<nat>
  {
    if s == "" then Some(0)
    else
      var n := |s| - 1;
      match Digits(s[..n])
      case None => None
      case Some(high) => if IsDigit(s[n]) then Some(10 * high + (s[n] as int - '0' as int)) else None
  }

  // strconv.ParseInt in base 10 with 64 bits.
  function ParseInt(s: string): Option<int>
  {
    var negative := s != "" && s[0] == '-';
    var rest := if s != "" && (s[0] == '-' || s[0] == '+') then s[1..] else s;
    if rest == "" then None
    else
      match Digits(rest)
      case None => None
      case Some(n) =>
        if negative then (if n <= INT64_LIMIT then Some(-(n as int)) else None)
        else (if n < INT64_LIMIT then Some(n) else None)
  }

  // strings.Cut at the first `c`.
  function Cut(s: string, c: char): Option<(string, string)>
  {
    if s == "" then None
    else if s[0] == c then Some(("", s[1..]))
    else
      match Cut(s[1..], c)
      case None => None
      case Some((before, after)) => Some(([s[0]] + before, after))
  }

  const UNIT := "bytes "

  // (start, end, total), or None for an error.
  function ParseContentRange(value: string): Option<(int, int, int)>
  {
    if !(UNIT <= value) then None
    else
      match Cut(value[|UNIT|..], '/')
      case None => None
      case Some((range_, total)) =>
        if total == "*" then None
        else
          match Cut(range_, '-')
          case None => None
          case Some((start, end)) =>
            match (ParseInt(start), ParseInt(end), ParseInt(total))
            case (Some(s), Some(e), Some(t)) => if s < 0 || e < s || t <= e then None else Some((s, e, t))
            case _ => None
  }

  // What is accepted is a range inside its total.
  lemma AcceptedIsARange(value: string)
    ensures ParseContentRange(value).Some? ==>
              var (s, e, t) := ParseContentRange(value).value; 0 <= s <= e < t < INT64_LIMIT
  {
  }

  function Decimal(n: nat): string
  {
    if n < 10 then ['0' + n as char] else Decimal(n / 10) + ['0' + (n % 10) as char]
  }

  lemma {:induction false} DecimalIsDigits(n: nat)
    ensures Decimal(n) != "" && Digits(Decimal(n)) == Some(n)
    ensures forall i :: 0 <= i < |Decimal(n)| ==> IsDigit(Decimal(n)[i])
  {
    if n >= 10 {
      DecimalIsDigits(n / 10);
      assert Decimal(n)[..|Decimal(n)| - 1] == Decimal(n / 10);
    } else {
      assert Decimal(n)[..0] == "";
    }
  }

  function Pow10(k: nat): nat
  {
    if k == 0 then 1 else 10 * Pow10(k - 1)
  }

  // What digits mean by their places.
  function Positional(s: string): nat
    requires AllDigits(s)
  {
    if s == "" then 0 else (s[0] as int - '0' as int) * Pow10(|s| - 1) + Positional(s[1..])
  }

  predicate AllDigits(s: string)
  {
    forall i :: 0 <= i < |s| ==> '0' <= s[i] <= '9'
  }

  lemma Shifted(d: int, p: int)
    ensures d * (10 * p) == 10 * (d * p)
  {
  }

  lemma {:induction false} PositionalNext(s: string, c: char)
    requires AllDigits(s) && '0' <= c <= '9'
    ensures AllDigits(s + [c]) && Positional(s + [c]) == 10 * Positional(s) + (c as int - '0' as int)
  {
    var t := s + [c];
    if s == "" {
      assert t[1..] == "";
    } else {
      assert t[1..] == s[1..] + [c];
      PositionalNext(s[1..], c);
      var d := s[0] as int - '0' as int;
      Shifted(d, Pow10(|s| - 1));
      assert Positional(t) == d * Pow10(|s|) + Positional(t[1..]);
      assert Pow10(|s|) == 10 * Pow10(|s| - 1);
    }
  }

  lemma {:induction false} DigitsExactly(s: string)
    ensures Digits(s) == if AllDigits(s) then Some(Positional(s)) else None
  {
    if s != "" {
      var n := |s| - 1;
      DigitsExactly(s[..n]);
      assert s == s[..n] + [s[n]];
      if AllDigits(s) {
        PositionalNext(s[..n], s[n]);
      }
    }
  }

  // A text that writes a number: an optional sign, then digits.
  ghost predicate Writes(s: string, v: int, sign: string, digits: string)
  {
    && s == sign + digits && (sign == "" || sign == "+" || sign == "-") && digits != "" && AllDigits(digits)
    && v == if sign == "-" then -(Positional(digits) as int) else Positional(digits)
  }

  lemma WritesOne(s: string, v: int, sign: string, digits: string)
    requires Writes(s, v, sign, digits)
    ensures sign == if s[0] == '-' || s[0] == '+' then s[..1] else ""
    ensures digits == s[|sign|..] && (sign == "-" <==> s[0] == '-')
  {
    if sign == "" {
      assert s == digits;
    } else {
      assert s[0] == sign[0] && s[..1] == sign;
    }
  }

  // What parses is exactly what writes a number of 64 bits.
  lemma ParseIntExactly(s: string, v: int)
    ensures ParseInt(s) == Some(v) <==>
            -INT64_LIMIT <= v < INT64_LIMIT && exists sign, digits :: Writes(s, v, sign, digits)
  {
    if ParseInt(s) == Some(v) {
      var sign, digits := ParsedIsWritten(s, v);
    }
    if sign, digits :| Writes(s, v, sign, digits) {
      WrittenIsParsed(s, v, sign, digits);
    }
  }

  lemma ParsedIsWritten(s: string, v: int) returns (sign: string, digits: string)
    requires ParseInt(s) == Some(v)
    ensures Writes(s, v, sign, digits) && -INT64_LIMIT <= v < INT64_LIMIT
  {
    sign := if s[0] == '-' || s[0] == '+' then s[..1] else "";
    digits := s[|sign|..];
    assert s == sign + digits;
    assert sign != "" ==> sign == [s[0]];
    DigitsExactly(digits);
  }

  lemma WrittenIsParsed(s: string, v: int, sign: string, digits: string)
    requires Writes(s, v, sign, digits)
    ensures ParseInt(s) == Some(v) <==> -INT64_LIMIT <= v < INT64_LIMIT
  {
    WritesOne(s, v, sign, digits);
    DigitsExactly(digits);
  }

  lemma ParseDecimal(n: nat)
    requires n < INT64_LIMIT
    ensures ParseInt(Decimal(n)) == Some(n)
  {
    DecimalIsDigits(n);
    assert IsDigit(Decimal(n)[0]);
  }

  lemma {:induction false} CutThere(a: string, c: char, b: string)
    requires forall i :: 0 <= i < |a| ==> a[i] != c
    ensures Cut(a + [c] + b, c) == Some((a, b))
  {
    var s := a + [c] + b;
    if a == "" {
      assert s[1..] == b;
    } else {
      assert s[1..] == a[1..] + [c] + b;
      CutThere(a[1..], c, b);
      assert s[0] == a[0] && [a[0]] + a[1..] == a;
    }
  }

  // Cutting is at the first occurrence.
  lemma CutExactly(s: string, c: char, a: string, b: string)
    ensures Cut(s, c) == Some((a, b)) <==> s == a + [c] + b && c !in a
  {
    if s == a + [c] + b && c !in a {
      CutThere(a, c, b);
    }
    if Cut(s, c) == Some((a, b)) {
      CutSplits(s, c);
    }
  }

  lemma {:induction false} CutSplits(s: string, c: char)
    ensures Cut(s, c).Some? ==> var (a, b) := Cut(s, c).value; s == a + [c] + b && c !in a
  {
    if s != "" && s[0] != c {
      CutSplits(s[1..], c);
    }
  }

  // A header in three parts.
  ghost predicate Header(value: string, a: string, b: string, c: string)
  {
    value == "bytes " + (a + ['-'] + b + ['/'] + c) && '-' !in a && '/' !in a && '/' !in b
  }

  ghost predicate Numbers(a: string, b: string, c: string, start: int, end: int, total: int)
  {
    ParseInt(a) == Some(start) && ParseInt(b) == Some(end) && ParseInt(c) == Some(total) && c != "*"
  }

  // The header is accepted, and how it is read, exactly by its three numbers.
  lemma ParsedExactly(value: string, start: int, end: int, total: int)
    ensures ParseContentRange(value) == Some((start, end, total)) <==>
            && 0 <= start <= end < total
            && exists a, b, c :: Header(value, a, b, c) && Numbers(a, b, c, start, end, total)
  {
    if ParseContentRange(value) == Some((start, end, total)) {
      var a, b, c := ReadHeader(value, start, end, total);
      assert Header(value, a, b, c) && Numbers(a, b, c, start, end, total);
    }
    if a, b, c :| Header(value, a, b, c) && Numbers(a, b, c, start, end, total) {
      if 0 <= start <= end < total {
        HeaderIsRead(value, a, b, c, start, end, total);
      }
    }
  }

  lemma ReadHeader(value: string, start: int, end: int, total: int) returns (a: string, b: string, c: string)
    requires ParseContentRange(value) == Some((start, end, total))
    ensures 0 <= start <= end < total && Header(value, a, b, c) && Numbers(a, b, c, start, end, total)
  {
    var rest := value[|UNIT|..];
    var cut := Cut(rest, '/').value;
    var parts := Cut(cut.0, '-').value;
    a, b, c := parts.0, parts.1, cut.1;
    CutExactly(rest, '/', cut.0, c);
    CutExactly(cut.0, '-', a, b);
    assert value == UNIT + rest;
  }

  lemma HeaderIsRead(value: string, a: string, b: string, c: string, start: int, end: int, total: int)
    requires Header(value, a, b, c) && Numbers(a, b, c, start, end, total) && 0 <= start <= end < total
    ensures ParseContentRange(value) == Some((start, end, total))
  {
    var range_ := a + ['-'] + b;
    assert value[|UNIT|..] == range_ + ['/'] + c;
    CutExactly(value[|UNIT|..], '/', range_, c);
    CutExactly(range_, '-', a, b);
  }

  // A server that writes the header by the book is understood.
  lemma HeaderRoundTrip(start: nat, end: nat, total: nat)
    requires start <= end < total < INT64_LIMIT
    ensures ParseContentRange(UNIT + (Decimal(start) + "-" + Decimal(end) + "/" + Decimal(total))) == Some((start, end, total))
  {
    var range_ := Decimal(start) + "-" + Decimal(end);
    var value := UNIT + (range_ + "/" + Decimal(total));
    DecimalIsDigits(start);
    DecimalIsDigits(end);
    DecimalIsDigits(total);
    assert value[|UNIT|..] == range_ + "/" + Decimal(total);
    CutThere(range_, '/', Decimal(total));
    CutThere(Decimal(start), '-', Decimal(end));
    ParseDecimal(start);
    ParseDecimal(end);
    ParseDecimal(total);
    assert IsDigit(Decimal(total)[0]);
  }
}
