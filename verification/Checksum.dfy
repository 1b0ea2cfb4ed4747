// internal/network/dhcp_linux.go: the Internet checksum (section 1 of RFC 1071).
module Checksum {
  import opened Bytes

  const UINT32 := 0x1_0000_0000

  // The sum of the 16-bit words, an odd last byte being the high half of one.
  function Sum(data: bytes): nat
  {
    if |data| >= 2 then BigEndian16(data[0], data[1]) + Sum(data[2..])
    else if |data| == 1 then 0x100 * data[0] as int
    else 0
  }

  // The ones' complement sum: the value congruent modulo 65535, where only
  // zero itself gives zero.
  function Folded(n: nat): (r: nat)
    ensures r <= 0xFFFF
  {
    if n == 0 then 0 else (n - 1) % 0xFFFF + 1
  }

  lemma FoldStep(n: nat)
    ensures Folded(n % 0x1_0000 + n / 0x1_0000) == Folded(n)
    ensures n >= 0x1_0000 ==> n % 0x1_0000 + n / 0x1_0000 < n
  {
    var h, l := n / 0x1_0000, n % 0x1_0000;
    if n > 0 {
      assert n - 1 == (h + l - 1) + 0xFFFF * h;
      assert (n - 1) % 0xFFFF == (h + l - 1) % 0xFFFF;
    }
  }

  lemma FoldedSmall(n: nat)
    requires n <= 0xFFFF
    ensures Folded(n) == n
  {
  }

  // What the code computes, on input of any length.
  function ChecksumOf(data: bytes): (c: int)
    ensures 0 <= c <= 0xFFFF
  {
    0xFFFF - Folded(Sum(data) % UINT32)
  }

  lemma WrapOnce(a: nat, b: nat, rest: nat)
    ensures ((a + b) % UINT32 + rest) % UINT32 == (a + (b + rest)) % UINT32
  {
    var q := (a + b) / UINT32;
    assert a + (b + rest) == (a + b) % UINT32 + rest + UINT32 * q;
  }

  // The 32-bit accumulator wraps; the contract says so.
  method InternetChecksum(data: bytes) returns (c: int)
    ensures c == ChecksumOf(data)
  {
    var sum := WordSum(data);
    var folded := Fold(sum);
    c := 0xFFFF - folded;
  }

  // The folding part of checksum.
  method Fold(total: nat) returns (sum: nat)
    ensures sum == Folded(total)
  {
    sum := total;
    while sum / 0x1_0000 != 0
      invariant Folded(sum) == Folded(total)
      decreases sum
    {
      FoldStep(sum);
      sum := sum % 0x1_0000 + sum / 0x1_0000;
    }
    FoldedSmall(sum);
  }

  // The accumulating part of checksum.
  method WordSum(data: bytes) returns (sum: nat)
    ensures sum == Sum(data) % UINT32
  {
    var rest := data;
    sum := 0;
    while |rest| >= 2
      invariant sum < UINT32 && (sum + Sum(rest)) % UINT32 == Sum(data) % UINT32
      decreases |rest|
    {
      var word := BigEndian16(rest[0], rest[1]);
      WrapOnce(sum, word, Sum(rest[2..]));
      sum, rest := (sum + word) % UINT32, rest[2..];
    }
    if |rest| == 1 {
      sum := (sum + 0x100 * rest[0] as int) % UINT32;
    }
  }

  lemma {:induction false} SumBound(data: bytes)
    ensures Sum(data) <= 0xFFFF * ((|data| + 1) / 2)
  {
    if |data| >= 2 {
      SumBound(data[2..]);
    }
  }

  // Up to 131074 bytes nothing is lost to the accumulator's width, and the
  // result is the ones' complement checksum.
  lemma NoOverflow(data: bytes)
    requires |data| <= 131074
    ensures Sum(data) < UINT32
    ensures ChecksumOf(data) == 0xFFFF - Folded(Sum(data))
  {
    SumBound(data);
    assert (|data| + 1) / 2 <= 65537;
    assert Sum(data) % UINT32 == Sum(data);
  }

  lemma {:induction false} SumOfOnes(words: nat)
    ensures Sum(seq(2 * words, _ => 0xFF)) == 0xFFFF * words
  {
    var data: bytes := seq(2 * words, _ => 0xFF);
    if words > 0 {
      SumOfOnes(words - 1);
      assert data[2..] == seq(2 * (words - 1), _ => 0xFF);
    }
  }

  // One word more and it can be.
  lemma BoundIsTight()
    ensures exists data: bytes :: |data| == 131076 && Sum(data) >= UINT32
  {
    SumOfOnes(65538);
    var data: bytes := seq(131076, _ => 0xFF);
    assert data == seq(2 * 65538, _ => 0xFF);
  }

  lemma {:induction false} SumConcat(a: bytes, b: bytes)
    requires |a| % 2 == 0
    ensures Sum(a + b) == Sum(a) + Sum(b)
  {
    if a == [] {
      assert a + b == b;
    } else {
      assert (a + b)[2..] == a[2..] + b;
      SumConcat(a[2..], b);
    }
  }

  // `data` with the checksum `c` stored at `at`.
  function Stored(data: bytes, at: nat, c: int): bytes
    requires at + 2 <= |data| && 0 <= c <= 0xFFFF
  {
    data[..at] + [c / 0x100, c % 0x100] + data[at + 2..]
  }

  // Adding the complement of the folded sum gives all ones.
  lemma ComplementFills(s: nat)
    ensures Folded(s + 0xFFFF - Folded(s)) == 0xFFFF
  {
    if s > 0 {
      var q := (s - 1) / 0xFFFF;
      assert s + 0xFFFF - Folded(s) == 0xFFFF * (q + 1);
      assert 0xFFFF * (q + 1) - 1 == 0xFFFF * q + 0xFFFE;
      assert (0xFFFF * q + 0xFFFE) % 0xFFFF == 0xFFFE;
    }
  }

  lemma SumOfThree(before: bytes, word: bytes, after: bytes)
    requires |before| % 2 == 0 && |word| == 2
    ensures Sum(before + word + after) == Sum(before) + BigEndian16(word[0], word[1]) + Sum(after)
  {
    SumConcat(before + word, after);
    SumConcat(before, word);
    assert word[2..] == [];
  }

  lemma SumStored(data: bytes, at: nat, c: int)
    requires at % 2 == 0 && at + 2 <= |data| && data[at] == 0 && data[at + 1] == 0
    requires 0 <= c <= 0xFFFF
    ensures |Stored(data, at, c)| == |data| && Sum(Stored(data, at, c)) == Sum(data) + c
  {
    var before, after := data[..at], data[at + 2..];
    assert data == before + [data[at], data[at + 1]] + after;
    SumOfThree(before, [data[at], data[at + 1]], after);
    SumOfThree(before, [c / 0x100, c % 0x100], after);
  }

  // A block of even length whose aligned checksum field was filled with the
  // checksum taken over zeros checks to zero.
  lemma StoredChecksumVerifies(data: bytes, at: nat)
    requires |data| % 2 == 0 && at % 2 == 0 && at + 2 <= |data| <= 131074
    requires data[at] == 0 && data[at + 1] == 0
    ensures ChecksumOf(Stored(data, at, ChecksumOf(data))) == 0
  {
    NoOverflow(data);
    var c := ChecksumOf(data);
    SumStored(data, at, c);
    NoOverflow(Stored(data, at, c));
    ComplementFills(Sum(data));
  }
}
