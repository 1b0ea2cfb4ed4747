// internal/network/dhcp_linux.go: the option field of a DHCP message
// (section 2 of RFC 2132).
module DhcpOptions {
  import opened Bytes
  import opened Sequences

  const PAD := 0
  const END := 255

  datatype Item = Pad | Option(code: byte, value: bytes)

  predicate Encodable(item: Item)
  {
    item.Option? ==> item.code != PAD && item.code != END && |item.value| < 256
  }

  predicate WellFormed(items: seq<Item>)
  {
    forall i :: 0 <= i < |items| ==> Encodable(items[i])
  }

  function WireItem(item: Item): (r: bytes)
    requires Encodable(item)
    ensures |r| > 0
  {
    match item
    case Pad => [PAD]
    case Option(code, value) => [code, |value|] + value
  }

  function Wire(items: seq<Item>): bytes
    requires WellFormed(items)
  {
    if items == [] then [] else WireItem(items[0]) + Wire(items[1..])
  }

  // Where an option field stops: at its end, at END, or at an option that
  // does not fit.
  predicate Terminal(tail: bytes)
  {
    || tail == []
    || tail[0] == END
    || (tail[0] != PAD && (|tail| == 1 || 2 + tail[1] as int > |tail|))
  }

  // The options in force: of options with the same code the last one counts.
  function Table(items: seq<Item>): map<byte, bytes>
  {
    if items == [] then map[]
    else
      var last := items[|items| - 1];
      var earlier := Table(items[..|items| - 1]);
      if last.Option? then earlier[last.code := last.value] else earlier
  }

  // The first item of a field that has one, and its length on the wire.
  function First(data: bytes): (r: (Item, nat))
    requires !Terminal(data)
    ensures 0 < r.1 <= |data| && Encodable(r.0)
  {
    if data[0] == PAD then (Pad, 1)
    else (Option(data[0], data[2..2 + data[1] as int]), 2 + data[1] as int)
  }

  // Every field is items followed by a terminal tail.
  function Items(data: bytes): seq<Item>
    decreases |data|
  {
    if Terminal(data) then [] else [First(data).0] + Items(data[First(data).1..])
  }

  function Tail(data: bytes): bytes
    decreases |data|
  {
    if Terminal(data) then data else Tail(data[First(data).1..])
  }

  lemma FirstIsWire(data: bytes)
    requires !Terminal(data)
    ensures data == WireItem(First(data).0) + data[First(data).1..]
  {
  }

  lemma {:induction false} FieldSplits(data: bytes)
    ensures WellFormed(Items(data)) && Terminal(Tail(data))
    ensures data == Wire(Items(data)) + Tail(data)
    decreases |data|
  {
    if !Terminal(data) {
      var item, rest := First(data).0, data[First(data).1..];
      FieldSplits(rest);
      FirstIsWire(data);
      assert Items(data) == [item] + Items(rest);
      WireCons(item, Items(rest));
      Reassociate(WireItem(item), Wire(Items(rest)), Tail(rest));
    }
  }

  lemma WireCons(item: Item, items: seq<Item>)
    requires Encodable(item) && WellFormed(items)
    ensures WellFormed([item] + items) && Wire([item] + items) == WireItem(item) + Wire(items)
  {
    assert ([item] + items)[1..] == items;
  }

  lemma FirstOfWire(item: Item, rest: bytes)
    requires Encodable(item)
    ensures !Terminal(WireItem(item) + rest)
    ensures First(WireItem(item) + rest) == (item, |WireItem(item)|)
    ensures (WireItem(item) + rest)[|WireItem(item)|..] == rest
  {
    var data := WireItem(item) + rest;
    if item.Option? {
      assert data[2..2 + |item.value|] == item.value;
    }
  }

  lemma ItemsCons(item: Item, rest: bytes)
    requires Encodable(item)
    ensures Items(WireItem(item) + rest) == [item] + Items(rest)
    ensures Tail(WireItem(item) + rest) == Tail(rest)
  {
    FirstOfWire(item, rest);
  }

  // The split is the only one.
  lemma {:induction false} SplitIsUnique(items: seq<Item>, tail: bytes)
    requires WellFormed(items) && Terminal(tail)
    ensures Items(Wire(items) + tail) == items && Tail(Wire(items) + tail) == tail
  {
    if items == [] {
      assert Wire(items) + tail == tail;
    } else {
      Reassociate(WireItem(items[0]), Wire(items[1..]), tail);
      ItemsCons(items[0], Wire(items[1..]) + tail);
      SplitIsUnique(items[1..], tail);
      assert items == [items[0]] + items[1..];
    }
  }

  // parseDHCPOptions.
  method ParseDHCPOptions(data: bytes) returns (result: map<byte, bytes>)
    ensures result == Table(Items(data))
  {
    result := map[];
    ghost var done: seq<Item> := [];
    var offset := 0;
    assert data[0..] == data;
    while offset < |data|
      invariant 0 <= offset <= |data|
      invariant Items(data) == done + Items(data[offset..])
      invariant result == Table(done)
      decreases |data| - offset
    {
      ghost var rest := data[offset..];
      var code := data[offset];
      offset := offset + 1;
      if code == PAD {
        TableSnoc(done, Pad);
        Reassociate(done, [Pad], Items(data[offset..]));
        done := done + [Pad];
        assert rest[1..] == data[offset..];
        continue;
      }
      if code == END || offset >= |data| {
        assert Items(rest) == [];
        break;
      }
      var length := data[offset] as int;
      offset := offset + 1;
      if offset + length > |data| {
        assert Items(rest) == [];
        break;
      }
      var value := data[offset..offset + length];
      offset := offset + length;
      OptionAt(data, offset - length - 2, value, offset);
      TableSnoc(done, Option(code, value));
      Reassociate(done, [Option(code, value)], Items(data[offset..]));
      done := done + [Option(code, value)];
      result := result[code := value];
    }
    assert Items(data) == done + [] == done;
  }

  // One turn of the loop that finds an option between `at` and `next`.
  lemma OptionAt(data: bytes, at: int, value: bytes, next: int)
    requires 0 <= at && at + 2 <= next <= |data|
    requires data[at] != PAD && data[at] != END && next == at + 2 + data[at + 1] as int
    requires value == data[at + 2..next]
    ensures Items(data[at..]) == [Option(data[at], value)] + Items(data[next..])
  {
    var rest := data[at..];
    assert rest[2..2 + rest[1] as int] == value;
    assert rest[2 + rest[1] as int..] == data[next..];
    assert First(rest) == (Option(data[at], value), next - at);
  }

  lemma TableSnoc(items: seq<Item>, item: Item)
    ensures Table(items + [item]) == if item.Option? then Table(items)[item.code := item.value] else Table(items)
  {
    assert (items + [item])[..|items|] == items;
  }

  // The last option of a code wins.
  lemma {:induction false} LastOccurrenceWins(before: seq<Item>, option: Item, after: seq<Item>)
    requires option.Option?
    requires forall i :: 0 <= i < |after| && after[i].Option? ==> after[i].code != option.code
    ensures option.code in Table(before + [option] + after)
    ensures Table(before + [option] + after)[option.code] == option.value
  {
    var items := before + [option] + after;
    if after == [] {
      assert items == before + [option];
      TableSnoc(before, option);
    } else {
      var n := |after| - 1;
      assert items[..|items| - 1] == before + [option] + after[..n];
      LastOccurrenceWins(before, option, after[..n]);
    }
  }

  // Whatever follows END, and an option cut short, leave the options as they
  // are.
  lemma TailIsIgnored(items: seq<Item>, after: bytes, code: byte, declared: byte, rest: bytes)
    requires WellFormed(items)
    requires code != PAD && code != END && |rest| < declared as int
    ensures Table(Items(Wire(items) + ([END] + after))) == Table(items)
    ensures Table(Items(Wire(items) + ([code, declared] + rest))) == Table(items)
    ensures Table(Items(Wire(items) + [code])) == Table(items)
    ensures Table(Items(Wire(items))) == Table(items)
  {
    SplitIsUnique(items, [END] + after);
    SplitIsUnique(items, [code, declared] + rest);
    SplitIsUnique(items, [code]);
    SplitIsUnique(items, []);
    assert Wire(items) + [] == Wire(items);
  }
}
