// internal/network/routeros.go and validate.go: the plan compiled into RouterOS commands, and
// an interpreter for exactly the commands it emits.
module RouterScript {
  import opened Wrappers
  import opened Addressing
  import opened NetworkPlan
  import opened RouterTables
  import StringOrder
  import Text

  // What the commands cannot be written without.
  predicate Complete(plan: Plan)
  {
    && plan.mac.Some?
    && (plan.ipv4.mode == Static ==> plan.ipv4.gateway.Some?)
  }

  ghost predicate ValidTexts(plan: Plan, read: Reading)
  {
    && (forall a :: a in plan.ipv6.addresses ==> read.valid6(a))
    && (forall d :: d in plan.dns ==>
          && read.validServer(d)
          && (read.server(d).linkLocal ==> read.server(d).zone == plan.interfaceName))
  }

  // A plan that Validate passes: the uplink has a name that is not blank.
  ghost predicate Valid(plan: Plan, read: Reading)
  {
    && (exists j :: 0 <= j < |plan.interfaceName| && plan.interfaceName[j] !in " \t\n\U{0B}\U{0C}\r")
    && plan.mac.Some?
    && 576 <= plan.mtu <= 9216
    && ValidIPv4(plan.ipv4, read)
    && ValidTexts(plan, read)
    && (plan.ipv4.mode == Off ==> plan.ipv6.slaac || plan.ipv6.dhcp || plan.ipv6.addresses != [])
  }

  // The loop of Validate over DNS servers.
  method CheckServers(plan: Plan, read: Reading) returns (ok: bool)
    ensures ok <==> forall d :: d in plan.dns ==>
                      && read.validServer(d)
                      && (read.server(d).linkLocal ==> read.server(d).zone == plan.interfaceName)
  {
    for i := 0 to |plan.dns|
      invariant forall d :: d in plan.dns[..i] ==>
                  read.validServer(d) && (read.server(d).linkLocal ==> read.server(d).zone == plan.interfaceName)
    {
      var d := plan.dns[i];
      if !read.validServer(d) {
        return false;
      }
      if read.server(d).linkLocal && read.server(d).zone != plan.interfaceName {
        return false;
      }
    }
    ok := true;
  }

  method Validate(plan: Plan, read: Reading) returns (ok: bool)
    ensures ok <==> Valid(plan, read)
  {
    Text.TrimmedAway(plan.interfaceName);
    if Text.TrimSpace(plan.interfaceName) == "" {
      return false;
    }
    if plan.mac.None? {
      return false;
    }
    if plan.mtu < 576 || plan.mtu > 9216 {
      return false;
    }
    ok := CheckIPv4(plan.ipv4, read);
    if !ok { return; }
    ok := CheckTexts(plan.ipv6.addresses, read.valid6);
    if !ok { return; }
    ok := CheckServers(plan, read);
    if !ok { return; }
    if plan.ipv4.mode == Off && !plan.ipv6.slaac && !plan.ipv6.dhcp && |plan.ipv6.addresses| == 0 {
      return false;
    }
  }

  // ----- commands -----

  // A piece of a DNS expression: a quoted literal, or $uplinkName.
  datatype Part = Quoted(text: string) | UplinkName

  datatype DnsServers = Literal(text: string) | Expression(parts: seq<Part>)

  datatype Command =
    | Delay(seconds: int)
    | FindUplink(mac: string)
    | RequireSingleUplink
    | SetMtu(mtu: int)
    | On4(c4: FamilyCommand<Prefix, Addr>)
    | On6(c6: FamilyCommand<string, string>)
    | AcceptAdvertisements(accept: bool)
    | SetDns(servers: DnsServers)
    | Log

  // The host route's scope, and the target scope that lets a default route
  // resolve its gateway through it.
  const HOST_SCOPE := 10
  const RECURSIVE_TARGET_SCOPE := 11

  // ----- the compiler as a function -----

  function Lift4(cs: seq<FamilyCommand<Prefix, Addr>>): seq<Command>
  {
    if cs == [] then [] else [On4(cs[0])] + Lift4(cs[1..])
  }

  function Lift6(cs: seq<FamilyCommand<string, string>>): seq<Command>
  {
    if cs == [] then [] else [On6(cs[0])] + Lift6(cs[1..])
  }

  function AddressCommands4(texts: seq<string>, read: Reading): seq<FamilyCommand<Prefix, Addr>>
  {
    if texts == [] then []
    else AddressCommands4(texts[..|texts| - 1], read) + [AddAddress(read.prefix4(texts[|texts| - 1]))]
  }

  function AddressCommands6(texts: seq<string>, read: Reading): seq<FamilyCommand<string, string>>
  {
    if texts == [] then []
    else AddressCommands6(texts[..|texts| - 1], read) + [AddAddress(read.prefix6(texts[|texts| - 1]))]
  }

  // What a plan adds to the IPv4 tables.
  function Adds4(plan: Plan, read: Reading): seq<FamilyCommand<Prefix, Addr>>
    requires Complete(plan)
  {
    match plan.ipv4.mode
    case Dhcp => [AddClient(plan.ipv4.usePeerDNS)]
    case Static =>
      AddressCommands4(StringOrder.Sort(plan.ipv4.addresses), read) +
      (if plan.ipv4.gatewayOnLink then
         [AddHostRoute(plan.ipv4.gateway.value, HOST_SCOPE), AddDefault(plan.ipv4.gateway.value, RECURSIVE_TARGET_SCOPE)]
       else
         [AddDefault(plan.ipv4.gateway.value, TARGET_SCOPE)])
    case Off | Unknown => []
  }

  function GatewayCommands6(plan: Plan): seq<FamilyCommand<string, string>>
  {
    match plan.ipv6.gateway
    case None => []
    case Some(g) =>
      if g.linkLocal then [AddZonedDefault(g.host)]
      else if plan.ipv6.gatewayOnLink then [AddHostRoute(g.host, HOST_SCOPE), AddDefault(g.host, RECURSIVE_TARGET_SCOPE)]
      else [AddDefault(g.host, TARGET_SCOPE)]
  }

  // What a plan adds to the IPv6 tables.
  function Adds6(plan: Plan, read: Reading): seq<FamilyCommand<string, string>>
  {
    (if plan.ipv6.dhcp then [AddClient(plan.ipv6.usePeerDNS)] else []) +
    AddressCommands6(StringOrder.Sort(plan.ipv6.addresses), read) +
    GatewayCommands6(plan)
  }

  predicate AnyZone(servers: seq<string>, read: Reading)
  {
    exists d :: d in servers && read.server(d).zone != ""
  }

  function Item(server: Server): seq<Part>
  {
    if server.zone != "" then [Quoted(server.host + "%"), UplinkName] else [Quoted(server.host)]
  }

  function DnsParts(servers: seq<string>, read: Reading): seq<Part>
  {
    if servers == [] then []
    else
      var n := |servers| - 1;
      DnsParts(servers[..n], read) + (if n > 0 then [Quoted(",")] else []) + Item(read.server(servers[n]))
  }

  // strings.Join(texts, ",").
  function CommaJoined(texts: seq<string>): string
  {
    if texts == [] then ""
    else
      var n := |texts| - 1;
      CommaJoined(texts[..n]) + (if n > 0 then "," else "") + texts[n]
  }

  function Dns(plan: Plan, read: Reading): DnsServers
  {
    var servers := StringOrder.Sort(plan.dns);
    if servers != [] && AnyZone(servers, read) then Expression(DnsParts(servers, read)) else Literal(CommaJoined(servers))
  }

  // The commands that find the uplink, and those that empty its tables.
  function Finding(mac: string, mtu: int): seq<Command>
  {
    [Delay(15), FindUplink(mac), RequireSingleUplink, Log, SetMtu(mtu)]
  }

  function Clearing(): seq<Command>
  {
    Lift4(Clear()) + (Lift6(Clear()) + [Delay(1)])
  }

  function Header(plan: Plan): seq<Command>
    requires Complete(plan)
  {
    Finding(plan.mac.value, plan.mtu) + Clearing()
  }

  // The script after its header, in two halves.
  function Body(plan: Plan, read: Reading): seq<Command>
    requires Complete(plan)
  {
    (Lift4(Adds4(plan, read)) + [AcceptAdvertisements(plan.ipv6.slaac)]) + Ending(Adds6(plan, read), Dns(plan, read))
  }

  function Ending(adds: seq<FamilyCommand<string, string>>, dns: DnsServers): seq<Command>
  {
    Lift6(adds) + ([SetDns(dns)] + [Log])
  }

  function Script(plan: Plan, read: Reading): seq<Command>
    requires Complete(plan)
  {
    Header(plan) + Body(plan, read)
  }

  // ----- the compiler -----

  method DnsExpression(servers: seq<string>, read: Reading) returns (parts: seq<Part>, zoned: bool)
    ensures parts == DnsParts(servers, read)
    ensures zoned <==> AnyZone(servers, read)
  {
    parts, zoned := [], false;
    for index := 0 to |servers|
      invariant parts == DnsParts(servers[..index], read)
      invariant zoned <==> AnyZone(servers[..index], read)
    {
      assert servers[..index + 1][..index] == servers[..index];
      if index > 0 {
        parts := parts + [Quoted(",")];
      }
      var address := read.server(servers[index]);
      if address.zone != "" {
        zoned := true;
        parts := parts + [Quoted(address.host + "%"), UplinkName];
      } else {
        parts := parts + [Quoted(address.host)];
      }
    }
    assert servers[..|servers|] == servers;
  }

  lemma {:induction false} Lift4Snoc(cs: seq<FamilyCommand<Prefix, Addr>>, c: FamilyCommand<Prefix, Addr>)
    ensures Lift4(cs + [c]) == Lift4(cs) + [On4(c)]
  {
    if cs == [] {
      assert [c][1..] == [] && cs + [c] == [c];
    } else {
      assert (cs + [c])[1..] == cs[1..] + [c];
      Lift4Snoc(cs[1..], c);
    }
  }

  lemma {:induction false} Lift6Snoc(cs: seq<FamilyCommand<string, string>>, c: FamilyCommand<string, string>)
    ensures Lift6(cs + [c]) == Lift6(cs) + [On6(c)]
  {
    if cs == [] {
      assert [c][1..] == [] && cs + [c] == [c];
    } else {
      assert (cs + [c])[1..] == cs[1..] + [c];
      Lift6Snoc(cs[1..], c);
    }
  }

  method StaticLines4(plan: Plan, read: Reading) returns (lines: seq<Command>)
    requires Complete(plan) && plan.ipv4.mode == Static
    ensures lines == Lift4(Adds4(plan, read))
  {
    var addresses := StringOrder.Sort(plan.ipv4.addresses);
    ghost var adds := [];
    lines := [];
    for i := 0 to |addresses|
      invariant adds == AddressCommands4(addresses[..i], read) && lines == Lift4(adds)
    {
      assert addresses[..i + 1][..i] == addresses[..i];
      var c := AddAddress(read.prefix4(addresses[i]));
      Lift4Snoc(adds, c);
      adds, lines := adds + [c], lines + [On4(c)];
    }
    assert addresses[..|addresses|] == addresses;
    var targetScope := TARGET_SCOPE;
    ghost var base := adds;
    if plan.ipv4.gatewayOnLink {
      var c := AddHostRoute(plan.ipv4.gateway.value, HOST_SCOPE);
      Lift4Snoc(adds, c);
      adds, lines := adds + [c], lines + [On4(c)];
      targetScope := RECURSIVE_TARGET_SCOPE;
    }
    var c := AddDefault(plan.ipv4.gateway.value, targetScope);
    Lift4Snoc(adds, c);
    lines := lines + [On4(c)];
    if plan.ipv4.gatewayOnLink {
      var host := AddHostRoute(plan.ipv4.gateway.value, HOST_SCOPE);
      assert base + [host] + [c] == base + [host, c];
    }
  }

  lemma {:induction false} Lift6Concat(a: seq<FamilyCommand<string, string>>, b: seq<FamilyCommand<string, string>>)
    ensures Lift6(a + b) == Lift6(a) + Lift6(b)
  {
    if a == [] {
      assert a + b == b;
    } else {
      assert (a + b)[1..] == a[1..] + b;
      Lift6Concat(a[1..], b);
    }
  }

  method AddressLines6(plan: Plan, read: Reading) returns (lines: seq<Command>)
    ensures lines == Lift6(AddressCommands6(StringOrder.Sort(plan.ipv6.addresses), read))
  {
    var addresses := StringOrder.Sort(plan.ipv6.addresses);
    lines := [];
    for i := 0 to |addresses|
      invariant lines == Lift6(AddressCommands6(addresses[..i], read))
    {
      assert addresses[..i + 1][..i] == addresses[..i];
      var c := AddAddress(read.prefix6(addresses[i]));
      Lift6Snoc(AddressCommands6(addresses[..i], read), c);
      lines := lines + [On6(c)];
    }
    assert addresses[..|addresses|] == addresses;
  }

  method GatewayLines6(plan: Plan) returns (lines: seq<Command>)
    ensures lines == Lift6(GatewayCommands6(plan))
  {
    lines := [];
    if plan.ipv6.gateway.Some? {
      var gateway := plan.ipv6.gateway.value;
      var recursive := plan.ipv6.gatewayOnLink && !gateway.linkLocal;
      if recursive {
        Lift6Snoc([], AddHostRoute(gateway.host, HOST_SCOPE));
        Lift6Snoc([AddHostRoute(gateway.host, HOST_SCOPE)], AddDefault(gateway.host, RECURSIVE_TARGET_SCOPE));
        lines := [On6(AddHostRoute(gateway.host, HOST_SCOPE))];
      }
      if gateway.linkLocal {
        Lift6Snoc([], AddZonedDefault(gateway.host));
        lines := lines + [On6(AddZonedDefault(gateway.host))];
      } else {
        var targetScope := if recursive then RECURSIVE_TARGET_SCOPE else TARGET_SCOPE;
        Lift6Snoc([], AddDefault(gateway.host, targetScope));
        lines := lines + [On6(AddDefault(gateway.host, targetScope))];
      }
    }
  }

  method Lines6(plan: Plan, read: Reading) returns (lines: seq<Command>)
    ensures lines == Lift6(Adds6(plan, read))
  {
    ghost var client := if plan.ipv6.dhcp then [AddClient(plan.ipv6.usePeerDNS)] else [];
    lines := [];
    if plan.ipv6.dhcp {
      lines := [On6(AddClient(plan.ipv6.usePeerDNS))];
    }
    Lift6Snoc([], AddClient(plan.ipv6.usePeerDNS));
    var addressLines := AddressLines6(plan, read);
    var gatewayLines := GatewayLines6(plan);
    lines := lines + addressLines + gatewayLines;
    ghost var addresses := AddressCommands6(StringOrder.Sort(plan.ipv6.addresses), read);
    Lift6Concat(client, addresses);
    Lift6Concat(client + addresses, GatewayCommands6(plan));
  }

  method Lines4(plan: Plan, read: Reading) returns (lines: seq<Command>)
    requires Complete(plan)
    ensures lines == Lift4(Adds4(plan, read))
  {
    lines := [];
    if plan.ipv4.mode == Dhcp {
      Lift4Snoc([], AddClient(plan.ipv4.usePeerDNS));
      lines := [On4(AddClient(plan.ipv4.usePeerDNS))];
    } else if plan.ipv4.mode == Static {
      lines := StaticLines4(plan, read);
    }
  }

  method DnsLine(plan: Plan, read: Reading) returns (line: Command)
    ensures line == SetDns(Dns(plan, read))
  {
    if |plan.dns| > 0 {
      var servers := StringOrder.Sort(plan.dns);
      StringOrder.SortKeepsMembers(plan.dns);
      var expression, zoned := DnsExpression(servers, read);
      if zoned {
        line := SetDns(Expression(expression));
      } else {
        line := SetDns(Literal(CommaJoined(servers)));
      }
    } else {
      line := SetDns(Literal(""));
    }
  }

  method RouterOSScript(plan: Plan, read: Reading) returns (r: Result<seq<Command>, ()>)
    ensures r == if Valid(plan, read) then Ok(Script(plan, read)) else Err(())
  {
    var ok := Validate(plan, read);
    if !ok {
      return Err(());
    }
    var lines := Header(plan);
    var lines4 := Lines4(plan, read);
    lines := lines + (lines4 + [AcceptAdvertisements(plan.ipv6.slaac)]);
    var lines6 := Lines6(plan, read);
    var dnsLine := DnsLine(plan, read);
    ghost var before := lines;
    lines := lines + lines6;
    lines := lines + [dnsLine, Log];
    assert lines == before + (lines6 + ([dnsLine] + [Log]));
    assert Script(plan, read) == before + (lines6 + ([dnsLine] + [Log]));
    r := Ok(lines);
  }
}
