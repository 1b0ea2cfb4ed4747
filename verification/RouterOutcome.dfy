// What a router looks like after the generated script has run, entry by entry
// (internal/network/routeros.go).
module RouterOutcome {
  import opened Wrappers
  import opened Addressing
  import opened NetworkPlan
  import opened RouterTables
  import opened RouterScript
  import opened RouterRun
  import StringOrder

  // ----- what additions make -----

  function Nothing<P, A>(): Family<P, A>
  {
    Family([], [], [])
  }

  lemma WantedConcat<P, A>(a: seq<FamilyCommand<P, A>>, b: seq<FamilyCommand<P, A>>, name: string)
    requires OnlyAdds(b)
    ensures Wanted(a + b, name) == Join(Wanted(a, name), Wanted(b, name))
  {
    var nothing: Family<P, A> := Nothing();
    ApplyConcat(a, b, nothing, name);
    assert Join(Wanted(a, name), nothing) == Wanted(a, name);
    AddsAppend(b, Wanted(a, name), nothing, name);
  }

  lemma WantedOne<P, A>(c: FamilyCommand<P, A>, name: string)
    ensures Wanted([c], name) == Apply(c, Nothing(), name)
  {
    var nothing: Family<P, A> := Nothing();
    AppliedOne(c, nothing, name);
  }

  lemma AppliedOne<P, A>(c: FamilyCommand<P, A>, f: Family<P, A>, name: string)
    ensures ApplyAll([c], f, name) == Apply(c, f, name)
  {
    var cs := [c];
    assert cs[1..] == [];
    assert ApplyAll(cs, f, name) == ApplyAll(cs[1..], Apply(cs[0], f, name), name);
  }

  lemma WantedTwo<P, A>(c: FamilyCommand<P, A>, d: FamilyCommand<P, A>, name: string)
    ensures Wanted([c, d], name) == Apply(d, Apply(c, Nothing(), name), name)
  {
    var nothing: Family<P, A> := Nothing();
    var cs := [c, d];
    assert cs[1..] == [d];
    assert ApplyAll(cs, nothing, name) == ApplyAll(cs[1..], Apply(cs[0], nothing, name), name);
    AppliedOne(d, Apply(c, nothing, name), name);
  }

  // The rows the address commands make.
  function AddressRows<P>(prefixes: seq<P>, name: string): (r: seq<Address<P>>)
    ensures |r| == |prefixes|
  {
    seq(|prefixes|, i requires 0 <= i < |prefixes| => Address(prefixes[i], name, false, true))
  }

  function Prefixes4(texts: seq<string>, read: Reading): (r: seq<Prefix>)
    ensures |r| == |texts|
  {
    seq(|texts|, i requires 0 <= i < |texts| => read.prefix4(texts[i]))
  }

  function Prefixes6(texts: seq<string>, read: Reading): (r: seq<string>)
    ensures |r| == |texts|
  {
    seq(|texts|, i requires 0 <= i < |texts| => read.prefix6(texts[i]))
  }

  lemma {:induction false} WantedAddresses4(texts: seq<string>, read: Reading, name: string)
    ensures Wanted(AddressCommands4(texts, read), name) == Family([], AddressRows(Prefixes4(texts, read), name), [])
  {
    if texts != [] {
      var n := |texts| - 1;
      var c: FamilyCommand<Prefix, Addr> := AddAddress(read.prefix4(texts[n]));
      WantedAddresses4(texts[..n], read, name);
      WantedConcat(AddressCommands4(texts[..n], read), [c], name);
      WantedOne(c, name);
      assert AddressRows(Prefixes4(texts, read), name) ==
             AddressRows(Prefixes4(texts[..n], read), name) + [Address(read.prefix4(texts[n]), name, false, true)];
    }
  }

  lemma {:induction false} WantedAddresses6(texts: seq<string>, read: Reading, name: string)
    ensures Wanted(AddressCommands6(texts, read), name) == Family([], AddressRows(Prefixes6(texts, read), name), [])
  {
    if texts != [] {
      var n := |texts| - 1;
      var c: FamilyCommand<string, string> := AddAddress(read.prefix6(texts[n]));
      WantedAddresses6(texts[..n], read, name);
      WantedConcat(AddressCommands6(texts[..n], read), [c], name);
      WantedOne(c, name);
      assert AddressRows(Prefixes6(texts, read), name) ==
             AddressRows(Prefixes6(texts[..n], read), name) + [Address(read.prefix6(texts[n]), name, false, true)];
    }
  }

  // ----- the uplink's own entries, spelled out -----

  // The entries in the script's charge: the clients and static addresses of the
  // uplink, the tagged routes, and the static default routes.
  ghost predicate Holds<P, A>(f: Family<P, A>, name: string, clients: seq<Client>, addresses: seq<Address<P>>, routes: seq<Route<A>>)
  {
    && Filter(f.clients, (c: Client) => c.uplink == name) == clients
    && Filter(f.addresses, (a: Address<P>) => a.uplink == name && !a.dynamic) == addresses
    && Filter(f.routes, (r: Route<A>) => r.tagged || (r.dst.Everything? && !r.dynamic)) == routes
  }

  // All other entries are as they were, in their order.
  ghost predicate Untouched<P, A>(before: Family<P, A>, after: Family<P, A>, name: string)
  {
    && Filter(after.clients, (c: Client) => c.uplink != name) == Filter(before.clients, (c: Client) => c.uplink != name)
    && Filter(after.addresses, (a: Address<P>) => a.uplink != name || a.dynamic) ==
       Filter(before.addresses, (a: Address<P>) => a.uplink != name || a.dynamic)
    && Filter(after.routes, (r: Route<A>) => !r.tagged && (!r.dst.Everything? || r.dynamic)) ==
       Filter(before.routes, (r: Route<A>) => !r.tagged && (!r.dst.Everything? || r.dynamic))
  }

  lemma {:induction false} FilterSame<T>(s: seq<T>, p: T -> bool, q: T -> bool)
    requires forall x :: p(x) <==> q(x)
    ensures Filter(s, p) == Filter(s, q)
  {
    if s != [] {
      FilterSame(s[1..], p, q);
    }
  }

  lemma RefilledHolds<P, A>(f: Family<P, A>, adds: seq<FamilyCommand<P, A>>, name: string)
    requires OnlyAdds(adds)
    ensures var g, w := Join(Kept(f, name), Wanted(adds, name)), Wanted(adds, name);
      Holds(g, name, w.clients, w.addresses, w.routes) && Untouched(f, g, name)
  {
    var g := Join(Kept(f, name), Wanted(adds, name));
    OwnedAfter(f, adds, name);
    KeptOfJoin(f, adds, name);
    FilterSame(g.clients, c => !KeepClient(c, name), (c: Client) => c.uplink == name);
    FilterSame(g.addresses, a => !KeepAddress(a, name), (a: Address<P>) => a.uplink == name && !a.dynamic);
    FilterSame(g.routes, r => !KeepRoute(r), (r: Route<A>) => r.tagged || (r.dst.Everything? && !r.dynamic));
    KeptIsUntouched(f, g, name);
  }

  lemma KeptIsUntouched<P, A>(f: Family<P, A>, g: Family<P, A>, name: string)
    requires Kept(f, name) == Kept(g, name)
    ensures Untouched(f, g, name)
  {
    FilterSame(f.clients, c => KeepClient(c, name), (c: Client) => c.uplink != name);
    FilterSame(g.clients, c => KeepClient(c, name), (c: Client) => c.uplink != name);
    FilterSame(f.addresses, a => KeepAddress(a, name), (a: Address<P>) => a.uplink != name || a.dynamic);
    FilterSame(g.addresses, a => KeepAddress(a, name), (a: Address<P>) => a.uplink != name || a.dynamic);
    FilterSame(f.routes, r => KeepRoute(r), (r: Route<A>) => !r.tagged && (!r.dst.Everything? || r.dynamic));
    FilterSame(g.routes, r => KeepRoute(r), (r: Route<A>) => !r.tagged && (!r.dst.Everything? || r.dynamic));
  }

  // ----- IPv4 -----

  // The default route of a static plan; with the gateway on-link it resolves
  // through a host route of narrower scope.
  function StaticRoutes(gateway: Addr, onLink: bool, name: string): seq<Route<Addr>>
  {
    if onLink then
      [Route(HostOf(gateway), OnInterface(name), false, 10, 10, true), Route(Everything, Via(gateway), false, 30, 11, true)]
    else
      [Route(Everything, Via(gateway), false, 30, 10, true)]
  }

  // A router that has the IPv4 half of the plan: a DHCP client and nothing
  // else, or the addresses and a default route, or nothing.
  ghost predicate Has4(f: Family<Prefix, Addr>, plan: IPv4Plan, read: Reading, name: string)
  {
    match plan.mode
    case Dhcp => Holds(f, name, [Client(name, plan.usePeerDNS, true)], [], [])
    case Static =>
      plan.gateway.Some? &&
      Holds(f, name, [], AddressRows(Prefixes4(StringOrder.Sort(plan.addresses), read), name),
            StaticRoutes(plan.gateway.value, plan.gatewayOnLink, name))
    case Off | Unknown => Holds(f, name, [], [], [])
  }

  lemma WantedStatic(plan: Plan, read: Reading, name: string)
    requires Complete(plan) && plan.ipv4.mode == Static
    ensures Wanted(Adds4(plan, read), name) ==
            Family([], AddressRows(Prefixes4(StringOrder.Sort(plan.ipv4.addresses), read), name),
                   StaticRoutes(plan.ipv4.gateway.value, plan.ipv4.gatewayOnLink, name))
  {
    var texts, gateway := StringOrder.Sort(plan.ipv4.addresses), plan.ipv4.gateway.value;
    WantedAddresses4(texts, read, name);
    var host: FamilyCommand<Prefix, Addr> := AddHostRoute(gateway, HOST_SCOPE);
    var recursive: FamilyCommand<Prefix, Addr> := AddDefault(gateway, RECURSIVE_TARGET_SCOPE);
    var plain: FamilyCommand<Prefix, Addr> := AddDefault(gateway, TARGET_SCOPE);
    if plan.ipv4.gatewayOnLink {
      WantedConcat(AddressCommands4(texts, read), [host, recursive], name);
      WantedTwo(host, recursive, name);
    } else {
      WantedConcat(AddressCommands4(texts, read), [plain], name);
      WantedOne(plain, name);
    }
  }

  lemma Wanted4(plan: Plan, read: Reading, f: Family<Prefix, Addr>, name: string)
    requires Complete(plan)
    requires var w := Wanted(Adds4(plan, read), name); Holds(f, name, w.clients, w.addresses, w.routes)
    ensures Has4(f, plan.ipv4, read, name)
  {
    match plan.ipv4.mode
    case Dhcp => WantedOne<Prefix, Addr>(AddClient(plan.ipv4.usePeerDNS), name);
    case Static => WantedStatic(plan, read, name);
    case Off | Unknown =>
  }

  // ----- IPv6 -----

  // Exactly one default route when there is a gateway: through the zone of the
  // uplink for a link-local one, otherwise as for IPv4.
  function GatewayRoutes(plan: IPv6Plan, name: string): seq<Route<string>>
  {
    match plan.gateway
    case None => []
    case Some(g) =>
      if g.linkLocal then [Route(Everything, ViaZone(g.host, name), false, 30, 10, true)]
      else if plan.gatewayOnLink then
        [Route(HostOf(g.host), OnInterface(name), false, 10, 10, true), Route(Everything, Via(g.host), false, 30, 11, true)]
      else [Route(Everything, Via(g.host), false, 30, 10, true)]
  }

  // A client exactly when the plan asks for DHCP, exactly the plan's addresses,
  // and its gateway.
  ghost predicate Has6(f: Family<string, string>, plan: IPv6Plan, read: Reading, name: string)
  {
    Holds(f, name, if plan.dhcp then [Client(name, plan.usePeerDNS, true)] else [],
          AddressRows(Prefixes6(StringOrder.Sort(plan.addresses), read), name), GatewayRoutes(plan, name))
  }

  lemma WantedGateway6(plan: Plan, name: string)
    ensures Wanted(GatewayCommands6(plan), name) == Family([], [], GatewayRoutes(plan.ipv6, name))
  {
    if plan.ipv6.gateway.Some? {
      var g := plan.ipv6.gateway.value;
      WantedOne<string, string>(AddZonedDefault(g.host), name);
      WantedOne<string, string>(AddDefault(g.host, TARGET_SCOPE), name);
      WantedTwo<string, string>(AddHostRoute(g.host, HOST_SCOPE), AddDefault(g.host, RECURSIVE_TARGET_SCOPE), name);
    }
  }

  lemma Wanted6(plan: Plan, read: Reading, f: Family<string, string>, name: string)
    requires var w := Wanted(Adds6(plan, read), name); Holds(f, name, w.clients, w.addresses, w.routes)
    ensures Has6(f, plan.ipv6, read, name)
  {
    WantedAll6(plan, read, name);
  }

  lemma WantedClient6(plan: IPv6Plan, name: string)
    ensures var client: seq<FamilyCommand<string, string>> := if plan.dhcp then [AddClient(plan.usePeerDNS)] else [];
      Wanted(client, name) == Family(if plan.dhcp then [Client(name, plan.usePeerDNS, true)] else [], [], [])
  {
    WantedOne<string, string>(AddClient(plan.usePeerDNS), name);
  }

  lemma WantedAll6(plan: Plan, read: Reading, name: string)
    ensures Wanted(Adds6(plan, read), name) ==
            Family(if plan.ipv6.dhcp then [Client(name, plan.ipv6.usePeerDNS, true)] else [],
                   AddressRows(Prefixes6(StringOrder.Sort(plan.ipv6.addresses), read), name),
                   GatewayRoutes(plan.ipv6, name))
  {
    var texts := StringOrder.Sort(plan.ipv6.addresses);
    var client: seq<FamilyCommand<string, string>> := if plan.ipv6.dhcp then [AddClient(plan.ipv6.usePeerDNS)] else [];
    var addresses := AddressCommands6(texts, read);
    CommandsOnlyAdd6(texts, read);
    WantedClient6(plan.ipv6, name);
    WantedAddresses6(texts, read, name);
    WantedGateway6(plan, name);
    WantedConcat(client, addresses, name);
    WantedConcat(client + addresses, GatewayCommands6(plan), name);
  }

  // ----- the whole router -----

  // The one interface with the plan's hardware address.
  ghost predicate Uplink(r: Router, mac: string, i: int)
  {
    0 <= i < |r.ethers| && forall j :: 0 <= j < |r.ethers| ==> (r.ethers[j].mac == mac <==> j == i)
  }

  lemma {:induction false} NoneMatches(ethers: seq<Ether>, mac: string)
    requires forall j :: 0 <= j < |ethers| ==> ethers[j].mac != mac
    ensures Matching(ethers, mac) == []
  {
    if ethers != [] {
      NoneMatches(ethers[1..], mac);
    }
  }

  lemma {:induction false} MatchesAt(ethers: seq<Ether>, mac: string, i: nat)
    requires i < |ethers| && forall j :: 0 <= j < |ethers| ==> (ethers[j].mac == mac <==> j == i)
    ensures Matching(ethers, mac) == [ethers[i].name]
  {
    if i == 0 {
      NoneMatches(ethers[1..], mac);
    } else {
      MatchesAt(ethers[1..], mac, i - 1);
    }
  }

  lemma {:induction false} OneMatch(ethers: seq<Ether>, mac: string) returns (i: nat)
    requires |Matching(ethers, mac)| == 1
    ensures i < |ethers| && forall j :: 0 <= j < |ethers| ==> (ethers[j].mac == mac <==> j == i)
  {
    if ethers[0].mac == mac {
      i := 0;
      forall j | 1 <= j < |ethers| ensures ethers[j].mac != mac {
        SomeMatch(ethers[1..], mac, j - 1);
      }
    } else {
      i := OneMatch(ethers[1..], mac);
      i := i + 1;
    }
  }

  lemma {:induction false} SomeMatch(ethers: seq<Ether>, mac: string, j: nat)
    requires j < |ethers|
    ensures ethers[j].mac == mac ==> Matching(ethers, mac) != []
  {
    if j > 0 {
      SomeMatch(ethers[1..], mac, j - 1);
    }
  }

  lemma {:induction false} MtuExactly(ethers: seq<Ether>, mac: string, mtu: int)
    ensures |WithMtu(ethers, mac, mtu)| == |ethers|
    ensures forall j :: 0 <= j < |ethers| ==>
              WithMtu(ethers, mac, mtu)[j] == if ethers[j].mac == mac then ethers[j].(mtu := mtu) else ethers[j]
  {
    if ethers != [] {
      MtuExactly(ethers[1..], mac, mtu);
    }
  }

  // The router after the script of a plan, when interface `i` is the uplink.
  ghost predicate Configured(before: Router, after: Router, plan: Plan, read: Reading, i: int)
    requires 0 <= i < |before.ethers|
  {
    var name := before.ethers[i].name;
    && after.ethers == before.ethers[i := before.ethers[i].(mtu := plan.mtu)]
    && Has4(after.v4, plan.ipv4, read, name) && Untouched(before.v4, after.v4, name)
    && Has6(after.v6, plan.ipv6, read, name) && Untouched(before.v6, after.v6, name)
    && after.acceptAdvertisements == plan.ipv6.slaac
    && after.dns == CommaJoined(Spelled(StringOrder.Sort(plan.dns), read, name))
  }

  // The script of any plan it can be made for turns any router with one
  // matching interface into one configured by the plan, and leaves any other
  // router alone.
  lemma ScriptConfigures(plan: Plan, read: Reading, r: Router)
    requires Complete(plan)
    ensures forall i :: Uplink(r, plan.mac.value, i) ==> Configured(r, RunScript(Script(plan, read), r), plan, read, i)
    ensures (forall i :: !Uplink(r, plan.mac.value, i)) ==> RunScript(Script(plan, read), r) == r
  {
    var mac := plan.mac.value;
    ScriptConverges(plan, read, r);
    forall i | Uplink(r, mac, i) ensures Configured(r, RunScript(Script(plan, read), r), plan, read, i) {
      MatchesAt(r.ethers, mac, i);
      ConvergedIsConfigured(plan, read, r, i);
    }
    if forall i :: !Uplink(r, mac, i) {
      if |Matching(r.ethers, mac)| == 1 {
        var i := OneMatch(r.ethers, mac);
        assert Uplink(r, mac, i);
      }
    }
  }

  lemma ConvergedIsConfigured(plan: Plan, read: Reading, r: Router, i: int)
    requires Complete(plan) && Uplink(r, plan.mac.value, i)
    ensures Configured(r, Converged(plan, read, r, r.ethers[i].name), plan, read, i)
  {
    var name := r.ethers[i].name;
    var after := Converged(plan, read, r, name);
    MtuExactly(r.ethers, plan.mac.value, plan.mtu);
    assert after.ethers == r.ethers[i := r.ethers[i].(mtu := plan.mtu)];
    PlanOnlyAdds(plan, read);
    RefilledHolds(r.v4, Adds4(plan, read), name);
    RefilledHolds(r.v6, Adds6(plan, read), name);
    Wanted4(plan, read, after.v4, name);
    Wanted6(plan, read, after.v6, name);
    ServersReachTheRouter(plan, read, name);
  }
}
