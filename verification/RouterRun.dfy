// What the generated script does to a router (internal/network/routeros.go):
// it converges, it is idempotent, and it leaves everything else alone.
module RouterRun {
  import opened Addressing
  import opened NetworkPlan
  import opened RouterTables
  import opened RouterScript
  import StringOrder

  datatype Ether = Ether(name: string, mac: string, mtu: int)

  datatype Router = Router(
    ethers: seq<Ether>,
    v4: Family<Prefix, Addr>,
    v6: Family<string, string>,
    acceptAdvertisements: bool,
    dns: string)

  // A running script: its $targetMac and $uplinkName, and whether :error
  // stopped it.
  datatype Session = Session(router: Router, mac: string, name: string, stopped: bool)

  function Matching(ethers: seq<Ether>, mac: string): seq<string>
  {
    if ethers == [] then []
    else (if ethers[0].mac == mac then [ethers[0].name] else []) + Matching(ethers[1..], mac)
  }

  function WithMtu(ethers: seq<Ether>, mac: string, mtu: int): seq<Ether>
  {
    if ethers == [] then []
    else [if ethers[0].mac == mac then ethers[0].(mtu := mtu) else ethers[0]] + WithMtu(ethers[1..], mac, mtu)
  }

  function Evaluate(parts: seq<Part>, name: string): string
  {
    if parts == [] then ""
    else (match parts[0] case Quoted(text) => text case UplinkName => name) + Evaluate(parts[1..], name)
  }

  function DnsText(servers: DnsServers, name: string): string
  {
    match servers
    case Literal(text) => text
    case Expression(parts) => Evaluate(parts, name)
  }

  function Execute(c: Command, s: Session): Session
  {
    if s.stopped then s
    else match c
      case Delay(_) => s
      case Log => s
      case FindUplink(mac) => s.(mac := mac)
      case RequireSingleUplink =>
        var names := Matching(s.router.ethers, s.mac);
        if |names| == 1 then s.(name := names[0]) else s.(stopped := true)
      case SetMtu(mtu) => s.(router := s.router.(ethers := WithMtu(s.router.ethers, s.mac, mtu)))
      case On4(c4) => s.(router := s.router.(v4 := Apply(c4, s.router.v4, s.name)))
      case On6(c6) => s.(router := s.router.(v6 := Apply(c6, s.router.v6, s.name)))
      case AcceptAdvertisements(accept) => s.(router := s.router.(acceptAdvertisements := accept))
      case SetDns(servers) => s.(router := s.router.(dns := DnsText(servers, s.name)))
  }

  function Run(cs: seq<Command>, s: Session): Session
    decreases cs
  {
    if cs == [] then s else Run(cs[1..], Execute(cs[0], s))
  }

  function RunScript(script: seq<Command>, r: Router): Router
  {
    Run(script, Session(r, "", "", false)).router
  }

  // The state the script aims at on a router whose uplink is `name`: what it
  // does not own, followed by what the plan asks for.
  function Converged(plan: Plan, read: Reading, r: Router, name: string): Router
    requires Complete(plan)
  {
    Router(WithMtu(r.ethers, plan.mac.value, plan.mtu),
           Join(Kept(r.v4, name), Wanted(Adds4(plan, read), name)),
           Join(Kept(r.v6, name), Wanted(Adds6(plan, read), name)),
           plan.ipv6.slaac,
           DnsText(Dns(plan, read), name))
  }

  // ----- running pieces -----

  lemma {:induction false} RunConcat(a: seq<Command>, b: seq<Command>, s: Session)
    ensures Run(a + b, s) == Run(b, Run(a, s))
    decreases a
  {
    if a == [] {
      assert a + b == b;
    } else {
      assert (a + b)[1..] == a[1..] + b;
      RunConcat(a[1..], b, Execute(a[0], s));
    }
  }

  lemma {:induction false} RunStopped(cs: seq<Command>, s: Session)
    requires s.stopped
    ensures Run(cs, s) == s
  {
    if cs != [] {
      RunStopped(cs[1..], s);
    }
  }

  lemma {:induction false} RunLift4(cs: seq<FamilyCommand<Prefix, Addr>>, s: Session)
    requires !s.stopped
    ensures Run(Lift4(cs), s) == s.(router := s.router.(v4 := ApplyAll(cs, s.router.v4, s.name)))
    decreases cs
  {
    if cs != [] {
      assert Lift4(cs)[1..] == Lift4(cs[1..]);
      RunLift4(cs[1..], Execute(On4(cs[0]), s));
    }
  }

  lemma {:induction false} RunLift6(cs: seq<FamilyCommand<string, string>>, s: Session)
    requires !s.stopped
    ensures Run(Lift6(cs), s) == s.(router := s.router.(v6 := ApplyAll(cs, s.router.v6, s.name)))
    decreases cs
  {
    if cs != [] {
      assert Lift6(cs)[1..] == Lift6(cs[1..]);
      RunLift6(cs[1..], Execute(On6(cs[0]), s));
    }
  }

  lemma RunOne(c: Command, s: Session)
    ensures Run([c], s) == Execute(c, s)
  {
    assert [c][1..] == [];
  }

  lemma RunFinding(mac: string, mtu: int, r: Router)
    ensures var s := Run(Finding(mac, mtu), Session(r, "", "", false));
      var names := Matching(r.ethers, mac);
      s == if |names| == 1 then Session(r.(ethers := WithMtu(r.ethers, mac, mtu)), mac, names[0], false)
           else Session(r, mac, "", true)
  {
    var start := Session(r, "", "", false);
    var cs := Finding(mac, mtu);
    var s1 := Execute(cs[1], start);
    var s2 := Execute(cs[2], s1);
    assert cs[1..][1..] == cs[2..] && cs[2..][1..] == cs[3..] && cs[3..][1..] == cs[4..] && cs[4..][1..] == [];
    assert Run(cs, start) == Run(cs[1..], start) == Run(cs[2..], s1);
    assert Run(cs[2..], s1) == Run(cs[3..], s2) == Run(cs[4..], s2) == Run([], Execute(cs[4], s2));
  }

  lemma RunClearing(s: Session)
    requires !s.stopped
    ensures Run(Clearing(), s) == s.(router := s.router.(v4 := Kept(s.router.v4, s.name), v6 := Kept(s.router.v6, s.name)))
  {
    RunConcat(Lift4(Clear()), Lift6(Clear()) + [Delay(1)], s);
    RunLift4(Clear(), s);
    ClearKeeps(s.router.v4, s.name);
    var s1 := Run(Lift4(Clear()), s);
    RunConcat(Lift6(Clear()), [Delay(1)], s1);
    RunLift6(Clear(), s1);
    ClearKeeps(s.router.v6, s.name);
    RunOne(Delay(1), Run(Lift6(Clear()), s1));
  }

  // The first commands: either the uplink is unique and named, or the script
  // has stopped having changed nothing.
  lemma RunHeader(plan: Plan, r: Router)
    requires Complete(plan)
    ensures var s := Run(Header(plan), Session(r, "", "", false));
      var names := Matching(r.ethers, plan.mac.value);
      if |names| == 1 then
        s == Session(r.(ethers := WithMtu(r.ethers, plan.mac.value, plan.mtu),
                        v4 := Kept(r.v4, names[0]), v6 := Kept(r.v6, names[0])),
                     plan.mac.value, names[0], false)
      else s.stopped && s.router == r
  {
    var start := Session(r, "", "", false);
    var finding := Finding(plan.mac.value, plan.mtu);
    RunConcat(finding, Clearing(), start);
    RunFinding(plan.mac.value, plan.mtu, r);
    var s := Run(finding, start);
    if s.stopped {
      RunStopped(Clearing(), s);
    } else {
      RunClearing(s);
    }
  }

  lemma {:induction false} CommandsOnlyAdd4(texts: seq<string>, read: Reading)
    ensures OnlyAdds(AddressCommands4(texts, read))
  {
    if texts != [] {
      CommandsOnlyAdd4(texts[..|texts| - 1], read);
    }
  }

  lemma {:induction false} CommandsOnlyAdd6(texts: seq<string>, read: Reading)
    ensures OnlyAdds(AddressCommands6(texts, read))
  {
    if texts != [] {
      CommandsOnlyAdd6(texts[..|texts| - 1], read);
    }
  }

  lemma OnlyAdds4(plan: Plan, read: Reading)
    requires Complete(plan)
    ensures OnlyAdds(Adds4(plan, read))
  {
    if plan.ipv4.mode == Static {
      var addresses := AddressCommands4(StringOrder.Sort(plan.ipv4.addresses), read);
      CommandsOnlyAdd4(StringOrder.Sort(plan.ipv4.addresses), read);
      var gateway := plan.ipv4.gateway.value;
      if plan.ipv4.gatewayOnLink {
        OnlyAddsConcat(addresses, [AddHostRoute(gateway, HOST_SCOPE), AddDefault(gateway, RECURSIVE_TARGET_SCOPE)]);
      } else {
        OnlyAddsConcat(addresses, [AddDefault(gateway, TARGET_SCOPE)]);
      }
    }
  }

  lemma OnlyAdds6(plan: Plan, read: Reading)
    ensures OnlyAdds(Adds6(plan, read))
  {
    var client := if plan.ipv6.dhcp then [AddClient(plan.ipv6.usePeerDNS)] else [];
    var addresses := AddressCommands6(StringOrder.Sort(plan.ipv6.addresses), read);
    CommandsOnlyAdd6(StringOrder.Sort(plan.ipv6.addresses), read);
    OnlyAddsConcat(client, addresses);
    OnlyAddsConcat(client + addresses, GatewayCommands6(plan));
  }

  lemma PlanOnlyAdds(plan: Plan, read: Reading)
    requires Complete(plan)
    ensures OnlyAdds(Adds4(plan, read)) && OnlyAdds(Adds6(plan, read))
  {
    OnlyAdds4(plan, read);
    OnlyAdds6(plan, read);
  }

  lemma OnlyAddsConcat<P, A>(a: seq<FamilyCommand<P, A>>, b: seq<FamilyCommand<P, A>>)
    requires OnlyAdds(a) && OnlyAdds(b)
    ensures OnlyAdds(a + b)
  {
  }

  // ----- main results -----

  // From any router: with exactly one matching interface the script reaches
  // the converged state, with none or several it changes nothing.
  lemma ScriptConverges(plan: Plan, read: Reading, r: Router)
    requires Complete(plan)
    ensures var names := Matching(r.ethers, plan.mac.value);
      RunScript(Script(plan, read), r) == if |names| == 1 then Converged(plan, read, r, names[0]) else r
  {
    var start := Session(r, "", "", false);
    var a, rest := Header(plan), Body(plan, read);
    RunConcat(a, rest, start);
    RunHeader(plan, r);
    var s0 := Run(a, start);
    if s0.stopped {
      RunStopped(rest, s0);
    } else {
      RunBody(plan, read, s0);
      PlanOnlyAdds(plan, read);
      Refilled(Adds4(plan, read), r.v4, s0.name);
      Refilled(Adds6(plan, read), r.v6, s0.name);
    }
  }

  lemma RunEnding(adds: seq<FamilyCommand<string, string>>, dns: DnsServers, s: Session)
    requires !s.stopped
    ensures Run(Ending(adds, dns), s) ==
            s.(router := s.router.(v6 := ApplyAll(adds, s.router.v6, s.name), dns := DnsText(dns, s.name)))
  {
    RunConcat(Lift6(adds), [SetDns(dns)] + [Log], s);
    RunLift6(adds, s);
    var s1 := Run(Lift6(adds), s);
    RunConcat([SetDns(dns)], [Log], s1);
    RunOne(SetDns(dns), s1);
    RunOne(Log, Execute(SetDns(dns), s1));
  }

  lemma RunBody(plan: Plan, read: Reading, s: Session)
    requires Complete(plan) && !s.stopped
    ensures Run(Body(plan, read), s).router == s.router.(
              v4 := ApplyAll(Adds4(plan, read), s.router.v4, s.name),
              v6 := ApplyAll(Adds6(plan, read), s.router.v6, s.name),
              acceptAdvertisements := plan.ipv6.slaac,
              dns := DnsText(Dns(plan, read), s.name))
  {
    var adds4, adds6, dns := Adds4(plan, read), Adds6(plan, read), Dns(plan, read);
    var accept := AcceptAdvertisements(plan.ipv6.slaac);
    RunConcat(Lift4(adds4) + [accept], Ending(adds6, dns), s);
    RunConcat(Lift4(adds4), [accept], s);
    RunLift4(adds4, s);
    var s1 := Run(Lift4(adds4), s);
    RunOne(accept, s1);
    RunEnding(adds6, dns, Execute(accept, s1));
  }

  lemma {:induction false} MtuKeepsMatches(ethers: seq<Ether>, mac: string, mtu: int)
    ensures Matching(WithMtu(ethers, mac, mtu), mac) == Matching(ethers, mac)
    ensures WithMtu(WithMtu(ethers, mac, mtu), mac, mtu) == WithMtu(ethers, mac, mtu)
  {
    if ethers != [] {
      assert WithMtu(ethers, mac, mtu)[1..] == WithMtu(ethers[1..], mac, mtu);
      MtuKeepsMatches(ethers[1..], mac, mtu);
    }
  }

  // Running the script again changes nothing.
  lemma ScriptIsIdempotent(plan: Plan, read: Reading, r: Router)
    requires Complete(plan)
    ensures var script := Script(plan, read);
      RunScript(script, RunScript(script, r)) == RunScript(script, r)
  {
    ScriptConverges(plan, read, r);
    var once := RunScript(Script(plan, read), r);
    ScriptConverges(plan, read, once);
    var names := Matching(r.ethers, plan.mac.value);
    if |names| == 1 {
      MtuKeepsMatches(r.ethers, plan.mac.value, plan.mtu);
      PlanOnlyAdds(plan, read);
      KeptOfJoin(r.v4, Adds4(plan, read), names[0]);
      KeptOfJoin(r.v6, Adds6(plan, read), names[0]);
    }
  }

  // What the script is in charge of on an uplink: its clients, its static
  // addresses, the tagged routes and the static default routes.
  function OwnedPart<P, A>(f: Family<P, A>, name: string): Family<P, A>
  {
    Family(Filter(f.clients, c => !KeepClient(c, name)),
           Filter(f.addresses, a => !KeepAddress(a, name)),
           Filter(f.routes, r => !KeepRoute(r)))
  }

  lemma OwnedAfter<P, A>(f: Family<P, A>, adds: seq<FamilyCommand<P, A>>, name: string)
    requires OnlyAdds(adds)
    ensures OwnedPart(Join(Kept(f, name), Wanted(adds, name)), name) == Wanted(adds, name)
  {
    var k, g := Kept(f, name), Wanted(adds, name);
    AddsAreOwned(adds, Family([], [], []), name);
    FilterSplits(f.clients, g.clients, c => KeepClient(c, name), c => !KeepClient(c, name));
    FilterSplits(f.addresses, g.addresses, a => KeepAddress(a, name), a => !KeepAddress(a, name));
    FilterSplits(f.routes, g.routes, r => KeepRoute(r), r => !KeepRoute(r));
  }

  lemma FilterSplits<T>(s: seq<T>, t: seq<T>, keep: T -> bool, drop: T -> bool)
    requires forall x :: drop(x) <==> !keep(x)
    requires forall x :: x in t ==> drop(x)
    ensures Filter(Filter(s, keep) + t, drop) == t
  {
    FilterConcat(Filter(s, keep), t, drop);
    forall x | x in Filter(s, keep) ensures !drop(x) {
      FilterMembers(s, keep, x);
    }
    FilterNone(Filter(s, keep), drop);
    FilterAll(t, drop);
  }

  lemma {:induction false} FilterAll<T>(s: seq<T>, keep: T -> bool)
    requires forall x :: x in s ==> keep(x)
    ensures Filter(s, keep) == s
  {
    if s != [] {
      FilterAll(s[1..], keep);
    }
  }

  // After a run the owned part depends on nothing but the plan and the name of
  // the uplink, and the rest is what it was.
  lemma OnlyThePlanRemains(plan: Plan, read: Reading, r: Router, q: Router)
    requires Complete(plan)
    requires |Matching(r.ethers, plan.mac.value)| == 1
    requires Matching(q.ethers, plan.mac.value) == Matching(r.ethers, plan.mac.value)
    ensures var name := Matching(r.ethers, plan.mac.value)[0];
      var r', q' := RunScript(Script(plan, read), r), RunScript(Script(plan, read), q);
      && OwnedPart(r'.v4, name) == OwnedPart(q'.v4, name)
      && OwnedPart(r'.v6, name) == OwnedPart(q'.v6, name)
      && r'.dns == q'.dns && r'.acceptAdvertisements == q'.acceptAdvertisements
      && Kept(r'.v4, name) == Kept(r.v4, name)
      && Kept(r'.v6, name) == Kept(r.v6, name)
  {
    var name := Matching(r.ethers, plan.mac.value)[0];
    ScriptConverges(plan, read, r);
    ScriptConverges(plan, read, q);
    PlanOnlyAdds(plan, read);
    OwnedAfter(r.v4, Adds4(plan, read), name);
    OwnedAfter(q.v4, Adds4(plan, read), name);
    OwnedAfter(r.v6, Adds6(plan, read), name);
    OwnedAfter(q.v6, Adds6(plan, read), name);
    KeptOfJoin(r.v4, Adds4(plan, read), name);
    KeptOfJoin(r.v6, Adds6(plan, read), name);
  }

  // `plan` with the lists of `other`.
  function Rearranged(plan: Plan, other: Plan): Plan
  {
    plan.(ipv4 := plan.ipv4.(addresses := other.ipv4.addresses),
          ipv6 := plan.ipv6.(addresses := other.ipv6.addresses),
          dns := other.dns)
  }

  // Plans that differ in the order of addresses and servers only compile to
  // the same script.
  lemma OrderDoesNotMatter(plan: Plan, other: Plan, read: Reading)
    requires multiset(plan.ipv4.addresses) == multiset(other.ipv4.addresses)
    requires multiset(plan.ipv6.addresses) == multiset(other.ipv6.addresses)
    requires multiset(plan.dns) == multiset(other.dns)
    requires other == Rearranged(plan, other)
    ensures Valid(plan, read) <==> Valid(other, read)
    ensures Valid(plan, read) ==> Script(plan, read) == Script(other, read)
  {
    ValidityIgnoresOrder(plan, other, read);
    if Valid(plan, read) {
      StringOrder.SortCanonical(plan.ipv4.addresses, other.ipv4.addresses);
      StringOrder.SortCanonical(plan.ipv6.addresses, other.ipv6.addresses);
      StringOrder.SortCanonical(plan.dns, other.dns);
      SameParts(plan, other, read);
    }
  }

  lemma SameParts(plan: Plan, other: Plan, read: Reading)
    requires Complete(plan)
    requires StringOrder.Sort(plan.ipv4.addresses) == StringOrder.Sort(other.ipv4.addresses)
    requires StringOrder.Sort(plan.ipv6.addresses) == StringOrder.Sort(other.ipv6.addresses)
    requires StringOrder.Sort(plan.dns) == StringOrder.Sort(other.dns)
    requires other == Rearranged(plan, other)
    ensures Adds4(plan, read) == Adds4(other, read)
    ensures Adds6(plan, read) == Adds6(other, read)
    ensures Dns(plan, read) == Dns(other, read)
  {
  }

  lemma ValidityIgnoresOrder(plan: Plan, other: Plan, read: Reading)
    requires multiset(plan.ipv4.addresses) == multiset(other.ipv4.addresses)
    requires multiset(plan.ipv6.addresses) == multiset(other.ipv6.addresses)
    requires multiset(plan.dns) == multiset(other.dns)
    requires other == Rearranged(plan, other)
    ensures Valid(plan, read) <==> Valid(other, read)
  {
    SameMembers(plan.ipv4.addresses, other.ipv4.addresses);
    SameMembers(plan.ipv6.addresses, other.ipv6.addresses);
    SameMembers(plan.dns, other.dns);
  }

  lemma SameMembers(a: seq<string>, b: seq<string>)
    requires multiset(a) == multiset(b)
    ensures |a| == |b| && forall x :: x in a <==> x in b
  {
    assert |multiset(a)| == |multiset(b)|;
    assert forall x :: x in a <==> x in multiset(a);
    assert forall x :: x in b <==> x in multiset(b);
  }

  // ----- DNS -----

  // A server as the router will know it: its zone is the uplink.
  function OnUplink(server: Server, name: string): string
  {
    if server.zone != "" then server.host + "%" + name else server.host
  }

  function AllOnUplink(servers: seq<string>, read: Reading, name: string): (r: seq<string>)
    ensures |r| == |servers|
  {
    seq(|servers|, i requires 0 <= i < |servers| => OnUplink(read.server(servers[i]), name))
  }

  lemma {:induction false} EvaluateConcat(a: seq<Part>, b: seq<Part>, name: string)
    ensures Evaluate(a + b, name) == Evaluate(a, name) + Evaluate(b, name)
  {
    if a == [] {
      assert a + b == b;
    } else {
      assert (a + b)[1..] == a[1..] + b;
      EvaluateConcat(a[1..], b, name);
    }
  }

  lemma ItemDenotes(server: Server, name: string)
    ensures Evaluate(Item(server), name) == OnUplink(server, name)
  {
    assert [UplinkName][1..] == [];
    if server.zone != "" {
      assert Item(server)[1..] == [UplinkName];
      assert Evaluate([UplinkName], name) == name;
    } else {
      assert Item(server)[1..] == [];
    }
  }

  lemma CommaDenotes(name: string)
    ensures Evaluate([Quoted(",")], name) == ","
  {
    assert [Quoted(",")][1..] == [];
  }

  // The expression denotes the comma-joined servers on the uplink.
  lemma {:induction false} DnsExpressionDenotes(servers: seq<string>, read: Reading, name: string)
    ensures Evaluate(DnsParts(servers, read), name) == CommaJoined(AllOnUplink(servers, read, name))
  {
    if servers != [] {
      var n := |servers| - 1;
      var front := servers[..n];
      var comma := if n > 0 then [Quoted(",")] else [];
      var item := Item(read.server(servers[n]));
      DnsExpressionDenotes(front, read, name);
      EvaluateConcat(DnsParts(front, read) + comma, item, name);
      EvaluateConcat(DnsParts(front, read), comma, name);
      CommaDenotes(name);
      ItemDenotes(read.server(servers[n]), name);
      var all := AllOnUplink(servers, read, name);
      assert all[..n] == AllOnUplink(front, read, name) && all[n] == OnUplink(read.server(servers[n]), name);
      assert CommaJoined(all) == CommaJoined(all[..n]) + (if n > 0 then "," else "") + all[n];
    }
  }

  // The servers as they are handed over: once any has a zone all are rewritten
  // in canonical form and on the uplink, otherwise they keep their spelling.
  function Spelled(servers: seq<string>, read: Reading, name: string): seq<string>
  {
    if AnyZone(servers, read) then AllOnUplink(servers, read, name) else servers
  }

  // The router ends up with exactly the sorted servers of the plan, whichever
  // of the two forms was emitted. Where the plan spells its servers without a
  // zone canonically, both forms give the canonical servers on the uplink.
  lemma ServersReachTheRouter(plan: Plan, read: Reading, name: string)
    ensures DnsText(Dns(plan, read), name) == CommaJoined(Spelled(StringOrder.Sort(plan.dns), read, name))
    ensures (forall d :: d in plan.dns && read.server(d).zone == "" ==> d == read.server(d).host) ==>
              DnsText(Dns(plan, read), name) == CommaJoined(AllOnUplink(StringOrder.Sort(plan.dns), read, name))
  {
    var servers := StringOrder.Sort(plan.dns);
    StringOrder.SortKeepsMembers(plan.dns);
    DnsExpressionDenotes(servers, read, name);
    if !AnyZone(servers, read) {
      if forall d :: d in plan.dns && read.server(d).zone == "" ==> d == read.server(d).host {
        assert AllOnUplink(servers, read, name) == servers;
      }
    }
  }
}
