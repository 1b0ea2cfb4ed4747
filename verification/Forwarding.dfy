// A detected static IPv4 configuration and the script made from it forward
// alike: from Linux's main table, through detection and the script, to the
// tables of the router (internal/network/detect.go, routeros.go).
module Forwarding {
  import opened Wrappers
  import opened Addressing
  import opened NetworkPlan
  import opened RouterScript
  import opened RouterRun
  import opened RouterTables
  import opened RouterOutcome
  import D = RouteDetection
  import StringOrder
  import opened Sequences

  // ----- longest-prefix match -----

  datatype Entry = Entry(prefix: Prefix, via: Option<Addr>, metric: int)

  datatype Decision = Local | Unreachable | Send(next: Addr)

  predicate AtLeastAsGood(e: Entry, f: Entry)
  {
    e.prefix.bits > f.prefix.bits || (e.prefix.bits == f.prefix.bits && e.metric <= f.metric)
  }

  function Best(entries: seq<Entry>, dst: Addr): Option<Entry>
  {
    if entries == [] then None
    else
      var rest := Best(entries[1..], dst);
      if Contains(entries[0].prefix, dst) && (rest.None? || AtLeastAsGood(entries[0], rest.value)) then Some(entries[0])
      else rest
  }

  lemma {:induction false} BestIsBest(entries: seq<Entry>, dst: Addr)
    ensures Best(entries, dst).None? ==> forall e :: e in entries ==> !Contains(e.prefix, dst)
    ensures Best(entries, dst).Some? ==>
              var b := Best(entries, dst).value;
              && b in entries && Contains(b.prefix, dst)
              && forall e :: e in entries && Contains(e.prefix, dst) ==> AtLeastAsGood(b, e)
  {
    if entries != [] {
      BestIsBest(entries[1..], dst);
    }
  }

  // Where a packet goes next: nowhere for an address of the host itself, to
  // the destination when on-link, else to the gateway.
  function Forward(entries: seq<Entry>, own: set<Addr>, dst: Addr): Decision
  {
    if dst in own then Local
    else
      match Best(entries, dst)
      case None => Unreachable
      case Some(e) => Send(if e.via.Some? then e.via.value else dst)
  }

  // ----- the two tables -----

  function PrefixOf(dst: D.Destination): Prefix
  {
    match dst
    case Default => Prefix(0, 0)
    case Host(a) => Prefix(a, 32)
    case Net(p) => p
  }

  // The uplink's unicast routes of the Linux main table.
  function LinuxEntries(routes: seq<D.Route>, uplink: string): seq<Entry>
  {
    if routes == [] then []
    else
      (if routes[0].device == uplink then [Entry(PrefixOf(routes[0].dst), routes[0].gateway, routes[0].metric)] else []) +
      LinuxEntries(routes[1..], uplink)
  }

  const CONNECTED_SCOPE := 10

  // The connected routes RouterOS adds for its addresses.
  function ConnectedEntries(addresses: seq<Address<Prefix>>): seq<Entry>
  {
    if addresses == [] then [] else [Entry(Masked(addresses[0].prefix), None, 0)] + ConnectedEntries(addresses[1..])
  }

  // A gateway resolves through an on-link route within the target scope.
  predicate Resolves(f: Family<Prefix, Addr>, gateway: Addr, targetScope: int)
  {
    || (CONNECTED_SCOPE <= targetScope && exists a :: a in f.addresses && Contains(a.prefix, gateway))
    || (exists r :: r in f.routes && r.dst == HostOf(gateway) && r.hop.OnInterface? && r.scope <= targetScope)
  }

  // The static routes in force: a route whose gateway does not resolve is not.
  function StaticEntries(routes: seq<Route<Addr>>, f: Family<Prefix, Addr>): seq<Entry>
  {
    if routes == [] then []
    else
      var rest := StaticEntries(routes[1..], f);
      match routes[0].dst
      case HostOf(a) => if routes[0].hop.OnInterface? then [Entry(Prefix(a, 32), None, 1)] + rest else rest
      case Everything =>
        if routes[0].hop.Via? && Resolves(f, routes[0].hop.address, routes[0].targetScope) then
          [Entry(Prefix(0, 0), Some(routes[0].hop.address), 1)] + rest
        else rest
      case OtherTarget(_) => rest
  }

  function RouterEntries(f: Family<Prefix, Addr>): seq<Entry>
  {
    ConnectedEntries(f.addresses) + StaticEntries(f.routes, f)
  }

  // ----- what both tables are made of -----

  predicate Connected(nets: seq<Prefix>, dst: Addr)
  {
    exists p :: p in nets && Contains(p, dst)
  }

  function Own(nets: seq<Prefix>): set<Addr>
  {
    set p | p in nets :: p.addr
  }

  // A default route through `gateway`, or an on-link route to the gateway
  // itself or to one of `nets`.
  ghost predicate Fits(e: Entry, nets: seq<Prefix>, gateway: Addr)
  {
    || (e.prefix.bits == 0 && e.via == Some(gateway))
    || (e.prefix.bits > 0 && e.via == None && (e.prefix == Prefix(gateway, 32) || exists p :: p in nets && e.prefix == Masked(p)))
  }

  ghost predicate HasRouteTo(entries: seq<Entry>, p: Prefix)
  {
    exists e :: e in entries && e.prefix == p
  }

  // Fitting routes only, a default route, and the connected routes of `nets`;
  // those of single addresses are optional.
  ghost predicate Shape(entries: seq<Entry>, nets: seq<Prefix>, gateway: Addr)
  {
    && (forall e :: e in entries ==> Fits(e, nets, gateway))
    && HasRouteTo(entries, Prefix(0, 0))
    && (forall p :: p in nets && p.bits < 32 ==> p.bits > 0 && HasRouteTo(entries, Masked(p)))
  }

  // An on-link destination has an on-link route, and it is preferred.
  lemma OnLinkIsPreferred(entries: seq<Entry>, nets: seq<Prefix>, gateway: Addr, dst: Addr)
    requires Shape(entries, nets, gateway) && Connected(nets, dst) && dst !in Own(nets)
    ensures Best(entries, dst).Some? && Best(entries, dst).value.prefix.bits > 0
  {
    BestIsBest(entries, dst);
    var p :| p in nets && Contains(p, dst);
    assert p.addr in Own(nets);
    FullPrefix(p, dst);
    var e :| e in entries && e.prefix == Masked(p);
    MaskedContains(p, dst);
  }

  // The shape decides every packet.
  lemma ShapeDecides(entries: seq<Entry>, nets: seq<Prefix>, gateway: Addr, dst: Addr)
    requires Shape(entries, nets, gateway)
    ensures Forward(entries, Own(nets), dst) ==
            if dst in Own(nets) then Local else Send(if Connected(nets, dst) then dst else gateway)
  {
    if dst !in Own(nets) {
      BestIsBest(entries, dst);
      var d :| d in entries && d.prefix == Prefix(0, 0);
      EmptyPrefix(d.prefix, dst);
      var b := Best(entries, dst).value;
      if Connected(nets, dst) {
        OnLinkIsPreferred(entries, nets, gateway, dst);
      }
      assert Fits(b, nets, gateway);
      if b.prefix.bits > 0 {
        if b.prefix == Prefix(gateway, 32) {
          FullPrefix(b.prefix, dst);
        } else {
          var p :| p in nets && b.prefix == Masked(p);
          MaskedContains(p, dst);
        }
      }
    }
  }

  // ----- Linux has the shape -----

  // The uplink's kernel routes are the connected prefixes of its addresses;
  // the kernel makes none for a single address.
  ghost predicate KernelRoutesMatch(routes: seq<D.Route>, uplink: string, nets: seq<Prefix>)
  {
    && (forall r :: r in routes && r.device == uplink && r.protocol == "kernel" && !D.IsDefault(r.dst) ==>
          r.gateway.None? && exists p :: p in nets && PrefixOf(r.dst) == Masked(p))
    && (forall p :: p in nets && p.bits < 32 ==>
          exists r :: r in routes && r.device == uplink && r.gateway.None? && r.dst == D.Net(Masked(p)))
  }

  lemma {:induction false} LinuxEntryOf(routes: seq<D.Route>, uplink: string, e: Entry)
    ensures e in LinuxEntries(routes, uplink) <==>
              exists r :: r in routes && r.device == uplink && e == Entry(PrefixOf(r.dst), r.gateway, r.metric)
  {
    if routes != [] {
      LinuxEntryOf(routes[1..], uplink, e);
      assert forall r :: r in routes <==> r == routes[0] || r in routes[1..];
    }
  }

  lemma LinuxHasShape(routes: seq<D.Route>, infos: seq<D.AddressInfo>, read: Reading, uplink: string, plan: IPv4Plan, out: D.Route)
    requires D.DetectedStatic(routes, infos, read, uplink, plan, out) && out.device == uplink
    requires KernelRoutesMatch(routes, uplink, Prefixes4(plan.addresses, read))
    ensures Shape(LinuxEntries(routes, uplink), Prefixes4(plan.addresses, read), plan.gateway.value)
  {
    var nets := Prefixes4(plan.addresses, read);
    var entries := LinuxEntries(routes, uplink);
    var gateway := plan.gateway.value;
    forall e | e in entries ensures Fits(e, nets, gateway) {
      LinuxEntryOf(routes, uplink, e);
      var r :| r in routes && r.device == uplink && e == Entry(PrefixOf(r.dst), r.gateway, r.metric);
      LinuxRouteFits(routes, infos, read, uplink, plan, out, r);
    }
    LinuxEntryOf(routes, uplink, Entry(PrefixOf(out.dst), out.gateway, out.metric));
    forall p | p in nets && p.bits < 32
      ensures p.bits > 0 && HasRouteTo(entries, Masked(p))
    {
      var r :| r in routes && r.device == uplink && r.gateway.None? && r.dst == D.Net(Masked(p));
      LinuxEntryOf(routes, uplink, Entry(PrefixOf(r.dst), r.gateway, r.metric));
      if p.bits == 0 {
        EmptyPrefix(p, 0);
        assert D.IsDefault(r.dst);
        assert false;
      }
    }
  }

  lemma LinuxRouteFits(
      routes: seq<D.Route>, infos: seq<D.AddressInfo>, read: Reading, uplink: string,
      plan: IPv4Plan, out: D.Route, r: D.Route)
    requires D.DetectedStatic(routes, infos, read, uplink, plan, out)
    requires KernelRoutesMatch(routes, uplink, Prefixes4(plan.addresses, read))
    requires r in routes && r.device == uplink
    ensures Fits(Entry(PrefixOf(r.dst), r.gateway, r.metric), Prefixes4(plan.addresses, read), plan.gateway.value)
  {
    var nets := Prefixes4(plan.addresses, read);
    if D.IsDefault(r.dst) {
      assert D.SameNextHop(r, out);
    } else {
      assert D.Accepted(r, Some(out), uplink, false);
      if r.protocol == "kernel" {
        var q :| q in nets && PrefixOf(r.dst) == Masked(q);
        if q.bits == 0 {
          EmptyPrefix(q, 0);
          assert false;
        }
      }
    }
  }

  // ----- the router has the shape -----

  lemma {:induction false} ConnectedEntryOf(addresses: seq<Address<Prefix>>, e: Entry)
    ensures e in ConnectedEntries(addresses) <==> exists a :: a in addresses && e == Entry(Masked(a.prefix), None, 0)
  {
    if addresses != [] {
      ConnectedEntryOf(addresses[1..], e);
      assert forall a :: a in addresses <==> a == addresses[0] || a in addresses[1..];
    }
  }

  // Nothing of the router's own IPv4 configuration survives the clearing.
  predicate Fresh(f: Family<Prefix, Addr>, name: string)
  {
    Kept(f, name).addresses == [] && Kept(f, name).routes == []
  }

  // The addresses the script gives the uplink are those of the plan.
  lemma RowsArePrefixes4(plan: Plan, read: Reading, f: Family<Prefix, Addr>, name: string)
    requires f.addresses == AddressRows(Prefixes4(StringOrder.Sort(plan.ipv4.addresses), read), name)
    ensures forall a :: a in f.addresses ==> a.prefix in Prefixes4(plan.ipv4.addresses, read)
    ensures forall p :: p in Prefixes4(plan.ipv4.addresses, read) ==> Address(p, name, false, true) in f.addresses
  {
    var nets, texts := Prefixes4(plan.ipv4.addresses, read), StringOrder.Sort(plan.ipv4.addresses);
    StringOrder.SortKeepsMembers(plan.ipv4.addresses);
    forall a | a in f.addresses ensures a.prefix in nets {
      var i :| 0 <= i < |texts| && a.prefix == read.prefix4(texts[i]);
      assert texts[i] in plan.ipv4.addresses;
      var k :| 0 <= k < |plan.ipv4.addresses| && plan.ipv4.addresses[k] == texts[i];
      assert nets[k] == a.prefix;
    }
    forall p | p in nets ensures Address(p, name, false, true) in f.addresses {
      var k :| 0 <= k < |nets| && nets[k] == p;
      assert plan.ipv4.addresses[k] in texts;
      var i :| 0 <= i < |texts| && texts[i] == plan.ipv4.addresses[k];
      assert f.addresses[i] == Address(p, name, false, true);
    }
  }

  lemma RouterHasShape(plan: Plan, read: Reading, f: Family<Prefix, Addr>, name: string)
    requires Complete(plan) && plan.ipv4.mode == Static
    requires f.addresses == Wanted(Adds4(plan, read), name).addresses
    requires f.routes == Wanted(Adds4(plan, read), name).routes
    requires forall p :: p in Prefixes4(plan.ipv4.addresses, read) ==> p.bits > 0
    requires plan.ipv4.gatewayOnLink || Connected(Prefixes4(plan.ipv4.addresses, read), plan.ipv4.gateway.value)
    ensures Shape(RouterEntries(f), Prefixes4(plan.ipv4.addresses, read), plan.ipv4.gateway.value)
  {
    var nets := Prefixes4(plan.ipv4.addresses, read);
    var gateway := plan.ipv4.gateway.value;
    WantedStatic(plan, read, name);
    RowsArePrefixes4(plan, read, f, name);
    GatewayResolves(plan, f, nets, gateway, name);
    RowsHaveShape(f, nets, gateway, name, plan.ipv4.gatewayOnLink);
  }

  lemma GatewayResolves(plan: Plan, f: Family<Prefix, Addr>, nets: seq<Prefix>, gateway: Addr, name: string)
    requires forall p :: p in nets ==> Address(p, name, false, true) in f.addresses
    requires f.routes == StaticRoutes(gateway, plan.ipv4.gatewayOnLink, name)
    requires plan.ipv4.gatewayOnLink || Connected(nets, gateway)
    ensures Resolves(f, gateway, if plan.ipv4.gatewayOnLink then RECURSIVE_TARGET_SCOPE else TARGET_SCOPE)
  {
    if plan.ipv4.gatewayOnLink {
      assert f.routes[0] in f.routes;
    } else {
      var p :| p in nets && Contains(p, gateway);
      assert Address(p, name, false, true).prefix == p;
    }
  }

  lemma RowsHaveShape(f: Family<Prefix, Addr>, nets: seq<Prefix>, gateway: Addr, name: string, onLink: bool)
    requires forall a :: a in f.addresses ==> a.prefix in nets
    requires forall p :: p in nets ==> p.bits > 0 && Address(p, name, false, true) in f.addresses
    requires f.routes == StaticRoutes(gateway, onLink, name)
    requires Resolves(f, gateway, if onLink then RECURSIVE_TARGET_SCOPE else TARGET_SCOPE)
    ensures Shape(RouterEntries(f), nets, gateway)
  {
    var statics := StaticEntries(f.routes, f);
    var host, default_ := Entry(Prefix(gateway, 32), None, 1), Entry(Prefix(0, 0), Some(gateway), 1);
    if onLink {
      assert f.routes[1..] == [f.routes[1]] && f.routes[1..][1..] == [];
      assert StaticEntries(f.routes[1..], f) == [default_];
      assert statics == [host, default_];
    } else {
      assert f.routes[1..] == [];
      assert StaticEntries(f.routes[1..], f) == [];
      assert statics == [default_];
    }
    var entries := RouterEntries(f);
    forall e | e in entries ensures Fits(e, nets, gateway) {
      if e in ConnectedEntries(f.addresses) {
        ConnectedEntryOf(f.addresses, e);
      }
    }
    assert default_ in entries;
    forall p | p in nets ensures HasRouteTo(entries, Masked(p)) {
      ConnectedEntryOf(f.addresses, Entry(Masked(p), None, 0));
      assert Entry(Masked(p), None, 0) in entries;
    }
  }

  // ----- main results -----

  // The tables the script leaves on a fresh router.
  lemma FreshRouterTables(plan: Plan, read: Reading, r: Router)
    requires Complete(plan) && plan.ipv4.mode == Static
    requires |Matching(r.ethers, plan.mac.value)| == 1 && Fresh(r.v4, Matching(r.ethers, plan.mac.value)[0])
    ensures var name, f := Matching(r.ethers, plan.mac.value)[0], RunScript(Script(plan, read), r).v4;
      && f.addresses == Wanted(Adds4(plan, read), name).addresses
      && f.routes == Wanted(Adds4(plan, read), name).routes
  {
    ScriptConverges(plan, read, r);
  }

  // A host whose static configuration was detected as `plan`, with `out` its
  // default route, and a router to be set up by the script of that plan.
  ghost predicate Migrates(
      routes: seq<D.Route>, infos: seq<D.AddressInfo>, read: Reading, uplink: string,
      plan: Plan, out: D.Route, r: Router)
  {
    && D.DetectedStatic(routes, infos, read, uplink, plan.ipv4, out) && out.device == uplink
    && Complete(plan) && plan.ipv4.mode == Static
    && KernelRoutesMatch(routes, uplink, Prefixes4(plan.ipv4.addresses, read))
    && |Matching(r.ethers, plan.mac.value)| == 1 && Fresh(r.v4, Matching(r.ethers, plan.mac.value)[0])
  }

  function Before(routes: seq<D.Route>, uplink: string, plan: Plan, read: Reading, dst: Addr): Decision
  {
    Forward(LinuxEntries(routes, uplink), Own(Prefixes4(plan.ipv4.addresses, read)), dst)
  }

  function After(r: Router, plan: Plan, read: Reading, dst: Addr): Decision
    requires Complete(plan)
  {
    Forward(RouterEntries(RunScript(Script(plan, read), r).v4), Own(Prefixes4(plan.ipv4.addresses, read)), dst)
  }

  // The host's gateway is flagged onlink, or not link-local, or in the prefix
  // of one of the host's addresses.
  predicate Covered(out: D.Route, nets: seq<Prefix>)
  {
    out.gateway.Some? && (out.onLink || !IsLinkLocal(out.gateway.value) || Connected(nets, out.gateway.value))
  }

  // Detection gives the plan a route to the gateway for such hosts only.
  lemma DetectionCoversTheGateway(
      routes: seq<D.Route>, infos: seq<D.AddressInfo>, read: Reading, uplink: string,
      plan: IPv4Plan, out: D.Route)
    requires D.DetectedStatic(routes, infos, read, uplink, plan, out)
    ensures plan.gatewayOnLink || Connected(Prefixes4(plan.addresses, read), plan.gateway.value) <==>
            Covered(out, Prefixes4(plan.addresses, read))
  {
    var nets, gateway := Prefixes4(plan.addresses, read), plan.gateway.value;
    if D.Reached(plan.addresses, read, gateway) {
      var t :| t in plan.addresses && Contains(read.prefix4(t), gateway);
      var k :| 0 <= k < |plan.addresses| && plan.addresses[k] == t;
      assert nets[k] == read.prefix4(t);
    }
    if Connected(nets, gateway) {
      var p :| p in nets && Contains(p, gateway);
      var k :| 0 <= k < |nets| && nets[k] == p;
      assert plan.addresses[k] in plan.addresses;
    }
  }

  // For every destination, the next hop over the uplink's Linux routes is the
  // next hop over the tables the script builds on a fresh router.
  lemma ForwardingIsPreserved(
      routes: seq<D.Route>, infos: seq<D.AddressInfo>, read: Reading, uplink: string,
      plan: Plan, out: D.Route, r: Router, dst: Addr)
    requires Migrates(routes, infos, read, uplink, plan, out, r)
    requires Covered(out, Prefixes4(plan.ipv4.addresses, read))
    ensures After(r, plan, read, dst) == Before(routes, uplink, plan, read, dst)
  {
    var nets := Prefixes4(plan.ipv4.addresses, read);
    var gateway := plan.ipv4.gateway.value;
    DetectionCoversTheGateway(routes, infos, read, uplink, plan.ipv4, out);
    LinuxHasShape(routes, infos, read, uplink, plan.ipv4, out);
    ShapeDecides(LinuxEntries(routes, uplink), nets, gateway, dst);
    FreshRouterTables(plan, read, r);
    var f := RunScript(Script(plan, read), r).v4;
    RouterHasShape(plan, read, f, Matching(r.ethers, plan.mac.value)[0]);
    ShapeDecides(RouterEntries(f), nets, gateway, dst);
  }

  // When the gateway is not covered the router's default route is not in
  // force: what Linux sends to the gateway the router does not send at all.
  lemma UncoveredGatewayIsLost(
      routes: seq<D.Route>, infos: seq<D.AddressInfo>, read: Reading, uplink: string,
      plan: Plan, out: D.Route, r: Router, dst: Addr)
    requires Migrates(routes, infos, read, uplink, plan, out, r)
    requires !Covered(out, Prefixes4(plan.ipv4.addresses, read))
    requires !Connected(Prefixes4(plan.ipv4.addresses, read), dst)
    ensures Before(routes, uplink, plan, read, dst) == Send(plan.ipv4.gateway.value)
    ensures After(r, plan, read, dst) == Unreachable
  {
    var nets, gateway := Prefixes4(plan.ipv4.addresses, read), plan.ipv4.gateway.value;
    var name := Matching(r.ethers, plan.mac.value)[0];
    OwnIsConnected(nets, dst);
    DetectionCoversTheGateway(routes, infos, read, uplink, plan.ipv4, out);
    LinuxHasShape(routes, infos, read, uplink, plan.ipv4, out);
    ShapeDecides(LinuxEntries(routes, uplink), nets, gateway, dst);
    FreshRouterTables(plan, read, r);
    WantedStatic(plan, read, name);
    var f := RunScript(Script(plan, read), r).v4;
    RowsArePrefixes4(plan, read, f, name);
    OnlyConnected(f, nets, gateway, dst);
  }

  lemma OwnIsConnected(nets: seq<Prefix>, dst: Addr)
    ensures dst in Own(nets) ==> Connected(nets, dst)
  {
    if dst in Own(nets) {
      var p :| p in nets && p.addr == dst;
      assert Contains(p, dst);
    }
  }

  lemma OnlyConnected(f: Family<Prefix, Addr>, nets: seq<Prefix>, gateway: Addr, dst: Addr)
    requires forall a :: a in f.addresses ==> a.prefix in nets
    requires f.routes == [Route(Everything, Via(gateway), false, 30, 10, true)]
    requires !Connected(nets, gateway) && !Connected(nets, dst)
    ensures Best(RouterEntries(f), dst).None?
  {
    assert f.routes[1..] == [];
    assert !Resolves(f, gateway, TARGET_SCOPE);
    assert StaticEntries(f.routes, f) == [];
    BestIsBest(RouterEntries(f), dst);
    forall e | e in RouterEntries(f) ensures !Contains(e.prefix, dst) {
      ConnectedEntryOf(f.addresses, e);
      var a :| a in f.addresses && e == Entry(Masked(a.prefix), None, 0);
      MaskedContains(a.prefix, dst);
    }
  }

  // The exact condition: forwarding is preserved when and only when the host's
  // gateway is covered.
  lemma PreservedExactlyWhenCovered(
      routes: seq<D.Route>, infos: seq<D.AddressInfo>, read: Reading, uplink: string,
      plan: Plan, out: D.Route, r: Router)
    requires Migrates(routes, infos, read, uplink, plan, out, r)
    ensures (forall dst: Addr :: After(r, plan, read, dst) == Before(routes, uplink, plan, read, dst)) <==>
            Covered(out, Prefixes4(plan.ipv4.addresses, read))
  {
    if Covered(out, Prefixes4(plan.ipv4.addresses, read)) {
      forall dst: Addr ensures After(r, plan, read, dst) == Before(routes, uplink, plan, read, dst) {
        ForwardingIsPreserved(routes, infos, read, uplink, plan, out, r, dst);
      }
    } else {
      var gateway := plan.ipv4.gateway.value;
      UncoveredGatewayIsLost(routes, infos, read, uplink, plan, out, r, gateway);
      assert After(r, plan, read, gateway) != Before(routes, uplink, plan, read, gateway);
    }
  }

  // ----- a concrete loss -----

  // A host with the single address 203.0.113.5 whose default gateway,
  // 169.254.0.1, is reached through a host route on eth0.
  const EXAMPLE_GATEWAY: Addr := 0xA9FE_0001
  const EXAMPLE_ADDRESS: Addr := 0xCB00_7105

  const EXAMPLE_DEFAULT := D.Route(D.Default, Some(EXAMPLE_GATEWAY), "eth0", "static", 0, false)
  const EXAMPLE_HOST_ROUTE := D.Route(D.Host(EXAMPLE_GATEWAY), None, "eth0", "static", 0, false)
  const EXAMPLE_INFOS := [D.AddressInfo("203.0.113.5/32", true, false, false)]

  function ExampleReading(): Reading
  {
    Reading(_ => Prefix(EXAMPLE_ADDRESS, 32), s => s, s => Server(s, "", false), _ => true, _ => true, _ => true)
  }

  function ExamplePlan(): Plan
  {
    Plan("eth0", Some("52:54:00:00:00:01"), 1500,
         IPv4Plan(Static, ["203.0.113.5/32"], Some(EXAMPLE_GATEWAY), false, false),
         IPv6Plan(false, false, [], None, false, false), [])
  }

  const EXAMPLE_ROUTES := [EXAMPLE_DEFAULT, EXAMPLE_HOST_ROUTE]

  // Detection has nothing to say against it, and this is the plan it makes.
  method DetectExample() returns (uplink: string, plan: IPv4Plan, issues: seq<D.Issue>, ghost out: Option<D.Route>)
    ensures issues == [] && uplink == "eth0" && plan == ExamplePlan().ipv4
    ensures out == Some(EXAMPLE_DEFAULT)
  {
    uplink, plan, issues, out := D.DetectIPv4(EXAMPLE_ROUTES, None, EXAMPLE_INFOS, false, ExampleReading());
    ExampleSelects();
    if out.Some? {
      D.SelectedIsUnique(EXAMPLE_ROUTES, out.value, EXAMPLE_DEFAULT);
    }
    ExampleTexts();
    ExamplePlans(out, plan);
    forall x ensures x !in issues {
      ExampleHasNoIssue(x);
    }
    EmptyOrInhabited(issues);
  }

  lemma ExampleSelects()
    ensures D.Selected(EXAMPLE_ROUTES, EXAMPLE_DEFAULT) && EXAMPLE_DEFAULT in EXAMPLE_ROUTES
  {
    assert EXAMPLE_ROUTES[0] == EXAMPLE_DEFAULT && EXAMPLE_ROUTES[1] == EXAMPLE_HOST_ROUTE;
    assert D.IsSelected(EXAMPLE_ROUTES, 0);
  }

  lemma ExamplePlans(out: Option<D.Route>, plan: IPv4Plan)
    requires out == Some(EXAMPLE_DEFAULT)
    requires D.ModeFollows(EXAMPLE_INFOS, false, plan) && D.GatewayFollows(EXAMPLE_INFOS, ExampleReading(), out, plan)
    ensures plan == ExamplePlan().ipv4
  {
    ExampleTexts();
    assert IsLinkLocal(EXAMPLE_GATEWAY);
    assert D.InUse(EXAMPLE_INFOS, "203.0.113.5/32", false);
  }

  lemma ExampleHasNoIssue(x: D.Issue)
    ensures !D.Justified(x, EXAMPLE_ROUTES, None, ExampleReading(), "eth0", ExamplePlan().ipv4, Some(EXAMPLE_DEFAULT))
  {
    assert forall r :: r in EXAMPLE_ROUTES ==> r == EXAMPLE_DEFAULT || r == EXAMPLE_HOST_ROUTE;
  }

  lemma ExampleTexts()
    ensures D.UsedTexts(EXAMPLE_INFOS, false) == ["203.0.113.5/32"] && D.UsedTexts(EXAMPLE_INFOS, true) == []
    ensures StringOrder.Sort(["203.0.113.5/32"]) == ["203.0.113.5/32"]
    ensures forall t :: D.InUse(EXAMPLE_INFOS, t, false) <==> t == "203.0.113.5/32"
    ensures forall t :: !D.InUse(EXAMPLE_INFOS, t, true)
  {
    assert EXAMPLE_INFOS[..0] == [];
    assert EXAMPLE_INFOS[0] in EXAMPLE_INFOS;
    assert ["203.0.113.5/32"][1..] == [];
  }

  lemma ExampleIsDetected()
    ensures D.DetectedStatic(EXAMPLE_ROUTES, EXAMPLE_INFOS, ExampleReading(), "eth0", ExamplePlan().ipv4, EXAMPLE_DEFAULT)
  {
    ExampleSelects();
    ExampleTexts();
    assert IsLinkLocal(EXAMPLE_GATEWAY);
    assert forall r :: r in EXAMPLE_ROUTES ==> r == EXAMPLE_DEFAULT || r == EXAMPLE_HOST_ROUTE;
  }

  lemma ExampleIsValid()
    ensures Valid(ExamplePlan(), ExampleReading())
  {
    assert ExamplePlan().interfaceName[0] == 'e';
  }

  // Yet the router that its script sets up sends nothing to 198.51.100.1, which
  // Linux sends to the gateway.
  lemma LinkLocalGatewayExample(r: Router)
    requires |Matching(r.ethers, "52:54:00:00:00:01")| == 1 && Fresh(r.v4, Matching(r.ethers, "52:54:00:00:00:01")[0])
    ensures Valid(ExamplePlan(), ExampleReading())
    ensures Before(EXAMPLE_ROUTES, "eth0", ExamplePlan(), ExampleReading(), 0xC633_6401) == Send(EXAMPLE_GATEWAY)
    ensures After(r, ExamplePlan(), ExampleReading(), 0xC633_6401) == Unreachable
  {
    ExampleIsValid();
    ExampleNets();
    ExampleIsDetected();
    UncoveredGatewayIsLost(EXAMPLE_ROUTES, EXAMPLE_INFOS, ExampleReading(), "eth0", ExamplePlan(), EXAMPLE_DEFAULT, r, 0xC633_6401);
  }

  // Neither the gateway nor 198.51.100.1 is in the prefix of the host's address.
  lemma ExampleNets()
    ensures var nets := Prefixes4(ExamplePlan().ipv4.addresses, ExampleReading());
      && nets == [Prefix(EXAMPLE_ADDRESS, 32)]
      && !Connected(nets, EXAMPLE_GATEWAY) && !Connected(nets, 0xC633_6401)
      && !Covered(EXAMPLE_DEFAULT, nets)
  {
    FullPrefix(Prefix(EXAMPLE_ADDRESS, 32), EXAMPLE_GATEWAY);
    FullPrefix(Prefix(EXAMPLE_ADDRESS, 32), 0xC633_6401);
    assert IsLinkLocal(EXAMPLE_GATEWAY);
  }
}
