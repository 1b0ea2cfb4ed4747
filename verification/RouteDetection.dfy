// internal/network/detect.go: what the IPv4 half of Detect concludes from the
// main routing table and the uplink's addresses.
module RouteDetection {
  import opened Wrappers
  import opened Addressing
  import opened NetworkPlan
  import opened StableSort
  import StringOrder

  // A destination as `ip -j route` prints it.
  datatype Destination = Default | Host(address: Addr) | Net(prefix: Prefix)

  // A missing gateway or device is None or "".
  datatype Route = Route(
    dst: Destination,
    gateway: Option<Addr>,
    device: string,
    protocol: string,
    metric: int,
    onLink: bool)

  datatype Issue =
    | MultipleDefaults
    | MultiUplink(route: Route)
    | UnsupportedRoute(route: Route)
    | MultiWan
    | NoDefaultRoute
    | MixedIPv4
    | InvalidPlan

  predicate IsDefault(dst: Destination)
  {
    dst == Default || dst == Net(Prefix(0, 0))
  }

  predicate IsGatewayHostRoute(dst: Destination, gateway: Option<Addr>)
  {
    gateway.Some? && match dst
      case Default => false
      case Host(a) => a == gateway.value
      case Net(p) => p.bits == 32 && p.addr == gateway.value
  }

  predicate SameNextHop(a: Route, b: Route)
  {
    a.device == b.device && a.gateway == b.gateway
  }

  function WithMetrics(routes: seq<Route>): seq<Keyed<Route>>
  {
    seq(|routes|, i requires 0 <= i < |routes| => Keyed(routes[i].metric, routes[i]))
  }

  // sort.SliceStable by metric.
  function SortByMetric(routes: seq<Route>): (r: seq<Route>)
    ensures |r| == |routes|
  {
    var sorted := StableSort.Sort(WithMetrics(routes));
    seq(|sorted|, i requires 0 <= i < |sorted| => sorted[i].value)
  }

  lemma SortedByMetric(routes: seq<Route>)
    ensures forall x :: x in SortByMetric(routes) <==> x in routes
    ensures forall i, j :: 0 <= i < j < |routes| ==> SortByMetric(routes)[i].metric <= SortByMetric(routes)[j].metric
  {
    var keyed := WithMetrics(routes);
    var sorted := StableSort.Sort(keyed);
    var r := SortByMetric(routes);
    forall i | 0 <= i < |sorted| ensures sorted[i].key == r[i].metric && r[i] in routes {
      SortKeepsMembers(keyed, sorted[i]);
      var k :| 0 <= k < |keyed| && keyed[k] == sorted[i];
    }
    forall k | 0 <= k < |routes| ensures routes[k] in r {
      SortKeepsMembers(keyed, keyed[k]);
      var i :| 0 <= i < |sorted| && sorted[i] == keyed[k];
      assert r[i] == routes[k];
    }
  }

  // The earliest default route of least metric.
  ghost predicate Selected(routes: seq<Route>, r: Route)
  {
    exists i :: IsSelected(routes, i) && routes[i] == r
  }

  ghost predicate IsSelected(routes: seq<Route>, i: int)
  {
    && 0 <= i < |routes| && IsDefault(routes[i].dst)
    && (forall j :: 0 <= j < |routes| && IsDefault(routes[j].dst) ==> routes[i].metric <= routes[j].metric)
    && (forall j :: 0 <= j < i && IsDefault(routes[j].dst) ==> routes[i].metric < routes[j].metric)
  }

  // There is only one such route.
  lemma SelectedIsUnique(routes: seq<Route>, a: Route, b: Route)
    requires Selected(routes, a) && Selected(routes, b)
    ensures a == b
  {
    var i :| IsSelected(routes, i) && routes[i] == a;
    var j :| IsSelected(routes, j) && routes[j] == b;
    assert i == j;
  }

  // `defaults` are the default routes of a table, found at `positions`.
  ghost predicate ListsDefaults(routes: seq<Route>, defaults: seq<Route>, positions: seq<int>)
  {
    && |positions| == |defaults|
    && (forall k, l :: 0 <= k < l < |positions| ==> positions[k] < positions[l])
    && (forall k :: 0 <= k < |positions| ==> 0 <= positions[k] < |routes| && routes[positions[k]] == defaults[k] && IsDefault(defaults[k].dst))
    && (forall j :: 0 <= j < |routes| && IsDefault(routes[j].dst) ==> j in positions)
  }

  lemma ListsMembers(routes: seq<Route>, defaults: seq<Route>, positions: seq<int>)
    requires ListsDefaults(routes, defaults, positions)
    ensures forall r :: r in defaults <==> r in routes && IsDefault(r.dst)
  {
    forall r | r in routes && IsDefault(r.dst) ensures r in defaults {
      var j :| 0 <= j < |routes| && routes[j] == r;
      assert j in positions;
    }
  }

  lemma PositionOf(routes: seq<Route>, defaults: seq<Route>, positions: seq<int>, j: int) returns (l: int)
    requires ListsDefaults(routes, defaults, positions)
    requires 0 <= j < |routes| && IsDefault(routes[j].dst)
    ensures 0 <= l < |positions| && positions[l] == j && defaults[l] == routes[j]
    ensures forall k :: 0 <= k < |positions| && j < positions[k] ==> l < k
  {
    assert j in positions;
    l :| 0 <= l < |positions| && positions[l] == j;
  }

  // The least metric, and among equals the earliest place, carry over.
  lemma LeastIsSelected(routes: seq<Route>, defaults: seq<Route>, positions: seq<int>, k: int)
    requires ListsDefaults(routes, defaults, positions) && EarliestLeast(WithMetrics(defaults), k)
    ensures IsSelected(routes, positions[k]) && routes[positions[k]] == defaults[k]
  {
    var keyed, i := WithMetrics(defaults), positions[k];
    forall j | 0 <= j < |routes| && IsDefault(routes[j].dst)
      ensures routes[i].metric <= routes[j].metric && (j < i ==> routes[i].metric < routes[j].metric)
    {
      var l := PositionOf(routes, defaults, positions, j);
      assert keyed[k].key <= keyed[l].key;
    }
  }

  // Sorting by metric, stably, puts the selected route first.
  lemma FirstIsSelected(routes: seq<Route>, defaults: seq<Route>, positions: seq<int>)
    requires ListsDefaults(routes, defaults, positions) && defaults != []
    ensures Selected(routes, SortByMetric(defaults)[0])
  {
    var keyed := WithMetrics(defaults);
    var k := LeastExists(keyed);
    SortPutsEarliestLeastFirst(keyed, k);
    LeastIsSelected(routes, defaults, positions, k);
  }

  method DefaultRoutes(routes: seq<Route>) returns (defaults: seq<Route>, ghost positions: seq<int>)
    ensures ListsDefaults(routes, defaults, positions)
  {
    defaults, positions := [], [];
    for i := 0 to |routes|
      invariant ListsDefaults(routes[..i], defaults, positions)
    {
      if IsDefault(routes[i].dst) {
        defaults, positions := defaults + [routes[i]], positions + [i];
      }
    }
    assert routes[..|routes|] == routes;
  }

  // Some default route leads elsewhere than the first.
  method Diverge(defaults: seq<Route>) returns (r: bool)
    requires defaults != []
    ensures r <==> exists d :: d in defaults && !SameNextHop(d, defaults[0])
  {
    for i := 1 to |defaults|
      invariant forall k :: 0 <= k < i ==> SameNextHop(defaults[k], defaults[0])
    {
      if !SameNextHop(defaults[i], defaults[0]) {
        return true;
      }
    }
    r := false;
  }

  ghost predicate Diverging(routes: seq<Route>, out: Option<Route>)
  {
    out.Some? && exists r :: r in routes && IsDefault(r.dst) && !SameNextHop(r, out.value)
  }

  method SelectDefault(routes: seq<Route>) returns (selected: Option<Route>, issue: Option<Issue>)
    ensures selected.None? <==> forall r :: r in routes ==> !IsDefault(r.dst)
    ensures selected.Some? ==> Selected(routes, selected.value)
    ensures issue == if Diverging(routes, selected) then Some(MultipleDefaults) else None
  {
    var defaults, positions := DefaultRoutes(routes);
    ListsMembers(routes, defaults, positions);
    if |defaults| == 0 {
      return None, None;
    }
    FirstIsSelected(routes, defaults, positions);
    SortedByMetric(defaults);
    var sorted := SortByMetric(defaults);
    var several := Diverge(sorted);
    selected := Some(sorted[0]);
    issue := if several then Some(MultipleDefaults) else None;
  }

  // Whether inspectRouteSet passes over a route.
  predicate Accepted(r: Route, default_: Option<Route>, uplink: string, ipv6: bool)
  {
    || IsDefault(r.dst)
    || r.protocol == "kernel"
    || (ipv6 && r.protocol == "ra")
    || ((r.device == "" || r.device == uplink) && default_.Some? && r.gateway.None? && IsGatewayHostRoute(r.dst, default_.value.gateway))
  }

  function IssueOf(r: Route, uplink: string): Issue
  {
    if r.device != "" && r.device != uplink then MultiUplink(r) else UnsupportedRoute(r)
  }

  method InspectRouteSet(routes: seq<Route>, default_: Option<Route>, uplink: string, ipv6: bool) returns (issues: seq<Issue>)
    ensures issues == [] <==> forall r :: r in routes ==> Accepted(r, default_, uplink, ipv6)
    ensures forall x :: x in issues <==> exists r :: r in routes && !Accepted(r, default_, uplink, ipv6) && x == IssueOf(r, uplink)
  {
    issues := [];
    for i := 0 to |routes|
      invariant issues == [] <==> forall r :: r in routes[..i] ==> Accepted(r, default_, uplink, ipv6)
      invariant forall x :: x in issues <==> exists r :: r in routes[..i] && !Accepted(r, default_, uplink, ipv6) && x == IssueOf(r, uplink)
    {
      var r := routes[i];
      assert routes[..i + 1] == routes[..i] + [r];
      assert r in routes[..i + 1];
      if IsDefault(r.dst) || r.protocol == "kernel" || (ipv6 && r.protocol == "ra") {
        continue;
      }
      if r.device != "" && r.device != uplink {
        issues := issues + [MultiUplink(r)];
        continue;
      }
      if default_.Some? && r.gateway.None? && IsGatewayHostRoute(r.dst, default_.value.gateway) {
        continue;
      }
      issues := issues + [UnsupportedRoute(r)];
    }
  }

  // The gateway lies in none of the prefixes and needs a route of its own.
  method GatewayOutside(gateway: Option<Addr>, prefixes: seq<Prefix>) returns (r: bool)
    ensures r <==> gateway.Some? && !IsLinkLocal(gateway.value) && forall p :: p in prefixes ==> !Contains(p, gateway.value)
  {
    if gateway.None? || IsLinkLocal(gateway.value) {
      return false;
    }
    for i := 0 to |prefixes|
      invariant forall p :: p in prefixes[..i] ==> !Contains(p, gateway.value)
    {
      if Contains(prefixes[i], gateway.value) {
        return false;
      }
    }
    return true;
  }

  // One IPv4 entry of `ip -j address show`; `text` is "local/prefixlen".
  datatype AddressInfo = AddressInfo(text: string, global: bool, deprecated: bool, dynamic: bool)

  predicate Usable(a: AddressInfo, dynamic: bool)
  {
    a.global && !a.deprecated && a.dynamic == dynamic
  }

  ghost predicate InUse(infos: seq<AddressInfo>, text: string, dynamic: bool)
  {
    exists a :: a in infos && Usable(a, dynamic) && a.text == text
  }

  // The texts of the usable addresses of one kind, in their order.
  function UsedTexts(infos: seq<AddressInfo>, dynamic: bool): seq<string>
  {
    if infos == [] then []
    else
      var n := |infos| - 1;
      UsedTexts(infos[..n], dynamic) + (if Usable(infos[n], dynamic) then [infos[n].text] else [])
  }

  lemma {:induction false} UsedTextsAreInUse(infos: seq<AddressInfo>, dynamic: bool, t: string)
    ensures t in UsedTexts(infos, dynamic) <==> InUse(infos, t, dynamic)
  {
    if infos != [] {
      var n := |infos| - 1;
      UsedTextsAreInUse(infos[..n], dynamic, t);
      assert infos == infos[..n] + [infos[n]];
      if InUse(infos[..n], t, dynamic) {
        var a :| a in infos[..n] && Usable(a, dynamic) && a.text == t;
        assert a in infos;
      }
    }
  }

  method ClassifyAddresses(infos: seq<AddressInfo>) returns (dynamic_: seq<string>, static_: seq<string>)
    ensures dynamic_ == UsedTexts(infos, true) && static_ == UsedTexts(infos, false)
    ensures forall t :: t in dynamic_ <==> InUse(infos, t, true)
    ensures forall t :: t in static_ <==> InUse(infos, t, false)
  {
    dynamic_, static_ := [], [];
    for i := 0 to |infos|
      invariant dynamic_ == UsedTexts(infos[..i], true) && static_ == UsedTexts(infos[..i], false)
    {
      var a := infos[i];
      assert infos[..i + 1][..i] == infos[..i];
      if !a.global || a.deprecated {
        continue;
      }
      if a.dynamic {
        dynamic_ := dynamic_ + [a.text];
      } else {
        static_ := static_ + [a.text];
      }
    }
    assert infos[..|infos|] == infos;
    forall t ensures (t in dynamic_ <==> InUse(infos, t, true)) && (t in static_ <==> InUse(infos, t, false)) {
      UsedTextsAreInUse(infos, true, t);
      UsedTextsAreInUse(infos, false, t);
    }
  }

  // The prefixes behind a list of texts; texts that do not parse are skipped.
  function Prefixes(texts: seq<string>, read: Reading): (r: seq<Prefix>)
    ensures forall p :: p in r <==> exists t :: t in texts && read.valid4(t) && read.prefix4(t) == p
  {
    if texts == [] then []
    else
      var rest := Prefixes(texts[1..], read);
      assert forall t :: t in texts <==> t == texts[0] || t in texts[1..];
      if read.valid4(texts[0]) then [read.prefix4(texts[0])] + rest else rest
  }

  // A static plan that passed detection: one way out, every other route of the
  // table accounted for, the addresses in use carried over, and the gateway
  // marked on-link when Linux marked it so or no address reaches it.
  ghost predicate DetectedStatic(
      routes: seq<Route>, infos: seq<AddressInfo>, read: Reading, uplink: string, plan: IPv4Plan, out: Route)
  {
    && plan.gateway.Some?
    && Selected(routes, out) && out.gateway == plan.gateway
    && (out.device == "" || out.device == uplink)
    && (forall r :: r in routes && IsDefault(r.dst) ==> SameNextHop(r, out))
    && (forall r :: r in routes ==> Accepted(r, Some(out), uplink, false))
    && (forall t :: t in plan.addresses <==> InUse(infos, t, false))
    && (forall t :: t in plan.addresses ==> read.valid4(t))
    && (plan.gatewayOnLink <==>
          out.onLink || (!IsLinkLocal(plan.gateway.value) && !Reached(plan.addresses, read, plan.gateway.value)))
  }

  // One of the addresses has the gateway in its prefix.
  ghost predicate Reached(texts: seq<string>, read: Reading, gateway: Addr)
  {
    exists t :: t in texts && Contains(read.prefix4(t), gateway)
  }

  // The interface of the two default routes.
  function UplinkOf(out: Option<Route>, ipv6Device: Option<string>): string
  {
    if out.Some? && out.value.device != "" then out.value.device
    else if ipv6Device.Some? then ipv6Device.value
    else ""
  }

  ghost predicate DevicesDiffer(out: Option<Route>, ipv6Device: Option<string>)
  {
    out.Some? && ipv6Device.Some? && out.value.device != "" && out.value.device != ipv6Device.value
  }

  // An issue that the table, the addresses or the plan give reason for. With no
  // uplink detection stops early.
  ghost predicate Justified(
      x: Issue, routes: seq<Route>, ipv6Device: Option<string>, read: Reading,
      uplink: string, plan: IPv4Plan, out: Option<Route>)
  {
    match x
    case MultipleDefaults => Diverging(routes, out)
    case MultiWan => DevicesDiffer(out, ipv6Device)
    case NoDefaultRoute => uplink == ""
    case MultiUplink(r) => uplink != "" && r in routes && !Accepted(r, out, uplink, false) && r.device != "" && r.device != uplink
    case UnsupportedRoute(r) => uplink != "" && r in routes && !Accepted(r, out, uplink, false) && (r.device == "" || r.device == uplink)
    case MixedIPv4 => uplink != "" && plan.mode == Unknown
    case InvalidPlan => uplink != "" && !ValidIPv4(plan, read)
  }

  // A route through another interface is raised unless it is a default route
  // or the kernel's.
  lemma MultiUplinkExactly(
      r: Route, routes: seq<Route>, ipv6Device: Option<string>, read: Reading,
      uplink: string, plan: IPv4Plan, out: Option<Route>)
    ensures Justified(MultiUplink(r), routes, ipv6Device, read, uplink, plan, out) <==>
            && uplink != "" && r in routes && r.device != "" && r.device != uplink
            && r.dst != Default && r.dst != Net(Prefix(0, 0)) && r.protocol != "kernel"
  {
  }

  // A route of the uplink is raised unless it is one of these or the plain
  // route to the gateway itself.
  lemma UnsupportedRouteExactly(
      r: Route, routes: seq<Route>, ipv6Device: Option<string>, read: Reading,
      uplink: string, plan: IPv4Plan, out: Option<Route>)
    ensures Justified(UnsupportedRoute(r), routes, ipv6Device, read, uplink, plan, out) <==>
            && uplink != "" && r in routes && (r.device == "" || r.device == uplink)
            && r.dst != Default && r.dst != Net(Prefix(0, 0)) && r.protocol != "kernel"
            && !(r.gateway.None? && out.Some? && out.value.gateway.Some? &&
                 (r.dst == Host(out.value.gateway.value) || r.dst == Net(Prefix(out.value.gateway.value, 32))))
  {
  }

  lemma MultipleDefaultsExactly(routes: seq<Route>, out: Option<Route>)
    ensures Diverging(routes, out) <==>
            && out.Some?
            && exists r :: r in routes && (r.dst == Default || r.dst == Net(Prefix(0, 0))) &&
                 (r.device, r.gateway) != (out.value.device, out.value.gateway)
  {
  }

  // How the mode and the addresses of the plan follow from those in use.
  ghost predicate ModeFollows(infos: seq<AddressInfo>, dhcpConfigured: bool, plan: IPv4Plan)
  {
    var dynamic_ := exists t :: InUse(infos, t, true);
    var static_ := exists t :: InUse(infos, t, false);
    && (plan.mode == Unknown <==> static_ && dynamic_)
    && (plan.mode == Static <==> static_ && !dynamic_)
    && (plan.mode == Dhcp <==> !static_ && (dynamic_ || dhcpConfigured))
    && (plan.usePeerDNS <==> plan.mode == Dhcp)
    && plan.addresses ==
       (if plan.mode == Static || plan.mode == Dhcp then StringOrder.Sort(UsedTexts(infos, plan.mode == Dhcp)) else [])
  }

  // The gateway lies in the prefix of no address in use, of either kind.
  ghost predicate OutOfReach(gateway: Option<Addr>, infos: seq<AddressInfo>, read: Reading)
  {
    && gateway.Some? && !IsLinkLocal(gateway.value)
    && forall t :: InUse(infos, t, true) || InUse(infos, t, false) ==>
         !read.valid4(t) || !Contains(read.prefix4(t), gateway.value)
  }

  // How the gateway of the plan follows from the default route.
  ghost predicate GatewayFollows(infos: seq<AddressInfo>, read: Reading, out: Option<Route>, plan: IPv4Plan)
  {
    && plan.gateway == (if out.Some? then out.value.gateway else None)
    && (plan.gatewayOnLink <==> out.Some? && (out.value.onLink || OutOfReach(out.value.gateway, infos, read)))
  }

  // The uplink of the two default routes, and what is wrong with them.
  method PickUplink(routes: seq<Route>, ipv6Device: Option<string>) returns (uplink: string, out: Option<Route>, issues: seq<Issue>)
    ensures out.None? <==> forall r :: r in routes ==> !IsDefault(r.dst)
    ensures out.Some? ==> Selected(routes, out.value)
    ensures uplink == UplinkOf(out, ipv6Device)
    ensures forall x :: x in issues <==>
              (x == MultipleDefaults && Diverging(routes, out)) || (x == MultiWan && DevicesDiffer(out, ipv6Device))
  {
    uplink, issues := "", [];
    var several;
    out, several := SelectDefault(routes);
    if several.Some? {
      issues := issues + [several.value];
    }
    if out.Some? {
      uplink := out.value.device;
    }
    if ipv6Device.Some? {
      if uplink != "" && uplink != ipv6Device.value {
        issues := issues + [MultiWan];
      } else {
        uplink := ipv6Device.value;
      }
    }
  }

  // The plan before its gateway, from the addresses in use.
  method PickMode(infos: seq<AddressInfo>, dhcpConfigured: bool) returns (plan: IPv4Plan, used: seq<string>, mixed: bool)
    ensures ModeFollows(infos, dhcpConfigured, plan) && plan.gateway.None? && !plan.gatewayOnLink
    ensures mixed <==> plan.mode == Unknown
    ensures forall t :: t in used <==> InUse(infos, t, true) || InUse(infos, t, false)
  {
    var dynamic_, static_ := ClassifyAddresses(infos);
    assert |dynamic_| > 0 ==> InUse(infos, dynamic_[0], true);
    assert |static_| > 0 ==> InUse(infos, static_[0], false);
    StringOrder.SortKeepsMembers(dynamic_);
    StringOrder.SortKeepsMembers(static_);
    dynamic_, static_ := StringOrder.Sort(dynamic_), StringOrder.Sort(static_);
    plan, mixed := IPv4Plan(Unknown, [], None, false, false), false;
    if |dynamic_| > 0 && |static_| > 0 {
      mixed := true;
    } else if |dynamic_| > 0 {
      plan := IPv4Plan(Dhcp, dynamic_, None, false, true);
    } else if |static_| > 0 {
      plan := IPv4Plan(Static, static_, None, false, false);
    } else if dhcpConfigured {
      plan := IPv4Plan(Dhcp, [], None, false, true);
    } else {
      plan := IPv4Plan(Off, [], None, false, false);
    }
    used := dynamic_ + static_;
  }

  // The IPv4 half of Detect. `ipv6Device` is the device of the selected IPv6
  // default route, `dhcpConfigured` the evidence from configuration files.
  method DetectIPv4(routes: seq<Route>, ipv6Device: Option<string>, infos: seq<AddressInfo>, dhcpConfigured: bool, read: Reading)
    returns (uplink: string, plan: IPv4Plan, issues: seq<Issue>, ghost out: Option<Route>)
    ensures out.None? <==> forall r :: r in routes ==> !IsDefault(r.dst)
    ensures out.Some? ==> Selected(routes, out.value)
    ensures uplink == UplinkOf(out, ipv6Device)
    ensures forall x :: x in issues <==> Justified(x, routes, ipv6Device, read, uplink, plan, out)
    ensures uplink != "" ==> ModeFollows(infos, dhcpConfigured, plan) && GatewayFollows(infos, read, out, plan)
    ensures uplink == "" ==> plan == IPv4Plan(Unknown, [], None, false, false)
    ensures issues == [] ==> ValidIPv4(plan, read)
    ensures issues == [] && plan.mode == Static ==> out.Some? && DetectedStatic(routes, infos, read, uplink, plan, out.value)
  {
    plan := IPv4Plan(Unknown, [], None, false, false);
    var default_;
    uplink, default_, issues := PickUplink(routes, ipv6Device);
    out := default_;
    if uplink == "" {
      issues := issues + [NoDefaultRoute];
      return;
    }
    ghost var first := issues;
    var routeIssues := InspectRouteSet(routes, default_, uplink, false);
    issues := issues + routeIssues;
    var used, mixed;
    plan, used, mixed := PickMode(infos, dhcpConfigured);
    if mixed {
      issues := issues + [MixedIPv4];
    }
    if default_.Some? {
      var prefixes := Prefixes(used, read);
      var outside := GatewayOutside(default_.value.gateway, prefixes);
      OutsideIsOutOfReach(default_.value.gateway, infos, used, read, outside);
      plan := plan.(gateway := default_.value.gateway, gatewayOnLink := default_.value.onLink || outside);
    }
    var ok := CheckIPv4(plan, read);
    if !ok {
      issues := issues + [InvalidPlan];
    }
    IssuesAreJustified(first, routeIssues, issues, routes, ipv6Device, read, uplink, plan, out);
    CleanIsStatic(routes, ipv6Device, infos, dhcpConfigured, read, uplink, plan, issues, out);
  }

  lemma OutsideIsOutOfReach(gateway: Option<Addr>, infos: seq<AddressInfo>, used: seq<string>, read: Reading, outside: bool)
    requires forall t :: t in used <==> InUse(infos, t, true) || InUse(infos, t, false)
    requires outside <==> gateway.Some? && !IsLinkLocal(gateway.value) && forall p :: p in Prefixes(used, read) ==> !Contains(p, gateway.value)
    ensures outside <==> OutOfReach(gateway, infos, read)
  {
    if gateway.Some? && OutOfReach(gateway, infos, read) {
      forall p | p in Prefixes(used, read) ensures !Contains(p, gateway.value) {
        var t :| t in used && read.valid4(t) && read.prefix4(t) == p;
      }
    }
    if outside {
      forall t | (InUse(infos, t, true) || InUse(infos, t, false)) && read.valid4(t)
        ensures !Contains(read.prefix4(t), gateway.value)
      {
        assert t in used;
        assert read.prefix4(t) in Prefixes(used, read);
      }
    }
  }

  lemma NoRouteLeft(
      routes: seq<Route>, ipv6Device: Option<string>, read: Reading,
      uplink: string, plan: IPv4Plan, issues: seq<Issue>, out: Option<Route>)
    requires issues == [] && uplink != ""
    requires forall x :: x in issues <==> Justified(x, routes, ipv6Device, read, uplink, plan, out)
    ensures forall r :: r in routes ==> Accepted(r, out, uplink, false)
  {
    forall r | r in routes ensures Accepted(r, out, uplink, false) {
      assert !Justified(MultiUplink(r), routes, ipv6Device, read, uplink, plan, out);
      assert !Justified(UnsupportedRoute(r), routes, ipv6Device, read, uplink, plan, out);
    }
  }

  // The issues collected on the way are the justified ones.
  lemma IssuesAreJustified(
      first: seq<Issue>, routeIssues: seq<Issue>, issues: seq<Issue>,
      routes: seq<Route>, ipv6Device: Option<string>, read: Reading, uplink: string, plan: IPv4Plan, out: Option<Route>)
    requires uplink != ""
    requires forall x :: x in first <==>
               (x == MultipleDefaults && Diverging(routes, out)) || (x == MultiWan && DevicesDiffer(out, ipv6Device))
    requires forall x :: x in routeIssues <==> exists r :: r in routes && !Accepted(r, out, uplink, false) && x == IssueOf(r, uplink)
    requires issues == first + routeIssues + (if plan.mode == Unknown then [MixedIPv4] else []) +
                       (if ValidIPv4(plan, read) then [] else [InvalidPlan])
    ensures forall x :: x in issues <==> Justified(x, routes, ipv6Device, read, uplink, plan, out)
  {
  }

  // Without issues a static plan is one that passed detection.
  lemma CleanIsStatic(
      routes: seq<Route>, ipv6Device: Option<string>, infos: seq<AddressInfo>, dhcpConfigured: bool, read: Reading,
      uplink: string, plan: IPv4Plan, issues: seq<Issue>, out: Option<Route>)
    requires out.None? <==> forall r :: r in routes ==> !IsDefault(r.dst)
    requires out.Some? ==> Selected(routes, out.value)
    requires uplink == UplinkOf(out, ipv6Device) && uplink != ""
    requires forall x :: x in issues <==> Justified(x, routes, ipv6Device, read, uplink, plan, out)
    requires ModeFollows(infos, dhcpConfigured, plan) && GatewayFollows(infos, read, out, plan)
    ensures issues == [] && plan.mode == Static ==> out.Some? && DetectedStatic(routes, infos, read, uplink, plan, out.value)
  {
    if issues == [] && plan.mode == Static {
      assert !Justified(InvalidPlan, routes, ipv6Device, read, uplink, plan, out);
      assert !Justified(MultipleDefaults, routes, ipv6Device, read, uplink, plan, out);
      assert !Justified(MultiWan, routes, ipv6Device, read, uplink, plan, out);
      NoRouteLeft(routes, ipv6Device, read, uplink, plan, issues, out);
      StaticAddresses(infos, dhcpConfigured, plan);
      StaticReach(infos, read, plan);
    }
  }

  lemma StaticAddresses(infos: seq<AddressInfo>, dhcpConfigured: bool, plan: IPv4Plan)
    requires ModeFollows(infos, dhcpConfigured, plan) && plan.mode == Static
    ensures forall t :: t in plan.addresses <==> InUse(infos, t, false)
    ensures forall t :: !InUse(infos, t, true)
  {
    StringOrder.SortKeepsMembers(UsedTexts(infos, false));
    forall t ensures t in plan.addresses <==> InUse(infos, t, false) {
      UsedTextsAreInUse(infos, false, t);
    }
  }

  // In a static plan a gateway is out of reach when no address of it reaches it.
  lemma StaticReach(infos: seq<AddressInfo>, read: Reading, plan: IPv4Plan)
    requires plan.gateway.Some? && ValidIPv4(plan, read)
    requires forall t :: t in plan.addresses <==> InUse(infos, t, false)
    requires forall t :: !InUse(infos, t, true)
    ensures OutOfReach(plan.gateway, infos, read) <==>
            !IsLinkLocal(plan.gateway.value) && !Reached(plan.addresses, read, plan.gateway.value)
  {
  }
}
