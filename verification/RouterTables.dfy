// The RouterOS tables of one address family, and the commands that change
// them. P are the prefixes and A the addresses of the family.
module RouterTables {

  datatype Client = Client(uplink: string, peerDns: bool, tagged: bool)

  datatype Address<P> = Address(prefix: P, uplink: string, dynamic: bool, tagged: bool)

  datatype Target<A> = Everything | HostOf(address: A) | OtherTarget(text: string)

  datatype Hop<A> = OnInterface(name: string) | Via(address: A) | ViaZone(zoned: A, zone: string)

  // `tagged` stands for comment="chr-install".
  datatype Route<A> = Route(dst: Target<A>, hop: Hop<A>, dynamic: bool, scope: int, targetScope: int, tagged: bool)

  datatype Family<P, A> = Family(clients: seq<Client>, addresses: seq<Address<P>>, routes: seq<Route<A>>)

  datatype FamilyCommand<P, A> =
    | RemoveClients
    | RemoveAddresses
    | RemoveTagged
    | RemoveDefaults
    | AddClient(peerDns: bool)
    | AddAddress(prefix: P)
    | AddHostRoute(host: A, scope: int)
    | AddDefault(gateway: A, targetScope: int)
    | AddZonedDefault(zoned: A)

  // RouterOS defaults for static routes.
  const STATIC_SCOPE := 30
  const TARGET_SCOPE := 10

  function Filter<T>(s: seq<T>, keep: T -> bool): seq<T>
  {
    if s == [] then []
    else if keep(s[0]) then [s[0]] + Filter(s[1..], keep)
    else Filter(s[1..], keep)
  }

  predicate KeepClient(c: Client, name: string) { c.uplink != name }

  predicate KeepAddress<P>(a: Address<P>, name: string) { a.uplink != name || a.dynamic }

  predicate KeepUntagged<A>(r: Route<A>) { !r.tagged }

  predicate KeepNonDefault<A>(r: Route<A>) { !r.dst.Everything? || r.dynamic }

  predicate KeepRoute<A>(r: Route<A>) { KeepUntagged(r) && KeepNonDefault(r) }

  // One command, on the uplink called `name`.
  function Apply<P, A>(c: FamilyCommand<P, A>, f: Family<P, A>, name: string): Family<P, A>
  {
    match c
    case RemoveClients => f.(clients := Filter(f.clients, c => KeepClient(c, name)))
    case RemoveAddresses => f.(addresses := Filter(f.addresses, a => KeepAddress(a, name)))
    case RemoveTagged => f.(routes := Filter(f.routes, r => KeepUntagged(r)))
    case RemoveDefaults => f.(routes := Filter(f.routes, r => KeepNonDefault(r)))
    case AddClient(peerDns) => f.(clients := f.clients + [Client(name, peerDns, true)])
    case AddAddress(prefix) => f.(addresses := f.addresses + [Address(prefix, name, false, true)])
    case AddHostRoute(host, scope) =>
      f.(routes := f.routes + [Route(HostOf(host), OnInterface(name), false, scope, TARGET_SCOPE, true)])
    case AddDefault(gateway, targetScope) =>
      f.(routes := f.routes + [Route(Everything, Via(gateway), false, STATIC_SCOPE, targetScope, true)])
    case AddZonedDefault(zoned) =>
      f.(routes := f.routes + [Route(Everything, ViaZone(zoned, name), false, STATIC_SCOPE, TARGET_SCOPE, true)])
  }

  function ApplyAll<P, A>(cs: seq<FamilyCommand<P, A>>, f: Family<P, A>, name: string): Family<P, A>
    decreases cs
  {
    if cs == [] then f else ApplyAll(cs[1..], Apply(cs[0], f, name), name)
  }

  predicate IsAdd<P, A>(c: FamilyCommand<P, A>)
  {
    c.AddClient? || c.AddAddress? || c.AddHostRoute? || c.AddDefault? || c.AddZonedDefault?
  }

  predicate OnlyAdds<P, A>(cs: seq<FamilyCommand<P, A>>)
  {
    forall i :: 0 <= i < |cs| ==> IsAdd(cs[i])
  }

  function Clear<P, A>(): seq<FamilyCommand<P, A>>
  {
    [RemoveClients, RemoveAddresses, RemoveTagged, RemoveDefaults]
  }

  // The entries the script has no business with, in their order.
  function Kept<P, A>(f: Family<P, A>, name: string): Family<P, A>
  {
    Family(Filter(f.clients, c => KeepClient(c, name)),
           Filter(f.addresses, a => KeepAddress(a, name)),
           Filter(f.routes, r => KeepRoute(r)))
  }

  // The entries a list of additions makes, on their own.
  function Wanted<P, A>(adds: seq<FamilyCommand<P, A>>, name: string): Family<P, A>
  {
    ApplyAll(adds, Family([], [], []), name)
  }

  function Join<P, A>(f: Family<P, A>, g: Family<P, A>): Family<P, A>
  {
    Family(f.clients + g.clients, f.addresses + g.addresses, f.routes + g.routes)
  }

  // ----- filtering -----

  lemma {:induction false} FilterMembers<T>(s: seq<T>, keep: T -> bool, x: T)
    ensures x in Filter(s, keep) <==> x in s && keep(x)
  {
    if s != [] {
      FilterMembers(s[1..], keep, x);
    }
  }

  lemma {:induction false} FilterConcat<T>(a: seq<T>, b: seq<T>, keep: T -> bool)
    ensures Filter(a + b, keep) == Filter(a, keep) + Filter(b, keep)
  {
    if a == [] {
      assert a + b == b;
    } else {
      assert (a + b)[1..] == a[1..] + b;
      FilterConcat(a[1..], b, keep);
    }
  }

  lemma {:induction false} FilterTwice<T>(s: seq<T>, first: T -> bool, second: T -> bool, both: T -> bool)
    requires forall x :: x in s ==> (both(x) <==> first(x) && second(x))
    ensures Filter(Filter(s, first), second) == Filter(s, both)
  {
    if s != [] {
      FilterTwice(s[1..], first, second, both);
    }
  }

  lemma {:induction false} FilterNone<T>(s: seq<T>, keep: T -> bool)
    requires forall x :: x in s ==> !keep(x)
    ensures Filter(s, keep) == []
  {
    if s != [] {
      FilterNone(s[1..], keep);
    }
  }

  // ----- a cleared and refilled family -----

  lemma {:induction false} ApplyConcat<P, A>(a: seq<FamilyCommand<P, A>>, b: seq<FamilyCommand<P, A>>, f: Family<P, A>, name: string)
    ensures ApplyAll(a + b, f, name) == ApplyAll(b, ApplyAll(a, f, name), name)
    decreases a
  {
    if a == [] {
      assert a + b == b;
    } else {
      assert (a + b)[1..] == a[1..] + b;
      ApplyConcat(a[1..], b, Apply(a[0], f, name), name);
    }
  }

  lemma ClearKeeps<P, A>(f: Family<P, A>, name: string)
    ensures ApplyAll(Clear(), f, name) == Kept(f, name)
  {
    var cs: seq<FamilyCommand<P, A>> := Clear();
    var f1 := Apply(cs[0], f, name);
    var f2 := Apply(cs[1], f1, name);
    var f3 := Apply(cs[2], f2, name);
    assert cs[1..][1..] == cs[2..] && cs[2..][1..] == cs[3..] && cs[3..][1..] == [];
    assert ApplyAll(cs, f, name) == ApplyAll(cs[1..], f1, name) == ApplyAll(cs[2..], f2, name) == ApplyAll(cs[3..], f3, name);
    FilterTwice(f.routes, r => KeepUntagged(r), r => KeepNonDefault(r), r => KeepRoute(r));
  }

  // Additions append, whatever they are added to.
  lemma {:induction false} AddsAppend<P, A>(adds: seq<FamilyCommand<P, A>>, f: Family<P, A>, g: Family<P, A>, name: string)
    requires OnlyAdds(adds)
    ensures ApplyAll(adds, Join(f, g), name) == Join(f, ApplyAll(adds, g, name))
    decreases adds
  {
    if adds != [] {
      assert Apply(adds[0], Join(f, g), name) == Join(f, Apply(adds[0], g, name));
      AddsAppend(adds[1..], f, Apply(adds[0], g, name), name);
    }
  }

  // Everything an addition makes is the script's own: it is what a later run
  // removes first.
  ghost predicate Owned<P, A>(g: Family<P, A>, name: string)
  {
    && (forall c :: c in g.clients ==> !KeepClient(c, name))
    && (forall a :: a in g.addresses ==> !KeepAddress(a, name))
    && (forall r :: r in g.routes ==> !KeepUntagged(r))
  }

  lemma {:induction false} AddsAreOwned<P, A>(adds: seq<FamilyCommand<P, A>>, g: Family<P, A>, name: string)
    requires OnlyAdds(adds) && Owned(g, name)
    ensures Owned(ApplyAll(adds, g, name), name)
    decreases adds
  {
    if adds != [] {
      AddsAreOwned(adds[1..], Apply(adds[0], g, name), name);
    }
  }

  // Refilling a cleared family leaves what was not owned, followed by what is
  // wanted.
  lemma Refilled<P, A>(adds: seq<FamilyCommand<P, A>>, f: Family<P, A>, name: string)
    requires OnlyAdds(adds)
    ensures ApplyAll(adds, Kept(f, name), name) == Join(Kept(f, name), Wanted(adds, name))
  {
    var kept, nothing := Kept(f, name), Family<P, A>.Family([], [], []);
    assert Join(kept, nothing) == kept;
    AddsAppend(adds, kept, nothing, name);
  }

  // The owned part is gone after clearing, the rest is not.
  lemma KeptOfJoin<P, A>(f: Family<P, A>, adds: seq<FamilyCommand<P, A>>, name: string)
    requires OnlyAdds(adds)
    ensures Kept(Join(Kept(f, name), Wanted(adds, name)), name) == Kept(f, name)
  {
    var g := Wanted(adds, name);
    AddsAreOwned(adds, Family([], [], []), name);
    var k := Kept(f, name);
    FilterConcat(k.clients, g.clients, c => KeepClient(c, name));
    FilterConcat(k.addresses, g.addresses, a => KeepAddress(a, name));
    FilterConcat(k.routes, g.routes, r => KeepRoute(r));
    FilterNone(g.clients, c => KeepClient(c, name));
    FilterNone(g.addresses, a => KeepAddress(a, name));
    FilterNone(g.routes, r => KeepRoute(r));
    FilterTwice(f.clients, c => KeepClient(c, name), c => KeepClient(c, name), c => KeepClient(c, name));
    FilterTwice(f.addresses, a => KeepAddress(a, name), a => KeepAddress(a, name), a => KeepAddress(a, name));
    FilterTwice(f.routes, r => KeepRoute(r), r => KeepRoute(r), r => KeepRoute(r));
  }
}
