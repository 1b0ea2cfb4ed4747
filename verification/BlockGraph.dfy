// internal/disk/detect.go: the block-device graph, the disks behind a file
// system, and the choice of the target disk.
module BlockGraph {
  import opened Wrappers
  import opened Sequences
  import StringOrder
  import Text

  // One entry of the lsblk document. A mount point may be null.
  datatype Node = Node(
    name: string,
    kname: string,
    path: string,
    kind: string,
    pkname: string,
    readOnly: bool,
    removable: bool,
    mountpoints: seq<Option<string>>,
    children: seq<Node>)

  type Adjacency = map<string, seq<Node>>

  const DISK := "disk"

  predicate Supported(kind: string)
  {
    kind == DISK || kind == "part" || kind == "crypt" || kind == "lvm"
  }

  // Some mount point is a text with more in it than white space. Active swap,
  // which lsblk prints as [SWAP], is one.
  predicate Mounted(n: Node)
  {
    exists i, j :: 0 <= i < |n.mountpoints| && n.mountpoints[i].Some? && 0 <= j < |n.mountpoints[i].value| &&
      n.mountpoints[i].value[j] !in " \t\n\U{0B}\U{0C}\r"
  }

  lemma SwapIsMounted(n: Node)
    requires Some("[SWAP]") in n.mountpoints
    ensures Mounted(n)
  {
    var i :| 0 <= i < |n.mountpoints| && n.mountpoints[i] == Some("[SWAP]");
    Text.SpaceIsWhite('[');
    assert n.mountpoints[i].value[0] == '[';
  }

  // The loop over the mount points of hasMountedDescendant.
  method HasMountpoint(n: Node) returns (r: bool)
    ensures r <==> Mounted(n)
  {
    for i := 0 to |n.mountpoints|
      invariant !Mounted(n.(mountpoints := n.mountpoints[..i]))
    {
      var value := n.mountpoints[i];
      if value.Some? {
        Text.TrimmedAway(value.value);
        if Text.TrimSpace(value.value) != "" {
          return true;
        }
      }
    }
    assert n.mountpoints[..|n.mountpoints|] == n.mountpoints;
    r := false;
  }

  // ----- relations and paths between kernel names -----

  // `b` is listed under `a`.
  ghost predicate Linked(adj: Adjacency, a: string, b: string)
  {
    a in adj && Lists(adj[a], b)
  }

  // All the links, as pairs.
  ghost function Links(adj: Adjacency): (r: set<(string, string)>)
    ensures forall a, b :: (a, b) in r <==> Linked(adj, a, b)
  {
    var r := set a, n | a in adj && n in adj[a] :: (a, n.kname);
    assert forall a, b :: (a, b) in r ==> Linked(adj, a, b) by {
      forall a, b | (a, b) in r ensures Linked(adj, a, b) {
        var n :| n in adj[a] && n.kname == b;
        var i :| 0 <= i < |adj[a]| && adj[a][i] == n;
      }
    }
    r
  }

  predicate Lists(nodes: seq<Node>, kname: string)
  {
    exists i :: 0 <= i < |nodes| && nodes[i].kname == kname
  }

  ghost predicate IsPath(adj: Adjacency, stops: set<string>, ks: seq<string>)
  {
    |ks| > 0 && forall i :: 0 <= i < |ks| - 1 ==> ks[i] !in stops && Linked(adj, ks[i], ks[i + 1])
  }

  // `b` is reachable from `a` along links that leave no stop.
  ghost predicate Reaches(adj: Adjacency, stops: set<string>, a: string, b: string)
  {
    exists ks :: IsPath(adj, stops, ks) && ks[0] == a && ks[|ks| - 1] == b
  }

  lemma ReachesSelf(adj: Adjacency, stops: set<string>, a: string)
    ensures Reaches(adj, stops, a, a)
  {
    assert IsPath(adj, stops, [a]);
  }

  lemma ReachesStep(adj: Adjacency, stops: set<string>, a: string, b: string, c: string)
    requires a !in stops && Linked(adj, a, b) && Reaches(adj, stops, b, c)
    ensures Reaches(adj, stops, a, c)
  {
    var ks :| IsPath(adj, stops, ks) && ks[0] == b && ks[|ks| - 1] == c;
    var longer := [a] + ks;
    assert forall i :: 1 <= i < |longer| ==> longer[i] == ks[i - 1];
    assert IsPath(adj, stops, longer);
  }

  // Fewer stops, more ways.
  lemma FewerStops(adj: Adjacency, stops: set<string>, fewer: set<string>, a: string, b: string)
    requires fewer <= stops && Reaches(adj, stops, a, b)
    ensures Reaches(adj, fewer, a, b)
  {
    var ks :| IsPath(adj, stops, ks) && ks[0] == a && ks[|ks| - 1] == b;
    assert IsPath(adj, fewer, ks);
  }

  // Closed under links, except out of stops.
  ghost predicate Closed(adj: Adjacency, stops: set<string>, s: set<string>)
  {
    forall a, b :: a in s && a !in stops && Linked(adj, a, b) ==> b in s
  }

  lemma {:induction false} ClosedHoldsPath(adj: Adjacency, stops: set<string>, s: set<string>, ks: seq<string>)
    requires Closed(adj, stops, s) && IsPath(adj, stops, ks) && ks[0] in s
    ensures ks[|ks| - 1] in s
  {
    if |ks| > 1 {
      assert Linked(adj, ks[0], ks[1]);
      assert forall i :: 0 <= i < |ks| - 1 ==> ks[1..][i] == ks[i + 1];
      ClosedHoldsPath(adj, stops, s, ks[1..]);
    }
  }

  lemma ClosedHoldsReached(adj: Adjacency, stops: set<string>, s: set<string>, a: string, b: string)
    requires Closed(adj, stops, s) && a in s && Reaches(adj, stops, a, b)
    ensures b in s
  {
    var ks :| IsPath(adj, stops, ks) && ks[0] == a && ks[|ks| - 1] == b;
    ClosedHoldsPath(adj, stops, s, ks);
  }

  // The two maps hold the same links, read in opposite directions.
  ghost predicate Mirrored(parents: Adjacency, children: Adjacency)
  {
    forall c, p :: Linked(parents, c, p) <==> Linked(children, p, c)
  }

  // A way up is a way down.
  lemma UpIsDown(parents: Adjacency, children: Adjacency, stops: set<string>, a: string, b: string)
    requires Mirrored(parents, children) && Reaches(parents, stops, a, b)
    ensures Reaches(children, {}, b, a)
  {
    var up :| IsPath(parents, stops, up) && up[0] == a && up[|up| - 1] == b;
    var n := |up|;
    var down := seq(n, i requires 0 <= i < n => up[n - 1 - i]);
    forall i | 0 <= i < n - 1 ensures Linked(children, down[i], down[i + 1]) {
      assert Linked(parents, up[n - 2 - i], up[n - 1 - i]);
    }
    assert IsPath(children, {}, down);
  }

  // ----- the document -----

  function Nodes(forest: seq<Node>): set<Node>
  {
    if forest == [] then {}
    else
      var last := forest[|forest| - 1];
      Nodes(forest[..|forest| - 1]) + {last} + Nodes(last.children)
  }

  // The names a node can be looked up by.
  function KeysOf(n: Node): (keys: seq<string>)
  {
    [n.name, n.kname, n.path, "/dev/" + n.name, "/dev/" + n.kname]
  }

  predicate Usable(key: string)
  {
    key != "" && key != "/dev/"
  }

  // A node is found by its name, its kernel name and its path, and by the
  // former two below /dev.
  predicate HasKey(n: Node, key: string)
  {
    && key != "" && key != "/dev/"
    && (key == n.name || key == n.kname || key == n.path || key == "/dev/" + n.name || key == "/dev/" + n.kname)
  }

  // An index in which `keys` lead to `n`, whatever they led to before.
  function Indexed(index: map<string, Node>, keys: seq<string>, n: Node): map<string, Node>
  {
    if keys == [] then index
    else
      var key := keys[|keys| - 1];
      var earlier := Indexed(index, keys[..|keys| - 1], n);
      if Usable(key) then earlier[key := n] else earlier
  }

  lemma {:induction false} IndexedFinds(index: map<string, Node>, keys: seq<string>, n: Node, key: string)
    ensures var found := Indexed(index, keys, n);
      if key in keys && Usable(key) then key in found && found[key] == n
      else (key in found <==> key in index) && (key in found ==> found[key] == index[key])
  {
    if keys != [] {
      IndexedFinds(index, keys[..|keys| - 1], n, key);
    }
  }

  // The disks of a forest, parents first.
  function DisksOf(forest: seq<Node>): seq<Node>
  {
    if forest == [] then []
    else
      var last := forest[|forest| - 1];
      DisksOf(forest[..|forest| - 1]) + ((if last.kind == DISK then [last] else []) + DisksOf(last.children))
  }

  lemma {:induction false} DisksOfFindsDisks(forest: seq<Node>, n: Node)
    ensures n in DisksOf(forest) <==> n in Nodes(forest) && n.kind == DISK
  {
    if forest != [] {
      var last := forest[|forest| - 1];
      DisksOfFindsDisks(forest[..|forest| - 1], n);
      DisksOfFindsDisks(last.children, n);
    }
  }

  // The (child, parent) pairs of a forest below an optional parent.
  function TreeLinks(forest: seq<Node>, parent: Option<Node>): set<(string, string)>
  {
    if forest == [] then {}
    else
      var last := forest[|forest| - 1];
      TreeLinks(forest[..|forest| - 1], parent) +
      (if parent.Some? then {(last.kname, parent.value.kname)} else {}) +
      TreeLinks(last.children, Some(last))
  }

  // lsblk gives a device the same type, or the same mounts, wherever it lists it.
  ghost predicate SameKind(all: set<Node>)
  {
    forall n, m :: n in all && m in all && n.kname == m.kname ==> n.kind == m.kind
  }

  ghost predicate SameMounts(all: set<Node>)
  {
    forall n, m :: n in all && m in all && n.kname == m.kname ==> (Mounted(n) <==> Mounted(m))
  }

  ghost function Stops(all: set<Node>): set<string>
  {
    set n | n in all && n.kind == DISK :: n.kname
  }

  // Everything listed comes from the document.
  ghost predicate Within(adj: Adjacency, all: set<Node>)
  {
    forall k, n :: k in adj && n in adj[k] ==> n in all
  }

  // What a graph holds, as a value.
  datatype Tables = Tables(byKey: map<string, Node>, disks: seq<Node>, links: set<(string, string)>)

  function Entered(t: Tables, node: Node, parent: Option<Node>): Tables
  {
    Tables(Indexed(t.byKey, KeysOf(node), node),
           t.disks + (if node.kind == DISK then [node] else []),
           t.links + (if parent.Some? then {(node.kname, parent.value.kname)} else {}))
  }

  // The tables after a forest was visited, parents first.
  function Walked(t: Tables, forest: seq<Node>, parent: Option<Node>): Tables
    decreases forest
  {
    if forest == [] then t
    else
      var last := forest[|forest| - 1];
      Walked(Entered(Walked(t, forest[..|forest| - 1], parent), last, parent), last.children, Some(last))
  }

  lemma WalkedNext(t: Tables, forest: seq<Node>, i: nat, parent: Option<Node>)
    requires i < |forest|
    ensures Walked(t, forest[..i + 1], parent) ==
            Walked(Entered(Walked(t, forest[..i], parent), forest[i], parent), forest[i].children, Some(forest[i]))
  {
    assert forest[..i + 1][..i] == forest[..i];
  }

  lemma ChildrenWithin(forest: seq<Node>, i: nat)
    requires i < |forest|
    ensures forest[i] in Nodes(forest) && Nodes(forest[i].children) <= Nodes(forest)
  {
    PrefixNodes(forest, i + 1);
  }

  // The walk finds exactly the disks of the forest.
  lemma {:induction false} WalkFindsDisks(t: Tables, forest: seq<Node>, parent: Option<Node>)
    ensures Walked(t, forest, parent).disks == t.disks + DisksOf(forest)
    decreases forest
  {
    if forest != [] {
      var last, front := forest[|forest| - 1], forest[..|forest| - 1];
      var middle := Entered(Walked(t, front, parent), last, parent);
      var here := if last.kind == DISK then [last] else [];
      WalkFindsDisks(t, front, parent);
      WalkFindsDisks(middle, last.children, Some(last));
      Chain(t.disks, DisksOf(front), here, DisksOf(last.children));
    }
  }

  lemma Chain(a: seq<Node>, b: seq<Node>, c: seq<Node>, d: seq<Node>)
    ensures a + b + c + d == a + (b + (c + d))
  {
  }

  // It finds exactly the links of the tree.
  lemma {:induction false} WalkFindsLinks(t: Tables, forest: seq<Node>, parent: Option<Node>)
    ensures Walked(t, forest, parent).links == t.links + TreeLinks(forest, parent)
    decreases forest
  {
    if forest != [] {
      var last, front := forest[|forest| - 1], forest[..|forest| - 1];
      var middle := Entered(Walked(t, front, parent), last, parent);
      WalkFindsLinks(t, front, parent);
      WalkFindsLinks(middle, last.children, Some(last));
    }
  }

  // Some node has the key.
  ghost predicate Offers(nodes: set<Node>, key: string)
  {
    exists n :: n in nodes && HasKey(n, key)
  }

  lemma OffersJoined(front: set<Node>, last: Node, below: set<Node>, key: string)
    ensures Offers(front + {last} + below, key) <==> Offers(front, key) || HasKey(last, key) || Offers(below, key)
  {
    if Offers(front, key) {
      var n :| n in front && HasKey(n, key);
      assert n in front + {last} + below;
    }
    if Offers(below, key) {
      var n :| n in below && HasKey(n, key);
      assert n in front + {last} + below;
    }
    assert last in front + {last} + below;
  }

  // A key leads to a node that has it, of the forest or from before.
  ghost predicate Leads(t: Tables, nodes: set<Node>, key: string, found: Node)
  {
    (key in t.byKey && found == t.byKey[key]) || (found in nodes && HasKey(found, key))
  }

  // It finds every node by each of its keys, or else a node of the same key,
  // and nothing by a key it does not have.
  lemma WalkFindsKeys(t: Tables, forest: seq<Node>, parent: Option<Node>, key: string)
    ensures key in Walked(t, forest, parent).byKey <==> key in t.byKey || exists n :: n in Nodes(forest) && HasKey(n, key)
    ensures key in Walked(t, forest, parent).byKey ==> Leads(t, Nodes(forest), key, Walked(t, forest, parent).byKey[key])
  {
    WalkOffersKeys(t, forest, parent, key);
    if key in Walked(t, forest, parent).byKey {
      WalkLeads(t, forest, parent, key);
    }
  }

  lemma {:induction false} WalkOffersKeys(t: Tables, forest: seq<Node>, parent: Option<Node>, key: string)
    ensures key in Walked(t, forest, parent).byKey <==> key in t.byKey || Offers(Nodes(forest), key)
    decreases forest
  {
    if forest != [] {
      var last := forest[|forest| - 1];
      var front := Walked(t, forest[..|forest| - 1], parent);
      IndexedFinds(front.byKey, KeysOf(last), last, key);
      WalkOffersKeys(t, forest[..|forest| - 1], parent, key);
      WalkOffersKeys(Entered(front, last, parent), last.children, Some(last), key);
      OffersJoined(Nodes(forest[..|forest| - 1]), last, Nodes(last.children), key);
    }
  }

  lemma {:induction false} WalkLeads(t: Tables, forest: seq<Node>, parent: Option<Node>, key: string)
    requires key in Walked(t, forest, parent).byKey
    ensures Leads(t, Nodes(forest), key, Walked(t, forest, parent).byKey[key])
    decreases forest
  {
    if forest != [] {
      var last := forest[|forest| - 1];
      var front := Walked(t, forest[..|forest| - 1], parent);
      IndexedFinds(front.byKey, KeysOf(last), last, key);
      if key in front.byKey {
        WalkLeads(t, forest[..|forest| - 1], parent, key);
      }
      WalkLeads(Entered(front, last, parent), last.children, Some(last), key);
    }
  }

  lemma {:induction false} PrefixNodes(forest: seq<Node>, i: nat)
    requires i <= |forest|
    ensures Nodes(forest[..i]) <= Nodes(forest)
  {
    if i < |forest| {
      PrefixNodes(forest[..|forest| - 1], i);
      assert forest[..|forest| - 1][..i] == forest[..i];
    } else {
      assert forest[..i] == forest;
    }
  }

  function AppendUnique(nodes: seq<Node>, candidate: Node): seq<Node>
  {
    if Lists(nodes, candidate.kname) then nodes else nodes + [candidate]
  }

  function AddLink(adj: Adjacency, key: string, node: Node): Adjacency
  {
    adj[key := AppendUnique(if key in adj then adj[key] else [], node)]
  }

  lemma AddLinkAdds(adj: Adjacency, key: string, node: Node, a: string, b: string)
    ensures Linked(AddLink(adj, key, node), a, b) <==> Linked(adj, a, b) || (a == key && b == node.kname)
  {
    var before := if key in adj then adj[key] else [];
    var after := AppendUnique(before, node);
    if a == key {
      if Lists(before, b) {
        var i :| 0 <= i < |before| && before[i].kname == b;
        assert after[i].kname == b;
      }
      if after != before {
        assert after[|before|].kname == node.kname;
      }
    }
  }

  lemma AddLinkWithin(adj: Adjacency, key: string, node: Node, all: set<Node>)
    requires Within(adj, all) && node in all
    ensures Within(AddLink(adj, key, node), all)
  {
  }

  // The node of a name: by the name itself up to a bracket, or by its last
  // element when it is a path.
  function LookupIn(index: map<string, Node>, key: string): Option<Node>
  {
    var base := Text.CutBefore(Text.TrimSpace(key), '[');
    if base in index then Some(index[base])
    else if Text.Base(base) in index then Some(index[Text.Base(base)])
    else None
  }

  // White space around a name and a bracketed tail after it make no difference;
  // `last` is its last element.
  lemma LookupMeans(index: map<string, Node>, before: string, name: string, tail: string, after: string, last: string)
    requires Text.AllSpace(before) && Text.AllSpace(after)
    requires '[' !in name && (tail == "" || tail[0] == '[') && Text.Trimmed(name + tail)
    ensures name in index ==> LookupIn(index, before + (name + tail) + after) == Some(index[name])
    ensures name !in index && last != "" && '/' !in last && (name == last || exists dir :: name == dir + "/" + last) ==>
              LookupIn(index, before + (name + tail) + after) == if last in index then Some(index[last]) else None
  {
    Text.TrimSpaceOf(before, name + tail, after);
    if tail == "" {
      assert name + tail == name;
      Text.CutAt(name, '[', "");
    } else {
      assert name + tail == name + ['['] + tail[1..];
      Text.CutAt(name, '[', tail[1..]);
    }
    if last != "" && '/' !in last {
      Text.BaseOf("", last);
      if dir :| name == dir + "/" + last {
        Text.BaseOf(dir, last);
      }
    }
  }

  class Graph {
    var byKey: map<string, Node>
    var parents: Adjacency
    var children: Adjacency
    var disks: seq<Node>

    constructor ()
      ensures byKey == map[] && parents == map[] && children == map[] && disks == []
    {
      byKey, parents, children, disks := map[], map[], map[], [];
    }

    ghost predicate Valid(all: set<Node>)
      reads this
    {
      && Mirrored(parents, children)
      && Within(parents, all) && Within(children, all)
      && (forall k :: k in byKey ==> byKey[k] in all)
      && (forall n :: n in disks ==> n in all && n.kind == DISK)
    }

    method Link(child: Node, parent: Node, ghost all: set<Node>)
      requires Valid(all) && child in all && parent in all
      modifies this`parents, this`children
      ensures Valid(all)
      ensures forall c, p :: Linked(parents, c, p) <==> old(Linked(parents, c, p)) || (c == child.kname && p == parent.kname)
    {
      forall c, p
        ensures Linked(AddLink(parents, child.kname, parent), c, p) <==> Linked(parents, c, p) || (c == child.kname && p == parent.kname)
        ensures Linked(AddLink(children, parent.kname, child), p, c) <==> Linked(children, p, c) || (c == child.kname && p == parent.kname)
      {
        AddLinkAdds(parents, child.kname, parent, c, p);
        AddLinkAdds(children, parent.kname, child, p, c);
      }
      AddLinkWithin(parents, child.kname, parent, all);
      AddLinkWithin(children, parent.kname, child, all);
      parents := AddLink(parents, child.kname, parent);
      children := AddLink(children, parent.kname, child);
    }

    method Register(node: Node, ghost all: set<Node>)
      requires Valid(all) && node in all
      modifies this`byKey, this`disks
      ensures Valid(all)
      ensures byKey == Indexed(old(byKey), KeysOf(node), node)
      ensures disks == if node.kind == DISK then old(disks) + [node] else old(disks)
    {
      var keys := KeysOf(node);
      for i := 0 to |keys|
        invariant Valid(all) && disks == old(disks)
        invariant byKey == Indexed(old(byKey), keys[..i], node)
      {
        assert keys[..i + 1][..i] == keys[..i];
        if keys[i] != "" && keys[i] != "/dev/" {
          byKey := byKey[keys[i] := node];
        }
      }
      assert keys[..|keys|] == keys;
      if node.kind == "disk" {
        disks := disks + [node];
      }
    }

    ghost function Contents(): Tables
      reads this
    {
      Tables(byKey, disks, Links(parents))
    }

    // One turn of the first pass.
    method Enter(node: Node, parent: Option<Node>, ghost all: set<Node>)
      requires Valid(all) && node in all && (parent.Some? ==> parent.value in all)
      modifies this
      ensures Valid(all) && Contents() == Entered(old(Contents()), node, parent)
    {
      Register(node, all);
      if parent.Some? {
        Link(node, parent.value, all);
        assert Links(parents) == old(Links(parents)) + {(node.kname, parent.value.kname)};
      }
    }

    // The first pass: the tree as lsblk prints it.
    method Walk(nodes: seq<Node>, parent: Option<Node>, ghost all: set<Node>)
      requires Valid(all) && Nodes(nodes) <= all && (parent.Some? ==> parent.value in all)
      modifies this
      ensures Valid(all) && Contents() == Walked(old(Contents()), nodes, parent)
      decreases nodes
    {
      assert nodes[..0] == [];
      for i := 0 to |nodes|
        invariant Valid(all) && Contents() == Walked(old(Contents()), nodes[..i], parent)
      {
        ChildrenWithin(nodes, i);
        WalkedNext(old(Contents()), nodes, i, parent);
        Enter(nodes[i], parent, all);
        Walk(nodes[i].children, Some(nodes[i]), all);
      }
      assert nodes[..|nodes|] == nodes;
    }

    function Lookup(key: string): Option<Node>
      reads this
    {
      LookupIn(byKey, key)
    }

    // A registered node that names a registered parent is linked to it.
    lemma NamingLinks(key: string, name: string)
      requires key in byKey && byKey[key].pkname == name && name != "" && name in byKey
      requires Text.Trimmed(name) && '[' !in name
      ensures Named(byKey[key].kname, byKey[name].kname)
    {
      LookupMeans(byKey, "", name, "", "", "");
      assert "" + (name + "") + "" == name;
    }

    // A registered node names its parent, and the parent is known.
    ghost predicate NamedBy(keys: set<string>, c: string, p: string)
      reads this
    {
      exists key :: key in keys && key in byKey && byKey[key].kname == c && byKey[key].pkname != "" &&
        Lookup(byKey[key].pkname).Some? && Lookup(byKey[key].pkname).value.kname == p
    }

    ghost predicate Named(c: string, p: string)
      reads this
    {
      NamedBy(byKey.Keys, c, p)
    }

    // The second pass: parents given by name, in any order.
    method LinkNamedParents(ghost all: set<Node>)
      requires Valid(all)
      modifies this`parents, this`children
      ensures Valid(all)
      ensures forall c, p :: Linked(parents, c, p) <==> old(Linked(parents, c, p)) || Named(c, p)
    {
      var rest := byKey.Keys;
      while rest != {}
        invariant Valid(all) && rest <= byKey.Keys
        invariant forall c, p :: Linked(parents, c, p) <==> old(Linked(parents, c, p)) || NamedBy(byKey.Keys - rest, c, p)
        decreases rest
      {
        var key :| key in rest;
        rest := rest - {key};
        var node := byKey[key];
        if node.pkname != "" {
          var parent := Lookup(node.pkname);
          if parent.Some? {
            Link(node, parent.value, all);
          }
        }
      }
    }

    // parseGraph on a decoded document: the links are those of the tree and
    // those by name, in both directions.
    method Build(document: seq<Node>)
      requires byKey == map[] && parents == map[] && children == map[] && disks == []
      modifies this
      ensures Valid(Nodes(document))
      ensures byKey == Walked(Tables(map[], [], {}), document, None).byKey
      ensures disks == DisksOf(document)
      ensures forall n :: n in disks <==> n in Nodes(document) && n.kind == DISK
      ensures forall key :: key in byKey <==> exists n :: n in Nodes(document) && HasKey(n, key)
      ensures forall key :: key in byKey ==> byKey[key] in Nodes(document) && HasKey(byKey[key], key)
      ensures forall c, p :: Linked(parents, c, p) <==> (c, p) in TreeLinks(document, None) || Named(c, p)
    {
      assert Links(map[]) == {};
      Walk(document, None, Nodes(document));
      var none := Tables(map[], [], {});
      forall n ensures n in DisksOf(document) <==> n in Nodes(document) && n.kind == DISK {
        DisksOfFindsDisks(document, n);
      }
      forall key
        ensures key in Walked(none, document, None).byKey <==> exists n :: n in Nodes(document) && HasKey(n, key)
        ensures key in Walked(none, document, None).byKey ==>
                  Walked(none, document, None).byKey[key] in Nodes(document) && HasKey(Walked(none, document, None).byKey[key], key)
      {
        WalkFindsKeys(none, document, None, key);
      }
      WalkFindsDisks(Tables(map[], [], {}), document, None);
      WalkFindsLinks(Tables(map[], [], {}), document, None);
      assert forall c, p :: Linked(parents, c, p) <==> (c, p) in Links(parents);
      LinkNamedParents(Nodes(document));
    }
  }

  // ----- the disks behind a node -----

  // One description for each name met: the first one.
  type Choice = map<string, Node>

  ghost predicate Describes(chosen: Choice, all: set<Node>)
  {
    forall k :: k in chosen ==> chosen[k] in all && chosen[k].kname == k
  }

  // A node of that type was met.
  ghost predicate Met(chosen: Choice, t: string)
  {
    exists k :: k in chosen && chosen[k].kind == t
  }

  ghost function DiskNames(chosen: Choice): set<string>
  {
    set k | k in chosen && chosen[k].kind == DISK
  }

  ghost function Names(all: set<Node>): set<string>
  {
    set n | n in all :: n.kname
  }

  // The names that are not known to lead on: disks, and those not met.
  ghost function Shut(chosen: Choice, all: set<Node>): set<string>
  {
    set k | k in Names(all) && !(k in chosen && chosen[k].kind != DISK)
  }

  // Every choice leads on at least where the type of a name is never in doubt.
  lemma ShutStops(chosen: Choice, all: set<Node>)
    requires Describes(chosen, all)
    ensures DiskNames(chosen) <= Shut(chosen, all)
    ensures SameKind(all) ==> DiskNames(chosen) <= Stops(all) <= Shut(chosen, all)
  {
    forall k | k in DiskNames(chosen) ensures k in Shut(chosen, all) {
      assert chosen[k] in all;
    }
    if SameKind(all) {
      forall k | k in DiskNames(chosen) ensures k in Stops(all) {
        assert chosen[k] in all;
      }
      forall k | k in Stops(all) ensures k in Shut(chosen, all) {
        var n :| n in all && n.kind == DISK && n.kname == k;
        assert k in chosen ==> chosen[k] in all;
      }
    }
  }

  // What a search from `start` has met when it is done: the names reached along
  // parents through what it took for other than disks, each as first described.
  ghost predicate Explored(parents: Adjacency, all: set<Node>, start: Node, chosen: Choice)
  {
    && Describes(chosen, all)
    && start.kname in chosen && chosen[start.kname] == start
    && forall k :: k in chosen <==> Reaches(parents, DiskNames(chosen), start.kname, k)
  }

  ghost predicate Extends(earlier: Choice, chosen: Choice)
  {
    forall k :: k in earlier ==> k in chosen && chosen[k] == earlier[k]
  }

  // The names met since `earlier` are closed under links up to those met.
  ghost predicate ClosedSince(parents: Adjacency, earlier: Choice, chosen: Choice)
  {
    forall a, b :: a in chosen && a !in earlier && chosen[a].kind != DISK && Linked(parents, a, b) ==> b in chosen
  }

  // They are reached from `from`.
  ghost predicate ReachedSince(parents: Adjacency, all: set<Node>, earlier: Choice, chosen: Choice, from: string)
  {
    forall k :: k in chosen && k !in earlier ==> Reaches(parents, Shut(chosen, all), from, k)
  }

  // The parents of `node` are being visited: all but its own links are closed.
  ghost predicate Underway(parents: Adjacency, all: set<Node>, start: Choice, node: Node, chosen: Choice)
  {
    && node.kname !in start && Extends(start[node.kname := node], chosen)
    && ClosedSince(parents, start[node.kname := node], chosen)
    && ReachedSince(parents, all, start, chosen, node.kname)
  }

  lemma ClosedFurther(parents: Adjacency, first: Choice, second: Choice, third: Choice)
    requires Extends(first, second) && Extends(second, third)
    requires ClosedSince(parents, first, second) && ClosedSince(parents, second, third)
    ensures ClosedSince(parents, first, third)
  {
  }

  ghost predicate AllIn(nodes: seq<Node>, names: set<string>)
  {
    forall n :: n in nodes ==> n.kname in names
  }

  lemma OneMoreIn(nodes: seq<Node>, i: nat, before: set<string>, names: set<string>)
    requires i < |nodes| && AllIn(nodes[..i], before) && before <= names && nodes[i].kname in names
    ensures AllIn(nodes[..i + 1], names)
  {
    assert nodes[..i + 1] == nodes[..i] + [nodes[i]];
  }

  // With the parents of a node met, the node itself is closed off.
  lemma ClosedWith(parents: Adjacency, start: Choice, marked: Choice, chosen: Choice, node: Node, up: seq<Node>)
    requires node.kname !in start && marked == start[node.kname := node] && Extends(marked, chosen)
    requires ClosedSince(parents, marked, chosen)
    requires up == if node.kname in parents then parents[node.kname] else []
    requires AllIn(up, chosen.Keys)
    ensures ClosedSince(parents, start, chosen)
  {
  }

  // The names met through a parent are reached from the node itself.
  lemma ReachedFurther(parents: Adjacency, all: set<Node>, start: Choice, before: Choice, chosen: Choice, node: Node, parent: Node)
    requires Extends(before, chosen) && Linked(parents, node.kname, parent.kname)
    requires node.kname in before && before[node.kname] == node && node.kind != DISK
    requires ReachedSince(parents, all, start, before, node.kname)
    requires ReachedSince(parents, all, before, chosen, parent.kname)
    ensures ReachedSince(parents, all, start, chosen, node.kname)
  {
    assert Shut(chosen, all) <= Shut(before, all);
    forall k | k in chosen && k !in start ensures Reaches(parents, Shut(chosen, all), node.kname, k) {
      if k in before {
        FewerStops(parents, Shut(before, all), Shut(chosen, all), node.kname, k);
      } else {
        ReachesStep(parents, Shut(chosen, all), node.kname, parent.kname, k);
      }
    }
  }

  // The state shared by the recursive visits of backingDisks.
  class BackingSearch {
    const parents: Adjacency
    ghost const all: set<Node>
    var seen: set<string>
    var disks: map<string, Node>
    var unsafe: set<string>
    ghost var chosen: Choice

    constructor (parents: Adjacency, ghost all: set<Node>)
      ensures this.parents == parents && this.all == all
      ensures seen == {} && disks == map[] && unsafe == {} && chosen == map[]
    {
      this.parents, this.all := parents, all;
      seen, disks, unsafe := {}, map[], {};
      chosen := map[];
    }

    // What has been recorded is what has been met.
    ghost predicate Valid()
      reads this
    {
      && Within(parents, all) && Describes(chosen, all)
      && seen == chosen.Keys
      && (forall k :: k in disks <==> k in chosen && chosen[k].kind == DISK)
      && (forall k :: k in disks ==> disks[k] == chosen[k])
      && (forall t :: t in unsafe <==> !Supported(t) && Met(chosen, t))
    }

    ghost function Unseen(): set<string>
      reads this
    {
      Names(all) - seen
    }

    method Visit(node: Node)
      requires Valid() && node in all
      modifies this
      ensures Valid() && Extends(old(chosen), chosen) && node.kname in chosen
      ensures node.kname !in old(chosen) ==> chosen[node.kname] == node
      ensures ClosedSince(parents, old(chosen), chosen)
      ensures ReachedSince(parents, all, old(chosen), chosen, node.kname)
      decreases Unseen(), 0
    {
      if node.kname in seen {
        return;
      }
      ghost var start := chosen;
      Mark(node);
      ReachesSelf(parents, Shut(chosen, all), node.kname);
      if node.kind == "disk" {
        return;
      }
      var up := if node.kname in parents then parents[node.kname] else [];
      if |up| > 0 {
        FollowAll(up, node, start);
      }
      ClosedWith(parents, start, start[node.kname := node], chosen, node, up);
    }

    // The loop over the parents of `node`.
    method FollowAll(up: seq<Node>, node: Node, ghost start: Choice)
      requires Valid() && node.kind != DISK && node.kname in parents && up == parents[node.kname]
      requires Underway(parents, all, start, node, chosen)
      modifies this
      ensures Valid() && Underway(parents, all, start, node, chosen)
      ensures old(seen) <= seen && AllIn(up, seen)
      decreases Unseen(), 2
    {
      for i := 0 to |up|
        invariant Valid() && Underway(parents, all, start, node, chosen)
        invariant old(seen) <= seen && AllIn(up[..i], seen)
      {
        ghost var before := seen;
        Follow(up[i], node, start);
        OneMoreIn(up, i, before, seen);
      }
      assert up[..|up|] == up;
    }

    // One turn of the loop over the parents of `node`.
    method Follow(parent: Node, node: Node, ghost start: Choice)
      requires Valid() && node.kind != DISK && node.kname in parents && parent in parents[node.kname]
      requires Underway(parents, all, start, node, chosen)
      modifies this
      ensures Valid() && Underway(parents, all, start, node, chosen)
      ensures old(seen) <= seen && parent.kname in seen
      decreases Unseen(), 1
    {
      assert Linked(parents, node.kname, parent.kname) by {
        var i :| 0 <= i < |parents[node.kname]| && parents[node.kname][i] == parent;
      }
      ghost var before := chosen;
      Visit(parent);
      ClosedFurther(parents, start[node.kname := node], before, chosen);
      ReachedFurther(parents, all, start, before, chosen, node, parent);
    }

    // A node is met for the first time.
    method Mark(node: Node)
      requires Valid() && node in all && node.kname !in seen
      modifies this
      ensures Valid() && chosen == old(chosen)[node.kname := node]
    {
      ghost var before := chosen;
      seen := seen + {node.kname};
      chosen := chosen[node.kname := node];
      if node.kind != "disk" && node.kind != "part" && node.kind != "crypt" && node.kind != "lvm" {
        unsafe := unsafe + {node.kind};
      }
      if node.kind == "disk" {
        disks := disks[node.kname := node];
      }
      forall t ensures t in unsafe <==> !Supported(t) && Met(chosen, t) {
        MetNext(before, node, t);
      }
    }
  }

  lemma MetNext(chosen: Choice, node: Node, t: string)
    requires node.kname !in chosen
    ensures Met(chosen[node.kname := node], t) <==> node.kind == t || Met(chosen, t)
  {
    var after := chosen[node.kname := node];
    assert node.kname in after && after[node.kname] == node;
    assert forall k :: k in chosen ==> k in after && after[k] == chosen[k];
  }

  // Where names are described alike, what was met is what the document says.
  lemma ExploredExactly(parents: Adjacency, all: set<Node>, start: Node, chosen: Choice)
    requires Explored(parents, all, start, chosen) && SameKind(all)
    requires forall k :: k in chosen ==> Reaches(parents, Shut(chosen, all), start.kname, k)
    ensures forall k :: k in chosen <==> Reaches(parents, Stops(all), start.kname, k)
    ensures forall k :: k in DiskNames(chosen) <==> k in Stops(all) && Reaches(parents, Stops(all), start.kname, k)
  {
    ShutStops(chosen, all);
    forall k ensures k in chosen <==> Reaches(parents, Stops(all), start.kname, k) {
      if k in chosen {
        FewerStops(parents, Shut(chosen, all), Stops(all), start.kname, k);
      }
      if Reaches(parents, Stops(all), start.kname, k) {
        FewerStops(parents, Stops(all), DiskNames(chosen), start.kname, k);
      }
    }
  }

  // The unsupported types among the nodes reached, read off the document.
  lemma MetExactly(parents: Adjacency, all: set<Node>, start: Node, chosen: Choice, t: string)
    requires Describes(chosen, all) && SameKind(all)
    requires forall k :: k in chosen <==> Reaches(parents, Stops(all), start.kname, k)
    ensures Met(chosen, t) <==>
            exists n :: n in all && n.kind == t && Reaches(parents, Stops(all), start.kname, n.kname)
  {
    if k :| k in chosen && chosen[k].kind == t {
      assert chosen[k] in all;
    }
    if n :| n in all && n.kind == t && Reaches(parents, Stops(all), start.kname, n.kname) {
      assert n.kname in chosen && chosen[n.kname] in all;
    }
  }

  // The whole search, on any graph.
  method Explore(parents: Adjacency, start: Node, ghost all: set<Node>) returns (search: BackingSearch)
    requires Within(parents, all) && start in all
    ensures fresh(search) && search.Valid() && search.all == all && search.parents == parents
    ensures Explored(parents, all, start, search.chosen)
    ensures forall k :: k in search.chosen ==> Reaches(parents, Shut(search.chosen, all), start.kname, k)
  {
    search := new BackingSearch(parents, all);
    search.Visit(start);
    ghost var chosen := search.chosen;
    ShutStops(chosen, all);
    forall k ensures k in chosen <==> Reaches(parents, DiskNames(chosen), start.kname, k) {
      if k in chosen {
        FewerStops(parents, Shut(chosen, all), DiskNames(chosen), start.kname, k);
      }
      if Reaches(parents, DiskNames(chosen), start.kname, k) {
        ClosedHoldsReached(parents, DiskNames(chosen), chosen.Keys, start.kname, k);
      }
    }
  }

  // The disks found and the unsupported types met, both sorted. `chosen` tells
  // which description of each name was met first.
  method BackingDisks(parents: Adjacency, start: Node, ghost all: set<Node>)
    returns (result: seq<Node>, unsafeKinds: seq<string>, ghost chosen: Choice)
    requires Within(parents, all) && start in all
    ensures Explored(parents, all, start, chosen)
    ensures forall k :: Lists(result, k) <==> k in DiskNames(chosen)
    ensures forall n :: n in result ==> n in all && n.kind == DISK && n.kname in chosen && chosen[n.kname] == n
    ensures forall i, j :: 0 <= i < j < |result| ==> StringOrder.Le(result[i].kname, result[j].kname) && result[i].kname != result[j].kname
    ensures StringOrder.Sorted(unsafeKinds)
    ensures forall t :: t in unsafeKinds <==> !Supported(t) && Met(chosen, t)
    ensures SameKind(all) ==> forall k :: Lists(result, k) <==> k in Stops(all) && Reaches(parents, Stops(all), start.kname, k)
    ensures SameKind(all) ==> forall t :: t in unsafeKinds <==>
              !Supported(t) && exists n :: n in all && n.kind == t && Reaches(parents, Stops(all), start.kname, n.kname)
  {
    var search := Explore(parents, start, all);
    chosen := search.chosen;
    var disks := search.disks;
    result := ByName(disks);
    unsafeKinds := StringOrder.SortedKeys(search.unsafe);
    if SameKind(all) {
      ExploredExactly(parents, all, start, chosen);
      forall t ensures Met(chosen, t) <==>
                       exists n :: n in all && n.kind == t && Reaches(parents, Stops(all), start.kname, n.kname)
      {
        MetExactly(parents, all, start, chosen, t);
      }
    }
  }

  // The values of a map of nodes by name, sorted by name.
  method ByName(disks: map<string, Node>) returns (result: seq<Node>)
    requires forall k :: k in disks ==> disks[k].kname == k
    ensures forall k :: Lists(result, k) <==> k in disks
    ensures forall n :: n in result ==> n.kname in disks && disks[n.kname] == n
    ensures forall i, j :: 0 <= i < j < |result| ==> StringOrder.Le(result[i].kname, result[j].kname) && result[i].kname != result[j].kname
  {
    var keys := StringOrder.SortedKeys(disks.Keys);
    result := seq(|keys|, i requires 0 <= i < |keys| && keys[i] in disks => disks[keys[i]]);
    assert forall i :: 0 <= i < |keys| ==> result[i].kname == keys[i];
  }

  // ----- mounted descendants -----

  // Some description of the name has no mount.
  ghost predicate SeemsUnmounted(all: set<Node>, k: string)
  {
    exists n :: n in all && n.kname == k && !Mounted(n)
  }

  ghost predicate MountedBelow(children: Adjacency, all: set<Node>, k: string)
  {
    exists n :: n in all && Mounted(n) && Reaches(children, {}, k, n.kname)
  }

  // The state shared by the recursive visits of hasMountedDescendant.
  class MountSearch {
    const children: Adjacency
    ghost const all: set<Node>
    var seen: set<string>

    constructor (children: Adjacency, ghost all: set<Node>)
      ensures this.children == children && this.all == all && seen == {}
    {
      this.children, this.all := children, all;
      seen := {};
    }

    ghost function Unseen(): set<string>
      reads this
    {
      Names(all) - seen
    }

    ghost predicate ClosedSince(before: set<string>, open: set<string>)
      reads this
    {
      forall a, b :: a in seen && a !in before && a !in open && Linked(children, a, b) ==> b in seen
    }

    // Everything seen since `before` was described without a mount.
    ghost predicate UnmountedSince(before: set<string>)
      reads this
    {
      forall k :: k in seen && k !in before ==> SeemsUnmounted(all, k)
    }

    method Visit(node: Node) returns (found: bool)
      requires Within(children, all) && node in all
      modifies this
      ensures old(seen) <= seen
      ensures found ==> MountedBelow(children, all, node.kname)
      ensures !found ==> node.kname in seen && ClosedSince(old(seen), {}) && UnmountedSince(old(seen))
      decreases Unseen(), 0
    {
      if node.kname in seen {
        return false;
      }
      seen := seen + {node.kname};
      ReachesSelf(children, {}, node.kname);
      var mounted := HasMountpoint(node);
      if mounted {
        return true;
      }
      assert SeemsUnmounted(all, node.kname);
      var down := if node.kname in children then children[node.kname] else [];
      ghost var marked := seen;
      for i := 0 to |down|
        invariant marked <= seen && ClosedSince(old(seen), {node.kname}) && UnmountedSince(old(seen))
        invariant forall j :: 0 <= j < i ==> down[j].kname in seen
      {
        assert Linked(children, node.kname, down[i].kname);
        found := Visit(down[i]);
        if found {
          ghost var n :| n in all && Mounted(n) && Reaches(children, {}, down[i].kname, n.kname);
          ReachesStep(children, {}, node.kname, down[i].kname, n.kname);
          return;
        }
      }
      found := false;
    }
  }

  method HasMountedDescendant(children: Adjacency, start: Node, ghost all: set<Node>) returns (r: bool)
    requires Within(children, all) && start in all
    ensures r ==> MountedBelow(children, all, start.kname)
    ensures !r ==> forall k :: Reaches(children, {}, start.kname, k) ==> SeemsUnmounted(all, k)
    ensures SameMounts(all) ==> (r <==> MountedBelow(children, all, start.kname))
  {
    var search := new MountSearch(children, all);
    r := search.Visit(start);
    if !r {
      forall k | Reaches(children, {}, start.kname, k) ensures SeemsUnmounted(all, k) {
        ClosedHoldsReached(children, {}, search.seen, start.kname, k);
      }
    }
  }

  // ----- the target disk -----

  datatype TargetError = UnknownRoot | Ambiguous(count: nat)

  // The disk a rescue system may write to: writable, fixed, nothing below it
  // mounted.
  ghost predicate Free(children: Adjacency, all: set<Node>, d: Node)
  {
    !d.readOnly && !d.removable && !MountedBelow(children, all, d.kname)
  }

  // Writable, fixed, and everything below described without a mount.
  ghost predicate SeemsFree(children: Adjacency, all: set<Node>, d: Node)
  {
    !d.readOnly && !d.removable && forall k :: Reaches(children, {}, d.kname, k) ==> SeemsUnmounted(all, k)
  }

  // The disk at position `i` is free, and no other is.
  ghost predicate OnlyFree(disks: seq<Node>, children: Adjacency, all: set<Node>, i: int)
  {
    0 <= i < |disks| && forall j :: 0 <= j < |disks| ==> (Free(children, all, disks[j]) <==> j == i)
  }

  // `k` names the one disk reached from `start`.
  ghost predicate OnlyBacking(parents: Adjacency, all: set<Node>, start: Node, k: string)
  {
    forall b :: b in Stops(all) && Reaches(parents, Stops(all), start.kname, b) <==> b == k
  }

  // Between the two: nothing free is passed over, nothing that does not even
  // seem free is taken.
  method IsFree(disk: Node, children: Adjacency, ghost all: set<Node>) returns (r: bool)
    requires Within(children, all) && disk in all
    ensures Free(children, all, disk) ==> r
    ensures r ==> SeemsFree(children, all, disk)
    ensures SameMounts(all) ==> (r <==> Free(children, all, disk))
  {
    var busy := HasMountedDescendant(children, disk, all);
    r := !disk.readOnly && !disk.removable && !busy;
  }

  // The flags of a list of disks.
  ghost predicate FlagsOf(disks: seq<Node>, children: Adjacency, all: set<Node>, flags: seq<bool>)
  {
    && |flags| == |disks|
    && (forall j :: 0 <= j < |disks| && flags[j] ==> SeemsFree(children, all, disks[j]))
    && (forall j :: 0 <= j < |disks| && Free(children, all, disks[j]) ==> flags[j])
    && (SameMounts(all) ==> forall j :: 0 <= j < |disks| && flags[j] ==> Free(children, all, disks[j]))
  }

  // The positions of the disks taken for free.
  method FreeDisks(disks: seq<Node>, children: Adjacency, ghost all: set<Node>) returns (positions: seq<int>, ghost flags: seq<bool>)
    requires Within(children, all) && forall d :: d in disks ==> d in all
    ensures SetFlags(flags, positions) && FlagsOf(disks, children, all, flags)
  {
    positions, flags := [], [];
    for i := 0 to |disks|
      invariant SetFlags(flags, positions) && FlagsOf(disks[..i], children, all, flags)
    {
      var free := IsFree(disks[i], children, all);
      NextFlag(disks[..i], children, all, flags, disks[i], free);
      NextPosition(flags, positions, free);
      TakeNext(disks, i);
      if free {
        positions := positions + [i];
      }
      flags := flags + [free];
    }
    assert disks[..|disks|] == disks;
  }

  lemma NextFlag(disks: seq<Node>, children: Adjacency, all: set<Node>, flags: seq<bool>, d: Node, free: bool)
    requires FlagsOf(disks, children, all, flags)
    requires Free(children, all, d) ==> free
    requires free ==> SeemsFree(children, all, d)
    requires SameMounts(all) ==> (free <==> Free(children, all, d))
    ensures FlagsOf(disks + [d], children, all, flags + [free])
  {
  }

  lemma FlagsDecide(disks: seq<Node>, children: Adjacency, all: set<Node>, flags: seq<bool>, i: int)
    requires FlagsOf(disks, children, all, flags) && SameMounts(all)
    ensures OnlyFree(disks, children, all, i) <==> OnlyFlag(flags, i)
  {
  }

  // Names listed once each are one name exactly when the list has one entry.
  lemma OneListed(nodes: seq<Node>, names: set<string>, k: string)
    requires forall i, j :: 0 <= i < j < |nodes| ==> nodes[i].kname != nodes[j].kname
    requires forall b :: Lists(nodes, b) <==> b in names
    ensures names == {k} <==> |nodes| == 1 && nodes[0].kname == k
  {
    if names == {k} {
      assert Lists(nodes, k);
      var i :| 0 <= i < |nodes| && nodes[i].kname == k;
      AllTheSame(nodes, k);
    }
    if |nodes| == 1 && nodes[0].kname == k {
      assert forall b :: Lists(nodes, b) <==> b == k;
    }
  }

  lemma AllTheSame(nodes: seq<Node>, k: string)
    requires forall i, j :: 0 <= i < j < |nodes| ==> nodes[i].kname != nodes[j].kname
    requires forall b :: Lists(nodes, b) ==> b == k
    ensures |nodes| <= 1
  {
    if |nodes| > 1 {
      ListedAt(nodes, 0);
      ListedAt(nodes, 1);
      assert false;
    }
  }

  lemma ListedAt(nodes: seq<Node>, i: nat)
    requires i < |nodes|
    ensures Lists(nodes, nodes[i].kname)
  {
  }

  // The one disk behind the root file system.
  method RootTarget(parents: Adjacency, root: Node, ghost all: set<Node>)
    returns (target: Result<Node, TargetError>, unsafeKinds: seq<string>, ghost chosen: Choice)
    requires Within(parents, all) && root in all
    ensures Explored(parents, all, root, chosen)
    ensures target.Ok? ==> DiskNames(chosen) == {target.value.kname} && chosen[target.value.kname] == target.value
    ensures target.Err? ==> target.error.Ambiguous? && forall k :: DiskNames(chosen) != {k}
    ensures forall t :: t in unsafeKinds <==> !Supported(t) && Met(chosen, t)
    ensures SameKind(all) ==> if target.Ok? then OnlyBacking(parents, all, root, target.value.kname)
                              else forall k :: !OnlyBacking(parents, all, root, k)
    ensures SameKind(all) ==> forall t :: t in unsafeKinds <==>
              !Supported(t) && exists n :: n in all && n.kind == t && Reaches(parents, Stops(all), root.kname, n.kname)
  {
    var backing;
    backing, unsafeKinds, chosen := BackingDisks(parents, root, all);
    forall k ensures DiskNames(chosen) == {k} <==> |backing| == 1 && backing[0].kname == k {
      OneListed(backing, DiskNames(chosen), k);
    }
    if SameKind(all) {
      forall k ensures OnlyBacking(parents, all, root, k) <==> DiskNames(chosen) == {k} {
        assert forall b :: b in DiskNames(chosen) <==> b in Stops(all) && Reaches(parents, Stops(all), root.kname, b);
      }
    }
    target := if |backing| == 1 then Ok(backing[0]) else Err(Ambiguous(|backing|));
  }

  // The one free disk of a rescue system.
  method RescueTarget(disks: seq<Node>, children: Adjacency, ghost all: set<Node>) returns (target: Result<Node, TargetError>)
    requires Within(children, all) && forall d :: d in disks ==> d in all
    ensures target.Ok? ==> exists i :: 0 <= i < |disks| && disks[i] == target.value && SeemsFree(children, all, disks[i]) &&
                                       forall j :: 0 <= j < |disks| && Free(children, all, disks[j]) ==> j == i
    ensures target.Err? ==> target.error.Ambiguous?
    ensures SameMounts(all) ==> if target.Ok? then exists i :: OnlyFree(disks, children, all, i) && disks[i] == target.value
                                else forall i :: !OnlyFree(disks, children, all, i)
  {
    var positions, flags := FreeDisks(disks, children, all);
    forall i ensures OnlyFlag(flags, i) <==> positions == [i] {
      AloneIsOnly(flags, positions, i);
    }
    if SameMounts(all) {
      forall i ensures OnlyFree(disks, children, all, i) <==> positions == [i] {
        FlagsDecide(disks, children, all, flags, i);
      }
    }
    if |positions| != 1 {
      return Err(Ambiguous(|positions|));
    }
    assert positions == [positions[0]] && OnlyFlag(flags, positions[0]);
    target := Ok(disks[positions[0]]);
  }

  // Detect's choice: the one disk behind the root file system or, on a live
  // system, the one free disk.
  method SelectTarget(g: Graph, root: Option<Node>, live: bool, ghost all: set<Node>)
    returns (target: Result<Node, TargetError>, unsafeKinds: seq<string>, ghost chosen: Choice)
    requires g.Valid(all)
    requires root.Some? ==> root.value in all
    ensures target.Ok? ==> target.value in all && target.value.kind == DISK
    ensures root.Some? ==> Explored(g.parents, all, root.value, chosen)
    ensures root.Some? ==> if target.Ok? then DiskNames(chosen) == {target.value.kname} else forall k :: DiskNames(chosen) != {k}
    ensures root.Some? ==> forall t :: t in unsafeKinds <==> !Supported(t) && Met(chosen, t)
    ensures root.Some? && SameKind(all) ==>
              if target.Ok? then OnlyBacking(g.parents, all, root.value, target.value.kname)
              else forall k :: !OnlyBacking(g.parents, all, root.value, k)
    ensures root.None? && target.Ok? ==> live && SeemsFree(g.children, all, target.value)
    ensures root.None? && target.Err? ==> (target.error.UnknownRoot? <==> !live)
    ensures root.None? && live && SameMounts(all) ==>
              if target.Ok? then exists i :: OnlyFree(g.disks, g.children, all, i) && g.disks[i] == target.value
              else forall i :: !OnlyFree(g.disks, g.children, all, i)
    ensures root.None? && target.Ok? && SameMounts(all) ==>
              forall m, i, j | m in all && 0 <= i < |m.mountpoints| && m.mountpoints[i].Some? &&
                               0 <= j < |m.mountpoints[i].value| && m.mountpoints[i].value[j] !in " \t\n\U{0B}\U{0C}\r" ::
                !Reaches(g.parents, Stops(all), m.kname, target.value.kname)
  {
    unsafeKinds, chosen := [], map[];
    if root.Some? {
      target, unsafeKinds, chosen := RootTarget(g.parents, root.value, all);
      return;
    }
    if !live {
      return Err(UnknownRoot), unsafeKinds, chosen;
    }
    target := RescueTarget(g.disks, g.children, all);
    if target.Ok? && SameMounts(all) {
      NeverOffered(g.parents, g.children, all, target.value);
    }
  }

  lemma NeverOffered(parents: Adjacency, children: Adjacency, all: set<Node>, target: Node)
    requires Mirrored(parents, children) && target in all && target.kind == DISK
    requires Free(children, all, target)
    ensures forall m :: m in all && Mounted(m) ==> !Reaches(parents, Stops(all), m.kname, target.kname)
  {
    forall m | m in all && Mounted(m) ensures !Reaches(parents, Stops(all), m.kname, target.kname) {
      if Reaches(parents, Stops(all), m.kname, target.kname) {
        BackingAMountIsBusy(parents, children, all, m, target.kname);
        assert false;
      }
    }
  }

  // A disk that backs a mounted node has that node below it.
  lemma BackingAMountIsBusy(parents: Adjacency, children: Adjacency, all: set<Node>, mounted: Node, disk: string)
    requires Mirrored(parents, children) && mounted in all && Mounted(mounted)
    requires disk in Stops(all) && Reaches(parents, Stops(all), mounted.kname, disk)
    ensures MountedBelow(children, all, disk)
  {
    UpIsDown(parents, children, Stops(all), mounted.kname, disk);
  }
}
