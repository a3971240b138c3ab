// The rules util/layout.go checks a layout against, as functions over
// values: each node against the nesting and ownership rules, the nodes in
// sorted name order, and, once every node passes, the members of bonds
// and bridges stripped of their layer-3 configuration and the roots
// collected. The `Layout` class in module Layouts runs these steps in
// place and is proved against them.
module LayoutRules {

  import opened Wrappers
  import opened Order
  import opened Values
  import opened Errs
  import opened Layer3
  import Cycles

  /** The interface types: "physical", "bond", "bridge" and "vlan". */
  datatype Kind = Physical | Bond | Bridge | Vlan

  function KindName(k: Kind): string {
    match k
    case Physical => "physical"
    case Bond => "bond"
    case Bridge => "bridge"
    case Vlan => "vlan"
  }

  /** An interface of the layout. `members` are the names of the
    * interfaces it is built on. */
  datatype Interface = Interface(
    kind: Kind,
    matchId: string,
    name: string,
    currentHwAddr: seq<bv8>,
    macAddress: seq<bv8>,
    optional: bool,
    members: seq<string>,
    parameters: map<string, Value>,
    network: Option<Network>)

  /** "type:name", as the messages name an interface. */
  function Label(i: Interface): string {
    KindName(i.kind) + ":" + i.name
  }

  /** An interface missing from the map reads as Go's zero value, whose
    * type and name are both empty. */
  function LabelOf(other: Option<Interface>): string {
    if other.Some? then Label(other.value) else ":"
  }

  /** The prefix of a node's own `Err`: its type and the id it was
    * declared under. */
  function NodePrefix(i: Interface): string {
    KindName(i.kind) + ":" + i.matchId
  }

  /** `%v` of a list of names. */
  function ShowNames(ns: seq<string>): string {
    "[" + Join(ns, " ") + "]"
  }

  function PhysicalMsg(i: Interface): string {
    Label(i) + " must not refer to sub interfaces " + ShowNames(i.members)
  }

  function UndefinedMsg(i: Interface, name: string): string {
    Label(i) + " refers to undefined sub interface " + name
  }

  function NotPhysicalMsg(i: Interface, child: Interface): string {
    Label(i) + " refers to " + Label(child) + ", which is not a physical interface."
  }

  function BuiltOnMsg(i: Interface, child: Interface): string {
    Label(i) + " cannot be built on " + Label(child)
  }

  function OwnedMsg(child: Interface, other: Option<Interface>, i: Interface): string {
    Label(child) + " is already owned by " + LabelOf(other) + ", it canot be a member of " + Label(i)
  }

  /** The parents recorded for `name`, none when it has no entry. */
  function Parents(c2p: map<string, seq<string>>, name: string): seq<string> {
    if name in c2p then c2p[name] else []
  }

  /** The state a node's check threads through its members: the graph and
    * the node's messages. */
  datatype Claim = Claim(c2p: map<string, seq<string>>, msgs: seq<string>)

  /** The nesting rules: may `i` be built on `child`? A bond only on
    * physical interfaces, a bridge not on a bridge, a vlan not on a vlan. */
  predicate MayBuildOn(i: Interface, child: Interface) {
    match i.kind
    case Bond => child.kind == Physical
    case Bridge => child.kind != Bridge
    case Vlan => child.kind != Vlan
    case Physical => false
  }

  /** The interface named `name`, if the layout has one. */
  function Owner(ifs: map<string, Interface>, name: string): Option<Interface> {
    if name in ifs then Some(ifs[name]) else None
  }

  /** Only a vlan may join the parents of a child, and only when the
    * parent already there is a vlan. */
  predicate MayShare(i: Interface, other: Option<Interface>) {
    i.kind == Vlan && other.Some? && other.value.kind == Vlan
  }

  /** `i` claims `child`, which `otherName` already owns. A vlan joining
    * vlans adds itself to the child's parents, which are sorted again;
    * anything else is reported. */
  function ClaimOne(ifs: map<string, Interface>, i: Interface, child: Interface, otherName: string, st: Claim): (r: Claim)
    ensures var other := Owner(ifs, otherName);
      && (MayShare(i, other) ==>
            r == st.(c2p := st.c2p[child.name := Sort(Parents(st.c2p, child.name) + [i.name])]))
      && (!MayShare(i, other) ==> r == st.(msgs := st.msgs + [OwnedMsg(child, other, i)]))
  {
    var other := Owner(ifs, otherName);
    if MayShare(i, other) then st.(c2p := st.c2p[child.name := Sort(Parents(st.c2p, child.name) + [i.name])])
    else st.(msgs := st.msgs + [OwnedMsg(child, other, i)])
  }

  /** The loop over the parents `others` the child had when `i` came to
    * it. */
  function Claims(ifs: map<string, Interface>, i: Interface, child: Interface, others: seq<string>, st: Claim): (r: Claim)
    ensures st.msgs <= r.msgs
    ensures i.kind != Vlan ==> r.c2p == st.c2p && |r.msgs| == |st.msgs| + |others|
    decreases |others|
  {
    if others == [] then st
    else ClaimOne(ifs, i, child, others[|others| - 1], Claims(ifs, i, child, others[..|others| - 1], st))
  }

  /** One member `name` of `i`: it must exist and be a kind `i` may be
    * built on; the first node to claim it becomes its only parent, a
    * later one goes through `Claims`. */
  function MemberOne(ifs: map<string, Interface>, i: Interface, name: string, st: Claim): (r: Claim)
    ensures st.msgs <= r.msgs
    ensures r.msgs == st.msgs ==> name in ifs && (i.kind != Physical ==> MayBuildOn(i, ifs[name]))
  {
    if name !in ifs then st.(msgs := st.msgs + [UndefinedMsg(i, name)])
    else
      var child := ifs[name];
      if i.kind == Bond && child.kind != Physical then st.(msgs := st.msgs + [NotPhysicalMsg(i, child)])
      else if i.kind == Bridge && child.kind == Bridge then st.(msgs := st.msgs + [BuiltOnMsg(i, child)])
      else if i.kind == Vlan && child.kind == Vlan then st.(msgs := st.msgs + [BuiltOnMsg(i, child)])
      else if name !in st.c2p then st.(c2p := st.c2p[name := [i.name]])
      else Claims(ifs, i, child, st.c2p[name], st)
  }

  /** The loop over the members `names` of `i`. */
  function Members(ifs: map<string, Interface>, i: Interface, names: seq<string>, st: Claim): (r: Claim)
    ensures st.msgs <= r.msgs
    ensures r.msgs == st.msgs ==> forall n :: n in names ==> n in ifs && (i.kind != Physical ==> MayBuildOn(i, ifs[n]))
    decreases |names|
  {
    if names == [] then st
    else MemberOne(ifs, i, names[|names| - 1], Members(ifs, i, names[..|names| - 1], st))
  }

  /** `(*Interface).validate` on `i` as the layout holds it (members of a
    * non-physical node already sorted): a physical node may have no
    * members and is checked no further; any other has its network block
    * checked, then each member in order. */
  function CheckNode(ifs: map<string, Interface>, c2p: map<string, seq<string>>, i: Interface): (r: Claim)
    ensures i.kind == Physical ==> r.c2p == c2p && (r.msgs == [] <==> i.members == [])
    ensures r.msgs == [] ==> forall n :: n in i.members ==> n in ifs && MayBuildOn(i, ifs[n])
  {
    if i.kind == Physical then Claim(c2p, if |i.members| > 0 then [PhysicalMsg(i)] else [])
    else Members(ifs, i, i.members, Claim(c2p, Merged(NetworkErr(i.network))))
  }

  /** The layout's map after `validate` sorted the members of node `k` in
    * place; a physical node is left as it is. */
  function Settle(ifs: map<string, Interface>, k: string): (r: map<string, Interface>)
    requires k in ifs
    ensures r.Keys == ifs.Keys
    ensures forall x :: x in ifs ==> r[x].kind == ifs[x].kind && r[x].name == ifs[x].name && r[x].matchId == ifs[x].matchId
  {
    if ifs[k].kind == Physical then ifs else ifs[k := ifs[k].(members := Sort(ifs[k].members))]
  }

  /** The state of `Validate`'s first loop. */
  datatype Nodes = Nodes(ifs: map<string, Interface>, c2p: map<string, seq<string>>, msgs: seq<string>)

  /** Node `k` checked and its error merged into the layout's `Err`. */
  function NodeStep(st: Nodes, k: string): (r: Nodes)
    requires k in st.ifs
    ensures r.ifs.Keys == st.ifs.Keys
    ensures forall x :: x in st.ifs ==> r.ifs[x].kind == st.ifs[x].kind && r.ifs[x].name == st.ifs[x].name
  {
    var ifs := Settle(st.ifs, k);
    var cl := CheckNode(ifs, st.c2p, ifs[k]);
    Nodes(ifs, cl.c2p, st.msgs + Merged(OrNilOf(NodePrefix(ifs[k]), cl.msgs)))
  }

  /** The first loop of `Validate` over the node names `keys`. */
  function CheckNodes(st: Nodes, keys: seq<string>): (r: Nodes)
    requires forall k :: k in keys ==> k in st.ifs
    ensures r.ifs.Keys == st.ifs.Keys
    ensures forall x :: x in st.ifs ==> r.ifs[x].kind == st.ifs[x].kind && r.ifs[x].name == st.ifs[x].name
    decreases |keys|
  {
    if keys == [] then st
    else
      var mid := CheckNodes(st, keys[..|keys| - 1]);
      NodeStep(mid, keys[|keys| - 1])
  }

  /** The members of one bond or bridge lose their network block; the
    * block is cleared on the copy stored under the member's own name. */
  function ClearEach(ifs: map<string, Interface>, names: seq<string>): (r: map<string, Interface>)
    ensures ifs.Keys <= r.Keys
    ensures NamesMatchKeys(ifs) ==> r.Keys == ifs.Keys && NamesMatchKeys(r)
    decreases |names|
  {
    if names == [] then ifs
    else
      var prev := ClearEach(ifs, names[..|names| - 1]);
      var name := names[|names| - 1];
      if name in prev then prev[prev[name].name := prev[name].(network := None)] else prev
  }

  /** The second loop of `Validate`, over the node names `keys`. */
  function ClearNetworks(ifs: map<string, Interface>, keys: seq<string>): (r: map<string, Interface>)
    ensures ifs.Keys <= r.Keys
    ensures NamesMatchKeys(ifs) ==> r.Keys == ifs.Keys && NamesMatchKeys(r)
    decreases |keys|
  {
    if keys == [] then ifs
    else
      var prev := ClearNetworks(ifs, keys[..|keys| - 1]);
      var k := keys[|keys| - 1];
      if k in prev && (prev[k].kind == Bridge || prev[k].kind == Bond) then ClearEach(prev, prev[k].members) else prev
  }

  /** The names among `keys` that are nobody's member. */
  function RootsOf(keys: seq<string>, c2p: map<string, seq<string>>): (r: seq<string>)
    ensures forall x :: x in r <==> x in keys && x !in c2p
    decreases |keys|
  {
    if keys == [] then []
    else RootsOf(keys[..|keys| - 1], c2p) + (if keys[|keys| - 1] in c2p then [] else [keys[|keys| - 1]])
  }


  /** Every child in the graph has at least one parent, and its parents
    * are kept sorted. */
  predicate WellFormed(c2p: map<string, seq<string>>) {
    forall n :: n in c2p ==> |c2p[n]| > 0 && Sorted(c2p[n])
  }

  /** Every child in the graph is an interface of the layout. */
  predicate Recorded(c2p: map<string, seq<string>>, ifs: map<string, Interface>) {
    forall n :: n in c2p ==> n in ifs
  }

  /** Each interface is stored under its own name. */
  predicate NamesMatchKeys(ifs: map<string, Interface>) {
    forall k :: k in ifs ==> ifs[k].name == k
  }

  /** What a node that raised no message satisfies: a physical node has
    * no members; any other has a valid network block and is built only on
    * defined interfaces of a kind it may be built on. */
  predicate NodeOk(ifs: map<string, Interface>, i: Interface) {
    && (i.kind == Physical ==> i.members == [])
    && (i.kind != Physical ==>
          && NetworkErr(i.network) == NoError
          && forall n :: n in i.members ==> n in ifs && MayBuildOn(i, ifs[n]))
  }

  /** Going through the current parents of a child: messages are only
    * appended, and none is added exactly when `i` is a vlan and every one
    * of them is a vlan. A bond or a bridge never changes the graph here
    * and is reported once per parent. */
  lemma {:induction false} ClaimsFacts(ifs: map<string, Interface>, i: Interface, child: Interface, others: seq<string>, st: Claim)
    requires WellFormed(st.c2p)
    ensures var r := Claims(ifs, i, child, others, st);
      && WellFormed(r.c2p)
      && (Recorded(st.c2p, ifs) && child.name in ifs ==> Recorded(r.c2p, ifs))
      && st.msgs <= r.msgs
      && (r.msgs == st.msgs <==> forall o :: o in others ==> MayShare(i, Owner(ifs, o)))
      && (i.kind != Vlan ==> r.c2p == st.c2p && |r.msgs| == |st.msgs| + |others|)
    decreases |others|
  {
    if others != [] {
      var init := others[..|others| - 1];
      var last := others[|others| - 1];
      ClaimsFacts(ifs, i, child, init, st);
      var mid := Claims(ifs, i, child, init, st);
      var r := ClaimOne(ifs, i, child, last, mid);
      assert others == init + [last];
      if MayShare(i, Owner(ifs, last)) {
        var ps := Sort(Parents(mid.c2p, child.name) + [i.name]);
        assert |ps| > 0;
      } else {
        assert r.msgs != mid.msgs by {
          assert |r.msgs| == |mid.msgs| + 1;
        }
        assert |r.msgs| > |st.msgs|;
      }
    }
  }

  /** One member of a bond, bridge or vlan: messages are only appended;
    * when none is added the member exists and may be built on, a bond or
    * bridge becomes its only parent, and a vlan shares it only with
    * vlans. */
  lemma MemberOneFacts(ifs: map<string, Interface>, i: Interface, name: string, st: Claim)
    requires WellFormed(st.c2p) && i.kind != Physical
    ensures var r := MemberOne(ifs, i, name, st);
      && WellFormed(r.c2p)
      && (Recorded(st.c2p, ifs) && NamesMatchKeys(ifs) ==> Recorded(r.c2p, ifs))
      && st.msgs <= r.msgs
      && (r.msgs == st.msgs ==> name in ifs && MayBuildOn(i, ifs[name]))
      && (r.msgs == st.msgs && i.kind != Vlan ==> name !in st.c2p && r.c2p == st.c2p[name := [i.name]])
      && (r.msgs == st.msgs && i.kind == Vlan && name in st.c2p ==>
            forall o :: o in st.c2p[name] ==> MayShare(i, Owner(ifs, o)))
  {
    if name in ifs {
      var child := ifs[name];
      if MayBuildOn(i, child) && name in st.c2p {
        ClaimsFacts(ifs, i, child, st.c2p[name], st);
      }
    }
  }

  /** The member loop: messages are only appended, and when none is added
    * every member exists and may be built on. */
  lemma {:induction false} MembersFacts(ifs: map<string, Interface>, i: Interface, names: seq<string>, st: Claim)
    requires WellFormed(st.c2p) && i.kind != Physical
    ensures var r := Members(ifs, i, names, st);
      && WellFormed(r.c2p)
      && (Recorded(st.c2p, ifs) && NamesMatchKeys(ifs) ==> Recorded(r.c2p, ifs))
      && st.msgs <= r.msgs
      && (r.msgs == st.msgs ==> forall n :: n in names ==> n in ifs && MayBuildOn(i, ifs[n]))
    decreases |names|
  {
    if names != [] {
      var init := names[..|names| - 1];
      var last := names[|names| - 1];
      MembersFacts(ifs, i, init, st);
      var mid := Members(ifs, i, init, st);
      MemberOneFacts(ifs, i, last, mid);
      assert names == init + [last];
    }
  }

  /** A node's check keeps the graph well formed; a node with no message
    * satisfies `NodeOk`, and a physical node has none exactly when it has
    * no members. */
  lemma CheckNodeFacts(ifs: map<string, Interface>, c2p: map<string, seq<string>>, i: Interface)
    requires WellFormed(c2p)
    ensures var r := CheckNode(ifs, c2p, i);
      && WellFormed(r.c2p)
      && (Recorded(c2p, ifs) && NamesMatchKeys(ifs) ==> Recorded(r.c2p, ifs))
      && (r.msgs == [] ==> NodeOk(ifs, i))
      && (i.kind == Physical ==> (r.msgs == [] <==> i.members == []))
  {
    if i.kind != Physical {
      var start := Claim(c2p, Merged(NetworkErr(i.network)));
      MembersFacts(ifs, i, i.members, start);
      if NetworkErr(i.network) != NoError {
        assert |Merged(NetworkErr(i.network))| > 0;
      }
    }
  }

  /** One node checked and merged: the graph stays well formed and
    * within the layout, and messages are only appended. */
  lemma NodeStepShape(st: Nodes, k: string)
    requires k in st.ifs && WellFormed(st.c2p)
    ensures var r := NodeStep(st, k);
      && WellFormed(r.c2p)
      && (Recorded(st.c2p, st.ifs) && NamesMatchKeys(st.ifs) ==> Recorded(r.c2p, r.ifs) && NamesMatchKeys(r.ifs))
      && st.msgs <= r.msgs
  {
    var ifs := Settle(st.ifs, k);
    CheckNodeFacts(ifs, st.c2p, ifs[k]);
  }

  /** One node checked and merged: with no message added, the node
    * satisfies `NodeOk`. */
  lemma NodeStepOk(st: Nodes, k: string)
    requires k in st.ifs && WellFormed(st.c2p)
    ensures var r := NodeStep(st, k);
      r.msgs == st.msgs ==> NodeOk(r.ifs, r.ifs[k])
  {
    var ifs := Settle(st.ifs, k);
    CheckNodeFacts(ifs, st.c2p, ifs[k]);
    var cl := CheckNode(ifs, st.c2p, ifs[k]);
    var added := Merged(OrNilOf(NodePrefix(ifs[k]), cl.msgs));
    assert NodeStep(st, k).msgs == st.msgs + added;
    if cl.msgs != [] {
      assert |added| == |cl.msgs|;
    }
  }

  /** Checking node `k` keeps `NodeOk` for every other node: only the
    * order of `k`'s members changes. */
  lemma NodeStepKeepsOthers(st: Nodes, k: string, x: string)
    requires k in st.ifs && x in st.ifs && x != k && NodeOk(st.ifs, st.ifs[x])
    ensures NodeOk(NodeStep(st, k).ifs, NodeStep(st, k).ifs[x])
  {
    var ifs := Settle(st.ifs, k);
    assert ifs[x] == st.ifs[x];
  }

  /** The node loop keeps the graph well formed and within the layout,
    * and only appends messages. */
  lemma {:induction false} CheckNodesShape(st: Nodes, keys: seq<string>)
    requires forall k :: k in keys ==> k in st.ifs
    requires WellFormed(st.c2p)
    ensures var r := CheckNodes(st, keys);
      && WellFormed(r.c2p)
      && (Recorded(st.c2p, st.ifs) && NamesMatchKeys(st.ifs) ==> Recorded(r.c2p, r.ifs) && NamesMatchKeys(r.ifs))
      && st.msgs <= r.msgs
    decreases |keys|
  {
    if keys != [] {
      var init := keys[..|keys| - 1];
      CheckNodesShape(st, init);
      NodeStepShape(CheckNodes(st, init), keys[|keys| - 1]);
    }
  }

  /** Every node named in `keys` satisfies `NodeOk`. */
  predicate AllNodesOk(ifs: map<string, Interface>, keys: seq<string>) {
    forall k :: k in keys ==> k in ifs && NodeOk(ifs, ifs[k])
  }

  /** When the node loop adds no message, every node it checked satisfies
    * `NodeOk` in the layout it leaves behind. */
  lemma {:induction false} CheckNodesOk(st: Nodes, keys: seq<string>)
    requires forall k :: k in keys ==> k in st.ifs
    requires WellFormed(st.c2p) && st.msgs == []
    ensures CheckNodes(st, keys).msgs == [] ==> AllNodesOk(CheckNodes(st, keys).ifs, keys)
    decreases |keys|
  {
    if keys != [] {
      var init := keys[..|keys| - 1];
      var k := keys[|keys| - 1];
      assert keys == init + [k];
      CheckNodesShape(st, init);
      var mid := CheckNodes(st, init);
      var r := NodeStep(mid, k);
      assert CheckNodes(st, keys) == r;
      if r.msgs == [] {
        assert |mid.msgs| <= |r.msgs|;
        CheckNodesOk(st, init);
        AllNodesOkStep(mid, init, k);
      }
    }
  }

  lemma AllNodesOkStep(mid: Nodes, init: seq<string>, k: string)
    requires k in mid.ifs && WellFormed(mid.c2p)
    requires AllNodesOk(mid.ifs, init)
    requires NodeStep(mid, k).msgs == mid.msgs
    ensures AllNodesOk(NodeStep(mid, k).ifs, init + [k])
  {
    NodeStepOk(mid, k);
    forall x | x in init
      ensures x in NodeStep(mid, k).ifs && NodeOk(NodeStep(mid, k).ifs, NodeStep(mid, k).ifs[x])
    {
      if x != k {
        NodeStepKeepsOthers(mid, k, x);
      }
    }
  }

  /** `name` is a member of the bond or bridge stored under `k`. */
  predicate Owns(ifs: map<string, Interface>, k: string, name: string) {
    k in ifs && (ifs[k].kind == Bond || ifs[k].kind == Bridge) && name in ifs[k].members
  }

  /** With each interface stored under its own name, clearing the members
    * of one bond or bridge sets the network block of exactly those
    * members to nothing and changes nothing else. */
  lemma {:induction false} ClearEachFacts(ifs: map<string, Interface>, names: seq<string>)
    requires NamesMatchKeys(ifs)
    ensures var r := ClearEach(ifs, names);
      && r.Keys == ifs.Keys
      && forall x :: x in ifs ==> r[x] == ifs[x].(network := if x in names then None else ifs[x].network)
    decreases |names|
  {
    if names != [] {
      var init := names[..|names| - 1];
      ClearEachFacts(ifs, init);
      assert names == init + [names[|names| - 1]];
    }
  }

  /** With each interface stored under its own name, the clearing loop
    * over `keys` sets to nothing the network block of exactly the members
    * of the bonds and bridges among `keys`; keys, kinds, names and members
    * are unchanged. */
  lemma {:induction false} ClearNetworksFacts(ifs: map<string, Interface>, keys: seq<string>)
    requires NamesMatchKeys(ifs)
    ensures var r := ClearNetworks(ifs, keys);
      && r.Keys == ifs.Keys
      && forall x :: x in ifs ==>
           r[x] == ifs[x].(network := if exists k :: k in keys && Owns(ifs, k, x) then None else ifs[x].network)
    decreases |keys|
  {
    if keys != [] {
      var init := keys[..|keys| - 1];
      var k := keys[|keys| - 1];
      ClearNetworksFacts(ifs, init);
      var prev := ClearNetworks(ifs, init);
      assert keys == init + [k];
      assert NamesMatchKeys(prev);
      if k in prev && (prev[k].kind == Bridge || prev[k].kind == Bond) {
        ClearEachFacts(prev, prev[k].members);
      }
      forall x | x in ifs
        ensures ClearNetworks(ifs, keys)[x] ==
          ifs[x].(network := if exists k' :: k' in keys && Owns(ifs, k', x) then None else ifs[x].network)
      {
        OwnersSplit(ifs, init, k, x);
      }
    }
  }

  /** An owner among `init + [k]` is an owner among `init`, or `k`. */
  lemma OwnersSplit(ifs: map<string, Interface>, init: seq<string>, k: string, x: string)
    ensures (exists k' :: k' in init + [k] && Owns(ifs, k', x)) ==
      ((exists k' :: k' in init && Owns(ifs, k', x)) || Owns(ifs, k, x))
  {
    if Owns(ifs, k, x) {
      assert k in init + [k];
    }
    if exists k' :: k' in init + [k] && Owns(ifs, k', x) {
      var k' :| k' in init + [k] && Owns(ifs, k', x);
      if k' != k {
        assert k' in init;
      }
    }
    if exists k' :: k' in init && Owns(ifs, k', x) {
      var k' :| k' in init && Owns(ifs, k', x);
      assert k' in init + [k];
    }
  }

  /** The node loop of `Validate` over the sorted names of `ifs`, from an
    * empty graph and no messages. */
  function Checked(ifs: map<string, Interface>): (r: Nodes)
    ensures r.ifs.Keys == ifs.Keys
  {
    CheckNodes(Nodes(ifs, map[], []), SortedSet(ifs.Keys))
  }

  /** The layout after the clearing loop, which runs when every node
    * passed. */
  function Cleared(ifs: map<string, Interface>): map<string, Interface> {
    ClearNetworks(Checked(ifs).ifs, SortedSet(ifs.Keys))
  }

  /** The roots once sorted: in order, and exactly the names among `keys`
    * that are nobody's member. */
  lemma SortedRoots(keys: seq<string>, c2p: map<string, seq<string>>)
    ensures var r := Sort(RootsOf(keys, c2p));
      Sorted(r) && forall x :: x in r <==> x in keys && x !in c2p
  {
    var s := RootsOf(keys, c2p);
    var r := Sort(s);
    forall x
      ensures x in r <==> x in s
    {
      assert x in r <==> x in multiset(r);
      assert x in s <==> x in multiset(s);
    }
  }

  /** What `(*Layout).Validate` leaves behind. */
  datatype Outcome = Outcome(
    ifs: map<string, Interface>,
    c2p: map<string, seq<string>>,
    roots: seq<string>,
    err: ErrValue)

  /** `(*Layout).Validate` on a layout with interfaces `ifs` and roots
    * `roots`, with the cycle search as written. Any node message stops it
    * before the clearing, root and cycle steps. */
  function ValidateSpec(ifs: map<string, Interface>, roots: seq<string>): (r: Outcome)
    ensures r.c2p == Checked(ifs).c2p
    ensures Checked(ifs).msgs != [] ==> r.err == Accumulated("layout", Checked(ifs).msgs) && r.roots == roots
    ensures multiset(roots) <= multiset(r.roots)
  {
    var st := Checked(ifs);
    if st.msgs != [] then Outcome(st.ifs, st.c2p, roots, Accumulated("layout", st.msgs))
    else
      var cleared := ClearNetworks(st.ifs, SortedSet(ifs.Keys));
      var keys := SortedSet(cleared.Keys);
      Outcome(cleared, st.c2p, Sort(roots + RootsOf(keys, st.c2p)),
              OrNilOf("layout", Cycles.CyclicEach(st.c2p, keys, Cycles.Walk({}, [])).msgs))
  }

  /** `ValidateSpec` with the corrected cycle search `Cycles.VisitEach`:
    * the same outcome but for the error of a layout whose nodes all
    * pass. */
  function ValidateSpecCorrected(ifs: map<string, Interface>, roots: seq<string>): Outcome {
    var r := ValidateSpec(ifs, roots);
    if Checked(ifs).msgs != [] then r
    else r.(err := OrNilOf("layout", Cycles.VisitEach(r.c2p, SortedSet(r.ifs.Keys), Cycles.Walk({}, [])).msgs))
  }

  lemma ValidateSpecFails(ifs: map<string, Interface>, roots: seq<string>)
    requires Checked(ifs).msgs != []
    ensures ValidateSpec(ifs, roots)
      == Outcome(Checked(ifs).ifs, Checked(ifs).c2p, roots, Accumulated("layout", Checked(ifs).msgs))
  {
  }

  lemma ValidateSpecPasses(ifs: map<string, Interface>, roots: seq<string>)
    requires Checked(ifs).msgs == []
    ensures var st := Checked(ifs);
      var cleared := ClearNetworks(st.ifs, SortedSet(ifs.Keys));
      var keys := SortedSet(cleared.Keys);
      ValidateSpec(ifs, roots) == Outcome(cleared, st.c2p, Sort(roots + RootsOf(keys, st.c2p)),
        OrNilOf("layout", Cycles.CyclicEach(st.c2p, keys, Cycles.Walk({}, [])).msgs))
  {
  }

  /** The graph left behind is well formed. A layout passes only if no
    * node raised a message, and then every node satisfies `NodeOk`. */
  lemma ValidateChecksNodes(ifs: map<string, Interface>, roots: seq<string>)
    ensures WellFormed(ValidateSpec(ifs, roots).c2p)
    ensures ValidateSpec(ifs, roots).err == NoError ==>
      Checked(ifs).msgs == [] && AllNodesOk(Checked(ifs).ifs, SortedSet(ifs.Keys))
  {
    CheckNodesShape(Nodes(ifs, map[], []), SortedSet(ifs.Keys));
    CheckNodesOk(Nodes(ifs, map[], []), SortedSet(ifs.Keys));
  }

  /** Checking the nodes keeps each interface under its own name. */
  lemma CheckedNamesMatchKeys(ifs: map<string, Interface>)
    requires NamesMatchKeys(ifs)
    ensures NamesMatchKeys(Checked(ifs).ifs)
  {
    CheckNodesShape(Nodes(ifs, map[], []), SortedSet(ifs.Keys));
  }

  /** With each interface stored under its own name and every node
    * passing, the names are kept and the network block
    * of exactly the members of bonds and bridges is stripped. */
  lemma ValidateClearsMembers(ifs: map<string, Interface>, roots: seq<string>)
    requires NamesMatchKeys(ifs) && Checked(ifs).msgs == []
    ensures var r := ValidateSpec(ifs, roots);
      && r.ifs.Keys == ifs.Keys
      && (forall x :: x in ifs ==>
            r.ifs[x] == Checked(ifs).ifs[x].(network :=
              if exists k :: k in ifs && Owns(Checked(ifs).ifs, k, x) then None else Checked(ifs).ifs[x].network))
  {
    var keys := SortedSet(ifs.Keys);
    CheckedNamesMatchKeys(ifs);
    var st := Checked(ifs);
    ClearNetworksFacts(st.ifs, keys);
    SameOwners(ifs, keys, st.ifs);
  }

  /** Owners found among `keys` are owners found among the names of `ifs`
    * when both list the same names. */
  lemma SameOwners(ifs: map<string, Interface>, keys: seq<string>, checked: map<string, Interface>)
    requires forall k :: k in keys <==> k in ifs
    ensures forall x :: x in checked ==>
      (exists k :: k in keys && Owns(checked, k, x)) == (exists k :: k in ifs && Owns(checked, k, x))
  {
    forall x | x in checked
      ensures (exists k :: k in keys && Owns(checked, k, x)) == (exists k :: k in ifs && Owns(checked, k, x))
    {
      if exists k :: k in ifs && Owns(checked, k, x) {
        var k :| k in ifs && Owns(checked, k, x);
        assert k in keys;
      }
    }
  }

  /** A layout whose nodes all pass fails only when its graph has a
    * cycle, so an acyclic one passes. The converse does not hold of the
    * search as written (`Cycles.MissedCycle`). */
  lemma ValidateFindsCycles(ifs: map<string, Interface>, roots: seq<string>)
    requires Checked(ifs).msgs == []
    ensures var r := ValidateSpec(ifs, roots);
      r.err != NoError ==> Cycles.HasCycle(r.c2p)
  {
    var st := Checked(ifs);
    var cleared := ClearNetworks(st.ifs, SortedSet(ifs.Keys));
    Cycles.CyclicEachSound(st.c2p, SortedSet(cleared.Keys), Cycles.Walk({}, []));
  }

  /** With each interface stored under its own name and every node
    * passing, the corrected `Validate` passes exactly when its graph has
    * no cycle. */
  lemma ValidateCorrectedFindsCycles(ifs: map<string, Interface>, roots: seq<string>)
    requires NamesMatchKeys(ifs) && Checked(ifs).msgs == []
    ensures var r := ValidateSpecCorrected(ifs, roots);
      r.err == NoError <==> !Cycles.HasCycle(r.c2p)
  {
    var keys := SortedSet(ifs.Keys);
    CheckNodesShape(Nodes(ifs, map[], []), keys);
    var st := Checked(ifs);
    ClearNetworksFacts(st.ifs, keys);
    var cleared := ClearNetworks(st.ifs, keys);
    Cycles.VisitEachIff(st.c2p, SortedSet(cleared.Keys));
  }

  /** Starting from no roots, a layout whose nodes all pass ends with its
    * roots sorted and exactly the interfaces that are nobody's member. */
  lemma ValidateRoots(ifs: map<string, Interface>)
    requires Checked(ifs).msgs == []
    ensures var r := ValidateSpec(ifs, []);
      Sorted(r.roots) && forall x :: x in r.roots <==> x in r.ifs && x !in r.c2p
  {
    var st := Checked(ifs);
    var cleared := ClearNetworks(st.ifs, SortedSet(ifs.Keys));
    var keys := SortedSet(cleared.Keys);
    assert [] + RootsOf(keys, st.c2p) == RootsOf(keys, st.c2p);
    SortedRoots(keys, st.c2p);
  }
}
