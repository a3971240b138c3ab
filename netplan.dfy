// The netplan reader's `Compile` (netplan/netplan.go): every declaration
// of a netplan document is parsed, ethernets are resolved against the NICs
// present, every interface is added to a fresh layout (the first
// definition of a name wins), member lists naming an ethernet declaration
// are rewritten to the NICs it resolved to, and the layout is validated.
// The document is an input: reading and decoding the YAML file is not part
// of this model.
module Netplan {

  import opened Wrappers
  import opened Order
  import opened Net
  import opened Values
  import opened Coerce
  import opened Errs
  import opened LayoutRules
  import opened Phys
  import opened NetplanParse
  import opened Layouts
  import Cycles

  /** The `network` section of a netplan document: the version and the
    * declarations of each kind by name. Wifis are refused when the section
    * is present at all, so only their presence is kept. */
  datatype Doc = Doc(
    version: int,
    ethernets: map<string, Value>,
    bridges: map<string, Value>,
    bonds: map<string, Value>,
    vlans: map<string, Value>,
    wifis: Option<map<string, Value>>)

  /** What `Compile` has built so far: the layout's interfaces, the NIC
    * names each ethernet declaration resolved to (`matchChildren`), and
    * the messages recorded in its `Err`. */
  datatype Build = Build(ifs: map<string, Interface>, children: map<string, seq<string>>, msgs: seq<string>)

  /** `getNames`: the names of a group of declarations, collected in the
    * map's iteration order (any order) and then sorted. */
  method GetNames(m: map<string, Value>) returns (res: seq<string>)
    ensures res == SortedSet(m.Keys)
  {
    res := [];
    var left := m.Keys;
    while left != {}
      invariant left <= m.Keys
      invariant multiset(res) == multiset(m.Keys - left)
      decreases left
    {
      var k :| k in left;
      assert m.Keys - (left - {k}) == (m.Keys - left) + {k};
      assert k !in m.Keys - left;
      res := res + [k];
      left := left - {k};
    }
    assert m.Keys - left == m.Keys;
    res := Sort(res);
    SortedOfSet(res, m.Keys);
  }

  /** The messages recorded before any declaration is read: the version
    * must be 2, and a wifis section is refused. Nothing is recorded
    * exactly when both hold. */
  function Prelude(doc: Doc): (r: seq<string>)
    ensures r == [] <==> doc.version == 2 && doc.wifis.None?
  {
    ValidateInt("version", Int(doc.version), 2, 2).msgs
      + (if doc.wifis.Some? then ["Wifi interfaces not supported"] else [])
  }

  /** `util.Interface{}`, the template NICs named as members are bound to. */
  function Zero(): Interface {
    Blank(Physical)
  }

  /** Every entry of `a` is still in `b`, unchanged. */
  predicate Keeps(a: map<string, Interface>, b: map<string, Interface>) {
    forall x :: x in a ==> x in b && b[x] == a[x]
  }

  /** The inner loop of `addOther`: each NIC is added under its own name,
    * with that name as its match id, unless the name is taken. */
  function AddSubs(ifs: map<string, Interface>, subs: seq<Interface>): (r: map<string, Interface>)
    ensures Keeps(ifs, r)
    ensures forall x :: x in subs ==> x.name in r
    ensures NamesMatchKeys(ifs) ==> NamesMatchKeys(r)
    decreases |subs|
  {
    if subs == [] then ifs
    else
      var prev := AddSubs(ifs, subs[..|subs| - 1]);
      var n := subs[|subs| - 1].(matchId := subs[|subs| - 1].name);
      assert forall x :: x in subs ==> x in subs[..|subs| - 1] || x == subs[|subs| - 1];
      if n.name in prev then prev else prev[n.name := n]
  }

  /** The member loop of `addOther`: each member name is matched as a glob
    * against the NICs present and the NICs it selects are added. */
  function AddMembers(ifs: map<string, Interface>, names: seq<string>, phys: seq<Phy>): (r: map<string, Interface>)
    ensures Keeps(ifs, r)
    ensures NamesMatchKeys(ifs) ==> NamesMatchKeys(r)
    decreases |names|
  {
    if names == [] then ifs
    else
      var prev := AddMembers(ifs, names[..|names| - 1], phys);
      AddSubs(prev, Matched(Match(names[|names| - 1], [], ""), Zero(), phys))
  }

  function DuplicateMsg(name: string, other: Interface): string {
    "Duplicate network definition! " + name + " also defined in " + KindName(other.kind)
  }

  /** `addOther(name, matchID, intf)`: the interface is stored under `name`
    * unless the name is taken, in which case the earlier definition stays
    * and the duplicate is reported; either way the NICs its members name
    * are added. */
  function AddOther(b: Build, name: string, matchId: string, intf: Interface, phys: seq<Phy>): (r: Build)
    ensures Keeps(b.ifs, r.ifs) && name in r.ifs && r.children == b.children
    ensures name in b.ifs ==> r.msgs == b.msgs + [DuplicateMsg(name, b.ifs[name])]
    ensures name !in b.ifs ==> r.msgs == b.msgs && r.ifs[name] == intf.(name := name, matchId := matchId)
    ensures NamesMatchKeys(b.ifs) ==> NamesMatchKeys(r.ifs)
  {
    var named := intf.(name := name, matchId := matchId);
    if name in b.ifs then
      Build(AddMembers(b.ifs, named.members, phys), b.children, b.msgs + [DuplicateMsg(name, b.ifs[name])])
    else
      Build(AddMembers(b.ifs[name := named], named.members, phys), b.children, b.msgs)
  }

  /** The NICs an ethernet declaration resolved to, each added under its
    * own name with the declaration's key as match id. */
  function EtherAdds(b: Build, k: string, realInts: seq<Interface>, phys: seq<Phy>): (r: Build)
    ensures Keeps(b.ifs, r.ifs) && r.children == b.children && b.msgs <= r.msgs
    ensures forall x :: x in realInts ==> x.name in r.ifs
    ensures NamesMatchKeys(b.ifs) ==> NamesMatchKeys(r.ifs)
    decreases |realInts|
  {
    if realInts == [] then b
    else
      var prev := EtherAdds(b, k, realInts[..|realInts| - 1], phys);
      var last := realInts[|realInts| - 1];
      assert forall x :: x in realInts ==> x in realInts[..|realInts| - 1] || x == last;
      AddOther(prev, last.name, k, last, phys)
  }

  /** One more resolved NIC is one more `AddOther`. */
  lemma EtherAddsStep(b: Build, k: string, realInts: seq<Interface>, x: nat, phys: seq<Phy>)
    requires x < |realInts|
    ensures EtherAdds(b, k, realInts[..x + 1], phys)
      == AddOther(EtherAdds(b, k, realInts[..x], phys), realInts[x].name, k, realInts[x], phys)
  {
    assert realInts[..x + 1][..x] == realInts[..x];
  }

  function NamesOf(intfs: seq<Interface>): (r: seq<string>)
    ensures |r| == |intfs| && forall i :: 0 <= i < |intfs| ==> r[i] == intfs[i].name
  {
    seq(|intfs|, i requires 0 <= i < |intfs| => intfs[i].name)
  }

  lemma NamesOfStep(intfs: seq<Interface>, x: nat)
    requires x < |intfs|
    ensures NamesOf(intfs[..x + 1]) == NamesOf(intfs[..x]) + [intfs[x].name]
  {
  }

  function UnresolvedMsg(k: string): string {
    "Ethernet interface " + k + " does not resolve to any interfaces"
  }

  /** The NICs ethernet declaration `k` selects, bound to its template. */
  function Resolved(p: Ether, k: string, phys: seq<Phy>): seq<Interface> {
    Matched(EffectiveMatch(p.phyMatch, k), p.intf.(matchId := k), phys)
  }

  /** One ethernet declaration: parse it (a refused one adds nothing), then
    * resolve it against the NICs present; one that selects none is
    * reported, otherwise each NIC is added and the declaration's key
    * remembered as standing for their names. */
  function EtherStep(b: Build, k: string, p: Parsed<Ether>, phys: seq<Phy>): (r: Build)
    ensures Keeps(b.ifs, r.ifs) && b.msgs <= r.msgs
    ensures p.ok ==> k in r.children || UnresolvedMsg(k) in r.msgs
    ensures forall x :: x in b.children && x != k ==> x in r.children && r.children[x] == b.children[x]
    ensures NamesMatchKeys(b.ifs) ==> NamesMatchKeys(r.ifs)
  {
    var b1 := b.(msgs := b.msgs + p.msgs);
    if !p.ok then b1
    else
      var realInts := Resolved(p.value, k, phys);
      if realInts == [] then b1.(msgs := b1.msgs + [UnresolvedMsg(k)])
      else
        var b2 := EtherAdds(b1, k, realInts, phys);
        b2.(children := b2.children[k := NamesOf(realInts)])
  }

  /** The ethernet loop over `keys`, in order. */
  function Ethernets(b: Build, parse: Value -> Parsed<Ether>, decls: map<string, Value>, keys: seq<string>, phys: seq<Phy>): (r: Build)
    requires forall k :: k in keys ==> k in decls
    ensures Keeps(b.ifs, r.ifs) && b.msgs <= r.msgs
    ensures NamesMatchKeys(b.ifs) ==> NamesMatchKeys(r.ifs)
    decreases |keys|
  {
    if keys == [] then b
    else
      var k := keys[|keys| - 1];
      EtherStep(Ethernets(b, parse, decls, keys[..|keys| - 1], phys), k, parse(decls[k]), phys)
  }

  /** One bond, bridge or vlan declaration: parsed, and added under its
    * own key when it is accepted. */
  function OtherStep(b: Build, k: string, p: Parsed<Interface>, phys: seq<Phy>): (r: Build)
    ensures Keeps(b.ifs, r.ifs) && r.children == b.children && b.msgs <= r.msgs
    ensures p.ok ==> k in r.ifs
    ensures NamesMatchKeys(b.ifs) ==> NamesMatchKeys(r.ifs)
  {
    var b1 := b.(msgs := b.msgs + p.msgs);
    if p.ok then AddOther(b1, k, k, p.value, phys) else b1
  }

  /** The loop over the declarations of one kind, in the order of `keys`. */
  function Others(b: Build, parse: Value -> Parsed<Interface>, decls: map<string, Value>, keys: seq<string>, phys: seq<Phy>): (r: Build)
    requires forall k :: k in keys ==> k in decls
    ensures Keeps(b.ifs, r.ifs) && r.children == b.children && b.msgs <= r.msgs
    ensures NamesMatchKeys(b.ifs) ==> NamesMatchKeys(r.ifs)
    decreases |keys|
  {
    if keys == [] then b
    else
      var k := keys[|keys| - 1];
      OtherStep(Others(b, parse, decls, keys[..|keys| - 1], phys), k, parse(decls[k]), phys)
  }

  /** An accepted ethernet declaration among `keys` is resolved to NIC names
    * or reported as resolving to none. */
  lemma {:induction false} EthernetsTrace(b: Build, parse: Value -> Parsed<Ether>, decls: map<string, Value>, keys: seq<string>, phys: seq<Phy>, k: string)
    requires forall x :: x in keys ==> x in decls
    requires k in keys && parse(decls[k]).ok
    ensures var r := Ethernets(b, parse, decls, keys, phys);
      k in r.children || UnresolvedMsg(k) in r.msgs
    decreases |keys|
  {
    var last := keys[|keys| - 1];
    var init := keys[..|keys| - 1];
    if last != k {
      assert k in init;
      EthernetsTrace(b, parse, decls, init, phys, k);
    }
  }

  /** An accepted bond, bridge or vlan declaration among `keys` is in the
    * layout under its own key. */
  lemma {:induction false} OthersPresent(b: Build, parse: Value -> Parsed<Interface>, decls: map<string, Value>, keys: seq<string>, phys: seq<Phy>, k: string)
    requires forall x :: x in keys ==> x in decls
    requires k in keys && parse(decls[k]).ok
    ensures k in Others(b, parse, decls, keys, phys).ifs
    decreases |keys|
  {
    var last := keys[|keys| - 1];
    var init := keys[..|keys| - 1];
    if last != k {
      assert k in init;
      OthersPresent(b, parse, decls, init, phys, k);
    }
  }

  /** The four declaration loops of `Compile` from `b`, with the
    * validators `ps`: ethernets, bonds, bridges and vlans, each group in
    * name order. */
  function ReadAll(b: Build, ps: Parsers, doc: Doc, phys: seq<Phy>): (r: Build)
    ensures Keeps(b.ifs, r.ifs) && b.msgs <= r.msgs
    ensures NamesMatchKeys(b.ifs) ==> NamesMatchKeys(r.ifs)
  {
    var b1 := AllEthernets(b, ps.ethernet, doc.ethernets, phys);
    var b2 := AllOthers(b1, ps.bond, doc.bonds, phys);
    var b3 := AllOthers(b2, ps.bridge, doc.bridges, phys);
    var b4 := AllOthers(b3, ps.vlan, doc.vlans, phys);
    KeepsChain(b, b1, b2, b3, b4);
    b4
  }

  /** Four steps that each keep the entries, the earlier messages and
    * matching names keep them all the way. */
  lemma KeepsChain(b0: Build, b1: Build, b2: Build, b3: Build, b4: Build)
    requires Keeps(b0.ifs, b1.ifs) && Keeps(b1.ifs, b2.ifs) && Keeps(b2.ifs, b3.ifs) && Keeps(b3.ifs, b4.ifs)
    requires b0.msgs <= b1.msgs <= b2.msgs <= b3.msgs <= b4.msgs
    requires NamesMatchKeys(b0.ifs) ==> NamesMatchKeys(b1.ifs)
    requires NamesMatchKeys(b1.ifs) ==> NamesMatchKeys(b2.ifs)
    requires NamesMatchKeys(b2.ifs) ==> NamesMatchKeys(b3.ifs)
    requires NamesMatchKeys(b3.ifs) ==> NamesMatchKeys(b4.ifs)
    ensures Keeps(b0.ifs, b4.ifs) && b0.msgs <= b4.msgs
    ensures NamesMatchKeys(b0.ifs) ==> NamesMatchKeys(b4.ifs)
  {
  }

  /** The ethernet loop over every declaration, in name order. */
  function AllEthernets(b: Build, parse: Value -> Parsed<Ether>, decls: map<string, Value>, phys: seq<Phy>): (r: Build)
    ensures Keeps(b.ifs, r.ifs) && b.msgs <= r.msgs
    ensures NamesMatchKeys(b.ifs) ==> NamesMatchKeys(r.ifs)
  {
    Ethernets(b, parse, decls, SortedSet(decls.Keys), phys)
  }

  /** The loop over every declaration of one kind, in name order. */
  function AllOthers(b: Build, parse: Value -> Parsed<Interface>, decls: map<string, Value>, phys: seq<Phy>): (r: Build)
    ensures Keeps(b.ifs, r.ifs) && r.children == b.children && b.msgs <= r.msgs
    ensures NamesMatchKeys(b.ifs) ==> NamesMatchKeys(r.ifs)
  {
    Others(b, parse, decls, SortedSet(decls.Keys), phys)
  }

  /** Everything `Compile` builds before rewriting members: the prelude's
    * messages, then the four declaration loops into an empty layout. */
  function Built(lib: NetLib, doc: Doc, phys: seq<Phy>): (r: Build)
    ensures Prelude(doc) <= r.msgs
    ensures NamesMatchKeys(r.ifs)
  {
    ReadAll(Build(map[], map[], Prelude(doc)), Validators(lib), doc, phys)
  }

  /** Member names with every ethernet declaration key replaced by the NIC
    * names it resolved to, in order. */
  function Expand(children: map<string, seq<string>>, s: seq<string>): seq<string>
    decreases |s|
  {
    if s == [] then []
    else
      var v := s[|s| - 1];
      Expand(children, s[..|s| - 1]) + (if v in children then children[v] else [v])
  }

  /** `realSubs`: the expanded member names, sorted. */
  function RealSubs(children: map<string, seq<string>>, s: seq<string>): (r: seq<string>)
    ensures Sorted(r) && multiset(r) == multiset(Expand(children, s))
  {
    Sort(Expand(children, s))
  }

  /** The rewriting loop: every interface's members replaced by their real
    * names. */
  function Rewritten(b: Build): (r: map<string, Interface>)
    ensures r.Keys == b.ifs.Keys
    ensures forall k :: k in r ==> r[k] == Rewrite(b.children, b.ifs[k])
  {
    map k | k in b.ifs :: Rewrite(b.children, b.ifs[k])
  }

  /** One interface with its members replaced by their real names. */
  function Rewrite(children: map<string, seq<string>>, i: Interface): (r: Interface)
    ensures r.(members := i.members) == i
  {
    i.(members := RealSubs(children, i.members))
  }

  /** `Compile`: the validated layout (its interfaces, graph and roots)
    * and the error, which carries the reader's own messages followed by
    * the layout's. */
  function CompileSpec(lib: NetLib, doc: Doc, phys: seq<Phy>): (r: Outcome)
    ensures r.err == NoError ==> Prelude(doc) == [] && Built(lib, doc, phys).msgs == []
  {
    var b := Built(lib, doc, phys);
    assert Prelude(doc) != [] ==> b.msgs != [] by {
      if Prelude(doc) != [] {
        assert Prelude(doc)[0] == b.msgs[0];
      }
    }
    Finish(b)
  }

  /** What `Compile` returns once the declarations are read into `b`: the
    * rewritten layout validated, and the reader's messages followed by the
    * layout's. */
  function Finish(b: Build): (r: Outcome)
    ensures r.err == NoError <==> b.msgs == [] && ValidateSpec(Rewritten(b), []).err == NoError
    ensures r.err != NoError ==> r.err.Accumulated? && r.err.prefix == "netplan" && b.msgs <= r.err.msgs
  {
    var o := ValidateSpec(Rewritten(b), []);
    assert Merged(o.err) == [] <==> o.err == NoError;
    Outcome(o.ifs, o.c2p, o.roots, OrNilOf("netplan", b.msgs + Merged(o.err)))
  }

  /** An ethernet declaration the parser refuses adds only its messages;
    * one that selects no NIC adds the "does not resolve" report and
    * nothing else; one that selects NICs records their names for its key,
    * and every one of them is then a layout entry. */
  lemma EtherStepCases(b: Build, k: string, p: Parsed<Ether>, phys: seq<Phy>)
    ensures var r := EtherStep(b, k, p, phys);
      && (!p.ok ==> r == b.(msgs := b.msgs + p.msgs))
      && (p.ok && Resolved(p.value, k, phys) == [] ==>
            r == b.(msgs := b.msgs + p.msgs + [UnresolvedMsg(k)]))
      && (p.ok && Resolved(p.value, k, phys) != [] ==>
            && k in r.children
            && r.children[k] == NamesOf(Resolved(p.value, k, phys))
            && (forall n :: n in r.children[k] ==> n in r.ifs))
  {
    if p.ok && Resolved(p.value, k, phys) != [] {
      var realInts := Resolved(p.value, k, phys);
      var r := EtherStep(b, k, p, phys);
      forall n | n in r.children[k] ensures n in r.ifs {
        var i :| 0 <= i < |realInts| && NamesOf(realInts)[i] == n;
        assert realInts[i] in realInts;
      }
    }
  }

  /** Every NIC a member name selects is a layout entry afterwards. */
  lemma {:induction false} AddMembersComplete(ifs: map<string, Interface>, names: seq<string>, phys: seq<Phy>)
    ensures forall n, p :: n in names && p in phys && Selects(Match(n, [], ""), p) ==>
      p.name in AddMembers(ifs, names, phys)
    decreases |names|
  {
    if names != [] {
      var init := names[..|names| - 1];
      var last := names[|names| - 1];
      AddMembersComplete(ifs, init, phys);
      var subs := Matched(Match(last, [], ""), Zero(), phys);
      MatchedComplete(Match(last, [], ""), Zero(), phys);
      forall n, p | n in names && p in phys && Selects(Match(n, [], ""), p)
        ensures p.name in AddMembers(ifs, names, phys)
      {
        if n == last {
          assert Bind(Zero(), p) in subs;
        } else {
          assert n in init;
        }
      }
    }
  }

  /** What the expansion holds: for each member name, the NIC names its
    * ethernet declaration resolved to, or the name itself. */
  lemma {:induction false} ExpandMembers(children: map<string, seq<string>>, s: seq<string>)
    ensures forall x :: x in Expand(children, s) <==>
      exists v :: v in s && ((v in children && x in children[v]) || (v !in children && x == v))
    decreases |s|
  {
    if s != [] {
      var init := s[..|s| - 1];
      var v := s[|s| - 1];
      ExpandMembers(children, init);
      assert s == init + [v];
      forall x ensures x in Expand(children, s) <==>
        exists w :: w in s && ((w in children && x in children[w]) || (w !in children && x == w))
      {
        if exists w :: w in s && ((w in children && x in children[w]) || (w !in children && x == w)) {
          var w :| w in s && ((w in children && x in children[w]) || (w !in children && x == w));
          if w != v {
            assert w in init;
          }
        }
      }
    }
  }

  /** `realSubs` sorts the expanded member names. */
  lemma RealSubsMeaning(children: map<string, seq<string>>, s: seq<string>)
    ensures Sorted(RealSubs(children, s))
    ensures forall x :: x in RealSubs(children, s) <==>
      exists v :: v in s && ((v in children && x in children[v]) || (v !in children && x == v))
  {
    ExpandMembers(children, s);
    var e := Expand(children, s);
    forall x ensures x in RealSubs(children, s) <==> x in e {
      assert x in RealSubs(children, s) <==> x in multiset(RealSubs(children, s));
      assert x in e <==> x in multiset(e);
    }
  }

  /** A document whose version is not 2, or which has a wifis section, is
    * refused whatever else it holds. */
  lemma CompileRefusesHeader(lib: NetLib, doc: Doc, phys: seq<Phy>)
    requires doc.version != 2 || doc.wifis.Some?
    ensures CompileSpec(lib, doc, phys).err != NoError
  {
    var b := Built(lib, doc, phys);
    assert Prelude(doc) != [];
    assert b.msgs != [] by {
      assert Prelude(doc) <= b.msgs;
    }
    FinishReports(b);
  }

  /** A reader message is never lost: it makes the result an error. */
  lemma FinishReports(b: Build)
    requires b.msgs != []
    ensures Finish(b).err != NoError
  {
    assert (b.msgs + Merged(ValidateSpec(Rewritten(b), []).err))[0] == b.msgs[0];
  }

  /** The interfaces `Compile` hands to the layout are each stored under
    * their own name. */
  lemma RewrittenNamesMatchKeys(b: Build)
    requires NamesMatchKeys(b.ifs)
    ensures NamesMatchKeys(Rewritten(b))
  {
    forall k | k in Rewritten(b) ensures Rewritten(b)[k].name == k {
      assert Rewritten(b)[k].name == b.ifs[k].name;
    }
  }

  /** With every node of the rewritten layout passing its checks, a
    * document compiles without error only when the reader recorded no
    * message, and always does when moreover the layout's graph has no
    * cycle. A cycle the search as written misses (`Cycles.MissedCycle`)
    * lets a cyclic layout through. */
  lemma CompileFindsCycles(b: Build)
    requires LayoutRules.Checked(Rewritten(b)).msgs == []
    ensures var r := Finish(b);
      && (r.err == NoError ==> b.msgs == [])
      && (b.msgs == [] && !Cycles.HasCycle(r.c2p) ==> r.err == NoError)
  {
    var ifs := Rewritten(b);
    ValidateFindsCycles(ifs, []);
    var o := ValidateSpec(ifs, []);
    assert Merged(o.err) == [] <==> o.err == NoError;
    if b.msgs != [] {
      FinishReports(b);
    }
  }

  /** `Finish` with the corrected cycle search of
    * `LayoutRules.ValidateSpecCorrected`. */
  function FinishCorrected(b: Build): Outcome {
    var o := ValidateSpecCorrected(Rewritten(b), []);
    Outcome(o.ifs, o.c2p, o.roots, OrNilOf("netplan", b.msgs + Merged(o.err)))
  }

  /** With the corrected cycle search and every node passing, a document
    * compiles without error exactly when the reader recorded no message
    * and the layout's graph has no cycle. */
  lemma CompileCorrectedFindsCycles(b: Build)
    requires NamesMatchKeys(b.ifs)
    requires LayoutRules.Checked(Rewritten(b)).msgs == []
    ensures var r := FinishCorrected(b);
      r.err == NoError <==> b.msgs == [] && !Cycles.HasCycle(r.c2p)
  {
    var ifs := Rewritten(b);
    RewrittenNamesMatchKeys(b);
    ValidateCorrectedFindsCycles(ifs, []);
    var o := ValidateSpecCorrected(ifs, []);
    assert Merged(o.err) == [] <==> o.err == NoError;
  }

  /** With every node of the rewritten layout passing its checks, the
    * roots `Compile` returns are sorted and are exactly the interfaces
    * nothing is built on. */
  lemma CompileRoots(b: Build)
    requires LayoutRules.Checked(Rewritten(b)).msgs == []
    ensures var r := Finish(b);
      Sorted(r.roots) && forall x :: x in r.roots <==> x in r.ifs && x !in r.c2p
  {
    ValidateRoots(Rewritten(b));
  }

  /** An ethernet declaration its validator accepts is resolved to NIC
    * names or reported as resolving to none. */
  lemma EthernetDeclTraced(b: Build, ps: Parsers, doc: Doc, phys: seq<Phy>, k: string)
    requires k in doc.ethernets && ps.ethernet(doc.ethernets[k]).ok
    ensures var r := ReadAll(b, ps, doc, phys);
      k in r.children || UnresolvedMsg(k) in r.msgs
  {
    var b1 := AllEthernets(b, ps.ethernet, doc.ethernets, phys);
    var b2 := AllOthers(b1, ps.bond, doc.bonds, phys);
    var b3 := AllOthers(b2, ps.bridge, doc.bridges, phys);
    var r := AllOthers(b3, ps.vlan, doc.vlans, phys);
    AllEthernetsTrace(b, ps.ethernet, doc.ethernets, phys, k);
    if UnresolvedMsg(k) in b1.msgs {
      StillReported(UnresolvedMsg(k), b1.msgs, b2.msgs, b3.msgs, r.msgs);
    }
  }

  /** A bond, bridge or vlan declaration its validator accepts is a layout
    * entry under its own key (its own definition, or an earlier one of the
    * same name). */
  lemma OtherDeclPresent(b: Build, ps: Parsers, doc: Doc, phys: seq<Phy>, k: string)
    requires || (k in doc.bonds && ps.bond(doc.bonds[k]).ok)
             || (k in doc.bridges && ps.bridge(doc.bridges[k]).ok)
             || (k in doc.vlans && ps.vlan(doc.vlans[k]).ok)
    ensures k in ReadAll(b, ps, doc, phys).ifs
  {
    var b1 := AllEthernets(b, ps.ethernet, doc.ethernets, phys);
    var b2 := AllOthers(b1, ps.bond, doc.bonds, phys);
    var b3 := AllOthers(b2, ps.bridge, doc.bridges, phys);
    if k in doc.bonds && ps.bond(doc.bonds[k]).ok {
      AllOthersPresent(b1, ps.bond, doc.bonds, phys, k);
    }
    if k in doc.bridges && ps.bridge(doc.bridges[k]).ok {
      AllOthersPresent(b2, ps.bridge, doc.bridges, phys, k);
    }
    if k in doc.vlans && ps.vlan(doc.vlans[k]).ok {
      AllOthersPresent(b3, ps.vlan, doc.vlans, phys, k);
    }
  }

  /** A message stays in a log that only grows. */
  lemma StillReported(m: string, m1: seq<string>, m2: seq<string>, m3: seq<string>, m4: seq<string>)
    requires m in m1 && m1 <= m2 && m2 <= m3 && m3 <= m4
    ensures m in m4
  {
    var i :| 0 <= i < |m1| && m1[i] == m;
    assert m2[i] == m && m3[i] == m && m4[i] == m;
  }

  lemma AllEthernetsTrace(b: Build, parse: Value -> Parsed<Ether>, decls: map<string, Value>, phys: seq<Phy>, k: string)
    requires k in decls && parse(decls[k]).ok
    ensures var r := AllEthernets(b, parse, decls, phys);
      k in r.children || UnresolvedMsg(k) in r.msgs
  {
    EthernetsTrace(b, parse, decls, SortedSet(decls.Keys), phys, k);
  }

  lemma AllOthersPresent(b: Build, parse: Value -> Parsed<Interface>, decls: map<string, Value>, phys: seq<Phy>, k: string)
    requires k in decls && parse(decls[k]).ok
    ensures k in AllOthers(b, parse, decls, phys).ifs
  {
    OthersPresent(b, parse, decls, SortedSet(decls.Keys), phys, k);
  }

  // The imperative reader. Each method appends to the reader's `Err` and
  // updates the layout under construction exactly as the function it is
  // proved against says.

  /** The inner loop of `addOther`, over the NICs in `subs`. */
  method AddSubsInto(l: Layout, subs: seq<Interface>)
    modifies l
    ensures l.interfaces == AddSubs(old(l.interfaces), subs)
    ensures l.child2Parent == old(l.child2Parent) && l.roots == old(l.roots)
  {
    var x := 0;
    while x < |subs|
      invariant 0 <= x <= |subs|
      invariant l.interfaces == AddSubs(old(l.interfaces), subs[..x])
      invariant l.child2Parent == old(l.child2Parent) && l.roots == old(l.roots)
    {
      assert subs[..x + 1][..x] == subs[..x];
      var newIntf := subs[x];
      newIntf := newIntf.(matchId := newIntf.name);
      if newIntf.name !in l.interfaces {
        l.interfaces := l.interfaces[newIntf.name := newIntf];
      }
      x := x + 1;
    }
    assert subs[..x] == subs;
  }

  /** The member loop of `addOther`. */
  method AddMembersInto(l: Layout, names: seq<string>, phys: seq<Phy>)
    modifies l
    ensures l.interfaces == AddMembers(old(l.interfaces), names, phys)
    ensures l.child2Parent == old(l.child2Parent) && l.roots == old(l.roots)
  {
    var j := 0;
    while j < |names|
      invariant 0 <= j <= |names|
      invariant l.interfaces == AddMembers(old(l.interfaces), names[..j], phys)
      invariant l.child2Parent == old(l.child2Parent) && l.roots == old(l.roots)
    {
      assert names[..j + 1][..j] == names[..j];
      var subs := MatchPhys(Match(names[j], [], ""), Zero(), phys);
      AddSubsInto(l, subs);
      j := j + 1;
    }
    assert names[..j] == names;
  }

  /** The closure `addOther`. */
  method AddOtherInto(l: Layout, e: Err, children: map<string, seq<string>>, name: string, matchId: string, intf: Interface, phys: seq<Phy>)
    modifies l, e
    ensures Build(l.interfaces, children, e.msgs) == AddOther(Build(old(l.interfaces), children, old(e.msgs)), name, matchId, intf, phys)
    ensures l.child2Parent == old(l.child2Parent) && l.roots == old(l.roots) && e.prefix == old(e.prefix)
  {
    var named := intf.(name := name, matchId := matchId);
    if name in l.interfaces {
      e.Errorf(DuplicateMsg(name, l.interfaces[name]));
    } else {
      l.interfaces := l.interfaces[name := named];
    }
    AddMembersInto(l, named.members, phys);
  }

  /** The loop over the NICs an ethernet declaration resolved to; it
    * returns their names. */
  method EtherAddsInto(l: Layout, e: Err, children: map<string, seq<string>>, k: string, realInts: seq<Interface>, phys: seq<Phy>)
    returns (intNames: seq<string>)
    modifies l, e
    ensures intNames == NamesOf(realInts)
    ensures Build(l.interfaces, children, e.msgs) == EtherAdds(Build(old(l.interfaces), children, old(e.msgs)), k, realInts, phys)
    ensures l.child2Parent == old(l.child2Parent) && l.roots == old(l.roots) && e.prefix == old(e.prefix)
  {
    ghost var b0 := Build(l.interfaces, children, e.msgs);
    intNames := [];
    var x := 0;
    while x < |realInts|
      invariant 0 <= x <= |realInts|
      invariant intNames == NamesOf(realInts[..x])
      invariant Build(l.interfaces, children, e.msgs) == EtherAdds(b0, k, realInts[..x], phys)
      invariant l.child2Parent == old(l.child2Parent) && l.roots == old(l.roots) && e.prefix == old(e.prefix)
    {
      EtherAddsStep(b0, k, realInts, x, phys);
      NamesOfStep(realInts, x);
      var realInt := realInts[x];
      intNames := intNames + [realInt.name];
      AddOtherInto(l, e, children, realInt.name, k, realInt, phys);
      x := x + 1;
    }
    assert realInts[..x] == realInts;
  }

  /** The body of the ethernet loop for declaration `k`, which `ethernet()`
    * parsed into `p`. */
  method EtherInto(l: Layout, e: Err, children: map<string, seq<string>>, k: string, p: Parsed<Ether>, phys: seq<Phy>)
    returns (children': map<string, seq<string>>)
    modifies l, e
    ensures Build(l.interfaces, children', e.msgs) == EtherStep(Build(old(l.interfaces), children, old(e.msgs)), k, p, phys)
    ensures l.child2Parent == old(l.child2Parent) && l.roots == old(l.roots) && e.prefix == old(e.prefix)
  {
    children' := children;
    ErrorfEach(e, p.msgs);
    if !p.ok {
      return;
    }
    var intf := p.value;
    intf := intf.(intf := intf.intf.(matchId := k));
    var realInts := MatchPhys(EffectiveMatch(intf.phyMatch, intf.intf.matchId), intf.intf, phys);
    if |realInts| == 0 {
      e.Errorf(UnresolvedMsg(k));
      return;
    }
    var intNames := EtherAddsInto(l, e, children, k, realInts, phys);
    children' := children[k := intNames];
  }

  /** The ethernet loop over `keys`; it returns `matchChildren`. */
  method EthernetsInto(parse: Value -> Parsed<Ether>, l: Layout, e: Err, children: map<string, seq<string>>, decls: map<string, Value>, keys: seq<string>, phys: seq<Phy>)
    returns (children': map<string, seq<string>>)
    requires forall k :: k in keys ==> k in decls
    modifies l, e
    ensures Build(l.interfaces, children', e.msgs) == Ethernets(Build(old(l.interfaces), children, old(e.msgs)), parse, decls, keys, phys)
    ensures l.child2Parent == old(l.child2Parent) && l.roots == old(l.roots) && e.prefix == old(e.prefix)
  {
    ghost var b0 := Build(l.interfaces, children, e.msgs);
    children' := children;
    var j := 0;
    while j < |keys|
      invariant 0 <= j <= |keys|
      invariant Build(l.interfaces, children', e.msgs) == Ethernets(b0, parse, decls, keys[..j], phys)
      invariant l.child2Parent == old(l.child2Parent) && l.roots == old(l.roots) && e.prefix == old(e.prefix)
    {
      assert keys[..j + 1][..j] == keys[..j];
      var p := parse(decls[keys[j]]);
      children' := EtherInto(l, e, children', keys[j], p, phys);
      j := j + 1;
    }
    assert keys[..j] == keys;
  }

  /** The loop over the bonds, bridges or vlans named by `keys`. */
  method OthersInto(parse: Value -> Parsed<Interface>, l: Layout, e: Err, children: map<string, seq<string>>, decls: map<string, Value>, keys: seq<string>, phys: seq<Phy>)
    requires forall k :: k in keys ==> k in decls
    modifies l, e
    ensures Build(l.interfaces, children, e.msgs) == Others(Build(old(l.interfaces), children, old(e.msgs)), parse, decls, keys, phys)
    ensures l.child2Parent == old(l.child2Parent) && l.roots == old(l.roots) && e.prefix == old(e.prefix)
  {
    ghost var b0 := Build(l.interfaces, children, e.msgs);
    var j := 0;
    while j < |keys|
      invariant 0 <= j <= |keys|
      invariant Build(l.interfaces, children, e.msgs) == Others(b0, parse, decls, keys[..j], phys)
      invariant l.child2Parent == old(l.child2Parent) && l.roots == old(l.roots) && e.prefix == old(e.prefix)
    {
      assert keys[..j + 1][..j] == keys[..j];
      var p := parse(decls[keys[j]]);
      OtherInto(l, e, children, keys[j], p, phys);
      j := j + 1;
    }
    assert keys[..j] == keys;
  }

  /** The body of the loop over bonds, bridges or vlans for declaration
    * `k`, which its parser parsed into `p`. */
  method OtherInto(l: Layout, e: Err, children: map<string, seq<string>>, k: string, p: Parsed<Interface>, phys: seq<Phy>)
    modifies l, e
    ensures Build(l.interfaces, children, e.msgs) == OtherStep(Build(old(l.interfaces), children, old(e.msgs)), k, p, phys)
    ensures l.child2Parent == old(l.child2Parent) && l.roots == old(l.roots) && e.prefix == old(e.prefix)
  {
    ErrorfEach(e, p.msgs);
    if p.ok {
      AddOtherInto(l, e, children, k, k, p.value, phys);
    }
  }

  /** The closure `realSubs`. */
  method RealSubsOf(children: map<string, seq<string>>, s: seq<string>) returns (res: seq<string>)
    ensures res == RealSubs(children, s)
  {
    res := [];
    var j := 0;
    while j < |s|
      invariant 0 <= j <= |s|
      invariant res == Expand(children, s[..j])
    {
      assert s[..j + 1][..j] == s[..j];
      var v := s[j];
      if v in children {
        res := res + children[v];
      } else {
        res := res + [v];
      }
      j := j + 1;
    }
    assert s[..j] == s;
    res := Sort(res);
  }

  /** The rewriting loop over the layout's names, visited in the map's
    * iteration order (any order). */
  method RewriteAll(l: Layout, children: map<string, seq<string>>)
    modifies l
    ensures l.interfaces == Rewritten(Build(old(l.interfaces), children, []))
    ensures l.child2Parent == old(l.child2Parent) && l.roots == old(l.roots)
  {
    ghost var ifs0 := l.interfaces;
    var left := l.interfaces.Keys;
    while left != {}
      invariant left <= ifs0.Keys && l.interfaces.Keys == ifs0.Keys
      invariant forall x :: x in ifs0 ==> l.interfaces[x] == (if x in left then ifs0[x] else Rewrite(children, ifs0[x]))
      invariant l.child2Parent == old(l.child2Parent) && l.roots == old(l.roots)
      decreases left
    {
      var k :| k in left;
      var v := l.interfaces[k];
      var subs := RealSubsOf(children, v.members);
      v := v.(members := subs);
      l.interfaces := l.interfaces[k := v];
      left := left - {k};
    }
  }

  /** The checks `Compile` makes before reading any declaration. */
  method CheckHeader(e: Err, doc: Doc)
    modifies e
    ensures e.msgs == old(e.msgs) + Prelude(doc) && e.prefix == old(e.prefix)
  {
    ErrorfEach(e, ValidateInt("version", Int(doc.version), 2, 2).msgs);
    if doc.wifis.Some? {
      e.Errorf("Wifi interfaces not supported");
    }
  }

  /** The four declaration loops of `Compile`, in order; it returns
    * `matchChildren`. */
  method ReadDecls(ps: Parsers, l: Layout, e: Err, doc: Doc, phys: seq<Phy>) returns (children: map<string, seq<string>>)
    requires l.interfaces == map[] && e.msgs == Prelude(doc)
    modifies l, e
    ensures Build(l.interfaces, children, e.msgs) == ReadAll(Build(map[], map[], Prelude(doc)), ps, doc, phys)
    ensures l.child2Parent == old(l.child2Parent) && l.roots == old(l.roots) && e.prefix == old(e.prefix)
  {
    var names := GetNames(doc.ethernets);
    children := EthernetsInto(ps.ethernet, l, e, map[], doc.ethernets, names, phys);
    names := GetNames(doc.bonds);
    OthersInto(ps.bond, l, e, children, doc.bonds, names, phys);
    names := GetNames(doc.bridges);
    OthersInto(ps.bridge, l, e, children, doc.bridges, names, phys);
    names := GetNames(doc.vlans);
    OthersInto(ps.vlan, l, e, children, doc.vlans, names, phys);
  }

  /** The end of `Compile` once the declarations are read: rewrite member
    * lists, validate the layout and merge its error into the reader's. */
  method FinishInto(l: Layout, e: Err, children: map<string, seq<string>>) returns (err: ErrValue)
    requires e.prefix == "netplan" && l.roots == []
    modifies l, e
    ensures Outcome(l.interfaces, l.child2Parent, l.roots, err) == Finish(Build(old(l.interfaces), children, old(e.msgs)))
  {
    ghost var b := Build(l.interfaces, children, e.msgs);
    RewriteAll(l, children);
    assert l.interfaces == Rewritten(b);
    var lerr := l.Validate();
    e.Merge(lerr);
    err := e.OrNil();
  }

  /** `(*Netplan).Compile`: parse every declaration into a fresh layout,
    * rewrite member lists, validate the layout and merge its error. */
  method CompileWith(ps: Parsers, doc: Doc, phys: seq<Phy>) returns (l: Layout, err: ErrValue)
    ensures fresh(l)
    ensures Outcome(l.interfaces, l.child2Parent, l.roots, err) == Finish(ReadAll(Build(map[], map[], Prelude(doc)), ps, doc, phys))
  {
    var e := new Err("netplan");
    l := new Layout(map[]);
    CheckHeader(e, doc);
    var children := ReadDecls(ps, l, e, doc, phys);
    err := FinishInto(l, e, children);
  }

  /** `(*Netplan).Compile` with the program's own validators. */
  method Compile(lib: NetLib, doc: Doc, phys: seq<Phy>) returns (l: Layout, err: ErrValue)
    ensures fresh(l)
    ensures Outcome(l.interfaces, l.child2Parent, l.roots, err) == CompileSpec(lib, doc, phys)
  {
    l, err := CompileWith(Validators(lib), doc, phys);
  }
}
