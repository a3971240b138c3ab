// The intermediate layout (util/layout.go) as the object the readers
// fill in and validate: interfaces by name, the child-to-parents graph
// built while checking them, and the roots.
module Layouts {

  import opened Wrappers
  import opened Order
  import opened Errs
  import opened Layer3
  import opened LayoutRules
  import Cycles

  class Layout {
    var interfaces: map<string, Interface>
    var child2Parent: map<string, seq<string>>
    var roots: seq<string>

    constructor (interfaces: map<string, Interface>)
      ensures this.interfaces == interfaces && child2Parent == map[] && roots == []
    {
      this.interfaces := interfaces;
      child2Parent := map[];
      roots := [];
    }

    /** The inner loop of `(*Interface).validate`: `i` claims `child`,
      * whose parents were `others`. */
    method ClaimFrom(e: Err, i: Interface, child: Interface, others: seq<string>)
      modifies this, e
      ensures interfaces == old(interfaces) && roots == old(roots) && e.prefix == old(e.prefix)
      ensures Claim(child2Parent, e.msgs) == Claims(interfaces, i, child, others, Claim(old(child2Parent), old(e.msgs)))
    {
      ghost var st0 := Claim(child2Parent, e.msgs);
      var x := 0;
      while x < |others|
        invariant 0 <= x <= |others|
        invariant interfaces == old(interfaces) && roots == old(roots) && e.prefix == old(e.prefix)
        invariant Claim(child2Parent, e.msgs) == Claims(interfaces, i, child, others[..x], st0)
      {
        assert others[..x + 1][..x] == others[..x];
        ClaimOneInto(e, i, child, others[x]);
        x := x + 1;
      }
      assert others[..x] == others;
    }

    /** One parent `otherName` the child had: `i` shares the child with
      * it, or the clash is reported. */
    method ClaimOneInto(e: Err, i: Interface, child: Interface, otherName: string)
      modifies this, e
      ensures interfaces == old(interfaces) && roots == old(roots) && e.prefix == old(e.prefix)
      ensures Claim(child2Parent, e.msgs) == ClaimOne(interfaces, i, child, otherName, Claim(old(child2Parent), old(e.msgs)))
    {
      var other := Owner(interfaces, otherName);
      if MayShare(i, other) {
        child2Parent := child2Parent[child.name := Sort(Parents(child2Parent, child.name) + [i.name])];
      } else {
        e.Errorf(OwnedMsg(child, other, i));
      }
    }

    /** The body of the member loop of `(*Interface).validate`. */
    method ClaimMember(e: Err, i: Interface, name: string)
      modifies this, e
      ensures interfaces == old(interfaces) && roots == old(roots) && e.prefix == old(e.prefix)
      ensures Claim(child2Parent, e.msgs) == MemberOne(interfaces, i, name, Claim(old(child2Parent), old(e.msgs)))
    {
      if name !in interfaces {
        e.Errorf(UndefinedMsg(i, name));
        return;
      }
      var child := interfaces[name];
      if i.kind == Bond && child.kind != Physical {
        e.Errorf(NotPhysicalMsg(i, child));
      } else if i.kind == Bridge && child.kind == Bridge {
        e.Errorf(BuiltOnMsg(i, child));
      } else if i.kind == Vlan && child.kind == Vlan {
        e.Errorf(BuiltOnMsg(i, child));
      } else if name !in child2Parent {
        child2Parent := child2Parent[name := [i.name]];
      } else {
        ClaimFrom(e, i, child, child2Parent[name]);
      }
    }

    /** `(*Interface).validate` for node `k`: sorts its members in place
      * and records its claims in the graph. */
    method ValidateInterface(k: string) returns (err: ErrValue)
      requires k in interfaces
      modifies this
      ensures interfaces == Settle(old(interfaces), k) && roots == old(roots)
      ensures var cl := CheckNode(interfaces, old(child2Parent), interfaces[k]);
        child2Parent == cl.c2p && err == OrNilOf(NodePrefix(interfaces[k]), cl.msgs)
    {
      var i := interfaces[k];
      var e := new Err(NodePrefix(i));
      if i.kind == Physical {
        if |i.members| > 0 {
          e.Errorf(PhysicalMsg(i));
        }
        return e.OrNil();
      }
      NetworkInto(e, i.network);
      assert e.msgs == Merged(NetworkErr(i.network));
      i := i.(members := Sort(i.members));
      interfaces := interfaces[k := i];
      ClaimMembers(e, i, i.members);
      err := e.OrNil();
    }

    /** The network check of `(*Interface).validate`, merged into `e`. */
    method NetworkInto(e: Err, network: Option<Network>)
      modifies e
      ensures e.prefix == old(e.prefix) && e.msgs == old(e.msgs) + Merged(NetworkErr(network))
    {
      if network.Some? {
        var nerr := ValidateNetwork(network.value);
        e.Merge(nerr);
      } else {
        assert old(e.msgs) + [] == old(e.msgs);
      }
    }

    /** The member loop of `(*Interface).validate`, over `names`. */
    method ClaimMembers(e: Err, i: Interface, names: seq<string>)
      modifies this, e
      ensures interfaces == old(interfaces) && roots == old(roots) && e.prefix == old(e.prefix)
      ensures Claim(child2Parent, e.msgs) == Members(interfaces, i, names, Claim(old(child2Parent), old(e.msgs)))
    {
      ghost var st0 := Claim(child2Parent, e.msgs);
      var j := 0;
      while j < |names|
        invariant 0 <= j <= |names|
        invariant interfaces == old(interfaces) && roots == old(roots) && e.prefix == old(e.prefix)
        invariant Claim(child2Parent, e.msgs) == Members(interfaces, i, names[..j], st0)
      {
        ClaimMember(e, i, names[j]);
        assert names[..j + 1][..j] == names[..j];
        j := j + 1;
      }
      assert names[..j] == names;
    }

    /** The members of the bond or bridge `v` lose their network blocks. */
    method ClearMembers(v: Interface)
      modifies this
      ensures interfaces == ClearEach(old(interfaces), v.members)
      ensures child2Parent == old(child2Parent) && roots == old(roots)
    {
      ghost var ifs0 := interfaces;
      var idx := 0;
      while idx < |v.members|
        invariant 0 <= idx <= |v.members|
        invariant interfaces == ClearEach(ifs0, v.members[..idx])
        invariant child2Parent == old(child2Parent) && roots == old(roots)
      {
        assert v.members[..idx + 1][..idx] == v.members[..idx];
        var name := v.members[idx];
        if name in interfaces {
          var child := interfaces[name];
          interfaces := interfaces[child.name := child.(network := None)];
        }
        idx := idx + 1;
      }
      assert v.members[..idx] == v.members;
    }

    /** `cyclic` as written: walks the parents of `intf` depth first, with
      * `clean` passed in and handed back. A node without parents marks the
      * whole path clean. */
    method Cyclic(intf: string, working: seq<string>, clean: set<string>, e: Err) returns (clean': set<string>)
      modifies e
      ensures e.prefix == old(e.prefix)
      ensures Cycles.Walk(clean', e.msgs) == Cycles.Cyclic(child2Parent, intf, working, Cycles.Walk(clean, old(e.msgs)))
      decreases child2Parent.Keys - Cycles.Elements(working), 0
    {
      if intf in clean {
        return clean;
      }
      if intf !in child2Parent {
        clean' := clean;
        var i := 0;
        while i < |working|
          invariant 0 <= i <= |working|
          invariant clean' == clean + Cycles.Elements(working[..i])
        {
          assert Cycles.Elements(working[..i + 1]) == Cycles.Elements(working[..i]) + {working[i]};
          clean' := clean' + {working[i]};
          i := i + 1;
        }
        assert working[..i] == working;
        return;
      }
      if intf in working {
        e.Errorf(Cycles.CycleMsg(intf, working));
        return clean;
      }
      var next := child2Parent[intf];
      var working' := working + [intf];
      assert Cycles.Elements(working') == Cycles.Elements(working) + {intf};
      ghost var w0 := Cycles.Walk(clean, e.msgs);
      clean' := clean;
      var x := 0;
      while x < |next|
        invariant 0 <= x <= |next|
        invariant e.prefix == old(e.prefix)
        invariant Cycles.Walk(clean', e.msgs) == Cycles.CyclicAll(child2Parent, next[..x], working', w0)
      {
        assert next[..x + 1][..x] == next[..x];
        clean' := Cyclic(next[x], working', clean', e);
        x := x + 1;
      }
      assert next[..x] == next;
    }

    /** The first loop of `Validate`: each node in the order of `keys`,
      * its error merged into `e`. */
    method CheckAll(e: Err, keys: seq<string>)
      requires forall k :: k in keys ==> k in interfaces
      modifies this, e
      ensures roots == old(roots) && e.prefix == old(e.prefix)
      ensures Nodes(interfaces, child2Parent, e.msgs) == CheckNodes(Nodes(old(interfaces), old(child2Parent), old(e.msgs)), keys)
    {
      ghost var st0 := Nodes(interfaces, child2Parent, e.msgs);
      var j := 0;
      while j < |keys|
        invariant 0 <= j <= |keys|
        invariant interfaces.Keys == old(interfaces).Keys && roots == old(roots) && e.prefix == old(e.prefix)
        invariant Nodes(interfaces, child2Parent, e.msgs) == CheckNodes(st0, keys[..j])
      {
        assert keys[..j + 1][..j] == keys[..j];
        CheckOne(e, keys[j]);
        j := j + 1;
      }
      assert keys[..j] == keys;
    }

    /** One name of the first loop of `Validate`. */
    method CheckOne(e: Err, k: string)
      requires k in interfaces
      modifies this, e
      ensures roots == old(roots) && e.prefix == old(e.prefix)
      ensures Nodes(interfaces, child2Parent, e.msgs) == NodeStep(Nodes(old(interfaces), old(child2Parent), old(e.msgs)), k)
    {
      var r := ValidateInterface(k);
      e.Merge(r);
    }

    /** The second loop of `Validate`: the members of every bond and
      * bridge lose their network blocks. */
    method ClearAll(keys: seq<string>)
      modifies this
      ensures interfaces == ClearNetworks(old(interfaces), keys)
      ensures child2Parent == old(child2Parent) && roots == old(roots)
    {
      ghost var ifs0 := interfaces;
      var j := 0;
      while j < |keys|
        invariant 0 <= j <= |keys|
        invariant interfaces == ClearNetworks(ifs0, keys[..j])
        invariant child2Parent == old(child2Parent) && roots == old(roots)
      {
        assert keys[..j + 1][..j] == keys[..j];
        var k := keys[j];
        if k in interfaces {
          var v := interfaces[k];
          if v.kind == Bridge || v.kind == Bond {
            ClearMembers(v);
          }
        }
        j := j + 1;
      }
      assert keys[..j] == keys;
    }

    /** The third loop of `Validate`: each name that is nobody's member is
      * a root, and every name is searched for cycles. */
    method RootsAndCycles(e: Err, keys: seq<string>)
      modifies this, e
      ensures interfaces == old(interfaces) && child2Parent == old(child2Parent) && e.prefix == old(e.prefix)
      ensures roots == old(roots) + RootsOf(keys, child2Parent)
      ensures e.msgs == Cycles.CyclicEach(child2Parent, keys, Cycles.Walk({}, old(e.msgs))).msgs
    {
      ghost var r0 := roots;
      ghost var w0 := Cycles.Walk({}, e.msgs);
      var clean: set<string> := {};
      var j := 0;
      while j < |keys|
        invariant 0 <= j <= |keys|
        invariant interfaces == old(interfaces) && child2Parent == old(child2Parent) && e.prefix == old(e.prefix)
        invariant roots == r0 + RootsOf(keys[..j], child2Parent)
        invariant Cycles.Walk(clean, e.msgs) == Cycles.CyclicEach(child2Parent, keys[..j], w0)
      {
        assert keys[..j + 1][..j] == keys[..j];
        ghost var rs := RootsOf(keys[..j], child2Parent);
        clean := RootAndCycles(e, keys[j], clean);
        AppendAssoc(r0, rs, if keys[j] in child2Parent then [] else [keys[j]]);
        j := j + 1;
      }
      assert keys[..j] == keys;
    }

    /** One name of the third loop of `Validate`. */
    method RootAndCycles(e: Err, k: string, clean: set<string>) returns (clean': set<string>)
      modifies this, e
      ensures interfaces == old(interfaces) && child2Parent == old(child2Parent) && e.prefix == old(e.prefix)
      ensures roots == old(roots) + (if k in child2Parent then [] else [k])
      ensures Cycles.Walk(clean', e.msgs) == Cycles.Cyclic(child2Parent, k, [], Cycles.Walk(clean, old(e.msgs)))
    {
      if k !in child2Parent {
        roots := roots + [k];
      }
      clean' := Cyclic(k, [], clean, e);
    }

    /** `(*Layout).Validate`. */
    method Validate() returns (err: ErrValue)
      modifies this
      ensures Outcome(interfaces, child2Parent, roots, err) == ValidateSpec(old(interfaces), old(roots))
    {
      ghost var ifs0, roots0 := interfaces, roots;
      var members := SortedSet(interfaces.Keys);
      var e := CheckPhase(members);
      if !e.Empty() {
        err := e.OrNil();
        ValidateSpecFails(ifs0, roots0);
        return;
      }
      err := Finish(e, members);
      ValidateSpecPasses(ifs0, roots0);
    }

    /** The first loop of `Validate`, on a fresh `Err` and an emptied
      * member index. */
    method CheckPhase(members: seq<string>) returns (e: Err)
      requires members == SortedSet(interfaces.Keys)
      modifies this
      ensures fresh(e) && e.prefix == "layout" && roots == old(roots)
      ensures Nodes(interfaces, child2Parent, e.msgs) == Checked(old(interfaces))
    {
      e := new Err("layout");
      child2Parent := map[];
      CheckAll(e, members);
    }

    /** `Validate` once every node passed: clears the networks of the
      * members of bonds and bridges, then collects the roots and searches
      * for cycles over the names that remain. */
    method Finish(e: Err, members: seq<string>) returns (err: ErrValue)
      requires e.msgs == []
      modifies this, e
      ensures child2Parent == old(child2Parent)
      ensures interfaces == ClearNetworks(old(interfaces), members)
      ensures roots == Sort(old(roots) + RootsOf(SortedSet(interfaces.Keys), child2Parent))
      ensures err == OrNilOf(old(e.prefix), Cycles.CyclicEach(child2Parent, SortedSet(interfaces.Keys), Cycles.Walk({}, [])).msgs)
    {
      ClearAll(members);
      var keys := SortedSet(interfaces.Keys);
      RootsAndCycles(e, keys);
      roots := Sort(roots);
      err := e.OrNil();
    }
  }
}
