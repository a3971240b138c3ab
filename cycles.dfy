// Cycle detection over the child-to-parents graph of a layout
// (`(*Layout).cyclic` in util/layout.go). The walk follows parent edges
// depth first, carrying the path it is on (`working`) and a set of nodes
// already known to be safe (`clean`), and reports "<node>: Cycle detected:
// <path>" when it comes back to a node of its path.
//
// As written, the walk marks the whole path clean as soon as one branch
// reaches a node without parents, so a later branch that closes a cycle
// through a node of that path stops at it and the cycle goes unreported
// (`Cyclic`, `MissedCycle`). The corrected walk (`Visit`) marks a node
// clean only once everything above it has been explored without a report;
// it reports something exactly when the graph has a cycle
// (`VisitEachIff`).
module Cycles {

  import opened Errs

  /** Child name to the names of its parents. */
  type Graph = map<string, seq<string>>

  /** The walk's state: the nodes known to be safe and the messages. */
  datatype Walk = Walk(clean: set<string>, msgs: seq<string>)

  function Elements(working: seq<string>): set<string> {
    set x | x in working
  }

  /** The message for a node met again on the path `working`. */
  function CycleMsg(intf: string, working: seq<string>): string {
    intf + ": Cycle detected: [" + Join(working, " ") + "]"
  }

  predicate Edge(g: Graph, a: string, b: string) {
    a in g && b in g[a]
  }

  /** Consecutive nodes of `p` are linked by parent edges. */
  predicate IsPath(g: Graph, p: seq<string>) {
    forall j :: 0 <= j < |p| - 1 ==> Edge(g, p[j], p[j + 1])
  }

  /** A path of at least one edge that comes back to where it started. */
  ghost predicate HasCycle(g: Graph) {
    exists p :: IsPath(g, p) && |p| >= 2 && p[0] == p[|p| - 1]
  }

  predicate Distinct(p: seq<string>) {
    forall i, j :: 0 <= i < j < |p| ==> p[i] != p[j]
  }

  /** Every path from `x` is free of repetitions and stays out of `avoid`:
    * no cycle can be reached from `x`, and nothing in `avoid` either. */
  ghost predicate Good(g: Graph, x: string, avoid: set<string>) {
    forall p :: IsPath(g, p) && p != [] && p[0] == x ==>
      Distinct(p) && forall k :: 0 <= k < |p| ==> p[k] !in avoid
  }

  /** Every node called clean reaches no cycle. */
  ghost predicate CleanSafe(g: Graph, clean: set<string>) {
    forall c :: c in clean ==> Good(g, c, {})
  }

  // ---------------------------------------------------------------------
  // The walk as written.

  /** `cyclic(intf, working, clean, e)` as written. */
  function Cyclic(g: Graph, intf: string, working: seq<string>, w: Walk): (r: Walk)
    ensures w.msgs <= r.msgs
    decreases g.Keys - Elements(working), 0
  {
    if intf in w.clean then w
    else if intf !in g then w.(clean := w.clean + Elements(working))
    else if intf in working then w.(msgs := w.msgs + [CycleMsg(intf, working)])
    else
      assert Elements(working + [intf]) == Elements(working) + {intf};
      CyclicAll(g, g[intf], working + [intf], w)
  }

  /** The loop of `cyclic` over the parents `ns`. */
  function CyclicAll(g: Graph, ns: seq<string>, working: seq<string>, w: Walk): (r: Walk)
    ensures w.msgs <= r.msgs
    decreases g.Keys - Elements(working), 1, |ns|
  {
    if ns == [] then w
    else
      var mid := CyclicAll(g, ns[..|ns| - 1], working, w);
      var r := Cyclic(g, ns[|ns| - 1], working, mid);
      PrefixTransitive(w.msgs, mid.msgs, r.msgs);
      r
  }

  /** The loop of `Validate` that starts the walk at every node. */
  function CyclicEach(g: Graph, keys: seq<string>, w: Walk): (r: Walk)
    ensures w.msgs <= r.msgs
    decreases |keys|
  {
    if keys == [] then w
    else
      var mid := CyclicEach(g, keys[..|keys| - 1], w);
      var r := Cyclic(g, keys[|keys| - 1], [], mid);
      PrefixTransitive(w.msgs, mid.msgs, r.msgs);
      r
  }

  /** Every message of the walk as written stands for a real cycle: a
    * message is added only on coming back to a node of a path that
    * follows parent edges. */
  lemma {:induction false} CyclicSound(g: Graph, intf: string, working: seq<string>, w: Walk)
    requires IsPath(g, working + [intf])
    ensures |Cyclic(g, intf, working, w).msgs| > |w.msgs| ==> HasCycle(g)
    decreases g.Keys - Elements(working), 0
  {
    if intf !in w.clean && intf in g {
      if intf in working {
        RevisitIsCycle(g, working, intf);
      } else {
        assert Elements(working + [intf]) == Elements(working) + {intf};
        CyclicAllSound(g, g[intf], working + [intf], w);
      }
    }
  }

  lemma {:induction false} CyclicAllSound(g: Graph, ns: seq<string>, working: seq<string>, w: Walk)
    requires IsPath(g, working) && working != []
    requires forall n :: n in ns ==> Edge(g, working[|working| - 1], n)
    ensures |CyclicAll(g, ns, working, w).msgs| > |w.msgs| ==> HasCycle(g)
    decreases g.Keys - Elements(working), 1, |ns|
  {
    if ns != [] {
      var init := ns[..|ns| - 1];
      var last := ns[|ns| - 1];
      assert forall n :: n in init ==> n in ns;
      CyclicAllSound(g, init, working, w);
      var mid := CyclicAll(g, init, working, w);
      assert last in ns;
      PathCons(g, working[|working| - 1], [last]);
      PathJoin(g, working, [working[|working| - 1], last]);
      assert working + [working[|working| - 1], last][1..] == working + [last];
      CyclicSound(g, last, working, mid);
    }
  }

  /** The walk as written, started at every node, reports only graphs
    * with a cycle; `MissedCycle` shows it does not report every one. */
  lemma {:induction false} CyclicEachSound(g: Graph, keys: seq<string>, w: Walk)
    ensures |CyclicEach(g, keys, w).msgs| > |w.msgs| ==> HasCycle(g)
    ensures !HasCycle(g) ==> CyclicEach(g, keys, w).msgs == w.msgs
    decreases |keys|
  {
    if keys != [] {
      var mid := CyclicEach(g, keys[..|keys| - 1], w);
      CyclicEachSound(g, keys[..|keys| - 1], w);
      assert [] + [keys[|keys| - 1]] == [keys[|keys| - 1]];
      CyclicSound(g, keys[|keys| - 1], [], mid);
    }
    var r := CyclicEach(g, keys, w);
    if |r.msgs| == |w.msgs| {
      assert r.msgs[..|w.msgs|] == w.msgs;
    }
  }

  /** The parent graph of vlans `a` and `v1` both on link `br0`, with
    * bridge `br0` having member `v1`: `br0` has parents `a` and `v1`, and
    * `v1` has parent `br0`. */
  function BridgeVlanLoop(): Graph {
    map["br0" := ["a", "v1"], "v1" := ["br0"]]
  }

  /** The walk as written reports nothing for a graph with a cycle: from
    * `br0` the branch to the root `a` marks `br0` clean, and the branch
    * through `v1` then stops at `br0`. The corrected walk reports it. */
  lemma MissedCycle()
    ensures HasCycle(BridgeVlanLoop())
    ensures CyclicEach(BridgeVlanLoop(), ["a", "br0", "v1"], Walk({}, [])).msgs == []
    ensures VisitEach(BridgeVlanLoop(), ["a", "br0", "v1"], Walk({}, [])).msgs != []
  {
    LoopIsCycle();
    CyclicMissesLoop();
    VisitEachIff(BridgeVlanLoop(), ["a", "br0", "v1"]);
  }

  /** `br0 -> v1 -> br0` is a cycle of the example graph. */
  lemma LoopIsCycle()
    ensures HasCycle(BridgeVlanLoop())
  {
    assert IsPath(BridgeVlanLoop(), ["br0", "v1", "br0"]);
  }

  /** The walk as written, step by step over the example graph. */
  lemma CyclicMissesLoop()
    ensures CyclicEach(BridgeVlanLoop(), ["a", "br0", "v1"], Walk({}, [])).msgs == []
  {
    var g := BridgeVlanLoop();
    var w0 := Walk({}, []);
    assert Elements([]) == {};
    assert Elements(["br0"]) == {"br0"};
    var w1 := Cyclic(g, "a", [], w0);
    assert w1 == w0;
    assert Cyclic(g, "a", ["br0"], w1) == Walk({"br0"}, []);
    assert Cyclic(g, "br0", ["br0", "v1"], Walk({"br0"}, [])) == Walk({"br0"}, []);
    assert Cyclic(g, "v1", ["br0"], Walk({"br0"}, [])) == Walk({"br0"}, []);
    assert CyclicAll(g, ["a", "v1"], ["br0"], w1) == Walk({"br0"}, []);
    assert g["br0"] == ["a", "v1"] && g["v1"] == ["br0"];
    assert [] + ["br0"] == ["br0"] && [] + ["v1"] == ["v1"];
    var w2 := Cyclic(g, "br0", [], w1);
    assert w2 == Walk({"br0"}, []);
    assert Cyclic(g, "br0", ["v1"], w2) == w2;
    assert ["br0"][..0] == [];
    assert CyclicAll(g, ["br0"], ["v1"], w2) == w2;
    var w3 := Cyclic(g, "v1", [], w2);
    assert w3 == w2;
    assert ["a", "br0", "v1"][..2] == ["a", "br0"];
    assert ["a", "br0"][..1] == ["a"];
    assert CyclicEach(g, ["a"], w0) == w1;
    assert CyclicEach(g, ["a", "br0"], w0) == w2;
  }

  // ---------------------------------------------------------------------
  // The corrected walk.

  /** The walk with the intended marking: a node without parents is left
    * alone, and a node is marked clean only when the walk over all its
    * parents added no message. */
  function Visit(g: Graph, intf: string, working: seq<string>, w: Walk): (r: Walk)
    ensures w.msgs <= r.msgs
    decreases g.Keys - Elements(working), 0
  {
    if intf in w.clean then w
    else if intf !in g then w
    else if intf in working then w.(msgs := w.msgs + [CycleMsg(intf, working)])
    else
      assert Elements(working + [intf]) == Elements(working) + {intf};
      var above := VisitAll(g, g[intf], working + [intf], w);
      if |above.msgs| == |w.msgs| then above.(clean := above.clean + {intf}) else above
  }

  /** The corrected loop over the parents `ns`. */
  function VisitAll(g: Graph, ns: seq<string>, working: seq<string>, w: Walk): (r: Walk)
    ensures w.msgs <= r.msgs
    decreases g.Keys - Elements(working), 1, |ns|
  {
    if ns == [] then w
    else
      var mid := VisitAll(g, ns[..|ns| - 1], working, w);
      var r := Visit(g, ns[|ns| - 1], working, mid);
      PrefixTransitive(w.msgs, mid.msgs, r.msgs);
      r
  }

  /** The corrected walk started at every node in turn. */
  function VisitEach(g: Graph, keys: seq<string>, w: Walk): (r: Walk)
    ensures w.msgs <= r.msgs
    decreases |keys|
  {
    if keys == [] then w
    else
      var mid := VisitEach(g, keys[..|keys| - 1], w);
      var r := Visit(g, keys[|keys| - 1], [], mid);
      PrefixTransitive(w.msgs, mid.msgs, r.msgs);
      r
  }

  lemma PrefixTransitive(a: seq<string>, b: seq<string>, c: seq<string>)
    requires a <= b && b <= c
    ensures a <= c
  {
    assert c[..|a|] == b[..|a|];
  }

  // Paths.

  lemma PathSlice(g: Graph, p: seq<string>, i: int, j: int)
    requires IsPath(g, p) && 0 <= i <= j <= |p|
    ensures IsPath(g, p[i..j])
  {
    forall k | 0 <= k < j - i - 1 ensures Edge(g, p[i..j][k], p[i..j][k + 1]) {
      assert p[i..j][k] == p[i + k] && p[i..j][k + 1] == p[i + k + 1];
    }
  }

  lemma PathJoin(g: Graph, p: seq<string>, q: seq<string>)
    requires IsPath(g, p) && IsPath(g, q) && p != [] && q != [] && p[|p| - 1] == q[0]
    ensures IsPath(g, p + q[1..])
  {
    var r := p + q[1..];
    forall k | 0 <= k < |r| - 1 ensures Edge(g, r[k], r[k + 1]) {
      if k < |p| - 1 {
        assert r[k] == p[k] && r[k + 1] == p[k + 1];
      } else {
        assert r[k] == q[k - |p| + 1] && r[k + 1] == q[k - |p| + 2];
      }
    }
  }

  lemma PathCons(g: Graph, a: string, q: seq<string>)
    requires IsPath(g, q) && q != [] && Edge(g, a, q[0])
    ensures IsPath(g, [a] + q)
  {
    var r := [a] + q;
    forall k | 0 <= k < |r| - 1 ensures Edge(g, r[k], r[k + 1]) {
      if k > 0 {
        assert r[k] == q[k - 1] && r[k + 1] == q[k];
      }
    }
  }

  /** Every node of a path but its last has parents. */
  lemma PathInGraph(g: Graph, p: seq<string>, k: int)
    requires IsPath(g, p) && 0 <= k < |p| - 1
    ensures p[k] in g
  {
    assert Edge(g, p[k], p[k + 1]);
  }

  // Soundness: every message stands for a real cycle.

  /** A node met again on the path closes a cycle. */
  lemma RevisitIsCycle(g: Graph, working: seq<string>, intf: string)
    requires IsPath(g, working + [intf]) && intf in working
    ensures HasCycle(g)
  {
    var p := working + [intf];
    var j :| 0 <= j < |working| && working[j] == intf;
    PathSlice(g, p, j, |p|);
    var c := p[j..];
    assert p[j] == working[j] && p[|p| - 1] == intf;
    assert |c| == |p| - j >= 2;
    assert c[0] == p[j] && c[|c| - 1] == p[|p| - 1];
    assert IsPath(g, c);
  }

  lemma {:induction false} VisitSound(g: Graph, intf: string, working: seq<string>, w: Walk)
    requires IsPath(g, working + [intf])
    ensures |Visit(g, intf, working, w).msgs| > |w.msgs| ==> HasCycle(g)
    decreases g.Keys - Elements(working), 0
  {
    if intf !in w.clean && intf in g {
      if intf in working {
        RevisitIsCycle(g, working, intf);
      } else {
        assert Elements(working + [intf]) == Elements(working) + {intf};
        VisitAllSound(g, g[intf], working + [intf], w);
      }
    }
  }

  lemma {:induction false} VisitAllSound(g: Graph, ns: seq<string>, working: seq<string>, w: Walk)
    requires IsPath(g, working) && working != []
    requires forall n :: n in ns ==> Edge(g, working[|working| - 1], n)
    ensures |VisitAll(g, ns, working, w).msgs| > |w.msgs| ==> HasCycle(g)
    decreases g.Keys - Elements(working), 1, |ns|
  {
    if ns != [] {
      var init := ns[..|ns| - 1];
      var last := ns[|ns| - 1];
      assert forall n :: n in init ==> n in ns;
      VisitAllSound(g, init, working, w);
      var mid := VisitAll(g, init, working, w);
      assert last in ns;
      PathCons(g, working[|working| - 1], [last]);
      PathJoin(g, working, [working[|working| - 1], last]);
      assert working + [working[|working| - 1], last][1..] == working + [last];
      VisitSound(g, last, working, mid);
    }
  }

  // Completeness: no message means no cycle is reachable.

  /** A node without parents starts no path but itself. */
  lemma LeafGood(g: Graph, x: string, avoid: set<string>)
    requires x !in g && x !in avoid
    ensures Good(g, x, avoid)
  {
    forall p | IsPath(g, p) && p != [] && p[0] == x
      ensures Distinct(p) && forall k :: 0 <= k < |p| ==> p[k] !in avoid
    {
      if |p| > 1 {
        PathInGraph(g, p, 0);
      }
    }
  }

  /** A node whose parents all reach neither a cycle nor the node itself
    * nor `avoid` reaches neither a cycle nor `avoid`. */
  lemma ParentsGood(g: Graph, x: string, avoid: set<string>)
    requires x in g && x !in avoid
    requires forall n :: n in g[x] ==> Good(g, n, avoid + {x})
    ensures Good(g, x, avoid)
  {
    forall p | IsPath(g, p) && p != [] && p[0] == x
      ensures Distinct(p) && forall k :: 0 <= k < |p| ==> p[k] !in avoid
    {
      if |p| > 1 {
        var q := p[1..];
        PathSlice(g, p, 1, |p|);
        assert Edge(g, p[0], p[1]);
        assert Good(g, q[0], avoid + {x});
        assert Distinct(q) && forall k :: 0 <= k < |q| ==> q[k] !in avoid + {x};
        forall i, j | 0 <= i < j < |p| ensures p[i] != p[j] {
          assert p[j] == q[j - 1];
          if i > 0 {
            assert p[i] == q[i - 1];
          }
        }
        forall k | 0 <= k < |p| ensures p[k] !in avoid {
          if k > 0 {
            assert p[k] == q[k - 1];
          }
        }
      }
    }
  }

  /** A path from `intf` that meets the path leading to `intf` closes a
    * cycle through `intf`. */
  lemma BackToPath(g: Graph, intf: string, working: seq<string>, p: seq<string>, k: int)
    requires IsPath(g, working + [intf]) && IsPath(g, p) && 0 <= k < |p| && p[0] == intf
    requires p[k] in Elements(working)
    ensures !Good(g, intf, {})
  {
    var j :| 0 <= j < |working| && working[j] == p[k];
    var back := (working + [intf])[j..];
    PathSlice(g, working + [intf], j, |working| + 1);
    PathSlice(g, p, 0, k + 1);
    var loop := p[..k + 1] + back[1..];
    PathJoin(g, p[..k + 1], back);
    assert loop[0] == intf && loop[|loop| - 1] == intf && |loop| >= 2;
    assert !Distinct(loop);
  }

  /** A clean node reaches no node of the path that leads to it. */
  lemma CleanAvoidsPath(g: Graph, intf: string, working: seq<string>)
    requires IsPath(g, working + [intf]) && Good(g, intf, {})
    ensures Good(g, intf, Elements(working))
  {
    forall p | IsPath(g, p) && p != [] && p[0] == intf
      ensures Distinct(p) && forall k :: 0 <= k < |p| ==> p[k] !in Elements(working)
    {
      forall k | 0 <= k < |p| ensures p[k] !in Elements(working) {
        if p[k] in Elements(working) {
          BackToPath(g, intf, working, p, k);
        }
      }
    }
  }

  lemma GoodWeaken(g: Graph, x: string, avoid: set<string>)
    requires Good(g, x, avoid)
    ensures Good(g, x, {})
  {
  }

  lemma {:induction false} VisitComplete(g: Graph, intf: string, working: seq<string>, w: Walk)
    requires IsPath(g, working + [intf])
    requires CleanSafe(g, w.clean)
    ensures CleanSafe(g, Visit(g, intf, working, w).clean)
    ensures |Visit(g, intf, working, w).msgs| == |w.msgs| ==> Good(g, intf, Elements(working))
    decreases g.Keys - Elements(working), 0
  {
    if intf in w.clean {
      CleanAvoidsPath(g, intf, working);
    } else if intf !in g {
      if intf in working {
        var j :| 0 <= j < |working| && working[j] == intf;
        PathInGraph(g, working + [intf], j);
      }
      LeafGood(g, intf, Elements(working));
    } else if intf !in working {
      var working' := working + [intf];
      assert Elements(working') == Elements(working) + {intf};
      forall n | n in g[intf] ensures IsPath(g, working' + [n]) {
        PathCons(g, intf, [n]);
        PathJoin(g, working', [intf, n]);
        assert working' + [intf, n][1..] == working' + [n];
      }
      VisitAllComplete(g, g[intf], working', w);
      var above := VisitAll(g, g[intf], working', w);
      if |above.msgs| == |w.msgs| {
        ParentsGood(g, intf, Elements(working));
        GoodWeaken(g, intf, Elements(working));
      }
    }
  }

  lemma {:induction false} VisitAllComplete(g: Graph, ns: seq<string>, working: seq<string>, w: Walk)
    requires forall n :: n in ns ==> IsPath(g, working + [n])
    requires CleanSafe(g, w.clean)
    ensures CleanSafe(g, VisitAll(g, ns, working, w).clean)
    ensures |VisitAll(g, ns, working, w).msgs| == |w.msgs| ==>
      forall n :: n in ns ==> Good(g, n, Elements(working))
    decreases g.Keys - Elements(working), 1, |ns|
  {
    if ns != [] {
      var init := ns[..|ns| - 1];
      var last := ns[|ns| - 1];
      assert forall n :: n in init ==> n in ns;
      VisitAllComplete(g, init, working, w);
      var mid := VisitAll(g, init, working, w);
      VisitComplete(g, last, working, mid);
      var r := Visit(g, last, working, mid);
      if |r.msgs| == |w.msgs| {
        assert |mid.msgs| == |w.msgs|;
        forall n | n in ns ensures Good(g, n, Elements(working)) {
          if n != last {
            assert n in init;
          }
        }
      }
    }
  }

  /** The corrected walk started at every node reports something exactly
    * when the graph has a cycle. */
  lemma {:induction false} VisitEachIff(g: Graph, keys: seq<string>)
    requires forall x :: x in g ==> x in keys
    ensures VisitEach(g, keys, Walk({}, [])).msgs == [] <==> !HasCycle(g)
  {
    VisitEachSound(g, keys, Walk({}, []));
    VisitEachComplete(g, keys, Walk({}, []));
    if HasCycle(g) {
      var p :| IsPath(g, p) && |p| >= 2 && p[0] == p[|p| - 1];
      PathInGraph(g, p, 0);
      assert !Distinct(p);
      assert !Good(g, p[0], {});
    }
  }

  lemma {:induction false} VisitEachSound(g: Graph, keys: seq<string>, w: Walk)
    ensures |VisitEach(g, keys, w).msgs| > |w.msgs| ==> HasCycle(g)
    decreases |keys|
  {
    if keys != [] {
      VisitEachSound(g, keys[..|keys| - 1], w);
      var mid := VisitEach(g, keys[..|keys| - 1], w);
      assert [] + [keys[|keys| - 1]] == [keys[|keys| - 1]];
      VisitSound(g, keys[|keys| - 1], [], mid);
    }
  }

  lemma {:induction false} VisitEachComplete(g: Graph, keys: seq<string>, w: Walk)
    requires CleanSafe(g, w.clean)
    ensures CleanSafe(g, VisitEach(g, keys, w).clean)
    ensures |VisitEach(g, keys, w).msgs| == |w.msgs| ==> forall k :: k in keys ==> Good(g, k, {})
    decreases |keys|
  {
    if keys != [] {
      var init := keys[..|keys| - 1];
      var last := keys[|keys| - 1];
      VisitEachComplete(g, init, w);
      var mid := VisitEach(g, init, w);
      assert [] + [last] == [last];
      VisitComplete(g, last, [], mid);
      assert Elements([]) == {};
      if |VisitEach(g, keys, w).msgs| == |w.msgs| {
        assert |mid.msgs| == |w.msgs|;
        forall k | k in keys ensures Good(g, k, {}) {
          if k != last {
            assert k in init;
          }
        }
      }
    }
  }
}
