// Matching declared physical interfaces against the NICs present on the
// machine (util/phy.go). The NIC list is an input: how it is gathered
// from the kernel and udev is not part of this model.
module Phys {

  import opened Glob
  import opened LayoutRules

  /** What a declaration matches on; an empty field matches anything. */
  datatype Match = Match(name: string, macAddress: seq<bv8>, driver: string)

  /** A NIC present on the machine. */
  datatype Phy = Phy(name: string, stableName: string, driver: string, hwAddr: seq<bv8>)

  /** Does `m` select NIC `p`? A name pattern must match the NIC's name
    * or its stable name, a driver must be equal, a MAC address equal byte
    * for byte. */
  predicate Selects(m: Match, p: Phy) {
    && (m.name == "" || Matches(m.name, p.name) || Matches(m.name, p.stableName))
    && (m.driver == "" || m.driver == p.driver)
    && (|m.macAddress| == 0 || m.macAddress == p.hwAddr)
  }

  /** The template bound to NIC `p`: its name, the physical kind and the
    * NIC's current hardware address. */
  function Bind(tmpl: Interface, p: Phy): Interface {
    tmpl.(name := p.name, kind := Physical, currentHwAddr := p.hwAddr)
  }

  /** The interfaces `MatchPhys` returns for `phys`. */
  function Matched(m: Match, tmpl: Interface, phys: seq<Phy>): (r: seq<Interface>)
    ensures |r| <= |phys|
    decreases |phys|
  {
    if phys == [] then []
    else
      var last := phys[|phys| - 1];
      Matched(m, tmpl, phys[..|phys| - 1]) + (if Selects(m, last) then [Bind(tmpl, last)] else [])
  }

  /** `MatchPhys`: one interface per selected NIC, in the NICs' order. */
  method MatchPhys(m: Match, tmpl: Interface, phys: seq<Phy>) returns (res: seq<Interface>)
    ensures res == Matched(m, tmpl, phys)
  {
    res := [];
    var i := 0;
    while i < |phys|
      invariant 0 <= i <= |phys|
      invariant res == Matched(m, tmpl, phys[..i])
    {
      assert phys[..i + 1][..i] == phys[..i];
      var phyInt := phys[i];
      i := i + 1;
      if m.name != "" && !Matches(m.name, phyInt.name) && !Matches(m.name, phyInt.stableName) {
        continue;
      }
      if m.driver != "" && m.driver != phyInt.driver {
        continue;
      }
      if |m.macAddress| > 0 && m.macAddress != phyInt.hwAddr {
        continue;
      }
      var intf := tmpl;
      intf := intf.(name := phyInt.name);
      intf := intf.(kind := Physical);
      intf := intf.(currentHwAddr := phyInt.hwAddr);
      res := res + [intf];
    }
    assert phys[..i] == phys;
  }

  /** Matching distributes over a split of the NIC list, so the results
    * keep the NICs' order. */
  lemma {:induction false} MatchedAppend(m: Match, tmpl: Interface, a: seq<Phy>, b: seq<Phy>)
    ensures Matched(m, tmpl, a + b) == Matched(m, tmpl, a) + Matched(m, tmpl, b)
    decreases |b|
  {
    if b == [] {
      assert a + b == a;
    } else {
      var init := b[..|b| - 1];
      var last := b[|b| - 1];
      assert (a + b)[..|a + b| - 1] == a + init;
      assert (a + b)[|a + b| - 1] == last;
      MatchedAppend(m, tmpl, a, init);
    }
  }

  /** An empty match selects every NIC: one interface per NIC, in order. */
  lemma {:induction false} EmptyMatchKeepsAll(tmpl: Interface, phys: seq<Phy>)
    ensures var r := Matched(Match("", [], ""), tmpl, phys);
      |r| == |phys| && forall i :: 0 <= i < |phys| ==> r[i] == Bind(tmpl, phys[i])
    decreases |phys|
  {
    if phys != [] {
      EmptyMatchKeepsAll(tmpl, phys[..|phys| - 1]);
    }
  }

  /** Every result is the template bound to a NIC `m` selects. */
  lemma {:induction false} MatchedSound(m: Match, tmpl: Interface, phys: seq<Phy>)
    ensures forall x :: x in Matched(m, tmpl, phys) ==>
      exists p :: p in phys && Selects(m, p) && x == Bind(tmpl, p)
    decreases |phys|
  {
    if phys != [] {
      var init := phys[..|phys| - 1];
      MatchedSound(m, tmpl, init);
      forall x | x in Matched(m, tmpl, phys)
        ensures exists p :: p in phys && Selects(m, p) && x == Bind(tmpl, p)
      {
        if x in Matched(m, tmpl, init) {
          var p :| p in init && Selects(m, p) && x == Bind(tmpl, p);
          assert p in phys;
        } else {
          assert phys[|phys| - 1] in phys;
        }
      }
    }
  }

  /** Every NIC `m` selects yields its interface. */
  lemma {:induction false} MatchedComplete(m: Match, tmpl: Interface, phys: seq<Phy>)
    ensures forall p :: p in phys && Selects(m, p) ==> Bind(tmpl, p) in Matched(m, tmpl, phys)
    decreases |phys|
  {
    if phys != [] {
      var init := phys[..|phys| - 1];
      MatchedComplete(m, tmpl, init);
      assert phys == init + [phys[|phys| - 1]];
    }
  }

  /** Each result differs from the template only in its name, its kind
    * (physical) and its current hardware address. */
  lemma ResultsFollowTemplate(m: Match, tmpl: Interface, phys: seq<Phy>)
    ensures forall x :: x in Matched(m, tmpl, phys) ==>
      && x.kind == Physical
      && x.(name := tmpl.name, kind := tmpl.kind, currentHwAddr := tmpl.currentHwAddr) == tmpl
  {
    MatchedSound(m, tmpl, phys);
  }
}
