// The per-field rule tables of util/validate.go and `ValidateAndMarshal`,
// which applies one to a decoded map: each field of the table is looked up
// in the input, absent fields take the table's default (without running
// the checker), present ones are checked, renamed and transformed, and a
// failure marks the whole result invalid but does not stop the remaining
// fields from being checked. The final marshal of the assembled map into a
// Go struct is modelled as handing back the map itself.
module Validation {

  import opened Wrappers
  import opened Ints
  import opened Order
  import opened Net
  import opened Values
  import opened Coerce
  import opened Errs

  /** The validators a `Check` can carry: the closures `VB`, `VI`, `VS`,
    * `VSS`, `VIP`, `VIP4`, `VIP6`, `VIPS`, `VMAC` and `ValidateUnsupp` of
    * util/validate.go, and the two shapes of nested validator the netplan
    * reader builds: a record validated by a table of its own, and a list of
    * such records (`routes`, `routepolicy`), whose invalid entries are
    * reported by position with `itemMsg`. */
  datatype Checker =
    | Unsupported
    | BoolV
    | IntV(min: int, max: int)
    | StrV(allowed: seq<string>)
    | StrsV(allowedEach: seq<string>)
    | IpV
    | Ip4V
    | Ip6V
    | IpsV(cidr: bool)
    | MacV
    | Record(table: map<string, Check>)
    | RecordList(items: map<string, Check>, itemMsg: string)

  /** `Check`: an optional default, a validator, an optional output key
    * (`""` keeps the field's own name) and an optional value transform. */
  datatype Check = Check(dflt: Option<Value>, checker: Checker, key: string, transform: Option<Value -> Value>)
  {
    /** `keyName`: the key the checked value is stored under. */
    function KeyName(n: string): (r: string)
      ensures key == "" ==> r == n
      ensures key != "" ==> r == key
    {
      if key == "" then n else key
    }

    /** The transform, when one is set. */
    function Apply(v: Value): Value {
      if transform.Some? then transform.value(v) else v
    }

    /** `(*Check).D`: replaces the default and keeps the rest. */
    function D(dfl: Value): (r: Check)
      ensures r.dflt == Some(dfl) && r.checker == checker && r.key == key && r.transform == transform
    {
      this.(dflt := Some(dfl))
    }

    /** `(*Check).C`: replaces the validator and keeps the rest. */
    function C(c: Checker): (r: Check)
      ensures r.checker == c && r.dflt == dflt && r.key == key && r.transform == transform
    {
      this.(checker := c)
    }

    /** `(*Check).K`: renames the output key and keeps the rest. */
    function K(name: string): (r: Check)
      ensures r.key == name && r.dflt == dflt && r.checker == checker && r.transform == transform
    {
      this.(key := name)
    }

    /** `(*Check).V`: replaces the transform and keeps the rest. */
    function V(f: Value -> Value): (r: Check)
      ensures r.transform == Some(f) && r.dflt == dflt && r.checker == checker && r.key == key
    {
      this.(transform := Some(f))
    }
  }

  /** `D(dfl, checker)`: a check with a default. */
  function D(dfl: Value, c: Checker): (r: Check)
    ensures r.dflt == Some(dfl) && r.checker == c && r.key == "" && r.transform.None?
  {
    Check(Some(dfl), c, "", None)
  }

  /** `C(checker)`: a check without a default. */
  function C(c: Checker): (r: Check)
    ensures r.dflt.None? && r.checker == c && r.key == "" && r.transform.None?
  {
    Check(None, c, "", None)
  }

  /** The result of `ValidateAndMarshal`: whether it succeeded, the
    * assembled key/value map, and the messages recorded. */
  datatype Marshalled = Marshalled(ok: bool, fields: map<string, Value>, msgs: seq<string>)

  /** `Validate` of a `Check` carrying `c`, on field `k` holding `v`. */
  function Run(lib: NetLib, c: Checker, k: string, v: Value): (r: Checked<Value>)
    ensures !c.Record? && !c.RecordList? ==>
      (r.valid ==> r.msgs == []) && (!r.valid && r.msgs == [] <==> WrongFamily(lib, c, v))
    ensures c.RecordList? && !v.List? ==> !r.valid && |r.msgs| == 1
    decreases v, 2
  {
    match c
    case Unsupported => ValidateUnsupp(k, v)
    case BoolV =>
      var b := ValidateBool(k, v);
      Checked(Bool(b.value), b.valid, b.msgs)
    case IntV(min, max) =>
      var n := ValidateInt(k, v, min, max);
      Checked(Int(n.value), n.valid, n.msgs)
    case StrV(allowed) =>
      var s := ValidateStrIn(k, v, allowed);
      Checked(Str(s.value), s.valid, s.msgs)
    case StrsV(allowed) => ValidateStrs(k, v, allowed)
    case IpV => IpResult(ValidateIP(lib, k, v))
    case Ip4V => IpResult(ValidateIP4(lib, k, v))
    case Ip6V => IpResult(ValidateIP6(lib, k, v))
    case IpsV(cidr) =>
      var l := ValidateIPList(lib, k, v, cidr);
      Checked(List(Ips(l.value)), l.valid, l.msgs)
    case MacV =>
      var m := ValidateMac(lib, k, v);
      Checked(Mac(m.value), m.valid, m.msgs)
    case Record(table) =>
      var r := ValidateAndMarshal(lib, v, table);
      Checked(Map(if r.ok then r.fields else map[]), r.ok, r.msgs)
    case RecordList(table, itemMsg) =>
      if !v.List? then Checked(List([]), false, ["routes in invalid format: " + TypeName(v)])
      else
        var l := Records(lib, table, itemMsg, v.items, |v.items|);
        Checked(List(l.value), l.valid, l.msgs)
  }

  /** An `*IP` result as a value; a nil one (never stored) as an empty list. */
  function IpResult(r: Checked<Option<IP>>): Checked<Value> {
    Checked(if r.value.Some? then Ip(r.value.value) else List([]), r.valid, r.msgs)
  }

  function Ips(ips: seq<IP>): (r: seq<Value>)
    ensures |r| == |ips| && forall i :: 0 <= i < |ips| ==> r[i] == Ip(ips[i])
  {
    seq(|ips|, i requires 0 <= i < |ips| => Ip(ips[i]))
  }

  /** The loop of `routes()` / `routepolicy()` over the first `n` entries:
    * each entry is validated against `table`; an invalid one is reported
    * by its position and left out, the others are kept in order. */
  function Records(lib: NetLib, table: map<string, Check>, itemMsg: string, items: seq<Value>, n: nat): (r: Checked<seq<Value>>)
    requires n <= |items|
    ensures |r.value| <= n
    ensures r.valid ==> |r.value| == n
    ensures !r.valid ==> r.msgs != []
    decreases List(items), 0, n
  {
    if n == 0 then Checked([], true, [])
    else Keep(Records(lib, table, itemMsg, items, n - 1), ValidateAndMarshal(lib, items[n - 1], table), itemMsg, n - 1)
  }

  /** One entry of a record list: kept when it validates, otherwise
    * reported by its position `i`. */
  function Keep(acc: Checked<seq<Value>>, r: Marshalled, itemMsg: string, i: nat): (res: Checked<seq<Value>>)
    ensures res.valid <==> acc.valid && r.ok
    ensures (acc.valid ==> acc.msgs == []) && (r.ok ==> r.msgs == []) ==> (res.valid ==> res.msgs == [])
    ensures !r.ok ==> |res.msgs| > |acc.msgs|
    ensures |res.value| <= |acc.value| + 1
    ensures r.ok ==> |res.value| == |acc.value| + 1
    ensures acc.msgs <= res.msgs
    ensures !r.ok ==> res.msgs != []
  {
    if r.ok then Checked(acc.value + [Map(r.fields)], acc.valid, acc.msgs + r.msgs)
    else Checked(acc.value, false, acc.msgs + r.msgs + [itemMsg + Dec(i)])
  }

  /** `ValidateAndMarshal`: a non-map input is refused with one message;
    * a map is checked field by field in the table's sorted key order. */
  function ValidateAndMarshal(lib: NetLib, vals: Value, checks: map<string, Check>): (r: Marshalled)
    ensures !vals.Map? ==> !r.ok && |r.msgs| == 1
    decreases vals, 1
  {
    if !vals.Map? then Marshalled(false, map[], ["cannot validate format " + TypeName(vals)])
    else Fields(lib, vals.fields, checks, SortedSet(checks.Keys))
  }

  /** What one table entry contributes to the result: `found` is the
    * checker's answer when the field is present in the input, None when it
    * is absent. An absent field stores its default, if any; a present
    * valid one stores its transformed value under `keyName`; an invalid one
    * stores nothing and makes the result invalid. */
  function Contribute(acc: Marshalled, c: Check, key: string, found: Option<Checked<Value>>): (r: Marshalled)
  {
    match found
    case None =>
      if c.dflt.Some? then acc.(fields := acc.fields[c.KeyName(key) := c.dflt.value]) else acc
    case Some(cr) =>
      if !cr.valid then Marshalled(false, acc.fields, acc.msgs + cr.msgs)
      else Marshalled(acc.ok, acc.fields[c.KeyName(key) := c.Apply(cr.value)], acc.msgs + cr.msgs)
  }

  /** The checker's answer for field `key` of `m`, None when it is absent. */
  function Lookup(lib: NetLib, m: map<string, Value>, c: Check, key: string): Option<Checked<Value>>
    decreases Map(m), 0, 0
  {
    if key in m then Some(Run(lib, c.checker, key, m[key])) else None
  }

  /** The loop of `ValidateAndMarshal` over the table's keys `keys`. */
  function Fields(lib: NetLib, m: map<string, Value>, checks: map<string, Check>, keys: seq<string>): Marshalled
    requires forall x :: x in keys ==> x in checks
    decreases Map(m), 0, |keys| + 1
  {
    if keys == [] then Marshalled(true, map[], [])
    else
      var key := keys[|keys| - 1];
      Contribute(Fields(lib, m, checks, keys[..|keys| - 1]), checks[key], key, Lookup(lib, m, checks[key], key))
  }

  /** What a table entry stores, given the checker's answer (None when
    * the field is absent): the default for an absent field, the
    * transformed value for a present valid one, nothing for an invalid
    * one. */
  function ContributionOf(c: Check, found: Option<Checked<Value>>): Option<Value> {
    match found
    case None => c.dflt
    case Some(cr) => if cr.valid then Some(c.Apply(cr.value)) else None
  }

  /** What the entry for `key` stores when validating `m`. */
  function Contribution(lib: NetLib, m: map<string, Value>, c: Check, key: string): Option<Value> {
    ContributionOf(c, Lookup(lib, m, c, key))
  }

  /** No two table entries store under the same output key. */
  predicate DistinctKeyNames(checks: map<string, Check>) {
    forall a, b :: a in checks && b in checks && a != b ==> checks[a].KeyName(a) != checks[b].KeyName(b)
  }

  /** `a` occurs in `b` at position `i`. */
  predicate OccursAt(a: seq<string>, b: seq<string>, i: int) {
    0 <= i && i + |a| <= |b| && b[i..i + |a|] == a
  }

  /** `a` occurs in `b` in one piece. */
  ghost predicate IsInfix(a: seq<string>, b: seq<string>) {
    exists i :: OccursAt(a, b, i)
  }

  /** `VIP4` given an address without an IPv4 form (an IPv6 address, or
    * text `ParseIP` cannot read, a nil address), or `VIP6` given one with
    * an IPv4 form: the one refusal that records nothing. */
  predicate WrongFamily(lib: NetLib, c: Checker, v: Value) {
    && (c.Ip4V? || c.Ip6V?)
    && ItemIP(lib, v).Some?
    && (IsV4(ItemIP(lib, v).value.addr) <==> c.Ip6V?)
  }

  /** An accepted value records no message. A plain checker refuses
    * without a message exactly when it is `VIP4` given an address without
    * an IPv4 form (including text `ParseIP` cannot read) or `VIP6` given
    * one with an IPv4 form; every other refusal is explained. */
  lemma {:induction false} RunReports(lib: NetLib, c: Checker, k: string, v: Value)
    ensures Run(lib, c, k, v).valid ==> Run(lib, c, k, v).msgs == []
    ensures !c.Record? && !c.RecordList? ==>
      (!Run(lib, c, k, v).valid && Run(lib, c, k, v).msgs == [] <==> WrongFamily(lib, c, v))
    decreases v, 2
  {
    match c
    case Record(table) => MarshalReports(lib, v, table);
    case RecordList(table, itemMsg) =>
      if v.List? {
        RecordsReports(lib, table, itemMsg, v.items, |v.items|);
      }
    case _ =>
  }

  /** An accepted `ValidateAndMarshal` records no message. */
  lemma {:induction false} MarshalReports(lib: NetLib, vals: Value, checks: map<string, Check>)
    ensures ValidateAndMarshal(lib, vals, checks).ok ==> ValidateAndMarshal(lib, vals, checks).msgs == []
    decreases vals, 1
  {
    if vals.Map? {
      FieldsReports(lib, vals.fields, checks, SortedSet(checks.Keys));
    }
  }

  lemma {:induction false} FieldsReports(lib: NetLib, m: map<string, Value>, checks: map<string, Check>, keys: seq<string>)
    requires forall x :: x in keys ==> x in checks
    ensures Fields(lib, m, checks, keys).ok ==> Fields(lib, m, checks, keys).msgs == []
    decreases Map(m), 0, |keys| + 1
  {
    if keys != [] {
      var key := keys[|keys| - 1];
      FieldsReports(lib, m, checks, keys[..|keys| - 1]);
      if key in m {
        RunReports(lib, checks[key].checker, key, m[key]);
      }
    }
  }

  lemma {:induction false} RecordsReports(lib: NetLib, table: map<string, Check>, itemMsg: string, items: seq<Value>, n: nat)
    requires n <= |items|
    ensures Records(lib, table, itemMsg, items, n).valid ==> Records(lib, table, itemMsg, items, n).msgs == []
    decreases List(items), 0, n
  {
    if n > 0 {
      RecordsReports(lib, table, itemMsg, items, n - 1);
      MarshalReports(lib, items[n - 1], table);
    }
  }

  /** A list of records is valid iff every entry validates, and only the
    * entries that do are kept. */
  lemma {:induction false} RecordsValidIff(lib: NetLib, table: map<string, Check>, itemMsg: string, items: seq<Value>, n: nat)
    requires n <= |items|
    ensures Records(lib, table, itemMsg, items, n).valid <==>
      forall i :: 0 <= i < n ==> ValidateAndMarshal(lib, items[i], table).ok
    ensures |Records(lib, table, itemMsg, items, n).value| <= n
    decreases n
  {
    if n > 0 {
      RecordsValidIff(lib, table, itemMsg, items, n - 1);
    }
  }

  /** The result is valid iff every field of the table that the input
    * holds passes its checker; absent fields cannot make it fail. */
  lemma {:induction false} FieldsOkIff(lib: NetLib, m: map<string, Value>, checks: map<string, Check>, keys: seq<string>)
    requires forall x :: x in keys ==> x in checks
    ensures Fields(lib, m, checks, keys).ok <==>
      forall x :: x in keys && x in m ==> Run(lib, checks[x].checker, x, m[x]).valid
    decreases |keys|
  {
    if keys != [] {
      var init := keys[..|keys| - 1];
      FieldsOkIff(lib, m, checks, init);
      assert keys == init + [keys[|keys| - 1]];
    }
  }

  /** Each output key holds what its table entry contributes, and every
    * output key comes from some table entry. */
  lemma {:induction false} FieldsContent(lib: NetLib, m: map<string, Value>, checks: map<string, Check>, keys: seq<string>, x: string)
    requires forall y :: y in keys ==> y in checks
    requires DistinctKeyNames(checks)
    requires x in keys
    ensures var name := checks[x].KeyName(x);
      var contribution := Contribution(lib, m, checks[x], x);
      && (name in Fields(lib, m, checks, keys).fields <==> contribution.Some?)
      && (contribution.Some? ==> Fields(lib, m, checks, keys).fields[name] == contribution.value)
    decreases |keys|
  {
    var init := keys[..|keys| - 1];
    var key := keys[|keys| - 1];
    assert keys == init + [key];
    var c := checks[key];
    var found := Lookup(lib, m, c, key);
    var acc := Fields(lib, m, checks, init);
    assert Fields(lib, m, checks, keys) == Contribute(acc, c, key, found);
    if x == key {
      ContributeStores(acc, c, key, found);
      if x in init {
        FieldsContent(lib, m, checks, init, x);
      } else if c.KeyName(key) in acc.fields {
        var y := FieldsKeysFromTable(lib, m, checks, init, c.KeyName(key));
        assert false;
      }
    } else {
      FieldsContent(lib, m, checks, init, x);
      ContributeKeeps(acc, c, key, found, checks[x].KeyName(x));
    }
  }

  /** Every output key comes from some entry of the table; the entry is
    * returned. */
  lemma {:induction false} FieldsKeysFromTable(lib: NetLib, m: map<string, Value>, checks: map<string, Check>, keys: seq<string>, o: string)
    returns (x: string)
    requires forall y :: y in keys ==> y in checks
    requires o in Fields(lib, m, checks, keys).fields
    ensures x in keys && checks[x].KeyName(x) == o
    decreases |keys|
  {
    var init := keys[..|keys| - 1];
    var key := keys[|keys| - 1];
    assert keys == init + [key];
    var c := checks[key];
    var found := Lookup(lib, m, c, key);
    var acc := Fields(lib, m, checks, init);
    assert Fields(lib, m, checks, keys) == Contribute(acc, c, key, found);
    if o == c.KeyName(key) {
      x := key;
    } else {
      ContributeKeeps(acc, c, key, found, o);
      x := FieldsKeysFromTable(lib, m, checks, init, o);
    }
  }

  /** One more key of the table's loop: the entry's contribution is added
    * to what the keys before it built. */
  lemma FieldsStep(lib: NetLib, m: map<string, Value>, checks: map<string, Check>, keys: seq<string>, i: nat)
    requires forall x :: x in keys ==> x in checks
    requires i < |keys|
    ensures Fields(lib, m, checks, keys[..i + 1]) ==
      Contribute(Fields(lib, m, checks, keys[..i]), checks[keys[i]], keys[i], Lookup(lib, m, checks[keys[i]], keys[i]))
  {
    assert keys[..i + 1][..i] == keys[..i];
  }

  /** `Contribute` changes no key other than the entry's key name. */
  lemma ContributeKeeps(acc: Marshalled, c: Check, key: string, found: Option<Checked<Value>>, o: string)
    requires o != c.KeyName(key)
    ensures o in Contribute(acc, c, key, found).fields <==> o in acc.fields
    ensures o in acc.fields ==> Contribute(acc, c, key, found).fields[o] == acc.fields[o]
  {
  }

  /** `Contribute` stores the entry's contribution, if any, under its key
    * name, and appends the checker's messages. */
  lemma ContributeStores(acc: Marshalled, c: Check, key: string, found: Option<Checked<Value>>)
    ensures ContributionOf(c, found).Some? ==>
      c.KeyName(key) in Contribute(acc, c, key, found).fields &&
      Contribute(acc, c, key, found).fields[c.KeyName(key)] == ContributionOf(c, found).value
    ensures ContributionOf(c, found).None? ==> Contribute(acc, c, key, found).fields == acc.fields
    ensures Contribute(acc, c, key, found).msgs == acc.msgs + (if found.Some? then found.value.msgs else [])
  {
  }

  /** Every field of the table that the input holds is checked, whatever
    * happened to the fields before it, and its messages appear in the
    * result, in one piece. */
  lemma {:induction false} FieldsMsgsInfix(lib: NetLib, m: map<string, Value>, checks: map<string, Check>, keys: seq<string>)
    requires forall x :: x in keys ==> x in checks
    ensures forall x :: x in keys && x in m ==>
      IsInfix(Run(lib, checks[x].checker, x, m[x]).msgs, Fields(lib, m, checks, keys).msgs)
    decreases |keys|
  {
    if keys != [] {
      var init := keys[..|keys| - 1];
      var key := keys[|keys| - 1];
      FieldsMsgsInfix(lib, m, checks, init);
      assert keys == init + [key];
      var acc := Fields(lib, m, checks, init);
      var r := Fields(lib, m, checks, keys);
      var extra := if key in m then Run(lib, checks[key].checker, key, m[key]).msgs else [];
      ContributeStores(acc, checks[key], key, Lookup(lib, m, checks[key], key));
      assert r.msgs == acc.msgs + extra;
      forall x | x in keys && x in m
        ensures IsInfix(Run(lib, checks[x].checker, x, m[x]).msgs, r.msgs)
      {
        var a := Run(lib, checks[x].checker, x, m[x]).msgs;
        if x == key {
          assert r.msgs[|acc.msgs|..|acc.msgs| + |a|] == a;
          assert OccursAt(a, r.msgs, |acc.msgs|);
        } else {
          assert x in init;
          var i :| OccursAt(a, acc.msgs, i);
          assert r.msgs[i..i + |a|] == acc.msgs[i..i + |a|];
          assert OccursAt(a, r.msgs, i);
        }
      }
    }
  }

  /** The loop records no message exactly when no field of the table
    * that the input holds records one. */
  lemma {:induction false} FieldsQuietIff(lib: NetLib, m: map<string, Value>, checks: map<string, Check>, keys: seq<string>)
    requires forall x :: x in keys ==> x in checks
    ensures Fields(lib, m, checks, keys).msgs == [] <==>
      forall x :: x in keys && x in m ==> Run(lib, checks[x].checker, x, m[x]).msgs == []
    decreases |keys|
  {
    if keys != [] {
      var init := keys[..|keys| - 1];
      var key := keys[|keys| - 1];
      FieldsQuietIff(lib, m, checks, init);
      assert keys == init + [key];
      ContributeStores(Fields(lib, m, checks, init), checks[key], key, Lookup(lib, m, checks[key], key));
    }
  }

  /** Only the fields of the table matter: fields of the input that the
    * table does not name change nothing in the result. */
  lemma {:induction false} FieldsIgnoreOthers(lib: NetLib, m: map<string, Value>, m': map<string, Value>, checks: map<string, Check>, keys: seq<string>)
    requires forall x :: x in keys ==> x in checks
    requires forall x :: x in keys ==> (x in m <==> x in m') && (x in m ==> m[x] == m'[x])
    ensures Fields(lib, m, checks, keys) == Fields(lib, m', checks, keys)
    decreases |keys|
  {
    if keys != [] {
      FieldsIgnoreOthers(lib, m, m', checks, keys[..|keys| - 1]);
    }
  }

  /** `ValidateAndMarshal` on a map input fails iff some present field
    * fails its checker. */
  lemma MarshalOkIff(lib: NetLib, m: map<string, Value>, checks: map<string, Check>)
    ensures ValidateAndMarshal(lib, Map(m), checks).ok <==>
      forall key :: key in checks && key in m ==> Run(lib, checks[key].checker, key, m[key]).valid
  {
    FieldsOkIff(lib, m, checks, SortedSet(checks.Keys));
  }

  /** `ValidateAndMarshal` on a map input records no message exactly
    * when none of the present fields' checkers records one. */
  lemma MarshalQuietIff(lib: NetLib, m: map<string, Value>, checks: map<string, Check>)
    ensures ValidateAndMarshal(lib, Map(m), checks).msgs == [] <==>
      forall key :: key in checks && key in m ==> Run(lib, checks[key].checker, key, m[key]).msgs == []
  {
    FieldsQuietIff(lib, m, checks, SortedSet(checks.Keys));
  }

  /** What `ValidateAndMarshal` stores for the table entry `key`, when no
    * two entries share an output key: an absent field its default, if it
    * has one; a present valid field its transformed value; a present
    * invalid field nothing. */
  lemma MarshalField(lib: NetLib, m: map<string, Value>, checks: map<string, Check>, key: string)
    requires DistinctKeyNames(checks) && key in checks
    ensures var r := ValidateAndMarshal(lib, Map(m), checks);
      var c := checks[key];
      var name := c.KeyName(key);
      && (key !in m ==> (name in r.fields <==> c.dflt.Some?))
      && (key !in m && c.dflt.Some? ==> r.fields[name] == c.dflt.value)
      && (key in m ==> (name in r.fields <==> Run(lib, c.checker, key, m[key]).valid))
      && (key in m && Run(lib, c.checker, key, m[key]).valid ==> r.fields[name] == c.Apply(Run(lib, c.checker, key, m[key]).value))
  {
    FieldsContent(lib, m, checks, SortedSet(checks.Keys), key);
  }

  /** Every output key of `ValidateAndMarshal` belongs to some entry of
    * the table. */
  lemma MarshalKeysFromTable(lib: NetLib, m: map<string, Value>, checks: map<string, Check>, o: string)
    requires o in ValidateAndMarshal(lib, Map(m), checks).fields
    ensures exists key :: key in checks && checks[key].KeyName(key) == o
  {
    var x := FieldsKeysFromTable(lib, m, checks, SortedSet(checks.Keys), o);
  }

  /** Every present field is checked and its messages kept, even after an
    * earlier failure. */
  lemma MarshalMsgsKept(lib: NetLib, m: map<string, Value>, checks: map<string, Check>)
    ensures var r := ValidateAndMarshal(lib, Map(m), checks);
      forall key :: key in checks && key in m ==> IsInfix(Run(lib, checks[key].checker, key, m[key]).msgs, r.msgs)
  {
    FieldsMsgsInfix(lib, m, checks, SortedSet(checks.Keys));
  }

  /** The input's keys outside the table are ignored. */
  lemma MarshalIgnoresOthers(lib: NetLib, m: map<string, Value>, checks: map<string, Check>)
    ensures ValidateAndMarshal(lib, Map(m), checks) == ValidateAndMarshal(lib, Map(map x | x in m && x in checks :: m[x]), checks)
  {
    FieldsIgnoreOthers(lib, m, map x | x in m && x in checks :: m[x], checks, SortedSet(checks.Keys));
  }

  /** `ValidateAndMarshal`, appending to the caller's `Err`: it records
    * exactly the messages of the specification and returns its verdict
    * and assembled map. */
  method ValidateAndMarshalInto(e: Err, lib: NetLib, vals: Value, checks: map<string, Check>)
    returns (resOK: bool, res: map<string, Value>)
    modifies e
    ensures e.prefix == old(e.prefix)
    ensures e.msgs == old(e.msgs) + ValidateAndMarshal(lib, vals, checks).msgs
    ensures resOK == ValidateAndMarshal(lib, vals, checks).ok
    ensures res == ValidateAndMarshal(lib, vals, checks).fields
  {
    if !vals.Map? {
      e.Errorf("cannot validate format " + TypeName(vals));
      return false, map[];
    }
    resOK, res := FieldsInto(e, lib, vals.fields, checks, SortedSet(checks.Keys));
  }

  /** The loop of `ValidateAndMarshal` over the table's keys, in order. */
  method FieldsInto(e: Err, lib: NetLib, m: map<string, Value>, checks: map<string, Check>, keys: seq<string>)
    returns (resOK: bool, res: map<string, Value>)
    requires forall x :: x in keys ==> x in checks
    modifies e
    ensures e.prefix == old(e.prefix)
    ensures e.msgs == old(e.msgs) + Fields(lib, m, checks, keys).msgs
    ensures resOK == Fields(lib, m, checks, keys).ok
    ensures res == Fields(lib, m, checks, keys).fields
  {
    res := map[];
    resOK := true;
    var i := 0;
    while i < |keys|
      invariant 0 <= i <= |keys|
      invariant e.prefix == old(e.prefix)
      invariant e.msgs == old(e.msgs) + Fields(lib, m, checks, keys[..i]).msgs
      invariant resOK == Fields(lib, m, checks, keys[..i]).ok
      invariant res == Fields(lib, m, checks, keys[..i]).fields
    {
      var key := keys[i];
      var check := checks[key];
      ghost var acc := Fields(lib, m, checks, keys[..i]);
      ghost var before := e.msgs;
      var found := Lookup(lib, m, check, key);
      FieldsStep(lib, m, checks, keys, i);
      ContributeStores(acc, check, key, found);
      match found {
        case None =>
          if check.dflt.Some? {
            res := res[check.KeyName(key) := check.dflt.value];
          }
        case Some(r) =>
          ErrorfEach(e, r.msgs);
          AppendAssoc(old(e.msgs), acc.msgs, r.msgs);
          if !r.valid {
            resOK := false;
          } else {
            res := res[check.KeyName(key) := check.Apply(r.value)];
          }
      }
      i := i + 1;
    }
    assert keys[..i] == keys;
  }
}
