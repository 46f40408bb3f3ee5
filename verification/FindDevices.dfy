/** The grouping loop of uhd_find_devices: addresses with the same serial are merged, and
    erased from the vector while it is being walked. */
module FindDevices {
  import opened Dict
  import opened DeviceHash

  /** `device_multi_addrs_t`. */
  type Group = map<string, set<string>>

  /** `addr["serial"]` on a mutable dictionary: a missing key reads as the empty string. */
  function Serial(d: Addr): string {
    if HasKey(d, "serial") then Get(d, "serial") else ""
  }

  function Held(g: Group, key: string): set<string> {
    if key in g then g[key] else {}
  }

  /** The values an address contributes to a key of a serial's group: one, or none. */
  function Contribution(d: Addr, serial: string, key: string): set<string> {
    if Serial(d) == serial && key != "serial" && HasKey(d, key) then {Get(d, key)} else {}
  }

  /** All values of a key over the addresses with this serial. */
  function Values(ds: seq<Addr>, serial: string, key: string): set<string> {
    if ds == [] then {} else Contribution(ds[0], serial, key) + Values(ds[1..], serial, key)
  }

  /** The group holds exactly the values of every key, and no key without a value. */
  ghost predicate IsGroupOf(g: Group, ds: seq<Addr>, serial: string) {
    forall key :: Held(g, key) == Values(ds, serial, key) && (key in g ==> g[key] != {})
  }

  ghost predicate AllDistinct(ds: seq<Addr>) {
    forall i :: 0 <= i < |ds| ==> Distinct(ds[i])
  }

  /** The address has this serial, and this value for the key. */
  predicate Gives(d: Addr, serial: string, key: string, v: string) {
    Serial(d) == serial && HasKey(d, key) && Get(d, key) == v
  }

  lemma {:induction false} ValuesExact(ds: seq<Addr>, serial: string, key: string, v: string)
    ensures v in Values(ds, serial, key) <==>
            key != "serial" && exists i :: 0 <= i < |ds| && Gives(ds[i], serial, key, v)
  {
    if ds != [] {
      ValuesExact(ds[1..], serial, key, v);
      if v in Values(ds[1..], serial, key) {
        var i :| 0 <= i < |ds| - 1 && Gives(ds[1..][i], serial, key, v);
        assert ds[i + 1] == ds[1..][i];
      }
      if i: nat :| i < |ds| && Gives(ds[i], serial, key, v) {
        if i > 0 { assert ds[1..][i - 1] == ds[i]; }
      }
    }
  }

  lemma {:induction false} ValuesErase(ds: seq<Addr>, i: nat, serial: string, key: string)
    requires i < |ds|
    ensures Values(ds, serial, key) ==
            Contribution(ds[i], serial, key) + Values(ds[..i] + ds[i + 1..], serial, key)
  {
    var es := ds[..i] + ds[i + 1..];
    if i == 0 {
      assert es == ds[1..];
    } else {
      ValuesErase(ds[1..], i - 1, serial, key);
      assert es[1..] == ds[1..][..i - 1] + ds[1..][i..];
    }
  }

  /** `for key in keys: if key != "serial": group[key].insert(...)`. */
  method AddAddress(g0: Group, d: Addr) returns (g: Group)
    requires Distinct(d) && NonEmpty(g0)
    ensures NonEmpty(g)
    ensures forall key :: Held(g, key) == Held(g0, key) + Contribution(d, Serial(d), key)
  {
    g := g0;
    for i := 0 to |d|
      invariant NonEmpty(g)
      invariant forall key :: Held(g, key) == Held(g0, key)
                  + if key != "serial" && Find(d, key) < i then {Get(d, key)} else {}
    {
      var key := d[i].key;
      FindUnique(d, i);
      ghost var before := g;
      if key != "serial" {
        g := g[key := Held(g, key) + {Get(d, key)}];
      }
      forall k
        ensures Held(g, k) == Held(g0, k) + if k != "serial" && Find(d, k) < i + 1 then {Get(d, k)} else {}
      {
        if Find(d, k) == i { assert k == key; }
        assert k != key ==> Held(g, k) == Held(before, k);
      }
    }
  }

  /** The two vectors hold the same addresses of every other serial. */
  ghost predicate SameOthers(a: seq<Addr>, b: seq<Addr>, serial: string) {
    && (forall s, key :: s != serial ==> Values(a, s, key) == Values(b, s, key))
    && (forall d :: Serial(d) != serial ==> (d in a <==> d in b))
  }

  lemma SameOthersTransitive(a: seq<Addr>, b: seq<Addr>, c: seq<Addr>, serial: string)
    requires SameOthers(a, b, serial) && SameOthers(b, c, serial)
    ensures SameOthers(a, c, serial)
  {
  }

  ghost predicate NonEmpty(g: Group) {
    forall key :: key in g ==> g[key] != {}
  }

  /** What `g` holds and what `rest` still has to give make up what g0 and `tail` had. */
  ghost predicate Accounts(g: Group, rest: seq<Addr>, g0: Group, tail: seq<Addr>, serial: string) {
    forall key :: Held(g, key) + Values(rest, serial, key) == Held(g0, key) + Values(tail, serial, key)
  }

  lemma AccountsNext(g: Group, g': Group, ds: seq<Addr>, sit: nat, g0: Group, tail: seq<Addr>, serial: string)
    requires sit < |ds| && Accounts(g, ds[sit..], g0, tail, serial)
    requires Serial(ds[sit]) == serial ==>
               forall key :: Held(g', key) == Held(g, key) + Contribution(ds[sit], serial, key)
    requires Serial(ds[sit]) != serial ==> g' == g
    ensures Accounts(g', ds[sit + 1..], g0, tail, serial)
  {
    assert ds[sit..][1..] == ds[sit + 1..];
  }

  ghost predicate NoneBetween(ds: seq<Addr>, lo: nat, hi: nat, serial: string)
    requires hi <= |ds|
  {
    forall j :: lo <= j < hi ==> Serial(ds[j]) != serial
  }

  /** Where the inner loop stands: addresses before `sit` are of other serials, and what the
      group and the addresses from `sit` on hold is what there was at the start. */
  ghost predicate Absorbing(ds0: seq<Addr>, it: nat, serial: string, g0: Group, ds: seq<Addr>, g: Group, sit: nat) {
    && it < sit <= |ds| <= |ds0| && ds[..it + 1] == ds0[..it + 1] && AllDistinct(ds) && NonEmpty(g)
    && Accounts(g, ds[sit..], g0, ds0[it + 1..], serial)
    && NoneBetween(ds, it + 1, sit, serial)
    && SameOthers(ds[it + 1..], ds0[it + 1..], serial)
  }

  lemma AbsorbOne(ds0: seq<Addr>, it: nat, serial: string, g0: Group, ds: seq<Addr>, g: Group, g': Group, sit: nat)
    requires Absorbing(ds0, it, serial, g0, ds, g, sit) && sit < |ds| && Serial(ds[sit]) == serial
    requires NonEmpty(g') && forall key :: Held(g', key) == Held(g, key) + Contribution(ds[sit], serial, key)
    ensures Absorbing(ds0, it, serial, g0, ds[..sit] + ds[sit + 1..], g', sit)
  {
    AccountsNext(g, g', ds, sit, g0, ds0[it + 1..], serial);
    EraseShape(ds, ds[..sit] + ds[sit + 1..], it + 1, sit);
    EraseStep(ds, ds[..sit] + ds[sit + 1..], it + 1, sit, serial, ds0[it + 1..]);
  }

  lemma SkipOne(ds0: seq<Addr>, it: nat, serial: string, g0: Group, ds: seq<Addr>, g: Group, sit: nat)
    requires Absorbing(ds0, it, serial, g0, ds, g, sit) && sit < |ds| && Serial(ds[sit]) != serial
    ensures Absorbing(ds0, it, serial, g0, ds, g, sit + 1)
  {
    AccountsNext(g, g, ds, sit, g0, ds0[it + 1..], serial);
  }

  /** Merges every later address with this serial into the group and erases it. */
  method Absorb(ds0: seq<Addr>, it: nat, serial: string, g0: Group) returns (ds: seq<Addr>, g: Group)
    requires it < |ds0| && AllDistinct(ds0) && NonEmpty(g0)
    ensures it < |ds| <= |ds0| && ds[..it + 1] == ds0[..it + 1] && AllDistinct(ds) && NonEmpty(g)
    ensures Accounts(g, [], g0, ds0[it + 1..], serial)
    ensures NoneBetween(ds, it + 1, |ds|, serial)
    ensures SameOthers(ds[it + 1..], ds0[it + 1..], serial)
  {
    ds, g := ds0, g0;
    var sit: nat := it + 1;
    while sit != |ds|
      invariant Absorbing(ds0, it, serial, g0, ds, g, sit)
      decreases |ds| - sit
    {
      if Serial(ds[sit]) == serial {
        ghost var before := g;
        g := AddAddress(g, ds[sit]);
        AbsorbOne(ds0, it, serial, g0, ds, before, g, sit);
        ds := ds[..sit] + ds[sit + 1..];
      } else {
        SkipOne(ds0, it, serial, g0, ds, g, sit);
        sit := sit + 1;
      }
    }
    assert ds[sit..] == [];
  }

  lemma EraseStep(ds: seq<Addr>, es: seq<Addr>, lo: nat, sit: nat, serial: string, tail: seq<Addr>)
    requires lo <= sit < |ds| && es == ds[..sit] + ds[sit + 1..] && Serial(ds[sit]) == serial
    requires NoneBetween(ds, lo, sit, serial) && SameOthers(ds[lo..], tail, serial)
    ensures NoneBetween(es, lo, sit, serial) && SameOthers(es[lo..], tail, serial)
  {
    EraseKeepsOthers(ds[lo..], sit - lo, serial);
    assert es[lo..] == ds[lo..][..sit - lo] + ds[lo..][sit - lo + 1..];
    SameOthersTransitive(es[lo..], ds[lo..], tail, serial);
  }

  lemma EraseShape(ds: seq<Addr>, es: seq<Addr>, lo: nat, sit: nat)
    requires lo <= sit < |ds| && es == ds[..sit] + ds[sit + 1..] && AllDistinct(ds)
    ensures es[..lo] == ds[..lo] && es[sit..] == ds[sit + 1..] && AllDistinct(es)
  {
  }

  lemma EraseKeepsOthers(a: seq<Addr>, i: nat, serial: string)
    requires i < |a| && Serial(a[i]) == serial
    ensures SameOthers(a[..i] + a[i + 1..], a, serial)
  {
    var b := a[..i] + a[i + 1..];
    forall s, key | s != serial
      ensures Values(b, s, key) == Values(a, s, key)
    {
      ValuesErase(a, i, s, key);
    }
    assert a == a[..i] + [a[i]] + a[i + 1..];
  }

  // ----- The outer loop

  ghost predicate HasSerial(ds: seq<Addr>, s: string) {
    exists d :: d in ds && Serial(d) == s
  }

  /** Addresses without a serial share the group of the empty one. */
  lemma NoSerialGroup(ds: seq<Addr>)
    ensures HasSerial(ds, "") <==>
            exists d :: d in ds && (HasKey(d, "serial") ==> Get(d, "serial") == "")
  {
    if d :| d in ds && (HasKey(d, "serial") ==> Get(d, "serial") == "") { assert Serial(d) == ""; }
  }

  /** Every serial among `all` is either grouped for good or still wholly ahead. */
  ghost predicate Settled(found: map<string, Group>, ahead: seq<Addr>, all: seq<Addr>, s: string) {
    if s in found then IsGroupOf(found[s], all, s) && HasSerial(all, s) && !HasSerial(ahead, s)
    else
      && (forall key :: Values(ahead, s, key) == Values(all, s, key))
      && (HasSerial(ahead, s) <==> HasSerial(all, s))
  }

  lemma SettleThis(found: map<string, Group>, ds0: seq<Addr>, ds: seq<Addr>, g1: Group, g: Group, all: seq<Addr>)
    requires ds0 != [] && Settled(found, ds0, all, Serial(ds0[0]))
    requires forall key :: Held(g1, key) == Contribution(ds0[0], Serial(ds0[0]), key)
    requires NonEmpty(g) && Accounts(g, [], g1, ds0[1..], Serial(ds0[0]))
    requires !HasSerial(ds, Serial(ds0[0]))
    ensures Settled(found[Serial(ds0[0]) := g], ds, all, Serial(ds0[0]))
  {
    var serial := Serial(ds0[0]);
    assert ds0[0] in ds0;
    assert HasSerial(ds0, serial);
    forall key
      ensures Held(g, key) == Values(all, serial, key)
    {
      assert Held(g, key) + Values([], serial, key) == Held(g1, key) + Values(ds0[1..], serial, key);
    }
  }

  lemma SettleOther(found: map<string, Group>, ds0: seq<Addr>, ds: seq<Addr>, g: Group, all: seq<Addr>, s: string)
    requires ds0 != [] && s != Serial(ds0[0])
    requires Settled(found, ds0, all, s) && SameOthers(ds, ds0[1..], Serial(ds0[0]))
    ensures Settled(found[Serial(ds0[0]) := g], ds, all, s)
  {
    assert ds0 == [ds0[0]] + ds0[1..];
    assert HasSerial(ds, s) <==> HasSerial(ds0, s);
    forall key
      ensures Values(ds, s, key) == Values(ds0, s, key)
    {
      assert Values(ds, s, key) == Values(ds0[1..], s, key);
    }
  }

  /** Groups all addresses by serial. Each serial's entry is reset once, when its first
      address comes up, and what it then collects is final. */
  method GroupBySerial(all: seq<Addr>) returns (found: map<string, Group>)
    requires AllDistinct(all)
    ensures forall s :: s in found <==> HasSerial(all, s)
    ensures forall s :: s in found ==> IsGroupOf(found[s], all, s)
  {
    found := map[];
    var ds := all;
    var it := 0;
    while it != |ds|
      invariant it <= |ds| && AllDistinct(ds)
      invariant forall s :: Settled(found, ds[it..], all, s)
      decreases |ds| - it
    {
      var serial := Serial(ds[it]);
      ghost var ahead, before := ds[it..], found;
      assert ahead[1..] == ds[it + 1..];
      var first := AddAddress(map[], ds[it]);
      var g;
      ds, g := Absorb(ds, it, serial, first);
      found := found[serial := g];
      it := it + 1;
      forall s
        ensures Settled(found, ds[it..], all, s)
      {
        assert Settled(before, ahead, all, serial) && Settled(before, ahead, all, s);
        if s == serial {
          SettleThis(before, ahead, ds[it..], first, g, all);
        } else {
          SettleOther(before, ahead, ds[it..], g, all, s);
        }
      }
    }
    forall s
      ensures s in found <==> HasSerial(all, s)
      ensures s in found ==> IsGroupOf(found[s], all, s)
    {
      assert Settled(found, ds[it..], all, s);
    }
  }
}
