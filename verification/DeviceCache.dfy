/** `device::make` and its cache of weak pointers. */
module DeviceCache {
  import opened Dict
  import opened DeviceHash
  import opened DeviceFind

  /** A device object made by `maker` from `args`. */
  class Device {
    const maker: nat
    const args: Addr

    constructor (maker: nat, args: Addr)
      ensures this.maker == maker && this.args == args
    {
      this.maker := maker;
      this.args := args;
    }
  }

  /** The address with the keys that are in the hint but not in it. */
  function MergeSpec(addr: Addr, hint: Addr): Addr {
    if hint == [] then addr else
      var front, last := MergeSpec(addr, hint[..|hint| - 1]), hint[|hint| - 1];
      if HasKey(front, last.key) then front else Put(front, last.key, last.value)
  }

  method Merge(addr: Addr, hint: Addr) returns (r: Addr)
    requires Distinct(hint)
    ensures r == MergeSpec(addr, hint)
  {
    r := addr;
    for i := 0 to |hint|
      invariant r == MergeSpec(addr, hint[..i])
    {
      var key := hint[i].key;
      FindUnique(hint, i);
      assert hint[..i + 1][..i] == hint[..i];
      if !HasKey(r, key) {
        r := Put(r, key, Get(hint, key));
      }
    }
    assert hint[..|hint|] == hint;
  }

  /** Merging never changes what the address says; the hint fills the gaps. */
  lemma {:induction false} MergeLookup(addr: Addr, hint: Addr, k: string)
    requires Distinct(addr) && Distinct(hint)
    ensures
      var m := MergeSpec(addr, hint);
      && Distinct(m)
      && (HasKey(m, k) <==> HasKey(addr, k) || HasKey(hint, k))
      && (HasKey(m, k) ==> Get(m, k) == if HasKey(addr, k) then Get(addr, k) else Get(hint, k))
  {
    if hint != [] {
      var n := |hint| - 1;
      var front, last := hint[..n], hint[n];
      MergeLookup(addr, front, k);
      MergeLookup(addr, front, last.key);
      PutLookup(MergeSpec(addr, front), last.key, last.value, k);
      FindUnique(hint, n);
      if HasKey(hint, k) && k != last.key {
        FindUnique(front, Find(hint, k));
      }
      if HasKey(front, k) {
        assert hint[Find(front, k)].key == k;
        FindUnique(hint, Find(front, k));
      }
    }
  }

  /** The entries of the hint whose keys the address lacks, in the hint's order. */
  function Missing(addr: Addr, hint: Addr): Addr {
    if hint == [] then []
    else (if HasKey(addr, hint[0].key) then [] else [hint[0]]) + Missing(addr, hint[1..])
  }

  lemma {:induction false} MissingSnoc(addr: Addr, hint: Addr, e: Entry<string, string>)
    ensures Missing(addr, hint + [e]) == Missing(addr, hint) + if HasKey(addr, e.key) then [] else [e]
  {
    if hint != [] {
      assert (hint + [e])[1..] == hint[1..] + [e];
      MissingSnoc(addr, hint[1..], e);
    }
  }

  /** Merging leaves the address in front as it is and appends what is missing. */
  lemma {:induction false} MergeAppends(addr: Addr, hint: Addr)
    requires Distinct(addr) && Distinct(hint)
    ensures MergeSpec(addr, hint) == addr + Missing(addr, hint)
  {
    if hint == [] {
      assert addr + [] == addr;
    } else {
      var n := |hint| - 1;
      var front, last := hint[..n], hint[n];
      MergeAppends(addr, front);
      MergeLookup(addr, front, last.key);
      FindUnique(hint, n);
      assert front + [last] == hint;
      MissingSnoc(addr, front, last);
      assert forall j :: 0 <= j < n ==> front[j].key != last.key;
    }
  }

  // ----- The cache

  /** The static map of weak pointers, the devices still held by someone, and the hash each
      device was made under. */
  datatype State = State(cache: map<nat, Device>, live: set<Device>, madeAs: map<Device, nat>)

  const START := State(map[], {}, map[])

  datatype Event =
    | Make(hash: nat, made: Device, makerThrows: bool)
    | Release(device: Device)

  /** A weak pointer locks while its device is live. */
  predicate Locks(s: State, hash: nat) {
    hash in s.cache && s.cache[hash] in s.live
  }

  function Step(s: State, e: Event): State {
    match e
    case Release(d) => s.(live := s.live - {d})
    case Make(h, d, makerThrows) =>
      if Locks(s, h) || makerThrows then s
      else State(s.cache[h := d], s.live + {d}, s.madeAs[d := h])
  }

  function Reply(s: State, e: Event): Result<Device>
    requires e.Make?
  {
    if Locks(s, e.hash) then Ok(s.cache[e.hash])
    else if e.makerThrows then MakerError
    else Ok(e.made)
  }

  /** Every live device is the one its hash leads to. */
  ghost predicate Consistent(s: State) {
    forall d :: d in s.live ==> d in s.madeAs && s.madeAs[d] in s.cache && s.cache[s.madeAs[d]] == d
  }

  lemma StepConsistent(s: State, e: Event)
    requires Consistent(s) && (e.Make? ==> e.made !in s.madeAs)
    ensures Consistent(Step(s, e))
  {
  }

  function Run(es: seq<Event>): State {
    if es == [] then START else Step(Run(es[..|es| - 1]), es[|es| - 1])
  }

  /** Every maker call returns a new object. */
  ghost predicate MakersAreFresh(es: seq<Event>) {
    es == [] ||
    var front, e := es[..|es| - 1], es[|es| - 1];
    MakersAreFresh(front) && (e.Make? ==> e.made !in Run(front).madeAs)
  }

  lemma {:induction false} RunIsConsistent(es: seq<Event>)
    requires MakersAreFresh(es)
    ensures Consistent(Run(es))
  {
    if es != [] {
      RunIsConsistent(es[..|es| - 1]);
      StepConsistent(Run(es[..|es| - 1]), es[|es| - 1]);
    }
  }

  lemma {:induction false} RunCacheAgrees(es: seq<Event>, h: nat)
    requires MakersAreFresh(es)
    ensures
      var s := Run(es);
      h in s.cache ==> s.cache[h] in s.madeAs && s.madeAs[s.cache[h]] == h
  {
    if es != [] {
      RunCacheAgrees(es[..|es| - 1], h);
    }
  }

  /** After any sequence of makes, failed makes and releases, at most one live device was
      made under each hash. */
  lemma OneLiveDevicePerHash(es: seq<Event>, d: Device, d': Device)
    requires MakersAreFresh(es)
    requires d in Run(es).live && d' in Run(es).live
    ensures d in Run(es).madeAs && d' in Run(es).madeAs
    ensures Run(es).madeAs[d] == Run(es).madeAs[d'] ==> d == d'
  {
    RunIsConsistent(es);
  }

  /** A make returns the live device of its hash when there is one, and otherwise calls the
      maker. */
  lemma MakeReturnsLiveDevice(es: seq<Event>, e: Event)
    requires MakersAreFresh(es) && e.Make?
    ensures
      var s := Run(es);
      && (forall d: Device :: d in s.live && d in s.madeAs && s.madeAs[d] == e.hash ==>
            Reply(s, e) == Ok(d) && Step(s, e) == s)
      && ((forall d :: d in s.live && d in s.madeAs ==> s.madeAs[d] != e.hash) ==>
            Reply(s, e) == if e.makerThrows then MakerError else Ok(e.made))
  {
    RunIsConsistent(es);
    RunCacheAgrees(es, e.hash);
  }

  /** A device just made is live under its hash, and the next make of that hash returns it. */
  lemma MakeKeepsAlive(es: seq<Event>, e: Event, again: Event)
    requires MakersAreFresh(es) && e.Make? && Reply(Run(es), e).Ok?
    requires again.Make? && again.hash == e.hash
    ensures
      var s, d := Step(Run(es), e), Reply(Run(es), e).value;
      && d in s.live && d in s.madeAs && s.madeAs[d] == e.hash
      && s.live == Run(es).live + {d}
      && Reply(s, again) == Ok(d)
  {
    RunIsConsistent(es);
    RunCacheAgrees(es, e.hash);
  }

  /** Releasing the last pointer to a device ends its life and no other one's: the next make
      of its hash calls the maker. */
  lemma ReleaseEndsLife(es: seq<Event>, d: Device, again: Event)
    requires MakersAreFresh(es) && d in Run(es).live
    requires again.Make? && d in Run(es).madeAs && again.hash == Run(es).madeAs[d]
    ensures
      var s := Step(Run(es), Release(d));
      && s.live == Run(es).live - {d} && s.madeAs == Run(es).madeAs
      && Reply(s, again) == if again.makerThrows then MakerError else Ok(again.made)
  {
    RunIsConsistent(es);
  }

  /** A failed make, and a make that finds a live device, change nothing. */
  lemma FailedMakeChangesNothing(s: State, e: Event)
    requires e.Make? && (!Reply(s, e).Ok? || Reply(s, e).value in s.live)
    requires e.made !in s.live
    ensures Step(s, e) == s
  {
  }

  /** The pair `make` picks, or why it cannot. */
  function Pick(combine: Combine, hint: Addr, found: seq<Found>, serials: SerialsMatch, which: nat): (r: Result<Found>)
    requires AllDistinct(found)
    ensures r.Ok? ==> Distinct(r.value.addr)
  {
    var f := FindSpec(combine, hint, found, serials);
    if !f.Ok? || f.value == [] then KeyError
    else if |f.value| <= which then IndexError
    else FindDistinct(combine, hint, found, serials); Ok(f.value[which])
  }

  /** Which pair is picked and which error is raised: no matching device is a key error, a
      number beyond the last one an index error, and otherwise it is the pair of that number. */
  lemma PickExact(combine: Combine, hint: Addr, found: seq<Found>, serials: SerialsMatch, which: nat)
    requires AllDistinct(found)
    ensures
      var f, r := FindSpec(combine, hint, found, serials), Pick(combine, hint, found, serials, which);
      && (r.KeyError? <==> f.KeyError? || (f.Ok? && f.value == []))
      && (r.IndexError? <==> f.Ok? && 0 < |f.value| <= which)
      && (r.Ok? <==> f.Ok? && which < |f.value|)
      && (r.Ok? ==> r.value == f.value[which])
  {
  }

  /** The two hints agree on every key discovery compares. */
  ghost predicate SameSearch(hint: Addr, hint': Addr) {
    && AgreeOn(hint, hint', "name") && AgreeOn(hint, hint', "serial")
    && AgreeOn(hint, hint', "type") && AgreeOn(hint, hint', "product")
  }

  lemma SameVerdict(hint: Addr, hint': Addr, d: Addr, serials: SerialsMatch)
    requires SameSearch(hint, hint')
    ensures Judge(hint, d, serials) == Judge(hint', d, serials)
  {
  }

  lemma {:induction false} SameFilter(hint: Addr, hint': Addr, found: seq<Found>, serials: SerialsMatch)
    requires SameSearch(hint, hint')
    ensures FilterSpec(hint, found, serials) == FilterSpec(hint', found, serials)
  {
    if found != [] {
      SameFilter(hint, hint', found[..|found| - 1], serials);
      SameVerdict(hint, hint', found[|found| - 1].addr, serials);
    }
  }

  /** Extra hint keys never split a device: hints that agree on name, serial, type and product
      pick the same discovered pair, and with it the same hash. */
  lemma ExtraKeysPickTheSame(combine: Combine, hint: Addr, hint': Addr, found: seq<Found>,
                             serials: SerialsMatch, which: nat)
    requires AllDistinct(found) && SameSearch(hint, hint')
    ensures Pick(combine, hint, found, serials, which) == Pick(combine, hint', found, serials, which)
  {
    SameFilter(hint, hint', found, serials);
  }

  class Registry {
    var hashToDevice: map<nat, Device>
    var live: set<Device>
    ghost var madeAs: map<Device, nat>

    ghost function GetState(): State
      reads this
    {
      State(hashToDevice, live, madeAs)
    }

    constructor ()
      ensures GetState() == START && live == {} && hashToDevice == map[]
    {
      hashToDevice, live, madeAs := map[], {}, map[];
    }

    /** The last shared pointer to a device goes away. */
    method ReleaseDevice(d: Device)
      modifies this`live
      ensures GetState() == Step(old(GetState()), Release(d))
      ensures live == old(live) - {d} && hashToDevice == old(hashToDevice) && madeAs == old(madeAs)
    {
      live := live - {d};
    }

    /** `device::make`. The hash is taken from the discovered address before hint keys are
        merged in, so it does not depend on them. */
    method MakeDevice(combine: Combine, hint: Addr, found: seq<Found>, serials: SerialsMatch, which: nat,
                      usrpArgs: Addr -> Addr, makerThrows: bool)
      returns (r: Result<Device>)
      requires AllDistinct(found) && Distinct(hint)
      modifies this
      ensures
        var pick := Pick(combine, hint, found, serials, which);
        var s := old(GetState());
        match pick
        case KeyError => r.KeyError? && GetState() == s
        case IndexError => r.IndexError? && GetState() == s
        case MakerError => false
        case Ok(p) =>
          var h := HashOf(combine, p.addr);
          if Locks(s, h) then r == Ok(s.cache[h]) && GetState() == s
          else if makerThrows then r.MakerError? && GetState() == s
          else
            && r.Ok? && fresh(r.value) && GetState() == Step(s, Make(h, r.value, false))
            && r.value.maker == p.maker && r.value.args == usrpArgs(MergeSpec(p.addr, hint))
      ensures r.Ok? ==> r.value in live && live == old(live) + {r.value}
    {
      var f := FindFiltered(combine, hint, found, serials);
      if !f.Ok? || f.value == [] { return KeyError; }
      if |f.value| <= which { return IndexError; }
      FindDistinct(combine, hint, found, serials);
      var pick := f.value[which];
      var devHash := HashDeviceAddr(combine, pick.addr);
      var devAddr := Merge(pick.addr, hint);
      if devHash in hashToDevice && hashToDevice[devHash] in live {
        return Ok(hashToDevice[devHash]);
      }
      if makerThrows { return MakerError; }
      var dev := new Device(pick.maker, usrpArgs(devAddr));
      hashToDevice := hashToDevice[devHash := dev];
      live := live + {dev};
      madeAs := madeAs[dev := devHash];
      return Ok(dev);
    }
  }
}
