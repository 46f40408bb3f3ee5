/** Device addresses and their canonical hash. */
module DeviceHash {
  import opened Dict

  /** `device_addr_t`: an insertion-ordered dictionary of strings. */
  type Addr = Dict<string, string>

  const BLACKLIST: set<string> := {"claimed", "skip_dram", "skip_ddc", "skip_duc"}

  // ----- `uhd::sorted` on keys

  /** Lexicographic order on strings, as `operator<=` compares them. */
  predicate Leq(a: string, b: string) {
    a == "" || (b != "" && (a[0] < b[0] || (a[0] == b[0] && Leq(a[1..], b[1..]))))
  }

  lemma {:induction false} LeqTotal(a: string, b: string)
    ensures Leq(a, b) || Leq(b, a)
    ensures Leq(a, b) && Leq(b, a) ==> a == b
  {
    if a != "" && b != "" && a[0] == b[0] {
      LeqTotal(a[1..], b[1..]);
      assert a == [a[0]] + a[1..] && b == [b[0]] + b[1..];
    }
  }

  lemma {:induction false} LeqTransitive(a: string, b: string, c: string)
    requires Leq(a, b) && Leq(b, c)
    ensures Leq(a, c)
  {
    if a != "" && a[0] == b[0] == c[0] {
      LeqTransitive(a[1..], b[1..], c[1..]);
    }
  }

  /** Keys in strictly ascending order. */
  ghost predicate IsSorted(s: seq<string>) {
    forall i, j :: 0 <= i < j < |s| ==> Leq(s[i], s[j]) && s[i] != s[j]
  }

  function Insert(k: string, s: seq<string>): seq<string> {
    if s == [] || Leq(k, s[0]) then [k] + s else [s[0]] + Insert(k, s[1..])
  }

  function Sorted(s: seq<string>): seq<string> {
    if s == [] then [] else Insert(s[0], Sorted(s[1..]))
  }

  lemma {:induction false} InsertSorted(k: string, s: seq<string>)
    requires IsSorted(s) && k !in s
    ensures IsSorted(Insert(k, s))
    ensures forall x :: x in Insert(k, s) <==> x == k || x in s
  {
    var r := Insert(k, s);
    if s != [] {
      assert s == [s[0]] + s[1..];
      LeqTotal(k, s[0]);
      if Leq(k, s[0]) {
        forall j | 0 < j < |r| ensures Leq(k, r[j]) { if j > 1 { LeqTransitive(k, s[0], s[j - 1]); } }
      } else {
        var t := Insert(k, s[1..]);
        InsertSorted(k, s[1..]);
        forall j | 0 < j < |r|
          ensures Leq(r[0], r[j]) && r[0] != r[j]
        {
          assert r[j] == t[j - 1] && t[j - 1] in t;
        }
      }
    }
  }

  lemma {:induction false} SortedIsSorted(s: seq<string>)
    requires NoDup(s)
    ensures IsSorted(Sorted(s))
    ensures forall x :: x in Sorted(s) <==> x in s
  {
    if s != [] {
      assert s == [s[0]] + s[1..];
      NoDupTail(s);
      SortedIsSorted(s[1..]);
      InsertSorted(s[0], Sorted(s[1..]));
    }
  }

  lemma FirstIsLeast(s: seq<string>, x: string)
    requires IsSorted(s) && x in s
    ensures Leq(s[0], x)
  {
    LeqTotal(s[0], s[0]);
  }

  lemma TailMembers(s: seq<string>, x: string)
    requires IsSorted(s) && s != []
    ensures x in s[1..] <==> x in s && x != s[0]
  {
    assert s == [s[0]] + s[1..];
  }

  /** A sorted key sequence is determined by its set of keys. */
  lemma {:induction false} SortedUnique(a: seq<string>, b: seq<string>)
    requires IsSorted(a) && IsSorted(b) && forall x :: x in a <==> x in b
    ensures a == b
  {
    assert a != [] ==> a[0] in a;
    assert b != [] ==> b[0] in b;
    if a != [] {
      FirstIsLeast(b, a[0]);
      FirstIsLeast(a, b[0]);
      LeqTotal(a[0], b[0]);
      forall x
        ensures x in a[1..] <==> x in b[1..]
      {
        TailMembers(a, x);
        TailMembers(b, x);
      }
      SortedUnique(a[1..], b[1..]);
      assert a == [a[0]] + a[1..] && b == [b[0]] + b[1..];
    }
  }

  /** The order of keys is that of a dictionary: the first difference decides, and a string
      comes before its extensions. */
  lemma {:induction false} LeqAtFirstDifference(a: string, b: string, c: string)
    ensures Leq(c, c + a)
    ensures a != "" && b != "" && a[0] != b[0] ==> (Leq(c + a, c + b) <==> a[0] < b[0])
    ensures a != "" ==> !Leq(c + a, c)
  {
    if c != "" {
      assert (c + a)[1..] == c[1..] + a && (c + b)[1..] == c[1..] + b;
      LeqAtFirstDifference(a, b, c[1..]);
    } else {
      assert c + a == a && c + b == b;
    }
  }

  // ----- The hash

  /** `boost::hash_combine` is any function of the running hash and a string. */
  type Combine = (nat, string) -> nat

  function HashKeys(combine: Combine, d: Addr, ks: seq<string>, hash: nat): nat
    requires forall k :: k in ks ==> HasKey(d, k)
  {
    if ks == [] then hash
    else HashKeys(combine, d, ks[1..],
                  if ks[0] in BLACKLIST then hash else combine(combine(hash, ks[0]), Get(d, ks[0])))
  }

  /** The canonical hash: of the resource alone when there is one, otherwise of all keys
      that are not blacklisted, in sorted order. */
  function HashOf(combine: Combine, d: Addr): nat
    requires Distinct(d)
  {
    if HasKey(d, "resource") then combine(combine(0, "resource"), Get(d, "resource"))
    else KeysAreHeld(d); HashKeys(combine, d, Sorted(Keys(d)), 0)
  }

  lemma KeysAreHeld(d: Addr)
    requires Distinct(d)
    ensures NoDup(Keys(d)) && IsSorted(Sorted(Keys(d)))
    ensures forall k :: k in Sorted(Keys(d)) <==> HasKey(d, k)
  {
    SortedIsSorted(Keys(d));
    forall k
      ensures k in Keys(d) <==> HasKey(d, k)
    {
      HasKeyIff(d, k);
    }
  }

  /** `hash_device_addr`. */
  method HashDeviceAddr(combine: Combine, d: Addr) returns (hash: nat)
    requires Distinct(d)
    ensures hash == HashOf(combine, d)
  {
    hash := 0;
    if HasKey(d, "resource") {
      hash := combine(hash, "resource");
      hash := combine(hash, Get(d, "resource"));
    } else {
      KeysAreHeld(d);
      var ks := Sorted(Keys(d));
      assert ks[0..] == ks;
      for i := 0 to |ks|
        invariant HashKeys(combine, d, ks[i..], hash) == HashKeys(combine, d, ks, 0)
      {
        assert ks[i..][0] == ks[i] && ks[i..][1..] == ks[i + 1..];
        if ks[i] !in BLACKLIST {
          hash := combine(hash, ks[i]);
          hash := combine(hash, Get(d, ks[i]));
        }
      }
    }
  }

  function Relevant(ks: seq<string>): seq<string> {
    if ks == [] then [] else (if ks[0] in BLACKLIST then [] else [ks[0]]) + Relevant(ks[1..])
  }

  lemma {:induction false} RelevantFacts(ks: seq<string>)
    requires IsSorted(ks)
    ensures IsSorted(Relevant(ks))
    ensures forall x :: x in Relevant(ks) <==> x in ks && x !in BLACKLIST
  {
    if ks != [] {
      RelevantFacts(ks[1..]);
      assert ks == [ks[0]] + ks[1..];
      var r := Relevant(ks[1..]);
      forall j | 0 <= j < |r|
        ensures Leq(ks[0], r[j]) && r[j] != ks[0]
      {
        assert r[j] in r;
      }
    }
  }

  lemma {:induction false} HashOfRelevant(combine: Combine, d: Addr, ks: seq<string>, hash: nat)
    requires IsSorted(ks) && forall k :: k in ks ==> HasKey(d, k)
    ensures forall k :: k in Relevant(ks) ==> HasKey(d, k)
    ensures HashKeys(combine, d, ks, hash) == HashKeys(combine, d, Relevant(ks), hash)
  {
    RelevantFacts(ks);
    if ks != [] {
      var h := if ks[0] in BLACKLIST then hash else combine(combine(hash, ks[0]), Get(d, ks[0]));
      HashOfRelevant(combine, d, ks[1..], h);
      if ks[0] in BLACKLIST {
        assert Relevant(ks) == Relevant(ks[1..]);
      } else {
        assert Relevant(ks)[0] == ks[0] && Relevant(ks)[1..] == Relevant(ks[1..]);
      }
    }
  }

  lemma {:induction false} HashOfSameValues(combine: Combine, d: Addr, e: Addr, ks: seq<string>, hash: nat)
    requires forall k :: k in ks ==> HasKey(d, k) && HasKey(e, k) && Get(d, k) == Get(e, k)
    ensures HashKeys(combine, d, ks, hash) == HashKeys(combine, e, ks, hash)
  {
    if ks != [] {
      HashOfSameValues(combine, d, e, ks[1..],
                       if ks[0] in BLACKLIST then hash else combine(combine(hash, ks[0]), Get(d, ks[0])));
    }
  }

  ghost predicate AgreeOn(d: Addr, e: Addr, k: string) {
    (HasKey(d, k) <==> HasKey(e, k)) && (HasKey(d, k) ==> Get(d, k) == Get(e, k))
  }

  /** The two addresses name the same device: by resource when either has one, otherwise by
      every key that is not blacklisted. */
  ghost predicate SameDevice(d: Addr, e: Addr) {
    && AgreeOn(d, e, "resource")
    && (HasKey(d, "resource") || forall k :: k !in BLACKLIST ==> AgreeOn(d, e, k))
  }

  /** The hash depends neither on the order of the keys nor on the blacklisted ones: two
      addresses of the same device hash alike. */
  lemma HashIsCanonical(combine: Combine, d: Addr, e: Addr)
    requires Distinct(d) && Distinct(e) && SameDevice(d, e)
    ensures HashOf(combine, d) == HashOf(combine, e)
  {
    if !HasKey(d, "resource") {
      var ks, ls := Sorted(Keys(d)), Sorted(Keys(e));
      KeysAreHeld(d);
      KeysAreHeld(e);
      HashOfRelevant(combine, d, ks, 0);
      HashOfRelevant(combine, e, ls, 0);
      RelevantFacts(ks);
      RelevantFacts(ls);
      forall k
        ensures k in Relevant(ks) <==> k in Relevant(ls)
        ensures k in Relevant(ks) ==> HasKey(d, k) && HasKey(e, k) && Get(d, k) == Get(e, k)
      {
        if k !in BLACKLIST { assert AgreeOn(d, e, k); }
      }
      SortedUnique(Relevant(ks), Relevant(ls));
      HashOfSameValues(combine, d, e, Relevant(ks), 0);
    }
  }

  // ----- The hash as an identity

  /** Everything combined into the hash, in order. */
  function Trail(d: Addr, ks: seq<string>): seq<string>
    requires forall k :: k in ks ==> HasKey(d, k)
  {
    if ks == [] then [] else [ks[0], Get(d, ks[0])] + Trail(d, ks[1..])
  }

  function FoldHash(combine: Combine, trail: seq<string>): nat {
    if trail == [] then 0 else combine(FoldHash(combine, trail[..|trail| - 1]), trail[|trail| - 1])
  }

  lemma FoldSnoc(combine: Combine, trail: seq<string>, s: string)
    ensures FoldHash(combine, trail + [s]) == combine(FoldHash(combine, trail), s)
  {
    assert (trail + [s])[..|trail|] == trail;
  }

  lemma {:induction false} HashKeysIsFold(combine: Combine, d: Addr, ks: seq<string>, before: seq<string>)
    requires forall k :: k in ks ==> HasKey(d, k) && k !in BLACKLIST
    ensures HashKeys(combine, d, ks, FoldHash(combine, before)) == FoldHash(combine, before + Trail(d, ks))
    decreases |ks|
  {
    if ks == [] {
      assert before + Trail(d, ks) == before;
    } else {
      var k, v, rest := ks[0], Get(d, ks[0]), Trail(d, ks[1..]);
      FoldSnoc(combine, before, k);
      FoldSnoc(combine, before + [k], v);
      HashKeysIsFold(combine, d, ks[1..], before + [k] + [v]);
      assert before + ([k, v] + rest) == before + [k] + [v] + rest;
    }
  }

  /** The two trails' last steps collide: the combine takes different arguments to one hash,
      or leads back from a whole trail to the start value. */
  ghost predicate StepsCollide(combine: Combine, a: seq<string>, b: seq<string>) {
    && FoldHash(combine, a) == FoldHash(combine, b) && a != b
    && (a == [] || b == [] ||
        FoldHash(combine, a[..|a| - 1]) != FoldHash(combine, b[..|b| - 1]) || a[|a| - 1] != b[|b| - 1])
  }

  /** Somewhere along the two trails the combine concretely collides. */
  ghost predicate TrailsCollide(combine: Combine, a: seq<string>, b: seq<string>) {
    exists i: nat, j: nat :: i <= |a| && j <= |b| && StepsCollide(combine, a[..i], b[..j])
  }

  lemma {:induction false} EqualFolds(combine: Combine, a: seq<string>, b: seq<string>)
    requires FoldHash(combine, a) == FoldHash(combine, b)
    ensures a == b || TrailsCollide(combine, a, b)
  {
    assert a[..|a|] == a && b[..|b|] == b;
    if a != b && !StepsCollide(combine, a[..|a|], b[..|b|]) {
      var a0, b0 := a[..|a| - 1], b[..|b| - 1];
      assert a == a0 + [a[|a| - 1]] && b == b0 + [b[|b| - 1]];
      EqualFolds(combine, a0, b0);
      var i: nat, j: nat :| i <= |a0| && j <= |b0| && StepsCollide(combine, a0[..i], b0[..j]);
      assert a0[..i] == a[..i] && b0[..j] == b[..j];
    }
  }

  lemma {:induction false} TrailDetermines(d: Addr, e: Addr, ks: seq<string>, ls: seq<string>)
    requires forall k :: k in ks ==> HasKey(d, k)
    requires forall k :: k in ls ==> HasKey(e, k)
    requires Trail(d, ks) == Trail(e, ls)
    ensures ks == ls && forall k :: k in ks ==> Get(d, k) == Get(e, k)
  {
    assert ks != [] ==> Trail(d, ks)[2..] == Trail(d, ks[1..]) && ks == [ks[0]] + ks[1..];
    assert ls != [] ==> Trail(e, ls)[2..] == Trail(e, ls[1..]) && ls == [ls[0]] + ls[1..];
    if ks != [] && ls != [] {
      assert Trail(d, ks)[0] == ks[0] && Trail(d, ks)[1] == Get(d, ks[0]);
      TrailDetermines(d, e, ks[1..], ls[1..]);
    }
  }

  /** The trail is the keys in order, each followed by its value. */
  lemma {:induction false} TrailAt(d: Addr, ks: seq<string>, i: nat)
    requires forall k :: k in ks ==> HasKey(d, k)
    requires i < |ks|
    ensures |Trail(d, ks)| == 2 * |ks|
    ensures Trail(d, ks)[2 * i] == ks[i] && Trail(d, ks)[2 * i + 1] == Get(d, ks[i])
  {
    if i > 0 {
      TrailAt(d, ks[1..], i - 1);
    } else if |ks| > 1 {
      TrailAt(d, ks[1..], 0);
    } else {
      assert Trail(d, ks[1..]) == [];
    }
  }

  /** The keys and values that identify a device. */
  function IdentityTrail(d: Addr): seq<string>
    requires Distinct(d)
  {
    if HasKey(d, "resource") then ["resource", Get(d, "resource")]
    else
      KeysAreHeld(d);
      RelevantFacts(Sorted(Keys(d)));
      Trail(d, Relevant(Sorted(Keys(d))))
  }

  lemma HashIsFold(combine: Combine, d: Addr)
    requires Distinct(d)
    ensures HashOf(combine, d) == FoldHash(combine, IdentityTrail(d))
  {
    if HasKey(d, "resource") {
      var r := "resource";
      FoldSnoc(combine, [], r);
      FoldSnoc(combine, [r], Get(d, r));
      assert [] + [r] == [r] && [r] + [Get(d, r)] == IdentityTrail(d);
    } else {
      var ks := Sorted(Keys(d));
      KeysAreHeld(d);
      RelevantFacts(ks);
      HashOfRelevant(combine, d, ks, 0);
      HashKeysIsFold(combine, d, Relevant(ks), []);
      assert [] + Trail(d, Relevant(ks)) == Trail(d, Relevant(ks));
    }
  }

  /** For every combine: two addresses hash alike exactly when they name the same device,
      unless the combine concretely collides along their two trails. */
  lemma HashIsIdentity(combine: Combine, d: Addr, e: Addr)
    requires Distinct(d) && Distinct(e)
    ensures SameDevice(d, e) ==> HashOf(combine, d) == HashOf(combine, e)
    ensures HashOf(combine, d) == HashOf(combine, e) && !SameDevice(d, e) ==>
              TrailsCollide(combine, IdentityTrail(d), IdentityTrail(e))
  {
    if SameDevice(d, e) {
      HashIsCanonical(combine, d, e);
    } else if HashOf(combine, d) == HashOf(combine, e) {
      HashIsFold(combine, d);
      HashIsFold(combine, e);
      EqualFolds(combine, IdentityTrail(d), IdentityTrail(e));
      if IdentityTrail(d) == IdentityTrail(e) { SameTrailSameDevice(d, e); }
    }
  }

  lemma SameTrailSameDevice(d: Addr, e: Addr)
    requires Distinct(d) && Distinct(e) && IdentityTrail(d) == IdentityTrail(e)
    ensures SameDevice(d, e)
  {
    var ks, ls := Sorted(Keys(d)), Sorted(Keys(e));
    KeysAreHeld(d);
    KeysAreHeld(e);
    RelevantFacts(ks);
    RelevantFacts(ls);
    if !HasKey(d, "resource") && !HasKey(e, "resource") {
      TrailDetermines(d, e, Relevant(ks), Relevant(ls));
      forall k | k !in BLACKLIST
        ensures AgreeOn(d, e, k)
      {
        assert k in Relevant(ks) <==> k in Relevant(ls);
      }
    } else if !HasKey(d, "resource") {
      TrailHead(d, Relevant(ks));
    } else if !HasKey(e, "resource") {
      TrailHead(e, Relevant(ls));
    }
  }

  /** A trail that is not empty starts with one of its keys. */
  lemma TrailHead(d: Addr, ks: seq<string>)
    requires forall k :: k in ks ==> HasKey(d, k)
    ensures Trail(d, ks) != [] ==> Trail(d, ks)[0] in ks
  {
  }

  /** Of a single entry the key is hashed first, then the value. */
  lemma HashOfOneEntry(combine: Combine, k: string, v: string)
    ensures HashOf(combine, [Entry(k, v)]) ==
            if k in ["claimed", "skip_dram", "skip_ddc", "skip_duc"] then 0 else combine(combine(0, k), v)
  {
    var d := [Entry(k, v)];
    FindUnique(d, 0);
    assert HasKey(d, k) && Get(d, k) == v && Keys(d) == [k];
    assert [k][1..] == [] && Sorted([]) == [] && Sorted([k]) == Insert(k, []) == [k];
    var h := if k in BLACKLIST then 0 else combine(combine(0, k), v);
    assert HashKeys(combine, d, [], h) == h;
    assert HashKeys(combine, d, [k], 0) == HashKeys(combine, d, [k][1..], h);
    assert k != "resource" ==> !HasKey(d, "resource");
  }

  /** Setting one of the service keys never changes the hash. */
  lemma ServiceKeysIgnored(combine: Combine, d: Addr, k: string, v: string)
    requires Distinct(d) && k in ["claimed", "skip_dram", "skip_ddc", "skip_duc"]
    ensures Distinct(Put(d, k, v)) && HashOf(combine, Put(d, k, v)) == HashOf(combine, d)
  {
    PutLookup(d, k, v, "resource");
    forall q | q !in BLACKLIST
      ensures AgreeOn(Put(d, k, v), d, q)
    {
      PutLookup(d, k, v, q);
    }
    HashIsCanonical(combine, Put(d, k, v), d);
  }
}
