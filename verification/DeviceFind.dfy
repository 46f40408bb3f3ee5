/** `find_filtered_devices_with_makers`: filter by hint, then drop repeated hashes. */
module DeviceFind {
  import opened Dict
  import opened DeviceHash

  /** A discovered address with the function that would make its device. */
  datatype Found = Found(addr: Addr, maker: nat)

  /** What comparing a hint with an address yields; looking up a key the address lacks throws. */
  datatype Verdict = Match | Mismatch | Throws

  type SerialsMatch = (string, string) -> bool

  function Compare(hint: Addr, d: Addr, key: string, same: (string, string) -> bool): Verdict {
    if !HasKey(hint, key) then Match
    else if !HasKey(d, key) then Throws
    else if same(Get(hint, key), Get(d, key)) then Match
    else Mismatch
  }

  function And(a: Verdict, b: Verdict): Verdict {
    if a.Match? then b else a
  }

  /** Name, serial, type and product, in that order, stopping at the first that fails. */
  function Judge(hint: Addr, d: Addr, serials: SerialsMatch): Verdict {
    And(Compare(hint, d, "name", (a, b) => a == b),
    And(Compare(hint, d, "serial", serials),
    And(Compare(hint, d, "type", (a, b) => a == b || a == "sim"),
        if !HasKey(d, "product") then Match else Compare(hint, d, "product", (a, b) => a == b))))
  }

  /** The hint says nothing about the key, or the address has it and the two fit. */
  predicate Fits(hint: Addr, d: Addr, key: string, same: (string, string) -> bool) {
    HasKey(hint, key) ==> HasKey(d, key) && same(Get(hint, key), Get(d, key))
  }

  predicate FitsName(hint: Addr, d: Addr) {
    Fits(hint, d, "name", (a, b) => a == b)
  }

  /** The comparison reaches a key the hint has and the address lacks: the name first, the
      serial once the name fits, the type once both fit. */
  predicate MissesKey(hint: Addr, d: Addr, serials: SerialsMatch) {
    || (HasKey(hint, "name") && !HasKey(d, "name"))
    || (FitsName(hint, d) && HasKey(hint, "serial") && !HasKey(d, "serial"))
    || (FitsName(hint, d) && Fits(hint, d, "serial", serials) && HasKey(hint, "type") && !HasKey(d, "type"))
  }

  /** An address matches exactly when all four keys fit, where the type also fits a hint of
      "sim" and a missing product fits everything. The comparison throws exactly when it
      reaches a name, serial or type that the address lacks. */
  lemma JudgeMatches(hint: Addr, d: Addr, serials: SerialsMatch)
    ensures Judge(hint, d, serials).Match? <==>
            && FitsName(hint, d)
            && Fits(hint, d, "serial", serials)
            && Fits(hint, d, "type", (a, b) => a == b || a == "sim")
            && (HasKey(d, "product") ==> Fits(hint, d, "product", (a, b) => a == b))
    ensures Judge(hint, d, serials).Throws? <==> MissesKey(hint, d, serials)
  {
  }

  datatype Result<T> = Ok(value: T) | KeyError | IndexError | MakerError

  ghost predicate AllDistinct(fs: seq<Found>) {
    forall i :: 0 <= i < |fs| ==> Distinct(fs[i].addr)
  }

  /** The filter loop: the matching pairs in order, unless a comparison throws. */
  method Filter(hint: Addr, found: seq<Found>, serials: SerialsMatch) returns (r: Result<seq<Found>>)
    ensures r == FilterSpec(hint, found, serials)
  {
    var kept := [];
    for i := 0 to |found|
      invariant FilterSpec(hint, found[..i], serials) == Ok(kept)
    {
      assert found[..i + 1][..i] == found[..i];
      var verdict := Judge(hint, found[i].addr, serials);
      if verdict.Throws? {
        ThrowSticks(hint, found, i + 1, serials);
        return KeyError;
      }
      if verdict.Match? {
        kept := kept + [found[i]];
      }
    }
    assert found[..|found|] == found;
    return Ok(kept);
  }

  function FilterSpec(hint: Addr, found: seq<Found>, serials: SerialsMatch): Result<seq<Found>> {
    if found == [] then Ok([]) else
      var last := found[|found| - 1];
      var front := FilterSpec(hint, found[..|found| - 1], serials);
      if !front.Ok? then KeyError
      else match Judge(hint, last.addr, serials)
        case Throws => KeyError
        case Mismatch => front
        case Match => Ok(front.value + [last])
  }

  lemma {:induction false} ThrowSticks(hint: Addr, found: seq<Found>, i: nat, serials: SerialsMatch)
    requires i <= |found| && FilterSpec(hint, found[..i], serials).KeyError?
    ensures FilterSpec(hint, found, serials).KeyError?
    decreases |found| - i
  {
    if i == |found| {
      assert found[..i] == found;
    } else {
      assert found[..i + 1][..i] == found[..i];
      ThrowSticks(hint, found, i + 1, serials);
    }
  }

  /** The `remove_if` pass: keep a pair when its hash is new. */
  method Dedup(combine: Combine, fs: seq<Found>) returns (r: seq<Found>)
    requires AllDistinct(fs)
    ensures r == DedupSpec(combine, fs)
  {
    r := [];
    var deviceHashes: set<nat> := {};
    for i := 0 to |fs|
      invariant r == DedupSpec(combine, fs[..i])
      invariant deviceHashes == HashesOf(combine, fs[..i])
    {
      assert fs[..i + 1][..i] == fs[..i];
      var hash := HashDeviceAddr(combine, fs[i].addr);
      var seen := hash in deviceHashes;
      deviceHashes := deviceHashes + {hash};
      if !seen {
        r := r + [fs[i]];
      }
    }
    assert fs[..|fs|] == fs;
  }

  function HashesOf(combine: Combine, fs: seq<Found>): set<nat>
    requires AllDistinct(fs)
  {
    if fs == [] then {} else HashesOf(combine, fs[..|fs| - 1]) + {HashOf(combine, fs[|fs| - 1].addr)}
  }

  function DedupSpec(combine: Combine, fs: seq<Found>): seq<Found>
    requires AllDistinct(fs)
  {
    if fs == [] then [] else
      var front, last := fs[..|fs| - 1], fs[|fs| - 1];
      DedupSpec(combine, front)
      + if HashOf(combine, last.addr) in HashesOf(combine, front) then [] else [last]
  }

  method FindFiltered(combine: Combine, hint: Addr, found: seq<Found>, serials: SerialsMatch)
    returns (r: Result<seq<Found>>)
    requires AllDistinct(found)
    ensures r == FindSpec(combine, hint, found, serials)
  {
    r := Filter(hint, found, serials);
    if !r.Ok? { return r; }
    FilterDistinct(hint, found, serials);
    var fs := Dedup(combine, r.value);
    return Ok(fs);
  }

  function FindSpec(combine: Combine, hint: Addr, found: seq<Found>, serials: SerialsMatch): Result<seq<Found>>
    requires AllDistinct(found)
  {
    var filtered := FilterSpec(hint, found, serials);
    if !filtered.Ok? then KeyError
    else FilterDistinct(hint, found, serials); Ok(DedupSpec(combine, filtered.value))
  }

  // ----- What a find returns

  /** b is a with elements left out. */
  ghost predicate Subsequence(b: seq<Found>, a: seq<Found>) {
    b == [] || (a != [] &&
      ((b[|b| - 1] == a[|a| - 1] && Subsequence(b[..|b| - 1], a[..|a| - 1])) || Subsequence(b, a[..|a| - 1])))
  }

  lemma {:induction false} SubsequenceTransitive(c: seq<Found>, b: seq<Found>, a: seq<Found>)
    requires Subsequence(c, b) && Subsequence(b, a)
    ensures Subsequence(c, a)
    decreases |a|
  {
    if c != [] {
      var a0, b0 := a[..|a| - 1], b[..|b| - 1];
      if b[|b| - 1] == a[|a| - 1] && Subsequence(b0, a0) {
        if c[|c| - 1] == b[|b| - 1] && Subsequence(c[..|c| - 1], b0) {
          SubsequenceTransitive(c[..|c| - 1], b0, a0);
        } else {
          SubsequenceTransitive(c, b0, a0);
        }
      } else {
        SubsequenceTransitive(c, b, a0);
      }
    }
  }

  lemma SubsequenceSnoc(b: seq<Found>, extra: seq<Found>, a: seq<Found>, p: Found)
    requires Subsequence(b, a) && (extra == [] || extra == [p])
    ensures Subsequence(b + extra, a + [p])
  {
    assert (a + [p])[..|a|] == a;
    if extra == [p] {
      assert (b + [p])[..|b|] == b;
    } else {
      assert b + extra == b;
    }
  }

  /** r is what stands at the given positions, in ascending order. */
  ghost predicate Takes(r: seq<Found>, fs: seq<Found>, at: seq<nat>) {
    && |r| == |at|
    && (forall m :: 0 <= m < |at| ==> at[m] < |fs| && r[m] == fs[at[m]])
    && (forall m, n :: 0 <= m < n < |at| ==> at[m] < at[n])
  }

  lemma TakesSnoc(r: seq<Found>, fs: seq<Found>, at: seq<nat>, p: Found)
    requires Takes(r, fs, at)
    ensures Takes(r, fs + [p], at) && Takes(r + [p], fs + [p], at + [|fs|])
    ensures forall i: nat :: i in at + [|fs|] <==> i in at || i == |fs|
  {
  }

  predicate Hits(hint: Addr, found: seq<Found>, serials: SerialsMatch, i: nat) {
    i < |found| && Judge(hint, found[i].addr, serials).Match?
  }

  lemma HitsSnoc(hint: Addr, found: seq<Found>, p: Found, serials: SerialsMatch, i: nat)
    ensures Hits(hint, found + [p], serials, i) <==>
            Hits(hint, found, serials, i) || (i == |found| && Judge(hint, p.addr, serials).Match?)
  {
  }

  ghost predicate MatchesAt(hint: Addr, found: seq<Found>, serials: SerialsMatch, r: seq<Found>, at: seq<nat>) {
    Takes(r, found, at) && forall i: nat :: i in at <==> Hits(hint, found, serials, i)
  }

  /** Filtering takes exactly the positions that match. */
  lemma {:induction false} FilterPositions(hint: Addr, found: seq<Found>, serials: SerialsMatch) returns (at: seq<nat>)
    requires FilterSpec(hint, found, serials).Ok?
    ensures MatchesAt(hint, found, serials, FilterSpec(hint, found, serials).value, at)
  {
    if found == [] {
      at := [];
    } else {
      var front, last := found[..|found| - 1], found[|found| - 1];
      FilterStep(hint, found, serials);
      var before := FilterPositions(hint, front, serials);
      at := MatchesSnoc(hint, front, serials, FilterSpec(hint, front, serials).value, before, last);
    }
  }

  lemma FilterStep(hint: Addr, found: seq<Found>, serials: SerialsMatch)
    requires found != [] && FilterSpec(hint, found, serials).Ok?
    ensures
      var front, last := found[..|found| - 1], found[|found| - 1];
      && front + [last] == found && FilterSpec(hint, front, serials).Ok?
      && FilterSpec(hint, found, serials).value ==
         var r := FilterSpec(hint, front, serials).value;
         if Judge(hint, last.addr, serials).Match? then r + [last] else r
  {
  }

  lemma MatchesSnoc(hint: Addr, fs: seq<Found>, serials: SerialsMatch, r: seq<Found>, before: seq<nat>, p: Found)
    returns (at: seq<nat>)
    requires MatchesAt(hint, fs, serials, r, before)
    ensures MatchesAt(hint, fs + [p], serials, if Judge(hint, p.addr, serials).Match? then r + [p] else r, at)
  {
    TakesSnoc(r, fs, before, p);
    at := if Judge(hint, p.addr, serials).Match? then before + [|fs|] else before;
    forall i: nat
      ensures i in at <==> Hits(hint, fs + [p], serials, i)
    {
      HitsSnoc(hint, fs, p, serials, i);
    }
  }

  /** The filter fails exactly when some discovered address, matching as far as it is
      compared, lacks a name, serial or type the hint asks for. */
  lemma {:induction false} FilterFails(hint: Addr, found: seq<Found>, serials: SerialsMatch)
    ensures FilterSpec(hint, found, serials).KeyError? <==>
            exists p :: p in found && MissesKey(hint, p.addr, serials)
    ensures FilterSpec(hint, found, serials).Ok? || FilterSpec(hint, found, serials).KeyError?
  {
    if found != [] {
      var front, last := found[..|found| - 1], found[|found| - 1];
      FilterFails(hint, front, serials);
      JudgeMatches(hint, last.addr, serials);
      assert found == front + [last];
    }
  }

  /** Filtering keeps exactly the matching pairs, in order. */
  lemma {:induction false} FilterKeeps(hint: Addr, found: seq<Found>, serials: SerialsMatch)
    requires FilterSpec(hint, found, serials).Ok?
    ensures Subsequence(FilterSpec(hint, found, serials).value, found)
    ensures forall p :: p in FilterSpec(hint, found, serials).value <==>
                        p in found && Judge(hint, p.addr, serials).Match?
  {
    if found != [] {
      var front, last := found[..|found| - 1], found[|found| - 1];
      FilterKeeps(hint, front, serials);
      assert found == front + [last];
      var f := FilterSpec(hint, front, serials).value;
      SubsequenceSnoc(f, [last], front, last);
      SubsequenceSnoc(f, [], front, last);
      assert f + [] == f;
    }
  }

  lemma {:induction false} SubsequenceDistinct(b: seq<Found>, a: seq<Found>)
    requires Subsequence(b, a) && AllDistinct(a)
    ensures AllDistinct(b)
  {
    if b != [] {
      assert b == b[..|b| - 1] + [b[|b| - 1]];
      if b[|b| - 1] == a[|a| - 1] && Subsequence(b[..|b| - 1], a[..|a| - 1]) {
        SubsequenceDistinct(b[..|b| - 1], a[..|a| - 1]);
      } else {
        SubsequenceDistinct(b, a[..|a| - 1]);
      }
    }
  }

  lemma FilterDistinct(hint: Addr, found: seq<Found>, serials: SerialsMatch)
    requires AllDistinct(found) && FilterSpec(hint, found, serials).Ok?
    ensures AllDistinct(FilterSpec(hint, found, serials).value)
  {
    FilterKeeps(hint, found, serials);
    SubsequenceDistinct(FilterSpec(hint, found, serials).value, found);
  }

  /** fs[i] is the first pair with its hash. */
  ghost predicate IsFirst(combine: Combine, fs: seq<Found>, i: nat)
    requires AllDistinct(fs) && i < |fs|
  {
    forall j :: 0 <= j < i ==> HashOf(combine, fs[j].addr) != HashOf(combine, fs[i].addr)
  }

  lemma {:induction false} HashesOfMembers(combine: Combine, fs: seq<Found>, h: nat)
    requires AllDistinct(fs)
    ensures h in HashesOf(combine, fs) <==> exists j :: 0 <= j < |fs| && HashOf(combine, fs[j].addr) == h
  {
    if fs != [] {
      var front := fs[..|fs| - 1];
      HashesOfMembers(combine, front, h);
      if h == HashOf(combine, fs[|fs| - 1].addr) {
      } else if h in HashesOf(combine, front) {
        var j :| 0 <= j < |front| && HashOf(combine, front[j].addr) == h;
        assert HashOf(combine, fs[j].addr) == h;
      } else {
        assert forall j :: 0 <= j < |front| ==> fs[j] == front[j];
      }
    }
  }

  ghost predicate HashesDiffer(combine: Combine, fs: seq<Found>)
    requires AllDistinct(fs)
  {
    forall i, j :: 0 <= i < j < |fs| ==> HashOf(combine, fs[i].addr) != HashOf(combine, fs[j].addr)
  }

  lemma {:induction false} DedupOrder(combine: Combine, fs: seq<Found>)
    requires AllDistinct(fs)
    ensures Subsequence(DedupSpec(combine, fs), fs)
  {
    if fs != [] {
      var front, last := fs[..|fs| - 1], fs[|fs| - 1];
      DedupOrder(combine, front);
      var extra := if HashOf(combine, last.addr) in HashesOf(combine, front) then [] else [last];
      SubsequenceSnoc(DedupSpec(combine, front), extra, front, last);
      assert fs == front + [last];
    }
  }

  lemma HashesOfSnoc(combine: Combine, fs: seq<Found>, p: Found)
    requires AllDistinct(fs) && Distinct(p.addr)
    ensures HashesOf(combine, fs + [p]) == HashesOf(combine, fs) + {HashOf(combine, p.addr)}
  {
    assert (fs + [p])[..|fs|] == fs;
  }

  lemma HashesDifferSnoc(combine: Combine, fs: seq<Found>, p: Found)
    requires AllDistinct(fs) && Distinct(p.addr) && HashesDiffer(combine, fs)
    requires HashOf(combine, p.addr) !in HashesOf(combine, fs)
    ensures HashesDiffer(combine, fs + [p])
  {
    HashesOfMembers(combine, fs, HashOf(combine, p.addr));
  }

  /** No two kept pairs share a hash, and no hash is lost. */
  lemma {:induction false} DedupHashes(combine: Combine, fs: seq<Found>)
    requires AllDistinct(fs)
    ensures AllDistinct(DedupSpec(combine, fs))
    ensures HashesDiffer(combine, DedupSpec(combine, fs))
    ensures HashesOf(combine, DedupSpec(combine, fs)) == HashesOf(combine, fs)
  {
    if fs != [] {
      var front, last := fs[..|fs| - 1], fs[|fs| - 1];
      var r0 := DedupSpec(combine, front);
      DedupHashes(combine, front);
      DedupOrder(combine, fs);
      SubsequenceDistinct(DedupSpec(combine, fs), fs);
      if HashOf(combine, last.addr) !in HashesOf(combine, front) {
        HashesOfSnoc(combine, r0, last);
        HashesDifferSnoc(combine, r0, last);
      }
      var h := HashOf(combine, last.addr);
      assert h in HashesOf(combine, front) ==> HashesOf(combine, front) + {h} == HashesOf(combine, front);
      assert r0 + [] == r0;
    }
  }

  ghost predicate FirstAt(combine: Combine, fs: seq<Found>, i: nat, p: Found)
    requires AllDistinct(fs)
  {
    i < |fs| && fs[i] == p && IsFirst(combine, fs, i)
  }

  /** De-duplication keeps exactly the first pair of each hash. */
  lemma {:induction false} DedupKeepsFirsts(combine: Combine, fs: seq<Found>, p: Found)
    requires AllDistinct(fs)
    ensures p in DedupSpec(combine, fs) <==> exists i: nat :: FirstAt(combine, fs, i, p)
  {
    if fs != [] {
      var front, last := fs[..|fs| - 1], fs[|fs| - 1];
      DedupKeepsFirsts(combine, front, p);
      forall i: nat
        ensures FirstAt(combine, fs, i, p) <==>
                || FirstAt(combine, front, i, p)
                || (i == |fs| - 1 && p == last && HashOf(combine, last.addr) !in HashesOf(combine, front))
      {
        FirstAtLast(combine, fs, i, p);
      }
      assert FirstAt(combine, fs, |fs| - 1, last) <==> HashOf(combine, last.addr) !in HashesOf(combine, front) by {
        FirstAtLast(combine, fs, |fs| - 1, last);
      }
    }
  }

  lemma FirstAtLast(combine: Combine, fs: seq<Found>, i: nat, p: Found)
    requires AllDistinct(fs) && fs != []
    ensures
      var front, last := fs[..|fs| - 1], fs[|fs| - 1];
      FirstAt(combine, fs, i, p) <==>
      || FirstAt(combine, front, i, p)
      || (i == |fs| - 1 && p == last && HashOf(combine, last.addr) !in HashesOf(combine, front))
  {
    FirstInFront(combine, fs, i);
    HashesOfMembers(combine, fs[..|fs| - 1], HashOf(combine, fs[|fs| - 1].addr));
  }

  lemma FirstInFront(combine: Combine, fs: seq<Found>, i: nat)
    requires AllDistinct(fs) && fs != []
    ensures i < |fs| - 1 ==> (IsFirst(combine, fs[..|fs| - 1], i) <==> IsFirst(combine, fs, i))
  {
    var front := fs[..|fs| - 1];
    assert forall j :: 0 <= j < |front| ==> front[j] == fs[j];
  }

  ghost predicate FirstsAt(combine: Combine, fs: seq<Found>, r: seq<Found>, at: seq<nat>)
    requires AllDistinct(fs)
  {
    Takes(r, fs, at) && forall i: nat :: i in at <==> i < |fs| && IsFirst(combine, fs, i)
  }

  /** De-duplication takes exactly the positions that come first for their hash. */
  lemma {:induction false} DedupPositions(combine: Combine, fs: seq<Found>) returns (at: seq<nat>)
    requires AllDistinct(fs)
    ensures FirstsAt(combine, fs, DedupSpec(combine, fs), at)
  {
    at := [];
    if fs != [] {
      var front, last := fs[..|fs| - 1], fs[|fs| - 1];
      var h := HashOf(combine, last.addr);
      at := DedupPositions(combine, front);
      TakesSnoc(DedupSpec(combine, front), front, at, last);
      assert front + [last] == fs && DedupSpec(combine, front) + [] == DedupSpec(combine, front);
      HashesOfMembers(combine, front, h);
      var before := at;
      if h !in HashesOf(combine, front) { at := at + [|front|]; }
      forall i: nat
        ensures i in at <==> i < |fs| && IsFirst(combine, fs, i)
      {
        assert i in before <==> i < |front| && IsFirst(combine, front, i);
        FirstInFront(combine, fs, i);
      }
    }
  }

  /** What a find returns: in discovery order and with pairwise distinct hashes, exactly the
      first pair of each hash among the pairs that match the hint; no matching hash is lost. */
  lemma FindReturns(combine: Combine, hint: Addr, found: seq<Found>, serials: SerialsMatch)
    requires AllDistinct(found) && FindSpec(combine, hint, found, serials).Ok?
    ensures
      var r, matching := FindSpec(combine, hint, found, serials).value, FilterSpec(hint, found, serials).value;
      && Subsequence(r, found) && AllDistinct(r) && HashesDiffer(combine, r)
      && Subsequence(matching, found) && AllDistinct(matching)
      && (forall p :: p in matching <==> p in found && Judge(hint, p.addr, serials).Match?)
      && (forall p :: p in r <==> exists i: nat :: FirstAt(combine, matching, i, p))
      && HashesOf(combine, r) == HashesOf(combine, matching)
  {
    var matching := FilterSpec(hint, found, serials).value;
    FilterKeeps(hint, found, serials);
    SubsequenceDistinct(matching, found);
    DedupOrder(combine, matching);
    SubsequenceDistinct(DedupSpec(combine, matching), matching);
    DedupHashes(combine, matching);
    SubsequenceTransitive(DedupSpec(combine, matching), matching, found);
    forall p
      ensures p in DedupSpec(combine, matching) <==> exists i: nat :: FirstAt(combine, matching, i, p)
    {
      DedupKeepsFirsts(combine, matching, p);
    }
  }

  lemma FindDistinct(combine: Combine, hint: Addr, found: seq<Found>, serials: SerialsMatch)
    requires AllDistinct(found) && FindSpec(combine, hint, found, serials).Ok?
    ensures AllDistinct(FindSpec(combine, hint, found, serials).value)
  {
    var matching := FilterSpec(hint, found, serials).value;
    FilterDistinct(hint, found, serials);
    DedupOrder(combine, matching);
    SubsequenceDistinct(DedupSpec(combine, matching), matching);
  }

  /** Which positions a find returns, also when the same pair is discovered more than once:
      among the discovered pairs those that match, and among these the first of each hash. */
  lemma FindPositions(combine: Combine, hint: Addr, found: seq<Found>, serials: SerialsMatch)
    returns (matching: seq<Found>, matchAt: seq<nat>, firstAt: seq<nat>)
    requires AllDistinct(found) && FindSpec(combine, hint, found, serials).Ok?
    ensures MatchesAt(hint, found, serials, matching, matchAt) && AllDistinct(matching)
    ensures FirstsAt(combine, matching, FindSpec(combine, hint, found, serials).value, firstAt)
  {
    matching := FilterSpec(hint, found, serials).value;
    FilterDistinct(hint, found, serials);
    matchAt := FilterPositions(hint, found, serials);
    firstAt := DedupPositions(combine, matching);
  }
}
