/** `counter_set` of b2xx_side_channel.py: nested counters filled from a flat list. Every
    nested set belongs to one outer set, so an attribute is addressed by the chain of names
    leading to it from the top. */
module CounterSet {
  import opened Paths

  /** One entry of the description: a counter, or a named set of counters. */
  datatype Spec = Leaf(name: string) | Group(name: string, entries: seq<Spec>)

  function Leaves(es: seq<Spec>): nat {
    if es == [] then 0 else Leaves(es[..|es| - 1]) + Size(es[|es| - 1])
  }

  function Size(e: Spec): nat {
    match e
    case Leaf(_) => 1
    case Group(_, es) => Leaves(es)
  }

  ghost predicate DistinctNames(es: seq<Spec>) {
    && (forall i, j :: 0 <= i < j < |es| ==> es[i].name != es[j].name)
    && (forall i :: 0 <= i < |es| && es[i].Group? ==> DistinctNames(es[i].entries))
  }

  ghost predicate NoEmptySet(es: seq<Spec>) {
    es != [] && forall i :: 0 <= i < |es| && es[i].Group? ==> NoEmptySet(es[i].entries)
  }

  type Attributes = map<Path, int>

  /** The counters of a set, depth first, in the order of the description. */
  function ValuesAt(m: Attributes, at: Path, es: seq<Spec>): seq<int>
    decreases es
  {
    if es == [] then [] else ValuesAt(m, at, es[..|es| - 1]) + EntryValues(m, at, es[|es| - 1])
  }

  function EntryValues(m: Attributes, at: Path, e: Spec): seq<int>
    decreases e
  {
    match e
    case Leaf(name) => if Sub(at, name) in m then [m[Sub(at, name)]] else [0]
    case Group(name, es) => ValuesAt(m, Sub(at, name), es)
  }

  lemma {:induction false} ValuesCount(m: Attributes, at: Path, es: seq<Spec>)
    ensures |ValuesAt(m, at, es)| == Leaves(es)
    decreases es
  {
    if es != [] {
      ValuesCount(m, at, es[..|es| - 1]);
      match es[|es| - 1]
      case Leaf(_) =>
      case Group(name, sub) => ValuesCount(m, Sub(at, name), sub);
    }
  }

  /** The two stores agree on everything at or below a chain. */
  ghost predicate SameWithin(m: Attributes, m': Attributes, at: Path) {
    forall q :: Within(q, at) ==> (q in m <==> q in m') && (q in m ==> m[q] == m'[q])
  }

  ghost predicate SameOutside(m: Attributes, m': Attributes, at: Path) {
    forall q :: !Within(q, at) ==> (q in m <==> q in m') && (q in m ==> m[q] == m'[q])
  }

  lemma {:induction false} ValuesFrame(m: Attributes, m': Attributes, at: Path, es: seq<Spec>)
    requires forall i :: 0 <= i < |es| ==> SameWithin(m, m', Sub(at, es[i].name))
    ensures ValuesAt(m, at, es) == ValuesAt(m', at, es)
    decreases es
  {
    if es != [] {
      var front, last := es[..|es| - 1], es[|es| - 1];
      ValuesFrame(m, m', at, front);
      var here := Sub(at, last.name);
      assert SameWithin(m, m', here);
      match last
      case Leaf(_) =>
        assert Within(here, here);
      case Group(_, sub) =>
        forall i | 0 <= i < |sub|
          ensures SameWithin(m, m', Sub(here, sub[i].name))
        {
          WithinChildOf(here, sub[i].name);
        }
        ValuesFrame(m, m', here, sub);
    }
  }

  lemma WithinChildOf(at: Path, name: string)
    ensures forall q :: Within(q, Sub(at, name)) ==> Within(q, at)
  {
    assert Within(Sub(at, name), at);
    forall q | Within(q, Sub(at, name))
      ensures Within(q, at)
    {
      WithinTransitive(q, Sub(at, name), at);
    }
  }

  lemma NextEntry(m: Attributes, at: Path, es: seq<Spec>, i: nat)
    requires i < |es|
    ensures ValuesAt(m, at, es[..i + 1]) == ValuesAt(m, at, es[..i]) + EntryValues(m, at, es[i])
    ensures Leaves(es[..i + 1]) == Leaves(es[..i]) + Size(es[i])
  {
    assert es[..i + 1][..i] == es[..i];
  }

  /** Counting is additive over a description, a counter counts one, and a nested set counts
      what is in it. */
  lemma {:induction false} LeavesAdd(a: seq<Spec>, b: seq<Spec>, name: string)
    ensures Leaves(a + b) == Leaves(a) + Leaves(b)
    ensures Leaves([Leaf(name)]) == 1 && Leaves([Group(name, a)]) == Leaves(a)
  {
    assert [Leaf(name)][..0] == [] && [Group(name, a)][..0] == [];
    if b == [] {
      assert a + b == a;
    } else {
      var n := |b| - 1;
      LeavesAdd(a, b[..n], name);
      assert (a + b)[..|a + b| - 1] == a + b[..n];
    }
  }

  /** A counter reads its own attribute, and a nested set the attributes below its name. */
  lemma ValuesOfOne(m: Attributes, at: Path, es: seq<Spec>, name: string)
    ensures Sub(at, name) in m ==> ValuesAt(m, at, [Leaf(name)]) == [m[Sub(at, name)]]
    ensures ValuesAt(m, at, [Group(name, es)]) == ValuesAt(m, Sub(at, name), es)
  {
    assert [Leaf(name)][..0] == [] && [Group(name, es)][..0] == [];
    assert [] + ValuesAt(m, Sub(at, name), es) == ValuesAt(m, Sub(at, name), es);
  }

  /** Reading is in order: the values of two stretches of a description follow one another. */
  lemma {:induction false} ValuesAdd(m: Attributes, at: Path, a: seq<Spec>, b: seq<Spec>)
    ensures ValuesAt(m, at, a + b) == ValuesAt(m, at, a) + ValuesAt(m, at, b)
  {
    if b == [] {
      assert a + b == a && ValuesAt(m, at, a) + [] == ValuesAt(m, at, a);
    } else {
      var n := |b| - 1;
      ValuesAdd(m, at, a, b[..n]);
      assert (a + b)[..|a + b| - 1] == a + b[..n];
    }
  }

  lemma {:induction false} ValuesPrefix(m: Attributes, at: Path, es: seq<Spec>, i: nat)
    requires i <= |es|
    ensures ValuesAt(m, at, es[..i]) <= ValuesAt(m, at, es)
    decreases |es|
  {
    if i == |es| {
      assert es[..i] == es;
    } else {
      ValuesPrefix(m, at, es[..|es| - 1], i);
      assert es[..|es| - 1][..i] == es[..i];
    }
  }

  lemma SliceInPrefix(a: seq<int>, b: seq<int>, v: seq<int>)
    requires a + b <= v
    ensures |a| + |b| <= |v| && v[|a|..|a| + |b|] == b
  {
    assert v[|a|..|a| + |b|] == (a + b)[|a|..];
  }

  /** Entry i's counters stand in the flat list right after those of the entries before it. */
  lemma EntryPosition(m: Attributes, at: Path, es: seq<Spec>, i: nat)
    requires i < |es|
    ensures Leaves(es[..i]) + Size(es[i]) <= Leaves(es) == |ValuesAt(m, at, es)|
    ensures ValuesAt(m, at, es)[Leaves(es[..i])..Leaves(es[..i]) + Size(es[i])] == EntryValues(m, at, es[i])
  {
    ValuesCount(m, at, es);
    ValuesCount(m, at, es[..i]);
    ValuesCount(m, at, es[..i + 1]);
    NextEntry(m, at, es, i);
    ValuesPrefix(m, at, es, i + 1);
    SliceInPrefix(ValuesAt(m, at, es[..i]), EntryValues(m, at, es[i]), ValuesAt(m, at, es));
  }

  /** Why names must be distinct: two counters of one name in a set are one attribute, and
      whatever is stored, both positions read the same value. */
  lemma SameNameReadsSame(m: Attributes, at: Path, es: seq<Spec>, i: nat, j: nat)
    requires i < j < |es| && es[i] == es[j] && es[i].Leaf?
    ensures Leaves(es[..i]) < Leaves(es[..j]) < |ValuesAt(m, at, es)|
    ensures ValuesAt(m, at, es)[Leaves(es[..i])] == ValuesAt(m, at, es)[Leaves(es[..j])]
  {
    EntryPosition(m, at, es, i);
    EntryPosition(m, at, es, j);
    EntryPosition(m, at, es[..j], i);
    assert es[..j][..i] == es[..i] && es[..j][i] == es[i];
    var v, a, b := ValuesAt(m, at, es), Leaves(es[..i]), Leaves(es[..j]);
    assert v[a..a + 1][0] == v[a] && v[b..b + 1][0] == v[b];
  }

  /** Changing one entry's attributes leaves its differently named siblings alone. */
  lemma SiblingsKept(m: Attributes, m': Attributes, at: Path, es: seq<Spec>, i: nat)
    requires i < |es| && DistinctNames(es) && SameOutside(m, m', Sub(at, es[i].name))
    ensures ValuesAt(m', at, es[..i]) == ValuesAt(m, at, es[..i])
  {
    forall j | 0 <= j < i
      ensures SameWithin(m, m', Sub(at, es[j].name))
    {
      forall q | Within(q, Sub(at, es[j].name))
        ensures !Within(q, Sub(at, es[i].name))
      {
        if Within(q, Sub(at, es[i].name)) { SiblingsApart(q, at, es[i].name, es[j].name); }
      }
    }
    ValuesFrame(m, m', at, es[..i]);
  }

  lemma SameOutsideChain(m: Attributes, m1: Attributes, m2: Attributes, at: Path, name: string)
    requires SameOutside(m, m1, at) && SameOutside(m1, m2, Sub(at, name))
    ensures SameOutside(m, m2, at)
  {
    WithinChildOf(at, name);
  }

  /** Whether `_update` gets through with n values: it gives up on entering a set, or at a
      counter, with none left. */
  predicate Completes(es: seq<Spec>, n: nat)
    decreases es, 1
  {
    n > 0 && Taken(es, n)
  }

  predicate Taken(es: seq<Spec>, n: nat)
    decreases es, 0
  {
    es == [] ||
    var front, last := es[..|es| - 1], es[|es| - 1];
    && Taken(front, n) && Leaves(front) <= n
    && match last
       case Leaf(_) => n - Leaves(front) > 0
       case Group(_, sub) => Completes(sub, n - Leaves(front))
  }

  /** The very last entry, however deeply nested, is a counter and not an empty set. */
  predicate EndsInCounter(es: seq<Spec>) {
    es != [] && match es[|es| - 1] case Leaf(_) => true case Group(_, sub) => EndsInCounter(sub)
  }

  lemma {:induction false} EndsInCounterHasOne(es: seq<Spec>)
    requires EndsInCounter(es)
    ensures Leaves(es) > 0
  {
    match es[|es| - 1]
    case Leaf(_) =>
    case Group(_, sub) => EndsInCounterHasOne(sub);
  }

  /** For every description, `_update` gets through exactly when values are left over, or
      when there is one for every counter and the description ends in a counter. */
  lemma {:induction false} CompletesIff(es: seq<Spec>, n: nat)
    ensures Completes(es, n) <==> n > Leaves(es) || (n == Leaves(es) && EndsInCounter(es))
    decreases es, 1
  {
    TakenIff(es, n);
    if EndsInCounter(es) { EndsInCounterHasOne(es); }
  }

  lemma {:induction false} TakenIff(es: seq<Spec>, n: nat)
    ensures Taken(es, n) <==> n > Leaves(es) || (n == Leaves(es) && (es == [] || EndsInCounter(es)))
    decreases es, 0
  {
    if es != [] {
      var front, last := es[..|es| - 1], es[|es| - 1];
      TakenIff(front, n);
      match last
      case Leaf(_) =>
      case Group(_, sub) =>
        CompletesIff(sub, if n >= Leaves(front) then n - Leaves(front) else 0);
        if EndsInCounter(sub) { EndsInCounterHasOne(sub); }
    }
  }

  /** Without empty sets a description always ends in a counter. */
  lemma {:induction false} NoEmptySetEnds(es: seq<Spec>)
    requires NoEmptySet(es)
    ensures EndsInCounter(es)
  {
    match es[|es| - 1]
    case Leaf(_) =>
    case Group(_, sub) => NoEmptySetEnds(sub);
  }

  /** An empty set at the end of a list makes an exact update fail; before a counter it
      does no harm. */
  lemma EmptySetFails(es: seq<Spec>, empty: string, name: string)
    ensures
      var bad, good := es + [Group(empty, [])], es + [Group(empty, []), Leaf(name)];
      !Completes(bad, Leaves(bad)) && Completes(good, Leaves(good))
  {
    CompletesIff(es + [Group(empty, [])], Leaves(es + [Group(empty, [])]));
    CompletesIff(es + [Group(empty, []), Leaf(name)], Leaves(es + [Group(empty, []), Leaf(name)]));
  }

  class Counters {
    const spec: seq<Spec>
    var attributes: Attributes

    /** `__init__`: every counter starts at zero. */
    constructor (spec: seq<Spec>)
      requires DistinctNames(spec)
      ensures this.spec == spec
      ensures |GetValues()| == Leaves(spec) && AllZero(GetValues())
    {
      this.spec := spec;
      attributes := map[];
      new;
      SetDefaults(Root, spec);
      ValuesCount(attributes, Root, spec);
    }

    /** All counters, depth first. */
    ghost function GetValues(): seq<int>
      reads this
    {
      ValuesAt(attributes, Root, spec)
    }

    method SetDefaults(at: Path, es: seq<Spec>)
      requires DistinctNames(es)
      modifies this`attributes
      ensures AllZero(ValuesAt(attributes, at, es))
      ensures SameOutside(old(attributes), attributes, at)
      decreases es
    {
      for i := 0 to |es|
        invariant AllZero(ValuesAt(attributes, at, es[..i]))
        invariant SameOutside(old(attributes), attributes, at)
      {
        ghost var before := attributes;
        match es[i] {
          case Leaf(name) =>
            attributes := attributes[Sub(at, name) := 0];
          case Group(name, sub) =>
            SetDefaults(Sub(at, name), sub);
        }
        SiblingsKept(before, attributes, at, es, i);
        SameOutsideChain(old(attributes), before, attributes, at, es[i].name);
        NextEntry(attributes, at, es, i);
      }
      assert es[..|es|] == es;
    }

    /** `_get_struct_format`: one letter for each counter. */
    method GetStructFormat(es: seq<Spec>) returns (fmt: string)
      ensures |fmt| == Leaves(es) && forall c :: c in fmt ==> c == 'i'
      decreases es
    {
      fmt := "";
      for i := 0 to |es|
        invariant |fmt| == Leaves(es[..i]) && forall c :: c in fmt ==> c == 'i'
      {
        assert es[..i + 1][..i] == es[..i];
        match es[i] {
          case Leaf(_) =>
            fmt := fmt + "i";
          case Group(_, sub) =>
            var inner := GetStructFormat(sub);
            fmt := fmt + inner;
        }
      }
      assert es[..|es|] == es;
    }

    /** One turn of `_update`'s loop. */
    method UpdateEntry(at: Path, e: Spec, data: seq<int>) returns (rest: seq<int>, ok: bool)
      requires DistinctNames([e])
      modifies this`attributes
      ensures ok <==> if e.Leaf? then data != [] else Completes(e.entries, |data|)
      ensures ok ==> Size(e) <= |data| && rest == data[Size(e)..]
      ensures Size(e) <= |data| ==> EntryValues(attributes, at, e) == data[..Size(e)]
      ensures SameOutside(old(attributes), attributes, Sub(at, e.name))
      decreases e, 0
    {
      match e {
        case Leaf(name) =>
          if data == [] { return data, false; }
          attributes := attributes[Sub(at, name) := data[0]];
          return data[1..], true;
        case Group(name, sub) =>
          assert DistinctNames([e][0].entries);
          rest, ok := UpdateFrom(Sub(at, name), sub, data);
      }
    }

    /** `_update`: takes its values from the front of the list and returns the remainder, or
        gives up when the list runs out. */
    method UpdateFrom(at: Path, es: seq<Spec>, data: seq<int>) returns (rest: seq<int>, ok: bool)
      requires DistinctNames(es)
      modifies this`attributes
      ensures ok <==> Completes(es, |data|)
      ensures ok ==> Leaves(es) <= |data| && rest == data[Leaves(es)..]
      ensures Leaves(es) <= |data| ==> ValuesAt(attributes, at, es) == data[..Leaves(es)]
      ensures SameOutside(old(attributes), attributes, at)
      decreases es, 1
    {
      if data == [] {
        ValuesCount(attributes, at, es);
        return data, false;
      }
      rest := data;
      for i := 0 to |es|
        invariant Took(attributes, at, es, i, data, rest)
        invariant SameOutside(old(attributes), attributes, at)
      {
        ghost var before, left := attributes, rest;
        rest, ok := UpdateEntry(at, es[i], rest);
        SameOutsideChain(old(attributes), before, attributes, at, es[i].name);
        TakenNext(before, at, es, i, data, left);
        if !ok {
          NotTaken(es, i + 1, |data|);
          GaveUp(before, attributes, at, es, i, data, left);
          return rest, false;
        }
        TookNext(before, attributes, at, es, i, data, left, rest);
      }
      assert es[..|es|] == es;
      return rest, true;
    }

    /** `update`: a buffer of the wrong length changes nothing; with the right one every
        counter takes its value in depth-first order, even when the update then fails
        because the description ends in an empty set. */
    method Update(words: seq<int>) returns (ok: bool)
      requires DistinctNames(spec)
      modifies this`attributes
      ensures |words| != Leaves(spec) ==> !ok && attributes == old(attributes)
      ensures |words| == Leaves(spec) ==> (ok <==> EndsInCounter(spec))
      ensures |words| == Leaves(spec) ==> GetValues() == words
    {
      var fmt := GetStructFormat(spec);
      if |words| != |fmt| { return false; }
      var rest;
      rest, ok := UpdateFrom(Root, spec, words);
      CompletesIff(spec, |words|);
      assert words[..|words|] == words;
    }
  }

  /** Entries before i hold the front of the list, and `rest` is what they left of it. */
  ghost predicate Took(m: Attributes, at: Path, es: seq<Spec>, i: nat, data: seq<int>, rest: seq<int>) {
    && i <= |es| && Taken(es[..i], |data|) && Leaves(es[..i]) <= |data|
    && rest == data[Leaves(es[..i])..] && ValuesAt(m, at, es[..i]) == data[..Leaves(es[..i])]
  }

  lemma TakenNext(m: Attributes, at: Path, es: seq<Spec>, i: nat, data: seq<int>, rest: seq<int>)
    requires i < |es| && Took(m, at, es, i, data, rest)
    ensures Taken(es[..i + 1], |data|) <==>
            if es[i].Leaf? then rest != [] else Completes(es[i].entries, |rest|)
  {
    assert es[..i + 1][..i] == es[..i];
  }

  lemma StoredNext(m: Attributes, m': Attributes, at: Path, es: seq<Spec>, i: nat, data: seq<int>, n: nat)
    requires i < |es| && DistinctNames(es) && SameOutside(m, m', Sub(at, es[i].name))
    requires n == Leaves(es[..i]) && n + Size(es[i]) <= |data| && ValuesAt(m, at, es[..i]) == data[..n]
    requires EntryValues(m', at, es[i]) == data[n..][..Size(es[i])]
    ensures Leaves(es[..i + 1]) == n + Size(es[i]) && ValuesAt(m', at, es[..i + 1]) == data[..n + Size(es[i])]
    ensures data[n + Size(es[i])..] == data[n..][Size(es[i])..]
  {
    SiblingsKept(m, m', at, es, i);
    NextEntry(m', at, es, i);
    SliceNext(data, n, Size(es[i]));
  }

  lemma TookNext(m: Attributes, m': Attributes, at: Path, es: seq<Spec>, i: nat,
                 data: seq<int>, rest: seq<int>, rest': seq<int>)
    requires i < |es| && DistinctNames(es) && SameOutside(m, m', Sub(at, es[i].name))
    requires Took(m, at, es, i, data, rest) && Taken(es[..i + 1], |data|)
    requires Size(es[i]) <= |rest| && rest' == rest[Size(es[i])..]
    requires EntryValues(m', at, es[i]) == rest[..Size(es[i])]
    ensures Took(m', at, es, i + 1, data, rest')
  {
    StoredNext(m, m', at, es, i, data, Leaves(es[..i]));
  }

  lemma {:induction false} LeavesGrow(m: Attributes, at: Path, es: seq<Spec>, i: nat)
    requires i <= |es|
    ensures Leaves(es[..i]) <= Leaves(es)
    ensures Leaves(es[..i]) == Leaves(es) ==> ValuesAt(m, at, es) == ValuesAt(m, at, es[..i])
    decreases |es|
  {
    if i == |es| {
      assert es[..i] == es;
    } else {
      var n := |es| - 1;
      LeavesGrow(m, at, es[..n], i);
      assert es[..n][..i] == es[..i];
      ValuesCount(m, at, es);
      ValuesCount(m, at, es[..n]);
      assert Leaves(es[..n]) == Leaves(es) ==> EntryValues(m, at, es[n]) == [];
    }
  }

  /** When `_update` gives up with values for all counters, it has already stored them all. */
  lemma GaveUp(m: Attributes, m': Attributes, at: Path, es: seq<Spec>, i: nat, data: seq<int>, rest: seq<int>)
    requires i < |es| && DistinctNames(es) && SameOutside(m, m', Sub(at, es[i].name))
    requires Took(m, at, es, i, data, rest) && !Taken(es[..i + 1], |data|)
    requires Size(es[i]) <= |rest| ==> EntryValues(m', at, es[i]) == rest[..Size(es[i])]
    ensures Leaves(es) <= |data| ==> ValuesAt(m', at, es) == data[..Leaves(es)]
  {
    TakenIff(es[..i + 1], |data|);
    LeavesGrow(m', at, es, i + 1);
    NextEntry(m', at, es, i);
    if Leaves(es) <= |data| {
      StoredNext(m, m', at, es, i, data, Leaves(es[..i]));
    }
  }

  lemma SliceNext(data: seq<int>, n: nat, k: nat)
    requires n + k <= |data|
    ensures data[..n + k] == data[..n] + data[n..][..k]
    ensures data[n + k..] == data[n..][k..]
  {
  }

  ghost predicate AllZero(s: seq<int>) {
    forall k :: 0 <= k < |s| ==> s[k] == 0
  }

  lemma {:induction false} NotTaken(es: seq<Spec>, i: nat, n: nat)
    requires i <= |es| && !Taken(es[..i], n)
    ensures !Taken(es, n)
    decreases |es| - i
  {
    if i == |es| {
      assert es[..i] == es;
    } else {
      assert es[..i + 1][..i] == es[..i];
      NotTaken(es, i + 1, n);
    }
  }
}
