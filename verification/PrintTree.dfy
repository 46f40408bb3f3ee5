/** `print_tree` of uhd_usrp_probe: a recursive client of the property tree. */
module PrintTree {
  import opened FsPath
  import opened Dict
  import opened Paths
  import opened TreeSpec
  import T = PropertyTree

  ghost function Below(t: Tree, p: Path): set<Path> {
    set q | q in t && Within(q, p)
  }

  lemma ChildBelow(t: Tree, p: Path, k: string)
    requires WellFormed(t) && Sub(p, k) in t
    ensures Below(t, Sub(p, k)) < Below(t, p)
  {
    assert Listed(t, p, k);
    assert Within(Sub(p, k), p);
    forall q | q in Below(t, Sub(p, k))
      ensures q in Below(t, p)
    {
      WithinTransitive(q, Sub(p, k), p);
    }
    NotWithinChild(p, k);
    assert p in Below(t, p);
  }

  /** A path, then its children in listing order, each followed by what is below it. */
  ghost function Preorder(t: Tree, p: Path): seq<Path>
    requires WellFormed(t) && p in t
    decreases Below(t, p), 1, 0
  {
    [p] + Forest(t, p, t[p].keys)
  }

  ghost function Forest(t: Tree, p: Path, ks: seq<string>): seq<Path>
    requires WellFormed(t) && p in t
    requires forall k :: k in ks ==> k in t[p].keys
    decreases Below(t, p), 0, |ks|
  {
    if ks == [] then [] else
      var k := ks[0];
      assert Listed(t, p, k);
      ChildBelow(t, p, k);
      Preorder(t, Sub(p, k)) + Forest(t, p, ks[1..])
  }

  /** The path a printed line denotes in the shared tree. */
  ghost function Denotes(root: string, line: string): Path {
    PathOf(Tokens(Join(root, line)))
  }

  ghost function Printed(root: string, lines: seq<string>): seq<Path> {
    if lines == [] then [] else [Denotes(root, lines[0])] + Printed(root, lines[1..])
  }

  lemma {:induction false} PrintedConcat(root: string, a: seq<string>, b: seq<string>)
    ensures Printed(root, a + b) == Printed(root, a) + Printed(root, b)
  {
    if a == [] {
      assert a + b == b;
    } else {
      assert (a + b)[1..] == a[1..] + b;
      PrintedConcat(root, a[1..], b);
    }
  }

  lemma DenotesChild(root: string, path: string, name: string)
    requires IsName(name)
    ensures Denotes(root, Join(path, name)) == Sub(Denotes(root, path), name)
  {
    TokensJoin(root, path);
    TokensJoin(path, name);
    TokensJoin(root, Join(path, name));
    TokensOfName(name);
    var ts := Tokens(Join(root, path));
    assert Tokens(Join(root, Join(path, name))) == ts + [name];
    assert (ts + [name])[..|ts|] == ts;
  }

  /** The lines so far, with the children from i on still to come. */
  ghost predicate Progress(t: Tree, p: Path, i: nat, root: string, lines: seq<string>)
    requires WellFormed(t) && p in t
  {
    && i <= |t[p].keys|
    && Printed(root, lines) + Forest(t, p, t[p].keys[i..]) == Preorder(t, p)
  }

  lemma ProgressStart(t: Tree, root: string, path: string)
    requires WellFormed(t) && Denotes(root, path) in t
    ensures Progress(t, Denotes(root, path), 0, root, [path])
  {
    var ks := t[Denotes(root, path)].keys;
    assert ks[0..] == ks;
  }

  lemma ProgressStep(t: Tree, p: Path, i: nat, root: string, out: seq<string>, below: seq<string>)
    requires WellFormed(t) && p in t && i < |t[p].keys|
    requires Progress(t, p, i, root, out)
    requires Sub(p, t[p].keys[i]) in t && Printed(root, below) == Preorder(t, Sub(p, t[p].keys[i]))
    ensures Progress(t, p, i + 1, root, out + below)
  {
    var ks := t[p].keys;
    assert ks[i..][0] == ks[i] && ks[i..][1..] == ks[i + 1..];
    PrintedConcat(root, out, below);
  }

  lemma ListedChild(t: Tree, root: string, path: string, name: string)
    requires WellFormed(t) && Denotes(root, path) in t && name in t[Denotes(root, path)].keys
    ensures
      var child := Denotes(root, Join(path, name));
      && child == Sub(Denotes(root, path), name) && child in t
      && Below(t, child) < Below(t, Denotes(root, path))
  {
    assert Listed(t, Denotes(root, path), name);
    DenotesChild(root, path, name);
    ChildBelow(t, Denotes(root, path), name);
  }

  /** How the walk from `path`, denoting p, spells a path below it: the names joined on. */
  ghost function Spelled(path: string, p: Path, q: Path): string {
    if q == p || q.Root? then path else Join(Spelled(path, p, q.parent), q.name)
  }

  lemma {:induction false} SpelledChild(path: string, p: Path, k: string, q: Path)
    requires Within(q, Sub(p, k))
    ensures Spelled(Join(path, k), Sub(p, k), q) == Spelled(path, p, q)
  {
    if q == Sub(p, k) {
      NotWithinChild(p, k);
    } else {
      SpelledChild(path, p, k, q.parent);
      if q == p { NotWithinChild(p, k); }
    }
  }

  /** Every line lies at or below p and is spelled from `path`. */
  ghost predicate SpelledFrom(root: string, path: string, p: Path, lines: seq<string>) {
    forall j :: 0 <= j < |lines| ==>
      Within(Denotes(root, lines[j]), p) && lines[j] == Spelled(path, p, Denotes(root, lines[j]))
  }

  lemma SpelledStep(root: string, path: string, p: Path, k: string, out: seq<string>, below: seq<string>)
    requires SpelledFrom(root, path, p, out) && SpelledFrom(root, Join(path, k), Sub(p, k), below)
    ensures SpelledFrom(root, path, p, out + below)
  {
    forall j | 0 <= j < |below|
      ensures Within(Denotes(root, below[j]), p) && below[j] == Spelled(path, p, Denotes(root, below[j]))
    {
      assert Within(Sub(p, k), p);
      WithinTransitive(Denotes(root, below[j]), Sub(p, k), p);
      SpelledChild(path, p, k, Denotes(root, below[j]));
    }
  }

  /** Prints the path first, so a missing path is printed before `list` throws. */
  method PrintTree(path: string, tree: T.PropertyTree, ghost t: Tree) returns (out: seq<string>, ok: bool)
    requires tree.guts.Valid() && tree.guts.Contents() == t
    ensures WellFormed(t)
    ensures ok <==> Denotes(tree.root, path) in t
    ensures !ok ==> out == [path]
    ensures ok ==> Printed(tree.root, out) == Preorder(t, Denotes(tree.root, path))
    ensures SpelledFrom(tree.root, path, Denotes(tree.root, path), out)
    decreases Below(t, Denotes(tree.root, path))
  {
    tree.guts.ContentsWellFormed();
    ghost var p := Denotes(tree.root, path);
    out := [path];
    var names := tree.List(path);
    if !names.Ok? { return out, false; }
    ProgressStart(t, tree.root, path);
    for i := 0 to |names.value|
      invariant tree.guts.Valid() && tree.guts.Contents() == t
      invariant Progress(t, p, i, tree.root, out)
      invariant SpelledFrom(tree.root, path, p, out)
    {
      ListedChild(t, tree.root, path, names.value[i]);
      var below, _ := PrintTree(Join(path, names.value[i]), tree, t);
      ProgressStep(t, p, i, tree.root, out, below);
      SpelledStep(tree.root, path, p, names.value[i], out, below);
      out := out + below;
    }
    return out, true;
  }

  // ----- What preorder promises

  /** Below p there is p itself, and otherwise one child of p it goes through. */
  lemma {:induction false} ThroughChild(t: Tree, q: Path, p: Path) returns (k: string)
    requires WellFormed(t) && q in t && Within(q, p) && q != p
    ensures Sub(p, k) in t && Within(q, Sub(p, k))
  {
    if q.parent == p {
      k := q.name;
    } else {
      assert Listed(t, q.parent, q.name);
      k := ThroughChild(t, q.parent, p);
    }
  }

  /** Every element sits directly below p or below something listed earlier. */
  ghost predicate ParentsFirst(s: seq<Path>, p: Path) {
    forall j :: 0 <= j < |s| ==> ParentFirst(s, p, j)
  }

  lemma NoDupConcat<X>(a: seq<X>, b: seq<X>)
    requires NoDup(a) && NoDup(b) && forall x :: x in a ==> x !in b
    ensures NoDup(a + b)
  {
    forall i, j | 0 <= i < j < |a + b|
      ensures (a + b)[i] != (a + b)[j]
    {
      if i < |a| <= j {
        assert (a + b)[i] in a && (a + b)[j] == b[j - |a|];
      }
    }
  }

  ghost predicate ParentFirst(s: seq<Path>, p: Path, j: nat)
    requires j < |s|
  {
    s[j].Sub? && (s[j].parent == p || s[j].parent in s[..j])
  }

  lemma ParentsFirstConcat(a: seq<Path>, b: seq<Path>, p: Path)
    requires a != [] && a[0].Sub? && a[0].parent == p && ParentsFirst(a[1..], a[0])
    requires ParentsFirst(b, p)
    ensures ParentsFirst(a + b, p)
  {
    var s := a + b;
    forall j | 0 <= j < |s|
      ensures ParentFirst(s, p, j)
    {
      if 0 < j < |a| {
        assert ParentFirst(a[1..], a[0], j - 1);
        assert s[j] == a[1..][j - 1] && s[..j] == [a[0]] + a[1..][..j - 1];
      } else if j >= |a| {
        assert ParentFirst(b, p, j - |a|);
        assert s[j] == b[j - |a|] && s[..j] == a + b[..j - |a|];
      }
    }
  }

  /** What lies at or below one of the listed children. */
  ghost predicate UnderSome(t: Tree, q: Path, p: Path, ks: seq<string>) {
    q in t && exists k :: k in ks && Within(q, Sub(p, k))
  }

  lemma UnderSomeSplit(t: Tree, q: Path, p: Path, ks: seq<string>)
    requires ks != []
    ensures UnderSome(t, q, p, ks) <==> q in Below(t, Sub(p, ks[0])) || UnderSome(t, q, p, ks[1..])
  {
    assert ks == [ks[0]] + ks[1..];
  }

  lemma UnderSomeApart(t: Tree, q: Path, p: Path, ks: seq<string>)
    requires ks != [] && NoDup(ks) && q in Below(t, Sub(p, ks[0]))
    ensures !UnderSome(t, q, p, ks[1..])
  {
    if UnderSome(t, q, p, ks[1..]) {
      var l :| l in ks[1..] && Within(q, Sub(p, l));
      SiblingsApart(q, p, ks[0], l);
    }
  }

  lemma {:induction false} ForestFacts(t: Tree, p: Path, ks: seq<string>)
    requires WellFormed(t) && p in t && NoDup(ks)
    requires forall k :: k in ks ==> k in t[p].keys
    ensures NoDup(Forest(t, p, ks))
    ensures forall q :: q in Forest(t, p, ks) <==> UnderSome(t, q, p, ks)
    ensures ParentsFirst(Forest(t, p, ks), p)
    decreases Below(t, p), 0, |ks|
  {
    if ks != [] {
      var child := Sub(p, ks[0]);
      assert Listed(t, p, ks[0]);
      ChildBelow(t, p, ks[0]);
      PrintsEachOnce(t, child);
      ForestFacts(t, p, ks[1..]);
      var a, b := Preorder(t, child), Forest(t, p, ks[1..]);
      forall q
        ensures q in a + b <==> UnderSome(t, q, p, ks)
        ensures q in a ==> q !in b
      {
        UnderSomeSplit(t, q, p, ks);
        if q in a { UnderSomeApart(t, q, p, ks); }
      }
      NoDupConcat(a, b);
      ParentsFirstConcat(a, b, p);
    }
  }

  /** From any existing path, `print_tree` visits every path at or below it exactly once,
      and a parent always before its children. */
  lemma {:induction false} PrintsEachOnce(t: Tree, p: Path)
    requires WellFormed(t) && p in t
    ensures NoDup(Preorder(t, p))
    ensures forall q :: q in Preorder(t, p) <==> q in Below(t, p)
    ensures Preorder(t, p)[0] == p && ParentsFirst(Preorder(t, p)[1..], p)
    decreases Below(t, p), 1, 0
  {
    var ks := t[p].keys;
    ForestFacts(t, p, ks);
    var f := Forest(t, p, ks);
    assert Preorder(t, p)[1..] == f;
    forall q
      ensures q in f <==> q in Below(t, p) && q != p
    {
      BelowIsUnderSome(t, q, p);
    }
    NoDupConcat([p], f);
  }

  lemma BelowIsUnderSome(t: Tree, q: Path, p: Path)
    requires WellFormed(t) && p in t
    ensures UnderSome(t, q, p, t[p].keys) <==> q in Below(t, p) && q != p
  {
    if q in Below(t, p) && q != p {
      var k := ThroughChild(t, q, p);
      assert Listed(t, p, k);
    }
    if UnderSome(t, q, p, t[p].keys) {
      var k :| k in t[p].keys && Within(q, Sub(p, k));
      WithinTransitive(q, Sub(p, k), p);
      NotWithinChild(p, k);
    }
  }

  lemma {:induction false} WithinRoot(q: Path)
    ensures Within(q, Root)
  {
    if q.Sub? { WithinRoot(q.parent); }
  }

  /** From the root, `print_tree` visits every path of the tree exactly once. */
  lemma PrintsWholeTree(t: Tree)
    requires WellFormed(t)
    ensures NoDup(Preorder(t, Root))
    ensures forall q :: q in Preorder(t, Root) <==> q in t
  {
    PrintsEachOnce(t, Root);
    forall q | q in t
      ensures q in Below(t, Root)
    {
      WithinRoot(q);
    }
  }

  // ----- The order of the walk

  lemma FirstBlock(t: Tree, p: Path, ks: seq<string>, a: nat, q: Path)
    requires WellFormed(t) && p in t && NoDup(ks) && ks != []
    requires forall k :: k in ks ==> k in t[p].keys
    requires a < |Forest(t, p, ks)| && Forest(t, p, ks)[a] == q
    ensures Sub(p, ks[0]) in t
    ensures a < |Preorder(t, Sub(p, ks[0]))| <==> Within(q, Sub(p, ks[0]))
  {
    assert Listed(t, p, ks[0]);
    PrintsEachOnce(t, Sub(p, ks[0]));
    ForestFacts(t, p, ks);
    ForestFacts(t, p, ks[1..]);
    var first, rest := Preorder(t, Sub(p, ks[0])), Forest(t, p, ks[1..]);
    if a < |first| {
      assert q == first[a] && q in first;
    } else {
      assert q == rest[a - |first|] && q in rest;
      if q in Below(t, Sub(p, ks[0])) { UnderSomeApart(t, q, p, ks); }
    }
  }

  /** Two lines below different children of q: the one below the child listed first comes
      first. */
  ghost predicate Ordered(s: seq<Path>, q: Path, k: string, l: string) {
    forall a, b :: 0 <= a < |s| && 0 <= b < |s| && Within(s[a], Sub(q, k)) && Within(s[b], Sub(q, l)) ==> a < b
  }

  lemma {:induction false} SiblingsOrdered(t: Tree, p: Path, ks: seq<string>, i: nat, j: nat)
    requires WellFormed(t) && p in t && NoDup(ks)
    requires forall k :: k in ks ==> k in t[p].keys
    requires i < j < |ks|
    ensures Ordered(Forest(t, p, ks), p, ks[i], ks[j])
    decreases |ks|
  {
    var f, n := Forest(t, p, ks), FirstLength(t, p, ks);
    if i > 0 { SiblingsOrdered(t, p, ks[1..], i - 1, j - 1); }
    forall a, b | 0 <= a < |f| && 0 <= b < |f| && Within(f[a], Sub(p, ks[i])) && Within(f[b], Sub(p, ks[j]))
      ensures a < b
    {
      FirstBlock(t, p, ks, a, f[a]);
      FirstBlock(t, p, ks, b, f[b]);
      if b < n { SiblingsApart(f[b], p, ks[0], ks[j]); }
      if i > 0 {
        if a < n { SiblingsApart(f[a], p, ks[0], ks[i]); }
        assert f[a] == Forest(t, p, ks[1..])[a - n] && f[b] == Forest(t, p, ks[1..])[b - n];
      }
    }
  }

  ghost function FirstLength(t: Tree, p: Path, ks: seq<string>): nat
    requires WellFormed(t) && p in t && ks != []
    requires forall k :: k in ks ==> k in t[p].keys
  {
    assert Listed(t, p, ks[0]);
    |Preorder(t, Sub(p, ks[0]))|
  }

  lemma {:induction false} ForestOrdered(t: Tree, p: Path, ks: seq<string>, q: Path, k: string, l: string)
    requires WellFormed(t) && p in t && NoDup(ks) && UnderSome(t, q, p, ks)
    requires forall x :: x in ks ==> x in t[p].keys
    requires Before(t, q, k, l)
    ensures Ordered(Forest(t, p, ks), q, k, l)
    decreases Below(t, p), 0, |ks|
  {
    var f, n, child := Forest(t, p, ks), FirstLength(t, p, ks), Sub(p, ks[0]);
    assert Listed(t, p, ks[0]);
    ChildBelow(t, p, ks[0]);
    UnderSomeSplit(t, q, p, ks);
    var first := q in Below(t, child);
    if first { WalkOrdered(t, child, q, k, l); } else { ForestOrdered(t, p, ks[1..], q, k, l); }
    forall a, b | 0 <= a < |f| && 0 <= b < |f| && Within(f[a], Sub(q, k)) && Within(f[b], Sub(q, l))
      ensures a < b
    {
      InBlock(t, p, ks, q, k, a);
      InBlock(t, p, ks, q, l, b);
      if first {
        assert f[a] == Preorder(t, child)[a] && f[b] == Preorder(t, child)[b];
      } else {
        assert f[a] == Forest(t, p, ks[1..])[a - n] && f[b] == Forest(t, p, ks[1..])[b - n];
      }
    }
  }

  /** A line below q lies in the first child's block exactly when q does. */
  lemma InBlock(t: Tree, p: Path, ks: seq<string>, q: Path, k: string, a: nat)
    requires WellFormed(t) && p in t && NoDup(ks) && UnderSome(t, q, p, ks)
    requires forall x :: x in ks ==> x in t[p].keys
    requires a < |Forest(t, p, ks)| && Within(Forest(t, p, ks)[a], Sub(q, k))
    ensures a < FirstLength(t, p, ks) <==> q in Below(t, Sub(p, ks[0]))
  {
    var x := Forest(t, p, ks)[a];
    FirstBlock(t, p, ks, a, x);
    assert Within(Sub(q, k), q);
    WithinTransitive(x, Sub(q, k), q);
    if q in Below(t, Sub(p, ks[0])) {
      WithinTransitive(x, q, Sub(p, ks[0]));
    } else {
      var m :| m in ks && Within(q, Sub(p, m));
      WithinTransitive(x, q, Sub(p, m));
      if Within(x, Sub(p, ks[0])) { SiblingsApart(x, p, ks[0], m); }
    }
  }

  /** q lists k before l. */
  ghost predicate Before(t: Tree, q: Path, k: string, l: string) {
    q in t && exists i, j :: 0 <= i < j < |t[q].keys| && t[q].keys[i] == k && t[q].keys[j] == l
  }

  /** The walk is depth first and in listing order: of two children of any path, all that is
      below the one listed first is printed before anything below the other. */
  lemma {:induction false} WalkOrdered(t: Tree, p: Path, q: Path, k: string, l: string)
    requires WellFormed(t) && p in t && q in Below(t, p) && Before(t, q, k, l)
    ensures Ordered(Preorder(t, p), q, k, l)
    decreases Below(t, p), 1, 0
  {
    var s, f := Preorder(t, p), Forest(t, p, t[p].keys);
    if q == p {
      var i, j :| 0 <= i < j < |t[q].keys| && t[q].keys[i] == k && t[q].keys[j] == l;
      SiblingsOrdered(t, p, t[p].keys, i, j);
    } else {
      BelowIsUnderSome(t, q, p);
      ForestOrdered(t, p, t[p].keys, q, k, l);
    }
    forall a, b | 0 <= a < |s| && 0 <= b < |s| && Within(s[a], Sub(q, k)) && Within(s[b], Sub(q, l))
      ensures a < b
    {
      NotAbove(p, q, k);
      NotAbove(p, q, l);
      assert s[a] == f[a - 1] && s[b] == f[b - 1];
    }
  }

  lemma NotAbove(p: Path, q: Path, k: string)
    requires Within(q, p)
    ensures !Within(p, Sub(q, k))
  {
    if Within(p, Sub(q, k)) {
      WithinIsDeeper(p, Sub(q, k));
      WithinIsDeeper(q, p);
    }
  }
}
