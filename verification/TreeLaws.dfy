/** What the tree operations promise across calls, views and whole runs. */
module TreeLaws {
  import opened FsPath
  import opened Dict
  import opened Paths
  import opened TreeSpec

  /** One call made through a view. */
  datatype Call =
    | Create(path: string, prop: Property?)
    | Remove(path: string)
    | Pop(path: string)
    | Access(path: string)
    | List(path: string)
    | Exists(path: string)

  datatype Reply = Done | Prop(prop: Property) | Names(names: seq<string>) | Answer(yes: bool)

  /** The call made through the view rooted at `root` on the shared tree. */
  ghost function Step(t: Tree, root: string, c: Call): (Tree, Result<Reply>) {
    var full := Join(root, c.path);
    match c
    case Create(_, prop) => var (t', r) := CreateSpec(t, full, prop); (t', r.Map((_: ()) => Done))
    case Remove(_) => var (t', r) := RemoveSpec(t, full); (t', r.Map((_: ()) => Done))
    case Pop(_) => var (t', r) := PopSpec(t, full); (t', r.Map((p: Property) => Prop(p)))
    case Access(_) => (t, AccessSpec(t, full).Map((p: Property) => Prop(p)))
    case List(_) => (t, ListSpec(t, full).Map((ks: seq<string>) => Names(ks)))
    case Exists(_) => (t, Ok(Answer(PathOf(Tokens(full)) in t)))
  }

  // ----- One operation

  lemma UprootKeeps(t: Tree, p: Path, k: string)
    requires WellFormed(t) && Sub(p, k) in t
    ensures WellFormed(Uproot(t, p, k))
  {
    var t' := Uproot(t, p, k);
    assert Listed(t, p, k);
    WithoutMembers(t[p].keys, k);
    NotWithinChild(p, k);
    forall q, l
      ensures Listed(t', q, l)
    {
      assert Listed(t, q, l);
    }
  }

  /** Every call keeps the tree well formed, and every call that throws, lists or looks
      leaves it exactly as it was. */
  lemma StepKeeps(t: Tree, root: string, c: Call)
    requires WellFormed(t)
    ensures WellFormed(Step(t, root, c).0)
    ensures !Step(t, root, c).1.Ok? || c.Access? || c.List? || c.Exists? ==> Step(t, root, c).0 == t
  {
    var ts := Tokens(Join(root, c.path));
    var p := PathOf(ts);
    if c.Create? {
      PathOfNamed(ts);
      EnsurePathAdds(t, p);
      var t' := EnsurePath(t, p);
      assert forall q, k :: Listed(t', q, k) ==> Listed(SetProp(t', p, c.prop), q, k);
    } else if p in t && p.Sub? {
      UprootKeeps(t, p.parent, p.name);
    }
  }

  /** What a removal at p does to the children listed at q: nothing, except that p's own name
      leaves its parent's list, the others keeping their order. */
  ghost predicate ListedWithout(t: Tree, t': Tree, p: Path, q: Path)
    requires q in t && q in t' && p.Sub?
  {
    && (q != p.parent ==> t'[q].keys == t[q].keys)
    && (q == p.parent ==>
          forall a, b :: p.name !in a && t[q].keys == a + [p.name] + b ==> t'[q].keys == a + b)
  }

  lemma RemoveKeepsOrder(t: Tree, full: string, q: Path)
    requires RemoveSpec(t, full).1.Ok? && q in RemoveSpec(t, full).0
    ensures ListedWithout(t, RemoveSpec(t, full).0, PathOf(Tokens(full)), q)
  {
    var p, t' := PathOf(Tokens(full)), RemoveSpec(t, full).0;
    if q == p.parent {
      forall a, b | p.name !in a && t[q].keys == a + [p.name] + b
        ensures t'[q].keys == a + b
      {
        WithoutSplit(a, p.name, b);
      }
    }
  }

  lemma RemovesExactly(t: Tree, full: string)
    ensures
      var p := PathOf(Tokens(full));
      var (t', r) := RemoveSpec(t, full);
      && (r.Ok? <==> p in t && p.Sub? && !EndsWithSlash(full))
      && (p in t && p.Sub? && !r.Ok? ==> r.KeyError?)
      && (forall q :: q in t' <==> q in t && !(r.Ok? && Within(q, p)))
      && (forall q :: q in t' ==> t'[q].prop == t[q].prop)
  {
  }

  /** `remove` takes effect exactly for an existing path other than the root whose argument
      neither is empty nor ends in a slash; it then deletes exactly the path and what is
      below it. An existing path written with a trailing slash is never removed. */
  lemma RemoveEffect(t: Tree, root: string, path: string)
    requires WellFormed(t)
    ensures
      var p := PathOf(Tokens(Join(root, path)));
      var (t', r) := Step(t, root, Remove(path));
      && (r.Ok? <==> p in t && p.Sub? && path != "" && !EndsWithSlash(path))
      && (p in t && p.Sub? && !r.Ok? ==> r.KeyError?)
      && (forall q :: q in t' <==> q in t && !(r.Ok? && Within(q, p)))
      && (forall q :: q in t' ==> t'[q].prop == t[q].prop)
      && (r.Ok? ==> forall q :: q in t' ==> ListedWithout(t, t', p, q))
  {
    RemovesExactly(t, Join(root, path));
    JoinEndsWithSlash(root, path);
    if RemoveSpec(t, Join(root, path)).1.Ok? {
      forall q | q in RemoveSpec(t, Join(root, path)).0
        ensures ListedWithout(t, RemoveSpec(t, Join(root, path)).0, PathOf(Tokens(Join(root, path))), q)
      {
        RemoveKeepsOrder(t, Join(root, path), q);
      }
    }
  }

  /** A view's own root cannot be removed through the view, whatever it holds. */
  lemma ViewRootNotRemovable(t: Tree, root: string)
    requires WellFormed(t)
    ensures Step(t, root, Remove("")).0 == t && !Step(t, root, Remove("")).1.Ok?
  {
    RemoveEffect(t, root, "");
    StepKeeps(t, root, Remove(""));
  }

  /** `pop` hands out the property it removes. It takes effect exactly for an existing path
      other than the root that holds a property and is not written with a trailing slash,
      and then does to the tree what `remove` does. */
  lemma PopEffect(t: Tree, root: string, path: string)
    requires WellFormed(t)
    ensures
      var p := PathOf(Tokens(Join(root, path)));
      var (t', r) := Step(t, root, Pop(path));
      && (r.Ok? <==> p in t && t[p].prop != null && p.Sub? && path != "" && !EndsWithSlash(path))
      && (r.Ok? ==> r.value == Prop(t[p].prop) && t' == Step(t, root, Remove(path)).0)
  {
    JoinEndsWithSlash(root, path);
  }

  /** `create` succeeds exactly where no property is yet, adds exactly the path and its
      missing prefixes, changes no other property, and lists new children last. */
  lemma CreateEffect(t: Tree, root: string, path: string, prop: Property?)
    requires WellFormed(t)
    ensures
      var p := PathOf(Tokens(Join(root, path)));
      var (t', r) := Step(t, root, Create(path, prop));
      && (r.Ok? <==> !(p in t && t[p].prop != null))
      && (r.Ok? ==> p in t' && t'[p].prop == prop)
      && (forall q :: q in t' <==> q in t || Within(p, q))
      && (forall q :: q in t' && q != p ==> t'[q].prop == if q in t then t[q].prop else null)
      && (forall q :: q in t ==> t[q].keys <= t'[q].keys)
  {
    var ts := Tokens(Join(root, path));
    PathOfNamed(ts);
    EnsurePathAdds(t, PathOf(ts));
    if PathOf(ts) in t { PrefixesPresent(t, PathOf(ts)); }
  }

  lemma {:induction false} PrefixesPresent(t: Tree, p: Path)
    requires WellFormed(t) && p in t
    ensures forall q :: Within(p, q) ==> q in t
  {
    if p.Sub? {
      assert Listed(t, p.parent, p.name);
      PrefixesPresent(t, p.parent);
    }
  }

  /** `list` returns the children as the tree orders them, each once: the names that extend
      the path to a path that exists. */
  lemma ListEffect(t: Tree, root: string, path: string)
    requires WellFormed(t)
    ensures
      var p := PathOf(Tokens(Join(root, path)));
      var r := Step(t, root, List(path)).1;
      && (r.Ok? <==> p in t)
      && (r.Ok? ==> r.value.names == t[p].keys && NoDup(r.value.names))
      && (r.Ok? ==> forall k :: k in r.value.names <==> Sub(p, k) in t)
  {
    var p := PathOf(Tokens(Join(root, path)));
    forall k
      ensures Sub(p, k) in t <==> p in t && k in t[p].keys
    {
      assert Listed(t, p, k);
    }
  }

  lemma RemovalErrors(t: Tree, full: string)
    ensures
      var p, slash := PathOf(Tokens(full)), EndsWithSlash(full);
      var remove, pop := RemoveSpec(t, full).1, PopSpec(t, full).1;
      && (remove.PathNotFound? <==> p !in t)
      && (remove.CannotUproot? <==> p in t && p == Root)
      && (remove.KeyError? <==> p in t && p != Root && slash)
      && (pop.PathNotFound? <==> p !in t)
      && (pop.Uninitialized? <==> p in t && t[p].prop == null)
      && (pop.CannotPop? <==> p in t && t[p].prop != null && p == Root)
      && (pop.KeyError? <==> p in t && t[p].prop != null && p != Root && slash)
  {
  }

  /** Which error a removal reports: a missing path comes first, and `pop` then asks for a
      property before it looks at the root. */
  lemma RemovalErrorsExact(t: Tree, root: string, path: string)
    requires WellFormed(t)
    ensures
      var p, slash := PathOf(Tokens(Join(root, path))), path == "" || EndsWithSlash(path);
      var remove, pop := Step(t, root, Remove(path)).1, Step(t, root, Pop(path)).1;
      && (remove.PathNotFound? <==> p !in t)
      && (remove.CannotUproot? <==> p == Root)
      && (remove.KeyError? <==> p in t && p != Root && slash)
      && (pop.PathNotFound? <==> p !in t)
      && (pop.Uninitialized? <==> p in t && t[p].prop == null)
      && (pop.CannotPop? <==> p == Root && t[p].prop != null)
      && (pop.KeyError? <==> p in t && t[p].prop != null && p != Root && slash)
  {
    RemovalErrors(t, Join(root, path));
    JoinEndsWithSlash(root, path);
  }

  /** Which error the other calls report. */
  lemma OtherErrorsExact(t: Tree, root: string, path: string, prop: Property?)
    ensures
      var p := PathOf(Tokens(Join(root, path)));
      var access, list := Step(t, root, Access(path)).1, Step(t, root, List(path)).1;
      && (access.PathNotFound? <==> p !in t)
      && (access.Uninitialized? <==> p in t && t[p].prop == null)
      && (access.Ok? <==> p in t && t[p].prop != null)
      && (list.PathNotFound? <==> p !in t)
      && (Step(t, root, Create(path, prop)).1.AlreadyExists? <==> p in t && t[p].prop != null)
      && Step(t, root, Exists(path)).1 == Ok(Answer(p in t))
  {
  }

  // ----- Views

  /** A call through a nested view is the same call through the outer view at the joined
      path: same tree afterwards, same reply. */
  lemma ViewsAgree(t: Tree, root: string, sub: string, c: Call)
    ensures Step(t, Join(root, sub), c) == Step(t, root, c.(path := Join(sub, c.path)))
  {
    JoinAssociative(root, sub, c.path);
  }

  lemma SpecsAgree(t: Tree, full: string, full': string, prop: Property?)
    requires Tokens(full) == Tokens(full')
    ensures CreateSpec(t, full, prop) == CreateSpec(t, full', prop)
    ensures AccessSpec(t, full) == AccessSpec(t, full') && ListSpec(t, full) == ListSpec(t, full')
    ensures (EndsWithSlash(full) <==> EndsWithSlash(full')) ==>
              RemoveSpec(t, full) == RemoveSpec(t, full') && PopSpec(t, full) == PopSpec(t, full')
  {
  }

  /** Two spellings that tokenise alike denote the same property, whichever views they are
      used through; only `remove` and `pop` look at the spelling. */
  lemma SpellingsAgree(t: Tree, root: string, c: Call, root': string, path': string)
    requires Tokens(root) + Tokens(c.path) == Tokens(root') + Tokens(path')
    requires c.Remove? || c.Pop? ==> (EndsWithSlash(c.path) || c.path == "" <==> EndsWithSlash(path') || path' == "")
    ensures Step(t, root, c) == Step(t, root', c.(path := path'))
  {
    TokensJoin(root, c.path);
    TokensJoin(root', path');
    JoinEndsWithSlash(root, c.path);
    JoinEndsWithSlash(root', path');
    SpecsAgree(t, Join(root, c.path), Join(root', path'), if c.Create? then c.prop else null);
  }

  // ----- Undoing

  /** Removing a path right after creating it leaves exactly the parents `create` had to
      add, so the tree is as before if and only if the parent had been there. */
  lemma CreateThenRemove(t: Tree, root: string, path: string, prop: Property?)
    requires WellFormed(t) && Tokens(Join(root, path)) != []
    requires PathOf(Tokens(Join(root, path))) !in t
    requires path != "" && !EndsWithSlash(path)
    ensures
      var p := PathOf(Tokens(Join(root, path)));
      var t1 := Step(t, root, Create(path, prop)).0;
      var (t2, r) := Step(t1, root, Remove(path));
      && r.Ok?
      && t2 == EnsurePath(t, p.parent)
      && (t2 == t <==> p.parent in t)
  {
    var ts := Tokens(Join(root, path));
    var p := PathOf(ts);
    JoinEndsWithSlash(root, path);
    PathOfNamed(ts);
    EnsurePathAdds(t, p);
    EnsurePathAdds(t, p.parent);
    NotWithinChild(p.parent, p.name);
    UndoChild(EnsurePath(t, p.parent), p.parent, p.name, prop);
  }

  lemma UndoChild(t: Tree, q: Path, k: string, prop: Property?)
    requires WellFormed(t) && q in t && Sub(q, k) !in t
    ensures Uproot(SetProp(EnsureChild(t, q, k), Sub(q, k), prop), q, k) == t
  {
    var t1 := SetProp(EnsureChild(t, q, k), Sub(q, k), prop);
    assert Listed(t, q, k);
    WithoutLast(t[q].keys, k);
    NotWithinChild(q, k);
    forall r | r in t
      ensures !Within(r, Sub(q, k))
    {
      if Within(r, Sub(q, k)) { PrefixesPresent(t, r); }
    }
  }

  // ----- Whole runs, through any views in any order

  datatype Event = Event(root: string, call: Call)

  /** What one call did to the tree, if anything. */
  datatype Effect = Put(at: Path, prop: Property?) | Cut(at: Path) | Nothing

  ghost function EffectOf(t: Tree, e: Event): Effect {
    var at := PathOf(Tokens(Join(e.root, e.call.path)));
    if !Step(t, e.root, e.call).1.Ok? then Nothing
    else match e.call
      case Create(_, prop) => Put(at, prop)
      case Remove(_) => Cut(at)
      case Pop(_) => Cut(at)
      case _ => Nothing
  }

  /** The tree after a run from `property_tree::make`. */
  ghost function Run(es: seq<Event>): Tree {
    if es == [] then EMPTY
    else Step(Run(es[..|es| - 1]), es[|es| - 1].root, es[|es| - 1].call).0
  }

  ghost function History(es: seq<Event>): seq<Effect> {
    if es == [] then [] else History(es[..|es| - 1]) + [EffectOf(Run(es[..|es| - 1]), es[|es| - 1])]
  }

  ghost predicate Cuts(f: Effect, p: Path) {
    f.Cut? && Within(p, f.at)
  }

  /** Effect i put `prop` at p, and nothing since then removed p or something above it. */
  ghost predicate PutAndKept(h: seq<Effect>, i: nat, p: Path, prop: Property) {
    && i < |h| && h[i] == Put(p, prop)
    && forall j :: i < j < |h| ==> !Cuts(h[j], p)
  }

  ghost predicate LastPutKept(h: seq<Effect>, p: Path, prop: Property) {
    exists i: nat :: PutAndKept(h, i, p, prop)
  }

  lemma {:induction false} RunWellFormed(es: seq<Event>)
    ensures WellFormed(Run(es))
  {
    if es == [] {
      assert forall p, k :: Listed(EMPTY, p, k);
    } else {
      RunWellFormed(es[..|es| - 1]);
      StepKeeps(Run(es[..|es| - 1]), es[|es| - 1].root, es[|es| - 1].call);
    }
  }

  /** How one call changes the property at p. */
  lemma PropAfterStep(t: Tree, e: Event, p: Path, prop: Property)
    requires WellFormed(t)
    ensures
      var t', f := Step(t, e.root, e.call).0, EffectOf(t, e);
      (p in t' && t'[p].prop == prop) <==>
      f == Put(p, prop) || (p in t && t[p].prop == prop && !Cuts(f, p))
  {
    if e.call.Create? {
      CreateEffect(t, e.root, e.call.path, e.call.prop);
    } else {
      StepKeeps(t, e.root, e.call);
    }
  }

  lemma LastPutSnoc(h: seq<Effect>, f: Effect, p: Path, prop: Property)
    ensures LastPutKept(h + [f], p, prop) <==> f == Put(p, prop) || (LastPutKept(h, p, prop) && !Cuts(f, p))
  {
    var h' := h + [f];
    if f == Put(p, prop) {
      assert PutAndKept(h', |h|, p, prop);
    }
    if i: nat :| PutAndKept(h, i, p, prop) {
      assert !Cuts(f, p) ==> PutAndKept(h', i, p, prop);
    }
    if i: nat :| PutAndKept(h', i, p, prop) {
      assert !Cuts(h'[|h|], p) || i == |h|;
      assert i < |h| ==> PutAndKept(h, i, p, prop) by {
        assert forall j :: 0 <= j < |h| ==> h[j] == h'[j];
      }
    }
  }

  /** Over every run: a path holds a property exactly when some successful create put that
      property there and no successful remove or pop has since taken the path, or one above
      it, away. Nothing is lost, resurrected or overwritten. */
  lemma {:induction false} PropertyIsLastPut(es: seq<Event>, p: Path, prop: Property)
    ensures p in Run(es) && Run(es)[p].prop == prop <==> LastPutKept(History(es), p, prop)
  {
    if es != [] {
      var front, e := es[..|es| - 1], es[|es| - 1];
      RunWellFormed(front);
      PropertyIsLastPut(front, p, prop);
      PropAfterStep(Run(front), e, p, prop);
      LastPutSnoc(History(front), EffectOf(Run(front), e), p, prop);
    }
  }

  /** What `access` returns after any run, through any view: the property of the last create
      still standing at that path, if there is one. */
  lemma AccessSeesLastPut(es: seq<Event>, root: string, path: string, prop: Property)
    ensures AccessSpec(Run(es), Join(root, path)) == Ok(prop) <==>
            LastPutKept(History(es), PathOf(Tokens(root) + Tokens(path)), prop)
  {
    TokensJoin(root, path);
    AccessReads(Run(es), Join(root, path), prop);
    PropertyIsLastPut(es, PathOf(Tokens(root) + Tokens(path)), prop);
  }

  lemma AccessReads(t: Tree, full: string, prop: Property)
    ensures AccessSpec(t, full) == Ok(prop) <==>
            PathOf(Tokens(full)) in t && t[PathOf(Tokens(full))].prop == prop
  {
  }

  // ----- Creation order, over every run

  /** The step since which p has been there without a break. */
  ghost function Born(es: seq<Event>, p: Path): nat
    requires p in Run(es)
  {
    if es == [] then 0
    else if p in Run(es[..|es| - 1]) then Born(es[..|es| - 1], p) else |es|
  }

  lemma {:induction false} BornBounded(es: seq<Event>, p: Path)
    requires p in Run(es)
    ensures Born(es, p) <= |es|
  {
    if es != [] && p in Run(es[..|es| - 1]) { BornBounded(es[..|es| - 1], p); }
  }

  lemma KeysThere(t: Tree, p: Path)
    requires WellFormed(t) && p in t
    ensures forall k :: k in t[p].keys ==> Sub(p, k) in t
  {
    forall k | k in t[p].keys
      ensures Sub(p, k) in t
    {
      assert Listed(t, p, k);
    }
  }

  /** Where element i of what is left came from. */
  function Origin(s: seq<string>, x: string, i: nat): nat
    requires i < |Without(s, x)|
  {
    if s[0] == x then i + 1 else if i == 0 then 0 else 1 + Origin(s[1..], x, i - 1)
  }

  lemma {:induction false} OriginKept(s: seq<string>, x: string, i: nat)
    requires i < |Without(s, x)|
    ensures Origin(s, x, i) < |s| && s[Origin(s, x, i)] == Without(s, x)[i]
  {
    if s[0] != x && i > 0 { OriginKept(s[1..], x, i - 1); }
  }

  lemma {:induction false} OriginGrows(s: seq<string>, x: string, i: nat, j: nat)
    requires i < j < |Without(s, x)|
    ensures Origin(s, x, i) < Origin(s, x, j)
  {
    if s[0] != x && i > 0 { OriginGrows(s[1..], x, i - 1, j - 1); }
  }

  lemma KeysAfterCut(t: Tree, e: Event, p: Path) returns (x: string)
    requires !e.call.Create? && p in Step(t, e.root, e.call).0
    ensures
      var t' := Step(t, e.root, e.call).0;
      p in t && (t'[p].keys == t[p].keys || t'[p].keys == Without(t[p].keys, x))
  {
    var at := PathOf(Tokens(Join(e.root, e.call.path)));
    x := if at.Sub? then at.name else "";
  }

  /** The children kept by a call that does not create keep their order. */
  lemma KeptInOrder(t: Tree, e: Event, p: Path, i: nat, j: nat) returns (i': nat, j': nat)
    requires !e.call.Create?
    requires var t' := Step(t, e.root, e.call).0; p in t' && i < j < |t'[p].keys|
    ensures
      var t' := Step(t, e.root, e.call).0;
      && p in t && i' < j' < |t[p].keys|
      && t'[p].keys[i] == t[p].keys[i'] && t'[p].keys[j] == t[p].keys[j']
  {
    var x := KeysAfterCut(t, e, p);
    var ks, ks' := t[p].keys, Step(t, e.root, e.call).0[p].keys;
    i', j' := i, j;
    if ks' != ks {
      OriginKept(ks, x, i);
      OriginKept(ks, x, j);
      OriginGrows(ks, x, i, j);
      i', j' := Origin(ks, x, i), Origin(ks, x, j);
    }
  }

  /** Of two siblings listed after a create, the second can be new but not the first. */
  lemma NewIsLast(t: Tree, e: Event, p: Path, i: nat, j: nat)
    requires WellFormed(t) && e.call.Create?
    requires var t' := Step(t, e.root, e.call).0; p in t' && i < j < |t'[p].keys|
    ensures
      var t' := Step(t, e.root, e.call).0;
      && p in t && i < |t[p].keys| && t'[p].keys[i] == t[p].keys[i]
      && (j < |t[p].keys| ==> t'[p].keys[j] == t[p].keys[j])
      && (j >= |t[p].keys| ==> Sub(p, t'[p].keys[j]) !in t)
  {
    var t' := Step(t, e.root, e.call).0;
    var at := PathOf(Tokens(Join(e.root, e.call.path)));
    CreateEffect(t, e.root, e.call.path, e.call.prop);
    StepKeeps(t, e.root, e.call);
    KeysThere(t', p);
    var k, l := t'[p].keys[i], t'[p].keys[j];
    assert k != l && Sub(p, k) in t' && Sub(p, l) in t';
    assert Listed(t, p, k) && Listed(t, p, l);
    if Sub(p, k) !in t && Sub(p, l) !in t { SiblingsApart(at, p, k, l); }
    if p in t {
      var was := t[p].keys;
      assert forall m :: 0 <= m < |was| ==> t'[p].keys[m] == was[m];
      assert l in was ==> exists m :: 0 <= m < |was| && was[m] == l;
    }
  }

  /** Over every run through any views: of two siblings, the one listed first has been there
      longer. A child removed and created again counts as new. */
  lemma {:induction false} CreationOrder(es: seq<Event>, p: Path, i: nat, j: nat)
    requires p in Run(es) && i < j < |Run(es)[p].keys|
    ensures
      var k, l := Sub(p, Run(es)[p].keys[i]), Sub(p, Run(es)[p].keys[j]);
      k in Run(es) && l in Run(es) && Born(es, k) < Born(es, l)
  {
    RunWellFormed(es);
    KeysThere(Run(es), p);
    if es != [] {
      var front, e := es[..|es| - 1], es[|es| - 1];
      var t := Run(front);
      RunWellFormed(front);
      if e.call.Create? {
        NewIsLast(t, e, p, i, j);
        KeysThere(t, p);
        if j < |t[p].keys| {
          CreationOrder(front, p, i, j);
        } else {
          BornBounded(front, Sub(p, t[p].keys[i]));
        }
      } else {
        var i', j' := KeptInOrder(t, e, p, i, j);
        CreationOrder(front, p, i', j');
      }
    }
  }
}
