/** The flat meaning of a property tree: which paths exist, what property each one holds,
    and in which order its children were created. */
module TreeSpec {
  import opened FsPath
  import opened Paths
  import opened Dict

  function PathOf(ts: Names): Path {
    if ts == [] then Root else Sub(PathOf(ts[..|ts| - 1]), ts[|ts| - 1])
  }

  /** Stands for `property_iface`; only its identity matters to the tree. */
  class Property {
  }

  datatype Info = Info(prop: Property?, keys: seq<string>)

  type Tree = map<Path, Info>

  const EMPTY: Tree := map[Root := Info(null, [])]

  /** What the tree operations report: `lookup_error`, the four `runtime_error`s, and the
      `key_error` of `uhd::dict::pop`. */
  datatype Result<+T> =
    | Ok(value: T)
    | PathNotFound
    | CannotUproot
    | CannotPop
    | Uninitialized
    | AlreadyExists
    | KeyError
  {
    function Map<U>(f: T -> U): Result<U> {
      match this
      case Ok(v) => Result.Ok(f(v))
      case PathNotFound => Result.PathNotFound
      case CannotUproot => Result.CannotUproot
      case CannotPop => Result.CannotPop
      case Uninitialized => Result.Uninitialized
      case AlreadyExists => Result.AlreadyExists
      case KeyError => Result.KeyError
    }
  }

  ghost predicate WellFormed(t: Tree) {
    && Root in t
    && (forall p :: p in t ==> NoDup(t[p].keys))
    && (forall p, k :: Listed(t, p, k))
  }

  /** Listing and existence agree, and only proper names are ever listed. */
  ghost predicate Listed(t: Tree, p: Path, k: string) {
    && (Sub(p, k) in t <==> p in t && k in t[p].keys)
    && (Sub(p, k) in t ==> IsName(k))
  }

  /** Add one child with no property unless it is there. */
  ghost function EnsureChild(t: Tree, p: Path, k: string): Tree {
    if p !in t || Sub(p, k) in t then t
    else t[p := t[p].(keys := t[p].keys + [k])][Sub(p, k) := Info(null, [])]
  }

  /** Add the missing prefixes of `p`, shortest first. */
  ghost function EnsurePath(t: Tree, p: Path): Tree {
    match p
    case Root => t
    case Sub(q, k) => EnsureChild(EnsurePath(t, q), q, k)
  }

  ghost function SetProp(t: Tree, p: Path, prop: Property?): Tree {
    if p in t then t[p := t[p].(prop := prop)] else t
  }

  /** Delete a path with everything below it. */
  ghost function Uproot(t: Tree, p: Path, k: string): Tree {
    map q | q in t && !Within(q, Sub(p, k)) ::
      if q == p then t[q].(keys := Without(t[q].keys, k)) else t[q]
  }

  ghost predicate Named(p: Path) {
    p.Sub? ==> IsName(p.name) && Named(p.parent)
  }

  lemma {:induction false} PathOfNamed(ts: Names)
    requires AreNames(ts)
    ensures Named(PathOf(ts))
  {
    if ts != [] {
      PathOfNamed(ts[..|ts| - 1]);
    }
  }

  /** One missing child more, and nothing else touched. */
  lemma EnsureChildKeeps(t: Tree, p: Path, k: string)
    requires WellFormed(t) && p in t && IsName(k)
    ensures WellFormed(EnsureChild(t, p, k))
  {
    var t' := EnsureChild(t, p, k);
    assert Listed(t, p, k);
    forall q, l
      ensures Listed(t', q, l)
    {
      assert Listed(t, q, l);
      assert Listed(t, Sub(p, k), l);
    }
  }

  /** Creating adds exactly the path and its missing prefixes, all without a property. */
  lemma {:induction false} EnsurePathAdds(t: Tree, p: Path)
    requires WellFormed(t) && Named(p)
    ensures WellFormed(EnsurePath(t, p))
    ensures forall q :: q in EnsurePath(t, p) <==> q in t || Within(p, q)
    ensures forall q :: q in EnsurePath(t, p) ==>
              EnsurePath(t, p)[q].prop == if q in t then t[q].prop else null
    ensures p in t ==> EnsurePath(t, p) == t
    ensures forall q :: q in t ==> t[q].keys <= EnsurePath(t, p)[q].keys
  {
    if p.Sub? {
      EnsurePathAdds(t, p.parent);
      assert Listed(t, p.parent, p.name);
      EnsureChildKeeps(EnsurePath(t, p.parent), p.parent, p.name);
    }
  }

  // ----- The operations, on the joined path string

  ghost function ListSpec(t: Tree, full: string): Result<seq<string>> {
    var p := PathOf(Tokens(full));
    if p !in t then PathNotFound else Ok(t[p].keys)
  }

  ghost function AccessSpec(t: Tree, full: string): Result<Property> {
    var p := PathOf(Tokens(full));
    if p !in t then PathNotFound
    else if t[p].prop == null then Uninitialized
    else Ok(t[p].prop)
  }

  ghost function CreateSpec(t: Tree, full: string, prop: Property?): (Tree, Result<()>) {
    var p := PathOf(Tokens(full));
    if p in t && t[p].prop != null then (t, AlreadyExists)
    else (SetProp(EnsurePath(t, p), p, prop), Ok(()))
  }

  ghost function RemoveSpec(t: Tree, full: string): (Tree, Result<()>) {
    var p := PathOf(Tokens(full));
    if p !in t then (t, PathNotFound)
    else if p.Root? then (t, CannotUproot)
    else if EndsWithSlash(full) then (t, KeyError)
    else (Uproot(t, p.parent, p.name), Ok(()))
  }

  ghost function PopSpec(t: Tree, full: string): (Tree, Result<Property>) {
    var p := PathOf(Tokens(full));
    if p !in t then (t, PathNotFound)
    else if t[p].prop == null then (t, Uninitialized)
    else if p.Root? then (t, CannotPop)
    else if EndsWithSlash(full) then (t, KeyError)
    else (Uproot(t, p.parent, p.name), Ok(t[p].prop))
  }
}
