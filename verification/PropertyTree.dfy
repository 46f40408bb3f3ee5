/** The pointer trie and its views. */
module PropertyTree {
  import opened FsPath
  import opened Dict
  import opened Paths
  import opened TreeSpec

  class Node {
    ghost const at: Path  // the path this node answers to
    var children: Dict<string, Node>
    var prop: Property?

    ghost predicate Holds(p: Path, children: Dict<string, Node>, prop: Property?)
      reads this
    {
      at == p && this.children == children && this.prop == prop
    }

    constructor (ghost at: Path)
      ensures this.at == at && children == [] && prop == null
    {
      this.at := at;
      children := [];
      prop := null;
    }
  }

  type Shape = map<Path, Dict<string, Node>>

  /** The child dictionaries in `shape` hook exactly the nodes named by `nodes` together. */
  ghost predicate Coherent(root: Node, nodes: map<Path, Node>, shape: Shape) {
    && nodes.Keys == shape.Keys
    && Root in nodes && nodes[Root] == root
    && (forall p :: p in shape ==> Distinct(shape[p]))
    && (forall p, k :: Hooked(nodes, shape, p, k))
  }

  ghost predicate Hooked(nodes: map<Path, Node>, shape: Shape, p: Path, k: string) {
    && (Sub(p, k) in nodes <==> p in shape && HasKey(shape[p], k))
    && (Sub(p, k) in nodes ==> IsName(k) && nodes[Sub(p, k)] == Get(shape[p], k))
  }

  ghost function GrownShape(shape: Shape, p: Path, k: string, child: Node): Shape
    requires p in shape
  {
    shape[p := Put(shape[p], k, child)][Sub(p, k) := []]
  }

  ghost function Flatten(shape: Shape, props: map<Path, Property?>): Tree
    requires shape.Keys == props.Keys
  {
    map p | p in shape :: Info(props[p], Keys(shape[p]))
  }

  lemma FlattenAdd(shape: Shape, props: map<Path, Property?>, p: Path, k: string, child: Node)
    requires shape.Keys == props.Keys && p in shape && Sub(p, k) !in shape && !HasKey(shape[p], k)
    ensures Flatten(GrownShape(shape, p, k, child), props[Sub(p, k) := null])
            == EnsureChild(Flatten(shape, props), p, k)
  {
    assert Keys(Put(shape[p], k, child)) == Keys(shape[p]) + [k];
  }

  lemma FlattenSet(shape: Shape, props: map<Path, Property?>, p: Path, prop: Property?)
    requires shape.Keys == props.Keys && p in shape
    ensures Flatten(shape, props[p := prop]) == SetProp(Flatten(shape, props), p, prop)
  {
  }

  lemma CoherentAdd(root: Node, nodes: map<Path, Node>, shape: Shape, p: Path, k: string, child: Node)
    requires Coherent(root, nodes, shape)
    requires p in shape && !HasKey(shape[p], k) && IsName(k)
    ensures Coherent(root, nodes[Sub(p, k) := child], GrownShape(shape, p, k, child))
  {
    var nodes', shape' := nodes[Sub(p, k) := child], GrownShape(shape, p, k, child);
    assert Hooked(nodes, shape, p, k);
    forall q, l
      ensures Hooked(nodes', shape', q, l)
    {
      assert Hooked(nodes, shape, q, l);
      assert Hooked(nodes, shape, Sub(p, k), l);
      PutLookup(shape[p], k, child, l);
    }
    PutLookup(shape[p], k, child, k);
  }

  ghost function PrunedShape(shape: Shape, p: Path, k: string): Shape
    requires p in shape && HasKey(shape[p], k)
  {
    map q | q in shape && !Within(q, Sub(p, k)) :: if q == p then Pop(shape[p], k) else shape[q]
  }

  ghost function Pruned<T>(m: map<Path, T>, p: Path): map<Path, T> {
    map q | q in m && !Within(q, p) :: m[q]
  }

  lemma CoherentPop(root: Node, nodes: map<Path, Node>, shape: Shape, p: Path, k: string)
    requires Coherent(root, nodes, shape)
    requires p in shape && HasKey(shape[p], k)
    ensures Coherent(root, Pruned(nodes, Sub(p, k)), PrunedShape(shape, p, k))
  {
    var nodes', shape' := Pruned(nodes, Sub(p, k)), PrunedShape(shape, p, k);
    forall q, l
      ensures Hooked(nodes', shape', q, l)
    {
      assert Hooked(nodes, shape, q, l);
      PopLookup(shape[p], k, l);
      NotWithinChild(p, k);
    }
    PopLookup(shape[p], k, k);
  }

  lemma FlattenPop(shape: Shape, props: map<Path, Property?>, p: Path, k: string)
    requires shape.Keys == props.Keys && p in shape && HasKey(shape[p], k)
    ensures Flatten(PrunedShape(shape, p, k), Pruned(props, Sub(p, k)))
            == Uproot(Flatten(shape, props), p, k)
  {
    PopKeys(shape[p], k);
  }

  lemma InitialState(root: Node)
    ensures Coherent(root, map[Root := root], map[Root := []])
    ensures Flatten(map[Root := []], map[Root := null]) == EMPTY
  {
  }

  lemma {:induction false} PrefixPresent(root: Node, nodes: map<Path, Node>, shape: Shape, names: Names, i: nat)
    requires Coherent(root, nodes, shape)
    requires i <= |names| && PathOf(names) in nodes
    ensures PathOf(names[..i]) in nodes
    decreases |names| - i
  {
    if i == |names| {
      assert names[..i] == names;
    } else {
      PrefixPresent(root, nodes, shape, names, i + 1);
      assert names[..i + 1][..i] == names[..i];
      assert Hooked(nodes, shape, PathOf(names[..i]), names[i]);
    }
  }

  /** `tree_guts_type`: the root node shared by all views. `nodes` names every node
      reachable from the root; `shape` and `props` are what those nodes hold. */
  class TreeGuts {
    const root: Node
    ghost var nodes: map<Path, Node>
    ghost var shape: Shape
    ghost var props: map<Path, Property?>

    /** The nodes are where, and hold what, the ghost state says. */
    ghost predicate Tied()
      reads this, nodes.Values
    {
      && nodes.Keys == shape.Keys == props.Keys
      && forall p :: p in nodes ==> nodes[p].Holds(p, shape[p], props[p])
    }

    ghost predicate Valid()
      reads this, nodes.Values
    {
      Tied() && Coherent(root, nodes, shape)
    }

    /** The flat map this trie implements. */
    ghost function Contents(): (t: Tree)
      reads this
      requires shape.Keys == props.Keys
    {
      Flatten(shape, props)
    }

    constructor ()
      ensures Valid() && fresh(nodes.Values)
      ensures Contents() == EMPTY
    {
      root := new Node(Root);
      new;
      nodes, shape, props := map[Root := root], map[Root := []], map[Root := null];
      InitialState(root);
    }

    lemma ContentsWellFormed()
      requires Valid()
      ensures WellFormed(Contents())
    {
      assert forall p :: p in shape ==> Distinct(shape[p]);
      forall p, k
        ensures Listed(Contents(), p, k)
      {
        assert Hooked(nodes, shape, p, k);
        if p in nodes { HasKeyIff(shape[p], k); }
      }
    }

    /** The token loop of `remove`, `exists`, `list`, `_pop` and `_access`. */
    method Walk(names: Names) returns (found: bool, parent: Node?, node: Node)
      requires Valid()
      ensures found <==> PathOf(names) in nodes
      ensures found ==> node == nodes[PathOf(names)]
      ensures found && names == [] ==> parent == null
      ensures found && names != [] ==>
        PathOf(names).parent in nodes && parent == nodes[PathOf(names).parent]
    {
      parent := null;
      node := root;
      for i := 0 to |names|
        invariant PathOf(names[..i]) in nodes && node == nodes[PathOf(names[..i])]
        invariant i == 0 ==> parent == null
        invariant i > 0 ==>
          var p := PathOf(names[..i]).parent; p in nodes && parent == nodes[p]
      {
        assert Hooked(nodes, shape, PathOf(names[..i]), names[i]);
        assert names[..i + 1][..i] == names[..i];
        if !HasKey(node.children, names[i]) {
          if PathOf(names) in nodes { PrefixPresent(root, nodes, shape, names, i + 1); }
          return false, parent, node;
        }
        parent := node;
        node := Get(node.children, names[i]);
      }
      assert names[..|names|] == names;
      return true, parent, node;
    }

    /** `(*node)[name] = node_type()` for a missing name. */
    method AddChild(node: Node, name: string) returns (child: Node)
      requires Valid()
      requires node.at in nodes && nodes[node.at] == node
      requires !HasKey(node.children, name) && IsName(name)
      modifies this, node
      ensures Valid() && fresh(child)
      ensures nodes == old(nodes)[Sub(node.at, name) := child]
      ensures Contents() == EnsureChild(old(Contents()), node.at, name)
    {
      assert Hooked(nodes, shape, node.at, name);
      child := Attach(node, name);
      CoherentAdd(root, old(nodes), old(shape), node.at, name, child);
      FlattenAdd(old(shape), old(props), node.at, name, child);
    }

    /** One turn of `_create`'s loop: the child of this name, added if missing. */
    method ChildOrNew(node: Node, name: string) returns (child: Node)
      requires Valid()
      requires node.at in nodes && nodes[node.at] == node && IsName(name)
      modifies this, node
      ensures Valid() && fresh(nodes.Values - old(nodes.Values))
      ensures Sub(node.at, name) in nodes && child == nodes[Sub(node.at, name)]
      ensures Contents() == EnsureChild(old(Contents()), node.at, name)
    {
      assert Hooked(nodes, shape, node.at, name);
      if !HasKey(node.children, name) {
        child := AddChild(node, name);
      } else {
        child := Get(node.children, name);
      }
    }

    /** `parent->pop(name)` for a name that is there. */
    method PopChild(node: Node, name: string)
      requires Valid()
      requires node.at in nodes && nodes[node.at] == node
      requires HasKey(node.children, name)
      modifies this, node
      ensures Valid()
      ensures nodes == Pruned(old(nodes), Sub(node.at, name))
      ensures Contents() == Uproot(old(Contents()), node.at, name)
    {
      CoherentPop(root, nodes, shape, node.at, name);
      FlattenPop(shape, props, node.at, name);
      Detach(node, name);
    }

    method PutProp(node: Node, prop: Property?)
      requires Valid()
      requires node.at in nodes && nodes[node.at] == node
      modifies this, node
      ensures Valid() && nodes == old(nodes)
      ensures Contents() == SetProp(old(Contents()), node.at, prop)
    {
      FlattenSet(shape, props, node.at, prop);
      Assign(node, prop);
    }

    // The three writes, with what they do to the ghost state.

    method Attach(node: Node, name: string) returns (child: Node)
      requires Tied() && node.at in nodes && nodes[node.at] == node
      requires Sub(node.at, name) !in nodes
      modifies this, node
      ensures Tied() && fresh(child)
      ensures nodes == old(nodes)[Sub(node.at, name) := child]
      ensures shape == GrownShape(old(shape), node.at, name, child)
      ensures props == old(props)[Sub(node.at, name) := null]
    {
      ghost var q := Sub(node.at, name);
      child := new Node(q);
      node.children := Put(node.children, name, child);
      nodes, props := nodes[q := child], props[q := null];
      shape := GrownShape(shape, node.at, name, child);
    }

    method Detach(node: Node, name: string)
      requires Tied() && node.at in nodes && nodes[node.at] == node
      requires HasKey(node.children, name)
      modifies this, node
      ensures Tied()
      ensures nodes == Pruned(old(nodes), Sub(node.at, name))
      ensures shape == PrunedShape(old(shape), node.at, name)
      ensures props == Pruned(old(props), Sub(node.at, name))
    {
      ghost var q := Sub(node.at, name);
      shape := PrunedShape(shape, node.at, name);
      node.children := Pop(node.children, name);
      nodes, props := Pruned(nodes, q), Pruned(props, q);
    }

    method Assign(node: Node, prop: Property?)
      requires Tied() && node.at in nodes && nodes[node.at] == node
      modifies this, node
      ensures Tied() && nodes == old(nodes) && shape == old(shape)
      ensures props == old(props)[node.at := prop]
    {
      node.prop := prop;
      props := props[node.at := prop];
    }
  }

  /** `property_tree_impl`: a root prefix and the shared guts. */
  class PropertyTree {
    const guts: TreeGuts
    const root: string

    /** `property_tree::make`. */
    constructor ()
      ensures guts.Valid() && fresh(guts) && fresh(guts.nodes.Values)
      ensures guts.Contents() == EMPTY && root == ""
    {
      root := "";
      guts := new TreeGuts();
    }

    constructor Sharing(guts: TreeGuts, root: string)
      ensures this.guts == guts && this.root == root
    {
      this.guts := guts;
      this.root := root;
    }

    method Subtree(path: string) returns (t: PropertyTree)
      ensures fresh(t) && t.guts == guts && t.root == Join(root, path)
    {
      t := new PropertyTree.Sharing(guts, Join(root, path));
    }

    method Exists(path: string) returns (r: bool)
      requires guts.Valid()
      ensures r <==> PathOf(Tokens(Join(root, path))) in guts.Contents()
    {
      var found, _, _ := guts.Walk(Tokens(Join(root, path)));
      return found;
    }

    method List(path: string) returns (r: Result<seq<string>>)
      requires guts.Valid()
      ensures r == ListSpec(guts.Contents(), Join(root, path))
    {
      var found, _, node := guts.Walk(Tokens(Join(root, path)));
      if !found { return PathNotFound; }
      return Ok(Keys(node.children));
    }

    method Access(path: string) returns (r: Result<Property>)
      requires guts.Valid()
      ensures r == AccessSpec(guts.Contents(), Join(root, path))
    {
      var found, _, node := guts.Walk(Tokens(Join(root, path)));
      if !found { return PathNotFound; }
      if node.prop == null { return Uninitialized; }
      return Ok(node.prop);
    }

    method Remove(path: string) returns (r: Result<()>)
      requires guts.Valid()
      modifies guts, guts.nodes.Values
      ensures guts.Valid() && guts.nodes.Values <= old(guts.nodes.Values)
      ensures (guts.Contents(), r) == RemoveSpec(old(guts.Contents()), Join(root, path))
    {
      var full := Join(root, path);
      var found, parent, _ := guts.Walk(Tokens(full));
      if !found { return PathNotFound; }
      if parent == null { return CannotUproot; }
      r := PopLeaf(parent, full);
    }

    method Pop(path: string) returns (r: Result<Property>)
      requires guts.Valid()
      modifies guts, guts.nodes.Values
      ensures guts.Valid() && guts.nodes.Values <= old(guts.nodes.Values)
      ensures (guts.Contents(), r) == PopSpec(old(guts.Contents()), Join(root, path))
    {
      var full := Join(root, path);
      var found, parent, node := guts.Walk(Tokens(full));
      if !found { return PathNotFound; }
      if node.prop == null { return Uninitialized; }
      if parent == null { return CannotPop; }
      var prop := node.prop;
      var popped := PopLeaf(parent, full);
      return if popped.Ok? then Ok(prop) else KeyError;
    }

    /** `parent->pop(fs_path(path.leaf()))`: the key is the leaf of the string, which need
        not be the last token. */
    method PopLeaf(parent: Node, full: string) returns (r: Result<()>)
      requires guts.Valid() && Tokens(full) != []
      requires PathOf(Tokens(full)) in guts.nodes
      requires PathOf(Tokens(full)).parent in guts.nodes
      requires parent == guts.nodes[PathOf(Tokens(full)).parent]
      modifies guts, parent
      ensures guts.Valid() && guts.nodes.Values <= old(guts.nodes.Values)
      ensures r == if EndsWithSlash(full) then KeyError else Ok(())
      ensures guts.Contents() ==
              var t, p := old(guts.Contents()), PathOf(Tokens(full));
              if EndsWithSlash(full) then t else Uproot(t, p.parent, p.name)
    {
      LeafIsLastToken(full);
      ghost var p := PathOf(Tokens(full));
      assert Hooked(guts.nodes, guts.shape, p.parent, p.name);
      assert Hooked(guts.nodes, guts.shape, p.parent, Leaf(full));
      if !HasKey(parent.children, Leaf(full)) { return KeyError; }
      guts.PopChild(parent, Leaf(full));
      return Ok(());
    }

    method Create(path: string, prop: Property?) returns (r: Result<()>)
      requires guts.Valid()
      modifies guts, guts.nodes.Values
      ensures guts.Valid() && fresh(guts.nodes.Values - old(guts.nodes.Values))
      ensures (guts.Contents(), r) == CreateSpec(old(guts.Contents()), Join(root, path), prop)
    {
      var full := Join(root, path);
      ghost var t, p := guts.Contents(), PathOf(Tokens(full));
      guts.ContentsWellFormed();
      PathOfNamed(Tokens(full));
      EnsurePathAdds(t, p);
      var node := EnsureNode(Tokens(full));
      if node.prop != null {
        return AlreadyExists;
      }
      guts.PutProp(node, prop);
      return Ok(());
    }

    /** The token loop of `_create`. */
    method EnsureNode(names: Names) returns (node: Node)
      requires guts.Valid() && AreNames(names)
      modifies guts, guts.nodes.Values
      ensures guts.Valid() && fresh(guts.nodes.Values - old(guts.nodes.Values))
      ensures PathOf(names) in guts.nodes && node == guts.nodes[PathOf(names)]
      ensures guts.Contents() == EnsurePath(old(guts.Contents()), PathOf(names))
    {
      node := guts.root;
      for i := 0 to |names|
        invariant guts.Valid() && fresh(guts.nodes.Values - old(guts.nodes.Values))
        invariant PathOf(names[..i]) in guts.nodes && node == guts.nodes[PathOf(names[..i])]
        invariant guts.Contents() == EnsurePath(old(guts.Contents()), PathOf(names[..i]))
      {
        assert names[..i + 1][..i] == names[..i];
        node := guts.ChildOrNew(node, names[i]);
      }
      assert names[..|names|] == names;
    }
  }
}
