/** Chains of names: places in a property tree, and in nested counter sets. */
module Paths {

  /** A name sequence, last name outermost. */
  datatype Path = Root | Sub(parent: Path, name: string)

  /** q is p or lies below it. */
  predicate Within(q: Path, p: Path) {
    q == p || (q.Sub? && Within(q.parent, p))
  }

  function Depth(p: Path): nat {
    if p.Root? then 0 else 1 + Depth(p.parent)
  }

  lemma {:induction false} WithinIsDeeper(q: Path, p: Path)
    requires Within(q, p)
    ensures Depth(q) >= Depth(p)
  {
    if q != p { WithinIsDeeper(q.parent, p); }
  }

  lemma NotWithinChild(p: Path, k: string)
    ensures !Within(p, Sub(p, k))
  {
    if Within(p, Sub(p, k)) { WithinIsDeeper(p, Sub(p, k)); }
  }

  lemma {:induction false} WithinTransitive(r: Path, q: Path, p: Path)
    requires Within(r, q) && Within(q, p)
    ensures Within(r, p)
  {
    if r != q { WithinTransitive(r.parent, q, p); }
  }

  lemma {:induction false} SiblingsApart(q: Path, p: Path, k: string, l: string)
    requires Within(q, Sub(p, k)) && Within(q, Sub(p, l))
    ensures k == l
  {
    if q == Sub(p, k) {
      WithinIsDeeper(q, Sub(p, l));
      if k != l { NotWithinChild(p, l); }
    } else if q == Sub(p, l) {
      NotWithinChild(p, k);
    } else {
      SiblingsApart(q.parent, p, k, l);
    }
  }
}
