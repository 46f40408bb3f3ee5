/** Path strings of the property tree: `fs_path::leaf`, `fs_path::branch_path`, the
    recursive `operator/`, and the tokenizer every tree operation runs on its path. */
module FsPath {

  /** The name sequence a path string denotes. */
  type Names = seq<string>

  ghost predicate IsName(t: string) {
    t != "" && '/' !in t
  }

  ghost predicate AreNames(ts: Names) {
    forall t :: t in ts ==> IsName(t)
  }

  predicate EndsWithSlash(s: string) {
    s != "" && s[|s| - 1] == '/'
  }

  // ----- The source's functions

  /** `operator/`: strip one slash from either side and try again, then glue. */
  function Join(lhs: string, rhs: string): string
    decreases |lhs| + |rhs|
  {
    if lhs != "" && lhs[|lhs| - 1] == '/' then Join(lhs[..|lhs| - 1], rhs)
    else if rhs != "" && rhs[0] == '/' then Join(lhs, rhs[1..])
    else lhs + "/" + rhs
  }

  /** `rfind("/")`, with -1 for `npos`. */
  function RFind(s: string): (pos: int)
    ensures -1 <= pos < |s|
    ensures pos >= 0 ==> s[pos] == '/'
    ensures forall k :: pos < k < |s| ==> s[k] != '/'
  {
    if s == "" then -1
    else if s[|s| - 1] == '/' then |s| - 1
    else RFind(s[..|s| - 1])
  }

  function Leaf(s: string): string {
    var pos := RFind(s);
    if pos == -1 then s else s[pos + 1..]
  }

  function BranchPath(s: string): string {
    var pos := RFind(s);
    if pos == -1 then s else s[..pos]
  }

  /** Length of the longest slash-free prefix. */
  function NameEnd(s: string): (n: nat)
    ensures n <= |s|
    ensures '/' !in s[..n]
    ensures n < |s| ==> s[n] == '/'
  {
    if s == "" || s[0] == '/' then 0 else
      assert s[..1 + NameEnd(s[1..])] == [s[0]] + s[1..][..NameEnd(s[1..])];
      1 + NameEnd(s[1..])
  }

  /** The tokenizer with separator "/": maximal slash-free runs, empty ones dropped. */
  function Tokens(s: string): (ts: Names)
    ensures AreNames(ts)
    decreases |s|
  {
    if s == "" then []
    else if s[0] == '/' then Tokens(s[1..])
    else var n := NameEnd(s); [s[..n]] + Tokens(s[n..])
  }

  // ----- Tokenisation is a homomorphism

  lemma {:induction false} TokensOfName(s: string)
    requires IsName(s)
    ensures Tokens(s) == [s]
  {
    assert forall k :: 0 <= k < |s| ==> s[k] in s;
    assert NameEnd(s) == |s|;
    assert s[..|s|] == s && s[|s|..] == "";
  }

  lemma {:induction false} NameEndGlue(a: string, b: string)
    ensures NameEnd(a + "/" + b) == NameEnd(a)
  {
    var s := a + "/" + b;
    if a != "" && a[0] != '/' {
      assert s[1..] == a[1..] + "/" + b;
      NameEndGlue(a[1..], b);
    }
  }

  lemma {:induction false} TokensGlue(a: string, b: string)
    ensures Tokens(a + "/" + b) == Tokens(a) + Tokens(b)
    decreases |a|
  {
    var s := a + "/" + b;
    if a == "" {
      assert s[1..] == b;
    } else if a[0] == '/' {
      assert s[1..] == a[1..] + "/" + b;
      TokensGlue(a[1..], b);
    } else {
      var n := NameEnd(a);
      NameEndGlue(a, b);
      assert s[..n] == a[..n] && s[n..] == a[n..] + "/" + b;
      TokensGlue(a[n..], b);
    }
  }

  /** Joining paths concatenates the name sequences they denote. */
  lemma {:induction false} TokensJoin(lhs: string, rhs: string)
    ensures Tokens(Join(lhs, rhs)) == Tokens(lhs) + Tokens(rhs)
    decreases |lhs| + |rhs|
  {
    if lhs != "" && lhs[|lhs| - 1] == '/' {
      var front := lhs[..|lhs| - 1];
      TokensJoin(front, rhs);
      assert lhs == front + "/" + "";
      TokensGlue(front, "");
    } else if rhs != "" && rhs[0] == '/' {
      TokensJoin(lhs, rhs[1..]);
    } else {
      TokensGlue(lhs, rhs);
    }
  }

  // ----- Join is associative, as strings

  predicate AllSlashes(s: string) {
    forall k :: 0 <= k < |s| ==> s[k] == '/'
  }

  /** The string without its trailing slashes. */
  function TrimRight(s: string): (r: string)
    ensures !EndsWithSlash(r) && r <= s
  {
    if EndsWithSlash(s) then TrimRight(s[..|s| - 1]) else s
  }

  /** The string without its leading slashes. */
  function TrimLeft(s: string): string {
    if s != "" && s[0] == '/' then TrimLeft(s[1..]) else s
  }

  /** Trimming takes away slashes only, and all there are at that end. */
  lemma {:induction false} TrimRightExact(s: string)
    ensures var r := TrimRight(s); !EndsWithSlash(r) && r <= s && AllSlashes(s[|r|..])
  {
    if EndsWithSlash(s) { TrimRightExact(s[..|s| - 1]); }
  }

  lemma {:induction false} TrimLeftExact(s: string)
    ensures
      var r := TrimLeft(s);
      && (r == "" || r[0] != '/')
      && |r| <= |s| && r == s[|s| - |r|..] && AllSlashes(s[..|s| - |r|])
  {
    if s != "" && s[0] == '/' { TrimLeftExact(s[1..]); }
  }

  lemma {:induction false} JoinTrims(lhs: string, rhs: string)
    ensures Join(lhs, rhs) == TrimRight(lhs) + "/" + TrimLeft(rhs)
    decreases |lhs| + |rhs|
  {
    if EndsWithSlash(lhs) {
      JoinTrims(lhs[..|lhs| - 1], rhs);
    } else if rhs != "" && rhs[0] == '/' {
      JoinTrims(lhs, rhs[1..]);
    }
  }

  lemma {:induction false} TrimRightGlue(x: string, y: string)
    ensures TrimRight(x + y) == if TrimRight(y) == "" then TrimRight(x) else x + TrimRight(y)
    decreases |y|
  {
    if y == "" {
      assert x + y == x;
    } else if EndsWithSlash(y) {
      assert (x + y)[..|x + y| - 1] == x + y[..|y| - 1];
      TrimRightGlue(x, y[..|y| - 1]);
    }
  }

  lemma {:induction false} TrimLeftGlue(x: string, y: string)
    ensures TrimLeft(x + y) == if TrimLeft(x) == "" then TrimLeft(y) else TrimLeft(x) + y
  {
    if x == "" {
      assert x + y == y;
    } else if x[0] == '/' {
      assert (x + y)[1..] == x[1..] + y;
      TrimLeftGlue(x[1..], y);
    }
  }

  /** Trimming from both ends does not depend on which end goes first. */
  lemma {:induction false} TrimsCommute(s: string)
    ensures TrimRight(TrimLeft(s)) == TrimLeft(TrimRight(s))
    ensures TrimLeft(s) == "" <==> TrimRight(s) == ""
    decreases |s|
  {
    if s == "" {
    } else if s[0] == '/' {
      assert s == "/" + s[1..];
      TrimRightGlue("/", s[1..]);
      TrimsCommute(s[1..]);
    } else {
      TrimRightGlue([s[0]], s[1..]);
      assert s == [s[0]] + s[1..];
    }
  }

  lemma {:induction false} TrimRightOfJoin(a: string, b: string)
    ensures TrimRight(Join(a, b)) ==
            if TrimRight(b) == "" then TrimRight(a) else TrimRight(a) + "/" + TrimRight(TrimLeft(b))
  {
    var ta, tb := TrimRight(a), TrimLeft(b);
    JoinTrims(a, b);
    assert Join(a, b) == ta + ("/" + tb);
    TrimRightGlue(ta, "/" + tb);
    TrimRightOfTrimmed(a);
    TrimRightOfSlash(b);
    if TrimRight(b) != "" {
      assert ta + ("/" + TrimRight(tb)) == ta + "/" + TrimRight(tb);
    }
  }

  lemma {:induction false} TrimRightOfSlash(b: string)
    ensures TrimRight("/" + TrimLeft(b)) == if TrimRight(b) == "" then "" else "/" + TrimRight(TrimLeft(b))
  {
    var tb := TrimLeft(b);
    TrimRightGlue("/", tb);
    TrimsCommute(b);
    TrimsCommute(tb);
    TrimLeftIdempotent(b);
    assert "/"[..0] == "";
  }

  lemma TrimRightOfTrimmed(s: string)
    ensures TrimRight(TrimRight(s)) == TrimRight(s)
  {
  }

  lemma {:induction false} TrimLeftOfJoin(b: string, c: string)
    ensures TrimLeft(Join(b, c)) ==
            if TrimRight(b) == "" then TrimLeft(c) else TrimRight(TrimLeft(b)) + "/" + TrimLeft(c)
  {
    var tb, tc := TrimRight(b), TrimLeft(c);
    JoinTrims(b, c);
    assert Join(b, c) == tb + ("/" + tc);
    TrimLeftGlue(tb, "/" + tc);
    assert ("/" + tc)[1..] == tc;
    TrimLeftIdempotent(c);
    TrimsCommute(b);
    TrimsCommute(tb);
    TrimRightOfTrimmed(b);
  }

  /** Nesting joins either way round gives the same string. */
  lemma {:induction false} JoinAssociative(a: string, b: string, c: string)
    ensures Join(Join(a, b), c) == Join(a, Join(b, c))
  {
    var ta, m, tc := TrimRight(a), TrimRight(TrimLeft(b)), TrimLeft(c);
    JoinTrims(Join(a, b), c);
    JoinTrims(a, Join(b, c));
    TrimRightOfJoin(a, b);
    TrimLeftOfJoin(b, c);
    Regroup(ta, m, tc);
  }

  lemma Regroup(a: string, b: string, c: string)
    ensures (a + "/" + b) + "/" + c == a + "/" + (b + "/" + c)
  {
  }

  lemma {:induction false} TrimLeftIdempotent(s: string)
    ensures TrimLeft(TrimLeft(s)) == TrimLeft(s)
  {
    if s != "" && s[0] == '/' { TrimLeftIdempotent(s[1..]); }
  }

  // ----- Leaf and branch

  /** `leaf` is the last token exactly when the path does not end in a slash. */
  lemma {:induction false} LeafIsLastToken(s: string)
    requires Tokens(s) != []
    ensures Leaf(s) == Tokens(s)[|Tokens(s)| - 1] <==> !EndsWithSlash(s)
  {
    var pos := RFind(s);
    if EndsWithSlash(s) {
      assert Leaf(s) == "";
      assert IsName(Tokens(s)[|Tokens(s)| - 1]);
    } else if pos == -1 {
      TokensOfName(s);
    } else {
      assert s == s[..pos] + "/" + s[pos + 1..];
      TokensGlue(s[..pos], s[pos + 1..]);
      TokensOfName(Leaf(s));
    }
  }

  /** A path ends in a slash after joining exactly when the right side is empty or ends in one. */
  lemma {:induction false} JoinEndsWithSlash(lhs: string, rhs: string)
    ensures EndsWithSlash(Join(lhs, rhs)) <==> rhs == "" || EndsWithSlash(rhs)
    decreases |lhs| + |rhs|
  {
    if EndsWithSlash(lhs) {
      JoinEndsWithSlash(lhs[..|lhs| - 1], rhs);
    } else if rhs != "" && rhs[0] == '/' {
      JoinEndsWithSlash(lhs, rhs[1..]);
    }
  }

  /** Splitting at the last slash loses no name exactly when there is a slash to split at
      (or nothing at all): a slash-free path is its own branch and its own leaf. */
  lemma {:induction false} BranchAndLeafSplit(s: string)
    ensures Tokens(BranchPath(s)) + Tokens(Leaf(s)) == Tokens(s) <==> '/' in s || s == ""
  {
    var pos := RFind(s);
    if pos >= 0 {
      assert s == s[..pos] + "/" + s[pos + 1..];
      TokensGlue(s[..pos], s[pos + 1..]);
    } else if s != "" {
      TokensOfName(s);
    }
  }

  /** The leaf is what follows the last slash, and the branch what precedes it. */
  lemma LeafAndBranchExact(s: string)
    ensures '/' !in Leaf(s)
    ensures if '/' in s then s == BranchPath(s) + "/" + Leaf(s) else BranchPath(s) == Leaf(s) == s
  {
    var pos := RFind(s);
    if pos >= 0 { assert s == s[..pos] + "/" + s[pos + 1..]; }
  }

  // ----- Every name sequence is denoted by a path

  function Render(ts: Names): string {
    if ts == [] then "" else "/" + ts[0] + Render(ts[1..])
  }

  /** Tokenising is the left inverse of writing the names out with slashes. */
  lemma {:induction false} TokensRender(ts: Names)
    requires AreNames(ts)
    ensures Tokens(Render(ts)) == ts
  {
    if ts != [] {
      TokensRender(ts[1..]);
      var rest := Render(ts[1..]);
      var s := ts[0] + rest;
      assert Render(ts) == "" + "/" + s;
      TokensGlue("", s);
      assert IsName(ts[0]);
      TokensOfName(ts[0]);
      if rest == "" {
        assert s == ts[0];
      } else {
        assert s == ts[0] + "/" + rest[1..] by { assert rest[0] == '/'; }
        TokensGlue(ts[0], rest[1..]);
      }
    }
  }
}
