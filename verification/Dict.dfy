/** `uhd::dict`: an insertion-ordered association list searched from the front. */
module Dict {

  datatype Entry<K, V> = Entry(key: K, value: V)

  type Dict<K, V> = seq<Entry<K, V>>

  /** Position of the first entry with this key, or the length when there is none. */
  function Find<K(==), V>(d: Dict<K, V>, k: K): (i: nat)
    ensures i <= |d|
    ensures i < |d| ==> d[i].key == k
    ensures forall j :: 0 <= j < i ==> d[j].key != k
  {
    if d == [] || d[0].key == k then 0 else 1 + Find(d[1..], k)
  }

  predicate HasKey<K(==), V>(d: Dict<K, V>, k: K) {
    Find(d, k) < |d|
  }

  function Get<K(==), V>(d: Dict<K, V>, k: K): V
    requires HasKey(d, k)
  {
    d[Find(d, k)].value
  }

  function Keys<K, V>(d: Dict<K, V>): (ks: seq<K>)
    ensures |ks| == |d|
    ensures forall i :: 0 <= i < |d| ==> ks[i] == d[i].key
  {
    seq(|d|, i requires 0 <= i < |d| => d[i].key)
  }

  /** `d[k] = v`: overwrite in place, or append. */
  function Put<K(==), V>(d: Dict<K, V>, k: K, v: V): Dict<K, V> {
    if HasKey(d, k) then d[Find(d, k) := Entry(k, v)] else d + [Entry(k, v)]
  }

  function Pop<K(==), V>(d: Dict<K, V>, k: K): Dict<K, V>
    requires HasKey(d, k)
  {
    d[..Find(d, k)] + d[Find(d, k) + 1..]
  }

  /** No key is stored twice: what `Put` and `Pop` keep. */
  ghost predicate Distinct<K, V>(d: Dict<K, V>) {
    forall i, j :: 0 <= i < j < |d| ==> d[i].key != d[j].key
  }

  ghost predicate NoDup<T>(s: seq<T>) {
    forall i, j :: 0 <= i < j < |s| ==> s[i] != s[j]
  }

  /** The sequence without the first occurrence of x. */
  function Without<T(==)>(s: seq<T>, x: T): seq<T> {
    if s == [] then [] else if s[0] == x then s[1..] else [s[0]] + Without(s[1..], x)
  }

  lemma FindUnique<K, V>(d: Dict<K, V>, i: nat)
    requires Distinct(d) && i < |d|
    ensures Find(d, d[i].key) == i
  {
  }

  lemma HasKeyIff<K, V>(d: Dict<K, V>, k: K)
    ensures HasKey(d, k) <==> k in Keys(d)
  {
    if HasKey(d, k) {
      assert Keys(d)[Find(d, k)] == k;
    } else {
      assert forall i :: 0 <= i < |d| ==> Keys(d)[i] == d[i].key != k;
    }
  }

  /** After `d[k] = v`, k maps to v and every other key is as before. */
  lemma PutLookup<K, V>(d: Dict<K, V>, k: K, v: V, q: K)
    ensures HasKey(Put(d, k, v), q) <==> HasKey(d, q) || q == k
    ensures HasKey(Put(d, k, v), q) ==> Get(Put(d, k, v), q) == if q == k then v else Get(d, q)
    ensures Distinct(d) ==> Distinct(Put(d, k, v))
  {
    var d' := Put(d, k, v);
    assert d'[Find(d, k)] == Entry(k, v);
    assert forall i :: 0 <= i < |d| && i != Find(d, k) ==> d'[i] == d[i];
    if HasKey(d, q) { assert d[Find(d, q)].key == q; }
    if HasKey(d', q) { assert d'[Find(d', q)].key == q; }
  }

  /** After `pop(k)`, k is gone and every other key is as before. */
  lemma PopLookup<K, V>(d: Dict<K, V>, k: K, q: K)
    requires Distinct(d) && HasKey(d, k)
    ensures HasKey(Pop(d, k), q) <==> HasKey(d, q) && q != k
    ensures HasKey(Pop(d, k), q) ==> Get(Pop(d, k), q) == Get(d, q)
    ensures Distinct(Pop(d, k))
  {
    var d', n := Pop(d, k), Find(d, k);
    assert forall i :: 0 <= i < |d'| ==> d'[i] == if i < n then d[i] else d[i + 1];
    if HasKey(d', q) {
      var i := Find(d', q);
      assert d[if i < n then i else i + 1] == d'[i];
    }
    if HasKey(d, q) && q != k {
      var i := Find(d, q);
      assert d'[if i < n then i else i - 1] == d[i];
    }
  }

  lemma KeysCons<K, V>(e: Entry<K, V>, d: Dict<K, V>)
    ensures Keys([e] + d) == [e.key] + Keys(d)
  {
  }

  lemma PopTail<K, V>(d: Dict<K, V>, k: K)
    requires HasKey(d, k) && d[0].key != k
    ensures HasKey(d[1..], k) && Pop(d, k) == [d[0]] + Pop(d[1..], k)
  {
  }

  lemma {:induction false} PopKeys<K, V>(d: Dict<K, V>, k: K)
    requires HasKey(d, k)
    ensures Keys(Pop(d, k)) == Without(Keys(d), k)
  {
    var tail := d[1..];
    assert Keys(d)[1..] == Keys(tail);
    if d[0].key == k {
      assert Pop(d, k) == tail;
    } else {
      PopTail(d, k);
      PopKeys(tail, k);
      KeysCons(d[0], Pop(tail, k));
    }
  }

  lemma {:induction false} WithoutLast<T>(s: seq<T>, x: T)
    requires x !in s
    ensures Without(s + [x], x) == s
  {
    if s != [] {
      assert (s + [x])[1..] == s[1..] + [x];
      WithoutLast(s[1..], x);
    }
  }

  /** Taking one element out closes the gap: the others keep their order. */
  lemma {:induction false} WithoutSplit<T>(a: seq<T>, x: T, b: seq<T>)
    requires x !in a
    ensures Without(a + [x] + b, x) == a + b
  {
    if a != [] {
      assert (a + [x] + b)[1..] == a[1..] + [x] + b;
      WithoutSplit(a[1..], x, b);
      assert [a[0]] + (a[1..] + b) == a + b;
    } else {
      assert a + [x] + b == [x] + b && a + b == b;
    }
  }

  lemma NoDupTail<T>(s: seq<T>)
    requires NoDup(s) && s != []
    ensures NoDup(s[1..]) && s[0] !in s[1..]
  {
    forall i, j | 0 <= i < j < |s[1..]|
      ensures s[1..][i] != s[1..][j]
    {
      assert s[1..][i] == s[i + 1] && s[1..][j] == s[j + 1];
    }
  }

  lemma NoDupCons<T>(x: T, s: seq<T>)
    requires NoDup(s) && x !in s
    ensures NoDup([x] + s)
  {
  }

  lemma {:induction false} WithoutMembers<T>(s: seq<T>, x: T)
    requires NoDup(s)
    ensures NoDup(Without(s, x))
    ensures forall y :: y in Without(s, x) <==> y in s && y != x
  {
    if s != [] {
      NoDupTail(s);
      WithoutMembers(s[1..], x);
      assert s == [s[0]] + s[1..];
      if s[0] != x { NoDupCons(s[0], Without(s[1..], x)); }
    }
  }
}
