/** Selection and ordering helpers shared by the vision and matcher models:
    the "keep the first strictly better candidate" scans, Python's `max` with
    a key, list comprehensions with a condition, and Python's stable
    `sorted`/`list.sort` with a key. */
module Select {
  import opened Wrappers

  /** The scan `best = 0; for i: if e[i] > best: best, k = e[i], i`:
      the index of the first largest value, if that value is positive. */
  function FirstMax(e: seq<real>): (r: Option<nat>)
    ensures r.Some? ==> r.value < |e| && e[r.value] > 0.0
  {
    if e == [] then None
    else
      var prev := FirstMax(e[..|e| - 1]);
      var best := if prev.Some? then e[prev.value] else 0.0;
      if e[|e| - 1] > best then Some(|e| - 1) else prev
  }

  /** FirstMax finds nothing exactly when no value is positive; otherwise its
      value is the largest one and every earlier value is strictly smaller. */
  lemma {:induction false} FirstMaxSpec(e: seq<real>)
    ensures FirstMax(e).None? <==> forall j :: 0 <= j < |e| ==> e[j] <= 0.0
    ensures FirstMax(e).Some? ==> forall j :: 0 <= j < |e| ==> e[j] <= e[FirstMax(e).value]
    ensures FirstMax(e).Some? ==> forall j :: 0 <= j < FirstMax(e).value ==> e[j] < e[FirstMax(e).value]
  {
    if e != [] {
      var p := e[..|e| - 1];
      FirstMaxSpec(p);
      assert forall j :: 0 <= j < |p| ==> p[j] == e[j];
    }
  }

  /** Python's `max(range(len(e)), key=lambda i: e[i])`: the first index of a
      largest value. */
  function ArgMaxFirst(e: seq<real>): (k: nat)
    requires |e| > 0
    ensures k < |e|
  {
    if |e| == 1 then 0
    else
      var k := ArgMaxFirst(e[..|e| - 1]);
      if e[|e| - 1] > e[k] then |e| - 1 else k
  }

  lemma {:induction false} ArgMaxFirstSpec(e: seq<real>)
    requires |e| > 0
    ensures forall j :: 0 <= j < |e| ==> e[j] <= e[ArgMaxFirst(e)]
    ensures forall j :: 0 <= j < ArgMaxFirst(e) ==> e[j] < e[ArgMaxFirst(e)]
  {
    if |e| > 1 {
      var p := e[..|e| - 1];
      ArgMaxFirstSpec(p);
      assert forall j :: 0 <= j < |p| ==> p[j] == e[j];
    }
  }

  /** `[x for x in s if p(x)]`. */
  function Filter<T>(s: seq<T>, p: T -> bool): (r: seq<T>)
    ensures |r| <= |s|
    ensures forall i :: 0 <= i < |r| ==> p(r[i])
    ensures forall i :: 0 <= i < |r| ==> r[i] in s
    ensures forall i :: 0 <= i < |s| && p(s[i]) ==> s[i] in r
  {
    if s == [] then []
    else if p(s[0]) then [s[0]] + Filter(s[1..], p)
    else Filter(s[1..], p)
  }

  /** Filtering distributes over concatenation: together with the one-element
      case this says the kept elements stay in their original order. */
  lemma {:induction false} FilterAppend<T>(a: seq<T>, b: seq<T>, p: T -> bool)
    ensures Filter(a + b, p) == Filter(a, p) + Filter(b, p)
  {
    if a != [] {
      assert (a + b)[1..] == a[1..] + b;
      FilterAppend(a[1..], b, p);
    } else {
      assert a + b == b;
    }
  }

  /** Filtering keeps each wanted value as often as it occurs and drops the
      others entirely. */
  lemma {:induction false} FilterMultiset<T>(s: seq<T>, p: T -> bool, x: T)
    ensures multiset(Filter(s, p))[x] == if p(x) then multiset(s)[x] else 0
  {
    if s != [] {
      FilterMultiset(s[1..], p, x);
      assert s == [s[0]] + s[1..];
    }
  }

  /** One more step of the FirstMax scan: the prefix grows by `e[i]`, which
      is kept only if it beats the best value so far. */
  lemma FirstMaxStep(e: seq<real>, i: nat)
    requires i < |e|
    ensures FirstMax(e[..i + 1]) ==
      (var p := FirstMax(e[..i]);
       if e[i] > (if p.Some? then e[p.value] else 0.0) then Some(i) else p)
  {
    assert e[..i + 1][..i] == e[..i];
  }

  /** The scan `best = 0; for i: if f(s[i]) > best: best, k = f(s[i]), i`:
      nothing when no score is positive, otherwise the first index of the
      highest score. */
  function BestBy<T>(s: seq<T>, f: T -> real): (r: Option<nat>)
    ensures r.None? <==> forall j :: 0 <= j < |s| ==> f(s[j]) <= 0.0
    ensures r.Some? ==> r.value < |s| && f(s[r.value]) > 0.0
    ensures r.Some? ==> forall j :: 0 <= j < |s| ==> f(s[j]) <= f(s[r.value])
    ensures r.Some? ==> forall j :: 0 <= j < r.value ==> f(s[j]) < f(s[r.value])
  {
    var e := MapSeq(s, f);
    FirstMaxSpec(e);
    FirstMax(e)
  }

  /** One more step of the BestBy scan, as a loop takes it. */
  lemma BestByStep<T>(s: seq<T>, f: T -> real, i: nat)
    requires i < |s|
    ensures BestBy(s[..i + 1], f) ==
      (var p := BestBy(s[..i], f);
       if f(s[i]) > (if p.Some? then f(s[p.value]) else 0.0) then Some(i) else p)
  {
    var e := MapSeq(s[..i + 1], f);
    assert e[..i] == MapSeq(s[..i], f);
    assert e[..i + 1] == e;
    FirstMaxStep(e, i);
  }

  /** A score that counts only when it reaches `threshold`. */
  function Gated<T>(f: T -> real, threshold: real): T -> real {
    x => if f(x) >= threshold then f(x) else 0.0
  }

  /** The score `c` for elements passing `hit`, and 0 for the others. */
  function Indicator<T>(hit: T -> bool, c: real): T -> real {
    x => if hit(x) then c else 0.0
  }

  /** `next((i for i, x in enumerate(s) if p(x)), None)`: the first index
      whose element satisfies `p`. */
  function FirstIndex<T>(s: seq<T>, p: T -> bool): (r: Option<nat>)
    ensures r.Some? ==> r.value < |s| && p(s[r.value])
    ensures r.Some? ==> forall j :: 0 <= j < r.value ==> !p(s[j])
    ensures r.None? ==> forall j :: 0 <= j < |s| ==> !p(s[j])
  {
    if s == [] then None
    else if p(s[0]) then Some(0)
    else match FirstIndex(s[1..], p)
      case None => None
      case Some(k) => Some(k + 1)
  }

  /** The first element kept by a filter is the element at the first index
      passing it, and the filter keeps something exactly when there is one. */
  lemma {:induction false} FilterFirst<T>(s: seq<T>, p: T -> bool)
    ensures Filter(s, p) != [] <==> FirstIndex(s, p).Some?
    ensures FirstIndex(s, p).Some? ==> Filter(s, p)[0] == s[FirstIndex(s, p).value]
  {
    if s != [] && !p(s[0]) {
      FilterFirst(s[1..], p);
    }
  }

  /** `[f(x) for x in s]`. */
  function MapSeq<A, B>(s: seq<A>, f: A -> B): (r: seq<B>)
    ensures |r| == |s|
    ensures forall k :: 0 <= k < |s| ==> r[k] == f(s[k])
  {
    if s == [] then [] else [f(s[0])] + MapSeq(s[1..], f)
  }

  /** Mapping works piece by piece. */
  lemma MapSeqAppend<A, B>(a: seq<A>, b: seq<A>, f: A -> B)
    ensures MapSeq(a + b, f) == MapSeq(a, f) + MapSeq(b, f)
  {
    var l, r := MapSeq(a + b, f), MapSeq(a, f) + MapSeq(b, f);
    forall k | 0 <= k < |l| ensures l[k] == r[k] {
      if k < |a| {
        assert (a + b)[k] == a[k];
      } else {
        assert (a + b)[k] == b[k - |a|];
      }
    }
  }

  /** `for i in range(len(a)): a[i] = f(a[i])`: every slot is replaced by its
      image, front to back. */
  method MapInPlace<T>(a: array<T>, f: T -> T)
    modifies a
    ensures a[..] == MapSeq(old(a[..]), f)
  {
    ghost var before := a[..];
    var i := 0;
    while i < a.Length
      invariant 0 <= i <= a.Length
      invariant forall k :: 0 <= k < i ==> a[k] == f(before[k])
      invariant forall k :: i <= k < a.Length ==> a[k] == before[k]
    {
      a[i] := f(a[i]);
      i := i + 1;
    }
    assert a[..] == MapSeq(before, f);
  }

  /** `[f(x) for x in s]` for a function defined on every element of `s`. */
  function MapDefined<A, B>(f: A --> B, s: seq<A>): (r: seq<B>)
    requires forall k :: 0 <= k < |s| ==> f.requires(s[k])
    ensures |r| == |s|
  {
    seq(|s|, k requires 0 <= k < |s| => f(s[k]))
  }

  /** Mapping over a sequence with one more element in front. */
  lemma MapDefinedCons<A, B>(f: A --> B, x: A, s: seq<A>)
    requires f.requires(x) && forall k :: 0 <= k < |s| ==> f.requires(s[k])
    ensures forall k :: 0 <= k < |[x] + s| ==> f.requires(([x] + s)[k])
    ensures MapDefined(f, [x] + s) == [f(x)] + MapDefined(f, s)
  {
    var t := [x] + s;
    forall k | 0 <= k < |t| ensures f.requires(t[k]) {
      if k > 0 {
        assert t[k] == s[k - 1];
      }
    }
    var r := MapDefined(f, t);
    var r' := [f(x)] + MapDefined(f, s);
    forall k | 0 <= k < |r| ensures r[k] == r'[k] {
      if k > 0 {
        assert t[k] == s[k - 1];
      }
    }
  }

  /** Concatenation is associative; stated once so that long proofs need
      not rediscover it. */
  lemma AppendAssoc<T>(a: seq<T>, b: seq<T>, c: seq<T>)
    ensures (a + b) + c == a + (b + c)
  {
  }

  /** A slice is its first element followed by the rest. */
  lemma ConsSlice<T>(s: seq<T>, i: nat, j: nat)
    requires i < j <= |s|
    ensures [s[i]] + s[i + 1..j] == s[i..j]
  {
  }

  /** The positions of a sequence that keeps `s` up to `a`, then holds
      `mid`, one element `c` and the rest. */
  lemma SplicedAfter<T>(s: seq<T>, p: nat, a: nat, mid: seq<T>, c: T, post: seq<T>, t: seq<T>, r: seq<T>)
    requires p <= a <= |s|
    requires t == s[p..a] + mid + [c] + post
    requires r == s[..p] + t
    ensures a + |mid| < |r|
    ensures forall k :: 0 <= k < a ==> r[k] == s[k]
    ensures forall k :: 0 <= k < |mid| ==> r[a + k] == mid[k]
    ensures r[a + |mid|] == c
  {
    assert r == s[..a] + mid + [c] + post;
  }

  /** Python's `s[:n]`; a negative `n` counts from the end. */
  function PyTake<T>(s: seq<T>, n: int): (r: seq<T>)
    ensures |r| <= |s| && r == s[..|r|]
    ensures n >= 0 ==> |r| == (if n <= |s| then n else |s|)
    ensures n < 0 ==> |r| == (if |s| + n >= 0 then |s| + n else 0)
  {
    if n >= 0 then (if n <= |s| then s[..n] else s)
    else if |s| + n >= 0 then s[..|s| + n] else []
  }

  /** Sort keys are compared as Python compares pairs: lexicographically. */
  datatype Key = Key(major: real, minor: real)

  predicate KeyLe(a: Key, b: Key) {
    a.major < b.major || (a.major == b.major && a.minor <= b.minor)
  }

  ghost predicate SortedBy<T>(s: seq<T>, key: T -> Key) {
    forall i, j :: 0 <= i < j < |s| ==> KeyLe(key(s[i]), key(s[j]))
  }

  /** Inserts `x` in front of the first element whose key is not smaller, so
      that `x` stays ahead of every element with an equal key. */
  function Insert<T>(x: T, s: seq<T>, key: T -> Key): (r: seq<T>)
    ensures |r| == |s| + 1
  {
    if s == [] then [x]
    else if KeyLe(key(x), key(s[0])) then [x] + s
    else [s[0]] + Insert(x, s[1..], key)
  }

  /** Python's stable `sorted(s, key=key)`, as insertion sort. */
  function SortBy<T>(s: seq<T>, key: T -> Key): (r: seq<T>)
    ensures |r| == |s|
  {
    if s == [] then [] else Insert(s[0], SortBy(s[1..], key), key)
  }

  /** Insert adds exactly one occurrence of `x`. */
  lemma {:induction false} InsertPerm<T>(x: T, s: seq<T>, key: T -> Key)
    ensures multiset(Insert(x, s, key)) == multiset(s) + multiset{x}
  {
    if s != [] && !KeyLe(key(x), key(s[0])) {
      InsertPerm(x, s[1..], key);
      assert s == [s[0]] + s[1..];
    }
  }

  /** Insert keeps a sorted list sorted. */
  lemma {:induction false} InsertSorted<T>(x: T, s: seq<T>, key: T -> Key)
    requires SortedBy(s, key)
    ensures SortedBy(Insert(x, s, key), key)
  {
    if s != [] && !KeyLe(key(x), key(s[0])) {
      var t := Insert(x, s[1..], key);
      InsertSorted(x, s[1..], key);
      InsertPerm(x, s[1..], key);
      forall j | 0 <= j < |t| ensures KeyLe(key(s[0]), key(t[j])) {
        assert t[j] in multiset(t);
        if t[j] != x {
          assert t[j] in multiset(s[1..]);
          var m :| 0 <= m < |s[1..]| && s[1..][m] == t[j];
          assert s[1 + m] == t[j];
        }
      }
      SortedCons(s[0], t, key);
    }
  }

  lemma SortedCons<T>(y: T, t: seq<T>, key: T -> Key)
    requires SortedBy(t, key)
    requires forall j :: 0 <= j < |t| ==> KeyLe(key(y), key(t[j]))
    ensures SortedBy([y] + t, key)
  {
    var r := [y] + t;
    forall i, j | 0 <= i < j < |r| ensures KeyLe(key(r[i]), key(r[j])) {
      assert r[j] == t[j - 1];
      if i > 0 {
        assert r[i] == t[i - 1];
      }
    }
  }

  /** SortBy orders by key and only rearranges its input. */
  lemma {:induction false} SortBySpec<T>(s: seq<T>, key: T -> Key)
    ensures SortedBy(SortBy(s, key), key)
    ensures multiset(SortBy(s, key)) == multiset(s)
  {
    if s != [] {
      SortBySpec(s[1..], key);
      InsertSorted(s[0], SortBy(s[1..], key), key);
      InsertPerm(s[0], SortBy(s[1..], key), key);
      assert s == [s[0]] + s[1..];
    }
  }

  /** Sorting neither adds nor loses elements. */
  lemma SortByMembers<T>(s: seq<T>, key: T -> Key, x: T)
    ensures x in SortBy(s, key) <==> x in s
  {
    SortBySpec(s, key);
    assert x in SortBy(s, key) <==> x in multiset(SortBy(s, key));
  }

  /** A property every element has survives sorting. */
  lemma SortByAll<T>(s: seq<T>, key: T -> Key, p: T -> bool)
    requires forall k :: 0 <= k < |s| ==> p(s[k])
    ensures forall k :: 0 <= k < |SortBy(s, key)| ==> p(SortBy(s, key)[k])
  {
    forall k | 0 <= k < |SortBy(s, key)| ensures p(SortBy(s, key)[k]) {
      SortByMembers(s, key, SortBy(s, key)[k]);
    }
  }

  /** The first `n` of a sorted list: `n` of them when there are that many,
      in key order, a property every input element has holds for each, and
      they are the least: an input element whose key is strictly below the
      last one taken is among them. */
  lemma TakeSorted<T>(s: seq<T>, key: T -> Key, p: T -> bool, n: int)
    requires forall k :: 0 <= k < |s| ==> p(s[k])
    ensures var r := PyTake(SortBy(s, key), n);
      && (n >= 0 ==> |r| == (if n <= |s| then n else |s|))
      && (forall k :: 0 <= k < |r| ==> p(r[k]))
      && (forall i, j :: 0 <= i < j < |r| ==> KeyLe(key(r[i]), key(r[j])))
      && (forall x :: x in s && |r| > 0 && !KeyLe(key(r[|r| - 1]), key(x)) ==> x in r)
  {
    SortByAll(s, key, p);
    SortBySpec(s, key);
    var sorted := SortBy(s, key);
    var r := PyTake(sorted, n);
    assert forall k :: 0 <= k < |r| ==> r[k] == sorted[k];
    if |r| > 0 {
      assert forall j :: |r| <= j < |sorted| ==> KeyLe(key(r[|r| - 1]), key(sorted[j]));
      forall x | x in s && !KeyLe(key(r[|r| - 1]), key(x)) ensures x in r {
        SortByMembers(s, key, x);
        var j :| 0 <= j < |sorted| && sorted[j] == x;
        assert r[j] == x;
      }
    }
  }

  /** The elements whose sort key is `k`. */
  function KeyIs<T>(key: T -> Key, k: Key): T -> bool {
    x => key(x) == k
  }

  /** Insert puts `x` ahead of every element with the same key, so among
      the elements of key `k` it only adds `x` at the front. */
  lemma {:induction false} InsertKeyFilter<T>(x: T, t: seq<T>, key: T -> Key, k: Key)
    ensures Filter(Insert(x, t, key), KeyIs(key, k))
      == if key(x) == k then [x] + Filter(t, KeyIs(key, k)) else Filter(t, KeyIs(key, k))
  {
    if t != [] && !KeyLe(key(x), key(t[0])) {
      InsertKeyFilter(x, t[1..], key, k);
      assert Insert(x, t, key) == [t[0]] + Insert(x, t[1..], key);
    }
  }

  /** The sort is stable: the elements of any one key come out in the order
      they went in. */
  lemma {:induction false} SortByStable<T>(s: seq<T>, key: T -> Key, k: Key)
    ensures Filter(SortBy(s, key), KeyIs(key, k)) == Filter(s, KeyIs(key, k))
  {
    if s != [] {
      SortByStable(s[1..], key, k);
      InsertKeyFilter(s[0], SortBy(s[1..], key), key, k);
    }
  }

  /** The first `n` of a stable sort take each input element at most as
      often as it occurs, and the elements of any one key form a prefix of
      that key's elements in input order. */
  lemma TakeSortedStable<T>(s: seq<T>, key: T -> Key, n: int)
    ensures multiset(PyTake(SortBy(s, key), n)) <= multiset(s)
    ensures forall k: Key :: Filter(PyTake(SortBy(s, key), n), KeyIs(key, k)) <= Filter(s, KeyIs(key, k))
  {
    var sorted := SortBy(s, key);
    var r := PyTake(sorted, n);
    var rest := sorted[|r|..];
    assert sorted == r + rest;
    SortBySpec(s, key);
    assert multiset(sorted) == multiset(r) + multiset(rest);
    forall k: Key
      ensures Filter(r, KeyIs(key, k)) <= Filter(s, KeyIs(key, k))
    {
      FilterAppend(r, rest, KeyIs(key, k));
      SortByStable(s, key, k);
    }
  }

  /** The first element of a stable sort is the first element of the input
      whose key is minimal: its key is not larger than any other, and every
      element before it in the input has a strictly larger key. */
  lemma {:induction false} SortByHead<T>(s: seq<T>, key: T -> Key)
    requires |s| > 0
    ensures exists k :: (0 <= k < |s| && SortBy(s, key)[0] == s[k]
      && (forall j :: 0 <= j < |s| ==> KeyLe(key(s[k]), key(s[j])))
      && (forall j :: 0 <= j < k ==> !KeyLe(key(s[j]), key(s[k]))))
  {
    if |s| == 1 {
      assert SortBy(s, key)[0] == s[0];
    } else {
      var rest := s[1..];
      SortByHead(rest, key);
      var k' :| 0 <= k' < |rest| && SortBy(rest, key)[0] == rest[k']
        && (forall j :: 0 <= j < |rest| ==> KeyLe(key(rest[k']), key(rest[j])))
        && (forall j :: 0 <= j < k' ==> !KeyLe(key(rest[j]), key(rest[k'])));
      var t := SortBy(rest, key);
      if KeyLe(key(s[0]), key(t[0])) {
        assert SortBy(s, key)[0] == s[0];
        forall j | 0 <= j < |s| ensures KeyLe(key(s[0]), key(s[j])) {
          if j > 0 { assert s[j] == rest[j - 1]; }
        }
      } else {
        assert SortBy(s, key)[0] == t[0] == s[1 + k'];
        forall j | 0 <= j < |s| ensures KeyLe(key(s[1 + k']), key(s[j])) {
          if j > 0 { assert s[j] == rest[j - 1]; }
        }
        forall j | 0 <= j < 1 + k' ensures !KeyLe(key(s[j]), key(s[1 + k'])) {
          if j > 0 { assert s[j] == rest[j - 1]; }
        }
      }
    }
  }

  /** Filtering a sorted list keeps it sorted. */
  lemma {:induction false} FilterSorted<T>(s: seq<T>, p: T -> bool, key: T -> Key)
    requires SortedBy(s, key)
    ensures SortedBy(Filter(s, p), key)
  {
    if s != [] {
      FilterSorted(s[1..], p, key);
      var f := Filter(s[1..], p);
      if p(s[0]) {
        forall j | 0 <= j < |f| ensures KeyLe(key(s[0]), key(f[j])) {
          assert f[j] in s[1..];
          var m :| 0 <= m < |s[1..]| && s[1..][m] == f[j];
          assert s[1 + m] == f[j];
        }
      }
    }
  }

  /** Sorting and then filtering gives exactly the elements that pass the
      filter, in key order. */
  lemma SortThenFilter<T>(s: seq<T>, key: T -> Key, p: T -> bool)
    ensures SortedBy(Filter(SortBy(s, key), p), key)
    ensures forall x :: x in Filter(SortBy(s, key), p) <==> x in s && p(x)
  {
    SortBySpec(s, key);
    FilterSorted(SortBy(s, key), p, key);
    forall x ensures x in Filter(SortBy(s, key), p) <==> x in s && p(x) {
      SortByMembers(s, key, x);
      if x in SortBy(s, key) && p(x) {
        var k :| 0 <= k < |SortBy(s, key)| && SortBy(s, key)[k] == x;
      }
    }
  }

  /** The head of the sorted selection is a least selected element, and
      there is one exactly when some element is selected. */
  lemma FilterSortHead<T>(s: seq<T>, p: T -> bool, key: T -> Key)
    ensures SortBy(Filter(s, p), key) != [] <==> exists k :: 0 <= k < |s| && p(s[k])
    ensures SortBy(Filter(s, p), key) != [] ==>
      var h := SortBy(Filter(s, p), key)[0];
      h in s && p(h) && forall k :: 0 <= k < |s| && p(s[k]) ==> KeyLe(key(h), key(s[k]))
  {
    var c := Filter(s, p);
    var sorted := SortBy(c, key);
    SortBySpec(c, key);
    assert |sorted| == |multiset(sorted)| == |multiset(c)| == |c|;
    if exists k :: 0 <= k < |s| && p(s[k]) {
      var k :| 0 <= k < |s| && p(s[k]);
      assert s[k] in c;
    }
    if |c| > 0 {
      SortByHead(c, key);
      var h :| 0 <= h < |c| && sorted[0] == c[h] && forall j :: 0 <= j < |c| ==> KeyLe(key(c[h]), key(c[j]));
      forall k | 0 <= k < |s| && p(s[k]) ensures KeyLe(key(sorted[0]), key(s[k])) {
        assert s[k] in c;
        var j :| 0 <= j < |c| && c[j] == s[k];
      }
    }
  }
}
