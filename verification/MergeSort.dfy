/** What the natural merge sort of lib/kernel/list.c computes, on sequences.

    Elements are compared only through `less`, the caller's `list_less_func`.
    The order laws are required of the elements at hand and of no others. */
module MergeSort {

  /** `less` is a strict weak order on the elements of `dom`. */
  ghost predicate StrictWeakOrder<E>(less: (E, E) -> bool, dom: set<E>) {
    && (forall x | x in dom :: !less(x, x))
    && (forall x, y, z | x in dom && y in dom && z in dom && less(x, y) && less(y, z) :: less(x, z))
    && (forall x, y, z | x in dom && y in dom && z in dom && Tied(less, x, y) && Tied(less, y, z) :: Tied(less, x, z))
  }

  ghost predicate Within<E>(s: seq<E>, dom: set<E>) {
    forall x | x in s :: x in dom
  }

  lemma {:induction false} WithinSlice<E>(s: seq<E>, dom: set<E>, a: nat, b: nat)
    requires Within(s, dom) && a <= b <= |s|
    ensures Within(s[a..b], dom)
  {
  }

  /** Neither element precedes the other. */
  predicate Tied<E>(less: (E, E) -> bool, x: E, y: E) {
    !less(x, y) && !less(y, x)
  }

  /** No element precedes its predecessor (`is_sorted` of the source). */
  ghost predicate Sorted<E>(less: (E, E) -> bool, s: seq<E>) {
    forall i | 0 < i < |s| :: !less(s[i], s[i - 1])
  }

  /** The elements tied with `g`, in order: what a stable sort must not permute. */
  function TiedWith<E>(less: (E, E) -> bool, g: E, s: seq<E>): (r: seq<E>)
  {
    if s == [] then []
    else if Tied(less, g, s[0]) then [s[0]] + TiedWith(less, g, s[1..])
    else TiedWith(less, g, s[1..])
  }

  /** `t` is a stable permutation of `s`. */
  ghost predicate StablePermutation<E>(less: (E, E) -> bool, s: seq<E>, t: seq<E>) {
    && multiset(t) == multiset(s)
    && forall g | g in s :: TiedWith(less, g, t) == TiedWith(less, g, s)
  }

  // ----- the algorithm on sequences -----

  /** Length of the first nondecreasing run (`find_end_of_run`). */
  function RunLength<E>(less: (E, E) -> bool, s: seq<E>): (n: nat)
    requires s != []
    ensures 1 <= n <= |s|
  {
    if |s| == 1 || less(s[1], s[0]) then 1 else 1 + RunLength(less, s[1..])
  }

  /** `inplace_merge`: the right element is moved ahead only if it is less. */
  function Merge<E>(less: (E, E) -> bool, xs: seq<E>, ys: seq<E>): (r: seq<E>)
    ensures |r| == |xs| + |ys|
  {
    if xs == [] then ys
    else if ys == [] then xs
    else if !less(ys[0], xs[0]) then [xs[0]] + Merge(less, xs[1..], ys)
    else [ys[0]] + Merge(less, xs, ys[1..])
  }

  datatype PassResult<E> = PassResult(out: seq<E>, runs: nat)

  /** One pass of `list_sort`: adjacent runs are merged in pairs. */
  function Pass<E>(less: (E, E) -> bool, s: seq<E>): (p: PassResult<E>)
    ensures |p.out| == |s|
    decreases |s|
  {
    if s == [] then PassResult([], 0) else
      var a := RunLength(less, s);
      if a == |s| then PassResult(s, 1) else
        var b := a + RunLength(less, s[a..]);
        var rest := Pass(less, s[b..]);
        PassResult(Merge(less, s[..a], s[a..b]) + rest.out, 1 + rest.runs)
  }

  /** Number of maximal nondecreasing runs. */
  function Runs<E>(less: (E, E) -> bool, s: seq<E>): (n: nat)
    ensures n == 0 <==> s == []
    decreases |s|
  {
    if s == [] then 0 else 1 + Runs(less, s[RunLength(less, s)..])
  }

  /** The recursive case of `Pass`: two runs `s[..a]` and `s[a..b]` are merged. */
  lemma {:induction false} PassUnfold<E>(less: (E, E) -> bool, s: seq<E>) returns (a: nat, b: nat)
    requires s != [] && RunLength(less, s) < |s|
    ensures a == RunLength(less, s) && 0 < a < b <= |s| && b == a + RunLength(less, s[a..])
    ensures Pass(less, s).out == Merge(less, s[..a], s[a..b]) + Pass(less, s[b..]).out
    ensures Pass(less, s).runs == 1 + Pass(less, s[b..]).runs
  {
    hide RunLength, Merge;
    a := RunLength(less, s);
    b := a + RunLength(less, s[a..]);
  }

  /** The state of `inplace_merge` over positions `p`, `q`, `k` of the chain `c`:
      what it will look like once the rest of the two runs is merged. */
  function MergeView<E>(less: (E, E) -> bool, c: seq<E>, p: nat, q: nat, k: nat): (r: seq<E>)
    requires p <= q <= k <= |c|
  {
    c[..p] + Merge(less, c[p..q], c[q..k]) + c[k..]
  }

  lemma {:induction false} MergeViewDone<E>(less: (E, E) -> bool, c: seq<E>, p: nat, q: nat, k: nat)
    requires p <= q <= k <= |c| && (p == q || q == k)
    ensures MergeView(less, c, p, q, k) == c
  {
    assert Merge(less, c[p..q], c[q..k]) == c[p..k];
  }

  /** Keeping the left head in place. */
  lemma {:induction false} MergeViewLeft<E>(less: (E, E) -> bool, c: seq<E>, p: nat, q: nat, k: nat)
    requires p < q < k <= |c| && !less(c[q], c[p])
    ensures MergeView(less, c, p + 1, q, k) == MergeView(less, c, p, q, k)
  {
    assert c[p..q][1..] == c[p + 1..q];
    assert Merge(less, c[p..q], c[q..k]) == [c[p]] + Merge(less, c[p + 1..q], c[q..k]);
    assert c[..p + 1] == c[..p] + [c[p]];
  }

  /** Moving the right head in front of the left run. */
  lemma {:induction false} MergeViewRight<E>(less: (E, E) -> bool, c: seq<E>, d: seq<E>, p: nat, q: nat, k: nat)
    requires p < q < k <= |c| && less(c[q], c[p])
    requires d == c[..p] + c[q..q + 1] + c[p..q] + c[q + 1..]
    ensures MergeView(less, d, p + 1, q + 1, k) == MergeView(less, c, p, q, k)
  {
    assert c[q..k][1..] == c[q + 1..k];
    assert Merge(less, c[p..q], c[q..k]) == [c[q]] + Merge(less, c[p..q], c[q + 1..k]);
    assert d[..p + 1] == c[..p] + [c[q]];
    assert d[p + 1..q + 1] == c[p..q];
    assert d[q + 1..k] == c[q + 1..k];
    assert d[k..] == c[k..];
  }

  /** The state of a pass of `list_sort` at position `p` of the chain `c`: what
      the interior will look like, and how many runs will be counted. */
  function PassView<E>(less: (E, E) -> bool, c: seq<E>, p: nat): (r: PassResult<E>)
    requires 1 <= p < |c|
  {
    var rest := Pass(less, c[p..|c| - 1]);
    PassResult(c[1..p] + rest.out, rest.runs)
  }

  /** Merging the two runs at `p..a` and `a..b` is one iteration of the pass. */
  lemma {:induction false} PassViewStep<E>(less: (E, E) -> bool, c: seq<E>, d: seq<E>, p: nat, a: nat, b: nat)
    requires 1 <= p < a < |c| - 1 && a == p + RunLength(less, c[p..|c| - 1])
    requires a < b < |c| && b == a + RunLength(less, c[a..|c| - 1])
    requires d == MergeView(less, c, p, a, b)
    ensures |d| == |c| && d[0] == c[0] && d[b..] == c[b..]
    ensures PassView(less, d, b).out == PassView(less, c, p).out
    ensures PassView(less, d, b).runs + 1 == PassView(less, c, p).runs
  {
    hide Pass, RunLength, Merge;
    var n := |c| - 1;
    var s := c[p..n];
    assert s[a - p..] == c[a..n];
    var a', b' := PassUnfold(less, s);
    assert s[..a'] == c[p..a];
    assert s[a'..b'] == c[a..b];
    assert s[b'..] == c[b..n];
    var m, rest := Merge(less, c[p..a], c[a..b]), Pass(less, c[b..n]).out;
    assert Pass(less, s).out == m + rest;
    assert d == c[..p] + m + c[b..];
    PassViewSlices(c, d, m, p, b);
    assert PassView(less, d, b).out == c[1..p] + m + rest;
    assert PassView(less, c, p).out == c[1..p] + (m + rest);
  }

  lemma {:induction false} PassViewSlices<E>(c: seq<E>, d: seq<E>, m: seq<E>, p: nat, b: nat)
    requires 1 <= p <= b < |c| && |m| == b - p && d == c[..p] + m + c[b..]
    ensures |d| == |c| && d[0] == c[0] && d[b..] == c[b..]
    ensures d[1..b] == c[1..p] + m && d[b..|c| - 1] == c[b..|c| - 1]
  {
  }

  /** A pass that finds a single run up to the end stops there. */
  lemma {:induction false} PassViewLast<E>(less: (E, E) -> bool, c: seq<E>, p: nat)
    requires 1 <= p < |c| - 1 && p + RunLength(less, c[p..|c| - 1]) == |c| - 1
    ensures PassView(less, c, p) == PassResult(c[1..|c| - 1], 1)
  {
    assert c[1..p] + c[p..|c| - 1] == c[1..|c| - 1];
  }

  lemma {:induction false} PassViewEnds<E>(less: (E, E) -> bool, c: seq<E>)
    requires |c| >= 2
    ensures PassView(less, c, 1) == Pass(less, c[1..|c| - 1])
    ensures PassView(less, c, |c| - 1) == PassResult(c[1..|c| - 1], 0)
  {
  }

  // ----- permutation -----

  lemma {:induction false} MergePermutes<E>(less: (E, E) -> bool, xs: seq<E>, ys: seq<E>)
    ensures multiset(Merge(less, xs, ys)) == multiset(xs) + multiset(ys)
    decreases |xs| + |ys|
  {
    if xs == [] || ys == [] {
    } else if !less(ys[0], xs[0]) {
      var x, t := xs[0], xs[1..];
      assert xs == [x] + t;
      assert Merge(less, xs, ys) == [x] + Merge(less, t, ys);
      MergePermutes(less, t, ys);
    } else {
      var y, t := ys[0], ys[1..];
      assert ys == [y] + t;
      assert Merge(less, xs, ys) == [y] + Merge(less, xs, t);
      MergePermutes(less, xs, t);
    }
  }

  lemma {:induction false} MultisetSplit<E>(s: seq<E>, a: nat, b: nat)
    requires a <= b <= |s|
    ensures multiset(s) == multiset(s[..a]) + multiset(s[a..b]) + multiset(s[b..])
  {
    assert s == s[..a] + (s[a..b] + s[b..]);
  }

  lemma {:induction false} PassPermutes<E>(less: (E, E) -> bool, s: seq<E>)
    ensures multiset(Pass(less, s).out) == multiset(s)
    decreases |s|
  {
    if s != [] && RunLength(less, s) < |s| {
      var a, b := PassUnfold(less, s);
      var m, rest := Merge(less, s[..a], s[a..b]), Pass(less, s[b..]);
      MultisetSplit(s, a, b);
      assert multiset(m) == multiset(s[..a]) + multiset(s[a..b]) by { MergePermutes(less, s[..a], s[a..b]); }
      assert multiset(rest.out) == multiset(s[b..]) by { PassPermutes(less, s[b..]); }
    }
  }

  // ----- order -----

  /** In a strict weak order "not after" is transitive. */
  lemma {:induction false} NotAfterTransitive<E>(less: (E, E) -> bool, dom: set<E>, x: E, y: E, z: E)
    requires StrictWeakOrder(less, dom) && x in dom && y in dom && z in dom
    requires !less(y, x) && !less(z, y)
    ensures !less(z, x)
  {
    if less(z, x) && !less(x, y) && !less(y, z) {
      TiedTransitive(less, dom, x, y, z);
      assert false;
    }
  }

  lemma {:induction false} TiedTransitive<E>(less: (E, E) -> bool, dom: set<E>, x: E, y: E, z: E)
    requires StrictWeakOrder(less, dom) && x in dom && y in dom && z in dom
    requires Tied(less, x, y) && Tied(less, y, z)
    ensures Tied(less, x, z)
  {
  }

  /** The run is sorted, and it ends where the order breaks. */
  lemma {:induction false} RunMeaning<E>(less: (E, E) -> bool, s: seq<E>)
    requires s != []
    ensures Sorted(less, s[..RunLength(less, s)])
    ensures RunLength(less, s) < |s| ==> less(s[RunLength(less, s)], s[RunLength(less, s) - 1])
  {
    var n := RunLength(less, s);
    if n > 1 {
      var t := s[1..];
      RunMeaning(less, t);
      forall i | 0 < i < n ensures !less(s[..n][i], s[..n][i - 1]) {
        if i > 1 { assert s[i] == t[..n - 1][i - 1] && s[i - 1] == t[..n - 1][i - 2]; }
      }
      if n < |s| { assert s[n] == t[n - 1] && s[n - 1] == t[n - 2]; }
    }
  }

  /** `RunLength` is the only such end. */
  lemma {:induction false} RunUnique<E>(less: (E, E) -> bool, s: seq<E>, n: nat)
    requires 1 <= n <= |s| && Sorted(less, s[..n])
    requires n < |s| ==> less(s[n], s[n - 1])
    ensures RunLength(less, s) == n
  {
    if n > 1 {
      assert !less(s[..n][1], s[..n][0]);
      assert s[1..][..n - 1] == s[..n][1..];
      SortedTail(less, s[..n]);
      RunUnique(less, s[1..], n - 1);
    }
  }

  /** Any two positions of a sorted sequence are in order, not just neighbours. */
  lemma {:induction false} SortedPairs<E>(less: (E, E) -> bool, dom: set<E>, s: seq<E>, i: nat, j: nat)
    requires StrictWeakOrder(less, dom) && Sorted(less, s)
    requires Within(s, dom)
    requires i <= j < |s|
    ensures !less(s[j], s[i])
    decreases j
  {
    if i < j {
      SortedPairs(less, dom, s, i, j - 1);
      NotAfterTransitive(less, dom, s[i], s[j - 1], s[j]);
    }
  }

  lemma {:induction false} SortedCons<E>(less: (E, E) -> bool, x: E, s: seq<E>)
    requires Sorted(less, s) && (s != [] ==> !less(s[0], x))
    ensures Sorted(less, [x] + s)
  {
  }

  lemma {:induction false} SortedTail<E>(less: (E, E) -> bool, s: seq<E>)
    requires s != [] && Sorted(less, s)
    ensures Sorted(less, s[1..])
  {
    var t := s[1..];
    assert forall i | 0 < i < |t| :: t[i] == s[i + 1] && t[i - 1] == s[i];
  }

  /** Merging two sorted runs gives a sorted run. */
  lemma {:induction false} MergeSorted<E>(less: (E, E) -> bool, dom: set<E>, xs: seq<E>, ys: seq<E>)
    requires StrictWeakOrder(less, dom)
    requires Within(xs, dom)
    requires Within(ys, dom)
    requires Sorted(less, xs) && Sorted(less, ys)
    ensures Sorted(less, Merge(less, xs, ys))
    decreases |xs| + |ys|
  {
    if xs == [] || ys == [] {
    } else if !less(ys[0], xs[0]) {
      var t := xs[1..];
      SortedTail(less, xs);
      MergeSorted(less, dom, t, ys);
      MergeHead(less, t, ys);
      assert t != [] ==> !less(xs[1], xs[0]);
      SortedCons(less, xs[0], Merge(less, t, ys));
    } else {
      var t := ys[1..];
      SortedTail(less, ys);
      MergeSorted(less, dom, xs, t);
      MergeHead(less, xs, t);
      assert t != [] ==> !less(ys[1], ys[0]);
      assert !less(xs[0], ys[0]);
      SortedCons(less, ys[0], Merge(less, xs, t));
    }
  }

  lemma {:induction false} MergeHead<E>(less: (E, E) -> bool, xs: seq<E>, ys: seq<E>)
    requires xs != [] || ys != []
    ensures Merge(less, xs, ys) != []
    ensures (xs != [] && Merge(less, xs, ys)[0] == xs[0]) || (ys != [] && Merge(less, xs, ys)[0] == ys[0])
  {
  }

  // ----- stability -----

  lemma {:induction false} TiedConcat<E>(less: (E, E) -> bool, g: E, s: seq<E>, t: seq<E>)
    ensures TiedWith(less, g, s + t) == TiedWith(less, g, s) + TiedWith(less, g, t)
  {
    if s == [] {
      assert s + t == t;
    } else {
      TiedConcat(less, g, s[1..], t);
      assert (s + t)[1..] == s[1..] + t;
    }
  }

  lemma {:induction false} TiedSplit<E>(less: (E, E) -> bool, g: E, s: seq<E>, a: nat, b: nat)
    requires a <= b <= |s|
    ensures TiedWith(less, g, s) ==
            TiedWith(less, g, s[..a]) + TiedWith(less, g, s[a..b]) + TiedWith(less, g, s[b..])
  {
    TiedConcat(less, g, s[..a], s[a..b]);
    TiedConcat(less, g, s[..a] + s[a..b], s[b..]);
    assert s == s[..a] + s[a..b] + s[b..];
  }

  lemma {:induction false} TiedCons<E>(less: (E, E) -> bool, g: E, x: E, s: seq<E>)
    ensures TiedWith(less, g, [x] + s) == (if Tied(less, g, x) then [x] else []) + TiedWith(less, g, s)
  {
    assert ([x] + s)[1..] == s;
  }

  lemma {:induction false} TiedNone<E>(less: (E, E) -> bool, g: E, s: seq<E>)
    requires forall x | x in s :: !Tied(less, g, x)
    ensures TiedWith(less, g, s) == []
  {
    if s != [] { TiedNone(less, g, s[1..]); }
  }

  /** An element that precedes a whole sorted run is tied with none of it. */
  lemma {:induction false} MovedAheadOfRun<E>(less: (E, E) -> bool, dom: set<E>, g: E, e: E, xs: seq<E>)
    requires StrictWeakOrder(less, dom) && g in dom && e in dom
    requires Within(xs, dom)
    requires xs != [] && Sorted(less, xs) && less(e, xs[0])
    requires Tied(less, g, e)
    ensures TiedWith(less, g, xs) == []
  {
    forall x | x in xs ensures !Tied(less, g, x) {
      var i :| 0 <= i < |xs| && xs[i] == x;
      SortedPairs(less, dom, xs, 0, i);
      if Tied(less, g, x) {
        assert Tied(less, e, g);
        TiedTransitive(less, dom, e, g, x);
        NotAfterTransitive(less, dom, xs[0], x, e);
        assert false;
      }
    }
    TiedNone(less, g, xs);
  }

  lemma {:induction false} MergeStable<E>(less: (E, E) -> bool, dom: set<E>, g: E, xs: seq<E>, ys: seq<E>)
    requires StrictWeakOrder(less, dom) && g in dom
    requires Within(xs, dom)
    requires Within(ys, dom)
    requires Sorted(less, xs)
    ensures TiedWith(less, g, Merge(less, xs, ys)) == TiedWith(less, g, xs) + TiedWith(less, g, ys)
    decreases |xs| + |ys|
  {
    if xs == [] || ys == [] {
    } else if !less(ys[0], xs[0]) {
      var t := xs[1..];
      SortedTail(less, xs);
      WithinSlice(xs, dom, 1, |xs|);
      MergeStable(less, dom, g, t, ys);
      var m := Merge(less, t, ys);
      assert Merge(less, xs, ys) == [xs[0]] + m;
      TiedCons(less, g, xs[0], m);
      TiedCons(less, g, xs[0], t);
      assert xs == [xs[0]] + t;
    } else {
      var t := ys[1..];
      WithinSlice(ys, dom, 1, |ys|);
      MergeStable(less, dom, g, xs, t);
      var m := Merge(less, xs, t);
      assert Merge(less, xs, ys) == [ys[0]] + m;
      TiedCons(less, g, ys[0], m);
      TiedCons(less, g, ys[0], t);
      assert ys == [ys[0]] + t;
      if Tied(less, g, ys[0]) {
        MovedAheadOfRun(less, dom, g, ys[0], xs);
      }
    }
  }

  lemma {:induction false} PassStable<E>(less: (E, E) -> bool, dom: set<E>, g: E, s: seq<E>)
    requires StrictWeakOrder(less, dom) && g in dom
    requires Within(s, dom)
    ensures TiedWith(less, g, Pass(less, s).out) == TiedWith(less, g, s)
    decreases |s|
  {
    if s != [] && RunLength(less, s) < |s| {
      var a, b := PassUnfold(less, s);
      var m, rest := Merge(less, s[..a], s[a..b]), Pass(less, s[b..]).out;
      assert TiedWith(less, g, m) == TiedWith(less, g, s[..a]) + TiedWith(less, g, s[a..b]) by {
        RunMeaning(less, s);
        MergeStable(less, dom, g, s[..a], s[a..b]);
      }
      assert TiedWith(less, g, rest) == TiedWith(less, g, s[b..]) by { PassStable(less, dom, g, s[b..]); }
      TiedConcat(less, g, m, rest);
      TiedSplit(less, g, s, a, b);
    }
  }

  /** A pass permutes stably: the two facts above for every element at once. */
  lemma {:induction false} PassStablePermutation<E>(less: (E, E) -> bool, s: seq<E>)
    requires StrictWeakOrder(less, set x | x in s)
    ensures StablePermutation(less, s, Pass(less, s).out)
  {
    PassPermutes(less, s);
    forall g | g in s ensures TiedWith(less, g, Pass(less, s).out) == TiedWith(less, g, s) {
      PassStable(less, (set x | x in s), g, s);
    }
  }

  lemma {:induction false} StablePermutationTransitive<E>(less: (E, E) -> bool, s: seq<E>, t: seq<E>, u: seq<E>)
    requires StablePermutation(less, s, t) && StablePermutation(less, t, u)
    ensures StablePermutation(less, s, u)
  {
    forall g | g in s ensures TiedWith(less, g, u) == TiedWith(less, g, s) {
      assert g in multiset(s);
      assert g in multiset(t);
    }
  }

  lemma {:induction false} PermutationDomain<E>(s: seq<E>, t: seq<E>)
    requires multiset(s) == multiset(t)
    ensures (set x | x in s) == (set x | x in t)
  {
    assert forall x :: x in s <==> x in multiset(s);
    assert forall x :: x in t <==> x in multiset(t);
  }

  // ----- termination: every pass halves the number of runs -----

  /** A sorted prefix either is the first run or is extended by the next one. */
  lemma {:induction false} RunAfterSorted<E>(less: (E, E) -> bool, t: seq<E>, u: seq<E>)
    requires t != [] && Sorted(less, t)
    ensures RunLength(less, t + u) ==
            if u == [] || less(u[0], t[|t| - 1]) then |t| else |t| + RunLength(less, u)
  {
    if |t| == 1 {
      assert u != [] ==> (t + u)[1] == u[0] && (t + u)[1..] == u;
    } else {
      var t' := t[1..];
      SortedTail(less, t);
      RunAfterSorted(less, t', u);
      assert (t + u)[1..] == t' + u;
      assert !less(t[1], t[0]);
    }
  }

  lemma {:induction false} RunsAfterSorted<E>(less: (E, E) -> bool, t: seq<E>, u: seq<E>)
    requires t != [] && Sorted(less, t)
    ensures Runs(less, t + u) <= 1 + Runs(less, u)
  {
    RunAfterSorted(less, t, u);
    if u == [] || less(u[0], t[|t| - 1]) {
      assert (t + u)[|t|..] == u;
    } else {
      var n := RunLength(less, u);
      assert (t + u)[|t| + n..] == u[n..];
    }
  }

  lemma {:induction false} RunsUnfold<E>(less: (E, E) -> bool, s: seq<E>, a: nat, b: nat)
    requires s != [] && a == RunLength(less, s) < |s| && b == a + RunLength(less, s[a..])
    ensures Runs(less, s) == 2 + Runs(less, s[b..])
  {
    hide RunLength;
    var r := s[a..];
    assert Runs(less, r) == 1 + Runs(less, r[b - a..]);
    assert r[b - a..] == s[b..];
  }

  /** A pass over `r` runs outputs `ceil(r / 2)` of them. */
  lemma {:induction false} PassCount<E>(less: (E, E) -> bool, s: seq<E>)
    ensures Pass(less, s).runs == (Runs(less, s) + 1) / 2
    decreases |s|
  {
    if s != [] {
      var a := RunLength(less, s);
      if a < |s| {
        var _, b := PassUnfold(less, s);
        RunsUnfold(less, s, a, b);
        PassCount(less, s[b..]);
      }
    }
  }

  /** Under a strict weak order what a pass outputs has no more runs than it counted. */
  lemma {:induction false} PassRuns<E>(less: (E, E) -> bool, dom: set<E>, s: seq<E>)
    requires StrictWeakOrder(less, dom)
    requires Within(s, dom)
    ensures Runs(less, Pass(less, s).out) <= Pass(less, s).runs
    decreases |s|
  {
    if s == [] {
    } else if RunLength(less, s) == |s| {
      RunMeaning(less, s);
      assert s[..|s|] == s;
      RunsAfterSorted(less, s, []);
      assert s + [] == s;
    } else {
      var a, b := PassUnfold(less, s);
      WithinSlice(s, dom, b, |s|);
      PassRuns(less, dom, s[b..]);
      FirstMergeSorted(less, dom, s, a, b);
      RunsAfterSorted(less, Merge(less, s[..a], s[a..b]), Pass(less, s[b..]).out);
    }
  }

  lemma {:induction false} FirstMergeSorted<E>(less: (E, E) -> bool, dom: set<E>, s: seq<E>, a: nat, b: nat)
    requires StrictWeakOrder(less, dom) && Within(s, dom)
    requires s != [] && a == RunLength(less, s) < |s| && b == a + RunLength(less, s[a..])
    ensures Sorted(less, Merge(less, s[..a], s[a..b]))
  {
    RunMeaning(less, s);
    RunMeaning(less, s[a..]);
    assert s[a..b] == s[a..][..b - a];
    MergeSorted(less, dom, s[..a], s[a..b]);
  }

  lemma {:induction false} SingleRunSorted<E>(less: (E, E) -> bool, s: seq<E>)
    ensures Runs(less, s) <= 1 <==> Sorted(less, s)
  {
    if s != [] {
      RunMeaning(less, s);
      var n := RunLength(less, s);
      if n == |s| {
        assert s[..n] == s && s[n..] == [];
      }
    }
  }

  /** What the loop test of `list_sort` decides.  If a pass counted more than
      one output run the number of runs has gone down, so the loop terminates;
      otherwise the list is sorted. */
  lemma {:induction false} PassProgress<E>(less: (E, E) -> bool, s: seq<E>)
    requires StrictWeakOrder(less, set x | x in s)
    ensures var p := Pass(less, s);
            && Runs(less, p.out) <= (Runs(less, s) + 1) / 2
            && (p.runs > 1 ==> Runs(less, p.out) < Runs(less, s))
            && (p.runs <= 1 ==> Sorted(less, p.out))
  {
    PassCount(less, s);
    PassRuns(less, (set x | x in s), s);
    SingleRunSorted(less, Pass(less, s).out);
  }

  /** What every round of `list_sort` keeps, for the list `t` reached from `s`. */
  lemma {:induction false} Round<E>(less: (E, E) -> bool, s: seq<E>, t: seq<E>)
    requires StrictWeakOrder(less, set x | x in s) && StablePermutation(less, s, t)
    ensures var p := Pass(less, t);
            && StablePermutation(less, s, p.out)
            && (p.runs > 1 ==> Runs(less, p.out) < Runs(less, t))
            && (p.runs <= 1 ==> Sorted(less, p.out))
  {
    PermutationDomain(s, t);
    PassStablePermutation(less, t);
    PassProgress(less, t);
    StablePermutationTransitive(less, s, t, Pass(less, t).out);
  }

  // ----- the specification determines the result -----

  /** Two sorted stable permutations of the same sequence are equal. */
  lemma {:induction false} StableSortUnique<E>(less: (E, E) -> bool, dom: set<E>, t: seq<E>, u: seq<E>)
    requires StrictWeakOrder(less, dom)
    requires Within(t, dom)
    requires Sorted(less, t) && Sorted(less, u) && StablePermutation(less, t, u)
    ensures t == u
  {
    if t == [] {
      assert |multiset(u)| == 0;
    } else {
      assert |multiset(u)| == |t|;
      var g := t[0];
      assert u[0] in multiset(u) && g in multiset(t);
      assert forall x | x in u :: x in multiset(u);
      var i :| 0 <= i < |u| && u[i] == g;
      var j :| 0 <= j < |t| && t[j] == u[0];
      SortedPairs(less, dom, u, 0, i);
      SortedPairs(less, dom, t, 0, j);
      assert Tied(less, g, u[0]) && Tied(less, g, g);
      assert TiedWith(less, g, t)[0] == g && TiedWith(less, g, u)[0] == u[0];
      TailStable(less, t, u);
      assert t == [g] + t[1..] && u == [g] + u[1..];
      SortedTail(less, t);
      SortedTail(less, u);
      StableSortUnique(less, dom, t[1..], u[1..]);
    }
  }

  lemma {:induction false} TailStable<E>(less: (E, E) -> bool, t: seq<E>, u: seq<E>)
    requires t != [] && u != [] && t[0] == u[0] && StablePermutation(less, t, u)
    ensures StablePermutation(less, t[1..], u[1..])
  {
    assert t == [t[0]] + t[1..] && u == [t[0]] + u[1..];
    assert multiset(t[1..]) == multiset(t) - multiset{t[0]};
    assert multiset(u[1..]) == multiset(u) - multiset{t[0]};
    forall g | g in t[1..] ensures TiedWith(less, g, u[1..]) == TiedWith(less, g, t[1..]) {
      assert g in t;
      if Tied(less, g, t[0]) {
        assert TiedWith(less, g, t)[1..] == TiedWith(less, g, t[1..]);
        assert TiedWith(less, g, u)[1..] == TiedWith(less, g, u[1..]);
      }
    }
  }

  // ----- ordered insertion -----

  /** `list_insert_ordered` puts the new element before the first one it precedes. */
  ghost predicate InsertPoint<E>(less: (E, E) -> bool, s: seq<E>, x: E, k: nat) {
    k <= |s| && (forall i | 0 <= i < k :: !less(x, s[i])) && (k < |s| ==> less(x, s[k]))
  }

  lemma {:induction false} InsertSorted<E>(less: (E, E) -> bool, dom: set<E>, s: seq<E>, x: E, k: nat)
    requires StrictWeakOrder(less, dom) && Within(s, dom) && x in dom
    requires Sorted(less, s) && InsertPoint(less, s, x, k)
    ensures Sorted(less, s[..k] + [x] + s[k..])
  {
    var r := s[..k] + [x] + s[k..];
    forall i | 0 < i < |r| ensures !less(r[i], r[i - 1]) {
      if i > k + 1 { assert r[i] == s[i - 1] && r[i - 1] == s[i - 2]; }
      else if i == k + 1 { assert r[i] == s[k] && r[i - 1] == x; }
      else if i < k { assert r[i] == s[i] && r[i - 1] == s[i - 1]; }
    }
  }

  lemma {:induction false} SortedSuffix<E>(less: (E, E) -> bool, s: seq<E>, k: nat)
    requires Sorted(less, s) && k <= |s|
    ensures Sorted(less, s[k..])
  {
    var t := s[k..];
    forall i | 0 < i < |t| ensures !less(t[i], t[i - 1]) {
      assert t[i] == s[k + i] && t[i - 1] == s[k + i - 1];
    }
  }

  lemma {:induction false} InsertStable<E>(less: (E, E) -> bool, dom: set<E>, s: seq<E>, x: E, k: nat, g: E)
    requires StrictWeakOrder(less, dom) && Within(s, dom) && x in dom && g in dom
    requires Sorted(less, s) && InsertPoint(less, s, x, k)
    ensures TiedWith(less, g, s[..k] + [x] + s[k..]) == TiedWith(less, g, s + [x])
  {
    hide TiedWith;
    var a, b := s[..k], s[k..];
    TiedConcat(less, g, a + [x], b);
    TiedConcat(less, g, a, [x]);
    assert s + [x] == a + (b + [x]);
    TiedConcat(less, g, a, b + [x]);
    TiedConcat(less, g, b, [x]);
    if !Tied(less, g, x) {
      TiedNone(less, g, [x]);
    } else if b == [] {
      TiedNone(less, g, b);
    } else {
      SortedSuffix(less, s, k);
      MovedAheadOfRun(less, dom, g, x, b);
    }
  }

  /** Inserting into a sorted list keeps it sorted, with `x` behind its ties:
      it is what stably sorting `s + [x]` gives. */
  lemma {:induction false} InsertOrdered<E>(less: (E, E) -> bool, dom: set<E>, s: seq<E>, x: E, k: nat)
    requires StrictWeakOrder(less, dom) && Within(s, dom) && x in dom
    requires Sorted(less, s) && InsertPoint(less, s, x, k)
    ensures Sorted(less, s[..k] + [x] + s[k..])
    ensures StablePermutation(less, s + [x], s[..k] + [x] + s[k..])
  {
    InsertSorted(less, dom, s, x, k);
    assert s == s[..k] + s[k..];
    forall g | g in s + [x] ensures TiedWith(less, g, s[..k] + [x] + s[k..]) == TiedWith(less, g, s + [x]) {
      InsertStable(less, dom, s, x, k, g);
    }
  }

  // ----- dropping duplicates -----

  datatype UniqueResult<E> = UniqueResult(kept: seq<E>, dups: seq<E>)

  /** `list_unique` on the kept element `x` followed by `rest`. */
  function Unique<E>(less: (E, E) -> bool, x: E, rest: seq<E>): (r: UniqueResult<E>)
  {
    if rest == [] then UniqueResult([x], [])
    else if Tied(less, x, rest[0]) then
      var u := Unique(less, x, rest[1..]);
      UniqueResult(u.kept, [rest[0]] + u.dups)
    else
      var u := Unique(less, rest[0], rest[1..]);
      UniqueResult([x] + u.kept, u.dups)
  }

  /** The state of `list_unique` at the kept element at `p` of the chain `c`. */
  function UniqueView<E>(less: (E, E) -> bool, c: seq<E>, p: nat): (r: UniqueResult<E>)
    requires 1 <= p < |c| - 1
  {
    var u := Unique(less, c[p], c[p + 1..|c| - 1]);
    UniqueResult(c[1..p] + u.kept, u.dups)
  }

  lemma {:induction false} UniqueViewDrop<E>(less: (E, E) -> bool, c: seq<E>, p: nat)
    requires 1 <= p < |c| - 2 && Tied(less, c[p], c[p + 1])
    ensures var d := c[..p + 1] + c[p + 2..];
            && UniqueView(less, d, p).kept == UniqueView(less, c, p).kept
            && [c[p + 1]] + UniqueView(less, d, p).dups == UniqueView(less, c, p).dups
  {
    var d := c[..p + 1] + c[p + 2..];
    assert c[p + 1..|c| - 1][1..] == c[p + 2..|c| - 1] == d[p + 1..|d| - 1];
    assert d[1..p] == c[1..p];
  }

  lemma {:induction false} UniqueViewKeep<E>(less: (E, E) -> bool, c: seq<E>, p: nat)
    requires 1 <= p < |c| - 2 && !Tied(less, c[p], c[p + 1])
    ensures UniqueView(less, c, p + 1) == UniqueView(less, c, p)
  {
    assert c[p + 1..|c| - 1][1..] == c[p + 2..|c| - 1];
    assert c[1..p + 1] == c[1..p] + [c[p]];
  }

  lemma {:induction false} UniqueViewEnds<E>(less: (E, E) -> bool, c: seq<E>)
    requires |c| >= 3
    ensures UniqueView(less, c, 1) == Unique(less, c[1], c[2..|c| - 1])
    ensures UniqueView(less, c, |c| - 2) == UniqueResult(c[1..|c| - 1], [])
  {
    assert c[1..|c| - 1] == c[1..|c| - 2] + [c[|c| - 2]];
  }

  /** Nothing is lost, and no two neighbours that remain are tied. */
  lemma {:induction false} UniqueMeaning<E>(less: (E, E) -> bool, x: E, rest: seq<E>)
    ensures var u := Unique(less, x, rest);
            && multiset(u.kept) + multiset(u.dups) == multiset([x] + rest)
            && |u.kept| > 0 && u.kept[0] == x
            && forall i | 0 < i < |u.kept| :: !Tied(less, u.kept[i - 1], u.kept[i])
  {
    if rest != [] {
      var y, t := rest[0], rest[1..];
      assert rest == [y] + t;
      if Tied(less, x, y) { UniqueMeaning(less, x, t); } else { UniqueMeaning(less, y, t); }
    }
  }

  /** On a sorted list exactly the first element of every class of ties remains. */
  lemma {:induction false} UniqueSorted<E>(less: (E, E) -> bool, dom: set<E>, x: E, rest: seq<E>, g: E)
    requires StrictWeakOrder(less, dom) && x in dom && g in dom && Within(rest, dom)
    requires Sorted(less, [x] + rest)
    ensures var all := TiedWith(less, g, [x] + rest);
            TiedWith(less, g, Unique(less, x, rest).kept) == if all == [] then [] else [all[0]]
    decreases |rest|
  {
    if rest == [] {
      TiedCons(less, g, x, []);
    } else {
      var y, t := rest[0], rest[1..];
      assert rest == [y] + t;
      SortedTail(less, [x] + rest);
      assert ([x] + rest)[1..] == rest;
      assert !less(([x] + rest)[1], ([x] + rest)[0]);
      TiedCons(less, g, x, rest);
      TiedCons(less, g, y, t);
      WithinSlice(rest, dom, 1, |rest|);
      if Tied(less, x, y) {
        SkipTied(less, dom, x, y, t);
        UniqueSorted(less, dom, x, t, g);
        TiedCons(less, g, x, t);
        if Tied(less, g, y) { assert Tied(less, y, x); TiedTransitive(less, dom, g, y, x); }
      } else {
        UniqueSorted(less, dom, y, t, g);
        TiedCons(less, g, x, Unique(less, y, t).kept);
        if Tied(less, g, x) {
          assert less(x, y);
          MovedAheadOfRun(less, dom, g, x, rest);
        }
      }
    }
  }

  lemma {:induction false} SkipTied<E>(less: (E, E) -> bool, dom: set<E>, x: E, y: E, t: seq<E>)
    requires StrictWeakOrder(less, dom) && x in dom && y in dom && Within(t, dom)
    requires Sorted(less, [x] + ([y] + t)) && Tied(less, x, y)
    ensures Sorted(less, [x] + t)
  {
    var s := [x] + ([y] + t);
    forall i | 0 < i < |[x] + t| ensures !less(([x] + t)[i], ([x] + t)[i - 1]) {
      assert !less(s[i + 1], s[i]);
      if i == 1 { assert t[0] in dom; NotAfterTransitive(less, dom, x, y, t[0]); }
      else { assert s[i] == t[i - 2] && s[i + 1] == t[i - 1]; }
    }
  }
}
