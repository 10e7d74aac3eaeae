/** The intrusive doubly linked lists of lib/kernel/list.c. */
module Lists {
  import opened MergeSort

  /** `struct list_elem`. */
  class Elem {
    var prev: Elem?
    var next: Elem?

    constructor ()
      ensures prev == null && next == null
    {
      prev, next := null, null;
    }
  }

  ghost predicate Distinct(c: seq<Elem>) {
    forall i, j | 0 <= i < j < |c| :: c[i] != c[j]
  }

  ghost predicate Owned(c: seq<Elem>, r: set<Elem>) {
    forall n | 0 <= n < |c| :: c[n] in r
  }

  ghost predicate Apart(c: seq<Elem>, d: seq<Elem>) {
    forall m, n | 0 <= m < |c| && 0 <= n < |d| :: c[m] != d[n]
  }

  /** Consecutive elements point at each other. */
  ghost predicate Linked(c: seq<Elem>)
    reads c
  {
    && (forall i {:trigger c[i].next} | 0 <= i < |c| - 1 :: c[i].next == c[i + 1])
    && (forall i {:trigger c[i].prev} | 0 < i < |c| :: c[i].prev == c[i - 1])
  }

  /** `c` with the stretch `i..j` moved in front of position `k`. */
  ghost function Moved(c: seq<Elem>, k: nat, i: nat, j: nat): seq<Elem>
    requires k <= i <= j <= |c|
  {
    c[..k] + c[i..j] + c[k..i] + c[j..]
  }

  /** Where position `n` of the rearranged chain comes from. */
  ghost function Origin(k: nat, i: nat, j: nat, n: nat): nat
    requires k <= i <= j
  {
    if k <= n < k + (j - i) then n + (i - k) else if k + (j - i) <= n < j then n - (j - i) else n
  }

  /** `c` is linked except at `k`, where `e` has been put in between. */
  ghost predicate LinkedAround(c: seq<Elem>, e: Elem, k: nat)
    requires 0 < k < |c|
    reads c, e
  {
    && (forall n {:trigger c[n].next} | 0 <= n < |c| - 1 && n != k - 1 :: c[n].next == c[n + 1])
    && (forall n {:trigger c[n].prev} | 0 < n < |c| && n != k :: c[n].prev == c[n - 1])
    && c[k - 1].next == e && e.prev == c[k - 1] && e.next == c[k] && c[k].prev == e
  }

  lemma {:induction false} LinkedInsert(c: seq<Elem>, e: Elem, k: nat)
    requires 0 < k < |c| && LinkedAround(c, e, k)
    ensures Linked(c[..k] + [e] + c[k..])
  {
    var d := c[..k] + [e] + c[k..];
    forall n | 0 <= n < |d| - 1 ensures d[n].next == d[n + 1] && d[n + 1].prev == d[n] {
      if n < k - 1 { assert c[n].next == c[n + 1] && c[n + 1].prev == c[n]; }
      else if n > k { assert c[n - 1].next == c[n - 1 + 1] && c[n].prev == c[n - 1]; }
    }
    forall n | 0 < n < |d| ensures d[n].prev == d[n - 1] {
      assert d[n - 1].next == d[n - 1 + 1] && d[n - 1 + 1].prev == d[n - 1];
    }
  }

  lemma {:induction false} MovedAt(c: seq<Elem>, k: nat, i: nat, j: nat, n: nat)
    requires k <= i <= j <= |c| && n < |c|
    ensures Origin(k, i, j, n) < |c| && |Moved(c, k, i, j)| == |c|
    ensures Moved(c, k, i, j)[n] == c[Origin(k, i, j, n)]
  {
  }

  lemma {:induction false} MovedOwned(c: seq<Elem>, k: nat, i: nat, j: nat, r: set<Elem>)
    requires 0 < k <= i <= j < |c| && Distinct(c) && Owned(c, r)
    ensures var d := Moved(c, k, i, j);
      Distinct(d) && |d| == |c| && d[0] == c[0] && d[|d| - 1] == c[|c| - 1] && Owned(d, r)
  {
    var d := Moved(c, k, i, j);
    forall m, n | 0 <= m < n < |d| ensures d[m] != d[n] {
      MovedAt(c, k, i, j, m);
      MovedAt(c, k, i, j, n);
    }
    forall n | 0 <= n < |d| ensures d[n] in r {
      MovedAt(c, k, i, j, n);
    }
  }

  /** `c` is linked except where the stretches `..k`, `k..i`, `i..j`, `j..` meet,
      and there the links are those of the rearranged chain. */
  ghost predicate Relinked(c: seq<Elem>, k: nat, i: nat, j: nat)
    requires 0 < k < i < j < |c|
    reads c
  {
    && (forall n {:trigger c[n].next} | 0 <= n < |c| - 1 && n != k - 1 && n != i - 1 && n != j - 1 ::
          c[n].next == c[n + 1])
    && (forall n {:trigger c[n].prev} | 0 < n < |c| && n != k && n != i && n != j :: c[n].prev == c[n - 1])
    && c[k - 1].next == c[i] && c[i].prev == c[k - 1]
    && c[j - 1].next == c[k] && c[k].prev == c[j - 1]
    && c[i - 1].next == c[j] && c[j].prev == c[i - 1]
  }

  lemma {:induction false} RelinkedMoved(c: seq<Elem>, k: nat, i: nat, j: nat)
    requires 0 < k < i < j < |c| && Relinked(c, k, i, j)
    ensures Linked(Moved(c, k, i, j))
  {
    var d := Moved(c, k, i, j);
    forall n | 0 <= n < |d| - 1 ensures d[n].next == d[n + 1] && d[n + 1].prev == d[n] {
      MovedAt(c, k, i, j, n);
      MovedAt(c, k, i, j, n + 1);
      var m := Origin(k, i, j, n);
      assert c[m].next == c[Origin(k, i, j, n + 1)];
      assert c[Origin(k, i, j, n + 1)].prev == c[m];
    }
    forall n | 0 < n < |d| ensures d[n].prev == d[n - 1] {
      assert d[n - 1].next == d[n - 1 + 1] && d[n - 1 + 1].prev == d[n - 1];
    }
  }

  lemma {:induction false} Joined(c: seq<Elem>, d: seq<Elem>)
    requires |c| > 0 && |d| > 0 && Linked(c) && Linked(d)
    requires c[|c| - 1].next == d[0] && d[0].prev == c[|c| - 1]
    ensures Linked(c + d)
  {
    var e := c + d;
    forall n | 0 <= n < |e| - 1 ensures e[n].next == e[n + 1] && e[n + 1].prev == e[n] {
      if n < |c| - 1 { assert c[n].next == c[n + 1] && c[n + 1].prev == c[n]; }
      else if n >= |c| {
        var m := n - |c|;
        assert d[m].next == d[m + 1] && d[m + 1].prev == d[m];
      }
    }
    forall n | 0 < n < |e| ensures e[n].prev == e[n - 1] {
      assert e[n - 1].next == e[n - 1 + 1] && e[n - 1 + 1].prev == e[n - 1];
    }
  }

  lemma {:induction false} Neighbours(c: seq<Elem>, i: nat)
    requires i + 1 < |c| && Linked(c)
    ensures c[i].next == c[i + 1] && c[i + 1].prev == c[i]
  {
  }

  lemma {:induction false} SameElem(c: seq<Elem>, i: nat, j: nat)
    requires i <= j < |c| && Distinct(c)
    ensures c[i] == c[j] <==> i == j
  {
  }

  lemma {:induction false} OwnedSpliced(c: seq<Elem>, d: seq<Elem>, k: nat, i: nat, j: nat, r: set<Elem>, s: set<Elem>)
    requires Distinct(d) && k <= |c| && i <= j <= |d| && r !! s
    requires Owned(c, r) && Owned(d, s)
    ensures var moved, c', d' := (set e | e in d[i..j]), c[..k] + d[i..j] + c[k..], d[..i] + d[j..];
      && Owned(c', r + moved) && Owned(d', s - moved)
      && r + moved !! s - moved && r + moved + (s - moved) == r + s
    ensures Apart(c, d)
  {
  }

  lemma {:induction false} DistinctSpliced(c: seq<Elem>, d: seq<Elem>, k: nat, i: nat, j: nat)
    requires Distinct(c) && Distinct(d) && Apart(c, d)
    requires k <= |c| && i <= j <= |d|
    ensures Distinct(c[..k] + d[i..j] + c[k..]) && Distinct(d[..i] + d[j..])
  {
  }

  /** `c` and `d` are linked except where the stretch `i..j` of `d` has been
      taken out and put in front of position `k` of `c`. */
  ghost predicate LinkedAcross(c: seq<Elem>, d: seq<Elem>, k: nat, i: nat, j: nat)
    requires 0 < k < |c| && 0 < i < j < |d|
    reads c, d
  {
    && (forall n {:trigger c[n].next} | 0 <= n < |c| - 1 && n != k - 1 :: c[n].next == c[n + 1])
    && (forall n {:trigger c[n].prev} | 0 < n < |c| && n != k :: c[n].prev == c[n - 1])
    && (forall n {:trigger d[n].next} | 0 <= n < |d| - 1 && n != i - 1 && n != j - 1 :: d[n].next == d[n + 1])
    && (forall n {:trigger d[n].prev} | 0 < n < |d| && n != i && n != j :: d[n].prev == d[n - 1])
    && d[i - 1].next == d[j] && d[j].prev == d[i - 1]
    && c[k - 1].next == d[i] && d[i].prev == c[k - 1]
    && d[j - 1].next == c[k] && c[k].prev == d[j - 1]
  }

  lemma {:induction false} Spliced(c: seq<Elem>, d: seq<Elem>, k: nat, i: nat, j: nat)
    requires 0 < k < |c| && 0 < i < j < |d| && LinkedAcross(c, d, k, i, j)
    ensures Linked(c[..k] + d[i..j] + c[k..]) && Linked(d[..i] + d[j..])
  {
    Joined(d[..i], d[j..]);
    Joined(c[..k], d[i..j]);
    Joined(c[..k] + d[i..j], c[k..]);
  }

  /** The assignments of `list_splice`: the stretch from `first` to `end`, which
      stands between `p` and `last`, moves between `q` and `before`. */
  method Relink(before: Elem, first: Elem, last: Elem, ghost p: Elem, ghost end: Elem, ghost q: Elem)
    requires first != last && first != before
    requires p.next == first && first.prev == p
    requires end.next == last && last.prev == end
    requires q.next == before && before.prev == q
    modifies p`next, end`next, q`next, last`prev, first`prev, before`prev
    ensures before == last ==> p.next == first && first.prev == p && end.next == last && last.prev == end
    ensures before != last ==> p.next == last && last.prev == p
    ensures before != last ==> q.next == first && first.prev == q
    ensures before != last ==> end.next == before && before.prev == end
  {
    var last' := last.prev;
    first.prev.next := last'.next;
    last'.next.prev := first.prev;
    first.prev := before.prev;
    last'.next := before;
    before.prev.next := first;
    before.prev := last';
  }

  method RelinkWithin(before: Elem, first: Elem, last: Elem, ghost c: seq<Elem>,
                      ghost k: nat, ghost i: nat, ghost j: nat, ghost r: set<Elem>)
    requires Linked(c) && Distinct(c) && Owned(c, r)
    requires 0 < k < |c| && 0 < i < j < |c| && (k < i || j <= k) && c[k] == before && c[i] == first && c[j] == last
    modifies r
    ensures Linked(if k < i then Moved(c, k, i, j) else Moved(c, i, j, k))
    ensures c[0].prev == old(c[0].prev) && c[|c| - 1].next == old(c[|c| - 1].next)
  {
    Relink(before, first, last, c[i - 1], c[j - 1], c[k - 1]);
    if k < i {
      RelinkedMoved(c, k, i, j);
    } else if j < k {
      RelinkedMoved(c, i, j, k);
    } else {
      assert Linked(c) && Moved(c, i, j, k) == c;
    }
  }

  method RelinkAcross(before: Elem, first: Elem, last: Elem, ghost c: seq<Elem>, ghost d: seq<Elem>,
                      ghost k: nat, ghost i: nat, ghost j: nat, ghost r: set<Elem>, ghost s: set<Elem>)
    requires Linked(c) && Linked(d) && Distinct(c) && Distinct(d) && Apart(c, d) && Owned(c, r) && Owned(d, s)
    requires 0 < k < |c| && 0 < i < j < |d| && c[k] == before && d[i] == first && d[j] == last
    modifies r, s
    ensures LinkedAcross(c, d, k, i, j)
    ensures c[0].prev == old(c[0].prev) && c[|c| - 1].next == old(c[|c| - 1].next)
    ensures d[0].prev == old(d[0].prev) && d[|d| - 1].next == old(d[|d| - 1].next)
  {
    Relink(before, first, last, d[i - 1], d[j - 1], c[k - 1]);
  }

  /** `struct list`: two sentinels around the interior elements. */
  class List {
    const head: Elem
    const tail: Elem
    ghost var chain: seq<Elem>  // head, interior elements, tail
    ghost var repr: set<Elem>   // the elements whose links belong to this list

    ghost predicate Valid()
      reads this, repr
    {
      && Owned(chain, repr)
      && |chain| >= 2 && chain[0] == head && chain[|chain| - 1] == tail
      && head.prev == null && tail.next == null
      && Distinct(chain) && Linked(chain)
    }

    /** The interior elements, front to back. */
    ghost function Elems(): seq<Elem>
      reads this
      requires |chain| >= 2
    {
      chain[1..|chain| - 1]
    }

    /** `list_init`. */
    constructor ()
      ensures Valid() && Elems() == []
      ensures fresh(repr)
    {
      head := new Elem();
      tail := new Elem();
      new;
      head.next := tail;
      tail.prev := head;
      chain, repr := [head, tail], {head, tail};
    }

    /** `list_insert`: `elem` goes just before `before`, the element at `k`. */
    method Insert(before: Elem, elem: Elem, ghost k: nat)
      requires Valid() && elem !in chain
      requires 0 < k < |chain| && chain[k] == before
      modifies this, repr, elem
      ensures Valid() && repr == old(repr) + {elem}
      ensures chain == old(chain)[..k] + [elem] + old(chain)[k..]
    {
      elem.prev := before.prev;
      elem.next := before;
      before.prev.next := elem;
      before.prev := elem;
      assert LinkedAround(chain, elem, k);
      LinkedInsert(chain, elem, k);
      chain, repr := chain[..k] + [elem] + chain[k..], repr + {elem};
    }

    /** `list_remove`: returns the element that followed. */
    method Remove(elem: Elem, ghost k: nat) returns (follower: Elem)
      requires Valid()
      requires 0 < k < |chain| - 1 && chain[k] == elem
      modifies this, repr
      ensures Valid() && repr == old(repr) - {elem}
      ensures chain == old(chain)[..k] + old(chain)[k + 1..]
      ensures follower == old(chain)[k + 1]
      ensures elem.prev == old(elem.prev) && elem.next == old(elem.next)
    {
      elem.prev.next := elem.next;
      elem.next.prev := elem.prev;
      follower := elem.next;
      chain, repr := chain[..k] + chain[k + 1..], repr - {elem};
    }

    /** `list_splice` within one list: the elements at `i..j` move in front of
        the element at `k`, which is not one of them. */
    method Splice(before: Elem, first: Elem, last: Elem, ghost k: nat, ghost i: nat, ghost j: nat)
      requires Valid()
      requires 0 < k < |chain| && i <= j < |chain| && (i < j ==> 0 < i && (k < i || j <= k))
      requires chain[k] == before && chain[i] == first && chain[j] == last
      modifies this`chain, repr
      ensures Valid()
      ensures chain == if i == j then old(chain)
                       else if k < i then Moved(old(chain), k, i, j) else Moved(old(chain), i, j, k)
    {
      hide Linked, Distinct, Relinked, Moved, Owned;
      SameElem(chain, i, j);
      if first == last { return; }
      ghost var c := chain;
      if k < i { MovedOwned(c, k, i, j, repr); } else { MovedOwned(c, i, j, k, repr); }
      chain := if k < i then Moved(c, k, i, j) else Moved(c, i, j, k);
      RelinkWithin(before, first, last, c, k, i, j, repr);
    }

    /** `list_splice` between lists: the elements at `i..j` of `other` leave it
        and stand in front of the element at `k`. */
    method SpliceFrom(other: List, before: Elem, first: Elem, last: Elem, ghost k: nat, ghost i: nat, ghost j: nat)
      requires other != this && Valid() && other.Valid() && repr !! other.repr
      requires 0 < k < |chain| && i <= j < |other.chain| && (i < j ==> 0 < i)
      requires chain[k] == before && other.chain[i] == first && other.chain[j] == last
      modifies this, repr, other, other.repr
      ensures Valid() && other.Valid() && repr !! other.repr && repr + other.repr == old(repr + other.repr)
      ensures chain == old(chain)[..k] + old(other.chain)[i..j] + old(chain)[k..]
      ensures other.chain == old(other.chain)[..i] + old(other.chain)[j..]
    {
      hide Linked, Distinct, LinkedAcross, Owned, Apart;
      if first == last {
        SameElem(other.chain, i, j);
        assert chain == chain[..k] + other.chain[i..j] + chain[k..];
        return;
      }
      ghost var c, d, r, s := chain, other.chain, repr, other.repr;
      OwnedSpliced(c, d, k, i, j, r, s);
      DistinctSpliced(c, d, k, i, j);
      ghost var moved := set e | e in d[i..j];
      chain, other.chain := c[..k] + d[i..j] + c[k..], d[..i] + d[j..];
      repr, other.repr := r + moved, s - moved;
      RelinkAcross(before, first, last, c, d, k, i, j, r, s);
      Spliced(c, d, k, i, j);
    }

    /** `find_end_of_run`, from the element at `i` to `b`, at `e`. */
    method FindEndOfRun(a: Elem, b: Elem, less: (Elem, Elem) -> bool, ghost i: nat, ghost e: nat)
        returns (end: Elem, ghost j: nat)
      requires Valid() && 0 < i < e < |chain| && chain[i] == a && chain[e] == b
      ensures i < j <= e && chain[j] == end
      ensures j == i + RunLength(less, chain[i..e])
    {
      hide RunLength;
      end := a.next;
      j := i + 1;
      while end != b && !less(end, end.prev)
        invariant i < j <= e && chain[j] == end
        invariant forall n | i < n < j :: !less(chain[n], chain[n - 1])
        decreases e - j
      {
        end := end.next;
        j := j + 1;
      }
      ghost var s := chain[i..e];
      assert Sorted(less, s[..j - i]) by {
        forall n | 0 < n < j - i ensures !less(s[n], s[n - 1]) {
          assert !less(chain[i + n], chain[i + n - 1]);
        }
      }
      RunUnique(less, s, j - i);
    }

    /** The step of `inplace_merge` that moves the first element of the right
        run, at `q`, in front of the left run, at `p`. */
    method MoveAhead(a0: Elem, b: Elem, less: (Elem, Elem) -> bool, ghost p: nat, ghost q: nat, ghost k: nat)
        returns (a1b0: Elem)
      requires Valid() && 0 < p < q < k < |chain|
      requires chain[p] == a0 && chain[q] == b && less(b, a0)
      modifies this`chain, repr
      ensures Valid() && |chain| == |old(chain)|
      ensures chain[p + 1] == a0 && chain[q + 1] == a1b0 && chain[k] == old(chain)[k]
      ensures MergeView(less, chain, p + 1, q + 1, k) == MergeView(less, old(chain), p, q, k)
    {
      hide MergeView, Linked, Distinct;
      ghost var c := chain;
      Neighbours(c, q);
      a1b0 := b.next;
      Splice(a0, a1b0.prev, a1b0, p, q, q + 1);
      MergeViewRight(less, c, chain, p, q, k);
    }

    /** `inplace_merge` of the runs at `i..j` and `j..k`. */
    method InplaceMerge(a: Elem, b: Elem, b1: Elem, less: (Elem, Elem) -> bool,
                        ghost i: nat, ghost j: nat, ghost k: nat)
      requires Valid() && 0 < i < j < k < |chain|
      requires chain[i] == a && chain[j] == b && chain[k] == b1
      modifies this`chain, repr
      ensures Valid()
      ensures chain == MergeView(less, old(chain), i, j, k)
    {
      hide MergeView;
      ghost var c := chain;
      var a0, a1b0 := a, b;
      ghost var p, q := i, j;
      while a0 != a1b0 && a1b0 != b1
        invariant Valid() && |chain| == |c|
        invariant i <= p <= q <= k < |chain|
        invariant chain[p] == a0 && chain[q] == a1b0 && chain[k] == b1
        invariant MergeView(less, chain, p, q, k) == MergeView(less, c, i, j, k)
        decreases k - p
      {
        assert p < q < k;
        if !less(a1b0, a0) {
          MergeViewLeft(less, chain, p, q, k);
          a0 := a0.next;
          p := p + 1;
        } else {
          a1b0 := MoveAhead(a0, a1b0, less, p, q, k);
          p, q := p + 1, q + 1;
        }
      }
      MergeViewDone(less, chain, p, q, k);
    }

    /** One pass of the loop of `list_sort`; returns `output_run_cnt`. */
    method SortPass(less: (Elem, Elem) -> bool) returns (outputRuns: nat)
      requires Valid()
      modifies this`chain, repr
      ensures Valid()
      ensures Elems() == Pass(less, old(Elems())).out
      ensures outputRuns == Pass(less, old(Elems())).runs
    {
      hide Pass, PassView, RunLength, MergeView;
      ghost var c, s := chain, Elems();
      outputRuns := 0;
      var a0 := head.next;
      ghost var p := 1;
      PassViewEnds(less, chain);
      while a0 != tail
        invariant Valid() && |chain| == |c| && 1 <= p < |chain| && chain[p] == a0
        invariant PassView(less, chain, p).out == Pass(less, s).out
        invariant PassView(less, chain, p).runs + outputRuns == Pass(less, s).runs
        decreases |chain| - p
      {
        outputRuns := outputRuns + 1;
        var a1b0, a := FindEndOfRun(a0, tail, less, p, |chain| - 1);
        if a1b0 == tail {
          PassViewLast(less, chain, p);
          return;
        }
        var b1, b := FindEndOfRun(a1b0, tail, less, a, |chain| - 1);
        ghost var before := chain;
        InplaceMerge(a0, a1b0, b1, less, p, a, b);
        PassViewStep(less, before, chain, p, a, b);
        a0, p := b1, b;
      }
      PassViewEnds(less, chain);
    }

    /** `list_sort`: for every strict weak order the elements end up sorted,
        and elements that are tied keep their order. */
    method Sort(less: (Elem, Elem) -> bool)
      requires Valid()
      requires StrictWeakOrder(less, set x | x in Elems())
      modifies this`chain, repr
      ensures Valid()
      ensures Sorted(less, Elems())
      ensures StablePermutation(less, old(Elems()), Elems())
    {
      hide Pass, Runs, StablePermutation, Sorted;
      ghost var s := Elems();
      Round(less, s, s);
      var outputRuns := SortPass(less);
      while outputRuns > 1
        invariant Valid()
        invariant StablePermutation(less, s, Elems())
        invariant outputRuns <= 1 ==> Sorted(less, Elems())
        decreases outputRuns > 1, Runs(less, Elems())
      {
        Round(less, s, Elems());
        outputRuns := SortPass(less);
      }
    }

    /** `list_insert_ordered`. */
    method InsertInOrder(elem: Elem, less: (Elem, Elem) -> bool)
      requires Valid() && elem !in chain
      requires StrictWeakOrder(less, (set x | x in Elems()) + {elem}) && Sorted(less, Elems())
      modifies this, repr, elem
      ensures Valid() && repr == old(repr) + {elem}
      ensures Sorted(less, Elems())
      ensures StablePermutation(less, old(Elems()) + [elem], Elems())
    {
      hide Sorted, StablePermutation, StrictWeakOrder, InsertPoint, Linked, Distinct;
      ghost var s := Elems();
      var e, k := FindInsertPoint(elem, less);
      InsertOrdered(less, (set x | x in s) + {elem}, s, elem, k - 1);
      InteriorInsert(chain, k, elem);
      Insert(e, elem, k);
    }

    /** The search loop of `list_insert_ordered`. */
    method FindInsertPoint(elem: Elem, less: (Elem, Elem) -> bool) returns (e: Elem, ghost k: nat)
      requires Valid()
      ensures 1 <= k < |chain| && chain[k] == e
      ensures InsertPoint(less, Elems(), elem, k - 1)
    {
      ghost var s := Elems();
      e := head.next;
      k := 1;
      while e != tail && !less(elem, e)
        invariant 1 <= k < |chain| && chain[k] == e
        invariant forall i | 0 <= i < k - 1 :: !less(elem, s[i])
        decreases |chain| - k
      {
        e := e.next;
        k := k + 1;
      }
    }

    /** What `list_unique` may change. */
    ghost function UniqueFrame(duplicates: List?): set<object>
      reads this, duplicates
    {
      {this} + repr + if duplicates == null then {} else {duplicates} + duplicates.repr
    }

    ghost predicate Separate(duplicates: List?)
      reads this, duplicates, if duplicates == null then {} else duplicates.repr
    {
      duplicates != null ==> duplicates != this && duplicates.Valid() && repr !! duplicates.repr
    }

    method MoveToDuplicates(next: Elem, duplicates: List?, ghost k: nat)
      requires Valid() && Separate(duplicates)
      requires 0 < k < |chain| - 1 && chain[k] == next
      modifies UniqueFrame(duplicates)
      ensures Valid() && Separate(duplicates) && UniqueFrame(duplicates) <= old(UniqueFrame(duplicates))
      ensures chain == old(chain)[..k] + old(chain)[k + 1..]
      ensures duplicates != null ==> duplicates.Elems() == old(duplicates.Elems()) + [next]
    {
      var _ := Remove(next, k);
      if duplicates != null {
        duplicates.Insert(duplicates.tail, next, |duplicates.chain| - 1);
      }
    }

    /** `list_unique`: of neighbours that are tied the first is kept, the others
        go to the end of `duplicates` in order. */
    method RemoveDuplicates(duplicates: List?, less: (Elem, Elem) -> bool)
      requires Valid() && Separate(duplicates)
      modifies UniqueFrame(duplicates)
      ensures Valid() && Separate(duplicates)
      ensures old(Elems()) == [] ==> chain == old(chain)
      ensures old(Elems()) == [] ==> duplicates != null ==> duplicates.chain == old(duplicates.chain)
      ensures old(Elems()) != [] ==> Elems() == Unique(less, old(Elems())[0], old(Elems())[1..]).kept
      ensures old(Elems()) != [] ==> duplicates != null ==>
              duplicates.Elems() == old(duplicates.Elems()) + Unique(less, old(Elems())[0], old(Elems())[1..]).dups
    {
      hide UniqueView, Unique;
      if head.next == tail { return; }
      ghost var s, moved := Elems(), [];
      ghost var u := Unique(less, s[0], s[1..]);
      ghost var frame := UniqueFrame(duplicates);
      UniqueViewEnds(less, chain);
      assert s[0] == chain[1] && s[1..] == chain[2..|chain| - 1];
      var elem := head.next;
      ghost var p := 1;
      while elem.next != tail
        invariant Valid() && Separate(duplicates) && UniqueFrame(duplicates) <= frame
        invariant 1 <= p < |chain| - 1 && chain[p] == elem
        invariant UniqueView(less, chain, p).kept == u.kept
        invariant moved + UniqueView(less, chain, p).dups == u.dups
        invariant duplicates != null ==> duplicates.Elems() == old(duplicates.Elems()) + moved
        decreases |chain| - p
      {
        var next := elem.next;
        if !less(elem, next) && !less(next, elem) {
          UniqueViewDrop(less, chain, p);
          MoveToDuplicates(next, duplicates, p + 1);
          moved := moved + [next];
        } else {
          UniqueViewKeep(less, chain, p);
          elem := next;
          p := p + 1;
        }
      }
      UniqueViewEnds(less, chain);
    }

    /** `list_reverse`: the links of every interior element are swapped, then
        the sentinels are attached to the other ends. */
    method Reverse()
      requires Valid()
      modifies this`chain, repr
      ensures Valid()
      ensures |Elems()| == |old(Elems())|
      ensures forall i | 0 <= i < |Elems()| :: Elems()[i] == old(Elems())[|Elems()| - 1 - i]
    {
      if head.next != tail {
        hide Linked, Distinct, Mirrored;
        TurnAround();
        MirroredReversed(chain);
        chain := ReversedChain(chain);
      }
    }

    method TurnAround()
      requires Valid() && |chain| >= 3
      modifies repr
      ensures Mirrored(chain) && head.prev == null && tail.next == null
    {
      FlipLinks();
      head.next, tail.prev := tail.prev, head.next;
      head.next.prev, tail.prev.next := tail.prev.next, head.next.prev;
    }

    /** The loop of `list_reverse`, which walks along the links it has swapped. */
    method FlipLinks()
      requires Valid() && |chain| >= 3
      modifies repr
      ensures Flipped(chain, |chain| - 1)
    {
      var e := head.next;
      ghost var m := 1;
      while e != tail
        invariant 1 <= m < |chain| && chain[m] == e
        invariant Flipped(chain, m)
        decreases |chain| - m
      {
        e.prev, e.next := e.next, e.prev;
        e := e.prev;
        m := m + 1;
      }
    }
  }

  lemma {:induction false} InteriorInsert(c: seq<Elem>, k: nat, e: Elem)
    requires 1 <= k < |c|
    ensures (c[..k] + [e] + c[k..])[1..|c|] == c[1..|c| - 1][..k - 1] + [e] + c[1..|c| - 1][k - 1..]
  {
  }

  /** The chain with its interior reversed. */
  ghost function ReversedChain(c: seq<Elem>): (r: seq<Elem>)
    requires |c| >= 2
    ensures |r| == |c|
  {
    seq(|c|, n requires 0 <= n < |c| => if n == 0 || n == |c| - 1 then c[n] else c[|c| - 1 - n])
  }

  /** Every interior link is reversed and the sentinels hold the opposite ends. */
  ghost predicate Mirrored(c: seq<Elem>)
    requires |c| >= 3
    reads c
  {
    var last := |c| - 1;
    && c[0].prev == null && c[last].next == null && c[0].next == c[last - 1] && c[last].prev == c[1]
    && c[last - 1].prev == c[0] && c[1].next == c[last]
    && (forall i {:trigger c[i].next} | 2 <= i < last :: c[i].next == c[i - 1])
    && (forall i {:trigger c[i].prev} | 1 <= i < last - 1 :: c[i].prev == c[i + 1])
  }

  lemma {:induction false} MirroredReversed(c: seq<Elem>)
    requires |c| >= 3 && Mirrored(c) && Distinct(c)
    ensures Linked(ReversedChain(c)) && Distinct(ReversedChain(c))
  {
    var last, d := |c| - 1, ReversedChain(c);
    forall i | 0 <= i < last ensures d[i].next == d[i + 1] && d[i + 1].prev == d[i] {
      if 1 <= i < last - 1 { assert c[last - i].next == c[last - i - 1] && c[last - i - 1].prev == c[last - i]; }
    }
    forall i | 0 < i < |d| ensures d[i].prev == d[i - 1] {
      assert d[i - 1].next == d[i - 1 + 1] && d[i - 1 + 1].prev == d[i - 1];
    }
  }

  /** The first `m` elements of the chain point backwards, the others still forwards. */
  ghost predicate Flipped(c: seq<Elem>, m: nat)
    requires 1 <= m < |c|
    reads c
  {
    var last := |c| - 1;
    && c[0].prev == null && c[last].next == null && c[0].next == c[1] && c[last].prev == c[last - 1]
    && (forall i {:trigger c[i].next} | 1 <= i < m :: c[i].next == c[i - 1])
    && (forall i {:trigger c[i].prev} | 1 <= i < m :: c[i].prev == c[i + 1])
    && (forall i {:trigger c[i].next} | m <= i < last :: c[i].next == c[i + 1])
    && (forall i {:trigger c[i].prev} | m <= i < last :: c[i].prev == c[i - 1])
  }
}
