/** Heap sort and binary search over arrays of fixed-size elements (lib/stdlib.c).

    The array is a flat array of bytes, as in the source; an element is a block
    of `size` consecutive bytes.  Element indexes are 1-based, as in `heapify`. */
module HeapSort {
  import Arithmetic

  type Byte = x: int | 0 <= x < 256
  type Block = seq<Byte>
  type Compare = (Block, Block) -> int

  /** What a strcmp-like comparison promises. */
  ghost predicate TotalPreorder(compare: Compare) {
    && (forall x, y :: compare(x, y) < 0 <==> compare(y, x) > 0)
    && (forall x, y, z :: compare(x, y) <= 0 && compare(y, z) <= 0 ==> compare(x, z) <= 0)
  }

  lemma {:induction false} CompareTransitive(compare: Compare, x: Block, y: Block, z: Block)
    requires TotalPreorder(compare)
    ensures compare(x, y) <= 0 && compare(y, z) <= 0 ==> compare(x, z) <= 0
  {
  }

  lemma {:induction false} CompareTotal(compare: Compare, x: Block, y: Block)
    requires TotalPreorder(compare)
    ensures compare(x, y) < 0 <==> compare(y, x) > 0
    ensures compare(x, y) > 0 <==> compare(y, x) < 0
    ensures compare(x, x) <= 0
  {
  }

  ghost predicate Ordered(compare: Compare, s: seq<Block>) {
    forall i, j | 0 <= i < j < |s| :: compare(s[i], s[j]) <= 0
  }

  // ----- the algorithm on sequences of elements -----

  /** The elements with 1-based indexes `i` and `j` exchanged. */
  function Swap(s: seq<Block>, i: nat, j: nat): (t: seq<Block>)
    requires 1 <= i <= |s| && 1 <= j <= |s|
    ensures |t| == |s|
    ensures forall k | 0 <= k < |s| :: t[k] == if k == i - 1 then s[j - 1] else if k == j - 1 then s[i - 1] else s[k]
  {
    s[i - 1 := s[j - 1]][j - 1 := s[i - 1]]
  }

  /** Index of the largest among `i` and its children within the first `cnt`. */
  function Largest(compare: Compare, s: seq<Block>, i: nat, cnt: nat): (max: nat)
    requires 1 <= i <= cnt <= |s|
    ensures max == i || max == 2 * i || max == 2 * i + 1
    ensures max <= cnt
  {
    var m := if 2 * i <= cnt && compare(s[2 * i - 1], s[i - 1]) > 0 then 2 * i else i;
    if 2 * i + 1 <= cnt && compare(s[2 * i], s[m - 1]) > 0 then 2 * i + 1 else m
  }

  /** `heapify`. */
  function SiftDown(compare: Compare, s: seq<Block>, i: nat, cnt: nat): (t: seq<Block>)
    requires 1 <= i <= cnt <= |s|
    ensures |t| == |s|
    decreases cnt - i
  {
    var max := Largest(compare, s, i, cnt);
    if max == i then s else SiftDown(compare, Swap(s, i, max), max, cnt)
  }

  /** The first loop of `sort`, from index `i` down to 1. */
  function BuildHeap(compare: Compare, s: seq<Block>, i: nat): (t: seq<Block>)
    requires i <= |s|
    ensures |t| == |s|
    decreases i
  {
    if i == 0 then s else BuildHeap(compare, SiftDown(compare, s, i, |s|), i - 1)
  }

  /** The second loop of `sort`, from index `i` down to 2. */
  function UnloadHeap(compare: Compare, s: seq<Block>, i: nat): (t: seq<Block>)
    requires i <= |s|
    ensures |t| == |s|
    decreases i
  {
    if i <= 1 then s
    else UnloadHeap(compare, SiftDown(compare, Swap(s, 1, i), 1, i - 1), i - 1)
  }

  function Sort(compare: Compare, s: seq<Block>): (t: seq<Block>)
  {
    UnloadHeap(compare, BuildHeap(compare, s, |s| / 2), |s|)
  }

  // ----- permutation -----

  lemma {:induction false} SwapPermutes(s: seq<Block>, i: nat, j: nat)
    requires 1 <= i <= |s| && 1 <= j <= |s|
    ensures multiset(Swap(s, i, j)) == multiset(s)
  {
  }

  /** `heapify` permutes the first `cnt` elements and leaves the others alone. */
  lemma {:induction false} SiftDownPermutes(compare: Compare, s: seq<Block>, i: nat, cnt: nat)
    requires 1 <= i <= cnt <= |s|
    ensures multiset(SiftDown(compare, s, i, cnt)) == multiset(s)
    ensures SiftDown(compare, s, i, cnt)[cnt..] == s[cnt..]
    decreases cnt - i
  {
    var max := Largest(compare, s, i, cnt);
    if max != i {
      var s' := Swap(s, i, max);
      SwapPermutes(s, i, max);
      assert s'[cnt..] == s[cnt..];
      SiftDownPermutes(compare, s', max, cnt);
    }
  }

  lemma {:induction false} PrefixPermutes(s: seq<Block>, t: seq<Block>, cnt: nat)
    requires cnt <= |s| == |t| && multiset(s) == multiset(t) && s[cnt..] == t[cnt..]
    ensures multiset(s[..cnt]) == multiset(t[..cnt])
  {
    assert s == s[..cnt] + s[cnt..] && t == t[..cnt] + t[cnt..];
    assert multiset(s[..cnt]) == multiset(s) - multiset(s[cnt..]);
    assert multiset(t[..cnt]) == multiset(t) - multiset(t[cnt..]);
  }

  lemma {:induction false} PrefixIndex(s: seq<Block>, t: seq<Block>, cnt: nat, j: nat) returns (j': nat)
    requires cnt <= |s| == |t| && multiset(s) == multiset(t) && s[cnt..] == t[cnt..] && j < cnt
    ensures j' < cnt && s[j'] == t[j]
  {
    PrefixPermutes(s, t, cnt);
    assert t[..cnt][j] in multiset(t[..cnt]);
    assert t[j] in s[..cnt];
    j' :| 0 <= j' < cnt && s[..cnt][j'] == t[j];
  }

  // ----- the heap property -----

  /** Node `p` is at least its child `c`, within the first `cnt` elements. */
  ghost predicate Above(compare: Compare, s: seq<Block>, p: nat, c: nat)
    requires 1 <= p <= |s| && 1 <= c <= |s|
  {
    compare(s[c - 1], s[p - 1]) <= 0
  }

  /** Every node from `lo` on, except `hole`, is at least its children, and the
      parent of the hole is at least the hole's children. */
  ghost predicate HeapExcept(compare: Compare, s: seq<Block>, lo: nat, hole: nat, cnt: nat)
    requires 1 <= lo && cnt <= |s|
  {
    && (forall c | 2 <= c <= cnt && lo <= c / 2 && c / 2 != hole :: Above(compare, s, c / 2, c))
    && (forall c | 2 <= c <= cnt && c / 2 == hole && lo <= hole / 2 :: Above(compare, s, hole / 2, c))
  }

  /** Every node from `lo` on is at least its children. */
  ghost predicate Heap(compare: Compare, s: seq<Block>, lo: nat, cnt: nat)
    requires 1 <= lo && cnt <= |s|
  {
    forall c | 2 <= c <= cnt && lo <= c / 2 :: Above(compare, s, c / 2, c)
  }

  /** `heapify` repairs the hole. */
  lemma {:induction false} SiftDownHeap(compare: Compare, s: seq<Block>, lo: nat, i: nat, cnt: nat)
    requires TotalPreorder(compare) && 1 <= lo <= i <= cnt <= |s|
    requires HeapExcept(compare, s, lo, i, cnt)
    ensures Heap(compare, SiftDown(compare, s, i, cnt), lo, cnt)
    decreases cnt - i
  {
    var max := Largest(compare, s, i, cnt);
    if max == i {
      LargestIsHole(compare, s, lo, i, cnt);
    } else {
      SwapMovesHole(compare, s, lo, i, max, cnt);
      SiftDownHeap(compare, Swap(s, i, max), lo, max, cnt);
    }
  }

  /** `Largest` is at least `i` and all its children. */
  lemma {:induction false} LargestMeaning(compare: Compare, s: seq<Block>, i: nat, cnt: nat)
    requires TotalPreorder(compare) && 1 <= i <= cnt <= |s|
    ensures Above(compare, s, Largest(compare, s, i, cnt), i)
    ensures 2 * i <= cnt ==> Above(compare, s, Largest(compare, s, i, cnt), 2 * i)
    ensures 2 * i + 1 <= cnt ==> Above(compare, s, Largest(compare, s, i, cnt), 2 * i + 1)
  {
    hide TotalPreorder;
    CompareTotal(compare, s[i - 1], s[i - 1]);
    if 2 * i <= cnt {
      var l := s[2 * i - 1];
      CompareTotal(compare, l, s[i - 1]);
      CompareTotal(compare, l, l);
      if 2 * i + 1 <= cnt {
        var r, m := s[2 * i], if compare(l, s[i - 1]) > 0 then l else s[i - 1];
        CompareTotal(compare, r, m);
        CompareTotal(compare, r, r);
        if compare(r, m) > 0 {
          CompareTransitive(compare, s[i - 1], m, r);
          CompareTransitive(compare, l, m, r);
        }
      }
    }
  }

  lemma {:induction false} LargestIsHole(compare: Compare, s: seq<Block>, lo: nat, i: nat, cnt: nat)
    requires TotalPreorder(compare) && 1 <= lo <= i <= cnt <= |s|
    requires HeapExcept(compare, s, lo, i, cnt) && Largest(compare, s, i, cnt) == i
    ensures Heap(compare, s, lo, cnt)
  {
    hide TotalPreorder, Largest, Above;
    LargestMeaning(compare, s, i, cnt);
    forall c | 2 <= c <= cnt && lo <= c / 2 ensures Above(compare, s, c / 2, c) {
      if c / 2 == i { assert c == 2 * i || c == 2 * i + 1; }
    }
  }

  lemma {:induction false} SwapMovesHole(compare: Compare, s: seq<Block>, lo: nat, i: nat, max: nat, cnt: nat)
    requires TotalPreorder(compare) && 1 <= lo <= i <= cnt <= |s|
    requires HeapExcept(compare, s, lo, i, cnt) && max == Largest(compare, s, i, cnt) != i
    ensures HeapExcept(compare, Swap(s, i, max), lo, max, cnt)
  {
    hide TotalPreorder, Largest, Swap;
    LargestMeaning(compare, s, i, cnt);
    var t := Swap(s, i, max);
    forall c | 2 <= c <= cnt && lo <= c / 2 && c / 2 != max ensures Above(compare, t, c / 2, c) {
      SwappedEdge(compare, s, lo, i, max, cnt, c);
    }
    forall c | 2 <= c <= cnt && c / 2 == max && lo <= max / 2 ensures Above(compare, t, max / 2, c) {
      assert Above(compare, s, max, c);
    }
  }

  lemma {:induction false} SwappedEdge(compare: Compare, s: seq<Block>, lo: nat, i: nat, max: nat, cnt: nat, c: nat)
    requires 1 <= lo <= i <= cnt <= |s| && max <= cnt && (max == 2 * i || max == 2 * i + 1)
    requires HeapExcept(compare, s, lo, i, cnt) && Above(compare, s, max, i)
    requires 2 * i <= cnt ==> Above(compare, s, max, 2 * i)
    requires 2 * i + 1 <= cnt ==> Above(compare, s, max, 2 * i + 1)
    requires 2 <= c <= cnt && lo <= c / 2 && c / 2 != max
    ensures Above(compare, Swap(s, i, max), c / 2, c)
  {
    if c / 2 == i {
      assert c == 2 * i || c == 2 * i + 1;
    } else if c == i {
      assert Above(compare, s, i / 2, max);
    } else {
      assert Above(compare, s, c / 2, c);
    }
  }

  /** The root of a heap is its largest element. */
  lemma {:induction false} RootIsLargest(compare: Compare, s: seq<Block>, cnt: nat, k: nat)
    requires TotalPreorder(compare) && 1 <= k <= cnt <= |s| && Heap(compare, s, 1, cnt)
    ensures Above(compare, s, 1, k)
    decreases k
  {
    hide TotalPreorder;
    if k == 1 {
      CompareTotal(compare, s[0], s[0]);
    } else {
      RootIsLargest(compare, s, cnt, k / 2);
      assert Above(compare, s, k / 2, k);
      CompareTransitive(compare, s[k - 1], s[k / 2 - 1], s[0]);
    }
  }

  lemma {:induction false} BuildHeapCorrect(compare: Compare, s: seq<Block>, i: nat)
    requires TotalPreorder(compare) && i <= |s| && Heap(compare, s, i + 1, |s|)
    ensures multiset(BuildHeap(compare, s, i)) == multiset(s)
    ensures Heap(compare, BuildHeap(compare, s, i), 1, |s|)
    decreases i
  {
    if i > 0 {
      SiftDownPermutes(compare, s, i, |s|);
      assert HeapExcept(compare, s, i, i, |s|);
      SiftDownHeap(compare, s, i, i, |s|);
      BuildHeapCorrect(compare, SiftDown(compare, s, i, |s|), i - 1);
    }
  }

  /** The invariant of the second loop: a heap of `i` elements, followed by
      larger elements in order. */
  ghost predicate Unloading(compare: Compare, s: seq<Block>, i: nat) {
    && i <= |s| && Heap(compare, s, 1, i) && Ordered(compare, s[i..])
    && forall j, k | 0 <= j < i <= k < |s| :: compare(s[j], s[k]) <= 0
  }

  lemma {:induction false} UnloadStep(compare: Compare, s: seq<Block>, i: nat)
    requires TotalPreorder(compare) && 2 <= i && Unloading(compare, s, i)
    ensures multiset(SiftDown(compare, Swap(s, 1, i), 1, i - 1)) == multiset(s)
    ensures Unloading(compare, SiftDown(compare, Swap(s, 1, i), 1, i - 1), i - 1)
  {
    hide TotalPreorder, SiftDown, Swap, Heap, HeapExcept;
    var r := Swap(s, 1, i);
    var t := SiftDown(compare, r, 1, i - 1);
    SwapPermutes(s, 1, i);
    SiftDownPermutes(compare, r, 1, i - 1);
    RootHole(compare, s, i);
    SiftDownHeap(compare, r, 1, 1, i - 1);
    assert t[i - 1..] == [s[0]] + s[i..];
    forall j, k | 0 <= j < i - 1 <= k < |t| ensures compare(t[j], t[k]) <= 0 {
      UnloadBelow(compare, s, t, i, j, k);
    }
    OrderedCons(compare, s[0], s[i..]);
  }

  lemma {:induction false} OrderedCons(compare: Compare, x: Block, s: seq<Block>)
    requires Ordered(compare, s) && forall k | 0 <= k < |s| :: compare(x, s[k]) <= 0
    ensures Ordered(compare, [x] + s)
  {
  }

  lemma {:induction false} RootHole(compare: Compare, s: seq<Block>, i: nat)
    requires 2 <= i <= |s| && Heap(compare, s, 1, i)
    ensures HeapExcept(compare, Swap(s, 1, i), 1, 1, i - 1)
  {
    var r := Swap(s, 1, i);
    forall c | 2 <= c <= i - 1 && 1 <= c / 2 && c / 2 != 1 ensures Above(compare, r, c / 2, c) {
      assert Above(compare, s, c / 2, c);
    }
  }

  /** After the root went to position `i`, everything left of it is below. */
  lemma {:induction false} UnloadBelow(compare: Compare, s: seq<Block>, t: seq<Block>, i: nat, j: nat, k: nat)
    requires TotalPreorder(compare) && 2 <= i && Unloading(compare, s, i)
    requires |t| == |s| && multiset(t) == multiset(Swap(s, 1, i)) && t[i - 1..] == Swap(s, 1, i)[i - 1..]
    requires j < i - 1 <= k < |t|
    ensures compare(t[j], t[k]) <= 0
  {
    hide TotalPreorder, Heap;
    var r := Swap(s, 1, i);
    var j' := PrefixIndex(r, t, i - 1, j);
    assert t[k] == t[i - 1..][k - (i - 1)] == r[k];
    RootIsLargest(compare, s, i, if j' == 0 then i else j' + 1);
  }

  lemma {:induction false} UnloadHeapCorrect(compare: Compare, s: seq<Block>, i: nat)
    requires TotalPreorder(compare) && Unloading(compare, s, i)
    ensures multiset(UnloadHeap(compare, s, i)) == multiset(s)
    ensures Ordered(compare, UnloadHeap(compare, s, i))
    decreases i
  {
    hide TotalPreorder, SiftDown, Swap, Heap;
    if i <= 1 {
      forall j, k | 0 <= j < k < |s| ensures compare(s[j], s[k]) <= 0 {
        if j >= i { assert s[j] == s[i..][j - i] && s[k] == s[i..][k - i]; }
      }
    } else {
      UnloadStep(compare, s, i);
      UnloadHeapCorrect(compare, SiftDown(compare, Swap(s, 1, i), 1, i - 1), i - 1);
    }
  }

  /** `sort` puts the elements in order and loses or invents none. */
  lemma {:induction false} SortCorrect(compare: Compare, s: seq<Block>)
    requires TotalPreorder(compare)
    ensures Ordered(compare, Sort(compare, s))
    ensures multiset(Sort(compare, s)) == multiset(s)
  {
    BuildHeapCorrect(compare, s, |s| / 2);
    UnloadHeapCorrect(compare, BuildHeap(compare, s, |s| / 2), |s|);
  }

  /** Nothing is lost or made up, whatever the comparison says. */
  lemma {:induction false} SortPermutes(compare: Compare, s: seq<Block>)
    ensures multiset(Sort(compare, s)) == multiset(s)
  {
    BuildPermutes(compare, s, |s| / 2);
    UnloadPermutes(compare, BuildHeap(compare, s, |s| / 2), |s|);
  }

  lemma {:induction false} BuildPermutes(compare: Compare, s: seq<Block>, i: nat)
    requires i <= |s|
    ensures multiset(BuildHeap(compare, s, i)) == multiset(s)
    decreases i
  {
    hide SiftDown;
    if i > 0 {
      SiftDownPermutes(compare, s, i, |s|);
      BuildPermutes(compare, SiftDown(compare, s, i, |s|), i - 1);
    }
  }

  lemma {:induction false} UnloadPermutes(compare: Compare, s: seq<Block>, i: nat)
    requires i <= |s|
    ensures multiset(UnloadHeap(compare, s, i)) == multiset(s)
    decreases i
  {
    hide SiftDown, Swap;
    if i > 1 {
      SwapPermutes(s, 1, i);
      SiftDownPermutes(compare, Swap(s, 1, i), 1, i - 1);
      UnloadPermutes(compare, SiftDown(compare, Swap(s, 1, i), 1, i - 1), i - 1);
    }
  }

  // ----- the algorithm on the byte array -----

  /** Byte offset of the element with 0-based index `k`. */
  function Offset(k: nat, size: nat): (o: nat) { k * size }

  lemma {:induction false} OffsetStep(k: nat, m: nat, size: nat)
    requires k < m
    ensures Offset(k, size) + size == Offset(k + 1, size) <= Offset(m, size) == m * size
  {
  }

  /** Bytes of the element with 0-based index `k`. */
  function Slice(bytes: seq<Byte>, size: nat, k: nat): (b: Block)
  {
    if Offset(k, size) + size <= |bytes| then bytes[Offset(k, size)..Offset(k, size) + size] else []
  }

  /** The array as a sequence of `cnt` elements of `size` bytes. */
  function Blocks(bytes: seq<Byte>, size: nat, cnt: nat): (s: seq<Block>)
    ensures |s| == cnt
  {
    seq(cnt, k requires 0 <= k => Slice(bytes, size, k))
  }

  /** `t` is `s` with the `size` bytes at offsets `a` and `b` exchanged. */
  ghost predicate BytesSwapped(s: seq<Byte>, t: seq<Byte>, a: nat, b: nat, size: nat)
    requires a + size <= |s| && b + size <= |s|
  {
    && |t| == |s|
    && forall n {:trigger t[n]} | 0 <= n < |s| ::
         t[n] == if a <= n < a + size then s[n - a + b] else if b <= n < b + size then s[n - b + a] else s[n]
  }

  lemma {:induction false} SwappedBlocks(s: seq<Byte>, t: seq<Byte>, i: nat, j: nat, size: nat, cnt: nat)
    requires size > 0 && |t| == |s| == cnt * size && i < cnt && j < cnt
    requires Offset(i, size) + size <= |s| && Offset(j, size) + size <= |s|
    requires BytesSwapped(s, t, Offset(i, size), Offset(j, size), size)
    ensures Blocks(t, size, cnt) == Swap(Blocks(s, size, cnt), i + 1, j + 1)
  {
    hide Slice, BytesSwapped, Swap, Offset;
    forall k | 0 <= k < cnt
      ensures Slice(t, size, k) == Slice(s, size, if k == i then j else if k == j then i else k)
    {
      SwappedSlice(s, t, i, j, size, cnt, k);
    }
  }

  lemma {:induction false} SwappedSlice(s: seq<Byte>, t: seq<Byte>, i: nat, j: nat, size: nat, cnt: nat, k: nat)
    requires size > 0 && |t| == |s| == cnt * size && i < cnt && j < cnt && k < cnt
    requires Offset(i, size) + size <= |s| && Offset(j, size) + size <= |s|
    requires BytesSwapped(s, t, Offset(i, size), Offset(j, size), size)
    ensures Slice(t, size, k) == Slice(s, size, if k == i then j else if k == j then i else k)
  {
    hide BytesSwapped, Offset;
    OffsetStep(k, cnt, size);
    OffsetsApart(k, i, size);
    OffsetsApart(k, j, size);
    SwappedStretch(s, t, Offset(i, size), Offset(j, size), size, Offset(k, size));
  }

  lemma {:induction false} OffsetsApart(k: nat, m: nat, size: nat)
    ensures k != m ==> Offset(k, size) + size <= Offset(m, size) || Offset(m, size) + size <= Offset(k, size)
  {
    if k < m { OffsetStep(k, m, size); } else if m < k { OffsetStep(m, k, size); }
  }

  lemma {:induction false} SwappedStretch(s: seq<Byte>, t: seq<Byte>, a: nat, b: nat, size: nat, to: nat)
    requires a + size <= |s| && b + size <= |s| && to + size <= |s| && BytesSwapped(s, t, a, b, size)
    requires to == a || to + size <= a || a + size <= to
    requires to == b || to + size <= b || b + size <= to
    ensures |t| == |s|
    ensures var from := if to == a then b else if to == b then a else to;
            t[to..to + size] == s[from..from + size]
  {
    var from := if to == a then b else if to == b then a else to;
    var x, y := t[to..to + size], s[from..from + size];
    forall n | 0 <= n < size ensures x[n] == y[n] {
      assert x[n] == t[to + n];
    }
  }

  /** `do_swap`, byte by byte. */
  method DoSwap(array_: array<Byte>, i: nat, j: nat, size: nat, ghost cnt: nat)
    requires size > 0 && array_.Length == cnt * size && 1 <= i <= cnt && 1 <= j <= cnt
    modifies array_
    ensures Blocks(array_[..], size, cnt) == Swap(Blocks(old(array_[..]), size, cnt), i, j)
  {
    OffsetStep(i - 1, cnt, size);
    OffsetStep(j - 1, cnt, size);
    OffsetsApart(i - 1, j - 1, size);
    SwapBytes(array_, (i - 1) * size, (j - 1) * size, size);
    SwappedBlocks(old(array_[..]), array_[..], i - 1, j - 1, size, cnt);
  }

  method SwapBytes(array_: array<Byte>, a: nat, b: nat, size: nat)
    requires a + size <= array_.Length && b + size <= array_.Length
    requires a == b || a + size <= b || b + size <= a
    modifies array_
    ensures BytesSwapped(old(array_[..]), array_[..], a, b, size)
  {
    ghost var s := array_[..];
    var k := 0;
    while k < size
      invariant k <= size
      invariant forall n {:trigger array_[n]} | a <= n < a + k :: array_[n] == s[n - a + b]
      invariant forall n {:trigger array_[n]} | b <= n < b + k :: array_[n] == s[n - b + a]
      invariant forall n | 0 <= n < |s| && !(a <= n < a + k) && !(b <= n < b + k) :: array_[n] == s[n]
    {
      var t := array_[a + k];
      array_[a + k] := array_[b + k];
      array_[b + k] := t;
      k := k + 1;
    }
  }

  /** `do_compare`. */
  method DoCompare(array_: array<Byte>, i: nat, j: nat, size: nat, compare: Compare, ghost cnt: nat) returns (r: int)
    requires size > 0 && array_.Length == cnt * size && 1 <= i <= cnt && 1 <= j <= cnt
    ensures var s := Blocks(array_[..], size, cnt); r == compare(s[i - 1], s[j - 1])
  {
    OffsetStep(i - 1, cnt, size);
    OffsetStep(j - 1, cnt, size);
    r := compare(array_[(i - 1) * size..i * size], array_[(j - 1) * size..j * size]);
    assert array_[(i - 1) * size..i * size] == Slice(array_[..], size, i - 1);
    assert array_[(j - 1) * size..j * size] == Slice(array_[..], size, j - 1);
  }

  /** The comparisons of one round of `heapify`. */
  method FindLargest(array_: array<Byte>, i: nat, cnt: nat, size: nat, compare: Compare, ghost total: nat)
      returns (max: nat)
    requires size > 0 && array_.Length == total * size && 1 <= i <= cnt <= total
    ensures max == Largest(compare, Blocks(array_[..], size, total), i, cnt)
  {
    hide Blocks;
    var left := 2 * i;
    var right := 2 * i + 1;
    max := i;
    if left <= cnt {
      var c := DoCompare(array_, left, max, size, compare, total);
      if c > 0 { max := left; }
    }
    if right <= cnt {
      var c := DoCompare(array_, right, max, size, compare, total);
      if c > 0 { max := right; }
    }
  }

  lemma {:induction false} SiftDownUnfold(compare: Compare, s: seq<Block>, i: nat, cnt: nat)
    requires 1 <= i <= cnt <= |s|
    ensures var max := Largest(compare, s, i, cnt);
            SiftDown(compare, s, i, cnt) == if max == i then s else SiftDown(compare, Swap(s, i, max), max, cnt)
  {
  }

  /** `heapify`, over the first `cnt` of `total` elements. */
  method Heapify(array_: array<Byte>, start: nat, cnt: nat, size: nat, compare: Compare, ghost total: nat)
    requires size > 0 && array_.Length == total * size && 1 <= start <= cnt <= total
    modifies array_
    ensures Blocks(array_[..], size, total) == SiftDown(compare, Blocks(old(array_[..]), size, total), start, cnt)
  {
    hide Blocks, Swap, SiftDown, Largest;
    ghost var s := Blocks(array_[..], size, total);
    var i := start;
    var max := FindLargest(array_, i, cnt, size, compare, total);
    SiftDownUnfold(compare, s, i, cnt);
    while max != i
      invariant 1 <= i <= cnt && max == Largest(compare, Blocks(array_[..], size, total), i, cnt)
      invariant SiftDown(compare, Blocks(array_[..], size, total), i, cnt) == SiftDown(compare, s, start, cnt)
      decreases cnt - i
    {
      SiftDownUnfold(compare, Blocks(array_[..], size, total), i, cnt);
      DoSwap(array_, i, max, size, total);
      i := max;
      max := FindLargest(array_, i, cnt, size, compare, total);
    }
    SiftDownUnfold(compare, Blocks(array_[..], size, total), i, cnt);
  }

  /** `sort`. */
  method SortArray(array_: array<Byte>, cnt: nat, size: nat, compare: Compare)
    requires array_.Length == cnt * size && size > 0
    modifies array_
    ensures Blocks(array_[..], size, cnt) == Sort(compare, Blocks(old(array_[..]), size, cnt))
    ensures TotalPreorder(compare) ==> Ordered(compare, Blocks(array_[..], size, cnt))
    ensures multiset(Blocks(array_[..], size, cnt)) == multiset(Blocks(old(array_[..]), size, cnt))
  {
    hide Blocks, SiftDown, Swap, TotalPreorder, Ordered;
    ghost var s := Blocks(array_[..], size, cnt);
    var i: nat := cnt / 2;
    while i > 0
      invariant i <= cnt
      invariant BuildHeap(compare, Blocks(array_[..], size, cnt), i) == BuildHeap(compare, s, cnt / 2)
    {
      Heapify(array_, i, cnt, size, compare, cnt);
      i := i - 1;
    }
    ghost var h := Blocks(array_[..], size, cnt);
    i := cnt;
    while i > 1
      invariant i <= cnt
      invariant UnloadHeap(compare, Blocks(array_[..], size, cnt), i) == UnloadHeap(compare, h, cnt)
    {
      DoSwap(array_, 1, i, size, cnt);
      Heapify(array_, 1, i - 1, size, compare, cnt);
      i := i - 1;
    }
    SortPermutes(compare, s);
    if TotalPreorder(compare) { SortCorrect(compare, s); }
  }

  /** `binary_search`: `first` and `last` are byte offsets, as the pointers of
      the source are.  Over an ordered array a match is found exactly when one exists. */
  method BinarySearch(key: Block, array_: array<Byte>, cnt: nat, size: nat, compare: Compare)
      returns (found: bool, at: nat)
    requires array_.Length == cnt * size && size > 0 && TotalPreorder(compare)
    requires Ordered(compare, Blocks(array_[..], size, cnt))
    ensures found <==> exists k | 0 <= k < cnt :: compare(key, Blocks(array_[..], size, cnt)[k]) == 0
    ensures found ==> exists k | 0 <= k < cnt :: at == k * size && compare(key, Blocks(array_[..], size, cnt)[k]) == 0
  {
    hide TotalPreorder, Blocks, Ordered;
    ghost var s := Blocks(array_[..], size, cnt);
    var first, last := 0, size * cnt;
    ghost var lo, hi := 0, cnt;
    while first < last
      invariant lo <= hi <= cnt && first == lo * size && last == hi * size
      invariant Narrowed(compare, s, key, lo, hi)
      decreases hi - lo
    {
      var middle, m := Middle(first, last, size, lo, hi);
      BlockAt(array_, size, cnt, m);
      var cmp := compare(key, array_[middle..middle + size]);
      NarrowAt(compare, s, key, lo, hi, m);
      if cmp < 0 {
        last, hi := middle, m;
      } else if cmp > 0 {
        first, lo := middle + size, m + 1;
      } else {
        return true, middle;
      }
    }
    EmptyRange(size, lo, hi);
    return false, 0;
  }

  /** The pointer halfway between `first` and `last`, on an element boundary. */
  method Middle(first: nat, last: nat, size: nat, ghost lo: nat, ghost hi: nat) returns (middle: nat, ghost m: nat)
    requires size > 0 && lo <= hi && first == lo * size < last == hi * size
    ensures lo <= m < hi && middle == m * size && middle + size == (m + 1) * size
  {
    RangeCount(size, lo, hi);
    var range := (last - first) / size;
    middle := first + (range / 2) * size;
    m := lo + range / 2;
    Arithmetic.Distribute(lo, range / 2, size);
    Arithmetic.Distribute(m, 1, size);
  }

  /** Matches can only be left in `lo..hi`. */
  ghost predicate Narrowed(compare: Compare, s: seq<Block>, key: Block, lo: nat, hi: nat)
    requires lo <= hi <= |s|
  {
    && (forall k | 0 <= k < lo :: compare(key, s[k]) > 0)
    && (forall k | hi <= k < |s| :: compare(key, s[k]) < 0)
  }

  lemma {:induction false} NarrowAt(compare: Compare, s: seq<Block>, key: Block, lo: nat, hi: nat, m: nat)
    requires TotalPreorder(compare) && Ordered(compare, s)
    requires lo <= m < hi <= |s| && Narrowed(compare, s, key, lo, hi)
    ensures compare(key, s[m]) < 0 ==> Narrowed(compare, s, key, lo, m)
    ensures compare(key, s[m]) > 0 ==> Narrowed(compare, s, key, m + 1, hi)
  {
    hide TotalPreorder, Ordered;
    if compare(key, s[m]) < 0 {
      forall k | m <= k < |s| ensures compare(key, s[k]) < 0 { BelowAll(compare, s, key, m, k); }
    }
    if compare(key, s[m]) > 0 {
      forall k | 0 <= k < m + 1 ensures compare(key, s[k]) > 0 { AboveAll(compare, s, key, m, k); }
    }
  }

  lemma {:induction false} BlockAt(array_: array<Byte>, size: nat, cnt: nat, m: nat)
    requires array_.Length == cnt * size && m < cnt
    ensures m * size + size <= array_.Length
    ensures array_[m * size..m * size + size] == Blocks(array_[..], size, cnt)[m]
  {
    OffsetStep(m, cnt, size);
  }

  lemma {:induction false} RangeCount(size: nat, lo: nat, hi: nat)
    requires size > 0 && lo <= hi && lo * size < hi * size
    ensures lo < hi && (hi * size - lo * size) / size == hi - lo
  {
    assert hi * size - lo * size == (hi - lo) * size;
    Arithmetic.QuotientUnique((hi - lo) * size, size, hi - lo);
  }

  lemma {:induction false} EmptyRange(size: nat, lo: nat, hi: nat)
    requires size > 0 && lo <= hi && lo * size >= hi * size
    ensures lo == hi
  {
  }

  lemma {:induction false} BelowAll(compare: Compare, s: seq<Block>, key: Block, m: nat, k: nat)
    requires TotalPreorder(compare) && Ordered(compare, s) && m <= k < |s| && compare(key, s[m]) < 0
    ensures compare(key, s[k]) < 0
  {
    hide TotalPreorder;
    CompareTransitive(compare, s[m], s[k], key);
    CompareTotal(compare, key, s[m]);
    CompareTotal(compare, key, s[k]);
  }

  lemma {:induction false} AboveAll(compare: Compare, s: seq<Block>, key: Block, m: nat, k: nat)
    requires TotalPreorder(compare) && Ordered(compare, s) && k <= m < |s| && compare(key, s[m]) > 0
    ensures compare(key, s[k]) > 0
  {
    hide TotalPreorder;
    CompareTransitive(compare, key, s[k], s[m]);
  }

  /** Searching the sorted array decides membership in the original one. */
  lemma {:induction false} SortedSearch(compare: Compare, s: seq<Block>, key: Block)
    requires TotalPreorder(compare)
    ensures (exists k | 0 <= k < |s| :: compare(key, Sort(compare, s)[k]) == 0)
            <==> (exists k | 0 <= k < |s| :: compare(key, s[k]) == 0)
  {
    var t := Sort(compare, s);
    SortCorrect(compare, s);
    assert forall x :: x in t <==> x in multiset(t);
    assert forall x :: x in s <==> x in multiset(s);
    if k :| 0 <= k < |s| && compare(key, s[k]) == 0 {
      assert s[k] in t;
    }
    if k :| 0 <= k < |s| && compare(key, t[k]) == 0 {
      assert t[k] in s;
    }
  }
}
