/** The chained hash table of lib/kernel/hash.c, which resizes itself. */
module Hash {
  import opened Common
  import opened Arithmetic
  import Bits

  /** Neither element is less than the other. */
  predicate Equal<E>(less: (E, E) -> bool, x: E, y: E) {
    !less(x, y) && !less(y, x)
  }

  /** What the callbacks must promise: "neither is less" is an equivalence, and
      equal elements have equal hashes. */
  ghost predicate Lawful<E(!new)>(hash: E -> nat, less: (E, E) -> bool) {
    && (forall x :: Equal(less, x, x))
    && (forall x, y, z :: Equal(less, x, y) && Equal(less, y, z) ==> Equal(less, x, z))
    && (forall x, y :: Equal(less, x, y) ==> hash(x) == hash(y))
  }

  // ----- the table as a collection of elements -----

  /** All elements, bucket by bucket. */
  function Flatten<E>(buckets: seq<seq<E>>): (s: seq<E>)
  {
    if buckets == [] then [] else buckets[0] + Flatten(buckets[1..])
  }

  lemma {:induction false} FlattenUpdate<E>(buckets: seq<seq<E>>, b: nat, bucket: seq<E>)
    requires b < |buckets|
    ensures multiset(Flatten(buckets[b := bucket])) + multiset(buckets[b]) ==
            multiset(Flatten(buckets)) + multiset(bucket)
  {
    var rest, after := buckets[1..], buckets[b := bucket];
    assert Flatten(buckets) == buckets[0] + Flatten(rest);
    assert Flatten(after) == after[0] + Flatten(after[1..]);
    if b == 0 {
      assert after[1..] == rest;
    } else {
      FlattenUpdate(rest, b - 1, bucket);
      assert after[1..] == rest[b - 1 := bucket];
      AddToBoth(multiset(buckets[0]), multiset(Flatten(after[1..])), multiset(buckets[b]), multiset(Flatten(rest)),
                multiset(bucket));
    }
  }

  lemma {:induction false} AddToBoth<E>(x: multiset<E>, p: multiset<E>, q: multiset<E>, r: multiset<E>, s: multiset<E>)
    requires p + q == r + s
    ensures (x + p) + q == (x + r) + s
  {
    assert (x + p) + q == x + (p + q);
  }

  lemma {:induction false} FlattenMember<E>(buckets: seq<seq<E>>, b: nat, e: E)
    requires b < |buckets| && e in buckets[b]
    ensures e in Flatten(buckets)
  {
    if b > 0 { FlattenMember(buckets[1..], b - 1, e); }
  }

  lemma {:induction false} MemberBucket<E>(buckets: seq<seq<E>>, e: E) returns (b: nat)
    requires e in Flatten(buckets)
    ensures b < |buckets| && e in buckets[b]
  {
    if e in buckets[0] {
      b := 0;
    } else {
      b := MemberBucket(buckets[1..], e);
      b := b + 1;
    }
  }

  /** No element occurs twice, and no two elements are equal. */
  ghost predicate Apart<E>(less: (E, E) -> bool, m: multiset<E>) {
    && (forall x | x in m :: m[x] == 1)
    && (forall x, y | x in m && y in m && x != y :: !Equal(less, x, y))
  }

  lemma {:induction false} ApartAdd<E(!new)>(hash: E -> nat, less: (E, E) -> bool, m: multiset<E>, e: E)
    requires Lawful(hash, less) && Apart(less, m) && forall x | x in m :: !Equal(less, x, e)
    ensures Apart(less, m + multiset{e})
  {
    assert Equal(less, e, e);
    assert e !in m;
  }

  lemma {:induction false} ApartRemove<E>(less: (E, E) -> bool, m: multiset<E>, e: E)
    requires Apart(less, m) && e in m
    ensures Apart(less, m - multiset{e}) && e !in m - multiset{e}
  {
    assert m[e] == 1;
  }

  /** `find_bucket`: the index of the bucket an element belongs in. */
  function BucketOf<E>(hash: E -> nat, cnt: nat, e: E): (b: nat)
    requires cnt > 0
  {
    Bits.And(hash(e), cnt - 1)
  }

  ghost predicate IsPow2(n: nat) { exists k: nat :: n == Pow2(k) }

  lemma {:induction false} BucketInRange<E>(hash: E -> nat, cnt: nat, e: E)
    requires IsPow2(cnt)
    ensures cnt > 0 && BucketOf(hash, cnt, e) == hash(e) % cnt < cnt
  {
    var k: nat :| cnt == Pow2(k);
    Bits.AndMask(hash(e), k);
  }

  /** Every element is in the bucket its hash selects. */
  ghost predicate Placed<E>(hash: E -> nat, buckets: seq<seq<E>>) {
    && IsPow2(|buckets|)
    && forall b, e | 0 <= b < |buckets| && e in buckets[b] :: hash(e) % |buckets| == b
  }

  /** Equal elements can only be in the same bucket. */
  lemma {:induction false} SameBucket<E(!new)>(hash: E -> nat, less: (E, E) -> bool, buckets: seq<seq<E>>, x: E, e: E)
    requires Lawful(hash, less) && Placed(hash, buckets) && x in Flatten(buckets) && Equal(less, x, e)
    ensures |buckets| > 0 && 0 <= hash(e) % |buckets| < |buckets| && x in buckets[hash(e) % |buckets|]
  {
    var b := MemberBucket(buckets, x);
    assert hash(x) == hash(e);
  }

  // ----- the target number of buckets -----

  /** `n` is the largest power of two up to `x`. */
  ghost predicate LargestPow2(n: nat, x: nat) {
    exists k: nat :: n == Pow2(k) && Pow2(k) <= x < Pow2(k + 1)
  }

  function Wanted(elemCnt: nat): (n: nat) {
    if elemCnt / 2 < 4 then 4 else elemCnt / 2
  }

  /** The bit-clearing loop of `rehash`. */
  /** The ideal number of buckets: four for up to seven elements, and from then on at least two elements for each
      bucket, and less than four. */
  lemma {:induction false} IdealLoad(n: nat, elemCnt: nat)
    requires LargestPow2(n, Wanted(elemCnt))
    ensures if elemCnt < 8 then n == 4 else 2 * n <= elemCnt < 4 * n
  {
    var k: nat :| n == Pow2(k) && Pow2(k) <= Wanted(elemCnt) < Pow2(k + 1);
    assert Pow2(k + 1) == 2 * Pow2(k);
    if elemCnt < 8 {
      assert Pow2(2) == 4 && Pow2(3) == 8;
      if k > 2 { Pow2Monotone(3, k); }
    }
  }

  method TargetBuckets(elemCnt: nat) returns (n: nat)
    ensures LargestPow2(n, Wanted(elemCnt)) && 4 <= n
  {
    hide Bits.And;
    n := elemCnt / 2;
    if n < 4 { n := 4; }
    ghost var k := Bits.HighestBit(n);
    assert Pow2(1) == 2 && Pow2(2) == 4;
    assert k != 0 && k != 1;
    Pow2Monotone(2, k);
    ghost var x := n;
    while !Bits.IsPowerOf2(n)
      invariant Pow2(k) <= n <= x < Pow2(k + 1)
      decreases n
    {
      Bits.TurnOffKeepsTop(n, k);
      n := Bits.TurnOffLeast1Bit(n);
    }
    Bits.TurnOffKeepsTop(n, k);
  }

  // ----- the table -----

  class HashTable<E(==, !new)> {
    const hash: E -> nat
    const less: (E, E) -> bool
    var elemCnt: nat
    var buckets: seq<seq<E>>

    /** The elements in the table. */
    ghost function Contents(): multiset<E>
      reads this
    {
      multiset(Flatten(buckets))
    }

    ghost predicate Valid()
      reads this
    {
      && Lawful(hash, less)
      && |buckets| >= 4 && Placed(hash, buckets)
      && Apart(less, Contents()) && elemCnt == |Contents()|
    }

    /** `hash_init`, when its allocation succeeds. */
    constructor (hash: E -> nat, less: (E, E) -> bool)
      requires Lawful(hash, less)
      ensures Valid() && Contents() == multiset{} && this.hash == hash && this.less == less && |buckets| == 4
    {
      this.hash, this.less := hash, less;
      elemCnt := 0;
      buckets := [[], [], [], []];
      new;
      assert 4 == Pow2(2);
      AllEmpty(buckets);
    }

    /** `find_elem`. */
    method FindElem(bucket: seq<E>, e: E) returns (found: Option<E>)
      ensures found.Some? ==> found.value in bucket && Equal(less, found.value, e)
      ensures found.None? ==> forall x | x in bucket :: !Equal(less, x, e)
    {
      for i := 0 to |bucket|
        invariant forall j | 0 <= j < i :: !Equal(less, bucket[j], e)
      {
        if !less(bucket[i], e) && !less(e, bucket[i]) { return Some(bucket[i]); }
      }
      return None;
    }

    /** `hash_find`: an element equal to `e` is found exactly when there is one. */
    method Find(e: E) returns (found: Option<E>)
      requires Valid()
      ensures found.Some? <==> exists x :: x in Contents() && Equal(less, x, e)
      ensures found.Some? ==> found.value in Contents() && Equal(less, found.value, e)
      ensures found.Some? ==>
              BucketOf(hash, |buckets|, e) < |buckets| && found.value in buckets[BucketOf(hash, |buckets|, e)]
    {
      hide Lawful, Flatten;
      BucketInRange(hash, |buckets|, e);
      var b := BucketOf(hash, |buckets|, e);
      found := FindElem(buckets[b], e);
      if found.Some? {
        FlattenMember(buckets, b, found.value);
      } else {
        forall x | x in Contents() ensures !Equal(less, x, e) {
          if Equal(less, x, e) {
            SameBucket(hash, less, buckets, x, e);
            assert false;
          }
        }
      }
    }

    /** `insert_elem`: at the front of the bucket. */
    method InsertElem(e: E)
      requires Valid() && forall x | x in Contents() :: !Equal(less, x, e)
      modifies this
      ensures Valid() && Contents() == old(Contents()) + multiset{e} && |buckets| == |old(buckets)|
    {
      hide Lawful, Flatten;
      BucketInRange(hash, |buckets|, e);
      var b := BucketOf(hash, |buckets|, e);
      ApartAdd(hash, less, Contents(), e);
      PushFront(hash, buckets, b, e);
      elemCnt := elemCnt + 1;
      buckets := buckets[b := [e] + buckets[b]];
    }

    /** `remove_elem`: the element is unlinked from its bucket. */
    method RemoveElem(e: E, b: nat)
      requires Valid() && b < |buckets| && e in buckets[b]
      modifies this
      ensures Valid() && Contents() == old(Contents()) - multiset{e} && |buckets| == |old(buckets)|
    {
      hide Lawful, Flatten;
      FlattenMember(buckets, b, e);
      ApartRemove(less, Contents(), e);
      Unlink(hash, buckets, b, e);
      elemCnt := elemCnt - 1;
      buckets := buckets[b := Without(buckets[b], e)];
    }

    /** `hash_insert`: a new element is added exactly when no equal one is there. */
    method Insert(e: E, allocOk: bool) returns (found: Option<E>)
      requires Valid()
      modifies this
      ensures Valid()
      ensures found.Some? <==> exists x :: x in old(Contents()) && Equal(less, x, e)
      ensures found.Some? ==> found.value in old(Contents()) && Equal(less, found.value, e)
      ensures Contents() == old(Contents()) + if found.None? then multiset{e} else multiset{}
      ensures allocOk ==> LargestPow2(|buckets|, Wanted(elemCnt))
    {
      hide Lawful, Flatten, Placed, LargestPow2, BucketOf;
      found := Find(e);
      if found.None? { InsertElem(e); }
      Rehash(allocOk);
    }

    /** `hash_replace`: afterwards `e` is in the table and the equal element is not. */
    method Replace(e: E, allocOk: bool) returns (found: Option<E>)
      requires Valid()
      modifies this
      ensures Valid()
      ensures found.Some? <==> exists x :: x in old(Contents()) && Equal(less, x, e)
      ensures found.Some? ==> found.value in old(Contents()) && Equal(less, found.value, e)
      ensures Contents() ==
              (if found.Some? then old(Contents()) - multiset{found.value} else old(Contents())) + multiset{e}
      ensures allocOk ==> LargestPow2(|buckets|, Wanted(elemCnt))
    {
      hide Lawful, Flatten, Placed, LargestPow2, BucketOf;
      found := Find(e);
      if found.Some? {
        OnlyOneEqual(hash, less, Contents(), found.value, e);
        RemoveElem(found.value, BucketOf(hash, |buckets|, e));
      }
      InsertElem(e);
      Rehash(allocOk);
    }

    /** `hash_delete`: the equal element, if there is one, leaves the table. */
    method Delete(e: E, allocOk: bool) returns (found: Option<E>)
      requires Valid()
      modifies this
      ensures Valid()
      ensures found.Some? <==> exists x :: x in old(Contents()) && Equal(less, x, e)
      ensures found.Some? ==> found.value in old(Contents()) && Equal(less, found.value, e)
      ensures Contents() == if found.Some? then old(Contents()) - multiset{found.value} else old(Contents())
      ensures found.Some? && allocOk ==> LargestPow2(|buckets|, Wanted(elemCnt))
      ensures found.None? ==> buckets == old(buckets)
    {
      hide Lawful, Flatten, Placed, LargestPow2, BucketOf;
      found := Find(e);
      if found.Some? {
        RemoveElem(found.value, BucketOf(hash, |buckets|, e));
        Rehash(allocOk);
      }
    }

    /** `rehash`: the elements stay the same; the number of buckets becomes the ideal one
        unless the allocation of the new buckets fails. */
    method Rehash(allocOk: bool)
      requires Valid()
      modifies this
      ensures Valid() && Contents() == old(Contents()) && elemCnt == old(elemCnt)
      ensures if allocOk then LargestPow2(|buckets|, Wanted(elemCnt)) else buckets == old(buckets)
    {
      hide Lawful, Flatten, Wanted;
      var newCnt := TargetBuckets(elemCnt);
      if newCnt == |buckets| || !allocOk { return; }
      var oldBuckets := buckets;
      EmptyBuckets(hash, newCnt);
      buckets := seq(newCnt, _ => []);
      assert oldBuckets[0..] == oldBuckets;
      for i := 0 to |oldBuckets|
        invariant |buckets| == newCnt && Placed(hash, buckets) && elemCnt == old(elemCnt)
        invariant Contents() + multiset(Flatten(oldBuckets[i..])) == old(Contents())
      {
        FlattenStep(oldBuckets, i);
        MoveBucket(oldBuckets[i]);
      }
      FlattenEmpty<E>();
      assert oldBuckets[|oldBuckets|..] == [];
      assert Contents() == old(Contents());
    }

    /** The inner loop of `rehash`: each element of one old bucket goes to the front of its new one. */
    method MoveBucket(bucket: seq<E>)
      requires |buckets| > 0 && Placed(hash, buckets)
      modifies this
      ensures |buckets| == |old(buckets)| && Placed(hash, buckets) && elemCnt == old(elemCnt)
      ensures Contents() == old(Contents()) + multiset(bucket)
    {
      hide Flatten, Placed;
      for i := 0 to |bucket|
        invariant |buckets| == |old(buckets)| && Placed(hash, buckets) && elemCnt == old(elemCnt)
        invariant Contents() == old(Contents()) + multiset(bucket[..i])
      {
        PlacedCount(hash, buckets);
        BucketInRange(hash, |buckets|, bucket[i]);
        var b := BucketOf(hash, |buckets|, bucket[i]);
        PushFront(hash, buckets, b, bucket[i]);
        buckets := buckets[b := [bucket[i]] + buckets[b]];
        assert bucket[..i + 1] == bucket[..i] + [bucket[i]];
      }
      assert bucket[..|bucket|] == bucket;
    }

    /** The iteration idiom of `hash_first`: every element is met exactly once, bucket by bucket. */
    method Traverse() returns (visited: seq<E>)
      requires Valid()
      ensures visited == Flatten(buckets) && multiset(visited) == Contents()
    {
      hide Lawful, Flatten, Placed;
      var it := new HashIterator(this);
      visited := [];
      FlattenEmpty<E>();
      assert buckets[..0] == [];
      var e := it.Next();
      while e.Some?
        invariant it.Valid() && it.table == this && it.buckets == buckets
        invariant e.Some? ==> !it.done && 0 <= it.index < |buckets[it.bucket]| && it.Position() == |visited| + 1
        invariant e.Some? ==> |visited| < |Flatten(buckets)| && e.value == Flatten(buckets)[|visited|]
        invariant e.None? ==> |visited| == |Flatten(buckets)|
        invariant |visited| <= |Flatten(buckets)| && visited == Flatten(buckets)[..|visited|]
        decreases |Flatten(buckets)| - |visited|, if e.Some? then 1 else 0
      {
        visited := visited + [e.value];
        e := it.Next();
      }
    }
  }

  /** `struct hash_iterator`: a bucket, and a position in it (-1 for the list head). */
  class HashIterator<E(==, !new)> {
    const table: HashTable<E>
    ghost const buckets: seq<seq<E>>
    var bucket: nat
    var index: int
    var done: bool

    ghost predicate Valid()
      reads this, table
    {
      && table.buckets == buckets
      && (!done ==> bucket < |buckets| && -1 <= index < |buckets[bucket]|)
    }

    /** How many elements have been met, the current one included. */
    ghost function Position(): int
      requires Valid() && !done
      reads this, table
    {
      |Flatten(buckets[..bucket])| + index + 1
    }

    /** `hash_first`. */
    constructor (h: HashTable<E>)
      requires |h.buckets| > 0
      ensures Valid() && !done && table == h && buckets == h.buckets && Position() == 0
    {
      table, buckets := h, h.buckets;
      bucket, index, done := 0, -1, false;
      new;
      FlattenEmpty<E>();
      assert buckets[..0] == [];
    }

    /** `hash_next`: the next element in bucket order, or none at the end. */
    method Next() returns (e: Option<E>)
      requires Valid() && !done && Position() <= |Flatten(buckets)|
      modifies this
      ensures Valid() && done == e.None?
      ensures e.Some? <==> old(Position()) < |Flatten(buckets)|
      ensures e.Some? ==>
              e.value == Flatten(buckets)[old(Position())] && Position() == old(Position()) + 1 && index >= 0
    {
      hide Flatten;
      ghost var met := Position();
      index := index + 1;
      FlattenSplit(buckets, bucket);
      while index == |table.buckets[bucket]|
        invariant Valid'() && |Flatten(buckets[..bucket])| + index == met
        invariant Flatten(buckets) == Flatten(buckets[..bucket]) + buckets[bucket] + Flatten(buckets[bucket + 1..])
        decreases |buckets| - bucket
      {
        bucket := bucket + 1;
        if bucket >= |table.buckets| {
          assert buckets[bucket..] == [];
          FlattenEmpty<E>();
          done := true;
          return None;
        }
        FlattenSplit(buckets, bucket - 1);
        FlattenSplit(buckets, bucket);
        FlattenSnoc(buckets, bucket - 1);
        index := 0;
      }
      return Some(table.buckets[bucket][index]);
    }

    /** Inside `hash_next` the position may be the tail of the bucket's list. */
    ghost predicate Valid'()
      reads this, table
    {
      table.buckets == buckets && !done && bucket < |buckets| && 0 <= index <= |buckets[bucket]|
    }
  }

  lemma {:induction false} FlattenEmpty<E>()
    ensures Flatten<E>([]) == []
  {
  }

  lemma {:induction false} FlattenStep<E>(buckets: seq<seq<E>>, i: nat)
    requires i < |buckets|
    ensures Flatten(buckets[i..]) == buckets[i] + Flatten(buckets[i + 1..])
  {
    assert buckets[i..][1..] == buckets[i + 1..];
  }

  lemma {:induction false} FlattenConcat<E>(a: seq<seq<E>>, b: seq<seq<E>>)
    ensures Flatten(a + b) == Flatten(a) + Flatten(b)
  {
    if a == [] {
      assert a + b == b;
    } else {
      FlattenConcat(a[1..], b);
      assert (a + b)[1..] == a[1..] + b;
    }
  }

  lemma {:induction false} FlattenSplit<E>(buckets: seq<seq<E>>, b: nat)
    requires b < |buckets|
    ensures Flatten(buckets) == Flatten(buckets[..b]) + buckets[b] + Flatten(buckets[b + 1..])
  {
    FlattenConcat(buckets[..b], buckets[b..]);
    assert buckets[..b] + buckets[b..] == buckets;
    FlattenStep(buckets, b);
  }

  lemma {:induction false} FlattenSnoc<E>(buckets: seq<seq<E>>, b: nat)
    requires b < |buckets|
    ensures Flatten(buckets[..b + 1]) == Flatten(buckets[..b]) + buckets[b]
  {
    FlattenConcat(buckets[..b], [buckets[b]]);
    assert buckets[..b + 1] == buckets[..b] + [buckets[b]];
    assert Flatten([buckets[b]]) == buckets[b] + Flatten([buckets[b]][1..]);
  }

  lemma {:induction false} EmptyBuckets<E>(hash: E -> nat, n: nat)
    requires IsPow2(n)
    ensures Placed(hash, seq(n, _ => [])) && Flatten<E>(seq(n, _ => [])) == []
  {
    AllEmpty<E>(seq(n, _ => []));
  }

  lemma {:induction false} AllEmpty<E>(buckets: seq<seq<E>>)
    requires forall b | 0 <= b < |buckets| :: buckets[b] == []
    ensures Flatten(buckets) == []
  {
    if buckets != [] { AllEmpty(buckets[1..]); }
  }

  lemma {:induction false} PlacedCount<E>(hash: E -> nat, buckets: seq<seq<E>>)
    requires Placed(hash, buckets)
    ensures IsPow2(|buckets|)
  {
  }

  lemma {:induction false} OnlyOneEqual<E(!new)>(hash: E -> nat, less: (E, E) -> bool, m: multiset<E>, x: E, e: E)
    requires Lawful(hash, less) && Apart(less, m) && x in m && Equal(less, x, e)
    ensures forall y | y in m - multiset{x} :: !Equal(less, y, e)
  {
    forall y | y in m - multiset{x} ensures !Equal(less, y, e) {
      assert m[x] == 1 && y != x;
      assert !Equal(less, y, x);
      if Equal(less, y, e) {
        assert Equal(less, e, x);
        assert false;
      }
    }
  }

  lemma {:induction false} PushFront<E>(hash: E -> nat, buckets: seq<seq<E>>, b: nat, e: E)
    requires Placed(hash, buckets) && b < |buckets| && hash(e) % |buckets| == b
    ensures Placed(hash, buckets[b := [e] + buckets[b]])
    ensures multiset(Flatten(buckets[b := [e] + buckets[b]])) == multiset(Flatten(buckets)) + multiset{e}
  {
    FlattenUpdate(buckets, b, [e] + buckets[b]);
    var m, m' := multiset(Flatten(buckets)), multiset(Flatten(buckets[b := [e] + buckets[b]]));
    var old_ := multiset(buckets[b]);
    assert multiset([e] + buckets[b]) == multiset{e} + old_;
    Cancel(m', m + multiset{e}, old_);
  }

  lemma {:induction false} Cancel<E>(a: multiset<E>, b: multiset<E>, c: multiset<E>)
    requires a + c == b + c
    ensures a == b
  {
    assert forall x :: (a + c)[x] == a[x] + c[x] && (b + c)[x] == b[x] + c[x];
  }

  lemma {:induction false} Unlink<E>(hash: E -> nat, buckets: seq<seq<E>>, b: nat, e: E)
    requires Placed(hash, buckets) && b < |buckets| && e in buckets[b]
    ensures Placed(hash, buckets[b := Without(buckets[b], e)])
    ensures multiset(Flatten(buckets[b := Without(buckets[b], e)])) == multiset(Flatten(buckets)) - multiset{e}
    ensures e in Flatten(buckets)
  {
    hide Without;
    var bucket := Without(buckets[b], e);
    FlattenMember(buckets, b, e);
    FlattenUpdate(buckets, b, bucket);
    var m, m', old_ := multiset(Flatten(buckets)), multiset(Flatten(buckets[b := bucket])), multiset(buckets[b]);
    assert e in m && e in old_;
    assert m' + old_ == (m - multiset{e}) + old_ by {
      assert forall x :: (m' + old_)[x] == (m + multiset(bucket))[x];
    }
    Cancel(m', m - multiset{e}, old_);
  }

  /** The sequence without the first occurrence of `e`. */
  function Without<E(==)>(s: seq<E>, e: E): (r: seq<E>)
    requires e in s
    ensures multiset(r) == multiset(s) - multiset{e}
    ensures forall x | x in r :: x in s
  {
    if s[0] == e then
      assert s == [s[0]] + s[1..];
      s[1..]
    else
      assert s == [s[0]] + s[1..];
      [s[0]] + Without(s[1..], e)
  }
}
