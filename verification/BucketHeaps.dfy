/** The in-place binary min-heap of bucket indices. */
module BucketHeaps {
  import opened Options
  import opened Sorting

  datatype Bucket = Bucket(sum: real, files: seq<string>)

  /** `bucketAt`: absent outside the heap or the buckets. */
  function BucketAt(buckets: seq<Bucket>, heap: seq<nat>, index: nat): Option<Bucket> {
    if index < |heap| && heap[index] < |buckets| then Some(buckets[heap[index]]) else None
  }

  /** `bucketLess`: by total weight, then by file count. */
  predicate BucketLess(left: Option<Bucket>, right: Option<Bucket>) {
    if left == None || right == None then left != None
    else if left.value.sum != right.value.sum then left.value.sum < right.value.sum
    else |left.value.files| < |right.value.files|
  }

  ghost predicate AtMost(a: Bucket, b: Bucket) {
    !BucketLess(Some(b), Some(a))
  }

  lemma AtMostTransitive(a: Bucket, b: Bucket, c: Bucket)
    requires AtMost(a, b) && AtMost(b, c)
    ensures AtMost(a, c)
  {
  }

  /** The buckets in heap order. */
  ghost function Keys(buckets: seq<Bucket>, heap: seq<nat>): (keys: seq<Bucket>)
    requires forall i :: 0 <= i < |heap| ==> heap[i] < |buckets|
    ensures |keys| == |heap| && forall i :: 0 <= i < |heap| ==> keys[i] == buckets[heap[i]]
  {
    seq(|heap|, i requires 0 <= i < |heap| => buckets[heap[i]])
  }

  ghost function Parent(j: nat): nat
    requires j > 0
  {
    (j - 1) / 2
  }

  ghost predicate IsHeap(keys: seq<Bucket>) {
    forall j :: 0 < j < |keys| ==> AtMost(keys[Parent(j)], keys[j])
  }

  /** A heap but for the entry at `hole`, which may exceed its children. */
  ghost predicate IsHeapBut(keys: seq<Bucket>, hole: nat) {
    && (forall j :: 0 < j < |keys| && Parent(j) != hole ==> AtMost(keys[Parent(j)], keys[j]))
    && (forall j :: 0 < j < |keys| && Parent(j) == hole && hole > 0 ==> AtMost(keys[Parent(hole)], keys[j]))
  }

  /** The root is least. */
  lemma {:induction false} RootIsLeast(keys: seq<Bucket>, j: nat)
    requires IsHeap(keys) && j < |keys|
    ensures AtMost(keys[0], keys[j])
  {
    if j > 0 {
      RootIsLeast(keys, Parent(j));
      AtMostTransitive(keys[0], keys[Parent(j)], keys[j]);
    }
  }

  /** Swapping the hole with its lesser child moves the hole there. */
  lemma SiftStep(keys: seq<Bucket>, hole: nat, child: nat)
    requires IsHeapBut(keys, hole) && 0 < child < |keys| && Parent(child) == hole
    requires AtMost(keys[child], keys[hole])
    requires forall j :: 0 < j < |keys| && Parent(j) == hole ==> AtMost(keys[child], keys[j])
    ensures IsHeapBut(keys[hole := keys[child]][child := keys[hole]], child)
  {
    var swapped := keys[hole := keys[child]][child := keys[hole]];
    assert hole < child;
    forall j | 0 < j < |keys| && Parent(j) != child ensures AtMost(swapped[Parent(j)], swapped[j]) {
      if j == hole {
        assert AtMost(keys[Parent(hole)], keys[child]);
      } else if Parent(j) == hole {
      } else {
        assert AtMost(keys[Parent(j)], keys[j]);
      }
    }
    forall j | 0 < j < |keys| && Parent(j) == child ensures AtMost(swapped[Parent(child)], swapped[j]) {
      assert j != child && j != hole;
      assert AtMost(keys[Parent(j)], keys[j]);
    }
  }

  /** A hole no greater than its children is no hole. */
  lemma SiftStop(keys: seq<Bucket>, hole: nat)
    requires IsHeapBut(keys, hole) && hole < |keys|
    requires forall j :: 0 < j < |keys| && Parent(j) == hole ==> AtMost(keys[hole], keys[j])
    ensures IsHeap(keys)
  {
  }

  lemma ParentOf(j: nat, hole: nat)
    requires j > 0
    ensures Parent(j) == hole <==> j == 2 * hole + 1 || j == 2 * hole + 2
  {
  }

  ghost predicate IsPermutation(heap: seq<nat>, m: nat) {
    multiset(heap) == multiset(Identity(m))
  }

  function Identity(m: nat): (s: seq<nat>)
    ensures |s| == m && forall i :: 0 <= i < m ==> s[i] == i
  {
    seq(m, i => i)
  }

  /** A permutation of the bucket indices holds each bucket at exactly one place. */
  lemma PermutationFacts(heap: seq<nat>, m: nat)
    requires IsPermutation(heap, m)
    ensures |heap| == m && (forall i :: 0 <= i < m ==> heap[i] < m)
    ensures forall i, j :: 0 <= i < j < m ==> heap[i] != heap[j]
    ensures forall p :: 0 <= p < m ==> p in heap
  {
    SameElements(heap, Identity(m));
    assert |multiset(heap)| == |multiset(Identity(m))|;
    forall i | 0 <= i < m ensures heap[i] < m {
      assert heap[i] in heap;
    }
    forall p | 0 <= p < m ensures p in heap {
      assert Identity(m)[p] == p;
    }
    DistinctOnce(Identity(m));
    forall i, j | 0 <= i < j < m ensures heap[i] != heap[j] {
      OnceDistinct(heap, i, j);
    }
  }

  lemma SwapPermutes(s: seq<nat>, i: nat, j: nat)
    requires i < j < |s|
    ensures multiset(s[i := s[j]][j := s[i]]) == multiset(s)
  {
  }

  /** `siftDown`: from a heap whose entry at `start` grew, back to a heap of the same indices. */
  method SiftDown(buckets: array<Bucket>, heap: array<nat>, start: nat)
    requires IsPermutation(heap[..], buckets.Length) && start < heap.Length
    requires forall i :: 0 <= i < heap.Length ==> heap[i] < buckets.Length
    requires IsHeapBut(Keys(buckets[..], heap[..]), start)
    modifies heap
    ensures IsPermutation(heap[..], buckets.Length)
    ensures forall i :: 0 <= i < heap.Length ==> heap[i] < buckets.Length
    ensures IsHeap(Keys(buckets[..], heap[..]))
  {
    hide IsPermutation, IsHeapBut, IsHeap, Parent, BucketLess;
    var size, index := heap.Length, start;
    while true
      invariant index < size
      invariant IsPermutation(heap[..], buckets.Length)
      invariant forall i :: 0 <= i < heap.Length ==> heap[i] < buckets.Length
      invariant IsHeapBut(Keys(buckets[..], heap[..]), index)
      decreases size - index
    {
      ghost var keys := Keys(buckets[..], heap[..]);
      var left, right := 2 * index + 1, 2 * index + 2;
      var smallest, smallestBucket := index, BucketAt(buckets[..], heap[..], index);
      var leftBucket := if left < size then BucketAt(buckets[..], heap[..], left) else None;
      var rightBucket := if right < size then BucketAt(buckets[..], heap[..], right) else None;
      if leftBucket != None && smallestBucket != None && BucketLess(leftBucket, smallestBucket) {
        smallest, smallestBucket := left, leftBucket;
      }
      if rightBucket != None && smallestBucket != None && BucketLess(rightBucket, smallestBucket) {
        smallest := right;
      }
      Choice(keys, index, smallest);
      if smallest == index {
        SiftStop(keys, index);
        return;
      }
      SiftStep(keys, index, smallest);
      SwapKeeps(buckets[..], heap[..], index, smallest);
      heap[index], heap[smallest] := heap[smallest], heap[index];
      index := smallest;
    }
  }

  /** Swapping two heap entries keeps the indices and swaps the buckets. */
  lemma SwapKeeps(buckets: seq<Bucket>, heap: seq<nat>, i: nat, j: nat)
    requires i < j < |heap| && IsPermutation(heap, |buckets|)
    requires forall i :: 0 <= i < |heap| ==> heap[i] < |buckets|
    ensures IsPermutation(heap[i := heap[j]][j := heap[i]], |buckets|)
    ensures var keys := Keys(buckets, heap);
            Keys(buckets, heap[i := heap[j]][j := heap[i]]) == keys[i := keys[j]][j := keys[i]]
  {
    SwapPermutes(heap, i, j);
  }

  /** What the two comparisons settle: no child is less than the chosen entry. */
  lemma Choice(keys: seq<Bucket>, index: nat, smallest: nat)
    requires index < |keys|
    requires smallest == Smallest(keys, index)
    ensures smallest < |keys| && (smallest == index || (smallest > 0 && smallest > index && Parent(smallest) == index))
    ensures AtMost(keys[smallest], keys[index])
    ensures forall j :: 0 < j < |keys| && Parent(j) == index ==> AtMost(keys[smallest], keys[j])
  {
    forall j | 0 < j < |keys| && Parent(j) == index ensures AtMost(keys[smallest], keys[j]) {
      ParentOf(j, index);
    }
  }

  /** The entry the two comparisons choose among a position and its children. */
  ghost function Smallest(keys: seq<Bucket>, index: nat): nat
    requires index < |keys|
  {
    var left, right := 2 * index + 1, 2 * index + 2;
    var first := if left < |keys| && BucketLess(Some(keys[left]), Some(keys[index])) then left else index;
    if right < |keys| && BucketLess(Some(keys[right]), Some(keys[first])) then right else first
  }
}
