/** Coverage scheduling: longest-processing-time assignment over the bucket heap, and the per-project split. */
module CoveragePartitions {
  import opened BucketHeaps
  import opened Loads
  import opened Sorting

  /** Weight of a file with no recorded duration. */
  const UNKNOWN_FILE_WEIGHT := 1.0

  datatype Weighted = Weighted(file: string, weight: real)

  datatype Assignment =
    | Assigned(partitions: seq<seq<string>>)
    | HeapOutOfBounds

  function WeightOf(weights: map<string, real>, file: string): real {
    if file in weights then weights[file] else UNKNOWN_FILE_WEIGHT
  }

  /** The comparator `b.weight - a.weight || a.file.localeCompare(b.file)`. */
  function CompareWeighted(a: Weighted, b: Weighted, locale: (string, string) -> int): int {
    if a.weight > b.weight then -1 else if a.weight < b.weight then 1 else locale(a.file, b.file)
  }

  function HeavierFirst(locale: (string, string) -> int): (Weighted, Weighted) -> int {
    (a, b) => CompareWeighted(a, b, locale)
  }

  function Weigh(files: seq<string>, weights: map<string, real>): (items: seq<Weighted>)
    ensures |items| == |files|
    ensures forall i :: 0 <= i < |files| ==> items[i] == Weighted(files[i], WeightOf(weights, files[i]))
  {
    seq(|files|, i requires 0 <= i < |files| => Weighted(files[i], WeightOf(weights, files[i])))
  }

  /** The items in the order in which they are placed. */
  function Queue(files: seq<string>, weights: map<string, real>, locale: (string, string) -> int):
    (items: seq<Weighted>)
    ensures |items| == |files|
  {
    SortBy(Weigh(files, weights), HeavierFirst(locale))
  }

  function WeightOfItem(item: Weighted): real {
    item.weight
  }

  function FileOfItem(item: Weighted): string {
    item.file
  }

  ghost function WeightsOf(items: seq<Weighted>): (weights: seq<real>)
    ensures |weights| == |items|
  {
    Mapped(items, WeightOfItem)
  }

  ghost function FilesOf(items: seq<Weighted>): seq<string> {
    Mapped(items, FileOfItem)
  }

  /** The files that `choices` gives to part `p`, in placement order. */
  ghost function PartOf(items: seq<Weighted>, choices: seq<nat>, p: nat): seq<string>
    requires |choices| == |items|
  {
    if items == [] then []
    else
      var n := |items| - 1;
      PartOf(items[..n], choices[..n], p) + (if choices[n] == p then [items[n].file] else [])
  }

  /** Every bucket holds exactly what the choices so far gave it. */
  ghost predicate Reflects(buckets: seq<Bucket>, items: seq<Weighted>, choices: seq<nat>)
    requires |choices| == |items|
  {
    forall p :: 0 <= p < |buckets| ==>
                  && buckets[p].sum == Load(WeightsOf(items), choices, p)
                  && buckets[p].files == PartOf(items, choices, p)
                  && |buckets[p].files| as real == Count(choices, p)
  }

  /** `partitions` is what some greedy run over `items` produces. */
  ghost predicate IsGreedyOutcome(items: seq<Weighted>, partitions: seq<seq<string>>) {
    exists choices :: IsGreedy(WeightsOf(items), choices, |partitions|) && IsOutcome(items, choices, partitions)
  }

  ghost predicate IsOutcome(items: seq<Weighted>, choices: seq<nat>, partitions: seq<seq<string>>) {
    |choices| == |items| && forall p :: 0 <= p < |partitions| ==> partitions[p] == PartOf(items, choices, p)
  }

  lemma ChoicesOf(items: seq<Weighted>, partitions: seq<seq<string>>) returns (choices: seq<nat>)
    requires IsGreedyOutcome(items, partitions)
    ensures IsGreedy(WeightsOf(items), choices, |partitions|) && IsOutcome(items, choices, partitions)
    ensures |choices| == |items| && IsAssignment(choices, |items|, |partitions|)
    ensures forall p :: 0 <= p < |partitions| ==> partitions[p] == PartOf(items, choices, p)
  {
    choices :| IsGreedy(WeightsOf(items), choices, |partitions|) && IsOutcome(items, choices, partitions);
  }

  method AssignWeightedPartitions(
    files: seq<string>, weights: map<string, real>, partitions: nat, locale: (string, string) -> int)
    returns (result: Assignment)
    ensures result == HeapOutOfBounds <==> files != [] && partitions == 0
    ensures result.Assigned? ==> |result.partitions| == partitions
    ensures result.Assigned? ==> IsGreedyOutcome(Queue(files, weights, locale), result.partitions)
  {
    hide IsHeap, IsPermutation, Reflects, IsGreedy, IsGreedyOutcome, Keys, WeightsOf, Queue, Identity;
    var weighted := Queue(files, weights, locale);
    if |files| == 0 {
      result := Assigned(seq(partitions, _ => []));
      NothingPlaced(result.partitions);
      assert weighted == [];
      return;
    }
    var buckets := new Bucket[partitions](_ => Bucket(0.0, []));
    var heap := new nat[partitions](index => index);
    StartFacts(buckets[..], heap[..]);
    assert weighted[..0] == [];
    ghost var choices: seq<nat> := [];
    for t := 0 to |weighted|
      invariant |choices| == t && IsGreedy(WeightsOf(weighted[..t]), choices, partitions)
      invariant Reflects(buckets[..], weighted[..t], choices)
      invariant IsPermutation(heap[..], buckets.Length)
      invariant forall i :: 0 <= i < heap.Length ==> heap[i] < buckets.Length
      invariant IsHeap(Keys(buckets[..], heap[..]))
      invariant t > 0 ==> partitions > 0
    {
      var item := weighted[t];
      if heap.Length == 0 {
        return HeapOutOfBounds;
      }
      ghost var top := PlaceNext(buckets, heap, weighted, t, item, choices);
      choices := choices + [top];
    }
    assert weighted[..|weighted|] == weighted;
    result := Assigned(seq(partitions, p requires 0 <= p < partitions reads buckets => buckets[p].files));
    EndFacts(buckets[..], weighted, choices, result.partitions);
  }

  /** With nothing placed the buckets are empty, and their indices in order are a heap. */
  lemma StartFacts(buckets: seq<Bucket>, heap: seq<nat>)
    requires |heap| == |buckets|
    requires forall p :: 0 <= p < |buckets| ==> buckets[p] == Bucket(0.0, []) && heap[p] == p
    ensures IsGreedy(WeightsOf([]), [], |buckets|) && Reflects(buckets, [], [])
    ensures IsPermutation(heap, |buckets|) && IsHeap(Keys(buckets, heap))
  {
    assert heap == Identity(|buckets|);
  }

  lemma NothingPlaced(partitions: seq<seq<string>>)
    requires forall p :: 0 <= p < |partitions| ==> partitions[p] == []
    ensures IsGreedyOutcome([], partitions)
  {
    assert IsGreedy(WeightsOf([]), [], |partitions|) && IsOutcome([], [], partitions);
  }

  lemma EndFacts(buckets: seq<Bucket>, items: seq<Weighted>, choices: seq<nat>, partitions: seq<seq<string>>)
    requires |choices| == |items| && Reflects(buckets, items, choices) && IsGreedy(WeightsOf(items), choices, |buckets|)
    requires |partitions| == |buckets| && forall p :: 0 <= p < |buckets| ==> partitions[p] == buckets[p].files
    ensures IsGreedyOutcome(items, partitions)
  {
    hide IsGreedy, WeightsOf;
    assert IsOutcome(items, choices, partitions);
  }

  /** One turn of the placement loop: the top bucket takes the item and sinks. */
  method PlaceNext(buckets: array<Bucket>, heap: array<nat>, ghost items: seq<Weighted>, ghost t: nat, item: Weighted,
                   ghost choices: seq<nat>)
    returns (ghost choice: nat)
    requires t < |items| && item == items[t] && |choices| == t && heap.Length > 0
    requires IsGreedy(WeightsOf(items[..t]), choices, buckets.Length) && Reflects(buckets[..], items[..t], choices)
    requires IsPermutation(heap[..], buckets.Length)
    requires forall i :: 0 <= i < heap.Length ==> heap[i] < buckets.Length
    requires IsHeap(Keys(buckets[..], heap[..]))
    modifies buckets, heap
    ensures IsGreedy(WeightsOf(items[..t + 1]), choices + [choice], buckets.Length)
    ensures Reflects(buckets[..], items[..t + 1], choices + [choice])
    ensures IsPermutation(heap[..], buckets.Length)
    ensures forall i :: 0 <= i < heap.Length ==> heap[i] < buckets.Length
    ensures IsHeap(Keys(buckets[..], heap[..]))
  {
    hide IsHeap, IsHeapBut, IsPermutation, Reflects, IsGreedy, Keys, WeightsOf, Lighter;
    var top := heap[0];
    choice := top;
    if top >= buckets.Length {
      assert false;
    }
    ghost var before := buckets[..];
    TopIsLightest(before, heap[..], items[..t], choices);
    Placed(before, items, t, choices, top);
    var bucket := buckets[top];
    buckets[top] := Bucket(bucket.sum + item.weight, bucket.files + [item.file]);
    GrownRoot(before, heap[..], buckets[..]);
    SiftDown(buckets, heap, 0);
  }

  /** The heap's root is a bucket that the greedy rule may choose. */
  lemma TopIsLightest(buckets: seq<Bucket>, heap: seq<nat>, items: seq<Weighted>, choices: seq<nat>)
    requires IsPermutation(heap, |buckets|) && |heap| > 0 && |choices| == |items|
    requires forall i :: 0 <= i < |heap| ==> heap[i] < |buckets|
    requires IsHeap(Keys(buckets, heap)) && Reflects(buckets, items, choices)
    ensures forall p :: 0 <= p < |buckets| ==> Lighter(WeightsOf(items), choices, heap[0], p)
  {
    PermutationFacts(heap, |buckets|);
    hide IsHeap, IsPermutation;
    forall p | 0 <= p < |buckets| ensures Lighter(WeightsOf(items), choices, heap[0], p) {
      assert p in heap;
      var j :| 0 <= j < |heap| && heap[j] == p;
      RootIsLeast(Keys(buckets, heap), j);
      assert AtMost(buckets[heap[0]], buckets[p]);
    }
  }

  /** Placing the next item in the top bucket is the next greedy choice. */
  lemma Placed(before: seq<Bucket>, items: seq<Weighted>, t: nat, choices: seq<nat>, top: nat)
    requires t < |items| && |choices| == t && top < |before|
    requires Reflects(before, items[..t], choices) && IsGreedy(WeightsOf(items[..t]), choices, |before|)
    requires forall p :: 0 <= p < |before| ==> Lighter(WeightsOf(items[..t]), choices, top, p)
    ensures Reflects(before[top := Bucket(before[top].sum + items[t].weight, before[top].files + [items[t].file])],
                     items[..t + 1], choices + [top])
    ensures IsGreedy(WeightsOf(items[..t + 1]), choices + [top], |before|)
  {
    var now, next := items[..t], items[..t + 1];
    var w, c := WeightsOf(next), choices + [top];
    assert next[..t] == now && w[..t] == WeightsOf(now) && c[..t] == choices;
    forall i, p | 0 <= i < |w| && 0 <= p < |before| ensures Lighter(w[..i], c[..i], c[i], p) {
      if i < t {
        assert w[..i] == WeightsOf(now)[..i] && c[..i] == choices[..i];
      }
    }
    forall p | 0 <= p < |before| ensures Count(c, p) == Count(choices, p) + (if p == top then 1.0 else 0.0) {
      CountStep(c, p);
    }
  }

  /** Only the root bucket has grown, so only the root may be out of order. */
  lemma GrownRoot(before: seq<Bucket>, heap: seq<nat>, after: seq<Bucket>)
    requires IsPermutation(heap, |before|) && |heap| > 0 && |after| == |before|
    requires forall i :: 0 <= i < |heap| ==> heap[i] < |before|
    requires forall p :: 0 <= p < |before| && p != heap[0] ==> after[p] == before[p]
    requires IsHeap(Keys(before, heap))
    ensures IsHeapBut(Keys(after, heap), 0)
  {
    PermutationFacts(heap, |before|);
    var old', new' := Keys(before, heap), Keys(after, heap);
    forall j | 0 < j < |heap| && Parent(j) != 0 ensures AtMost(new'[Parent(j)], new'[j]) {
      assert AtMost(old'[Parent(j)], old'[j]);
    }
  }

  // ----- what the assignment guarantees, in terms of the files -----

  /** `partitionWeight`. */
  function PartitionWeight(files: seq<string>, weights: map<string, real>): real {
    if files == [] then 0.0
    else PartitionWeight(files[..|files| - 1], weights) + WeightOf(weights, files[|files| - 1])
  }

  /** Every file of every list, counted as often as it occurs. */
  ghost function AllOf(lists: seq<seq<string>>): multiset<string> {
    if lists == [] then multiset{} else AllOf(lists[..|lists| - 1]) + multiset(lists[|lists| - 1])
  }

  ghost predicate Carries(items: seq<Weighted>, weights: map<string, real>) {
    forall i :: 0 <= i < |items| ==> items[i].weight == WeightOf(weights, items[i].file)
  }

  /** The queue is the given files with their weights, heaviest first. */
  lemma QueueFacts(files: seq<string>, weights: map<string, real>, locale: (string, string) -> int)
    requires Consistent(HeavierFirst(locale))
    ensures multiset(FilesOf(Queue(files, weights, locale))) == multiset(files)
    ensures Carries(Queue(files, weights, locale), weights) && Descending(WeightsOf(Queue(files, weights, locale)))
  {
    var items, queue := Weigh(files, weights), Queue(files, weights, locale);
    SortBySorts(items, HeavierFirst(locale));
    hide Consistent, SortBy, CompareWeighted;
    SortedDescends(queue, locale);
    hide Sorted, Descending;
    forall i | 0 <= i < |queue| ensures queue[i].weight == WeightOf(weights, queue[i].file) {
      assert queue[i] in items;
    }
    assert FilesOf(items) == files;
    MappedPermutes(queue, items, FileOfItem);
  }

  /** A file is queued with its recorded duration, or with one where none is recorded. */
  lemma QueuedWeight(files: seq<string>, weights: map<string, real>, locale: (string, string) -> int, i: nat)
    requires IsCollation(locale) && i < |files|
    ensures var item := Queue(files, weights, locale)[i];
            item.file in files && item.weight == if item.file in weights then weights[item.file] else 1.0
  {
    HeavierFirstConsistent(locale);
    SortBySorts(Weigh(files, weights), HeavierFirst(locale));
    hide Consistent, SortBy, IsCollation;
    assert Queue(files, weights, locale)[i] in Weigh(files, weights);
  }

  /** Heavier files first, and files of one weight in the order of their names. */
  lemma QueueOrder(files: seq<string>, weights: map<string, real>, locale: (string, string) -> int, i: nat, j: nat)
    requires IsCollation(locale) && i < j < |files|
    ensures var a, b := Queue(files, weights, locale)[i], Queue(files, weights, locale)[j];
            a.weight > b.weight || (a.weight == b.weight && locale(a.file, b.file) <= 0)
  {
    HeavierFirstConsistent(locale);
    SortBySorts(Weigh(files, weights), HeavierFirst(locale));
    hide Consistent, SortBy, IsCollation;
    var queue := Queue(files, weights, locale);
    assert HeavierFirst(locale)(queue[i], queue[j]) <= 0;
  }

  lemma SortedDescends(queue: seq<Weighted>, locale: (string, string) -> int)
    requires Sorted(queue, HeavierFirst(locale))
    ensures Descending(WeightsOf(queue))
  {
    forall i, j | 0 <= i < j < |queue| ensures queue[i].weight >= queue[j].weight {
      assert HeavierFirst(locale)(queue[i], queue[j]) <= 0;
    }
  }

  lemma {:induction false} PartWeight(items: seq<Weighted>, choices: seq<nat>, p: nat, weights: map<string, real>)
    requires |choices| == |items| && Carries(items, weights)
    ensures PartitionWeight(PartOf(items, choices, p), weights) == Load(WeightsOf(items), choices, p)
    ensures |PartOf(items, choices, p)| as real == Count(choices, p)
  {
    if items != [] {
      var n := |items| - 1;
      PartWeight(items[..n], choices[..n], p, weights);
      CountStep(choices, p);
      assert WeightsOf(items)[..n] == WeightsOf(items[..n]);
      var rest, all := PartOf(items[..n], choices[..n], p), PartOf(items, choices, p);
      if choices[n] != p {
        assert all == rest;
      } else {
        assert all == rest + [items[n].file];
        assert all[..|all| - 1] == rest && all[|all| - 1] == items[n].file;
      }
    } else {
      CountPositive(choices, p);
    }
  }

  // ----- every file exactly once -----

  ghost function AllParts(items: seq<Weighted>, choices: seq<nat>, k: nat): multiset<string>
    requires |choices| == |items|
  {
    if k == 0 then multiset{} else AllParts(items, choices, k - 1) + multiset(PartOf(items, choices, k - 1))
  }

  lemma PartStep(items: seq<Weighted>, choices: seq<nat>, p: nat)
    requires |choices| == |items| > 0
    ensures var n := |items| - 1;
            multiset(PartOf(items, choices, p))
            == multiset(PartOf(items[..n], choices[..n], p))
               + (if choices[n] == p then multiset{items[n].file} else multiset{})
  {
  }

  lemma {:induction false} AllPartsStep(items: seq<Weighted>, choices: seq<nat>, k: nat)
    requires |choices| == |items| > 0
    ensures var n := |items| - 1;
            AllParts(items, choices, k)
            == AllParts(items[..n], choices[..n], k) + (if choices[n] < k then multiset{items[n].file} else multiset{})
  {
    hide PartOf;
    if k > 0 {
      PartStep(items, choices, k - 1);
      AllPartsStep(items, choices, k - 1);
    }
  }

  lemma {:induction false} AllPartsConserve(items: seq<Weighted>, choices: seq<nat>, m: nat)
    requires IsAssignment(choices, |items|, m)
    ensures AllParts(items, choices, m) == multiset(FilesOf(items))
  {
    if items == [] {
      NoParts(m);
    } else {
      var n := |items| - 1;
      AllPartsConserve(items[..n], choices[..n], m);
      AllPartsStep(items, choices, m);
      assert FilesOf(items) == FilesOf(items[..n]) + [items[n].file];
    }
  }

  lemma {:induction false} NoParts(k: nat)
    ensures AllParts([], [], k) == multiset{}
  {
    if k > 0 {
      NoParts(k - 1);
    }
  }

  lemma {:induction false} AllOfParts(items: seq<Weighted>, choices: seq<nat>, partitions: seq<seq<string>>)
    requires IsOutcome(items, choices, partitions)
    ensures AllOf(partitions) == AllParts(items, choices, |partitions|)
  {
    if partitions != [] {
      AllOfParts(items, choices, partitions[..|partitions| - 1]);
    }
  }

  /** Every inventory file lands in exactly one partition, as often as it was listed. */
  lemma AssignmentConserves(
    files: seq<string>, weights: map<string, real>, locale: (string, string) -> int, partitions: seq<seq<string>>)
    requires IsCollation(locale) && IsGreedyOutcome(Queue(files, weights, locale), partitions)
    ensures AllOf(partitions) == multiset(files)
  {
    var items := Queue(files, weights, locale);
    var choices := ChoicesOf(items, partitions);
    HeavierFirstConsistent(locale);
    QueueFacts(files, weights, locale);
    AllPartsConserve(items, choices, |partitions|);
    AllOfParts(items, choices, partitions);
  }

  lemma HeavierFirstConsistent(locale: (string, string) -> int)
    requires IsCollation(locale)
    ensures Consistent(HeavierFirst(locale))
  {
  }

  // ----- balance -----

  ghost predicate NonNegativeWeights(files: seq<string>, weights: map<string, real>) {
    forall f :: f in files ==> WeightOf(weights, f) >= 0.0
  }

  lemma QueueNonNegative(files: seq<string>, weights: map<string, real>, locale: (string, string) -> int)
    requires Consistent(HeavierFirst(locale)) && NonNegativeWeights(files, weights)
    ensures NonNegative(WeightsOf(Queue(files, weights, locale)))
    ensures forall i :: 0 <= i < |Queue(files, weights, locale)| ==> Queue(files, weights, locale)[i].file in files
  {
    QueueFacts(files, weights, locale);
    var items := Queue(files, weights, locale);
    SameElements(FilesOf(items), files);
    hide Consistent, Queue;
    forall i | 0 <= i < |items| ensures items[i].file in files {
      assert FilesOf(items)[i] in FilesOf(items);
    }
  }

  /** The total weight does not depend on the order of the files. */
  lemma {:induction false} WeightOfPermutation(s: seq<string>, t: seq<string>, weights: map<string, real>)
    requires multiset(s) == multiset(t)
    ensures PartitionWeight(s, weights) == PartitionWeight(t, weights)
  {
    PermutedLength(s, t);
    if s != [] {
      var n := |s| - 1;
      var i := FindLast(s, t);
      WeightOfPermutation(s[..n], t[..i] + t[i + 1..], weights);
      WeightRemove(t, i, weights);
    }
  }

  lemma {:induction false} WeightRemove(s: seq<string>, i: nat, weights: map<string, real>)
    requires i < |s|
    ensures PartitionWeight(s, weights) == PartitionWeight(s[..i] + s[i + 1..], weights) + WeightOf(weights, s[i])
  {
    var n := |s| - 1;
    var rest := s[..i] + s[i + 1..];
    if i == n {
      assert rest == s[..n];
    } else {
      WeightRemove(s[..n], i, weights);
      assert rest[..|rest| - 1] == s[..n][..i] + s[..n][i + 1..];
      assert rest[|rest| - 1] == s[n];
    }
  }

  lemma {:induction false} SumIsWeight(items: seq<Weighted>, weights: map<string, real>)
    requires Carries(items, weights)
    ensures Sum(WeightsOf(items)) == PartitionWeight(FilesOf(items), weights)
  {
    if items != [] {
      var n := |items| - 1;
      SumIsWeight(items[..n], weights);
      assert WeightsOf(items)[..n] == WeightsOf(items[..n]);
      assert FilesOf(items)[..n] == FilesOf(items[..n]);
    }
  }

  lemma LengthOfWeights(items: seq<Weighted>)
    ensures |WeightsOf(items)| == |items|
  {
  }

  lemma CarriedAtMost(items: seq<Weighted>, files: seq<string>, weights: map<string, real>, heaviest: real)
    requires Carries(items, weights) && forall f :: f in files ==> WeightOf(weights, f) <= heaviest
    requires forall i :: 0 <= i < |items| ==> items[i].file in files
    ensures forall i :: 0 <= i < |items| ==> WeightsOf(items)[i] <= heaviest
  {
  }

  /** m times the heaviest partition is at most the total weight plus m - 1 times the heaviest file. */
  lemma HeaviestBounded(
    files: seq<string>, weights: map<string, real>, locale: (string, string) -> int, partitions: seq<seq<string>>,
    p: nat, heaviest: real)
    requires IsCollation(locale) && NonNegativeWeights(files, weights)
    requires IsGreedyOutcome(Queue(files, weights, locale), partitions) && p < |partitions|
    requires heaviest >= 0.0 && forall f :: f in files ==> WeightOf(weights, f) <= heaviest
    ensures Times(|partitions|, PartitionWeight(partitions[p], weights))
            <= PartitionWeight(files, weights) + Times(|partitions| - 1, heaviest)
  {
    hide *;
    var items := Queue(files, weights, locale);
    var choices := ChoicesOf(items, partitions);
    HeavierFirstConsistent(locale);
    QueueFacts(files, weights, locale);
    QueueNonNegative(files, weights, locale);
    LengthOfWeights(items);
    CarriedAtMost(items, files, weights, heaviest);
    ListBound(WeightsOf(items), choices, |partitions|, p, heaviest);
    PartWeight(items, choices, p, weights);
    SumIsWeight(items, weights);
    WeightOfPermutation(FilesOf(items), files, weights);
  }

  /** Any way to distribute the queued files over lists is an assignment of the queue. */
  lemma {:induction false} AsAssignment(items: seq<Weighted>, lists: seq<seq<string>>, weights: map<string, real>)
    returns (a: seq<nat>)
    requires Carries(items, weights) && AllOf(lists) == multiset(FilesOf(items))
    ensures |a| == |items| && IsAssignment(a, |items|, |lists|)
    ensures LoadsAre(items, a, lists, weights)
  {
    hide LoadsAre, AllOf, FilesOf, Carries;
    if items == [] {
      a := [];
      NoFiles(lists, weights);
    } else {
      var n := |items| - 1;
      LastFile(items, lists, weights);
      var q, i := FindIn(lists, items[n].file);
      RemoveFrom(lists, q, i);
      var b := AsAssignment(items[..n], lists[q := Without(lists[q], i)], weights);
      a := b + [q];
      PutBack(items, lists, q, i, b, weights);
    }
  }

  /** Every list weighs what the assignment loads it with. */
  ghost predicate LoadsAre(items: seq<Weighted>, a: seq<nat>, lists: seq<seq<string>>, weights: map<string, real>)
    requires |a| == |items|
  {
    forall q :: 0 <= q < |lists| ==> Load(WeightsOf(items), a, q) == PartitionWeight(lists[q], weights)
  }

  function Without(list: seq<string>, i: nat): seq<string>
    requires i < |list|
  {
    list[..i] + list[i + 1..]
  }

  lemma NoFiles(lists: seq<seq<string>>, weights: map<string, real>)
    requires AllOf(lists) == multiset(FilesOf([]))
    ensures LoadsAre([], [], lists, weights)
  {
    forall q | 0 <= q < |lists| ensures lists[q] == [] {
      InAllOf(lists, q);
      assert |multiset(lists[q])| == 0;
    }
  }

  lemma LastFile(items: seq<Weighted>, lists: seq<seq<string>>, weights: map<string, real>)
    requires items != [] && Carries(items, weights) && AllOf(lists) == multiset(FilesOf(items))
    ensures var n := |items| - 1;
            && items[n].weight == WeightOf(weights, items[n].file) && Carries(items[..n], weights)
            && items[n].file in AllOf(lists)
            && AllOf(lists) - multiset{items[n].file} == multiset(FilesOf(items[..n]))
  {
    hide AllOf;
    var n := |items| - 1;
    assert FilesOf(items) == FilesOf(items[..n]) + [items[n].file];
  }

  /** A list that gets a file back weighs that much more. */
  lemma PutBack(
    items: seq<Weighted>, lists: seq<seq<string>>, q: nat, i: nat, b: seq<nat>, weights: map<string, real>)
    requires |items| == |b| + 1 && q < |lists| && i < |lists[q]| && lists[q][i] == items[|b|].file
    requires items[|b|].weight == WeightOf(weights, lists[q][i])
    requires LoadsAre(items[..|b|], b, lists[q := Without(lists[q], i)], weights)
    ensures LoadsAre(items, b + [q], lists, weights)
  {
    hide Load, PartitionWeight, WeightsOf;
    WeightRemove(lists[q], i, weights);
    var fewer := lists[q := Without(lists[q], i)];
    forall p | 0 <= p < |lists| ensures Load(WeightsOf(items), b + [q], p) == PartitionWeight(lists[p], weights) {
      LoadAppend(items, b, q, p);
      assert Load(WeightsOf(items[..|b|]), b, p) == PartitionWeight(fewer[p], weights);
    }
  }

  lemma LoadBound(
    items: seq<Weighted>, a: seq<nat>, lists: seq<seq<string>>, weights: map<string, real>, roof: real)
    requires |a| == |items| && LoadsAre(items, a, lists, weights)
    requires forall q :: 0 <= q < |lists| ==> PartitionWeight(lists[q], weights) <= roof
    ensures forall q :: 0 <= q < |lists| ==> Load(WeightsOf(items), a, q) <= roof
  {
    hide Load, PartitionWeight, WeightsOf;
  }

  lemma LoadAppend(items: seq<Weighted>, b: seq<nat>, q: nat, p: nat)
    requires |items| == |b| + 1
    ensures var n := |b|;
            Load(WeightsOf(items), b + [q], p)
            == Load(WeightsOf(items[..n]), b, p) + (if p == q then items[n].weight else 0.0)
  {
    var n := |b|;
    assert (b + [q])[..n] == b && WeightsOf(items)[..n] == WeightsOf(items[..n]);
  }

  lemma {:induction false} InAllOf(lists: seq<seq<string>>, q: nat)
    requires q < |lists|
    ensures multiset(lists[q]) <= AllOf(lists)
  {
    if q < |lists| - 1 {
      InAllOf(lists[..|lists| - 1], q);
    }
  }

  lemma {:induction false} FindIn(lists: seq<seq<string>>, file: string) returns (q: nat, i: nat)
    requires file in AllOf(lists)
    ensures q < |lists| && i < |lists[q]| && lists[q][i] == file
  {
    var n := |lists| - 1;
    if file in lists[n] {
      q := n;
      i :| 0 <= i < |lists[n]| && lists[n][i] == file;
    } else {
      q, i := FindIn(lists[..n], file);
    }
  }

  lemma Regroup<T>(a: multiset<T>, b: multiset<T>, c: multiset<T>, d: multiset<T>, more: multiset<T>)
    requires a + b == c + d
    ensures (a + more) + b == (c + more) + d
  {
    assert (a + more) + b == (a + b) + more;
  }

  /** Exchanging one list exchanges its files. */
  lemma {:induction false} Exchanged(lists: seq<seq<string>>, q: nat, list: seq<string>)
    requires q < |lists|
    ensures AllOf(lists[q := list]) + multiset(lists[q]) == AllOf(lists) + multiset(list)
  {
    var n := |lists| - 1;
    var changed := lists[q := list];
    if q == n {
      assert changed[..n] == lists[..n];
    } else {
      Exchanged(lists[..n], q, list);
      assert changed[..n] == lists[..n][q := list];
      Regroup(AllOf(changed[..n]), multiset(lists[q]), AllOf(lists[..n]), multiset(list), multiset(lists[n]));
    }
  }

  lemma Cancel<T>(a: multiset<T>, b: multiset<T>, rest: multiset<T>, x: T)
    requires a + (rest + multiset{x}) == b + rest
    ensures a == b - multiset{x} && x in b
  {
    assert (a + (rest + multiset{x}))[x] == (b + rest)[x];
    forall y ensures a[y] == (b - multiset{x})[y] {
      assert (a + (rest + multiset{x}))[y] == (b + rest)[y];
    }
  }

  lemma RemoveFrom(lists: seq<seq<string>>, q: nat, i: nat)
    requires q < |lists| && i < |lists[q]|
    ensures AllOf(lists[q := Without(lists[q], i)]) == AllOf(lists) - multiset{lists[q][i]}
  {
    hide AllOf;
    Exchanged(lists, q, Without(lists[q], i));
    RemoveAt(lists[q], i);
    Cancel(AllOf(lists[q := Without(lists[q], i)]), AllOf(lists), multiset(Without(lists[q], i)), lists[q][i]);
  }

  /**
   3m times the heaviest partition is at most 4m - 1 times the heaviest list of any other way to distribute
   the same files over m lists.
   */
  lemma NearOptimal(
    files: seq<string>, weights: map<string, real>, locale: (string, string) -> int, partitions: seq<seq<string>>,
    p: nat, other: seq<seq<string>>, roof: real)
    requires IsCollation(locale) && NonNegativeWeights(files, weights)
    requires IsGreedyOutcome(Queue(files, weights, locale), partitions) && p < |partitions|
    requires |other| == |partitions| && AllOf(other) == multiset(files)
    requires forall q :: 0 <= q < |other| ==> PartitionWeight(other[q], weights) <= roof
    ensures 3.0 * Times(|partitions|, PartitionWeight(partitions[p], weights)) <= 4.0 * Times(|partitions|, roof) - roof
  {
    hide *;
    var items := Queue(files, weights, locale);
    var choices := ChoicesOf(items, partitions);
    HeavierFirstConsistent(locale);
    QueueFacts(files, weights, locale);
    QueueNonNegative(files, weights, locale);
    LengthOfWeights(items);
    var a := AsAssignment(items, other, weights);
    LoadBound(items, a, other, weights, roof);
    LptBound(WeightsOf(items), choices, |partitions|, p, a, roof);
    PartWeight(items, choices, p, weights);
  }

  // ----- empty partitions -----

  /** The check that refuses a run with an empty partition. */
  predicate HasEmpty(assignments: seq<seq<string>>) {
    exists i :: 0 <= i < |assignments| && assignments[i] == []
  }

  /**
   Exactly when the run is refused, whatever the recorded weights: there are fewer files than partitions, or
   one of the m - 1 heaviest files has a negative weight.
   */
  lemma RefusedIff(
    files: seq<string>, weights: map<string, real>, locale: (string, string) -> int, partitions: seq<seq<string>>)
    requires IsCollation(locale) && IsGreedyOutcome(Queue(files, weights, locale), partitions)
    ensures var m, queue := |partitions|, Queue(files, weights, locale);
            HasEmpty(partitions) <==> |files| < m || (m >= 2 && queue[m - 2].weight < 0.0)
  {
    hide IsCollation, Queue, IsGreedy, IsGreedyOutcome, Consistent, Descending, Load;
    var items := Queue(files, weights, locale);
    var choices := ChoicesOf(items, partitions);
    HeavierFirstConsistent(locale);
    QueueFacts(files, weights, locale);
    NonEmptyIff(WeightsOf(items), choices, |partitions|);
    forall p | 0 <= p < |partitions| ensures p in choices <==> partitions[p] != [] {
      PartWeight(items, choices, p, weights);
      CountPositive(choices, p);
    }
  }

  /** The documented case: durations are not negative, and the run is refused just when files are scarce. */
  lemma RefusedIffScarce(
    files: seq<string>, weights: map<string, real>, locale: (string, string) -> int, partitions: seq<seq<string>>)
    requires IsCollation(locale) && NonNegativeWeights(files, weights)
    requires IsGreedyOutcome(Queue(files, weights, locale), partitions)
    ensures HasEmpty(partitions) <==> |files| < |partitions|
  {
    RefusedIff(files, weights, locale, partitions);
    HeavierFirstConsistent(locale);
    QueueNonNegative(files, weights, locale);
    QueueFacts(files, weights, locale);
  }

  // ----- the order of the partitions, and the projects inside each -----

  function CompareHeavier(a: seq<string>, b: seq<string>, weights: map<string, real>): int {
    if PartitionWeight(b, weights) < PartitionWeight(a, weights) then -1
    else if PartitionWeight(b, weights) > PartitionWeight(a, weights) then 1
    else 0
  }

  function ByWeight(weights: map<string, real>): (seq<string>, seq<string>) -> int {
    (a, b) => CompareHeavier(a, b, weights)
  }

  /** The end of `assignFiles`: the heaviest partition first. */
  function HeaviestFirst(partitions: seq<seq<string>>, weights: map<string, real>): seq<seq<string>> {
    SortBy(partitions, ByWeight(weights))
  }

  /** Every `\\` becomes `/`. */
  function Slashed(file: string): (slashed: string)
    ensures |slashed| == |file|
    ensures forall i :: 0 <= i < |file| ==> slashed[i] == if file[i] == '\\' then '/' else file[i]
  {
    if file == "" then "" else [if file[0] == '\\' then '/' else file[0]] + Slashed(file[1..])
  }

  function SlashedAll(files: seq<string>): seq<string> {
    Mapped(files, Slashed)
  }

  predicate IsProcessBound(file: string, projectOf: map<string, string>) {
    file in projectOf && projectOf[file] == "process-bound"
  }

  /** One project's `include` list of a partition. */
  function Include(files: seq<string>, projectOf: map<string, string>, processBound: bool): seq<string> {
    if files == [] then []
    else
      var n := |files| - 1;
      Include(files[..n], projectOf, processBound)
      + (if IsProcessBound(files[n], projectOf) == processBound then [Slashed(files[n])] else [])
  }

  lemma OneMore<T>(s: seq<T>, x: T)
    ensures multiset(s + [x]) == multiset(s) + multiset{x}
  {
  }

  lemma SlashedLast(files: seq<string>, file: string)
    ensures SlashedAll(files + [file]) == SlashedAll(files) + [Slashed(file)]
  {
    hide Slashed;
  }

  lemma IncludeLast(files: seq<string>, file: string, projectOf: map<string, string>, processBound: bool)
    ensures Include(files + [file], projectOf, processBound)
         == Include(files, projectOf, processBound)
            + (if IsProcessBound(file, projectOf) == processBound then [Slashed(file)] else [])
  {
    hide Slashed, IsProcessBound;
    assert (files + [file])[..|files|] == files;
  }

  /** The two lists of one partition hold each of its files once, in one of them. */
  lemma {:induction false} ProjectsSplit(files: seq<string>, projectOf: map<string, string>)
    ensures multiset(Include(files, projectOf, true)) + multiset(Include(files, projectOf, false))
            == multiset(SlashedAll(files))
  {
    if files != [] {
      hide Include, SlashedAll, IsProcessBound, Slashed;
      var n := |files| - 1;
      var rest, file := files[..n], files[n];
      assert files == rest + [file];
      ProjectsSplit(rest, projectOf);
      IncludeLast(rest, file, projectOf, true);
      IncludeLast(rest, file, projectOf, false);
      SlashedLast(rest, file);
      OneMore(SlashedAll(rest), Slashed(file));
      var processBound, threadSafe := Include(rest, projectOf, true), Include(rest, projectOf, false);
      if IsProcessBound(file, projectOf) {
        OneMore(processBound, Slashed(file));
        assert threadSafe + [] == threadSafe;
      } else {
        OneMore(threadSafe, Slashed(file));
        assert processBound + [] == processBound;
      }
    }
  }

  /** The positions of the files that `projectOf` maps to "process-bound", or of all others, unmapped ones included. */
  ghost predicate AreBound(files: seq<string>, projectOf: map<string, string>, processBound: bool, at: seq<nat>) {
    forall i: nat :: i < |files| ==>
      (i in at <==> (files[i] in projectOf && projectOf[files[i]] == "process-bound") == processBound)
  }

  lemma NoMoreBound(
    files: seq<string>, file: string, projectOf: map<string, string>, processBound: bool, chosen: seq<string>,
    at: seq<nat>)
    requires AreBound(files, projectOf, processBound, at) && IsSelection(files, chosen, at)
    ensures var more := (file in projectOf && projectOf[file] == "process-bound") == processBound;
            AreBound(files + [file], projectOf, processBound, if more then at + [|files|] else at)
  {
  }

  /**
   One list holds the files that `projectOf` maps to "process-bound", the other all the others; both in the order of
   the partition, with slashes.
   */
  lemma {:induction false} IncludeIs(files: seq<string>, projectOf: map<string, string>, processBound: bool)
    returns (chosen: seq<string>, at: seq<nat>)
    ensures Include(files, projectOf, processBound) == SlashedAll(chosen)
    ensures IsSelection(files, chosen, at) && AreBound(files, projectOf, processBound, at)
  {
    if files == [] {
      chosen, at := [], [];
    } else {
      hide SlashedAll, Slashed, Include, AreBound, IsSelection;
      var n := |files| - 1;
      var rest, file := files[..n], files[n];
      assert files == rest + [file];
      chosen, at := IncludeIs(rest, projectOf, processBound);
      IncludeLast(rest, file, projectOf, processBound);
      SelectionKeeps(rest, chosen, at, file);
      NoMoreBound(rest, file, projectOf, processBound, chosen, at);
      if (file in projectOf && projectOf[file] == "process-bound") == processBound {
        SlashedLast(chosen, file);
        chosen, at := chosen + [file], at + [n];
      }
    }
  }

  ghost function AllIncludes(partitions: seq<seq<string>>, projectOf: map<string, string>): multiset<string> {
    if partitions == [] then multiset{}
    else
      var n := |partitions| - 1;
      AllIncludes(partitions[..n], projectOf)
      + multiset(Include(partitions[n], projectOf, true)) + multiset(Include(partitions[n], projectOf, false))
  }

  ghost function Concatenated(lists: seq<seq<string>>): (all: seq<string>)
    ensures multiset(all) == AllOf(lists)
  {
    if lists == [] then [] else Concatenated(lists[..|lists| - 1]) + lists[|lists| - 1]
  }

  lemma {:induction false} IncludesAll(partitions: seq<seq<string>>, projectOf: map<string, string>)
    ensures AllIncludes(partitions, projectOf) == multiset(SlashedAll(Concatenated(partitions)))
  {
    if partitions != [] {
      hide Include, Slashed;
      var n := |partitions| - 1;
      IncludesAll(partitions[..n], projectOf);
      ProjectsSplit(partitions[n], projectOf);
      SlashedAppend(Concatenated(partitions[..n]), partitions[n]);
    }
  }

  lemma SlashedAppend(s: seq<string>, t: seq<string>)
    ensures multiset(SlashedAll(s + t)) == multiset(SlashedAll(s)) + multiset(SlashedAll(t))
  {
    assert SlashedAll(s + t) == SlashedAll(s) + SlashedAll(t);
  }

  /** Across all partitions and both projects, every inventory file is included exactly once. */
  lemma EveryFileRunsOnce(
    files: seq<string>, weights: map<string, real>, locale: (string, string) -> int, partitions: seq<seq<string>>,
    projectOf: map<string, string>)
    requires IsCollation(locale) && IsGreedyOutcome(Queue(files, weights, locale), partitions)
    ensures AllIncludes(HeaviestFirst(partitions, weights), projectOf) == multiset(SlashedAll(files))
  {
    AssignmentConserves(files, weights, locale, partitions);
    HeaviestFirstPermutes(partitions, weights);
    IncludesAll(HeaviestFirst(partitions, weights), projectOf);
    MappedPermutes(Concatenated(HeaviestFirst(partitions, weights)), files, Slashed);
  }

  lemma HeavierConsistent(weights: map<string, real>)
    ensures Consistent(ByWeight(weights))
  {
    hide PartitionWeight;
  }

  lemma SortedIsHeaviestFirst(s: seq<seq<string>>, weights: map<string, real>, i: nat, j: nat)
    requires Sorted(s, ByWeight(weights)) && i < j < |s|
    ensures PartitionWeight(s[i], weights) >= PartitionWeight(s[j], weights)
  {
    hide PartitionWeight;
    assert ByWeight(weights)(s[i], s[j]) <= 0;
  }

  /** Reordering the partitions keeps every file. */
  lemma HeaviestFirstPermutes(partitions: seq<seq<string>>, weights: map<string, real>)
    ensures AllOf(HeaviestFirst(partitions, weights)) == AllOf(partitions)
    ensures forall i, j :: 0 <= i < j < |partitions| ==>
              PartitionWeight(HeaviestFirst(partitions, weights)[i], weights)
              >= PartitionWeight(HeaviestFirst(partitions, weights)[j], weights)
  {
    hide PartitionWeight, SortBy, AllOf, Sorted, Consistent, ByWeight;
    var sorted := HeaviestFirst(partitions, weights);
    HeavierConsistent(weights);
    SortBySorts(partitions, ByWeight(weights));
    AllOfPermutes(sorted, partitions);
    forall i, j | 0 <= i < j < |partitions|
      ensures PartitionWeight(sorted[i], weights) >= PartitionWeight(sorted[j], weights)
    {
      SortedIsHeaviestFirst(sorted, weights, i, j);
    }
  }

  /** Partitions of one weight keep their order. */
  lemma HeaviestFirstStable(partitions: seq<seq<string>>, weights: map<string, real>, weight: real)
    ensures var ties := files => PartitionWeight(files, weights) == weight;
            Among(HeaviestFirst(partitions, weights), ties) == Among(partitions, ties)
  {
    SortByStable(partitions, ByWeight(weights), files => PartitionWeight(files, weights) == weight);
  }

  lemma {:induction false} AllOfPermutes(s: seq<seq<string>>, t: seq<seq<string>>)
    requires multiset(s) == multiset(t)
    ensures AllOf(s) == AllOf(t)
  {
    PermutedLength(s, t);
    if s != [] {
      var n := |s| - 1;
      var i := FindLast(s, t);
      AllOfPermutes(s[..n], t[..i] + t[i + 1..]);
      AllOfRemove(t, i);
    }
  }

  lemma AllOfLast(s: seq<seq<string>>, last: seq<string>)
    ensures AllOf(s + [last]) == AllOf(s) + multiset(last)
  {
    assert (s + [last])[..|s|] == s;
  }

  lemma {:induction false} AllOfRemove(s: seq<seq<string>>, i: nat)
    requires i < |s|
    ensures AllOf(s) == AllOf(s[..i] + s[i + 1..]) + multiset(s[i])
  {
    hide AllOf;
    var n := |s| - 1;
    var rest := s[..i] + s[i + 1..];
    assert s == s[..n] + [s[n]];
    AllOfLast(s[..n], s[n]);
    if i == n {
      assert rest == s[..n];
    } else {
      AllOfRemove(s[..n], i);
      var fewer := s[..n][..i] + s[..n][i + 1..];
      assert rest == fewer + [s[n]];
      AllOfLast(fewer, s[n]);
    }
  }
}
