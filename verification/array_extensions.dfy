/**
  The `Array` and `Collection` extensions of SwiftLintCore: order-preserving
  deduplication, grouping into dictionaries, partitioning, and the "parallel"
  map family. A Swift array is a value, so it is a `seq` here; the one place
  where the source fills a pre-sized buffer slot by slot (`parallelMap`) and
  the one place where it rearranges a copy in place (`partitioned`) use a
  Dafny `array`. The concurrent work of the "parallel" operations is modelled
  as a sequential loop over the same index-partitioned writes.
*/
module ArrayExtensions {
  import opened Wrappers

  // ---------------------------------------------------------------------------
  // General sequence facts used across the model
  // ---------------------------------------------------------------------------

  /** No element occurs twice. */
  ghost predicate NoDuplicates<T>(s: seq<T>) {
    forall i, j :: 0 <= i < j < |s| ==> s[i] != s[j]
  }

  /** `a` is obtained from `b` by dropping some elements, keeping the order of the rest. */
  ghost predicate IsSubsequence<T>(a: seq<T>, b: seq<T>)
    decreases |b|
  {
    a == [] || (b != [] && ((a[0] == b[0] && IsSubsequence(a[1..], b[1..])) || IsSubsequence(a, b[1..])))
  }

  /** Position of the first occurrence of `x` in `s`. */
  function FirstIndex<T(==)>(s: seq<T>, x: T): (i: nat)
    requires x in s
    ensures i < |s| && s[i] == x && x !in s[..i]
  {
    if s[0] == x then 0
    else
      var j := FirstIndex(s[1..], x);
      assert s[..j + 1] == [s[0]] + s[1..][..j];
      j + 1
  }

  /** Appending an element after the end does not move an earlier first occurrence. */
  lemma FirstIndexExtend<T>(s: seq<T>, y: T, x: T)
    requires x in s
    ensures x in s + [y] && FirstIndex(s + [y], x) == FirstIndex(s, x)
  {
    var i, j := FirstIndex(s, x), FirstIndex(s + [y], x);
    assert (s + [y])[..j] == s[..j];
  }

  /** Swift's `filter`: the elements satisfying `keep`, in order. */
  function Filtered<T>(s: seq<T>, keep: T -> bool): (r: seq<T>)
    ensures forall i :: 0 <= i < |r| ==> r[i] in s && keep(r[i])
    ensures forall i :: 0 <= i < |s| && keep(s[i]) ==> s[i] in r
    ensures NoDuplicates(s) ==> NoDuplicates(r)
    ensures IsSubsequence(r, s)
  {
    if s == [] then []
    else
      var rest := Filtered(s[1..], keep);
      if keep(s[0]) then
        assert NoDuplicates(s) ==> s[0] !in s[1..];
        [s[0]] + rest
      else rest
  }

  // ---------------------------------------------------------------------------
  // unique
  // ---------------------------------------------------------------------------

  /**
    The value of `unique`: the elements of `s`, each kept the first time it is
    seen and dropped afterwards. Defined one element at a time, as the loop of
    `unique` visits them; its meaning is stated by the lemmas below.
  */
  function Deduplicated<T(==)>(s: seq<T>): seq<T>
  {
    if s == [] then []
    else
      var kept := Deduplicated(s[..|s| - 1]);
      if s[|s| - 1] in kept then kept else kept + [s[|s| - 1]]
  }

  /** `unique` keeps exactly the elements of its input. */
  lemma {:induction false} DeduplicatedElements<T>(s: seq<T>)
    ensures forall i :: 0 <= i < |Deduplicated(s)| ==> Deduplicated(s)[i] in s
    ensures forall i :: 0 <= i < |s| ==> s[i] in Deduplicated(s)
  {
    if s != [] {
      DeduplicatedElements(s[..|s| - 1]);
      assert s == s[..|s| - 1] + [s[|s| - 1]];
    }
  }

  /** `unique` lists no element twice. */
  lemma {:induction false} DeduplicatedNoDuplicates<T>(s: seq<T>)
    ensures NoDuplicates(Deduplicated(s))
  {
    if s != [] {
      DeduplicatedNoDuplicates(s[..|s| - 1]);
    }
  }

  /**
    `unique` lists the elements in the order of their first occurrences: an
    element listed earlier first occurs earlier in the input.
  */
  lemma {:induction false} DeduplicatedFirstOccurrenceOrder<T>(s: seq<T>)
    ensures forall i, j :: 0 <= i < j < |Deduplicated(s)| ==>
      Deduplicated(s)[i] in s && Deduplicated(s)[j] in s &&
      FirstIndex(s, Deduplicated(s)[i]) < FirstIndex(s, Deduplicated(s)[j])
  {
    DeduplicatedElements(s);
    forall i, j | 0 <= i < j < |Deduplicated(s)|
      ensures FirstIndex(s, Deduplicated(s)[i]) < FirstIndex(s, Deduplicated(s)[j])
    {
      DeduplicatedOrderAt(s, i, j);
    }
  }

  /** The ordering of one pair of listed elements. */
  lemma {:induction false} DeduplicatedOrderAt<T>(s: seq<T>, i: nat, j: nat)
    requires i < j < |Deduplicated(s)|
    ensures Deduplicated(s)[i] in s && Deduplicated(s)[j] in s &&
      FirstIndex(s, Deduplicated(s)[i]) < FirstIndex(s, Deduplicated(s)[j])
  {
    var init, last := s[..|s| - 1], s[|s| - 1];
    assert s == init + [last];
    var kept, d := Deduplicated(init), Deduplicated(s);
    assert d[i] == kept[i] && kept[i] in init by {
      DeduplicatedElements(init);
    }
    FirstIndexExtend(init, last, kept[i]);
    if j < |kept| {
      assert d[j] == kept[j];
      DeduplicatedOrderAt(init, i, j);
      FirstIndexExtend(init, last, kept[j]);
    } else {
      assert last !in kept && d == kept + [last];
      assert last !in init by {
        DeduplicatedElements(init);
      }
      LastFirstIndex(init, last);
    }
  }

  /** An element absent from `s` first occurs at the end of `s + [x]`. */
  lemma LastFirstIndex<T>(s: seq<T>, x: T)
    requires x !in s
    ensures FirstIndex(s + [x], x) == |s|
  {
    var f := FirstIndex(s + [x], x);
  }

  /** `unique`: the loop appending each element not yet collected. */
  method Unique<T(==)>(s: seq<T>) returns (uniqueValues: seq<T>)
    ensures uniqueValues == Deduplicated(s)
    ensures NoDuplicates(uniqueValues)
    ensures forall i :: 0 <= i < |uniqueValues| ==> uniqueValues[i] in s
    ensures forall i :: 0 <= i < |s| ==> s[i] in uniqueValues
  {
    uniqueValues := [];
    for n := 0 to |s|
      invariant uniqueValues == Deduplicated(s[..n])
    {
      assert s[..n + 1][..n] == s[..n];
      if s[n] !in uniqueValues {
        uniqueValues := uniqueValues + [s[n]];
      }
    }
    assert s[..|s|] == s;
    DeduplicatedNoDuplicates(s);
    DeduplicatedElements(s);
  }

  // ---------------------------------------------------------------------------
  // group, filterGroup, parallelFilterGroup
  // ---------------------------------------------------------------------------

  /** The elements of `s` whose key is `k`, in input order: the reference for every grouping. */
  function WithKey<T, U(==)>(s: seq<T>, key: T -> Option<U>, k: U): seq<T>
  {
    if s == [] then []
    else WithKey(s[..|s| - 1], key, k) + (if key(s[|s| - 1]) == Some(k) then [s[|s| - 1]] else [])
  }

  /** An element is in the list for `k` iff it is in the input and its key is `k`. */
  lemma {:induction false} WithKeyMembership<T, U>(s: seq<T>, key: T -> Option<U>, k: U)
    ensures forall i :: 0 <= i < |WithKey(s, key, k)| ==> WithKey(s, key, k)[i] in s && key(WithKey(s, key, k)[i]) == Some(k)
    ensures forall i :: 0 <= i < |s| && key(s[i]) == Some(k) ==> s[i] in WithKey(s, key, k)
  {
    if s != [] {
      WithKeyMembership(s[..|s| - 1], key, k);
      assert s == s[..|s| - 1] + [s[|s| - 1]];
    }
  }

  /** Selecting by key distributes over concatenation, first part first. */
  lemma {:induction false} WithKeyAppend<T, U>(a: seq<T>, b: seq<T>, key: T -> Option<U>, k: U)
    ensures WithKey(a + b, key, k) == WithKey(a, key, k) + WithKey(b, key, k)
    decreases |b|
  {
    if b == [] {
      assert a + b == a;
    } else {
      var b' := b[..|b| - 1];
      assert (a + b)[..|a + b| - 1] == a + b';
      WithKeyAppend(a, b', key, k);
    }
  }

  /**
    The dictionary `filterGroup` builds: each element whose key is not nil is
    appended to the list of its key, creating the list on first use.
  */
  function Grouped<T, U(==)>(s: seq<T>, key: T -> Option<U>): map<U, seq<T>>
  {
    if s == [] then map[]
    else
      var m := Grouped(s[..|s| - 1], key);
      var x := s[|s| - 1];
      match key(x)
      case None => m
      case Some(k) => m[k := (if k in m then m[k] else []) + [x]]
  }

  /**
    `filterGroup` is grouping by key: a key is present iff some element has it
    (so no key maps to an empty list and nil-keyed elements are nowhere), and
    its list holds exactly the elements with that key, in input order.
  */
  lemma {:induction false} GroupedIsWithKey<T, U>(s: seq<T>, key: T -> Option<U>)
    ensures forall k :: (k in Grouped(s, key) <==> WithKey(s, key, k) != [])
    ensures forall k :: k in Grouped(s, key) ==> Grouped(s, key)[k] == WithKey(s, key, k)
  {
    if s != [] {
      var init, x := s[..|s| - 1], s[|s| - 1];
      var m := Grouped(init, key);
      GroupedIsWithKey(init, key);
      forall k
        ensures WithKey(s, key, k) == WithKey(init, key, k) + (if key(x) == Some(k) then [x] else [])
      {
      }
      match key(x)
      case None =>
        assert Grouped(s, key) == m;
      case Some(j) =>
        assert Grouped(s, key) == m[j := (if j in m then m[j] else []) + [x]];
    }
  }

  /** `merging(_:uniquingKeysWith: +)`: on a shared key, the first list followed by the second. */
  function MergeConcat<U, T>(first: map<U, seq<T>>, second: map<U, seq<T>>): (r: map<U, seq<T>>)
    ensures r.Keys == first.Keys + second.Keys
  {
    map k | k in first.Keys + second.Keys ::
      if k in first && k in second then first[k] + second[k]
      else if k in first then first[k]
      else second[k]
  }

  /** Grouping the two halves and merging them is grouping the whole. */
  lemma GroupedAppend<T, U>(a: seq<T>, b: seq<T>, key: T -> Option<U>)
    ensures Grouped(a + b, key) == MergeConcat(Grouped(a, key), Grouped(b, key))
  {
    var whole, merged := Grouped(a + b, key), MergeConcat(Grouped(a, key), Grouped(b, key));
    forall k | k in whole
      ensures k in merged && whole[k] == merged[k]
    {
      GroupedAppendAt(a, b, key, k);
    }
    forall k | k in merged
      ensures k in whole
    {
      GroupedAppendAt(a, b, key, k);
    }
  }

  /** `GroupedAppend` for one key. */
  lemma GroupedAppendAt<T, U>(a: seq<T>, b: seq<T>, key: T -> Option<U>, k: U)
    ensures k in Grouped(a + b, key) <==> k in MergeConcat(Grouped(a, key), Grouped(b, key))
    ensures k in Grouped(a + b, key) ==> Grouped(a + b, key)[k] == MergeConcat(Grouped(a, key), Grouped(b, key))[k]
  {
    var ga, gb, gw := Grouped(a, key), Grouped(b, key), Grouped(a + b, key);
    GroupedAt(a, key, k);
    GroupedAt(b, key, k);
    GroupedAt(a + b, key, k);
    WithKeyAppend(a, b, key, k);
    var m := MergeConcat(ga, gb);
    if k in ga && k in gb {
      assert m[k] == ga[k] + gb[k];
    } else if k in ga {
      assert m[k] == ga[k];
    } else if k in gb {
      assert m[k] == gb[k];
    }
  }

  /** `GroupedIsWithKey` for one key. */
  lemma GroupedAt<T, U>(s: seq<T>, key: T -> Option<U>, k: U)
    ensures k in Grouped(s, key) <==> WithKey(s, key, k) != []
    ensures k in Grouped(s, key) ==> Grouped(s, key)[k] == WithKey(s, key, k)
  {
    GroupedIsWithKey(s, key);
  }

  /** `filterGroup`: the loop appending each element to the list of its non-nil key. */
  method FilterGroup<T, U(==)>(s: seq<T>, key: T -> Option<U>) returns (result: map<U, seq<T>>)
    ensures result == Grouped(s, key)
    ensures forall k :: k in result ==> result[k] != [] && result[k] == WithKey(s, key, k)
    ensures forall i :: 0 <= i < |s| && key(s[i]).Some? ==> key(s[i]).value in result && s[i] in result[key(s[i]).value]
  {
    result := map[];
    for n := 0 to |s|
      invariant result == Grouped(s[..n], key)
    {
      assert s[..n + 1][..n] == s[..n];
      var k := key(s[n]);
      if k.Some? {
        result := result[k.value := (if k.value in result then result[k.value] else []) + [s[n]]];
      }
    }
    assert s[..|s|] == s;
    GroupedIsWithKey(s, key);
    forall i | 0 <= i < |s| && key(s[i]).Some?
      ensures key(s[i]).value in result && s[i] in result[key(s[i]).value]
    {
      var k := key(s[i]).value;
      WithKeyMembership(s, key, k);
      assert s[i] in WithKey(s, key, k);
    }
  }

  /** Below this many elements, `parallelFilterGroup` groups sequentially. */
  const ParallelThreshold: nat := 16

  /**
    `parallelFilterGroup`: below the threshold it is `filterGroup`; otherwise it
    splits at `count / 2`, groups both halves (in parallel in the source) and
    merges them, first half first. The result is always that of `filterGroup`,
    per-key order included; the recursion terminates because for at least 16
    elements both halves are non-empty and strictly shorter.
  */
  function ParallelFilterGroup<T, U(==)>(s: seq<T>, key: T -> Option<U>): (r: map<U, seq<T>>)
    ensures r == Grouped(s, key)
    decreases |s|
  {
    if |s| < ParallelThreshold then Grouped(s, key)
    else
      var pivot := |s| / 2;
      assert s[..pivot] + s[pivot..] == s;
      GroupedAppend(s[..pivot], s[pivot..], key);
      MergeConcat(ParallelFilterGroup(s[..pivot], key), ParallelFilterGroup(s[pivot..], key))
  }

  /** The key function `group(by:)` hands to the grouping: every element has a key. */
  function SomeKey<T, U>(f: T -> U): T -> Option<U> {
    x => Some(f(x))
  }

  /**
    `group(by:)` (`Dictionary(grouping:by:)`): every element is listed under its
    key, each list holds exactly the elements with that key in input order, and
    no list is empty.
  */
  function Group<T, U(==)>(s: seq<T>, f: T -> U): (r: map<U, seq<T>>)
    ensures forall i :: 0 <= i < |s| ==> f(s[i]) in r && s[i] in r[f(s[i])]
    ensures forall k :: k in r ==> r[k] != [] && r[k] == WithKey(s, SomeKey(f), k)
    ensures forall k :: k in r ==> forall i :: 0 <= i < |r[k]| ==> r[k][i] in s && f(r[k][i]) == k
  {
    GroupProperties(s, f);
    Grouped(s, SomeKey(f))
  }

  /** The list `group(by:)` keeps under a present key. */
  lemma GroupKeyProperties<T, U>(s: seq<T>, f: T -> U, k: U)
    requires k in Grouped(s, SomeKey(f))
    ensures Grouped(s, SomeKey(f))[k] != [] && Grouped(s, SomeKey(f))[k] == WithKey(s, SomeKey(f), k)
    ensures forall i :: 0 <= i < |Grouped(s, SomeKey(f))[k]| ==>
      Grouped(s, SomeKey(f))[k][i] in s && f(Grouped(s, SomeKey(f))[k][i]) == k
  {
    var key := SomeKey(f);
    GroupedIsWithKey(s, key);
    WithKeyMembership(s, key, k);
    forall i | 0 <= i < |WithKey(s, key, k)| ensures f(WithKey(s, key, k)[i]) == k {
      assert key(WithKey(s, key, k)[i]) == Some(k);
    }
  }

  /** Where `group(by:)` lists the `i`-th element. */
  lemma GroupIndexProperties<T, U>(s: seq<T>, f: T -> U, i: nat)
    requires i < |s|
    ensures f(s[i]) in Grouped(s, SomeKey(f)) && s[i] in Grouped(s, SomeKey(f))[f(s[i])]
  {
    var key, k := SomeKey(f), f(s[i]);
    assert key(s[i]) == Some(k);
    var w := WithKey(s, key, k);
    assert s[i] in w by {
      WithKeyMembership(s, key, k);
    }
    assert k in Grouped(s, key) && Grouped(s, key)[k] == w by {
      GroupedIsWithKey(s, key);
    }
  }

  lemma GroupProperties<T, U>(s: seq<T>, f: T -> U)
    ensures forall i :: 0 <= i < |s| ==> f(s[i]) in Grouped(s, SomeKey(f)) && s[i] in Grouped(s, SomeKey(f))[f(s[i])]
    ensures forall k :: k in Grouped(s, SomeKey(f)) ==>
      Grouped(s, SomeKey(f))[k] != [] && Grouped(s, SomeKey(f))[k] == WithKey(s, SomeKey(f), k)
    ensures forall k :: k in Grouped(s, SomeKey(f)) ==>
      forall i :: 0 <= i < |Grouped(s, SomeKey(f))[k]| ==>
        Grouped(s, SomeKey(f))[k][i] in s && f(Grouped(s, SomeKey(f))[k][i]) == k
  {
    forall k | k in Grouped(s, SomeKey(f))
      ensures Grouped(s, SomeKey(f))[k] != [] && Grouped(s, SomeKey(f))[k] == WithKey(s, SomeKey(f), k)
      ensures forall i :: 0 <= i < |Grouped(s, SomeKey(f))[k]| ==>
        Grouped(s, SomeKey(f))[k][i] in s && f(Grouped(s, SomeKey(f))[k][i]) == k
    {
      GroupKeyProperties(s, f, k);
    }
    forall i | 0 <= i < |s|
      ensures f(s[i]) in Grouped(s, SomeKey(f)) && s[i] in Grouped(s, SomeKey(f))[f(s[i])]
    {
      GroupIndexProperties(s, f, i);
    }
  }

  // ---------------------------------------------------------------------------
  // partitioned
  // ---------------------------------------------------------------------------

  /**
    The standard library's `partition(by:)` on a mutable collection: reorders
    `a` so that the elements failing the test come first, and returns where
    the passing ones start. Not stable.
  */
  method Partition<T>(a: array<T>, belongsInSecondPartition: T -> bool) returns (pivot: nat)
    modifies a
    ensures pivot <= a.Length
    ensures forall i :: 0 <= i < pivot ==> !belongsInSecondPartition(a[i])
    ensures forall i :: pivot <= i < a.Length ==> belongsInSecondPartition(a[i])
    ensures multiset(a[..]) == old(multiset(a[..]))
  {
    var lo, hi := 0, a.Length;
    while lo < hi
      invariant 0 <= lo <= hi <= a.Length
      invariant forall i :: 0 <= i < lo ==> !belongsInSecondPartition(a[i])
      invariant forall i :: hi <= i < a.Length ==> belongsInSecondPartition(a[i])
      invariant multiset(a[..]) == old(multiset(a[..]))
    {
      if !belongsInSecondPartition(a[lo]) {
        lo := lo + 1;
      } else if belongsInSecondPartition(a[hi - 1]) {
        hi := hi - 1;
      } else {
        SwapAt(a, lo, hi - 1);
        lo, hi := lo + 1, hi - 1;
      }
    }
    pivot := lo;
  }

  /** `swapAt`: exchanges two elements and leaves the rest alone. */
  method SwapAt<T>(a: array<T>, i: nat, j: nat)
    requires i < j < a.Length
    modifies a
    ensures a[i] == old(a[j]) && a[j] == old(a[i])
    ensures forall k :: 0 <= k < a.Length && k != i && k != j ==> a[k] == old(a[k])
    ensures multiset(a[..]) == old(multiset(a[..]))
  {
    a[i], a[j] := a[j], a[i];
  }

  /**
    `partitioned(by:)`: partitions a copy, so the receiver is untouched; the
    first part holds the elements failing the test, the second those passing
    it, and together they are a rearrangement of the input.
  */
  method Partitioned<T>(s: seq<T>, belongsInSecondPartition: T -> bool) returns (first: seq<T>, second: seq<T>)
    ensures forall i :: 0 <= i < |first| ==> !belongsInSecondPartition(first[i])
    ensures forall i :: 0 <= i < |second| ==> belongsInSecondPartition(second[i])
    ensures multiset(first + second) == multiset(s)
  {
    var copy := new T[|s|](i requires 0 <= i < |s| => s[i]);
    assert copy[..] == s;
    var pivot := Partition(copy, belongsInSecondPartition);
    first, second := copy[0..pivot], copy[pivot..copy.Length];
    assert first + second == copy[..];
  }

  // ---------------------------------------------------------------------------
  // parallelMap, parallelFlatMap, parallelCompactMap
  // ---------------------------------------------------------------------------

  /**
    `data` of the result buffer: every slot force-unwrapped. The requires is
    what the force-unwrap demands: every slot has been written.
  */
  function Unwrapped<T>(slots: seq<Option<T>>): (r: seq<T>)
    requires forall i :: 0 <= i < |slots| ==> slots[i].Some?
    ensures |r| == |slots| && forall i :: 0 <= i < |r| ==> slots[i] == Some(r[i])
  {
    seq(|slots|, i requires 0 <= i < |slots| && slots[i].Some? => slots[i].value)
  }

  /**
    `parallelMap`: a buffer of `count` empty slots; the worker for index `idx`
    writes `transform(self[idx])` into slot `idx` and nothing else. Every slot
    is filled before the buffer is unwrapped, and the result is index-aligned
    with the input.
  */
  method ParallelMap<T, U>(s: seq<T>, transform: T -> U) returns (r: seq<U>)
    ensures |r| == |s|
    ensures forall i :: 0 <= i < |s| ==> r[i] == transform(s[i])
  {
    var buffer := new Option<U>[|s|](_ => None);
    for idx := 0 to buffer.Length
      invariant forall i :: 0 <= i < idx ==> buffer[i] == Some(transform(s[i]))
    {
      buffer[idx] := Some(transform(s[idx]));
    }
    r := Unwrapped(buffer[..]);
  }

  /** Concatenation of the per-element results, in input order: the reference for `parallelFlatMap`. */
  function FlatMapped<T, U>(s: seq<T>, transform: T -> seq<U>): seq<U>
  {
    if s == [] then [] else transform(s[0]) + FlatMapped(s[1..], transform)
  }

  /** The per-element results that are not nil, in input order: the reference for `parallelCompactMap`. */
  function CompactMapped<T, U>(s: seq<T>, transform: T -> Option<U>): seq<U>
  {
    if s == [] then []
    else (if transform(s[0]).Some? then [transform(s[0]).value] else []) + CompactMapped(s[1..], transform)
  }

  /** `flatMap { $0 }` on the mapped results. */
  function Flattened<U>(parts: seq<seq<U>>): seq<U>
  {
    if parts == [] then [] else parts[0] + Flattened(parts[1..])
  }

  /** `compactMap { $0 }` on the mapped results. */
  function Compacted<U>(parts: seq<Option<U>>): seq<U>
  {
    if parts == [] then []
    else (if parts[0].Some? then [parts[0].value] else []) + Compacted(parts[1..])
  }

  /** Flattening an index-aligned map of `s` is the flat map of `s`. */
  lemma {:induction false} FlattenedAligned<T, U>(parts: seq<seq<U>>, s: seq<T>, transform: T -> seq<U>)
    requires |parts| == |s| && forall i :: 0 <= i < |s| ==> parts[i] == transform(s[i])
    ensures Flattened(parts) == FlatMapped(s, transform)
  {
    if s != [] {
      FlattenedAligned(parts[1..], s[1..], transform);
    }
  }

  /** Compacting an index-aligned map of `s` is the compact map of `s`. */
  lemma {:induction false} CompactedAligned<T, U>(parts: seq<Option<U>>, s: seq<T>, transform: T -> Option<U>)
    requires |parts| == |s| && forall i :: 0 <= i < |s| ==> parts[i] == transform(s[i])
    ensures Compacted(parts) == CompactMapped(s, transform)
  {
    if s != [] {
      CompactedAligned(parts[1..], s[1..], transform);
    }
  }

  /** `parallelFlatMap`: `parallelMap`, then the in-order concatenation of the results. */
  method ParallelFlatMap<T, U>(s: seq<T>, transform: T -> seq<U>) returns (r: seq<U>)
    ensures r == FlatMapped(s, transform)
  {
    var parts := ParallelMap(s, transform);
    FlattenedAligned(parts, s, transform);
    r := Flattened(parts);
  }

  /** `parallelCompactMap`: `parallelMap`, then the in-order non-nil results. */
  method ParallelCompactMap<T, U>(s: seq<T>, transform: T -> Option<U>) returns (r: seq<U>)
    ensures r == CompactMapped(s, transform)
  {
    var parts := ParallelMap(s, transform);
    CompactedAligned(parts, s, transform);
    r := Compacted(parts);
  }

  /** A flat map of two parts is the flat map of the first followed by that of the second. */
  lemma {:induction false} FlatMappedAppend<T, U>(a: seq<T>, b: seq<T>, transform: T -> seq<U>)
    ensures FlatMapped(a + b, transform) == FlatMapped(a, transform) + FlatMapped(b, transform)
  {
    if a == [] {
      assert a + b == b;
    } else {
      assert (a + b)[1..] == a[1..] + b;
      FlatMappedAppend(a[1..], b, transform);
    }
  }

  /**
    The compact map holds exactly the non-nil results, at most one per input
    element.
  */
  lemma {:induction false} CompactMappedMembership<T, U>(s: seq<T>, transform: T -> Option<U>)
    ensures |CompactMapped(s, transform)| <= |s|
    ensures forall i :: 0 <= i < |s| && transform(s[i]).Some? ==> transform(s[i]).value in CompactMapped(s, transform)
    ensures forall j :: 0 <= j < |CompactMapped(s, transform)| ==>
      exists i :: 0 <= i < |s| && transform(s[i]) == Some(CompactMapped(s, transform)[j])
  {
    if s != [] {
      var r, rest := CompactMapped(s, transform), CompactMapped(s[1..], transform);
      CompactMappedMembership(s[1..], transform);
      forall i | 0 < i < |s| && transform(s[i]).Some?
        ensures transform(s[i]).value in r
      {
        assert s[1..][i - 1] == s[i];
      }
      forall j | 0 <= j < |r|
        ensures exists i :: 0 <= i < |s| && transform(s[i]) == Some(r[j])
      {
        if transform(s[0]).Some? && j == 0 {
          assert transform(s[0]) == Some(r[j]);
        } else {
          var j' := if transform(s[0]).Some? then j - 1 else j;
          assert r[j] == rest[j'];
          var i' :| 0 <= i' < |s[1..]| && transform(s[1..][i']) == Some(rest[j']);
          assert transform(s[i' + 1]) == Some(r[j]);
        }
      }
    }
  }

  // ---------------------------------------------------------------------------
  // isNotEmpty, onlyElement
  // ---------------------------------------------------------------------------

  /** `isNotEmpty`: the negation of `isEmpty`. */
  predicate IsNotEmpty<T>(s: seq<T>)
    ensures IsNotEmpty(s) <==> s != []
  {
    !(|s| == 0)
  }

  /** `onlyElement`: the element of a one-element collection, nil otherwise. */
  function OnlyElement<T>(s: seq<T>): (r: Option<T>)
    ensures r.Some? <==> |s| == 1
    ensures r.Some? ==> s == [r.value]
  {
    if |s| == 1 then Some(s[0]) else None
  }
}
