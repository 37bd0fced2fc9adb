/**
 * The sorted combiner: a batch merger over one result queue per worker thread.
 * Workers append to their own queue; at the end of a batch every queue is
 * appended onto queue 0, queue 0 is sorted by key, every non-tick result is
 * handed to the reporter in that order, and queue 0 is emptied.
 */
module CombinerSorted {
  import opened Uints
  import opened Results

  // ---------------------------------------------------------------------------
  // Comparison and sorting
  // ---------------------------------------------------------------------------

  /** The qsort comparator: the sign of the key difference. */
  function CompareResult(r1: Result, r2: Result): (c: int)
    ensures c == -1 <==> r1.key < r2.key
    ensures c == 0 <==> r1.key == r2.key
    ensures c == 1 <==> r1.key > r2.key
  {
    if r1.key < r2.key then -1
    else if r1.key == r2.key then 0
    else 1
  }

  /** "r1 sorts no later than r2" in the comparator's order. */
  predicate SortsBefore(r1: Result, r2: Result) {
    CompareResult(r1, r2) <= 0
  }

  /** The comparator induces a total preorder, and it is antisymmetric in sign. */
  lemma CompareResultIsTotalPreorder(a: Result, b: Result, c: Result)
    ensures CompareResult(a, a) == 0
    ensures CompareResult(a, b) == -CompareResult(b, a)
    ensures SortsBefore(a, b) || SortsBefore(b, a)
    ensures SortsBefore(a, b) && SortsBefore(b, c) ==> SortsBefore(a, c)
    ensures SortsBefore(a, b) && SortsBefore(b, a) ==> a.key == b.key
  {
  }

  predicate SortedByKey(s: seq<Result>) {
    forall i, j :: 0 <= i < j < |s| ==> s[i].key <= s[j].key
  }

  /** Inserts `x` into a sorted sequence before the first element it sorts before. */
  function InsertByKey(x: Result, s: seq<Result>): (t: seq<Result>)
    requires SortedByKey(s)
    ensures SortedByKey(t)
    ensures |t| == |s| + 1
    ensures t[0] == x || (|s| > 0 && t[0] == s[0])
    ensures multiset(t) == multiset(s) + multiset{x}
  {
    if |s| == 0 then [x]
    else if SortsBefore(x, s[0]) then
      ConsSorted(x, s);
      [x] + s
    else
      assert s == [s[0]] + s[1..];
      var r := InsertByKey(x, s[1..]);
      ConsSorted(s[0], r);
      [s[0]] + r
  }

  /** A sorted sequence stays sorted under an element whose key is at most its head's. */
  lemma ConsSorted(h: Result, r: seq<Result>)
    requires SortedByKey(r)
    requires |r| > 0 ==> h.key <= r[0].key
    ensures SortedByKey([h] + r)
  {
    var t := [h] + r;
    forall i, j | 0 <= i < j < |t| ensures t[i].key <= t[j].key {
      if i == 0 {
        assert t[j] == r[j - 1];
      } else {
        assert t[i] == r[i - 1] && t[j] == r[j - 1];
      }
    }
  }

  /**
   * Stands in for the library's in-place qsort of queue 0 with CompareResult.
   * qsort is not stable, so only "sorted by key" and "a permutation" are
   * promised, never the relative order of equal keys.
   */
  function SortByKey(s: seq<Result>): (t: seq<Result>)
    ensures SortedByKey(t)
    ensures multiset(t) == multiset(s)
  {
    if |s| == 0 then []
    else
      assert s == [s[0]] + s[1..];
      InsertByKey(s[0], SortByKey(s[1..]))
  }

  // ---------------------------------------------------------------------------
  // Queue contents
  // ---------------------------------------------------------------------------

  /** All queues appended in queue order, as the read_final loop builds queue 0. */
  function Flatten(qs: seq<seq<Result>>): seq<Result>
  {
    if |qs| == 0 then [] else Flatten(qs[..|qs| - 1]) + qs[|qs| - 1]
  }

  /**
   * The results of `s`, in order, with every tick dropped: what the delivery
   * loop sends to the reporter when it walks `s` front to back.
   */
  function NonTicks(s: seq<Result>): (t: seq<Result>)
    ensures |t| <= |s|
    ensures forall k :: 0 <= k < |t| ==> !IsTick(t[k])
  {
    if |s| == 0 then []
    else
      var last := s[|s| - 1];
      NonTicks(s[..|s| - 1]) + if IsTick(last) then [] else [last]
  }

  /** Each non-tick result survives filtering as often as it occurs; no tick survives. */
  lemma {:induction false} NonTicksCounts(s: seq<Result>)
    ensures forall x :: multiset(NonTicks(s))[x] == if IsTick(x) then 0 else multiset(s)[x]
  {
    if |s| > 0 {
      var init, last := s[..|s| - 1], s[|s| - 1];
      assert s == init + [last];
      NonTicksCounts(init);
    }
  }

  /** Every element of the filtered sequence is an element of the original. */
  lemma {:induction false} NonTicksSubset(s: seq<Result>)
    ensures forall k :: 0 <= k < |NonTicks(s)| ==> NonTicks(s)[k] in s
  {
    if |s| > 0 {
      var init := s[..|s| - 1];
      NonTicksSubset(init);
      assert forall y :: y in init ==> y in s;
    }
  }

  /** Filtering ticks out of a key-sorted sequence leaves it sorted. */
  lemma {:induction false} NonTicksSorted(s: seq<Result>)
    requires SortedByKey(s)
    ensures SortedByKey(NonTicks(s))
  {
    if |s| > 0 {
      var init, last := s[..|s| - 1], s[|s| - 1];
      NonTicksSorted(init);
      NonTicksSubset(init);
      var pre := NonTicks(init);
      forall k | 0 <= k < |pre| ensures pre[k].key <= last.key {
        var j :| 0 <= j < |init| && init[j] == pre[k];
      }
    }
  }

  /** Filtering ticks commutes with permutation. */
  lemma NonTicksPermutation(a: seq<Result>, b: seq<Result>)
    requires multiset(a) == multiset(b)
    ensures multiset(NonTicks(a)) == multiset(NonTicks(b))
  {
    NonTicksCounts(a);
    NonTicksCounts(b);
    assert forall x :: multiset(NonTicks(a))[x] == multiset(NonTicks(b))[x];
  }

  /** The make-safe transform applied to every element of one queue. */
  function MapSafe(q: seq<Result>): (r: seq<Result>)
    ensures |r| == |q|
    ensures forall k :: 0 <= k < |q| ==> r[k] == MakeSafe(q[k])
  {
    seq(|q|, k requires 0 <= k < |q| => MakeSafe(q[k]))
  }

  /** Making a queue safe keeps each element's key and type, in order, and leaves nothing unsafe. */
  lemma MapSafeKeepsKeysAndTypes(q: seq<Result>)
    ensures |MapSafe(q)| == |q|
    ensures forall k :: 0 <= k < |q| ==>
      MapSafe(q)[k].key == q[k].key && MapSafe(q)[k].rtype == q[k].rtype && IsSafe(MapSafe(q)[k])
    ensures MapSafe(MapSafe(q)) == MapSafe(q)
  {
  }

  lemma {:induction false} FlattenMapSafe(qs: seq<seq<Result>>)
    ensures Flatten(seq(|qs|, i requires 0 <= i < |qs| => MapSafe(qs[i]))) == MapSafe(Flatten(qs))
  {
    var ms := seq(|qs|, i requires 0 <= i < |qs| => MapSafe(qs[i]));
    if |qs| > 0 {
      var init := qs[..|qs| - 1];
      FlattenMapSafe(init);
      assert ms[..|ms| - 1] == seq(|init|, i requires 0 <= i < |init| => MapSafe(init[i]));
      assert Flatten(ms) == MapSafe(Flatten(init)) + MapSafe(qs[|qs| - 1]);
    }
  }

  lemma {:induction false} NonTicksMapSafe(s: seq<Result>)
    ensures NonTicks(MapSafe(s)) == MapSafe(NonTicks(s))
  {
    if |s| > 0 {
      var init := s[..|s| - 1];
      NonTicksMapSafe(init);
      assert MapSafe(s)[..|s| - 1] == MapSafe(init);
    }
  }

  /**
   * Pausing loses nothing that a later read_final would deliver: the
   * deliverable results after a pause are exactly the made-safe deliverable
   * results from before it, in the same order.
   */
  lemma PauseKeepsDeliverable(qs: seq<seq<Result>>)
    ensures NonTicks(Flatten(seq(|qs|, i requires 0 <= i < |qs| => MapSafe(qs[i]))))
         == MapSafe(NonTicks(Flatten(qs)))
  {
    FlattenMapSafe(qs);
    NonTicksMapSafe(Flatten(qs));
  }

  /** A sorted permutation of a sequence with pairwise distinct keys is that sequence. */
  predicate KeysDistinct(s: seq<Result>) {
    forall i, j :: 0 <= i < j < |s| ==> s[i].key != s[j].key
  }

  /** Two sorted permutations of a distinct-key sequence start with the same element. */
  lemma SortedPermutationsShareHead(a: seq<Result>, b: seq<Result>)
    requires |a| > 0 && |b| > 0
    requires SortedByKey(a) && SortedByKey(b)
    requires multiset(a) == multiset(b)
    requires KeysDistinct(a)
    ensures a[0] == b[0]
  {
    assert a[0] in multiset(b);
    var k :| 0 <= k < |b| && b[k] == a[0];
    assert b[0] in multiset(a);
    var m :| 0 <= m < |a| && a[m] == b[0];
    assert a[0].key <= a[m].key;
    assert b[0].key <= b[k].key;
    assert m == 0;
  }

  lemma SortedTail(a: seq<Result>)
    requires |a| > 0 && SortedByKey(a)
    ensures SortedByKey(a[1..])
    ensures KeysDistinct(a) ==> KeysDistinct(a[1..])
  {
    assert forall i :: 0 <= i < |a| - 1 ==> a[1..][i] == a[i + 1];
  }

  lemma MultisetTails(a: seq<Result>, b: seq<Result>)
    requires |a| > 0 && |b| > 0 && a[0] == b[0]
    requires multiset(a) == multiset(b)
    ensures multiset(a[1..]) == multiset(b[1..])
  {
    assert a == [a[0]] + a[1..];
    assert b == [a[0]] + b[1..];
    forall x ensures multiset(a[1..])[x] == multiset(b[1..])[x] {
      assert multiset(a)[x] == multiset{a[0]}[x] + multiset(a[1..])[x];
      assert multiset(b)[x] == multiset{a[0]}[x] + multiset(b[1..])[x];
    }
  }

  lemma {:induction false} SortedPermutationUnique(a: seq<Result>, b: seq<Result>)
    requires SortedByKey(a) && SortedByKey(b)
    requires multiset(a) == multiset(b)
    requires KeysDistinct(a)
    ensures a == b
    decreases |a|
  {
    assert |a| == |multiset(a)| == |multiset(b)| == |b|;
    if |a| > 0 {
      SortedPermutationsShareHead(a, b);
      MultisetTails(a, b);
      SortedTail(a);
      SortedTail(b);
      SortedPermutationUnique(a[1..], b[1..]);
      assert a == [a[0]] + a[1..];
      assert b == [b[0]] + b[1..];
    }
  }

  /** In a sequence with distinct keys, no element occurs twice. */
  lemma {:induction false} DistinctKeysOccurOnce(s: seq<Result>, x: Result)
    requires KeysDistinct(s)
    ensures multiset(s)[x] <= 1
  {
    if |s| > 0 {
      var t := s[1..];
      assert s == [s[0]] + t;
      assert KeysDistinct(t) by {
        assert forall i :: 0 <= i < |t| ==> t[i] == s[i + 1];
      }
      DistinctKeysOccurOnce(t, x);
      assert forall k :: 0 <= k < |t| ==> t[k].key != s[0].key;
      assert s[0] == x ==> x !in t;
    }
  }

  /** Two positions holding an element that occurs at most once hold different elements. */
  lemma OnceAtOnePosition(s: seq<Result>, i: nat, j: nat)
    requires i < j < |s| && multiset(s)[s[i]] <= 1
    ensures s[i] != s[j]
  {
    assert s == s[..j] + s[j..];
    assert s[..j][i] == s[i];
    assert s[j..][0] == s[j];
    assert multiset(s[..j])[s[i]] >= 1;
    assert multiset(s[j..])[s[i]] >= if s[j] == s[i] then 1 else 0;
  }

  /** Distinct elements of a sequence with distinct keys have distinct keys. */
  lemma DistinctElementsDistinctKeys(s: seq<Result>, x: Result, y: Result)
    requires KeysDistinct(s) && x in s && y in s && x != y
    ensures x.key != y.key
  {
    var p :| 0 <= p < |s| && s[p] == x;
    var q :| 0 <= q < |s| && s[q] == y;
    assert p != q;
    if p < q {
      assert s[p].key != s[q].key;
    } else {
      assert s[q].key != s[p].key;
    }
  }

  /**
   * When every published result has its own key, whatever is delivered in key
   * order is delivered in strictly increasing key order.
   */
  lemma DistinctKeysDeliveredStrictly(sent: seq<Result>, published: seq<Result>)
    requires SortedByKey(sent)
    requires DeliveredFrom(sent, published)
    requires KeysDistinct(published)
    ensures forall i, j :: 0 <= i < j < |sent| ==> sent[i].key < sent[j].key
  {
    forall i, j | 0 <= i < j < |sent| ensures sent[i].key < sent[j].key {
      DistinctKeysOccurOnce(published, sent[i]);
      OnceAtOnePosition(sent, i, j);
      assert sent[i] in multiset(sent) && sent[j] in multiset(sent);
      assert sent[i] in multiset(published) && sent[j] in multiset(published);
      DistinctElementsDistinctKeys(published, sent[i], sent[j]);
    }
  }

  // ---------------------------------------------------------------------------
  // The combiner state
  // ---------------------------------------------------------------------------

  /**
   * The delivery loop of read_final: walk the sorted queue by index and send
   * every result that is not a tick, in order.
   */
  method DeliverNonTicks(q: seq<Result>) returns (sent: seq<Result>)
    ensures sent == NonTicks(q)
  {
    sent := [];
    var a := 0;
    while a < |q|
      invariant 0 <= a <= |q|
      invariant sent == NonTicks(q[..a])
    {
      var r := q[a];
      assert q[..a + 1] == q[..a] + [r];
      if !IsTick(r) {
        sent := sent + [r];
      }
      a := a + 1;
    }
    assert q[..a] == q;
  }

  /**
   * `sent` holds every non-tick result of `published` exactly as often as it
   * occurs there, and no tick at all.
   */
  ghost predicate DeliveredFrom(sent: seq<Result>, published: seq<Result>) {
    forall x :: multiset(sent)[x] == if IsTick(x) then 0 else multiset(published)[x]
  }

  /** Sorting and then skipping ticks yields a key-sorted sequence of exactly the non-tick results. */
  lemma FinalDelivery(all: seq<Result>)
    ensures SortedByKey(NonTicks(SortByKey(all)))
    ensures DeliveredFrom(NonTicks(SortByKey(all)), all)
  {
    var sorted := SortByKey(all);
    NonTicksSorted(sorted);
    NonTicksPermutation(sorted, all);
    NonTicksCounts(all);
  }

  class SortedCombiner {
    /** One result queue per worker thread, allocated once at init. */
    const queues: array<seq<Result>>
    /** False once destroy has released the queue storage. */
    var live: bool

    ghost predicate Valid()
      reads this
    {
      live && queues.Length > 0
    }

    ghost predicate AllEmpty()
      reads this, queues
    {
      forall i :: 0 <= i < queues.Length ==> queues[i] == []
    }

    /** init_combiner: the trace must have at least one worker thread; every queue starts empty. */
    constructor (threads: nat)
      requires threads > 0
      ensures Valid() && fresh(queues)
      ensures queues.Length == threads && AllEmpty()
    {
      queues := new seq<Result>[threads];
      live := true;
      new;
      for i := 0 to threads
        invariant Valid() && queues.Length == threads
        invariant forall j :: 0 <= j < i ==> queues[j] == []
      {
        queues[i] := [];
      }
    }

    /** publish: append `res` to the worker's own queue; no other queue changes. */
    method Publish(tid: nat, res: Result)
      requires Valid() && tid < queues.Length
      modifies queues
      ensures Valid()
      ensures queues[tid] == old(queues[tid]) + [res]
      ensures forall j :: 0 <= j < queues.Length && j != tid ==> queues[j] == old(queues[j])
    {
      queues[tid] := queues[tid] + [res];
    }

    /** read: this strategy delivers nothing incrementally and changes no queue. */
    method Read() returns (sent: seq<Result>)
      requires Valid()
      ensures sent == []
    {
      sent := [];
    }

    /** pause: every stored result is made safe in place; lengths, order, keys and types are kept. */
    method Pause()
      requires Valid()
      modifies queues
      ensures Valid()
      ensures forall i :: 0 <= i < queues.Length ==> queues[i] == MapSafe(old(queues[i]))
    {
      for i := 0 to queues.Length
        invariant forall j :: 0 <= j < i ==> queues[j] == MapSafe(old(queues[j]))
        invariant forall j :: i <= j < queues.Length ==> queues[j] == old(queues[j])
      {
        queues[i] := MapSafe(queues[i]);
      }
    }

    /** The merge loop of read_final: queues 1..N-1 are appended, in order, onto queue 0 and drained. */
    method AppendOntoFirst()
      requires Valid()
      modifies queues
      ensures Valid()
      ensures queues[0] == Flatten(old(queues[..]))
      ensures forall j :: 1 <= j < queues.Length ==> queues[j] == []
    {
      ghost var qs := queues[..];
      var i := 1;
      assert qs[..1] == [qs[0]];
      assert Flatten(qs[..1]) == qs[0];
      while i < queues.Length
        invariant 1 <= i <= queues.Length
        invariant queues[0] == Flatten(qs[..i])
        invariant forall j :: 1 <= j < i ==> queues[j] == []
        invariant forall j :: i <= j < queues.Length ==> queues[j] == qs[j]
      {
        assert qs[..i + 1][..i] == qs[..i];
        queues[0] := queues[0] + queues[i];
        queues[i] := [];
        i := i + 1;
      }
      assert qs[..queues.Length] == qs;
    }

    /**
     * read_final: deliver every published non-tick result exactly once, in
     * non-decreasing key order, and leave every queue empty, which is what
     * destroy requires.
     */
    method ReadFinal() returns (sent: seq<Result>)
      requires Valid()
      modifies queues
      ensures Valid() && AllEmpty()
      ensures SortedByKey(sent)
      ensures DeliveredFrom(sent, Flatten(old(queues[..])))
    {
      ghost var qs := queues[..];
      AppendOntoFirst();
      var merged := queues[0];
      assert merged == Flatten(qs);
      var sorted := SortByKey(merged);
      sent := DeliverNonTicks(sorted);
      FinalDelivery(merged);
      queues[0] := [];
    }

    /** destroy: every queue must be empty (an assertion failure otherwise); the storage is released. */
    method Destroy()
      requires Valid() && AllEmpty()
      modifies this
      ensures !live
    {
      // The source asserts each queue empty before destroying it; AllEmpty already guarantees that.
      for i := 0 to queues.Length {
        assert |queues[i]| == 0;
      }
      live := false;
    }
  }

  /** When no published result is a tick, read_final delivers a permutation of everything published. */
  lemma NoTicksMeansPermutation(sent: seq<Result>, published: seq<Result>)
    requires DeliveredFrom(sent, published)
    requires forall k :: 0 <= k < |published| ==> !IsTick(published[k])
    ensures multiset(sent) == multiset(published)
  {
    forall x ensures multiset(sent)[x] == multiset(published)[x] {
      if IsTick(x) {
        assert forall k :: 0 <= k < |published| ==> published[k] != x;
        assert x !in published;
      }
    }
  }

  function KeysOf(s: seq<Result>): (ks: seq<uint64>)
    ensures |ks| == |s| && forall k :: 0 <= k < |s| ==> ks[k] == s[k].key
  {
    seq(|s|, k requires 0 <= k < |s| => s[k].key)
  }

  /**
   * One worker publishes keys 5, 3 and 8, the trace pauses, the worker
   * publishes 12, and the batch is flushed and torn down: the reporter
   * receives keys 3, 5, 8, 12.
   */
  method PauseResumeScenario() returns (keys: seq<uint64>)
    ensures keys == [3, 5, 8, 12]
  {
    var c := new SortedCombiner(1);
    var r5 := Result(5, ResultPacket, PacketValue(0, BufferPool));
    var r3 := Result(3, ResultPacket, PacketValue(1, BufferPool));
    var r8 := Result(8, ResultPacket, PacketValue(2, BufferPool));
    var r12 := Result(12, ResultPacket, PacketValue(3, BufferPool));
    PublishAcrossPause(c, r5, r3, r8, r12);
    ghost var stored := c.queues[..];
    assert stored == [[MakeSafe(r5), MakeSafe(r3), MakeSafe(r8), r12]];
    var sent := c.ReadFinal();
    c.Destroy();
    ScenarioDelivery(sent, stored, MakeSafe(r5), MakeSafe(r3), MakeSafe(r8), r12);
    keys := KeysOf(sent);
  }

  /** The single worker publishes a, b and c, the trace pauses, and the worker publishes d. */
  method PublishAcrossPause(comb: SortedCombiner, a: Result, b: Result, c: Result, d: Result)
    requires comb.Valid() && comb.queues.Length == 1 && comb.AllEmpty()
    modifies comb.queues
    ensures comb.Valid() && comb.queues.Length == 1
    ensures comb.queues[0] == [MakeSafe(a), MakeSafe(b), MakeSafe(c), d]
  {
    comb.Publish(0, a);
    comb.Publish(0, b);
    comb.Publish(0, c);
    assert comb.queues[0] == [a, b, c];
    comb.Pause();
    MapSafeThree(a, b, c);
    comb.Publish(0, d);
  }

  lemma MapSafeThree(a: Result, b: Result, c: Result)
    ensures MapSafe([a, b, c]) == [MakeSafe(a), MakeSafe(b), MakeSafe(c)]
  {
  }

  lemma ScenarioDelivery(sent: seq<Result>, stored: seq<seq<Result>>, s5: Result, s3: Result, s8: Result, r12: Result)
    requires s5.key == 5 && s3.key == 3 && s8.key == 8 && r12.key == 12
    requires !IsTick(s5) && !IsTick(s3) && !IsTick(s8) && !IsTick(r12)
    requires stored == [[s5, s3, s8, r12]]
    requires SortedByKey(sent)
    requires DeliveredFrom(sent, Flatten(stored))
    ensures KeysOf(sent) == [3, 5, 8, 12]
  {
    var published := [s5, s3, s8, r12];
    assert Flatten(stored) == published by {
      assert stored[..0] == [];
      assert Flatten(stored) == Flatten(stored[..0]) + stored[0];
    }
    NoTicksMeansPermutation(sent, published);
    ScenarioOrder(sent, s5, s3, s8, r12);
  }

  /** The pure half of the scenario: a sorted permutation of distinct keys is unique. */
  lemma ScenarioOrder(sent: seq<Result>, s5: Result, s3: Result, s8: Result, r12: Result)
    requires s5.key == 5 && s3.key == 3 && s8.key == 8 && r12.key == 12
    requires SortedByKey(sent)
    requires multiset(sent) == multiset([s5, s3, s8, r12])
    ensures KeysOf(sent) == [3, 5, 8, 12]
  {
    SwapFront(s5, s3, [s8, r12]);
    IncreasingFour(s3, s5, s8, r12);
    SortedPermutationUnique([s3, s5, s8, r12], sent);
    KeysOfFour(s3, s5, s8, r12);
  }

  lemma SwapFront(a: Result, b: Result, t: seq<Result>)
    ensures multiset([a, b] + t) == multiset([b, a] + t)
  {
    assert [a, b] + t == [a] + [b] + t;
    assert [b, a] + t == [b] + [a] + t;
  }

  lemma KeysOfFour(a: Result, b: Result, c: Result, d: Result)
    ensures KeysOf([a, b, c, d]) == [a.key, b.key, c.key, d.key]
  {
  }

  lemma IncreasingFour(a: Result, b: Result, c: Result, d: Result)
    requires a.key < b.key < c.key < d.key
    ensures SortedByKey([a, b, c, d]) && KeysDistinct([a, b, c, d])
  {
  }
}
