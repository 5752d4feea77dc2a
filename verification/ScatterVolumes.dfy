/** The volumes that may receive scattered payload, and the order in which the planner looks at them.
    The sort of the original is the library's stable sort, modelled as insertion. */
module ScatterVolumes {
  import opened MachineIntegers

  datatype Volume = Volume(letter: char, freeBytes: u64, maxFileBytes: u64)

  /** More free bytes first, then the earlier letter. */
  predicate Before(a: Volume, b: Volume) {
    a.freeBytes > b.freeBytes || (a.freeBytes == b.freeBytes && a.letter <= b.letter)
  }

  predicate SortedVolumes(vs: seq<Volume>) {
    forall i, j :: 0 <= i < j < |vs| ==> Before(vs[i], vs[j])
  }

  function InsertVolume(v: Volume, sorted: seq<Volume>): (r: seq<Volume>) {
    if sorted == [] then [v]
    else if Before(sorted[0], v) then [sorted[0]] + InsertVolume(v, sorted[1..])
    else [v] + sorted
  }

  function SortVolumes(vs: seq<Volume>): (r: seq<Volume>) {
    if vs == [] then [] else InsertVolume(vs[|vs| - 1], SortVolumes(vs[..|vs| - 1]))
  }

  lemma {:induction false} InsertKeepsVolumes(v: Volume, sorted: seq<Volume>)
    ensures multiset(InsertVolume(v, sorted)) == multiset(sorted) + multiset{v}
    ensures |InsertVolume(v, sorted)| == |sorted| + 1
  {
    if sorted != [] && Before(sorted[0], v) {
      InsertKeepsVolumes(v, sorted[1..]);
      assert sorted == [sorted[0]] + sorted[1..];
    }
  }

  /** Everything inserted before is still there, and only the new volume is added. */
  lemma {:induction false} InsertMembers(v: Volume, sorted: seq<Volume>, x: Volume)
    requires x in InsertVolume(v, sorted)
    ensures x == v || x in sorted
  {
    if sorted != [] && Before(sorted[0], v) {
      if x != sorted[0] { InsertMembers(v, sorted[1..], x); }
    }
  }

  lemma {:induction false} InsertKeepsOrder(v: Volume, sorted: seq<Volume>)
    requires SortedVolumes(sorted)
    ensures SortedVolumes(InsertVolume(v, sorted))
  {
    if sorted != [] && Before(sorted[0], v) {
      var rest := InsertVolume(v, sorted[1..]);
      InsertKeepsOrder(v, sorted[1..]);
      forall k | 0 <= k < |rest| ensures Before(sorted[0], rest[k]) { InsertMembers(v, sorted[1..], rest[k]); }
    }
  }

  /** The sorted volumes are the given ones, in order. */
  lemma {:induction false} SortIsOrdered(vs: seq<Volume>)
    ensures multiset(SortVolumes(vs)) == multiset(vs)
    ensures SortedVolumes(SortVolumes(vs)) && |SortVolumes(vs)| == |vs|
  {
    if vs != [] {
      var n := |vs| - 1;
      SortIsOrdered(vs[..n]);
      InsertKeepsVolumes(vs[n], SortVolumes(vs[..n]));
      InsertKeepsOrder(vs[n], SortVolumes(vs[..n]));
      assert vs == vs[..n] + [vs[n]];
    }
  }

  // ---------------------------------------------------------------------------------------------
  // Distinct letters
  // ---------------------------------------------------------------------------------------------

  predicate DistinctLetters(vs: seq<Volume>) {
    forall i, j :: 0 <= i < j < |vs| ==> vs[i].letter != vs[j].letter
  }

  /** Every volume once, and no two under one letter, whatever the order. */
  ghost predicate UniqueVolumes(ms: multiset<Volume>) {
    && (forall v :: ms[v] <= 1)
    && (forall v, w :: v in ms && w in ms && v.letter == w.letter ==> v == w)
  }

  lemma {:induction false} CountOf(vs: seq<Volume>, v: Volume)
    requires DistinctLetters(vs)
    ensures multiset(vs)[v] <= 1
  {
    if vs != [] {
      CountOf(vs[1..], v);
      assert vs == [vs[0]] + vs[1..];
      forall k | 0 <= k < |vs[1..]| ensures vs[1..][k] != vs[0] { assert vs[k + 1].letter != vs[0].letter; }
    }
  }

  lemma DistinctIsUnique(vs: seq<Volume>)
    requires DistinctLetters(vs)
    ensures UniqueVolumes(multiset(vs))
  {
    forall v ensures multiset(vs)[v] <= 1 { CountOf(vs, v); }
    forall v, w | v in multiset(vs) && w in multiset(vs) && v.letter == w.letter ensures v == w {
      assert v in vs && w in vs;
    }
  }

  lemma TwiceCounts(vs: seq<Volume>, i: nat, j: nat)
    requires i < j < |vs|
    ensures vs[i] == vs[j] ==> multiset(vs)[vs[i]] >= 2
  {
    assert vs == vs[..j] + ([vs[j]] + vs[j + 1..]);
    assert vs[i] == vs[..j][i];
    assert vs[i] in multiset(vs[..j]);
  }

  lemma UniqueIsDistinct(vs: seq<Volume>)
    requires UniqueVolumes(multiset(vs))
    ensures DistinctLetters(vs)
  {
    forall i, j | 0 <= i < j < |vs| ensures vs[i].letter != vs[j].letter {
      TwiceCounts(vs, i, j);
      assert vs[i] in multiset(vs) && vs[j] in multiset(vs);
    }
  }

  lemma LeadersAgree(a: seq<Volume>, b: seq<Volume>)
    requires SortedVolumes(a) && SortedVolumes(b) && multiset(a) == multiset(b)
    requires UniqueVolumes(multiset(a)) && a != [] && b != []
    ensures a[0] == b[0]
  {
    assert a[0] in multiset(b) && b[0] in multiset(a);
    var i :| 0 <= i < |b| && b[i] == a[0];
    var j :| 0 <= j < |a| && a[j] == b[0];
    assert i == 0 || Before(b[0], a[0]);
    assert j == 0 || Before(a[0], b[0]);
  }

  /** Volumes with distinct letters have one sorted order. */
  lemma {:induction false} SortedOrderIsUnique(a: seq<Volume>, b: seq<Volume>)
    requires SortedVolumes(a) && SortedVolumes(b) && multiset(a) == multiset(b)
    requires UniqueVolumes(multiset(a))
    ensures a == b
  {
    assert |a| == |multiset(a)| == |multiset(b)| == |b|;
    if a != [] {
      LeadersAgree(a, b);
      assert a == [a[0]] + a[1..] && b == [b[0]] + b[1..];
      assert multiset(a[1..]) == multiset(a) - multiset{a[0]} == multiset(b[1..]);
      SortedOrderIsUnique(a[1..], b[1..]);
    }
  }

  /** A different scan order of the same volumes is sorted into the same sequence. */
  lemma ScanOrderIsIrrelevant(vs: seq<Volume>, ws: seq<Volume>)
    requires DistinctLetters(vs) && multiset(vs) == multiset(ws)
    ensures SortVolumes(vs) == SortVolumes(ws) && DistinctLetters(SortVolumes(vs))
  {
    SortIsOrdered(vs);
    SortIsOrdered(ws);
    DistinctIsUnique(vs);
    UniqueIsDistinct(SortVolumes(vs));
    SortedOrderIsUnique(SortVolumes(vs), SortVolumes(ws));
  }

  // ---------------------------------------------------------------------------------------------
  // Stable order of indices by descending key
  // ---------------------------------------------------------------------------------------------

  predicate Below(order: seq<nat>, n: nat) {
    forall k :: 0 <= k < |order| ==> order[k] < n
  }

  predicate Precedes(i: nat, j: nat, keys: seq<u64>)
    requires i < |keys| && j < |keys|
  {
    keys[i] > keys[j] || (keys[i] == keys[j] && i < j)
  }

  /** Larger keys first, and the earlier index first among equal keys. */
  predicate Descends(order: seq<nat>, keys: seq<u64>)
    requires Below(order, |keys|)
  {
    forall j, k :: 0 <= j < k < |order| ==>
      Precedes(order[j], order[k], keys)
  }

  function InsertIndex(order: seq<nat>, i: nat, keys: seq<u64>): (r: seq<nat>)
    requires i < |keys| && Below(order, |keys|)
    ensures |r| == |order| + 1 && Below(r, |keys|)
  {
    if order == [] then [i]
    else if keys[order[0]] >= keys[i] then [order[0]] + InsertIndex(order[1..], i, keys)
    else [i] + order
  }

  function DescendingOrder(keys: seq<u64>, n: nat): (order: seq<nat>)
    requires n <= |keys|
    ensures |order| == n && Below(order, |keys|)
  {
    if n == 0 then [] else InsertIndex(DescendingOrder(keys, n - 1), n - 1, keys)
  }

  lemma {:induction false} InsertIndexMembers(order: seq<nat>, i: nat, keys: seq<u64>, x: nat)
    requires i < |keys| && Below(order, |keys|)
    ensures x in InsertIndex(order, i, keys) <==> x in order || x == i
  {
    if order != [] && keys[order[0]] >= keys[i] {
      InsertIndexMembers(order[1..], i, keys, x);
      assert order == [order[0]] + order[1..];
    }
  }

  lemma {:induction false} InsertIndexKeepsOrder(order: seq<nat>, i: nat, keys: seq<u64>)
    requires i < |keys| && Below(order, i) && Descends(order, keys)
    ensures Descends(InsertIndex(order, i, keys), keys)
  {
    if order != [] && keys[order[0]] >= keys[i] {
      var rest := InsertIndex(order[1..], i, keys);
      InsertIndexKeepsOrder(order[1..], i, keys);
      forall k | 0 <= k < |rest| ensures Precedes(order[0], rest[k], keys) {
        InsertIndexMembers(order[1..], i, keys, rest[k]);
      }
    }
  }

  lemma {:induction false} DescendingOrderMembers(keys: seq<u64>, n: nat, x: nat)
    requires n <= |keys|
    ensures x in DescendingOrder(keys, n) <==> x < n
  {
    if n > 0 {
      DescendingOrderMembers(keys, n - 1, x);
      InsertIndexMembers(DescendingOrder(keys, n - 1), n - 1, keys, x);
    }
  }

  /** Every index once, in the order a stable sort by descending key gives. */
  lemma {:induction false} DescendingOrderIsOrder(keys: seq<u64>, n: nat)
    requires n <= |keys|
    ensures Descends(DescendingOrder(keys, n), keys)
    ensures forall x: nat :: x in DescendingOrder(keys, n) <==> x < n
  {
    if n > 0 {
      DescendingOrderIsOrder(keys, n - 1);
      var before := DescendingOrder(keys, n - 1);
      assert Below(before, n - 1) by {
        assert forall k :: 0 <= k < |before| ==> before[k] in before;
      }
      InsertIndexKeepsOrder(before, n - 1, keys);
    }
    forall x: nat ensures x in DescendingOrder(keys, n) <==> x < n { DescendingOrderMembers(keys, n, x); }
  }
}
