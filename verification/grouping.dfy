/**
 * Group-by-key with running totals, as the aggregators build it in a
 * JavaScript `Map` (keys kept in first-insertion order), followed by the
 * stable `Array.prototype.sort` they apply to the entries.
 *
 * The map is an association list of groups with pairwise distinct keys;
 * `Upsert` is `map.set(key, { totalSales: old + amount, count: old + 1 })`
 * with `map.get(key) || { totalSales: 0, count: 0 }` as the old value.
 */
module Grouping {
  import opened Wrappers

  datatype Group<K> = Group(key: K, totalSales: real, count: nat)

  function Keys<K>(gs: seq<Group<K>>): (ks: seq<K>)
    ensures |ks| == |gs|
    ensures forall i :: 0 <= i < |gs| ==> ks[i] == gs[i].key
  {
    seq(|gs|, i requires 0 <= i < |gs| => gs[i].key)
  }

  predicate DistinctKeys<K(==)>(gs: seq<Group<K>>) {
    forall i, j :: 0 <= i < j < |gs| ==> gs[i].key != gs[j].key
  }

  /** The position of key `k` in the map. */
  function Position<K(==)>(gs: seq<Group<K>>, k: K): (i: nat)
    requires k in Keys(gs)
    ensures i < |gs| && gs[i].key == k
  {
    if gs[0].key == k then 0
    else
      assert k in Keys(gs[1..]) by {
        var j :| 0 <= j < |gs| && Keys(gs)[j] == k;
        assert Keys(gs[1..])[j - 1] == k;
      }
      1 + Position(gs[1..], k)
  }

  /**
   * `map.set(k, …)` with the running totals: an existing key is updated in
   * place, a new key is appended with one order of `amount`.
   */
  function Upsert<K(==)>(gs: seq<Group<K>>, k: K, amount: real): (r: seq<Group<K>>)
    requires DistinctKeys(gs)
    ensures DistinctKeys(r)
    ensures k in Keys(gs) ==> |r| == |gs|
    ensures k !in Keys(gs) ==> |r| == |gs| + 1 && r[|gs|] == Group(k, amount, 1)
    ensures forall i :: 0 <= i < |gs| ==>
              r[i] == if gs[i].key == k then Group(k, gs[i].totalSales + amount, gs[i].count + 1) else gs[i]
  {
    if k in Keys(gs) then
      var i := Position(gs, k);
      gs[i := Group(k, gs[i].totalSales + amount, gs[i].count + 1)]
    else
      gs + [Group(k, amount, 1)]
  }

  // ---------------------------------------------------------------------
  // Reference definitions over the input items
  // ---------------------------------------------------------------------

  /** Sum of the amounts of the items whose key is `k`. */
  function SalesOf<T, K(==)>(xs: seq<T>, keyOf: T -> Option<K>, amountOf: T -> real, k: K): real
  {
    if |xs| == 0 then 0.0
    else
      var last := xs[|xs| - 1];
      SalesOf(xs[..|xs| - 1], keyOf, amountOf, k) + (if keyOf(last) == Some(k) then amountOf(last) else 0.0)
  }

  /** Number of items whose key is `k`; positive exactly when some item has that key. */
  function CountOf<T, K(==)>(xs: seq<T>, keyOf: T -> Option<K>, k: K): (n: nat)
    ensures n > 0 <==> exists i :: 0 <= i < |xs| && keyOf(xs[i]) == Some(k)
  {
    if |xs| == 0 then 0
    else
      var last := xs[|xs| - 1];
      var front := xs[..|xs| - 1];
      assert forall i :: 0 <= i < |front| ==> front[i] == xs[i];
      CountOf(front, keyOf, k) + (if keyOf(last) == Some(k) then 1 else 0)
  }

  /** The index of the first item whose key is `k`, or `|xs|` when there is none. */
  function FirstIndex<T, K(==)>(xs: seq<T>, keyOf: T -> Option<K>, k: K): (i: nat)
    ensures i <= |xs|
    ensures i < |xs| ==> keyOf(xs[i]) == Some(k)
    ensures forall j :: 0 <= j < i ==> keyOf(xs[j]) != Some(k)
    ensures i < |xs| <==> CountOf(xs, keyOf, k) > 0
  {
    if |xs| == 0 then 0
    else
      var front := xs[..|xs| - 1];
      var f := FirstIndex(front, keyOf, k);
      assert forall j :: 0 <= j < |front| ==> front[j] == xs[j];
      if f < |front| then f else (if keyOf(xs[|xs| - 1]) == Some(k) then |xs| - 1 else |xs|)
  }

  /** Number of items that have a key at all (the others are skipped). */
  function KeyedCount<T, K>(xs: seq<T>, keyOf: T -> Option<K>): nat
  {
    if |xs| == 0 then 0
    else KeyedCount(xs[..|xs| - 1], keyOf) + (if keyOf(xs[|xs| - 1]).Some? then 1 else 0)
  }

  /** Sum of the amounts of the items that have a key. */
  function KeyedSales<T, K>(xs: seq<T>, keyOf: T -> Option<K>, amountOf: T -> real): real
  {
    if |xs| == 0 then 0.0
    else
      var last := xs[|xs| - 1];
      KeyedSales(xs[..|xs| - 1], keyOf, amountOf) + (if keyOf(last).Some? then amountOf(last) else 0.0)
  }

  function SumCounts<K>(gs: seq<Group<K>>): nat {
    if |gs| == 0 then 0 else SumCounts(gs[..|gs| - 1]) + gs[|gs| - 1].count
  }

  function SumSales<K>(gs: seq<Group<K>>): real {
    if |gs| == 0 then 0.0 else SumSales(gs[..|gs| - 1]) + gs[|gs| - 1].totalSales
  }

  // ---------------------------------------------------------------------
  // Accumulation
  // ---------------------------------------------------------------------

  /**
   * `gs` is the grouping of `xs`: one group per key that occurs, carrying the
   * sum of that key's amounts and the number of its items, the groups in the
   * order in which their keys first occur.
   */
  ghost predicate GroupsOf<T, K(!new)>(gs: seq<Group<K>>, xs: seq<T>, keyOf: T -> Option<K>, amountOf: T -> real) {
    && DistinctKeys(gs)
    && (forall i :: 0 <= i < |gs| ==> gs[i].totalSales == SalesOf(xs, keyOf, amountOf, gs[i].key))
    && (forall i :: 0 <= i < |gs| ==> gs[i].count == CountOf(xs, keyOf, gs[i].key))
    && (forall k :: k in Keys(gs) <==> CountOf(xs, keyOf, k) > 0)
    && (forall i, j :: 0 <= i < j < |gs| ==> FirstIndex(xs, keyOf, gs[i].key) < FirstIndex(xs, keyOf, gs[j].key))
  }

  /**
   * The map after `forEach` over `xs`: items without a key are skipped; every
   * other item adds its amount and one transaction to its key's group.
   */
  function Accumulate<T, K(==, !new)>(xs: seq<T>, keyOf: T -> Option<K>, amountOf: T -> real): (r: seq<Group<K>>)
    ensures GroupsOf(r, xs, keyOf, amountOf)
  {
    if |xs| == 0 then []
    else
      var front := xs[..|xs| - 1];
      var gs := Accumulate(front, keyOf, amountOf);
      var last := xs[|xs| - 1];
      assert xs == front + [last];
      match keyOf(last)
      case None =>
        AccumulateSkip(front, last, gs, keyOf, amountOf);
        gs
      case Some(k) =>
        AccumulateStep(front, last, k, gs, keyOf, amountOf);
        Upsert(gs, k, amountOf(last))
  }

  /** How the reference definitions change when one more item is appended. */
  lemma AppendOne<T, K>(front: seq<T>, last: T, keyOf: T -> Option<K>, amountOf: T -> real, k: K)
    ensures SalesOf(front + [last], keyOf, amountOf, k)
            == SalesOf(front, keyOf, amountOf, k) + (if keyOf(last) == Some(k) then amountOf(last) else 0.0)
    ensures CountOf(front + [last], keyOf, k)
            == CountOf(front, keyOf, k) + (if keyOf(last) == Some(k) then 1 else 0)
    ensures FirstIndex(front + [last], keyOf, k)
            == if CountOf(front, keyOf, k) > 0 then FirstIndex(front, keyOf, k)
               else if keyOf(last) == Some(k) then |front| else |front| + 1
  {
    assert (front + [last])[..|front|] == front;
  }

  /** A key no item has collects no sales. */
  lemma {:induction false} NoItemsNoSales<T, K>(xs: seq<T>, keyOf: T -> Option<K>, amountOf: T -> real, k: K)
    requires CountOf(xs, keyOf, k) == 0
    ensures SalesOf(xs, keyOf, amountOf, k) == 0.0
  {
    if |xs| > 0 {
      NoItemsNoSales(xs[..|xs| - 1], keyOf, amountOf, k);
    }
  }

  /** An item without a key leaves the map as it was. */
  lemma AccumulateSkip<T, K(!new)>(front: seq<T>, last: T, gs: seq<Group<K>>, keyOf: T -> Option<K>, amountOf: T -> real)
    requires keyOf(last).None?
    requires GroupsOf(gs, front, keyOf, amountOf)
    ensures GroupsOf(gs, front + [last], keyOf, amountOf)
  {
    forall k: K ensures SalesOf(front + [last], keyOf, amountOf, k) == SalesOf(front, keyOf, amountOf, k)
      && CountOf(front + [last], keyOf, k) == CountOf(front, keyOf, k)
      && (CountOf(front, keyOf, k) > 0 ==> FirstIndex(front + [last], keyOf, k) == FirstIndex(front, keyOf, k))
    {
      AppendOne(front, last, keyOf, amountOf, k);
    }
    forall i | 0 <= i < |gs| ensures CountOf(front, keyOf, gs[i].key) > 0 {
      assert gs[i].key == Keys(gs)[i];
    }
  }

  /** An item with key `k` updates or appends the group of `k` and nothing else. */
  lemma AccumulateStep<T, K(!new)>(front: seq<T>, last: T, k: K, gs: seq<Group<K>>, keyOf: T -> Option<K>, amountOf: T -> real)
    requires keyOf(last) == Some(k)
    requires GroupsOf(gs, front, keyOf, amountOf)
    ensures GroupsOf(Upsert(gs, k, amountOf(last)), front + [last], keyOf, amountOf)
  {
    var xs := front + [last];
    var r := Upsert(gs, k, amountOf(last));
    forall k': K ensures SalesOf(xs, keyOf, amountOf, k')
                         == SalesOf(front, keyOf, amountOf, k') + (if k' == k then amountOf(last) else 0.0)
      && CountOf(xs, keyOf, k') == CountOf(front, keyOf, k') + (if k' == k then 1 else 0)
      && FirstIndex(xs, keyOf, k')
         == if CountOf(front, keyOf, k') > 0 then FirstIndex(front, keyOf, k')
            else if k' == k then |front| else |front| + 1
    {
      AppendOne(front, last, keyOf, amountOf, k');
    }
    forall i | 0 <= i < |gs| ensures CountOf(front, keyOf, gs[i].key) > 0 {
      assert gs[i].key == Keys(gs)[i];
    }
    StepTotals(front, last, k, gs, keyOf, amountOf);
    StepKeys(front, last, k, gs, keyOf, amountOf);
    StepOrder(front, last, k, gs, keyOf, amountOf);
  }

  lemma StepTotals<T, K(!new)>(front: seq<T>, last: T, k: K, gs: seq<Group<K>>, keyOf: T -> Option<K>, amountOf: T -> real)
    requires keyOf(last) == Some(k)
    requires GroupsOf(gs, front, keyOf, amountOf)
    ensures var r := Upsert(gs, k, amountOf(last));
            forall i :: 0 <= i < |r| ==>
              r[i].totalSales == SalesOf(front + [last], keyOf, amountOf, r[i].key)
              && r[i].count == CountOf(front + [last], keyOf, r[i].key)
  {
    var xs := front + [last];
    var r := Upsert(gs, k, amountOf(last));
    forall i | 0 <= i < |r|
      ensures r[i].totalSales == SalesOf(xs, keyOf, amountOf, r[i].key)
      ensures r[i].count == CountOf(xs, keyOf, r[i].key)
    {
      AppendOne(front, last, keyOf, amountOf, r[i].key);
      if i == |gs| {
        assert k !in Keys(gs);
        NoItemsNoSales(front, keyOf, amountOf, k);
      }
    }
  }

  lemma StepKeys<T, K(!new)>(front: seq<T>, last: T, k: K, gs: seq<Group<K>>, keyOf: T -> Option<K>, amountOf: T -> real)
    requires keyOf(last) == Some(k)
    requires GroupsOf(gs, front, keyOf, amountOf)
    ensures var r := Upsert(gs, k, amountOf(last));
            forall k' :: k' in Keys(r) <==> CountOf(front + [last], keyOf, k') > 0
  {
    var xs := front + [last];
    var r := Upsert(gs, k, amountOf(last));
    forall k' ensures k' in Keys(r) <==> CountOf(xs, keyOf, k') > 0 {
      AppendOne(front, last, keyOf, amountOf, k');
      if k' in Keys(r) {
        var i :| 0 <= i < |r| && Keys(r)[i] == k';
        if i < |gs| { assert r[i].key == gs[i].key; assert Keys(gs)[i] == k'; }
      }
      if CountOf(xs, keyOf, k') > 0 {
        if k' == k {
          if k !in Keys(gs) { assert Keys(r)[|gs|] == k; }
          else {
            var i := Position(gs, k);
            assert Keys(r)[i] == k;
          }
        } else {
          var i := Position(gs, k');
          assert Keys(r)[i] == k';
        }
      }
    }
  }

  lemma StepOrder<T, K(!new)>(front: seq<T>, last: T, k: K, gs: seq<Group<K>>, keyOf: T -> Option<K>, amountOf: T -> real)
    requires keyOf(last) == Some(k)
    requires GroupsOf(gs, front, keyOf, amountOf)
    ensures var r := Upsert(gs, k, amountOf(last));
            forall i, j :: 0 <= i < j < |r| ==>
              FirstIndex(front + [last], keyOf, r[i].key) < FirstIndex(front + [last], keyOf, r[j].key)
  {
    var xs := front + [last];
    var r := Upsert(gs, k, amountOf(last));
    forall i | 0 <= i < |gs|
      ensures r[i].key == gs[i].key
      ensures FirstIndex(xs, keyOf, gs[i].key) == FirstIndex(front, keyOf, gs[i].key) < |front|
    {
      assert gs[i].key == Keys(gs)[i];
      AppendOne(front, last, keyOf, amountOf, gs[i].key);
    }
    if |r| > |gs| {
      assert k !in Keys(gs);
      AppendOne(front, last, keyOf, amountOf, k);
      assert FirstIndex(xs, keyOf, r[|gs|].key) == |front|;
    }
  }

  /** Accumulation counts every item that has a key and adds up exactly their amounts. */
  lemma {:induction false} AccumulateTotals<T, K(!new)>(xs: seq<T>, keyOf: T -> Option<K>, amountOf: T -> real)
    ensures SumCounts(Accumulate(xs, keyOf, amountOf)) == KeyedCount(xs, keyOf)
    ensures SumSales(Accumulate(xs, keyOf, amountOf)) == KeyedSales(xs, keyOf, amountOf)
  {
    if |xs| > 0 {
      var front := xs[..|xs| - 1];
      var gs := Accumulate(front, keyOf, amountOf);
      AccumulateTotals(front, keyOf, amountOf);
      var last := xs[|xs| - 1];
      match keyOf(last)
      case None =>
      case Some(k) =>
        UpsertTotals(gs, k, amountOf(last));
    }
  }

  /** One upsert adds one transaction and the amount to the totals. */
  lemma UpsertTotals<K>(gs: seq<Group<K>>, k: K, amount: real)
    requires DistinctKeys(gs)
    ensures SumCounts(Upsert(gs, k, amount)) == SumCounts(gs) + 1
    ensures SumSales(Upsert(gs, k, amount)) == SumSales(gs) + amount
  {
    if k in Keys(gs) {
      UpsertExisting(gs, k, amount);
    } else {
      UpsertNew(gs, k, amount);
    }
  }

  lemma UpsertExisting<K>(gs: seq<Group<K>>, k: K, amount: real)
    requires DistinctKeys(gs) && k in Keys(gs)
    ensures SumCounts(Upsert(gs, k, amount)) == SumCounts(gs) + 1
    ensures SumSales(Upsert(gs, k, amount)) == SumSales(gs) + amount
  {
    var i := Position(gs, k);
    var g := Group(k, gs[i].totalSales + amount, gs[i].count + 1);
    UpsertAt(gs, k, amount);
    ReplaceTotals(Upsert(gs, k, amount), gs, i, g);
  }

  /** Totals of a map whose group `i` was replaced by `g`. */
  lemma ReplaceTotals<K>(r: seq<Group<K>>, gs: seq<Group<K>>, i: nat, g: Group<K>)
    requires i < |gs| && r == gs[i := g]
    ensures SumCounts(r) == SumCounts(gs) - gs[i].count + g.count
    ensures SumSales(r) == SumSales(gs) - gs[i].totalSales + g.totalSales
  {
    UpdateTotals(gs, i, g);
  }

  /** Upserting a present key replaces its group in place. */
  lemma UpsertAt<K>(gs: seq<Group<K>>, k: K, amount: real)
    requires DistinctKeys(gs) && k in Keys(gs)
    ensures Upsert(gs, k, amount)
         == gs[Position(gs, k) := Group(k, gs[Position(gs, k)].totalSales + amount, gs[Position(gs, k)].count + 1)]
  {
  }

  lemma UpsertNew<K>(gs: seq<Group<K>>, k: K, amount: real)
    requires DistinctKeys(gs) && k !in Keys(gs)
    ensures SumCounts(Upsert(gs, k, amount)) == SumCounts(gs) + 1
    ensures SumSales(Upsert(gs, k, amount)) == SumSales(gs) + amount
  {
    assert Upsert(gs, k, amount) == gs + [Group(k, amount, 1)];
    AppendTotals(gs, Group(k, amount, 1));
  }

  /** Appending a group adds its count and its sales to the totals. */
  lemma AppendTotals<K>(gs: seq<Group<K>>, g: Group<K>)
    ensures SumCounts(gs + [g]) == SumCounts(gs) + g.count
    ensures SumSales(gs + [g]) == SumSales(gs) + g.totalSales
  {
    assert (gs + [g])[..|gs|] == gs;
  }

  /** Replacing one group changes the totals by the difference. */
  lemma {:induction false} UpdateTotals<K>(gs: seq<Group<K>>, i: nat, g: Group<K>)
    requires i < |gs|
    ensures SumCounts(gs[i := g]) == SumCounts(gs) - gs[i].count + g.count
    ensures SumSales(gs[i := g]) == SumSales(gs) - gs[i].totalSales + g.totalSales
  {
    var r := gs[i := g];
    var n := |gs|;
    if i == n - 1 {
      assert r[..n - 1] == gs[..n - 1];
    } else {
      assert r[..n - 1] == gs[..n - 1][i := g];
      UpdateTotals(gs[..n - 1], i, g);
    }
  }

  // ---------------------------------------------------------------------
  // Stable sort
  // ---------------------------------------------------------------------

  /** Where insertion puts `x`: after every leading element that does not rank above it. */
  function InsertPosition<K>(s: seq<Group<K>>, x: Group<K>, rank: Group<K> -> real): (p: nat)
    ensures p <= |s|
    ensures forall i :: 0 <= i < p ==> rank(s[i]) <= rank(x)
    ensures p < |s| ==> rank(s[p]) > rank(x)
  {
    if |s| == 0 || rank(s[0]) > rank(x) then 0
    else 1 + InsertPosition(s[1..], x, rank)
  }

  function Insert<K>(s: seq<Group<K>>, x: Group<K>, rank: Group<K> -> real): (r: seq<Group<K>>)
    ensures multiset(r) == multiset(s) + multiset{x}
  {
    var p := InsertPosition(s, x, rank);
    assert s == s[..p] + s[p..];
    s[..p] + [x] + s[p..]
  }

  /**
   * `Array.prototype.sort` with comparator `rank(a) - rank(b)`: a stable
   * sort, here an insertion sort that inserts each element after the ones
   * of equal rank already placed.
   */
  function SortBy<K>(gs: seq<Group<K>>, rank: Group<K> -> real): (r: seq<Group<K>>)
    ensures multiset(r) == multiset(gs)
    ensures |r| == |gs|
  {
    if |gs| == 0 then []
    else
      var front := gs[..|gs| - 1];
      assert gs == front + [gs[|gs| - 1]];
      Insert(SortBy(front, rank), gs[|gs| - 1], rank)
  }

  /**
   * Ordered by `rank`, ties broken by `tie`: each element either ranks
   * strictly lower than a later one, or ranks the same and has a smaller tie.
   */
  predicate LexSorted<K>(r: seq<Group<K>>, rank: Group<K> -> real, tie: Group<K> -> int) {
    forall i, j :: 0 <= i < j < |r| ==>
      rank(r[i]) < rank(r[j]) || (rank(r[i]) == rank(r[j]) && tie(r[i]) < tie(r[j]))
  }

  /**
   * Stability: when `tie` increases along the input, the sorted output is
   * ordered by rank and, within equal rank, by input order.
   */
  lemma {:induction false} SortByStable<K>(gs: seq<Group<K>>, rank: Group<K> -> real, tie: Group<K> -> int)
    requires forall i, j :: 0 <= i < j < |gs| ==> tie(gs[i]) < tie(gs[j])
    ensures LexSorted(SortBy(gs, rank), rank, tie)
  {
    if |gs| > 0 {
      var front := gs[..|gs| - 1];
      var x := gs[|gs| - 1];
      var s := SortBy(front, rank);
      SortByStable(front, rank, tie);
      forall y | y in s ensures tie(y) < tie(x) {
        assert y in multiset(front);
        var i :| 0 <= i < |front| && front[i] == y;
        assert gs[i] == y;
      }
      InsertKeepsOrder(s, x, rank, tie);
    }
  }

  /** Inserting an element whose tie exceeds all others keeps the order. */
  lemma InsertKeepsOrder<K>(s: seq<Group<K>>, x: Group<K>, rank: Group<K> -> real, tie: Group<K> -> int)
    requires LexSorted(s, rank, tie)
    requires forall y :: y in s ==> tie(y) < tie(x)
    ensures LexSorted(Insert(s, x, rank), rank, tie)
  {
    var p := InsertPosition(s, x, rank);
    var r := Insert(s, x, rank);
    assert |r| == |s| + 1;
    assert forall i :: 0 <= i < p ==> r[i] == s[i];
    assert r[p] == x;
    assert forall i :: p < i < |r| ==> r[i] == s[i - 1];
    forall j | p <= j < |s| ensures rank(s[j]) > rank(x) {
      if j > p { assert rank(s[p]) <= rank(s[j]); }
    }
    forall i, j | 0 <= i < j < |r|
      ensures rank(r[i]) < rank(r[j]) || (rank(r[i]) == rank(r[j]) && tie(r[i]) < tie(r[j]))
    {
      if j == p {
        assert s[i] in s;
      } else if i == p {
        assert rank(s[j - 1]) > rank(x);
      } else {
        var i' := if i < p then i else i - 1;
        var j' := if j < p then j else j - 1;
        assert r[i] == s[i'] && r[j] == s[j'] && i' < j';
      }
    }
  }

  /** The elements of a sequence are those of any rearrangement of it. */
  lemma SameElements<K>(r: seq<Group<K>>, gs: seq<Group<K>>, i: nat)
    requires multiset(r) == multiset(gs) && i < |r|
    ensures exists j :: 0 <= j < |gs| && gs[j] == r[i]
  {
    assert r[i] in multiset(gs);
  }

  /** Sorting keeps the keys: a key is in the sorted groups exactly when it was in the input. */
  lemma SortKeepsKeys<K>(gs: seq<Group<K>>, rank: Group<K> -> real, k: K)
    ensures k in Keys(SortBy(gs, rank)) <==> k in Keys(gs)
  {
    var r := SortBy(gs, rank);
    if k in Keys(r) {
      var i :| 0 <= i < |r| && Keys(r)[i] == k;
      SameElements(r, gs, i);
      var j :| 0 <= j < |gs| && gs[j] == r[i];
      assert Keys(gs)[j] == k;
    }
    if k in Keys(gs) {
      var j :| 0 <= j < |gs| && Keys(gs)[j] == k;
      SameElements(gs, r, j);
      var i :| 0 <= i < |r| && r[i] == gs[j];
      assert Keys(r)[i] == k;
    }
  }

  /** Totals over a concatenation add up. */
  lemma {:induction false} SumsConcat<K>(a: seq<Group<K>>, b: seq<Group<K>>)
    ensures SumCounts(a + b) == SumCounts(a) + SumCounts(b)
    ensures SumSales(a + b) == SumSales(a) + SumSales(b)
  {
    if |b| == 0 {
      assert a + b == a;
    } else {
      assert (a + b)[..|a + b| - 1] == a + b[..|b| - 1];
      SumsConcat(a, b[..|b| - 1]);
    }
  }

  /** Sorting neither adds nor loses transactions or sales. */
  lemma {:induction false} SortKeepsTotals<K>(gs: seq<Group<K>>, rank: Group<K> -> real)
    ensures SumCounts(SortBy(gs, rank)) == SumCounts(gs)
    ensures SumSales(SortBy(gs, rank)) == SumSales(gs)
  {
    if |gs| > 0 {
      var front := gs[..|gs| - 1];
      var x := gs[|gs| - 1];
      var s := SortBy(front, rank);
      SortKeepsTotals(front, rank);
      assert SortBy(gs, rank) == Insert(s, x, rank);
      InsertKeepsTotals(s, x, rank);
    }
  }

  lemma InsertKeepsTotals<K>(s: seq<Group<K>>, x: Group<K>, rank: Group<K> -> real)
    ensures SumCounts(Insert(s, x, rank)) == SumCounts(s) + x.count
    ensures SumSales(Insert(s, x, rank)) == SumSales(s) + x.totalSales
  {
    var p := InsertPosition(s, x, rank);
    var a := s[..p];
    var b := s[p..];
    assert Insert(s, x, rank) == a + [x] + b;
    SumsConcat(a + [x], b);
    SumsConcat(a, [x]);
    SumsConcat(a, b);
    assert a + b == s;
    assert [x][..0] == [];
  }

  /**
   * The whole aggregation: group `xs` by key, then sort the groups by `rank`
   * with a stable sort. Every key that occurs gets exactly one group holding
   * its sales and its (positive) number of items; groups come in rank order,
   * equal ranks in the order their keys first occur; nothing is lost.
   */
  function GroupAndSort<T, K(==, !new)>(xs: seq<T>, keyOf: T -> Option<K>, amountOf: T -> real, rank: Group<K> -> real)
    : (r: seq<Group<K>>)
    ensures forall i :: 0 <= i < |r| ==> r[i].totalSales == SalesOf(xs, keyOf, amountOf, r[i].key)
    ensures forall i :: 0 <= i < |r| ==> r[i].count == CountOf(xs, keyOf, r[i].key) > 0
    ensures forall k :: k in Keys(r) <==> CountOf(xs, keyOf, k) > 0
    ensures forall i, j :: 0 <= i < j < |r| ==>
              rank(r[i]) < rank(r[j])
              || (rank(r[i]) == rank(r[j]) && FirstIndex(xs, keyOf, r[i].key) < FirstIndex(xs, keyOf, r[j].key))
    ensures SumCounts(r) == KeyedCount(xs, keyOf)
    ensures SumSales(r) == KeyedSales(xs, keyOf, amountOf)
  {
    var gs := Accumulate(xs, keyOf, amountOf);
    GroupAndSortFacts(xs, keyOf, amountOf, rank, gs);
    SortBy(gs, rank)
  }

  lemma GroupAndSortFacts<T, K(!new)>(xs: seq<T>, keyOf: T -> Option<K>, amountOf: T -> real, rank: Group<K> -> real, gs: seq<Group<K>>)
    requires gs == Accumulate(xs, keyOf, amountOf)
    ensures var r := SortBy(gs, rank);
            forall i :: 0 <= i < |r| ==>
              r[i].totalSales == SalesOf(xs, keyOf, amountOf, r[i].key)
              && r[i].count == CountOf(xs, keyOf, r[i].key) > 0
    ensures forall k :: k in Keys(SortBy(gs, rank)) <==> CountOf(xs, keyOf, k) > 0
    ensures LexSorted(SortBy(gs, rank), rank, (g: Group<K>) => FirstIndex(xs, keyOf, g.key))
    ensures SumCounts(SortBy(gs, rank)) == KeyedCount(xs, keyOf)
    ensures SumSales(SortBy(gs, rank)) == KeyedSales(xs, keyOf, amountOf)
  {
    var r := SortBy(gs, rank);
    SortByStable(gs, rank, (g: Group<K>) => FirstIndex(xs, keyOf, g.key));
    forall i | 0 <= i < |r|
      ensures r[i].totalSales == SalesOf(xs, keyOf, amountOf, r[i].key)
      ensures r[i].count == CountOf(xs, keyOf, r[i].key) > 0
    {
      SameElements(r, gs, i);
      var j :| 0 <= j < |gs| && gs[j] == r[i];
      assert Keys(gs)[j] == gs[j].key;
    }
    forall k ensures k in Keys(r) <==> CountOf(xs, keyOf, k) > 0 {
      SortKeepsKeys(gs, rank, k);
    }
    SortKeepsTotals(gs, rank);
    AccumulateTotals(xs, keyOf, amountOf);
  }
}
