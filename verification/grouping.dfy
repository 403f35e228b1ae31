/** `groupby(key).agg(mean)` over integer keys: the rows that survive `dropna`
    are reduced to (key, value) pairs, grouped by exact key, and each group is
    kept as its running total and row count. Groups come out in ascending key
    order, the default of `groupby`, and a key no pair carries has no group. */
module Grouping {
  import opened Wrappers

  /** A grouping key and the income it contributes. */
  datatype Pair = Pair(key: int, value: int)

  /** One output group: its key, the sum and the number of its values. */
  datatype Group = Group(key: int, total: int, count: nat)

  /** Sum of the values carried by key `k`. */
  function SumFor(ps: seq<Pair>, k: int): int
    decreases |ps|
  {
    if |ps| == 0 then 0
    else SumFor(ps[..|ps| - 1], k) + (if ps[|ps| - 1].key == k then ps[|ps| - 1].value else 0)
  }

  /** Number of pairs carrying key `k`. */
  function CountFor(ps: seq<Pair>, k: int): nat
    decreases |ps|
  {
    if |ps| == 0 then 0
    else CountFor(ps[..|ps| - 1], k) + (if ps[|ps| - 1].key == k then 1 else 0)
  }

  /** A key no pair carries sums to zero. */
  lemma {:induction false} NoPairsNoSum(ps: seq<Pair>, k: int)
    requires CountFor(ps, k) == 0
    ensures SumFor(ps, k) == 0
    decreases |ps|
  {
    if |ps| > 0 {
      NoPairsNoSum(ps[..|ps| - 1], k);
    }
  }

  /** Mean value of a non-empty group. */
  function Mean(g: Group): real
    requires g.count > 0
  {
    g.total as real / g.count as real
  }

  /** Keys strictly ascend, so no key has two groups. */
  predicate StrictlyAscending(gs: seq<Group>)
  {
    forall i, j :: 0 <= i < j < |gs| ==> gs[i].key < gs[j].key
  }

  /** No group is empty. */
  predicate NonEmptyGroups(gs: seq<Group>)
  {
    forall i :: 0 <= i < |gs| ==> gs[i].count > 0
  }

  /** The group for key `k`, if there is one. */
  function Find(gs: seq<Group>, k: int): (r: Option<Group>)
    ensures r.Some? ==> r.value.key == k && r.value in gs
  {
    if |gs| == 0 then None
    else if gs[0].key == k then Some(gs[0])
    else Find(gs[1..], k)
  }

  /** The group `groupby` reports for key `k` over the pairs `ps`. */
  function Expected(ps: seq<Pair>, k: int): Option<Group>
  {
    if CountFor(ps, k) == 0 then None else Some(Group(k, SumFor(ps, k), CountFor(ps, k)))
  }

  /** Adds one pair to a sorted group list: into the group of its key when
      there is one, as a new group of one at its sorted place otherwise. */
  function Insert(gs: seq<Group>, p: Pair): (r: seq<Group>)
    requires StrictlyAscending(gs) && NonEmptyGroups(gs)
    ensures StrictlyAscending(r) && NonEmptyGroups(r)
    ensures |r| > 0 && (r[0].key == p.key || (|gs| > 0 && r[0].key == gs[0].key))
  {
    if |gs| == 0 then [Group(p.key, p.value, 1)]
    else if gs[0].key == p.key then [Group(p.key, gs[0].total + p.value, gs[0].count + 1)] + gs[1..]
    else if p.key < gs[0].key then [Group(p.key, p.value, 1)] + gs
    else [gs[0]] + Insert(gs[1..], p)
  }

  /** A group with one more value `v`; a new group of one when there was none. */
  function AddValue(o: Option<Group>, k: int, v: int): (r: Option<Group>)
  {
    match o
    case None => Some(Group(k, v, 1))
    case Some(g) => Some(Group(k, g.total + v, g.count + 1))
  }

  /** A key below the first key of a sorted list has no group. */
  lemma {:induction false} FindBelowFirst(gs: seq<Group>, k: int)
    requires StrictlyAscending(gs) && |gs| > 0 && k < gs[0].key
    ensures Find(gs, k) == None
    decreases |gs|
  {
    if |gs| > 1 {
      FindBelowFirst(gs[1..], k);
    }
  }

  /** Inserting a pair changes the group of its key and no other. */
  lemma {:induction false} InsertFind(gs: seq<Group>, p: Pair, k: int)
    requires StrictlyAscending(gs) && NonEmptyGroups(gs)
    ensures Find(Insert(gs, p), k) == if k == p.key then AddValue(Find(gs, k), k, p.value) else Find(gs, k)
    decreases |gs|
  {
    var r := Insert(gs, p);
    if |gs| == 0 {
    } else if gs[0].key == p.key {
      assert r[1..] == gs[1..];
    } else if p.key < gs[0].key {
      assert r[1..] == gs;
      if k == p.key {
        FindBelowFirst(gs, k);
      }
    } else {
      InsertFind(gs[1..], p, k);
      assert r[1..] == Insert(gs[1..], p);
    }
  }

  /** Groups a sequence of pairs, one pair at a time, keeping the groups sorted. */
  function GroupBy(ps: seq<Pair>): (r: seq<Group>)
    decreases |ps|
    ensures StrictlyAscending(r) && NonEmptyGroups(r)
  {
    if |ps| == 0 then [] else Insert(GroupBy(ps[..|ps| - 1]), ps[|ps| - 1])
  }

  /** The group found for any key is the one `groupby` reports: absent when no
      pair carries the key, otherwise with the key's sum and count. */
  lemma {:induction false} GroupByFind(ps: seq<Pair>, k: int)
    ensures Find(GroupBy(ps), k) == Expected(ps, k)
    decreases |ps|
  {
    if |ps| > 0 {
      var init := ps[..|ps| - 1];
      var last := ps[|ps| - 1];
      GroupByFind(init, k);
      InsertFind(GroupBy(init), last, k);
      ExpectedStep(ps, k);
    }
  }

  /** One more pair adds its value to the expected group of its key. */
  lemma ExpectedStep(ps: seq<Pair>, k: int)
    requires |ps| > 0
    ensures var init := ps[..|ps| - 1];
      var last := ps[|ps| - 1];
      Expected(ps, k) == if k == last.key then AddValue(Expected(init, k), k, last.value) else Expected(init, k)
  {
    var init := ps[..|ps| - 1];
    var last := ps[|ps| - 1];
    if k == last.key && CountFor(init, k) == 0 {
      NoPairsNoSum(init, k);
    }
  }

  /** In a sorted group list, the group at position `i` is the one `Find`
      returns for its key. */
  lemma FindAt(gs: seq<Group>, i: int)
    requires StrictlyAscending(gs) && 0 <= i < |gs|
    ensures Find(gs, gs[i].key) == Some(gs[i])
  {
    if i > 0 {
      FindAt(gs[1..], i - 1);
    }
  }

  /** Exactly one group per distinct key among the pairs, each with that key's
      sum and count; keys ascending. */
  lemma GroupByGroups(ps: seq<Pair>)
    ensures var r := GroupBy(ps);
      && StrictlyAscending(r)
      && (forall i :: 0 <= i < |r| ==> r[i].count > 0 && r[i].total == SumFor(ps, r[i].key) && r[i].count == CountFor(ps, r[i].key))
      && (forall k :: CountFor(ps, k) > 0 <==> exists i :: 0 <= i < |r| && r[i].key == k)
  {
    var r := GroupBy(ps);
    forall i | 0 <= i < |r|
      ensures r[i].count > 0 && r[i].total == SumFor(ps, r[i].key) && r[i].count == CountFor(ps, r[i].key)
    {
      FindAt(r, i);
      GroupByFind(ps, r[i].key);
    }
    forall k ensures CountFor(ps, k) > 0 <==> exists i :: 0 <= i < |r| && r[i].key == k {
      GroupByFind(ps, k);
    }
  }

  /** A key occurs among the pairs exactly when some pair carries it. */
  lemma {:induction false} CountForPositive(ps: seq<Pair>, k: int)
    ensures CountFor(ps, k) > 0 <==> exists i :: 0 <= i < |ps| && ps[i].key == k
    decreases |ps|
  {
    if |ps| > 0 {
      var init := ps[..|ps| - 1];
      CountForPositive(init, k);
      if exists i :: 0 <= i < |init| && init[i].key == k {
        var i :| 0 <= i < |init| && init[i].key == k;
        assert ps[i] == init[i];
      }
      if exists i :: 0 <= i < |ps| && ps[i].key == k {
        var i :| 0 <= i < |ps| && ps[i].key == k;
        if i < |init| {
          assert init[i] == ps[i];
        }
      }
    }
  }

  /** Sum of the counts of a group list. */
  function CountSum(gs: seq<Group>): nat
  {
    if |gs| == 0 then 0 else gs[0].count + CountSum(gs[1..])
  }

  lemma {:induction false} InsertCountSum(gs: seq<Group>, p: Pair)
    requires StrictlyAscending(gs) && NonEmptyGroups(gs)
    ensures CountSum(Insert(gs, p)) == CountSum(gs) + 1
    decreases |gs|
  {
    if |gs| == 0 {
    } else if gs[0].key == p.key {
      assert Insert(gs, p)[1..] == gs[1..];
    } else if p.key < gs[0].key {
      assert Insert(gs, p)[1..] == gs;
    } else {
      InsertCountSum(gs[1..], p);
      assert Insert(gs, p)[1..] == Insert(gs[1..], p);
    }
  }

  /** Every pair lands in exactly one group: the counts add up to the number
      of pairs. */
  lemma {:induction false} GroupByCountsAddUp(ps: seq<Pair>)
    ensures CountSum(GroupBy(ps)) == |ps|
    decreases |ps|
  {
    if |ps| > 0 {
      var init := ps[..|ps| - 1];
      GroupByCountsAddUp(init);
      InsertCountSum(GroupBy(init), ps[|ps| - 1]);
    }
  }

  /** Bounds on the values of a key bound their sum by the count. */
  lemma {:induction false} SumForBounds(ps: seq<Pair>, k: int, lo: int, hi: int)
    requires forall i :: 0 <= i < |ps| && ps[i].key == k ==> lo <= ps[i].value <= hi
    ensures lo * CountFor(ps, k) <= SumFor(ps, k) <= hi * CountFor(ps, k)
    decreases |ps|
  {
    if |ps| > 0 {
      var init := ps[..|ps| - 1];
      var last := ps[|ps| - 1];
      assert forall i :: 0 <= i < |init| ==> init[i] == ps[i];
      SumForBounds(init, k, lo, hi);
      var n := CountFor(init, k);
      if last.key == k {
        assert lo <= last.value <= hi;
        assert lo * (n + 1) == lo * n + lo && hi * (n + 1) == hi * n + hi;
      }
    }
  }

  /** An integer average lies within the bounds that hold for its items. */
  lemma AverageBounds(s: int, n: int, lo: int, hi: int)
    requires n > 0 && lo * n <= s <= hi * n
    ensures lo as real <= s as real / n as real <= hi as real
  {
    var q := s as real / n as real;
    assert q * n as real == s as real;
    assert (lo * n) as real == lo as real * n as real;
    assert (hi * n) as real == hi as real * n as real;
  }

  /** A group's mean lies within any bounds on its values; in particular it lies
      between the group's smallest and largest value. */
  lemma MeanWithinBounds(ps: seq<Pair>, k: int, lo: int, hi: int)
    requires CountFor(ps, k) > 0
    requires forall i :: 0 <= i < |ps| && ps[i].key == k ==> lo <= ps[i].value <= hi
    ensures var g := Group(k, SumFor(ps, k), CountFor(ps, k));
      lo as real <= Mean(g) <= hi as real
  {
    SumForBounds(ps, k, lo, hi);
    AverageBounds(SumFor(ps, k), CountFor(ps, k), lo, hi);
  }
}
