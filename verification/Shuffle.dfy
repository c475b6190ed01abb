/** The Fisher-Yates shuffle shared by the wallpaper choosers
    (crates/daemon/src/app/state.rs:277-283, crates/curtain/src/background/slideshow.rs:134-140). */
module Shuffles {

  /** The outputs of the time-seeded generator during one shuffle, by the position they settle: any numbers at all. */
  type Draws = nat -> nat

  /** The place drawn for the item at `index`, at most `index` itself. */
  function Candidate(draws: Draws, index: nat): (candidate: nat)
    ensures candidate <= index
    ensures draws(index) <= index ==> candidate == draws(index)
  {
    draws(index) % (index + 1)
  }

  function Swapped<T>(items: seq<T>, i: nat, j: nat): (swapped: seq<T>)
    requires i < |items| && j < |items|
    ensures |swapped| == |items|
  {
    items[i := items[j]][j := items[i]]
  }

  /** The swaps still to come once the positions above `index` are settled. */
  function ShuffledBelow<T>(items: seq<T>, index: nat, draws: Draws): (shuffled: seq<T>)
    requires index < |items|
    ensures |shuffled| == |items|
    decreases index
  {
    if index == 0 then items
    else ShuffledBelow(Swapped(items, index, Candidate(draws, index)), index - 1, draws)
  }

  function Shuffled<T>(items: seq<T>, draws: Draws): (shuffled: seq<T>)
    ensures |shuffled| == |items|
  {
    if items == [] then [] else ShuffledBelow(items, |items| - 1, draws)
  }

  lemma {:induction false} ShuffledBelowPermutes<T>(items: seq<T>, index: nat, draws: Draws)
    requires index < |items|
    ensures multiset(ShuffledBelow(items, index, draws)) == multiset(items)
    decreases index
  {
    if index > 0 {
      ShuffledBelowPermutes(Swapped(items, index, Candidate(draws, index)), index - 1, draws);
    }
  }

  /** A shuffle is a permutation of its input, whatever is drawn. */
  lemma ShuffledPermutes<T>(items: seq<T>, draws: Draws)
    ensures multiset(Shuffled(items, draws)) == multiset(items)
  {
    if items != [] {
      ShuffledBelowPermutes(items, |items| - 1, draws);
    }
  }

  lemma {:induction false} OnlyDrawsBelowMatter<T>(items: seq<T>, index: nat, d: Draws, e: Draws)
    requires index < |items| && forall k: nat | k <= index :: d(k) == e(k)
    ensures ShuffledBelow(items, index, d) == ShuffledBelow(items, index, e)
    decreases index
  {
    if index > 0 {
      OnlyDrawsBelowMatter(Swapped(items, index, Candidate(d, index)), index - 1, d, e);
    }
  }

  lemma SwappedToEnd<T>(items: seq<T>, c: nat)
    requires c < |items|
    ensures var swapped := Swapped(items, |items| - 1, c);
            && swapped == swapped[..|items| - 1] + [items[c]]
            && multiset(swapped[..|items| - 1]) + multiset{items[c]} == multiset(items)
  {
    var swapped := Swapped(items, |items| - 1, c);
    assert swapped == swapped[..|items| - 1] + [items[c]];
    assert multiset(swapped) == multiset(items);
  }

  lemma SameWithoutLast<T>(a: seq<T>, b: seq<T>, last: T)
    requires multiset(a) + multiset{last} == multiset(b + [last])
    ensures multiset(a) == multiset(b)
  {
    assert multiset(b + [last]) - multiset{last} == multiset(b);
    assert multiset(a) + multiset{last} - multiset{last} == multiset(a);
  }

  lemma SwappedInPrefix<T>(items: seq<T>, settled: seq<T>, i: nat, j: nat)
    requires i < |items| && j < |items|
    ensures Swapped(items + settled, i, j) == Swapped(items, i, j) + settled
  {
  }

  /** The swap that settles the last place of `target`, and what is left to order. */
  lemma SettleLast<T(!new)>(open: seq<T>, target: seq<T>) returns (c: nat, rest: seq<T>, init: seq<T>)
    requires open != [] && multiset(open) == multiset(target)
    ensures |target| == |open| && target == init + [target[|open| - 1]]
    ensures c < |open| && Swapped(open, |open| - 1, c) == rest + [target[|open| - 1]]
    ensures multiset(rest) == multiset(init) && |rest| == |init| == |open| - 1
  {
    assert |open| == |multiset(open)| == |target|;
    var last := target[|target| - 1];
    init := target[..|target| - 1];
    assert target == init + [last];
    assert last in multiset(target);
    c :| 0 <= c < |open| && open[c] == last;
    rest := Swapped(open, |open| - 1, c)[..|open| - 1];
    SwappedToEnd(open, c);
    SameWithoutLast(rest, init, last);
  }

  lemma SwappedBefore<T>(open: seq<T>, settled: seq<T>, c: nat, rest: seq<T>, last: T)
    requires open != [] && c < |open| && Swapped(open, |open| - 1, c) == rest + [last]
    ensures Swapped(open + settled, |open| - 1, c) == rest + ([last] + settled)
  {
    SwappedInPrefix(open, settled, |open| - 1, c);
    assert rest + [last] + settled == rest + ([last] + settled);
  }

  /** Draws that put `open` into the order `target`, leaving the settled part alone. */
  lemma {:induction false} DrawsReaching<T(!new)>(open: seq<T>, settled: seq<T>, target: seq<T>) returns (draws: Draws)
    requires open != [] && multiset(open) == multiset(target)
    ensures ShuffledBelow(open + settled, |open| - 1, draws) == target + settled
    decreases |open|
  {
    var c, rest, init := SettleLast(open, target);
    var index, last := |open| - 1, target[|open| - 1];
    if index == 0 {
      draws := _ => 0;
      assert open == Swapped(open, 0, 0) == target;
    } else {
      var later := DrawsReaching(rest, [last] + settled, init);
      draws := k => if k == index then c else later(k);
      OnlyDrawsBelowMatter(rest + ([last] + settled), index - 1, draws, later);
      SwappedBefore(open, settled, c, rest, last);
      assert target + settled == init + ([last] + settled);
    }
  }

  /** And every permutation comes of some draws: the choice of swaps shuts out no order.  A generator seeded with
      64 bits cannot make all these draws once there are more than 2^64 orders. */
  lemma EveryOrderIsReachable<T(!new)>(items: seq<T>, target: seq<T>)
    requires multiset(items) == multiset(target)
    ensures exists draws: Draws :: Shuffled(items, draws) == target
  {
    assert |items| == |multiset(items)| == |target|;
    if items == [] {
      assert Shuffled(items, _ => 0) == target;
    } else {
      var draws := DrawsReaching(items, [], target);
      assert items + [] == items && target + [] == target;
      assert Shuffled(items, draws) == target;
    }
  }

  method Shuffle<T>(items: array<T>, draws: Draws)
    modifies items
    ensures items[..] == Shuffled(old(items[..]), draws)
  {
    if items.Length == 0 {
      return;
    }
    var index := items.Length - 1;
    while index > 0
      invariant 0 <= index < items.Length
      invariant ShuffledBelow(items[..], index, draws) == Shuffled(old(items[..]), draws)
    {
      ghost var before := items[..];
      var candidate := Candidate(draws, index);
      items[index], items[candidate] := items[candidate], items[index];
      assert items[..] == Swapped(before, index, candidate);
      index := index - 1;
    }
  }

  // ---- Duplicate-free sequences

  ghost predicate Distinct<T(!new)>(items: seq<T>) {
    forall i, j | 0 <= i < j < |items| :: items[i] != items[j]
  }

  lemma {:induction false} DistinctCounts<T(!new)>(items: seq<T>, x: T)
    requires Distinct(items)
    ensures multiset(items)[x] == if x in items then 1 else 0
  {
    if items != [] {
      var init, last := items[..|items| - 1], items[|items| - 1];
      assert items == init + [last];
      DistinctCounts(init, x);
    }
  }

  lemma RepeatCounts<T>(items: seq<T>, i: nat, j: nat)
    requires i < j < |items| && items[i] == items[j]
    ensures multiset(items)[items[i]] >= 2
  {
    assert items == items[..j] + items[j..];
    assert items[i] in items[..j] && items[j] in items[j..];
  }

  lemma PermutationKeepsDistinct<T(!new)>(a: seq<T>, b: seq<T>)
    requires multiset(a) == multiset(b) && Distinct(a)
    ensures Distinct(b)
    ensures forall x :: x in a <==> x in b
  {
    forall i, j | 0 <= i < j < |b| ensures b[i] != b[j] {
      if b[i] == b[j] {
        RepeatCounts(b, i, j);
        DistinctCounts(a, b[i]);
      }
    }
    assert forall x :: x in a <==> x in multiset(a);
    assert forall x :: x in b <==> x in multiset(b);
  }
}
