/** The daemon's choice of the next wallpaper per lock (crates/daemon/src/app/state.rs:216-283):
    in order, or from a shuffled bag that is refilled when it runs out. */
module BackgroundSelections {
  import opened Arithmetic
  import opened Options
  import opened Shuffles

  type Path = string

  datatype Order = Sequence | Random

  datatype Selection = Selection(paths: seq<Path>, remaining: seq<Path>, last: Option<Path>, sequenceIndex: nat)

  const DEFAULT := Selection([], [], None, 0)

  /** The first path other than `last`, or the number of paths. */
  function FirstOther(paths: seq<Path>, last: Path): (index: nat)
    ensures index <= |paths|
    ensures index < |paths| ==> paths[index] != last
    ensures forall i | 0 <= i < index :: paths[i] == last
  {
    if paths == [] || paths[0] != last then 0 else 1 + FirstOther(paths[1..], last)
  }

  /** A refilled bag: shuffled, then its head exchanged if it would repeat the last wallpaper. */
  function Refilled(paths: seq<Path>, last: Option<Path>, draws: Draws): (bag: seq<Path>)
    ensures |bag| == |paths|
  {
    var bag := Shuffled(paths, draws);
    if |bag| > 1 && last.Some? && bag[0] == last.value && FirstOther(bag, last.value) < |bag| then
      Swapped(bag, 0, FirstOther(bag, last.value))
    else
      bag
  }

  /** A changed list empties the bag and restarts the order; the last wallpaper is remembered if still listed. */
  function Synced(s: Selection, paths: seq<Path>): Selection {
    if s.paths == paths then s
    else Selection(paths, [], if s.last.Some? && s.last.value in paths then s.last else None, 0)
  }

  function NextPath(s: Selection, paths: seq<Path>, order: Order, draws: Draws): (Selection, Option<Path>) {
    if paths == [] then
      (DEFAULT, None)
    else
      var t := Synced(s, paths);
      match order
      case Sequence =>
        var next := paths[t.sequenceIndex % |paths|];
        (t.(sequenceIndex := (t.sequenceIndex + 1) % |paths|, last := Some(next)), Some(next))
      case Random =>
        var bag := if t.remaining == [] then Refilled(paths, t.last, draws) else t.remaining;
        (t.(remaining := bag[1..], last := Some(bag[0])), Some(bag[0]))
  }

  // ---- One random draw

  lemma RefilledPermutes(paths: seq<Path>, last: Option<Path>, draws: Draws)
    ensures multiset(Refilled(paths, last, draws)) == multiset(paths)
  {
    ShuffledPermutes(paths, draws);
  }

  lemma RefilledAvoidsLast(paths: seq<Path>, last: Option<Path>, draws: Draws)
    requires |paths| >= 2 && Distinct(paths)
    ensures Some(Refilled(paths, last, draws)[0]) != last
    ensures Distinct(Refilled(paths, last, draws))
  {
    RefilledPermutes(paths, last, draws);
    PermutationKeepsDistinct(paths, Refilled(paths, last, draws));
    ShuffledPermutes(paths, draws);
    PermutationKeepsDistinct(paths, Shuffled(paths, draws));
    assert Shuffled(paths, draws)[0] != Shuffled(paths, draws)[1];
  }

  /** In any state, reachable or not, a random draw from a list without duplicates repeats the last wallpaper
      exactly when that wallpaper heads what is left of the bag. */
  lemma RandomRepeatsIff(s: Selection, paths: seq<Path>, draws: Draws)
    requires |paths| >= 2 && Distinct(paths)
    ensures s.last.Some? ==>
              (NextPath(s, paths, Random, draws).1 == s.last
               <==> s.paths == paths && s.remaining != [] && Some(s.remaining[0]) == s.last)
  {
    var t := Synced(s, paths);
    RefilledAvoidsLast(paths, t.last, draws);
    if t.remaining == [] && t.last.None? {
      RefilledPermutes(paths, t.last, draws);
      PermutationKeepsDistinct(paths, Refilled(paths, t.last, draws));
      assert Refilled(paths, t.last, draws)[0] in paths;
    }
  }

  // ---- Random-only runs

  /** The bag holds no duplicate and never the wallpaper drawn last. */
  ghost predicate Fresh(s: Selection) {
    Distinct(s.remaining) && (s.last.Some? ==> s.last.value !in s.remaining)
  }

  lemma RandomKeepsFresh(s: Selection, paths: seq<Path>, draws: Draws)
    requires Fresh(s) && |paths| >= 2 && Distinct(paths)
    ensures var (next, out) := NextPath(s, paths, Random, draws);
            Fresh(next) && out.Some? && next.last == out && next.paths == paths && (s.last.Some? ==> out != s.last)
  {
    RandomRepeatsIff(s, paths, draws);
    RefilledAvoidsLast(paths, Synced(s, paths).last, draws);
  }

  datatype Call = Call(paths: seq<Path>, draws: Draws)

  function RandomRun(s: Selection, calls: seq<Call>): seq<Option<Path>>
    decreases |calls|
  {
    if calls == [] then []
    else
      var (next, out) := NextPath(s, calls[0].paths, Random, calls[0].draws);
      [out] + RandomRun(next, calls[1..])
  }

  lemma {:induction false} RandomRunNeverRepeats(s: Selection, calls: seq<Call>)
    requires Fresh(s) && forall call <- calls :: |call.paths| >= 2 && Distinct(call.paths)
    ensures var outs := RandomRun(s, calls);
            && |outs| == |calls|
            && (outs != [] && s.last.Some? ==> outs[0] != s.last)
            && forall i | 0 <= i < |outs| - 1 :: outs[i] != outs[i + 1]
    decreases |calls|
  {
    if calls != [] {
      RandomKeepsFresh(s, calls[0].paths, calls[0].draws);
      var next := NextPath(s, calls[0].paths, Random, calls[0].draws).0;
      RandomRunNeverRepeats(next, calls[1..]);
      var outs, rest := RandomRun(s, calls), RandomRun(next, calls[1..]);
      assert outs[1..] == rest;
      forall i | 0 <= i < |outs| - 1 ensures outs[i] != outs[i + 1] {
        if i > 0 {
          assert outs[i] == rest[i - 1] && outs[i + 1] == rest[i];
        }
      }
    }
  }

  /** From the start, and with the list replaced at will: consecutive locks never show the same wallpaper. */
  lemma ConsecutiveRandomWallpapersDiffer(calls: seq<Call>, i: nat)
    requires forall call <- calls :: |call.paths| >= 2 && Distinct(call.paths)
    requires i + 1 < |calls|
    ensures |RandomRun(DEFAULT, calls)| == |calls| && RandomRun(DEFAULT, calls)[i] != RandomRun(DEFAULT, calls)[i + 1]
  {
    RandomRunNeverRepeats(DEFAULT, calls);
  }

  // ---- Blocks of one list

  function Draw(s: Selection, paths: seq<Path>, draws: seq<Draws>): seq<Path>
    requires paths != []
    decreases |draws|
  {
    if draws == [] then []
    else
      var (next, out) := NextPath(s, paths, Random, draws[0]);
      [out.value] + Draw(next, paths, draws[1..])
  }

  function Drained(s: Selection): Selection {
    if s.remaining == [] then s else s.(remaining := [], last := Some(s.remaining[|s.remaining| - 1]))
  }

  lemma DrawUnfold(s: Selection, paths: seq<Path>, draws: seq<Draws>)
    requires paths != [] && s.paths == paths && s.remaining != [] && |s.remaining| <= |draws|
    ensures var next := s.(remaining := s.remaining[1..], last := Some(s.remaining[0]));
            && Draw(s, paths, draws) == [s.remaining[0]] + Draw(next, paths, draws[1..])
            && Drained(next) == Drained(s) && draws[1..][|next.remaining|..] == draws[|s.remaining|..]
  {
    assert draws[1..][|s.remaining| - 1..] == draws[|s.remaining|..];
  }

  lemma HeadFirst(bag: seq<Path>, rest: seq<Path>)
    requires bag != []
    ensures [bag[0]] + (bag[1..] + rest) == bag + rest
  {
  }

  /** What is left of the bag is drawn in order before anything else. */
  lemma {:induction false} BagIsDrawnInOrder(s: Selection, paths: seq<Path>, draws: seq<Draws>)
    requires paths != [] && s.paths == paths && |s.remaining| <= |draws|
    ensures Draw(s, paths, draws) == s.remaining + Draw(Drained(s), paths, draws[|s.remaining|..])
    decreases |s.remaining|
  {
    if s.remaining != [] {
      var next := s.(remaining := s.remaining[1..], last := Some(s.remaining[0]));
      DrawUnfold(s, paths, draws);
      BagIsDrawnInOrder(next, paths, draws[1..]);
      HeadFirst(s.remaining, Draw(Drained(s), paths, draws[|s.remaining|..]));
    } else {
      assert draws[0..] == draws;
    }
  }

  /** With an empty bag, the next |paths| draws are one refilled bag, and leave it empty again. */
  lemma FirstBlock(s: Selection, paths: seq<Path>, draws: seq<Draws>) returns (bag: seq<Path>, after: Selection)
    requires paths != [] && s.paths == paths && s.remaining == [] && |draws| >= |paths|
    ensures |bag| == |paths| && multiset(bag) == multiset(paths)
    ensures after.paths == paths && after.remaining == []
    ensures Draw(s, paths, draws) == bag + Draw(after, paths, draws[|paths|..])
  {
    bag := Refilled(paths, s.last, draws[0]);
    RefilledPermutes(paths, s.last, draws[0]);
    var full := s.(remaining := bag);
    assert Draw(s, paths, draws) == Draw(full, paths, draws);
    BagIsDrawnInOrder(full, paths, draws);
    after := Drained(full);
  }

  ghost predicate IsBlockStart(start: nat, n: nat)
    requires n > 0
  {
    start == 0 || (start >= n && IsBlockStart(start - n, n))
  }

  lemma {:induction false} MultiplesAreBlockStarts(k: nat, n: nat)
    requires n > 0
    ensures IsBlockStart(k * n, n)
  {
    if k > 0 {
      MultiplesAreBlockStarts(k - 1, n);
      assert k * n == (k - 1) * n + n;
    }
  }

  /** The draws around the block that begins at `start`. */
  lemma {:induction false} BlockAt(s: Selection, paths: seq<Path>, draws: seq<Draws>, start: nat)
    returns (before: seq<Path>, block: seq<Path>, after: seq<Path>)
    requires paths != [] && s.paths == paths && s.remaining == []
    requires IsBlockStart(start, |paths|) && start + |paths| <= |draws|
    ensures Draw(s, paths, draws) == before + block + after && |before| == start
    ensures |block| == |paths| && multiset(block) == multiset(paths)
    decreases start
  {
    var bag, next := FirstBlock(s, paths, draws);
    if start == 0 {
      before, block, after := [], bag, Draw(next, paths, draws[|paths|..]);
      Regrouped([], [], bag, after);
    } else {
      before, block, after := BlockAt(next, paths, draws[|paths|..], start - |paths|);
      Regrouped(bag, before, block, after);
      before := bag + before;
    }
  }

  lemma Regrouped(a: seq<Path>, b: seq<Path>, c: seq<Path>, d: seq<Path>)
    ensures a + (b + c + d) == (a + b) + c + d
    ensures [] + c + d == c + d
  {
  }

  /** From the start over one list: the draws fall into blocks, each showing every wallpaper once. */
  lemma EachBlockShowsEveryWallpaper(paths: seq<Path>, draws: seq<Draws>, k: nat)
    requires paths != [] && (k + 1) * |paths| <= |draws|
    ensures |Draw(DEFAULT, paths, draws)| >= k * |paths| + |paths|
    ensures multiset(Draw(DEFAULT, paths, draws)[k * |paths|..k * |paths| + |paths|]) == multiset(paths)
  {
    var s, start := Synced(DEFAULT, paths), k * |paths|;
    assert Draw(DEFAULT, paths, draws) == Draw(s, paths, draws);
    MultiplesAreBlockStarts(k, |paths|);
    var before, block, after := BlockAt(s, paths, draws, start);
    assert (before + block + after)[start..start + |paths|] == block;
  }

  // ---- Ordered runs

  function OrderedRun(s: Selection, paths: seq<Path>, calls: nat, draws: Draws): seq<Option<Path>>
    decreases calls
  {
    if calls == 0 then []
    else
      var (next, out) := NextPath(s, paths, Sequence, draws);
      [out] + OrderedRun(next, paths, calls - 1, draws)
  }

  /** Ordered draws walk the list round and round. */
  lemma {:induction false} OrderedRunCycles(s: Selection, paths: seq<Path>, calls: nat, draws: Draws, i: nat)
    requires paths != [] && i < calls
    ensures |OrderedRun(s, paths, calls, draws)| == calls
    ensures OrderedRun(s, paths, calls, draws)[i] == Some(paths[(Synced(s, paths).sequenceIndex + i) % |paths|])
    decreases calls
  {
    var n, start := |paths|, Synced(s, paths).sequenceIndex;
    var next := NextPath(s, paths, Sequence, draws).0;
    if i > 0 {
      OrderedRunCycles(next, paths, calls - 1, draws, i - 1);
      assert (next.sequenceIndex + (i - 1)) % n == (start + i) % n by {
        ModPlusMod(start + 1, i - 1, n);
      }
    } else if calls > 1 {
      OrderedRunCycles(next, paths, calls - 1, draws, 0);
    }
  }

  // ---- The program

  class BackgroundSelectionState {
    var paths: seq<Path>
    var remaining: seq<Path>
    var last: Option<Path>
    var sequenceIndex: nat

    ghost function State(): Selection
      reads this
    {
      Selection(paths, remaining, last, sequenceIndex)
    }

    constructor ()
      ensures State() == DEFAULT
    {
      paths, remaining, last, sequenceIndex := [], [], None, 0;
    }

    method Next(listed: seq<Path>, order: Order, draws: Draws) returns (next: Option<Path>)
      modifies this
      ensures (State(), next) == NextPath(old(State()), listed, order, draws)
    {
      if listed == [] {
        paths, remaining, last, sequenceIndex := [], [], None, 0;
        return None;
      }
      if paths != listed {
        paths, remaining := listed, [];
        if last.Some? && last.value !in paths {
          last := None;
        }
        sequenceIndex := 0;
      }
      match order {
        case Sequence =>
          next := Some(paths[sequenceIndex % |paths|]);
          sequenceIndex := (sequenceIndex + 1) % |paths|;
        case Random =>
          if remaining == [] {
            remaining := Refill(draws);
          }
          next := Some(remaining[0]);
          remaining := remaining[1..];
      }
      last := next;
    }

    method Refill(draws: Draws) returns (bag: seq<Path>)
      ensures bag == Refilled(paths, last, draws)
    {
      var items := new Path[|paths|](i requires 0 <= i < |paths| reads this => paths[i]);
      assert items[..] == paths;
      Shuffle(items, draws);
      if items.Length > 1 && last.Some? && items[0] == last.value {
        var index := 0;
        while index < items.Length && items[index] == last.value
          invariant 0 <= index <= items.Length
          invariant FirstOther(items[..], last.value) == index + FirstOther(items[index..], last.value)
        {
          index := index + 1;
        }
        if index < items.Length {
          ghost var before := items[..];
          items[0], items[index] := items[index], items[0];
          assert items[..] == Swapped(before, 0, index);
        }
      }
      bag := items[..];
    }
  }
}
