/** The lock screen's timed wallpaper slideshow (crates/curtain/src/background/slideshow.rs): a walk through one
    permutation of the wallpapers after another, each starting at the wallpaper on show. */
module Slideshows {
  import opened Arithmetic
  import opened Options
  import opened Shuffles

  type Path = string

  datatype Order = Sequence | Random

  datatype Mode = Timed | LockOnly

  /** Clocks and intervals are in milliseconds. */
  datatype Show = Show(paths: seq<Path>, mode: Mode, order: Order, sequence: seq<nat>, position: nat,
                       interval: nat, nextChangeAt: Option<nat>)

  function RotationFrom(len: nat, initial: nat): (indices: seq<nat>)
    requires initial < len
    ensures |indices| == len && forall k | 0 <= k < len :: indices[k] == (initial + k) % len
  {
    seq(len, k requires k >= 0 => (initial + k) % len)
  }

  /** All indices but `initial`, in order. */
  function Others(len: nat, initial: nat): (indices: seq<nat>)
    decreases len
  {
    if len == 0 then []
    else if len - 1 == initial then Others(len - 1, initial)
    else Others(len - 1, initial) + [len - 1]
  }

  /** `slideshow_sequence`. */
  function SequenceFrom(len: nat, order: Order, initial: nat, draws: Draws): seq<nat>
    requires initial < len
  {
    match order
    case Sequence => RotationFrom(len, initial)
    case Random => [initial] + Shuffled(Others(len, initial), draws)
  }

  // ---- Every sequence is a permutation that starts where it is told to

  ghost predicate IsPermutation(indices: seq<nat>, len: nat) {
    |indices| == len && Distinct(indices) && forall i: nat :: i in indices <==> i < len
  }

  lemma {:induction false} OthersAreTheRest(len: nat, initial: nat)
    ensures var rest := Others(len, initial);
            && Distinct(rest)
            && (forall i: nat :: i in rest <==> i < len && i != initial)
            && |rest| == if initial < len then len - 1 else len
    decreases len
  {
    if len > 0 {
      OthersAreTheRest(len - 1, initial);
      var before := Others(len - 1, initial);
      assert forall k | 0 <= k < |before| :: before[k] in before;
    }
  }

  lemma RotationIsPermutation(len: nat, initial: nat)
    requires initial < len
    ensures IsPermutation(RotationFrom(len, initial), len)
  {
    var rotation := RotationFrom(len, initial);
    forall i, j | 0 <= i < j < len ensures rotation[i] != rotation[j] {
      WrapOnce(initial + i, len);
      WrapOnce(initial + j, len);
    }
    forall i: nat ensures i in rotation <==> i < len {
      if i < len {
        var k := if i >= initial then i - initial else i + len - initial;
        WrapOnce(initial + k, len);
        assert rotation[k] == i;
      }
    }
  }

  lemma SequenceIsPermutation(len: nat, order: Order, initial: nat, draws: Draws)
    requires initial < len
    ensures var indices := SequenceFrom(len, order, initial, draws);
            IsPermutation(indices, len) && indices[0] == initial
  {
    match order {
      case Sequence => RotationIsPermutation(len, initial);
        WrapOnce(initial, len);
      case Random =>
        var rest := Others(len, initial);
        OthersAreTheRest(len, initial);
        ShuffledPermutes(rest, draws);
        PermutationKeepsDistinct(rest, Shuffled(rest, draws));
        HeadAndRest(len, initial, Shuffled(rest, draws));
    }
  }

  lemma HeadAndRest(len: nat, head: nat, rest: seq<nat>)
    requires head < len == |rest| + 1 && Distinct(rest)
    requires forall i: nat :: i in rest <==> i < len && i != head
    ensures IsPermutation([head] + rest, len)
  {
    var all := [head] + rest;
    forall i, j | 0 <= i < j < len ensures all[i] != all[j] {
      assert all[j] == rest[j - 1] && all[j] in rest;
    }
  }

  // ---- Advancing

  ghost predicate Walks(show: Show) {
    show.paths != [] && IsPermutation(show.sequence, |show.paths|)
  }

  ghost predicate Valid(show: Show) {
    Walks(show) && show.position < |show.sequence|
  }

  function IndexAt(show: Show, position: nat): (index: nat)
    requires Walks(show) && position < |show.sequence|
    ensures index < |show.paths|
  {
    assert show.sequence[position] in show.sequence;
    show.sequence[position]
  }

  function Current(show: Show): nat
    requires Valid(show)
  {
    IndexAt(show, show.position)
  }

  predicate Due(show: Show, now: nat) {
    show.nextChangeAt.Some? && now >= show.nextChangeAt.value && |show.paths| >= 2
  }

  /** The walk starts over from the wallpaper on show. */
  function ResetSequence(show: Show, draws: Draws): (reset: Show)
    requires Walks(show)
    ensures Valid(reset) && Current(reset) == IndexAt(show, |show.sequence| - 1)
  {
    var last := IndexAt(show, |show.sequence| - 1);
    SequenceIsPermutation(|show.paths|, show.order, last, draws);
    show.(sequence := SequenceFrom(|show.paths|, show.order, last, draws), position := 0)
  }

  /** `advance`: the new state, and the wallpaper to switch to when a change is due. */
  function Advance(show: Show, now: nat, draws: Draws): (result: (Show, Option<Path>))
    requires Valid(show)
    ensures Valid(result.0) && result.0.paths == show.paths
    ensures result.1 == if Due(show, now) then Some(show.paths[Current(result.0)]) else None
  {
    if !Due(show, now) then (show, None)
    else
      var moved := if show.position + 1 >= |show.sequence| then ResetSequence(show, draws)
                   else show.(position := show.position + 1);
      var next := moved.(nextChangeAt := Some(now + show.interval));
      (next, Some(next.paths[Current(next)]))
  }

  /** `next_preload_path`, as an index. */
  function PreloadIndex(show: Show): (index: Option<nat>)
    requires Valid(show)
    ensures index.Some? ==> index.value < |show.paths|
  {
    if |show.paths| < 2 || show.mode != Timed then None
    else Some(IndexAt(show, if show.position + 1 >= |show.sequence| then 0 else show.position + 1))
  }

  /** A due change leaves the same wallpaper up exactly when the walk is at its end. */
  lemma AdvanceRepeatsIff(show: Show, now: nat, draws: Draws)
    requires Valid(show) && Due(show, now)
    ensures Current(Advance(show, now, draws).0) == Current(show) <==> show.position + 1 == |show.sequence|
  {
  }

  /** The preloaded wallpaper is the one shown next exactly when the walk is not at its end. */
  lemma PreloadIsNextIff(show: Show, now: nat, draws: Draws)
    requires Valid(show) && Due(show, now) && show.mode == Timed
    ensures PreloadIndex(show) == Some(Current(Advance(show, now, draws).0)) <==> show.position + 1 < |show.sequence|
  {
  }

  // ---- Runs

  datatype Poll = Poll(now: nat, draws: Draws)

  /** The wallpapers that come up, beginning with the one on show; polls before a change is due add nothing. */
  function Appearances(show: Show, polls: seq<Poll>): seq<nat>
    requires Valid(show)
  {
    [Current(show)] + Changes(show, polls)
  }

  function Changes(show: Show, polls: seq<Poll>): seq<nat>
    requires Valid(show)
    decreases |polls|
  {
    if polls == [] then []
    else
      var (next, shown) := Advance(show, polls[0].now, polls[0].draws);
      (if shown.Some? then [Current(next)] else []) + Changes(next, polls[1..])
  }

  lemma AppearancesUnfold(show: Show, polls: seq<Poll>)
    requires Valid(show) && polls != []
    ensures var after := Advance(show, polls[0].now, polls[0].draws).0;
            Appearances(show, polls) == (if Due(show, polls[0].now) then [Current(show)] else [])
            + Appearances(after, polls[1..])
  {
    var (after, shown) := Advance(show, polls[0].now, polls[0].draws);
    var rest := Changes(after, polls[1..]);
    if shown.Some? {
      assert Changes(show, polls) == [Current(after)] + rest;
    } else {
      assert Changes(show, polls) == [] + rest == rest;
    }
  }

  /** `shown` is what is left of the walk, or it runs on into the appearances of a new walk,
      which begins with the last wallpaper of this one. */
  ghost predicate RunsInto(show: Show, shown: seq<nat>, next: Show, later: seq<Poll>)
    requires Valid(show)
  {
    var rest := show.sequence[show.position..];
    if |shown| <= |rest| then
      shown <= rest
    else
      && Valid(next) && next.paths == show.paths && next.order == show.order && next.position == 0
      && Current(next) == IndexAt(show, |show.sequence| - 1)
      && shown == rest + Appearances(next, later)
  }

  lemma {:induction false} RestOfWalk(show: Show, polls: seq<Poll>) returns (next: Show, later: seq<Poll>)
    requires Valid(show)
    ensures RunsInto(show, Appearances(show, polls), next, later)
    decreases |polls|
  {
    next, later := show, polls;
    if polls == [] {
      assert Appearances(show, polls) == [Current(show)];
      return;
    }
    AppearancesUnfold(show, polls);
    var after := Advance(show, polls[0].now, polls[0].draws).0;
    var shown := Appearances(after, polls[1..]);
    if !Due(show, polls[0].now) {
      next, later := RestOfWalk(show, polls[1..]);
      assert [] + shown == shown;
    } else if show.position + 1 < |show.sequence| {
      next, later := RestOfWalk(after, polls[1..]);
      StepInWalk(show, after, shown, next, later);
    } else {
      next, later := after, polls[1..];
      assert show.sequence[show.position..] == [Current(show)];
    }
  }

  lemma StepInWalk(show: Show, after: Show, shown: seq<nat>, next: Show, later: seq<Poll>)
    requires Valid(show) && Valid(after) && after.paths == show.paths && after.order == show.order
    requires after.sequence == show.sequence && after.position == show.position + 1
    requires RunsInto(after, shown, next, later)
    ensures RunsInto(show, [Current(show)] + shown, next, later)
  {
    var rest, restAfter := show.sequence[show.position..], after.sequence[after.position..];
    assert rest == [Current(show)] + restAfter;
    if |shown| <= |restAfter| {
      assert shown == restAfter[..|shown|];
    } else {
      assert [Current(show)] + shown == rest + Appearances(next, later);
    }
  }

  /** The entries around the `k`-th whole walk. */
  lemma {:induction false} WalkAt(show: Show, polls: seq<Poll>, k: nat)
    returns (before: seq<nat>, walk: seq<nat>, after: seq<nat>)
    requires Valid(show) && show.position == 0
    requires (k + 1) * |show.paths| <= |Appearances(show, polls)|
    ensures Appearances(show, polls) == before + walk + after && |before| == k * |show.paths|
    ensures IsPermutation(walk, |show.paths|)
    decreases k
  {
    var n, shown := |show.paths|, Appearances(show, polls);
    ProductMonotone(1, k + 1, n);
    var next, later := RestOfWalk(show, polls);
    assert show.sequence[0..] == show.sequence;
    if k == 0 {
      before, walk := [], show.sequence;
      if |shown| <= n {
        after := [];
        assert shown == walk;
      } else {
        after := Appearances(next, later);
      }
    } else {
      ProductMonotone(2, k + 1, n);
      assert (k + 1) * n == k * n + n && (k - 1) * n == k * n - n;
      before, walk, after := WalkAt(next, later, k - 1);
      assert show.sequence + (before + walk + after) == show.sequence + before + walk + after;
      before := show.sequence + before;
    }
  }

  /** From the start: the wallpapers that come up fall into blocks that each cover all of them, in either order
      and whenever the slideshow is polled. */
  lemma EachWalkCoversAll(show: Show, polls: seq<Poll>, k: nat)
    requires Valid(show) && show.position == 0
    requires k * |show.paths| + |show.paths| <= |Appearances(show, polls)|
    ensures IsPermutation(Appearances(show, polls)[k * |show.paths|..k * |show.paths| + |show.paths|], |show.paths|)
  {
    var n := |show.paths|;
    assert (k + 1) * n == k * n + n;
    var before, walk, after := WalkAt(show, polls, k);
    assert (before + walk + after)[k * n..k * n + n] == walk;
  }

  // ---- The ordered walk

  /** After `j` changes from `start`: each of the j / n wraps has shown one wallpaper twice. */
  ghost predicate OnTrack(show: Show, start: nat, j: nat)
    requires Valid(show)
  {
    && show.order == Sequence
    && show.sequence == RotationFrom(|show.paths|, IndexAt(show, 0))
    && show.position == j % |show.paths|
    && j / |show.paths| <= j
    && Current(show) == (start + (j - j / |show.paths|)) % |show.paths|
  }

  lemma ChangeStaysOnTrack(show: Show, start: nat, j: nat, now: nat, draws: Draws)
    requires Valid(show) && OnTrack(show, start, j) && Due(show, now)
    ensures OnTrack(Advance(show, now, draws).0, start, j + 1)
  {
    var n, next := |show.paths|, Advance(show, now, draws).0;
    NextDivMod(j, n);
    if show.position + 1 < n {
      ModPlusMod(IndexAt(show, 0) + show.position, 1, n);
      ModPlusMod(start + (j - j / n), 1, n);
    } else {
      WrapOnce(IndexAt(next, 0), n);
    }
  }

  lemma {:induction false} TrackedAppearances(show: Show, polls: seq<Poll>, start: nat, j: nat, i: nat)
    requires Valid(show) && OnTrack(show, start, j) && i < |Appearances(show, polls)|
    ensures (j + i) / |show.paths| <= j + i
    ensures Appearances(show, polls)[i] == (start + ((j + i) - (j + i) / |show.paths|)) % |show.paths|
    decreases |polls|
  {
    if i > 0 {
      AppearancesUnfold(show, polls);
      var next := Advance(show, polls[0].now, polls[0].draws).0;
      if Due(show, polls[0].now) {
        ChangeStaysOnTrack(show, start, j, polls[0].now, polls[0].draws);
        TrackedAppearances(next, polls[1..], start, j + 1, i - 1);
      } else {
        TrackedAppearances(show, polls[1..], start, j, i);
      }
    }
  }

  // ---- Loading and the program

  /** Where the wallpaper already on show is listed, else the first. */
  function InitialIndex(paths: seq<Path>, initial: Option<Path>): (index: nat)
    requires paths != []
    ensures index < |paths|
    ensures initial.Some? && initial.value in paths ==> paths[index] == initial.value
    ensures initial.Some? && initial.value in paths ==> initial.value !in paths[..index]
    ensures initial.None? || initial.value !in paths ==> index == 0
  {
    if initial.None? || initial.value !in paths || paths[0] == initial.value then 0
    else 1 + InitialIndex(paths[1..], initial)
  }

  /** `load`, once the wallpaper list is resolved and found non-empty. */
  function Loaded(paths: seq<Path>, mode: Mode, order: Order, initial: Option<Path>, now: nat, interval: nat,
                  draws: Draws): Show
    requires paths != []
  {
    Show(paths, mode, order, SequenceFrom(|paths|, order, InitialIndex(paths, initial), draws), 0, interval,
         if |paths| > 1 && mode == Timed then Some(now + interval) else None)
  }

  lemma LoadedIsValid(paths: seq<Path>, mode: Mode, order: Order, initial: Option<Path>, now: nat, interval: nat,
                      draws: Draws)
    requires paths != []
    ensures var show := Loaded(paths, mode, order, initial, now, interval, draws);
            Valid(show) && show.position == 0 && Current(show) == InitialIndex(paths, initial)
  {
    SequenceIsPermutation(|paths|, order, InitialIndex(paths, initial), draws);
  }

  /** Neither promise is kept at the end of a walk: of two wallpapers, in either order, the second change shows `b`
      again, although `a` was preloaded. */
  lemma SecondChangeRepeats(a: Path, b: Path, order: Order, now: nat, interval: nat, draws: Draws, d: Draws, e: Draws)
    requires a != b
    ensures var show := Loaded([a, b], Timed, order, None, now, interval, draws);
            && Valid(show)
            && var (first, shown) := Advance(show, now + interval, d);
               var (second, shownNext) := Advance(first, now + 2 * interval, e);
               && shown == Some(b) == shownNext
               && PreloadIndex(first) == Some(0) && first.paths[0] == a
  {
    var show := Loaded([a, b], Timed, order, None, now, interval, draws);
    LoadedIsValid([a, b], Timed, order, None, now, interval, draws);
    assert show.sequence[1] != show.sequence[0] && show.sequence[1] in show.sequence;
    var first := Advance(show, now + interval, d).0;
    AdvanceRepeatsIff(first, now + 2 * interval, e);
  }

  /** A loaded slideshow first changes one interval after it was loaded, if it is timed and has two wallpapers. */
  lemma FirstChangeDueIff(paths: seq<Path>, mode: Mode, order: Order, initial: Option<Path>, now: nat, interval: nat,
                          draws: Draws, later: nat)
    requires paths != []
    ensures Due(Loaded(paths, mode, order, initial, now, interval, draws), later)
       <==> mode == Timed && |paths| >= 2 && later >= now + interval
  {
  }

  /** And after each change one interval after the poll that made it; a poll before that leaves everything as it is. */
  lemma NextChangeDueIff(show: Show, now: nat, draws: Draws, later: nat)
    requires Valid(show)
    ensures var next := Advance(show, now, draws).0;
            if Due(show, now) then Due(next, later) <==> later >= now + show.interval else next == show
  {
  }

  /** The state after the polls. */
  function AfterPolls(show: Show, polls: seq<Poll>): (after: Show)
    requires Valid(show)
    ensures Valid(after)
    decreases |polls|
  {
    if polls == [] then show else AfterPolls(Advance(show, polls[0].now, polls[0].draws).0, polls[1..])
  }

  lemma {:induction false} PollsKeepTheTimer(show: Show, polls: seq<Poll>)
    requires Valid(show)
    ensures var after := AfterPolls(show, polls);
            && after.paths == show.paths && after.mode == show.mode && after.interval == show.interval
            && (after.nextChangeAt.Some? <==> show.nextChangeAt.Some?)
    decreases |polls|
  {
    if polls != [] {
      PollsKeepTheTimer(Advance(show, polls[0].now, polls[0].draws).0, polls[1..]);
    }
  }

  /** Over any run from load on, a wallpaper is preloaded exactly while a change is still to come. */
  lemma PreloadsIffChangeComes(paths: seq<Path>, mode: Mode, order: Order, initial: Option<Path>, now: nat,
                               interval: nat, draws: Draws, polls: seq<Poll>)
    requires paths != []
    ensures var show := Loaded(paths, mode, order, initial, now, interval, draws);
            Valid(show) && (PreloadIndex(AfterPolls(show, polls)).Some? <==>
                              exists later :: Due(AfterPolls(show, polls), later))
  {
    var show := Loaded(paths, mode, order, initial, now, interval, draws);
    LoadedIsValid(paths, mode, order, initial, now, interval, draws);
    PollsKeepTheTimer(show, polls);
    var after := AfterPolls(show, polls);
    if after.nextChangeAt.Some? {
      assert Due(after, after.nextChangeAt.value);
    }
  }

  /** A slideshow in order, from load on: the i-th wallpaper to come up is i - i / n places after the first. */
  lemma OrderedAppearances(show: Show, initial: Option<Path>, now: nat, draws: Draws, polls: seq<Poll>, i: nat)
    requires show.paths != [] && show == Loaded(show.paths, show.mode, Sequence, initial, now, show.interval, draws)
    requires Valid(show) && i < |Appearances(show, polls)|
    ensures i / |show.paths| <= i
    ensures Appearances(show, polls)[i] == (InitialIndex(show.paths, initial) + (i - i / |show.paths|)) % |show.paths|
  {
    LoadedIsValid(show.paths, show.mode, Sequence, initial, now, show.interval, draws);
    WrapOnce(InitialIndex(show.paths, initial), |show.paths|);
    TrackedAppearances(show, polls, InitialIndex(show.paths, initial), 0, i);
  }

  class BackgroundSlideshow {
    var paths: seq<Path>
    var mode: Mode
    var order: Order
    var sequence: seq<nat>
    var position: nat
    var interval: nat
    var nextChangeAt: Option<nat>

    ghost function State(): Show
      reads this
    {
      Show(paths, mode, order, sequence, position, interval, nextChangeAt)
    }

    constructor (listed: seq<Path>, showMode: Mode, showOrder: Order, initial: Option<Path>, now: nat, every: nat,
                 draws: Draws)
      requires listed != []
      ensures State() == Loaded(listed, showMode, showOrder, initial, now, every, draws)
      ensures Valid(State())
    {
      paths, mode, order, interval, position := listed, showMode, showOrder, every, 0;
      nextChangeAt := if |listed| > 1 && showMode == Timed then Some(now + every) else None;
      var indices := SlideshowSequence(|listed|, showOrder, InitialIndex(listed, initial), draws);
      sequence := indices;
      LoadedIsValid(listed, showMode, showOrder, initial, now, every, draws);
    }

    static method SlideshowSequence(len: nat, order: Order, initial: nat, draws: Draws) returns (indices: seq<nat>)
      requires initial < len
      ensures indices == SequenceFrom(len, order, initial, draws)
    {
      indices := [initial];
      match order {
        case Sequence =>
          WrapOnce(initial, len);
          for offset := 1 to len
            invariant indices == RotationFrom(len, initial)[..offset]
          {
            indices := indices + [(initial + offset) % len];
          }
        case Random =>
          var tail: seq<nat> := [];
          for index := 0 to len
            invariant tail == Others(index, initial)
          {
            if index != initial {
              tail := tail + [index];
            }
          }
          var items := new nat[|tail|](i requires 0 <= i < |tail| => tail[i]);
          assert items[..] == tail;
          Shuffle(items, draws);
          indices := indices + items[..];
      }
    }

    method AdvanceAt(now: nat, draws: Draws) returns (shown: Option<Path>)
      requires Valid(State())
      modifies this
      ensures (State(), shown) == Advance(old(State()), now, draws)
      ensures Valid(State())
    {
      if nextChangeAt.None? {
        return None;
      }
      if now < nextChangeAt.value || |paths| < 2 {
        return None;
      }
      ghost var before := State();
      position := position + 1;
      if position >= |sequence| {
        Reset(draws);
      }
      assert State() == if before.position + 1 >= |before.sequence| then ResetSequence(before, draws)
                        else before.(position := before.position + 1);
      nextChangeAt := Some(now + interval);
      assert sequence[position] == IndexAt(State(), position);
      shown := Some(paths[sequence[position]]);
    }

    method Reset(draws: Draws)
      requires Walks(State())
      modifies this`sequence, this`position
      ensures State() == ResetSequence(old(State()), draws)
    {
      assert sequence[|sequence| - 1] == IndexAt(State(), |sequence| - 1);
      sequence := SlideshowSequence(|paths|, order, sequence[|sequence| - 1], draws);
      position := 0;
    }

    method NextPreloadPath() returns (path: Option<Path>)
      requires Valid(State())
      ensures path == if PreloadIndex(State()).Some? then Some(paths[PreloadIndex(State()).value]) else None
    {
      if |paths| < 2 || mode != Timed {
        return None;
      }
      var next := position + 1;
      if next >= |sequence| {
        next := 0;
      }
      assert sequence[next] == IndexAt(State(), next);
      path := Some(paths[sequence[next]]);
    }
  }
}
