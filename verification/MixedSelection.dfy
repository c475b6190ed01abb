/** Runs of the daemon's wallpaper choice with ordered and random locks mixed and the list replaced at will
    (crates/daemon/src/app/state.rs:216-283): what each lock shows, in terms of the locks before it, and exactly when
    it shows the wallpaper of the lock before. */
module MixedSelections {
  import opened Arithmetic
  import opened BackgroundSelections
  import opened Options
  import opened Shuffles

  /** One lock: the wallpapers listed, the configured order, and the draws should the bag be refilled. */
  datatype Lock = Lock(paths: seq<Path>, order: Order, draws: Draws)

  /** Lists of two wallpapers or more, without duplicates. */
  ghost predicate Proper(locks: seq<Lock>) {
    forall lock <- locks :: |lock.paths| >= 2 && Distinct(lock.paths)
  }

  /** The state after the locks, from the start. */
  function After(locks: seq<Lock>): Selection {
    if locks == [] then DEFAULT
    else
      var last := locks[|locks| - 1];
      NextPath(After(locks[..|locks| - 1]), last.paths, last.order, last.draws).0
  }

  /** What the last of the locks shows. */
  function Shown(locks: seq<Lock>): Option<Path>
    requires locks != []
  {
    var last := locks[|locks| - 1];
    NextPath(After(locks[..|locks| - 1]), last.paths, last.order, last.draws).1
  }

  /** The locks of one order since the list last changed to `paths`. */
  function Since(locks: seq<Lock>, paths: seq<Path>, order: Order): nat {
    if locks == [] || locks[|locks| - 1].paths != paths then 0
    else Since(locks[..|locks| - 1], paths, order) + if locks[|locks| - 1].order == order then 1 else 0
  }

  /** Where that many locks leave a place in a list or a bag of as many wallpapers. */
  function Place(locks: seq<Lock>, paths: seq<Path>, order: Order): (place: nat)
    requires paths != []
    ensures place < |paths|
  {
    Since(locks, paths, order) % |paths|
  }

  /** The bag last shuffled since then: every |paths|-th random lock shuffles one. */
  function Bag(locks: seq<Lock>, paths: seq<Path>): seq<Path>
    requires paths != []
  {
    if locks == [] || locks[|locks| - 1].paths != paths then []
    else
      var init, last := locks[..|locks| - 1], locks[|locks| - 1];
      if last.order == Random && Place(init, paths, Random) == 0 then
        Refilled(paths, Synced(After(init), paths).last, last.draws)
      else
        Bag(init, paths)
  }

  // ---- One lock

  function Next(place: nat, n: nat): nat {
    if place + 1 == n then 0 else place + 1
  }

  /** The state over `paths` when `ordered` is the turn in the list and `random` the place in the bag. */
  ghost predicate At(s: Selection, paths: seq<Path>, ordered: nat, random: nat, bag: seq<Path>) {
    && s.paths == paths && s.sequenceIndex == ordered < |paths|
    && (random != 0 ==> random < |bag| == |paths| && Distinct(bag))
    && s.remaining == if random == 0 then [] else bag[random..]
  }

  lemma OrderedLockMoves(s: Selection, paths: seq<Path>, ordered: nat, random: nat, bag: seq<Path>, draws: Draws)
    requires |paths| >= 2 && At(s, paths, ordered, random, bag)
    ensures var (next, out) := NextPath(s, paths, Sequence, draws);
            && At(next, paths, Next(ordered, |paths|), random, bag)
            && out == Some(paths[ordered]) == next.last
  {
    WrapOnce(ordered, |paths|);
    WrapOnce(ordered + 1, |paths|);
  }

  lemma RandomLockMoves(s: Selection, paths: seq<Path>, ordered: nat, random: nat, bag: seq<Path>, draws: Draws)
    returns (drawn: seq<Path>)
    requires |paths| >= 2 && Distinct(paths) && random < |paths| && At(s, paths, ordered, random, bag)
    ensures drawn == (if random == 0 then Refilled(paths, s.last, draws) else bag)
    ensures |drawn| == |paths| && Distinct(drawn)
    ensures var (next, out) := NextPath(s, paths, Random, draws);
            && At(next, paths, ordered, Next(random, |paths|), drawn)
            && out == Some(drawn[random]) == next.last
  {
    drawn := if random == 0 then Refilled(paths, s.last, draws) else bag;
    RefilledAvoidsLast(paths, s.last, draws);
    assert drawn[random..][0] == drawn[random] && drawn[random..][1..] == drawn[random + 1..];
  }

  lemma PlaceMoves(locks: seq<Lock>)
    requires locks != [] && |locks[|locks| - 1].paths| >= 2
    ensures var init, last := locks[..|locks| - 1], locks[|locks| - 1];
            forall order :: Place(locks, last.paths, order)
                            == if order == last.order then Next(Place(init, last.paths, order), |last.paths|)
                               else Place(init, last.paths, order)
  {
    var init, last := locks[..|locks| - 1], locks[|locks| - 1];
    NextDivMod(Since(init, last.paths, last.order), |last.paths|);
  }

  // ---- The state and the wallpaper shown, by the locks alone

  /** The state a lock over `paths` starts from. */
  ghost predicate StandsAt(s: Selection, locks: seq<Lock>, paths: seq<Path>)
    requires paths != []
  {
    At(s, paths, Place(locks, paths, Sequence), Place(locks, paths, Random), Bag(locks, paths))
  }

  /** An ordered lock's wallpaper: the list at the place of the ordered locks before it; and a random one's: the bag at
      the place of the random locks before it, each counted since the list last changed. */
  function InItsPlace(locks: seq<Lock>): Option<Path>
    requires locks != [] && locks[|locks| - 1].paths != []
  {
    var init, last := locks[..|locks| - 1], locks[|locks| - 1];
    var place, bag := Place(init, last.paths, last.order), Bag(locks, last.paths);
    match last.order
    case Sequence => Some(last.paths[place])
    case Random => if place < |bag| then Some(bag[place]) else None
  }

  ghost predicate ShowsItsPlace(locks: seq<Lock>)
    requires locks != [] && locks[|locks| - 1].paths != []
  {
    var last := locks[|locks| - 1];
    && Shown(locks) == InItsPlace(locks)
    && (last.order == Random ==> |Bag(locks, last.paths)| == |last.paths| && Distinct(Bag(locks, last.paths)))
  }

  lemma {:induction false} StateIsByTheLocks(locks: seq<Lock>, paths: seq<Path>)
    requires Proper(locks) && |paths| >= 2 && Distinct(paths)
    ensures StandsAt(Synced(After(locks), paths), locks, paths)
    decreases |locks|, 1
  {
    if locks != [] {
      ShownByTheLocks(locks);
    }
    if locks == [] || locks[|locks| - 1].paths != paths {
      ListIsNew(locks, paths, After(locks));
    } else {
      assert Synced(After(locks), paths) == After(locks);
    }
  }

  /** A list that differs from the one before starts over. */
  lemma ListIsNew(locks: seq<Lock>, paths: seq<Path>, s: Selection)
    requires paths != [] && s.paths != paths && (locks == [] || locks[|locks| - 1].paths != paths)
    ensures StandsAt(Synced(s, paths), locks, paths)
  {
    assert Since(locks, paths, Sequence) == Since(locks, paths, Random) == 0;
    WrapOnce(0, |paths|);
  }

  lemma {:induction false} ShownByTheLocks(locks: seq<Lock>)
    requires locks != [] && Proper(locks)
    ensures locks[|locks| - 1] in locks && ShowsItsPlace(locks)
    ensures After(locks).last == Shown(locks) && After(locks).paths == locks[|locks| - 1].paths
    ensures StandsAt(After(locks), locks, locks[|locks| - 1].paths)
    decreases |locks|, 0
  {
    var init, last := locks[..|locks| - 1], locks[|locks| - 1];
    assert last in locks && forall lock <- init :: lock in locks;
    StateIsByTheLocks(init, last.paths);
    PlaceMoves(locks);
    LockMoves(locks);
  }

  lemma LockMoves(locks: seq<Lock>)
    requires locks != [] && |locks[|locks| - 1].paths| >= 2 && Distinct(locks[|locks| - 1].paths)
    requires var init, paths := locks[..|locks| - 1], locks[|locks| - 1].paths;
             StandsAt(Synced(After(init), paths), init, paths)
    ensures ShowsItsPlace(locks) && StandsAt(After(locks), locks, locks[|locks| - 1].paths)
    ensures After(locks).last == Shown(locks)
  {
    var init, last := locks[..|locks| - 1], locks[|locks| - 1];
    var s, paths := Synced(After(init), last.paths), last.paths;
    var ordered, random := Place(init, paths, Sequence), Place(init, paths, Random);
    PlaceMoves(locks);
    match last.order {
      case Sequence => OrderedLockMoves(s, paths, ordered, random, Bag(init, paths), last.draws);
      case Random => var drawn := RandomLockMoves(s, paths, ordered, random, Bag(init, paths), last.draws);
    }
  }

  /** Over any run at all, empty lists and duplicates included: the wallpaper remembered and those left in the bag are
      listed, so one that left the list is forgotten. */
  lemma {:induction false} RememberedIsListed(locks: seq<Lock>)
    ensures var s := After(locks);
            && (s.last.Some? ==> s.last.value in s.paths)
            && (forall path <- s.remaining :: path in s.paths)
            && s.paths == if locks == [] then [] else locks[|locks| - 1].paths
  {
    if locks != [] {
      var init, lock := locks[..|locks| - 1], locks[|locks| - 1];
      RememberedIsListed(init);
      var s := Synced(After(init), lock.paths);
      if lock.order == Random && lock.paths != [] {
        RefilledIsListed(lock.paths, s.last, lock.draws);
      }
    }
  }

  lemma RefilledIsListed(paths: seq<Path>, last: Option<Path>, draws: Draws)
    ensures forall path <- Refilled(paths, last, draws) :: path in paths
  {
    RefilledPermutes(paths, last, draws);
    forall path <- Refilled(paths, last, draws) ensures path in paths {
      assert path in multiset(Refilled(paths, last, draws));
    }
  }

  // ---- When a lock repeats the one before

  /** A random lock repeats the wallpaper of the lock before exactly when that was an ordered lock over the same list,
      the bag was not used up, and its next wallpaper is the one the ordered lock's place in the list gave. */
  lemma RandomLockRepeatsIff(locks: seq<Lock>)
    requires |locks| >= 2 && Proper(locks) && locks[|locks| - 1].order == Random
    ensures var init, before, paths := locks[..|locks| - 1], locks[|locks| - 2], locks[|locks| - 1].paths;
            Shown(locks) == Shown(init) <==>
              && before.order == Sequence && before.paths == paths
              && 0 < Place(init, paths, Random) < |Bag(init, paths)|
              && Bag(init, paths)[Place(init, paths, Random)] == paths[Place(locks[..|locks| - 2], paths, Sequence)]
  {
    var init, before, last := locks[..|locks| - 1], locks[|locks| - 2], locks[|locks| - 1];
    assert last in locks && forall lock <- init :: lock in locks;
    var paths, earlier := last.paths, init[..|init| - 1];
    assert earlier == locks[..|locks| - 2];
    ShownByTheLocks(init);
    ShownByTheLocks(locks);
    StateIsByTheLocks(init, paths);
    if Place(init, paths, Random) == 0 {
      RefillDiffers(init, last);
    } else if before.paths == paths {
      PlaceMoves(init);
    }
  }

  /** A lock that finds the bag used up never repeats. */
  lemma RefillDiffers(init: seq<Lock>, last: Lock)
    requires init != [] && |last.paths| >= 2 && Distinct(last.paths) && After(init).last == Shown(init)
    ensures Shown(init) != Some(Refilled(last.paths, Synced(After(init), last.paths).last, last.draws)[0])
  {
    var s := Synced(After(init), last.paths);
    var bag := Refilled(last.paths, s.last, last.draws);
    RefilledAvoidsLast(last.paths, s.last, last.draws);
    RefilledPermutes(last.paths, s.last, last.draws);
    assert bag[0] in multiset(bag);
    assert bag[0] in last.paths;
  }

  /** An ordered lock repeats the wallpaper of the lock before exactly when that was a random lock or one over another
      list, and its place in its own bag or list is the wallpaper whose turn it is. */
  lemma OrderedLockRepeatsIff(locks: seq<Lock>)
    requires |locks| >= 2 && Proper(locks) && locks[|locks| - 1].order == Sequence
    ensures var init, before, paths := locks[..|locks| - 1], locks[|locks| - 2], locks[|locks| - 1].paths;
            Shown(locks) == Shown(init) <==>
              && (before.order == Random || before.paths != paths)
              && before.paths != [] && InItsPlace(init) == Some(paths[Place(init, paths, Sequence)])
  {
    var init, before, last := locks[..|locks| - 1], locks[|locks| - 2], locks[|locks| - 1];
    assert last in locks && forall lock <- init :: lock in locks;
    ShownByTheLocks(init);
    ShownByTheLocks(locks);
    if before.order == Sequence && before.paths == last.paths {
      PlaceMoves(init);
    }
  }

  /** So in any mixed run the same wallpaper twice in a row means a change of order or of list, and a random lock
      repeats only right after an ordered one over the same list. */
  lemma RepeatsNeedAChange(locks: seq<Lock>, i: nat)
    requires Proper(locks) && i + 1 < |locks|
    requires Shown(locks[..i + 2]) == Shown(locks[..i + 1])
    ensures locks[i].order != locks[i + 1].order || locks[i].paths != locks[i + 1].paths
    ensures locks[i + 1].order == Random ==> locks[i].order == Sequence && locks[i].paths == locks[i + 1].paths
  {
    var run := locks[..i + 2];
    assert run[..i + 1] == locks[..i + 1] && forall lock <- run :: lock in locks;
    if locks[i + 1].order == Random {
      RandomLockRepeatsIff(run);
    } else {
      OrderedLockRepeatsIff(run);
    }
  }

  lemma SecondLockRepeatsIff(paths: seq<Path>, d: Draws, e: Draws)
    requires |paths| >= 2 && Distinct(paths)
    ensures Shown([Lock(paths, Random, d), Lock(paths, Sequence, e)]) == Shown([Lock(paths, Random, d)])
       <==> Shuffled(paths, d)[0] == paths[0]
  {
    var first, second := Lock(paths, Random, d), Lock(paths, Sequence, e);
    assert [first, second][..1] == [first] && [first][..0] == [];
    FirstLock(first);
    OrderedLockRepeatsIff([first, second]);
    WrapOnce(0, |paths|);
  }

  lemma ThirdLockRepeatsIff(paths: seq<Path>, d: Draws, e: Draws, f: Draws)
    requires |paths| >= 2 && Distinct(paths)
    ensures var locks := [Lock(paths, Random, d), Lock(paths, Sequence, e), Lock(paths, Random, f)];
            Shown(locks) == Shown(locks[..2]) <==> Shuffled(paths, d)[1] == paths[0]
  {
    var first, second, third := Lock(paths, Random, d), Lock(paths, Sequence, e), Lock(paths, Random, f);
    var locks := [first, second, third];
    assert locks[..2] == [first, second] && locks[..1] == [first];
    FirstLock(first);
    LocksOverOneList([first], second);
    RandomLockRepeatsIff(locks);
  }

  /** And mixing does break the promise.  Of random, ordered, random over a new list, two in a row show the same
      wallpaper exactly when the first shuffle puts the head of the list first or second. */
  lemma MixedOrdersRepeatIff(paths: seq<Path>, d: Draws, e: Draws, f: Draws)
    requires |paths| >= 2 && Distinct(paths)
    ensures var first, second, third := Lock(paths, Random, d), Lock(paths, Sequence, e), Lock(paths, Random, f);
            Shown([first]) == Shown([first, second]) || Shown([first, second]) == Shown([first, second, third])
            <==> Shuffled(paths, d)[0] == paths[0] || Shuffled(paths, d)[1] == paths[0]
  {
    var first, second, third := Lock(paths, Random, d), Lock(paths, Sequence, e), Lock(paths, Random, f);
    assert [first, second, third][..2] == [first, second];
    SecondLockRepeatsIff(paths, d, e);
    ThirdLockRepeatsIff(paths, d, e, f);
  }

  /** With two wallpapers it always does. */
  lemma MixedOrdersRepeatTwo(a: Path, b: Path, d: Draws, e: Draws, f: Draws)
    requires a != b
    ensures var first, second, third := Lock([a, b], Random, d), Lock([a, b], Sequence, e), Lock([a, b], Random, f);
            Shown([first]) == Shown([first, second]) || Shown([first, second]) == Shown([first, second, third])
  {
    MixedOrdersRepeatIff([a, b], d, e, f);
    HeadOfTwo([a, b], d);
  }

  lemma HeadOfTwo(paths: seq<Path>, d: Draws)
    requires |paths| == 2
    ensures Shuffled(paths, d)[0] == paths[0] || Shuffled(paths, d)[1] == paths[0]
  {
    ShuffledPermutes(paths, d);
    assert paths[0] in multiset(Shuffled(paths, d));
  }

  /** For every list some first shuffle does it. */
  lemma SomeShuffleRepeats(paths: seq<Path>, e: Draws, f: Draws) returns (d: Draws)
    requires |paths| >= 2 && Distinct(paths)
    ensures var locks := [Lock(paths, Random, d), Lock(paths, Sequence, e), Lock(paths, Random, f)];
            Shown(locks) == Shown(locks[..2])
  {
    var target := Swapped(paths, 0, 1);
    EveryOrderIsReachable(paths, target);
    d :| Shuffled(paths, d) == target;
    ThirdLockRepeatsIff(paths, d, e, f);
  }

  lemma FirstLock(lock: Lock)
    requires |lock.paths| >= 2 && lock.order == Random
    ensures Place([lock], lock.paths, Sequence) == 0 && Place([lock], lock.paths, Random) == 1
    ensures Bag([lock], lock.paths) == Refilled(lock.paths, None, lock.draws)
  {
    assert [lock][..0] == [];
    PlaceMoves([lock]);
  }

  lemma LocksOverOneList(locks: seq<Lock>, next: Lock)
    requires |next.paths| >= 2 && next.order == Sequence
    ensures Place(locks + [next], next.paths, Random) == Place(locks, next.paths, Random)
    ensures Bag(locks + [next], next.paths) == Bag(locks, next.paths)
  {
    assert (locks + [next])[..|locks|] == locks;
    PlaceMoves(locks + [next]);
  }
}
