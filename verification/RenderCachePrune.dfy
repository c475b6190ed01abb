/** Eviction from the render cache (crates/renderer/src/background/render_cache.rs:229-310): expired files go first,
    then the oldest of the rest until the byte limit holds. */
module RenderCachePruning {
  import opened Bytes
  import opened Shuffles

  datatype File = File(bytes: seq<byte>, modified: nat)

  type Directory = map<string, File>

  datatype Policy = Policy(maxBytes: nat, maxAge: nat)

  datatype Report = Report(scannedFiles: nat, removedFiles: nat, removedBytes: nat, retainedBytes: nat)

  datatype Entry = Entry(name: string, byteLen: nat, modified: nat)

  /** How `fs::remove_file` may answer; `Vanished` is `NotFound`. */
  datatype Removal = Removed | Vanished | Denied

  /** The file name has a stem and the extension `argb`. */
  predicate IsCacheFile(name: string) {
    |name| > 5 && name[|name| - 5..] == ".argb"
  }

  predicate Expired(e: Entry, policy: Policy, now: nat) {
    now >= e.modified && now - e.modified > policy.maxAge
  }

  function TotalBytes(entries: seq<Entry>): nat {
    if entries == [] then 0 else TotalBytes(entries[..|entries| - 1]) + entries[|entries| - 1].byteLen
  }

  // ---- Which files go

  function Filter(entries: seq<Entry>, policy: Policy, now: nat, expired: bool): (kept: seq<Entry>)
    ensures forall e :: e in kept <==> e in entries && Expired(e, policy, now) == expired
  {
    if entries == [] then []
    else
      var last := entries[|entries| - 1];
      assert entries == entries[..|entries| - 1] + [last];
      Filter(entries[..|entries| - 1], policy, now, expired)
      + if Expired(last, policy, now) == expired then [last] else []
  }

  /** Insertion behind every entry that is no newer. */
  function Inserted(e: Entry, sorted: seq<Entry>): seq<Entry> {
    if sorted == [] || sorted[|sorted| - 1].modified <= e.modified then sorted + [e]
    else Inserted(e, sorted[..|sorted| - 1]) + [sorted[|sorted| - 1]]
  }

  /** `sort_by_key(modified)`, which is stable. */
  function SortedByAge(entries: seq<Entry>): seq<Entry> {
    if entries == [] then [] else Inserted(entries[|entries| - 1], SortedByAge(entries[..|entries| - 1]))
  }

  /** How many of the oldest entries are removed before `total` bytes fit. */
  function VictimCount(sorted: seq<Entry>, total: int, maxBytes: nat): (count: nat)
    ensures count <= |sorted|
  {
    if sorted == [] || total <= maxBytes then 0
    else 1 + VictimCount(sorted[1..], total - sorted[0].byteLen, maxBytes)
  }

  datatype Plan = Plan(expired: seq<Entry>, victims: seq<Entry>, survivors: seq<Entry>)

  function PlanFor(entries: seq<Entry>, policy: Policy, now: nat): Plan {
    var sorted := SortedByAge(Filter(entries, policy, now, false));
    var count := VictimCount(sorted, TotalBytes(sorted), policy.maxBytes);
    Plan(Filter(entries, policy, now, true), sorted[..count], sorted[count..])
  }

  // ---- Sums and sorting

  lemma {:induction false} TotalBytesAppend(a: seq<Entry>, b: seq<Entry>)
    ensures TotalBytes(a + b) == TotalBytes(a) + TotalBytes(b)
  {
    if b == [] {
      assert a + b == a;
    } else {
      TotalBytesAppend(a, b[..|b| - 1]);
      assert (a + b)[..|a + b| - 1] == a + b[..|b| - 1];
    }
  }

  lemma TotalBytesWithout(entries: seq<Entry>, i: nat)
    requires i < |entries|
    ensures TotalBytes(entries) == TotalBytes(entries[..i] + entries[i + 1..]) + entries[i].byteLen
  {
    var upTo, after := entries[..i + 1], entries[i + 1..];
    assert upTo[..i] == entries[..i];
    assert entries == upTo + after;
    TotalBytesAppend(upTo, after);
    TotalBytesAppend(entries[..i], after);
  }

  lemma MultisetWithout(entries: seq<Entry>, i: nat)
    requires i < |entries|
    ensures multiset(entries[..i] + entries[i + 1..]) == multiset(entries) - multiset{entries[i]}
  {
    assert entries == entries[..i] + ([entries[i]] + entries[i + 1..]);
  }

  /** Taking the last entry of `a` out of `b`. */
  lemma WithoutLastOf(a: seq<Entry>, b: seq<Entry>) returns (rest: seq<Entry>)
    requires a != [] && multiset(a) == multiset(b)
    ensures multiset(rest) == multiset(a[..|a| - 1])
    ensures TotalBytes(b) == TotalBytes(rest) + a[|a| - 1].byteLen
  {
    assert a[|a| - 1] in multiset(b);
    var i :| 0 <= i < |b| && b[i] == a[|a| - 1];
    rest := b[..i] + b[i + 1..];
    MultisetWithout(b, i);
    TotalBytesWithout(b, i);
    MultisetWithoutLast(a);
  }

  lemma MultisetWithoutLast(a: seq<Entry>)
    requires a != []
    ensures multiset(a[..|a| - 1]) == multiset(a) - multiset{a[|a| - 1]}
  {
    assert a == a[..|a| - 1] + [a[|a| - 1]];
  }

  lemma {:induction false} TotalBytesOfPermutation(a: seq<Entry>, b: seq<Entry>)
    requires multiset(a) == multiset(b)
    ensures TotalBytes(a) == TotalBytes(b)
    decreases |a|
  {
    if a == [] {
      assert |multiset(b)| == 0;
    } else {
      var rest := WithoutLastOf(a, b);
      TotalBytesOfPermutation(a[..|a| - 1], rest);
    }
  }

  ghost predicate OldestFirst(entries: seq<Entry>) {
    forall i, j | 0 <= i < j < |entries| :: entries[i].modified <= entries[j].modified
  }

  lemma {:induction false} InsertedPermutes(e: Entry, sorted: seq<Entry>)
    ensures multiset(Inserted(e, sorted)) == multiset(sorted) + multiset{e}
  {
    if sorted != [] && sorted[|sorted| - 1].modified > e.modified {
      InsertedPermutes(e, sorted[..|sorted| - 1]);
      assert sorted == sorted[..|sorted| - 1] + [sorted[|sorted| - 1]];
    }
  }

  lemma {:induction false} InsertedSorts(e: Entry, sorted: seq<Entry>)
    requires OldestFirst(sorted)
    ensures OldestFirst(Inserted(e, sorted))
    ensures forall i | 0 <= i < |Inserted(e, sorted)| :: Inserted(e, sorted)[i] == e || Inserted(e, sorted)[i] in sorted
  {
    if sorted != [] && sorted[|sorted| - 1].modified > e.modified {
      InsertedSorts(e, sorted[..|sorted| - 1]);
    }
  }

  lemma {:induction false} SortedByAgeSorts(entries: seq<Entry>)
    ensures OldestFirst(SortedByAge(entries))
  {
    if entries != [] {
      SortedByAgeSorts(entries[..|entries| - 1]);
      InsertedSorts(entries[|entries| - 1], SortedByAge(entries[..|entries| - 1]));
    }
  }

  lemma {:induction false} SortedByAgePermutes(entries: seq<Entry>)
    ensures multiset(SortedByAge(entries)) == multiset(entries)
    ensures TotalBytes(SortedByAge(entries)) == TotalBytes(entries)
  {
    if entries != [] {
      var init, last := entries[..|entries| - 1], entries[|entries| - 1];
      assert entries == init + [last];
      SortedByAgePermutes(init);
      InsertedPermutes(last, SortedByAge(init));
    }
    TotalBytesOfPermutation(SortedByAge(entries), entries);
  }

  lemma {:induction false} FilterSplits(entries: seq<Entry>, policy: Policy, now: nat)
    ensures multiset(Filter(entries, policy, now, true)) + multiset(Filter(entries, policy, now, false))
            == multiset(entries)
  {
    if entries != [] {
      var init, last := entries[..|entries| - 1], entries[|entries| - 1];
      assert entries == init + [last];
      FilterSplits(init, policy, now);
      if Expired(last, policy, now) {
        assert Filter(entries, policy, now, true) == Filter(init, policy, now, true) + [last];
        assert Filter(entries, policy, now, false) == Filter(init, policy, now, false);
      } else {
        assert Filter(entries, policy, now, true) == Filter(init, policy, now, true);
        assert Filter(entries, policy, now, false) == Filter(init, policy, now, false) + [last];
      }
    }
  }

  /** Just enough of the oldest go: what stays fits, and with the last one to go it would not have. */
  lemma {:induction false} VictimsAreEnoughAndNeeded(sorted: seq<Entry>, maxBytes: nat)
    ensures var count := VictimCount(sorted, TotalBytes(sorted), maxBytes);
            && TotalBytes(sorted[count..]) <= maxBytes
            && (count > 0 ==> TotalBytes(sorted[count..]) + sorted[count - 1].byteLen > maxBytes)
  {
    if sorted != [] && TotalBytes(sorted) > maxBytes {
      var rest := sorted[1..];
      assert sorted == [sorted[0]] + rest;
      TotalBytesAppend([sorted[0]], rest);
      VictimsAreEnoughAndNeeded(rest, maxBytes);
      var count := VictimCount(rest, TotalBytes(rest), maxBytes);
      assert rest[count..] == sorted[1 + count..];
    } else {
      assert sorted[0..] == sorted;
    }
  }

  // ---- What a plan achieves

  lemma PlanParts(entries: seq<Entry>, policy: Policy, now: nat) returns (kept: seq<Entry>, sorted: seq<Entry>)
    ensures kept == Filter(entries, policy, now, false) && sorted == SortedByAge(kept)
    ensures var plan := PlanFor(entries, policy, now);
            && sorted == plan.victims + plan.survivors
            && |plan.victims| == VictimCount(sorted, TotalBytes(sorted), policy.maxBytes)
            && multiset(sorted) == multiset(kept) && OldestFirst(sorted)
  {
    kept := Filter(entries, policy, now, false);
    sorted := SortedByAge(kept);
    SortedByAgeSorts(kept);
    SortedByAgePermutes(kept);
    SplitAt(sorted, VictimCount(sorted, TotalBytes(sorted), policy.maxBytes));
  }

  lemma SplitAt(entries: seq<Entry>, count: nat)
    requires count <= |entries|
    ensures entries == entries[..count] + entries[count..] && |entries[..count]| == count
  {
  }

  /** Every scanned file is expired, a victim or a survivor, and so is every scanned byte. */
  lemma PlanConserves(entries: seq<Entry>, policy: Policy, now: nat)
    ensures var plan := PlanFor(entries, policy, now);
            && multiset(entries) == multiset(plan.expired + (plan.victims + plan.survivors))
            && TotalBytes(entries) == TotalBytes(plan.expired) + TotalBytes(plan.victims) + TotalBytes(plan.survivors)
  {
    var plan := PlanFor(entries, policy, now);
    var kept, sorted := PlanParts(entries, policy, now);
    FilterSplits(entries, policy, now);
    assert multiset(plan.expired + sorted) == multiset(plan.expired) + multiset(sorted);
    TotalBytesOfPermutation(entries, plan.expired + sorted);
    TotalBytesAppend(plan.expired, sorted);
    TotalBytesAppend(plan.victims, plan.survivors);
  }

  /** The first pass takes exactly the files past the age limit. */
  lemma ExpiredIff(entries: seq<Entry>, policy: Policy, now: nat, e: Entry)
    requires e in entries
    ensures e in PlanFor(entries, policy, now).expired <==> now > e.modified + policy.maxAge
  {
  }

  lemma KeptAreFresh(entries: seq<Entry>, policy: Policy, now: nat, e: Entry)
    requires var plan := PlanFor(entries, policy, now); e in plan.victims || e in plan.survivors
    ensures !Expired(e, policy, now) && now <= e.modified + policy.maxAge && e in entries
  {
    var kept, sorted := PlanParts(entries, policy, now);
    assert e in sorted;
    assert e in multiset(sorted);
    assert e in kept;
  }

  lemma VictimsAreOldest(entries: seq<Entry>, policy: Policy, now: nat, victim: Entry, survivor: Entry)
    requires var plan := PlanFor(entries, policy, now); victim in plan.victims && survivor in plan.survivors
    ensures victim.modified <= survivor.modified
  {
    var plan := PlanFor(entries, policy, now);
    var kept, sorted := PlanParts(entries, policy, now);
    var i :| 0 <= i < |plan.victims| && plan.victims[i] == victim;
    var j :| 0 <= j < |plan.survivors| && plan.survivors[j] == survivor;
    assert sorted[i] == victim && sorted[|plan.victims| + j] == survivor;
  }

  /** What survives fits the limit, and with the last victim it would not. */
  lemma SurvivorsFitBarely(entries: seq<Entry>, policy: Policy, now: nat)
    ensures var plan := PlanFor(entries, policy, now);
            && TotalBytes(plan.survivors) <= policy.maxBytes
            && (plan.victims != [] ==>
                  TotalBytes(plan.survivors) + plan.victims[|plan.victims| - 1].byteLen > policy.maxBytes)
  {
    var sorted := SortedByAge(Filter(entries, policy, now, false));
    VictimsAreEnoughAndNeeded(sorted, policy.maxBytes);
  }

  /** A second prune at the same time, listing the survivors in any order, removes nothing. */
  lemma SecondPruneIsIdle(entries: seq<Entry>, again: seq<Entry>, policy: Policy, now: nat)
    requires multiset(again) == multiset(PlanFor(entries, policy, now).survivors)
    ensures PlanFor(again, policy, now).expired == [] && PlanFor(again, policy, now).victims == []
  {
    var plan, next := PlanFor(entries, policy, now), PlanFor(again, policy, now);
    forall e | e in again ensures !Expired(e, policy, now) {
      assert e in multiset(again);
      KeptAreFresh(entries, policy, now, e);
    }
    NothingExpired(again, policy, now);
    SurvivorsFitBarely(entries, policy, now);
    TotalBytesOfPermutation(again, plan.survivors);
    SortedByAgePermutes(again);
  }

  lemma {:induction false} NothingExpired(entries: seq<Entry>, policy: Policy, now: nat)
    requires forall e | e in entries :: !Expired(e, policy, now)
    ensures Filter(entries, policy, now, true) == [] && Filter(entries, policy, now, false) == entries
  {
    if entries != [] {
      var init, last := entries[..|entries| - 1], entries[|entries| - 1];
      assert entries == init + [last] && last in entries;
      NothingExpired(init, policy, now);
    }
  }

  // ---- The report

  function EntryOf(files: Directory, name: string): Entry
    requires name in files
  {
    Entry(name, |files[name].bytes|, files[name].modified)
  }

  /** The cache files of a directory listing, in its order. */
  function Entries(files: Directory, listing: seq<string>): (entries: seq<Entry>)
    requires forall name <- listing :: name in files
    ensures forall e :: e in entries <==>
      e.name in listing && IsCacheFile(e.name) && e == EntryOf(files, e.name)
  {
    if listing == [] then []
    else
      var name := listing[|listing| - 1];
      Entries(files, listing[..|listing| - 1])
      + if IsCacheFile(name) then [EntryOf(files, name)] else []
  }

  function Names(entries: seq<Entry>): set<string> {
    set e | e in entries :: e.name
  }

  /** The entries this prune itself removed; others may have vanished before it got to them. */
  function ActuallyRemoved(entries: seq<Entry>, removal: string -> Removal): seq<Entry> {
    if entries == [] then []
    else
      var last := entries[|entries| - 1];
      ActuallyRemoved(entries[..|entries| - 1], removal) + if removal(last.name) == Removed then [last] else []
  }

  function ReportOf(scanned: nat, gone: seq<Entry>, removal: string -> Removal, retained: nat): Report {
    var removed := ActuallyRemoved(gone, removal);
    Report(scanned, |removed|, TotalBytes(removed), retained)
  }

  ghost predicate NoneDenied(entries: seq<Entry>, removal: string -> Removal) {
    forall e <- entries :: removal(e.name) != Denied
  }

  /** The entries that had vanished before this prune got to them. */
  function AlreadyGone(entries: seq<Entry>, removal: string -> Removal): seq<Entry> {
    if entries == [] then []
    else
      var last := entries[|entries| - 1];
      AlreadyGone(entries[..|entries| - 1], removal) + if removal(last.name) == Vanished then [last] else []
  }

  lemma {:induction false} RemovedOrGone(entries: seq<Entry>, removal: string -> Removal)
    requires NoneDenied(entries, removal)
    ensures |ActuallyRemoved(entries, removal)| + |AlreadyGone(entries, removal)| == |entries|
    ensures TotalBytes(ActuallyRemoved(entries, removal)) + TotalBytes(AlreadyGone(entries, removal))
            == TotalBytes(entries)
  {
    if entries != [] {
      var init, last := entries[..|entries| - 1], entries[|entries| - 1];
      RemovedOrGone(init, removal);
      assert last in entries;
      TotalBytesAppend(ActuallyRemoved(init, removal), [last]);
      TotalBytesAppend(AlreadyGone(init, removal), [last]);
      assert TotalBytes([last]) == last.byteLen;
      assert ActuallyRemoved(init, removal) + [] == ActuallyRemoved(init, removal);
      assert AlreadyGone(init, removal) + [] == AlreadyGone(init, removal);
    }
  }

  /** When no removal is refused, the bytes scanned are those removed, those of files that had vanished, and those
      retained; and the files likewise. */
  lemma ReportConserves(entries: seq<Entry>, policy: Policy, now: nat, removal: string -> Removal)
    requires var plan := PlanFor(entries, policy, now); NoneDenied(plan.expired + plan.victims, removal)
    ensures var plan := PlanFor(entries, policy, now);
            var gone := AlreadyGone(plan.expired + plan.victims, removal);
            var report := ReportOf(|entries|, plan.expired + plan.victims, removal, TotalBytes(plan.survivors));
            && TotalBytes(entries) == report.removedBytes + TotalBytes(gone) + report.retainedBytes
            && report.scannedFiles == report.removedFiles + |gone| + |plan.survivors|
  {
    var plan := PlanFor(entries, policy, now);
    RemovedOrGone(plan.expired + plan.victims, removal);
    PlanConserves(entries, policy, now);
    TotalBytesAppend(plan.expired, plan.victims);
    assert |multiset(entries)| == |multiset(plan.expired + (plan.victims + plan.survivors))|;
  }

  lemma EntriesSkip(files: Directory, listing: seq<string>, i: nat)
    requires i < |listing| && (forall name <- listing :: name in files) && !IsCacheFile(listing[i])
    ensures Entries(files, listing[..i + 1]) == Entries(files, listing[..i])
  {
    assert listing[..i + 1][..i] == listing[..i];
  }

  lemma EntriesPush(files: Directory, listing: seq<string>, i: nat)
    requires i < |listing| && (forall name <- listing :: name in files) && IsCacheFile(listing[i])
    ensures Entries(files, listing[..i + 1]) == Entries(files, listing[..i]) + [EntryOf(files, listing[i])]
  {
    assert listing[..i + 1][..i] == listing[..i];
  }

  lemma FilterPush(entries: seq<Entry>, e: Entry, policy: Policy, now: nat)
    ensures var expired := Expired(e, policy, now);
            && Filter(entries + [e], policy, now, expired) == Filter(entries, policy, now, expired) + [e]
            && Filter(entries + [e], policy, now, !expired) == Filter(entries, policy, now, !expired)
  {
    assert (entries + [e])[..|entries|] == entries;
  }

  /** `files` is `before` without the entries in `gone`, none of which was denied, and the report says so. */
  ghost predicate Removing(files: Directory, before: Directory, report: Report, gone: seq<Entry>,
                           removal: string -> Removal) {
    && NoneDenied(gone, removal)
    && files == before - Names(gone)
    && report.removedFiles == |ActuallyRemoved(gone, removal)|
    && report.removedBytes == TotalBytes(ActuallyRemoved(gone, removal))
  }

  /** A removal that was denied left some of the planned entries removed and every other file as it was. */
  ghost predicate BrokenOff(files: Directory, before: Directory, planned: seq<Entry>, removal: string -> Removal) {
    !NoneDenied(planned, removal) && exists names :: names <= Names(planned) && files == before - names
  }

  lemma RemovedPush(entries: seq<Entry>, e: Entry, removal: string -> Removal)
    ensures ActuallyRemoved(entries + [e], removal)
            == ActuallyRemoved(entries, removal) + if removal(e.name) == Removed then [e] else []
    ensures TotalBytes(ActuallyRemoved(entries + [e], removal))
            == TotalBytes(ActuallyRemoved(entries, removal)) + if removal(e.name) == Removed then e.byteLen else 0
  {
    assert (entries + [e])[..|entries|] == entries;
    TotalBytesAppend(ActuallyRemoved(entries, removal), [e]);
    assert TotalBytes([e]) == e.byteLen;
    assert ActuallyRemoved(entries, removal) + [] == ActuallyRemoved(entries, removal);
  }

  lemma NamesPush(entries: seq<Entry>, e: Entry)
    ensures Names(entries + [e]) == Names(entries) + {e.name}
  {
    forall name ensures name in Names(entries + [e]) <==> name in Names(entries) || name == e.name {
      if name in Names(entries) {
        var x :| x in entries && x.name == name;
        assert x in entries + [e];
      }
      assert e in entries + [e];
    }
  }

  /** `remove_pruned_file`, as it changes the directory and the report. */
  function Counted(report: Report, e: Entry, removal: string -> Removal): Report {
    if removal(e.name) == Removed then
      report.(removedFiles := report.removedFiles + 1, removedBytes := report.removedBytes + e.byteLen)
    else report
  }

  lemma WithoutBoth(files: Directory, names: set<string>, name: string)
    ensures (files - names) - {name} == files - (names + {name})
  {
  }

  lemma NoneDeniedPush(gone: seq<Entry>, e: Entry, removal: string -> Removal)
    requires NoneDenied(gone, removal) && removal(e.name) != Denied
    ensures NoneDenied(gone + [e], removal)
  {
  }

  lemma RemovingOneMore(files: Directory, before: Directory, report: Report, gone: seq<Entry>, e: Entry,
                        removal: string -> Removal)
    requires Removing(files, before, report, gone, removal) && removal(e.name) != Denied
    ensures Removing(files - {e.name}, before, Counted(report, e, removal), gone + [e], removal)
  {
    NamesPush(gone, e);
    NoneDeniedPush(gone, e, removal);
    RemovedPush(gone, e, removal);
    WithoutBoth(before, Names(gone), e.name);
  }

  lemma DeniedBreaksOff(files: Directory, before: Directory, report: Report, gone: seq<Entry>, e: Entry,
                        planned: seq<Entry>, removal: string -> Removal)
    requires Removing(files, before, report, gone, removal) && removal(e.name) == Denied
    requires e in planned && forall x <- gone :: x in planned
    ensures BrokenOff(files, before, planned, removal)
  {
    assert Names(gone) <= Names(planned);
  }

  lemma BrokenOffLater(files: Directory, before: Directory, planned: seq<Entry>, more: seq<Entry>,
                       removal: string -> Removal)
    requires BrokenOff(files, before, planned, removal)
    ensures BrokenOff(files, before, planned + more, removal)
  {
    assert Names(planned) <= Names(planned + more);
    var e :| e in planned && removal(e.name) == Denied;
    assert e in planned + more;
  }

  /** Where the first pass stands after the first `i` names of the listing. */
  ghost predicate FirstPass(files: Directory, before: Directory, listing: seq<string>, i: nat, report: Report,
                            retained: seq<Entry>, policy: Policy, removal: string -> Removal, now: nat)
  {
    && i <= |listing| && (forall name <- listing :: name in before)
    && var entries := Entries(before, listing[..i]);
       && Removing(files, before, report, Filter(entries, policy, now, true), removal)
       && report.scannedFiles == |entries| && report.retainedBytes == 0
       && retained == Filter(entries, policy, now, false)
  }

  lemma FirstPassStarts(before: Directory, listing: seq<string>, policy: Policy, removal: string -> Removal, now: nat)
    requires forall name <- listing :: name in before
    ensures FirstPass(before, before, listing, 0, Report(0, 0, 0, 0), [], policy, removal, now)
  {
    assert Names([]) == {} && before - {} == before;
  }

  /** The next file is still there: only earlier names have gone. */
  lemma NextIsThere(files: Directory, before: Directory, listing: seq<string>, i: nat, report: Report,
                    retained: seq<Entry>, policy: Policy, removal: string -> Removal, now: nat)
    requires FirstPass(files, before, listing, i, report, retained, policy, removal, now)
    requires Distinct(listing) && i < |listing|
    ensures listing[i] in files && files[listing[i]] == before[listing[i]]
  {
  }

  lemma FirstPassSkips(files: Directory, before: Directory, listing: seq<string>, i: nat, report: Report,
                       retained: seq<Entry>, policy: Policy, removal: string -> Removal, now: nat)
    requires FirstPass(files, before, listing, i, report, retained, policy, removal, now)
    requires i < |listing| && !IsCacheFile(listing[i])
    ensures FirstPass(files, before, listing, i + 1, report, retained, policy, removal, now)
  {
    EntriesSkip(before, listing, i);
  }

  lemma FirstPassCollects(files: Directory, before: Directory, listing: seq<string>, i: nat, report: Report,
                          retained: seq<Entry>, policy: Policy, removal: string -> Removal, now: nat)
    requires FirstPass(files, before, listing, i, report, retained, policy, removal, now)
    requires i < |listing| && IsCacheFile(listing[i]) && !Expired(EntryOf(before, listing[i]), policy, now)
    ensures FirstPass(files, before, listing, i + 1, report.(scannedFiles := report.scannedFiles + 1),
                      retained + [EntryOf(before, listing[i])], policy, removal, now)
  {
    EntriesPush(before, listing, i);
    FilterPush(Entries(before, listing[..i]), EntryOf(before, listing[i]), policy, now);
  }

  lemma FirstPassRemoves(files: Directory, before: Directory, listing: seq<string>, i: nat, report: Report,
                         retained: seq<Entry>, policy: Policy, removal: string -> Removal, now: nat)
    requires FirstPass(files, before, listing, i, report, retained, policy, removal, now)
    requires i < |listing| && IsCacheFile(listing[i]) && Expired(EntryOf(before, listing[i]), policy, now)
    requires removal(listing[i]) != Denied
    ensures var e := EntryOf(before, listing[i]);
            FirstPass(files - {e.name}, before, listing, i + 1,
                      Counted(report.(scannedFiles := report.scannedFiles + 1), e, removal),
                      retained, policy, removal, now)
  {
    var entries, e := Entries(before, listing[..i]), EntryOf(before, listing[i]);
    EntriesPush(before, listing, i);
    FilterPush(entries, e, policy, now);
    RemovingOneMore(files, before, report.(scannedFiles := report.scannedFiles + 1),
                    Filter(entries, policy, now, true), e, removal);
  }

  lemma FirstPassBreaksOff(files: Directory, before: Directory, listing: seq<string>, i: nat, report: Report,
                           retained: seq<Entry>, policy: Policy, removal: string -> Removal, now: nat)
    requires FirstPass(files, before, listing, i, report, retained, policy, removal, now)
    requires i < |listing| && IsCacheFile(listing[i]) && Expired(EntryOf(before, listing[i]), policy, now)
    requires removal(listing[i]) == Denied
    ensures BrokenOff(files, before, Filter(Entries(before, listing), policy, now, true), removal)
  {
    DeniedBreaksOff(files, before, report, Filter(Entries(before, listing[..i]), policy, now, true),
                    EntryOf(before, listing[i]), Filter(Entries(before, listing), policy, now, true), removal);
  }

  lemma FirstPassEnds(files: Directory, before: Directory, listing: seq<string>, report: Report,
                      retained: seq<Entry>, policy: Policy, removal: string -> Removal, now: nat)
    requires FirstPass(files, before, listing, |listing|, report, retained, policy, removal, now)
    ensures var entries := Entries(before, listing);
            && Removing(files, before, report, Filter(entries, policy, now, true), removal)
            && report.scannedFiles == |entries| && report.retainedBytes == 0
            && retained == Filter(entries, policy, now, false)
  {
    assert listing[..|listing|] == listing;
  }

  /** Where the second pass over `sorted` stands: `i` of the `count` victims are gone, and `bytes` are left. */
  ghost predicate SecondPass(files: Directory, before: Directory, report: Report, expired: seq<Entry>,
                             sorted: seq<Entry>,
                             removal: string -> Removal, i: nat, bytes: nat, maxBytes: nat, count: nat)
  {
    && Underway(sorted, i, bytes, maxBytes, count)
    && Removing(files, before, report, expired + sorted[..i], removal)
  }

  ghost predicate Underway(sorted: seq<Entry>, i: nat, bytes: nat, maxBytes: nat, count: nat) {
    i <= count <= |sorted| && bytes == TotalBytes(sorted[i..]) && count - i == VictimCount(sorted[i..], bytes, maxBytes)
  }

  lemma SecondPassStarts(files: Directory, before: Directory, report: Report, expired: seq<Entry>, sorted: seq<Entry>,
                         removal: string -> Removal, maxBytes: nat)
    requires Removing(files, before, report, expired, removal)
    ensures SecondPass(files, before, report, expired, sorted, removal, 0, TotalBytes(sorted), maxBytes,
                       VictimCount(sorted, TotalBytes(sorted), maxBytes))
  {
    assert sorted[0..] == sorted && expired + sorted[..0] == expired;
  }

  lemma UnderwayGoesOn(sorted: seq<Entry>, i: nat, bytes: nat, maxBytes: nat, count: nat)
    requires Underway(sorted, i, bytes, maxBytes, count)
    ensures i < count <==> i < |sorted| && bytes > maxBytes
    ensures i < count ==>
              && bytes >= sorted[i].byteLen
              && Underway(sorted, i + 1, bytes - sorted[i].byteLen, maxBytes, count)
  {
    if i < |sorted| && bytes > maxBytes {
      assert sorted[i..] == [sorted[i]] + sorted[i + 1..];
      TotalBytesAppend([sorted[i]], sorted[i + 1..]);
      assert TotalBytes([sorted[i]]) == sorted[i].byteLen;
    }
  }

  /** The second pass is over: the report is complete. */
  lemma SecondPassEnds(files: Directory, before: Directory, report: Report, expired: seq<Entry>, sorted: seq<Entry>,
                       removal: string -> Removal, i: nat, bytes: nat, maxBytes: nat, count: nat)
    requires SecondPass(files, before, report, expired, sorted, removal, i, bytes, maxBytes, count)
    requires i == |sorted| || bytes <= maxBytes
    ensures i == count && bytes == TotalBytes(sorted[count..])
    ensures Removing(files, before, report.(retainedBytes := bytes), expired + sorted[..count], removal)
  {
    UnderwayGoesOn(sorted, i, bytes, maxBytes, count);
  }

  lemma PlannedNext(expired: seq<Entry>, sorted: seq<Entry>, i: nat, count: nat)
    requires i < count <= |sorted|
    ensures expired + sorted[..i] + [sorted[i]] == expired + sorted[..i + 1]
    ensures expired + sorted[..i] + [sorted[i]] <= expired + sorted[..count]
  {
  }

  // ---- Pruning twice

  lemma {:induction false} EntriesAreDistinct(files: Directory, listing: seq<string>)
    requires Distinct(listing) && forall name <- listing :: name in files
    ensures Distinct(Entries(files, listing))
  {
    if listing != [] {
      var init := listing[..|listing| - 1];
      EntriesAreDistinct(files, init);
      var before := Entries(files, init);
      assert forall i | 0 <= i < |before| :: before[i] in before && before[i].name in init;
    }
  }

  lemma SameElementsSameMultiset(a: seq<Entry>, b: seq<Entry>)
    requires Distinct(a) && Distinct(b) && forall e :: e in a <==> e in b
    ensures multiset(a) == multiset(b)
  {
    forall e ensures multiset(a)[e] == multiset(b)[e] {
      DistinctCounts(a, e);
      DistinctCounts(b, e);
    }
  }

  lemma DistinctTail(front: seq<Entry>, tail: seq<Entry>, e: Entry)
    requires Distinct(front + tail)
    ensures Distinct(tail) && (e in tail ==> e !in front)
    ensures e in front + tail <==> e in front || e in tail
  {
    assert forall i | 0 <= i < |front| :: (front + tail)[i] == front[i];
    assert forall i | 0 <= i < |tail| :: (front + tail)[|front| + i] == tail[i];
  }

  lemma Permuted(entries: seq<Entry>, gone: seq<Entry>, survivors: seq<Entry>, e: Entry)
    requires Distinct(entries) && multiset(entries) == multiset(gone + survivors)
    ensures Distinct(survivors)
    ensures e in survivors <==> e in entries && e !in gone
    ensures e in gone ==> e in entries
  {
    PermutationKeepsDistinct(entries, gone + survivors);
    DistinctTail(gone, survivors, e);
  }

  /** A plan deals every entry out once. */
  lemma PlanIsPartition(entries: seq<Entry>, policy: Policy, now: nat, e: Entry)
    requires Distinct(entries)
    ensures var plan := PlanFor(entries, policy, now);
            && Distinct(plan.survivors)
            && (e in plan.survivors <==> e in entries && e !in plan.expired + plan.victims)
            && (e in plan.expired + plan.victims ==> e in entries)
  {
    var plan := PlanFor(entries, policy, now);
    PlanConserves(entries, policy, now);
    Reassociate(plan.expired, plan.victims, plan.survivors);
    Permuted(entries, plan.expired + plan.victims, plan.survivors, e);
  }

  lemma Reassociate(a: seq<Entry>, b: seq<Entry>, c: seq<Entry>)
    ensures a + (b + c) == a + b + c
  {
  }

  /** The directory after a prune lists exactly the survivors, so pruning it again at the same time removes nothing. */
  lemma PruningTwiceIsPruningOnce(files: Directory, listing: seq<string>, again: seq<string>, policy: Policy, now: nat)
    requires Distinct(listing) && forall name :: name in listing <==> name in files
    requires var plan := PlanFor(Entries(files, listing), policy, now);
             Distinct(again) && forall name :: name in again <==> name in files - Names(plan.expired + plan.victims)
    ensures var plan := PlanFor(Entries(files, listing), policy, now);
            var left := files - Names(plan.expired + plan.victims);
            var second := PlanFor(Entries(left, again), policy, now);
            second.expired == [] && second.victims == []
  {
    var entries := Entries(files, listing);
    var plan := PlanFor(entries, policy, now);
    var gone := plan.expired + plan.victims;
    var left := files - Names(gone);
    EntriesAreDistinct(files, listing);
    EntriesAreDistinct(left, again);
    PlanIsPartition(entries, policy, now, Entry("", 0, 0));
    forall e ensures e in Entries(left, again) <==> e in plan.survivors {
      PlanIsPartition(entries, policy, now, e);
      if e in entries && e.name in Names(gone) {
        var x :| x in gone && x.name == e.name;
        PlanIsPartition(entries, policy, now, x);
        assert x == e;
      }
      if e in gone {
        assert e.name in Names(gone);
      }
    }
    SameElementsSameMultiset(Entries(left, again), plan.survivors);
    SecondPruneIsIdle(entries, Entries(left, again), policy, now);
  }

  // ---- Which files are left

  /** The name has a stem and the extension `argb`. */
  ghost predicate HasArgbExtension(name: string) {
    exists stem: string :: stem != "" && name == stem + ".argb"
  }

  lemma IsCacheFileIff(name: string)
    ensures IsCacheFile(name) <==> HasArgbExtension(name)
  {
    if IsCacheFile(name) {
      assert name == name[..|name| - 5] + ".argb";
    }
  }

  ghost predicate IsOld(file: File, policy: Policy, now: nat) {
    now > file.modified + policy.maxAge
  }

  /** A prune without a refused removal: the files of other names are all left, and no cache file past the age limit is.
      If those within it fit the size limit, every one of them is left. */
  ghost predicate Pruned(left: Directory, files: Directory, listing: seq<string>, policy: Policy, now: nat)
    requires forall name <- listing :: name in files
  {
    && (forall name <- files.Keys :: !HasArgbExtension(name) ==> name in left)
    && (forall name <- listing :: HasArgbExtension(name) && IsOld(files[name], policy, now) ==> name !in left)
    && (YoungBytes(files, listing, policy, now) <= policy.maxBytes ==>
          forall name <- files.Keys :: !IsOld(files[name], policy, now) ==> name in left)
    && forall name <- left.Keys :: name in files && left[name] == files[name]
  }

  /** What the cache files within the age limit add up to. */
  function YoungBytes(files: Directory, listing: seq<string>, policy: Policy, now: nat): nat
    requires forall name <- listing :: name in files
  {
    if listing == [] then 0
    else
      var name := listing[|listing| - 1];
      YoungBytes(files, listing[..|listing| - 1], policy, now)
      + if |name| > 5 && name[|name| - 5..] == ".argb" && files[name].modified + policy.maxAge >= now
        then |files[name].bytes| else 0
  }

  lemma KeptPush(entries: seq<Entry>, e: Entry, policy: Policy, now: nat)
    ensures TotalBytes(Filter(entries + [e], policy, now, false))
            == TotalBytes(Filter(entries, policy, now, false))
               + if e.modified + policy.maxAge >= now then e.byteLen else 0
  {
    FilterPush(entries, e, policy, now);
    TotalBytesAppend(Filter(entries, policy, now, false), [e]);
    assert TotalBytes([e]) == e.byteLen;
  }

  lemma {:induction false} YoungBytesAreKept(files: Directory, listing: seq<string>, policy: Policy, now: nat)
    requires forall name <- listing :: name in files
    ensures TotalBytes(Filter(Entries(files, listing), policy, now, false)) == YoungBytes(files, listing, policy, now)
  {
    if listing != [] {
      var init, name := listing[..|listing| - 1], listing[|listing| - 1];
      YoungBytesAreKept(files, init, policy, now);
      if IsCacheFile(name) {
        KeptPush(Entries(files, init), EntryOf(files, name), policy, now);
      } else {
        assert Entries(files, listing) == Entries(files, init);
      }
    }
  }

  lemma PlanLeaves(files: Directory, listing: seq<string>, policy: Policy, now: nat)
    requires forall name <- listing :: name in files
    ensures var plan := PlanFor(Entries(files, listing), policy, now);
            Pruned(files - Names(plan.expired + plan.victims), files, listing, policy, now)
  {
    var entries := Entries(files, listing);
    var plan := PlanFor(entries, policy, now);
    var gone := plan.expired + plan.victims;
    forall name <- Names(gone) ensures HasArgbExtension(name) && name in files {
      GoneIsCacheFile(entries, policy, now, name);
      IsCacheFileIff(name);
    }
    forall name <- listing | HasArgbExtension(name) && IsOld(files[name], policy, now) ensures name in Names(gone) {
      IsCacheFileIff(name);
      ExpiredIff(entries, policy, now, EntryOf(files, name));
      assert EntryOf(files, name) in gone;
    }
    if YoungBytes(files, listing, policy, now) <= policy.maxBytes {
      YoungBytesAreKept(files, listing, policy, now);
      SortedByAgePermutes(Filter(entries, policy, now, false));
      assert plan.victims == [];
      forall name <- Names(gone) ensures IsOld(files[name], policy, now) {
        var e :| e in gone && e.name == name;
        ExpiredIff(entries, policy, now, e);
      }
    }
  }

  lemma GoneIsCacheFile(entries: seq<Entry>, policy: Policy, now: nat, name: string)
    requires var plan := PlanFor(entries, policy, now); name in Names(plan.expired + plan.victims)
    ensures exists e :: e in entries && e.name == name
  {
    var plan := PlanFor(entries, policy, now);
    var e :| e in plan.expired + plan.victims && e.name == name;
    if e in plan.victims {
      KeptAreFresh(entries, policy, now, e);
    }
    assert e in entries;
  }

  /** A prune that breaks off has spared the files of other names too. */
  lemma BrokenOffSparesOthers(files: Directory, before: Directory, listing: seq<string>, policy: Policy, now: nat,
                              removal: string -> Removal)
    requires forall name <- listing :: name in before
    requires var plan := PlanFor(Entries(before, listing), policy, now);
             BrokenOff(files, before, plan.expired + plan.victims, removal)
    ensures forall name <- before.Keys :: !HasArgbExtension(name) ==> name in files && files[name] == before[name]
  {
    PlanLeaves(before, listing, policy, now);
  }
}
