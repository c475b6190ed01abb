/** The daemon's file watcher (crates/daemon/src/app/watch.rs): it polls file stamps and reports a change once
    the files have been quiet for the debounce time.  Instants are in milliseconds. */
module AutoReload {
  import opened Options

  const MIN_AUTO_RELOAD_DEBOUNCE_MS: nat := 250
  const MAX_AUTO_RELOAD_DEBOUNCE_MS: nat := 5_000

  type Path = string

  datatype Trigger = Config | Include | Theme | Wallpaper

  datatype Stamp = Stamp(exists_: bool, modified: Option<nat>, len: nat, contentHash: Option<nat>)

  /** What reading stamps gives at one moment, with the content hashed or not. */
  datatype Disk = Disk(hashed: Path -> Stamp, plain: Path -> Stamp)

  datatype WatchedFile = WatchedFile(path: Path, stamp: Stamp)

  /** One watched path with its last stamp. */
  type Watched = Option<WatchedFile>

  datatype Watch = Watch(config: Watched, wallpaper: Watched, theme: Watched, includes: seq<WatchedFile>,
                         pending: Option<Trigger>, debounceUntil: Option<nat>)

  const IDLE := Watch(None, None, None, [], None, None)

  /** What one poll finds: the paths to watch, the disk when they are taken up and when they are checked,
      the settings and the time. */
  datatype Poll = Poll(configPath: Option<Path>, wallpaperPath: Option<Path>, themePath: Option<Path>,
                       includePaths: seq<Path>, atSync: Disk, atCheck: Disk, autoReload: bool, debounceMs: nat,
                       now: nat)

  function Distance(a: nat, b: nat): nat {
    if a < b then b - a else a - b
  }

  /** Of the times between 250 and 5000 ms, the one nearest to the configured one. */
  function EffectiveDebounce(ms: nat): (effective: nat)
    ensures 250 <= effective <= 5_000
    ensures forall other: nat | 250 <= other <= 5_000 :: Distance(ms, effective) <= Distance(ms, other)
  {
    if ms < MIN_AUTO_RELOAD_DEBOUNCE_MS then MIN_AUTO_RELOAD_DEBOUNCE_MS
    else if ms > MAX_AUTO_RELOAD_DEBOUNCE_MS then MAX_AUTO_RELOAD_DEBOUNCE_MS
    else ms
  }

  // ---- Taking up paths

  /** A path already watched keeps its stamp; a new one starts from its stamp now. */
  function SyncedPath(current: Watched, next: Option<Path>, read: Path -> Stamp): Watched {
    if next.None? then None
    else if current.Some? && current.value.path == next.value then current
    else Some(WatchedFile(next.value, read(next.value)))
  }

  function PathsOf(files: seq<WatchedFile>): seq<Path> {
    seq(|files|, i requires 0 <= i < |files| => files[i].path)
  }

  function FreshFiles(paths: seq<Path>, read: Path -> Stamp): seq<WatchedFile> {
    seq(|paths|, i requires 0 <= i < |paths| => WatchedFile(paths[i], read(paths[i])))
  }

  function Synced(w: Watch, p: Poll): Watch {
    w.(config := SyncedPath(w.config, p.configPath, p.atSync.hashed),
       wallpaper := SyncedPath(w.wallpaper, p.wallpaperPath, p.atSync.plain),
       theme := SyncedPath(w.theme, p.themePath, p.atSync.hashed),
       includes := if PathsOf(w.includes) == p.includePaths
                     then w.includes else FreshFiles(p.includePaths, p.atSync.hashed))
  }

  // ---- Checking stamps

  function Restamped(current: Watched, read: Path -> Stamp): Watched {
    if current.None? then None else Some(current.value.(stamp := read(current.value.path)))
  }

  function RestampedAll(files: seq<WatchedFile>, read: Path -> Stamp): (restamped: seq<WatchedFile>)
    ensures |restamped| == |files|
  {
    seq(|files|, i requires 0 <= i < |files| => files[i].(stamp := read(files[i].path)))
  }

  /** The stamps brought up to date; wallpaper, theme and includes only while auto-reload is on. */
  function Checked(w: Watch, p: Poll): Watch {
    var config := Restamped(w.config, p.atCheck.hashed);
    if !p.autoReload then w.(config := config)
    else w.(config := config, wallpaper := Restamped(w.wallpaper, p.atCheck.plain),
            theme := Restamped(w.theme, p.atCheck.hashed), includes := RestampedAll(w.includes, p.atCheck.hashed))
  }

  /** What changed, an include before the theme before the wallpaper before the configuration. */
  function Change(w: Watch, p: Poll): Option<Trigger> {
    var after := Checked(w, p);
    if after.includes != w.includes then Some(Include)
    else if after.theme != w.theme then Some(Theme)
    else if after.wallpaper != w.wallpaper then Some(Wallpaper)
    else if after.config != w.config then Some(Config)
    else None
  }

  /** One poll: the new state, and the trigger it fires. */
  function Step(w: Watch, p: Poll): (Watch, Option<Trigger>) {
    var synced := Synced(w, p);
    var checked, change := Checked(synced, p), Change(synced, p);
    if change.Some? then
      (checked.(pending := change, debounceUntil := Some(p.now + EffectiveDebounce(p.debounceMs))), None)
    else if w.pending.Some? && w.debounceUntil.Some? && p.now >= w.debounceUntil.value then
      (checked.(pending := None, debounceUntil := None), w.pending)
    else
      (checked, None)
  }

  lemma RestampedIsSettled(current: Watched, next: Option<Path>, early: Path -> Stamp, read: Path -> Stamp)
    ensures var settled := Restamped(SyncedPath(current, next, early), read);
            SyncedPath(settled, next, read) == settled && Restamped(settled, read) == settled
  {
  }

  lemma RestampedAllIsSettled(files: seq<WatchedFile>, read: Path -> Stamp)
    ensures var settled := RestampedAll(files, read);
            PathsOf(settled) == PathsOf(files) && RestampedAll(settled, read) == settled
  {
  }

  /** A change is seen once: polling the same paths again before the disk changes finds nothing. */
  lemma ChangeIsSeenOnce(w: Watch, p: Poll)
    ensures var again := p.(atSync := p.atCheck); Change(Synced(Checked(Synced(w, p), p), again), again) == None
  {
    RestampedIsSettled(w.config, p.configPath, p.atSync.hashed, p.atCheck.hashed);
    RestampedIsSettled(w.wallpaper, p.wallpaperPath, p.atSync.plain, p.atCheck.plain);
    RestampedIsSettled(w.theme, p.themePath, p.atSync.hashed, p.atCheck.hashed);
    RestampedAllIsSettled(Synced(w, p).includes, p.atCheck.hashed);
    assert PathsOf(FreshFiles(p.includePaths, p.atSync.hashed)) == p.includePaths;
  }

  // ---- Runs of polls

  function After(w: Watch, polls: seq<Poll>): Watch {
    if polls == [] then w else Step(After(w, polls[..|polls| - 1]), polls[|polls| - 1]).0
  }

  /** What the `i`-th poll observes and what it fires. */
  function Observed(w: Watch, polls: seq<Poll>, i: nat): Option<Trigger>
    requires i < |polls|
  {
    Change(Synced(After(w, polls[..i]), polls[i]), polls[i])
  }

  function Fired(w: Watch, polls: seq<Poll>, i: nat): Option<Trigger>
    requires i < |polls|
  {
    Step(After(w, polls[..i]), polls[i]).1
  }

  function DeadlineOf(p: Poll): nat {
    p.now + EffectiveDebounce(p.debounceMs)
  }

  /** Poll `j` observed a change, and up to (not including) poll `n` nothing else was observed
      and no poll came at or past its deadline. */
  ghost predicate Waiting(w: Watch, polls: seq<Poll>, j: nat, n: nat)
    requires j < n <= |polls|
  {
    && Observed(w, polls, j).Some?
    && forall m | j < m < n :: Observed(w, polls, m).None? && polls[m].now < DeadlineOf(polls[j])
  }

  lemma AfterPush(w: Watch, polls: seq<Poll>, n: nat)
    requires n < |polls|
    ensures After(w, polls[..n + 1]) == Step(After(w, polls[..n]), polls[n]).0
  {
    assert polls[..n + 1][..n] == polls[..n];
  }

  lemma PendingAfterStep(w: Watch, p: Poll)
    ensures var s, change := Step(w, p).0, Change(Synced(w, p), p);
            (s.pending, s.debounceUntil)
            == if change.Some? then (change, Some(DeadlineOf(p)))
               else if w.pending.Some? && w.debounceUntil.Some? && p.now >= w.debounceUntil.value then (None, None)
               else (w.pending, w.debounceUntil)
  {
  }

  lemma PendingAfter(w: Watch, polls: seq<Poll>, n: nat)
    requires n < |polls|
    ensures var before, s := After(w, polls[..n]), After(w, polls[..n + 1]);
            (s.pending, s.debounceUntil)
            == if Observed(w, polls, n).Some? then (Observed(w, polls, n), Some(DeadlineOf(polls[n])))
               else if before.pending.Some? && before.debounceUntil.Some? && polls[n].now >= before.debounceUntil.value
                    then (None, None)
               else (before.pending, before.debounceUntil)
  {
    AfterPush(w, polls, n);
    PendingAfterStep(After(w, polls[..n]), polls[n]);
  }

  /** The state after `n` polls holds the change of poll `j`. */
  ghost predicate Holds(w: Watch, polls: seq<Poll>, n: nat, j: nat)
    requires j < n <= |polls|
  {
    var s := After(w, polls[..n]);
    s.pending == Observed(w, polls, j) && s.debounceUntil == Some(DeadlineOf(polls[j]))
  }

  /** Nothing is pending, as in a new watcher. */
  predicate Quiet(w: Watch) {
    w.pending.None? && w.debounceUntil.None?
  }

  /** What is pending is exactly the change still waiting, with its kind and deadline. */
  lemma {:induction false} PendingIsWaiting(w: Watch, polls: seq<Poll>, n: nat)
    requires Quiet(w) && n <= |polls|
    ensures var s := After(w, polls[..n]);
            && (s.pending.Some? <==> s.debounceUntil.Some?)
            && (s.pending.Some? ==> exists j: nat :: j < n && Waiting(w, polls, j, n))
    ensures forall j: nat | j < n :: Waiting(w, polls, j, n) ==> Holds(w, polls, n, j)
    decreases n
  {
    if n > 0 {
      PendingIsWaiting(w, polls, n - 1);
      PendingAfter(w, polls, n - 1);
      forall j: nat | j < n && Waiting(w, polls, j, n) ensures Holds(w, polls, n, j) {
        if j < n - 1 {
          StillHolds(w, polls, n - 1, j);
        }
      }
      if After(w, polls[..n]).pending.Some? {
        var j := WaitingWitness(w, polls, n - 1, After(w, polls[..n - 1]));
      }
    }
  }

  lemma StillHolds(w: Watch, polls: seq<Poll>, n: nat, j: nat)
    requires j < n < |polls| && Waiting(w, polls, j, n + 1)
    requires Waiting(w, polls, j, n) ==> Holds(w, polls, n, j)
    ensures Holds(w, polls, n + 1, j)
  {
    PendingAfter(w, polls, n);
  }

  lemma WaitingExtends(w: Watch, polls: seq<Poll>, j: nat, n: nat)
    requires j < n < |polls| && Waiting(w, polls, j, n)
    requires Observed(w, polls, n).None? && polls[n].now < DeadlineOf(polls[j])
    ensures Waiting(w, polls, j, n + 1)
  {
    forall m | j < m < n + 1 ensures Observed(w, polls, m).None? && polls[m].now < DeadlineOf(polls[j]) {
      assert m < n || m == n;
    }
  }

  lemma WaitingWitness(w: Watch, polls: seq<Poll>, n: nat, before: Watch) returns (j: nat)
    requires n < |polls| && After(w, polls[..n + 1]).pending.Some?
    requires before == After(w, polls[..n]) && (before.pending.Some? <==> before.debounceUntil.Some?)
    requires before.pending.Some? ==> exists j: nat :: j < n && Waiting(w, polls, j, n) && Holds(w, polls, n, j)
    ensures j <= n && Waiting(w, polls, j, n + 1)
  {
    PendingAfter(w, polls, n);
    if Observed(w, polls, n).Some? {
      j := n;
    } else {
      j :| j < n && Waiting(w, polls, j, n) && Holds(w, polls, n, j);
      WaitingExtends(w, polls, j, n);
    }
  }

  /** A trigger fires at exactly the first quiet poll at or past the deadline of the last change, with that change's
      kind.  So each burst of changes fires once, and never before it has been quiet for 250 ms. */
  lemma FiresIff(w: Watch, polls: seq<Poll>, i: nat, trigger: Trigger)
    requires Quiet(w) && i < |polls|
    ensures Fired(w, polls, i) == Some(trigger) <==>
      && Observed(w, polls, i).None?
      && exists j: nat :: j < i && Waiting(w, polls, j, i) && Observed(w, polls, j) == Some(trigger)
                          && polls[i].now >= DeadlineOf(polls[j])
  {
    PendingIsWaiting(w, polls, i);
    var s := After(w, polls[..i]);
    if Fired(w, polls, i) == Some(trigger) {
      var j: nat :| j < i && Waiting(w, polls, j, i);
      assert Holds(w, polls, i, j);
      assert Observed(w, polls, j) == Some(trigger) && polls[i].now >= DeadlineOf(polls[j]);
    }
  }

  // ---- What a poll observes, by the polls alone

  /** The files watched on their own; includes are a list. */
  datatype Target = ConfigFile | ThemeFile | WallpaperFile

  function PathIn(p: Poll, target: Target): Option<Path> {
    match target
    case ConfigFile => p.configPath
    case ThemeFile => p.themePath
    case WallpaperFile => p.wallpaperPath
  }

  /** The stamp on that disk; a wallpaper is not read for its content. */
  function StampOn(disk: Disk, target: Target, path: Option<Path>): Option<Stamp> {
    if path.None? then None
    else Some(if target == WallpaperFile then disk.plain(path.value) else disk.hashed(path.value))
  }

  /** A poll always looks at the configuration, and at the other files only with auto-reload. */
  predicate LooksAt(p: Poll, target: Target) {
    target == ConfigFile || p.autoReload
  }

  /** The stamp poll `i` has to compare with, for a watcher made at `start`: from the poll that last looked at the file,
      or from when the path was taken up, if no poll has looked since. */
  function LastSeen(start: Poll, polls: seq<Poll>, i: nat, target: Target): Option<Stamp>
    requires i < |polls|
  {
    var path, before := PathIn(polls[i], target), if i == 0 then start else polls[i - 1];
    if PathIn(before, target) != path then StampOn(polls[i].atSync, target, path)
    else if i == 0 then StampOn(start.atSync, target, path)
    else if LooksAt(before, target) then StampOn(before.atCheck, target, path)
    else LastSeen(start, polls, i - 1, target)
  }

  function StampsOn(disk: Disk, paths: seq<Path>): (stamps: seq<Stamp>)
    ensures |stamps| == |paths| && forall k | 0 <= k < |paths| :: stamps[k] == disk.hashed(paths[k])
  {
    seq(|paths|, k requires 0 <= k < |paths| => disk.hashed(paths[k]))
  }

  /** The same of the includes; they are taken up anew whenever their list changes. */
  function IncludesLastSeen(start: Poll, polls: seq<Poll>, i: nat): (stamps: seq<Stamp>)
    requires i < |polls|
    ensures |stamps| == |polls[i].includePaths|
  {
    var paths, before := polls[i].includePaths, if i == 0 then start else polls[i - 1];
    if before.includePaths != paths then StampsOn(polls[i].atSync, paths)
    else if i == 0 then StampsOn(start.atSync, paths)
    else if before.autoReload then StampsOn(before.atCheck, paths)
    else IncludesLastSeen(start, polls, i - 1)
  }

  predicate Differs(start: Poll, polls: seq<Poll>, i: nat, target: Target)
    requires i < |polls|
  {
    && LooksAt(polls[i], target)
    && LastSeen(start, polls, i, target) != StampOn(polls[i].atCheck, target, PathIn(polls[i], target))
  }

  predicate AnyIncludeDiffers(start: Poll, polls: seq<Poll>, i: nat)
    requires i < |polls|
  {
    polls[i].autoReload && IncludesLastSeen(start, polls, i) != StampsOn(polls[i].atCheck, polls[i].includePaths)
  }

  function WatchedAs(w: Watch, target: Target): Watched {
    match target
    case ConfigFile => w.config
    case ThemeFile => w.theme
    case WallpaperFile => w.wallpaper
  }

  function FileOf(path: Option<Path>, stamp: Option<Stamp>): Watched {
    if path.Some? && stamp.Some? then Some(WatchedFile(path.value, stamp.value)) else None
  }

  function FilesOf(paths: seq<Path>, stamps: seq<Stamp>): seq<WatchedFile>
    requires |paths| == |stamps|
  {
    seq(|paths|, k requires 0 <= k < |paths| => WatchedFile(paths[k], stamps[k]))
  }

  /** The state a poll checks. */
  function AtCheck(start: Poll, polls: seq<Poll>, i: nat): Watch
    requires i < |polls|
  {
    Synced(After(Synced(IDLE, start), polls[..i]), polls[i])
  }

  lemma AtCheckUnfolds(start: Poll, polls: seq<Poll>, i: nat) returns (w: Watch)
    requires 0 < i < |polls|
    ensures AtCheck(start, polls, i - 1) == Synced(w, polls[i - 1])
    ensures AtCheck(start, polls, i) == Synced(Step(w, polls[i - 1]).0, polls[i])
  {
    w := After(Synced(IDLE, start), polls[..i - 1]);
    AfterPush(Synced(IDLE, start), polls, i - 1);
  }

  lemma StepChecks(w: Watch, p: Poll, target: Target)
    ensures WatchedAs(Step(w, p).0, target) == WatchedAs(Checked(Synced(w, p), p), target)
    ensures Step(w, p).0.includes == Checked(Synced(w, p), p).includes
  {
  }

  lemma TargetTakenUp(w: Watch, p: Poll, target: Target, path: Option<Path>, stamp: Option<Stamp>)
    requires WatchedAs(w, target) == FileOf(path, stamp) && (stamp.Some? <==> path.Some?)
    ensures WatchedAs(Synced(w, p), target)
            == FileOf(PathIn(p, target), if PathIn(p, target) == path then stamp
                                         else StampOn(p.atSync, target, PathIn(p, target)))
  {
  }

  lemma TargetLookedAt(w: Watch, p: Poll, target: Target, path: Option<Path>, stamp: Option<Stamp>)
    requires WatchedAs(w, target) == FileOf(path, stamp) && (stamp.Some? <==> path.Some?)
    ensures WatchedAs(Checked(w, p), target)
            == FileOf(path, if LooksAt(p, target) then StampOn(p.atCheck, target, path) else stamp)
  {
  }

  /** From one poll to the next. */
  lemma TargetInNextPoll(w: Watch, p: Poll, q: Poll, target: Target, stamp: Option<Stamp>)
    requires WatchedAs(Synced(w, p), target) == FileOf(PathIn(p, target), stamp)
    requires stamp.Some? <==> PathIn(p, target).Some?
    ensures WatchedAs(Synced(Step(w, p).0, q), target)
            == FileOf(PathIn(q, target), if PathIn(p, target) != PathIn(q, target)
                                           then StampOn(q.atSync, target, PathIn(q, target))
                                         else if LooksAt(p, target) then StampOn(p.atCheck, target, PathIn(q, target))
                                         else stamp)
  {
    var path := PathIn(p, target);
    StepChecks(w, p, target);
    TargetLookedAt(Synced(w, p), p, target, path, stamp);
    TargetTakenUp(Step(w, p).0, q, target, path,
                  if LooksAt(p, target) then StampOn(p.atCheck, target, path) else stamp);
  }

  lemma {:induction false} TargetIsLastSeen(start: Poll, polls: seq<Poll>, i: nat, target: Target)
    requires i < |polls|
    ensures WatchedAs(AtCheck(start, polls, i), target)
            == FileOf(PathIn(polls[i], target), LastSeen(start, polls, i, target))
    ensures LastSeen(start, polls, i, target).Some? <==> PathIn(polls[i], target).Some?
  {
    if i > 0 {
      TargetIsLastSeen(start, polls, i - 1, target);
      var w := AtCheckUnfolds(start, polls, i);
      TargetInNextPoll(w, polls[i - 1], polls[i], target, LastSeen(start, polls, i - 1, target));
    } else {
      TargetTakenUp(IDLE, start, target, None, None);
      TargetTakenUp(Synced(IDLE, start), polls[0], target, PathIn(start, target),
                    StampOn(start.atSync, target, PathIn(start, target)));
    }
  }

  /** A list of includes is kept or taken up whole. */
  lemma IncludesTakenUp(w: Watch, p: Poll, paths: seq<Path>, stamps: seq<Stamp>)
    requires |paths| == |stamps| && w.includes == FilesOf(paths, stamps)
    ensures Synced(w, p).includes == FilesOf(p.includePaths, if p.includePaths == paths then stamps
                                                             else StampsOn(p.atSync, p.includePaths))
  {
    assert PathsOf(w.includes) == paths;
  }

  lemma IncludesLookedAt(w: Watch, p: Poll, paths: seq<Path>, stamps: seq<Stamp>)
    requires |paths| == |stamps| && w.includes == FilesOf(paths, stamps)
    ensures Checked(w, p).includes == FilesOf(paths, if p.autoReload then StampsOn(p.atCheck, paths) else stamps)
  {
  }

  lemma IncludesInNextPoll(w: Watch, p: Poll, q: Poll, stamps: seq<Stamp>)
    requires |stamps| == |p.includePaths| && Synced(w, p).includes == FilesOf(p.includePaths, stamps)
    ensures Synced(Step(w, p).0, q).includes
            == FilesOf(q.includePaths, if p.includePaths != q.includePaths then StampsOn(q.atSync, q.includePaths)
                                       else if p.autoReload then StampsOn(p.atCheck, q.includePaths)
                                       else stamps)
  {
    StepChecks(w, p, ConfigFile);
    IncludesLookedAt(Synced(w, p), p, p.includePaths, stamps);
    IncludesTakenUp(Step(w, p).0, q, p.includePaths,
                    if p.autoReload then StampsOn(p.atCheck, p.includePaths) else stamps);
  }

  lemma {:induction false} IncludesAreLastSeen(start: Poll, polls: seq<Poll>, i: nat)
    requires i < |polls|
    ensures AtCheck(start, polls, i).includes == FilesOf(polls[i].includePaths, IncludesLastSeen(start, polls, i))
  {
    if i > 0 {
      IncludesAreLastSeen(start, polls, i - 1);
      var w := AtCheckUnfolds(start, polls, i);
      IncludesInNextPoll(w, polls[i - 1], polls[i], IncludesLastSeen(start, polls, i - 1));
    } else {
      IncludesTakenUp(IDLE, start, [], []);
      IncludesTakenUp(Synced(IDLE, start), polls[0], start.includePaths, StampsOn(start.atSync, start.includePaths));
    }
  }

  /** What each poll of a watcher observes, from the polls alone: an include that differs from when it was last seen
      before such a theme, before a wallpaper, before the configuration. */
  lemma ObservedByThePolls(start: Poll, polls: seq<Poll>, i: nat)
    requires i < |polls|
    ensures Observed(Synced(IDLE, start), polls, i)
            == if AnyIncludeDiffers(start, polls, i) then Some(Include)
               else if Differs(start, polls, i, ThemeFile) then Some(Theme)
               else if Differs(start, polls, i, WallpaperFile) then Some(Wallpaper)
               else if Differs(start, polls, i, ConfigFile) then Some(Config)
               else None
  {
    TargetIsLastSeen(start, polls, i, ConfigFile);
    TargetIsLastSeen(start, polls, i, ThemeFile);
    TargetIsLastSeen(start, polls, i, WallpaperFile);
    IncludesCompared(start, polls, i);
  }

  lemma IncludesCompared(start: Poll, polls: seq<Poll>, i: nat)
    requires i < |polls|
    ensures Checked(AtCheck(start, polls, i), polls[i]).includes != AtCheck(start, polls, i).includes
       <==> AnyIncludeDiffers(start, polls, i)
  {
    var paths, stamps := polls[i].includePaths, IncludesLastSeen(start, polls, i);
    IncludesAreLastSeen(start, polls, i);
    IncludesLookedAt(AtCheck(start, polls, i), polls[i], paths, stamps);
    SameFilesIff(paths, StampsOn(polls[i].atCheck, paths), stamps);
  }

  lemma SameFilesIff(paths: seq<Path>, a: seq<Stamp>, b: seq<Stamp>)
    requires |paths| == |a| == |b|
    ensures FilesOf(paths, a) == FilesOf(paths, b) <==> a == b
  {
    if FilesOf(paths, a) == FilesOf(paths, b) {
      assert forall k | 0 <= k < |paths| :: FilesOf(paths, a)[k].stamp == a[k] && FilesOf(paths, b)[k].stamp == b[k];
    }
  }

  /** Both polls watch the same files. */
  predicate SamePaths(p: Poll, q: Poll) {
    && p.configPath == q.configPath && p.wallpaperPath == q.wallpaperPath && p.themePath == q.themePath
    && p.includePaths == q.includePaths
  }

  /** The file's stamp changed between the checks of two polls. */
  predicate Edited(p: Poll, q: Poll, target: Target) {
    StampOn(p.atCheck, target, PathIn(q, target)) != StampOn(q.atCheck, target, PathIn(q, target))
  }

  /** So an edit between two polls of the same files is noticed by the second, whatever the disk is when it takes the
      paths up; without auto-reload only one of the configuration is. */
  lemma EditIsNoticed(start: Poll, polls: seq<Poll>, i: nat)
    requires i + 1 < |polls| && SamePaths(polls[i], polls[i + 1]) && polls[i].autoReload
    ensures var p, q := polls[i], polls[i + 1];
            Observed(Synced(IDLE, start), polls, i + 1)
            == if !q.autoReload then if Edited(p, q, ConfigFile) then Some(Config) else None
               else if exists path <- q.includePaths :: p.atCheck.hashed(path) != q.atCheck.hashed(path)
                 then Some(Include)
               else if Edited(p, q, ThemeFile) then Some(Theme)
               else if Edited(p, q, WallpaperFile) then Some(Wallpaper)
               else if Edited(p, q, ConfigFile) then Some(Config)
               else None
  {
    var p, q := polls[i], polls[i + 1];
    ObservedByThePolls(start, polls, i + 1);
    if path :| path in q.includePaths && p.atCheck.hashed(path) != q.atCheck.hashed(path) {
      var k :| 0 <= k < |q.includePaths| && q.includePaths[k] == path;
      assert StampsOn(p.atCheck, q.includePaths)[k] != StampsOn(q.atCheck, q.includePaths)[k];
    }
  }

  // ---- The program

  class AutoReloadWatcher {
    var config: Watched
    var wallpaper: Watched
    var theme: Watched
    var includes: seq<WatchedFile>
    var pending: Option<Trigger>
    var debounceUntil: Option<nat>

    ghost function State(): Watch
      reads this
    {
      Watch(config, wallpaper, theme, includes, pending, debounceUntil)
    }

    constructor (p: Poll)
      ensures State() == Synced(IDLE, p) && Quiet(State())
    {
      config, wallpaper, theme, includes, pending, debounceUntil := None, None, None, [], None, None;
      new;
      SyncTargets(p);
    }

    method SyncTargets(p: Poll)
      modifies this
      ensures State() == Synced(old(State()), p)
    {
      config := SyncedPath(config, p.configPath, p.atSync.hashed);
      wallpaper := SyncedPath(wallpaper, p.wallpaperPath, p.atSync.plain);
      theme := SyncedPath(theme, p.themePath, p.atSync.hashed);
      if PathsOf(includes) != p.includePaths {
        includes := FreshFiles(p.includePaths, p.atSync.hashed);
      }
    }

    method Check(p: Poll) returns (changed: Option<Trigger>)
      modifies this
      ensures State() == Checked(old(State()), p) && changed == Change(old(State()), p)
    {
      changed := None;
      if config.Some? {
        var stamp := p.atCheck.hashed(config.value.path);
        if config.value.stamp != stamp {
          config := Some(config.value.(stamp := stamp));
          changed := Some(Config);
        }
      }
      if p.autoReload && wallpaper.Some? {
        var stamp := p.atCheck.plain(wallpaper.value.path);
        if wallpaper.value.stamp != stamp {
          wallpaper := Some(wallpaper.value.(stamp := stamp));
          changed := Some(Wallpaper);
        }
      }
      if p.autoReload && theme.Some? {
        var stamp := p.atCheck.hashed(theme.value.path);
        if theme.value.stamp != stamp {
          theme := Some(theme.value.(stamp := stamp));
          changed := Some(Theme);
        }
      }
      if p.autoReload {
        var anyInclude := CheckIncludes(p.atCheck.hashed);
        if anyInclude {
          changed := Some(Include);
        }
      }
    }

    method CheckIncludes(read: Path -> Stamp) returns (changed: bool)
      modifies this`includes
      ensures includes == RestampedAll(old(includes), read) && (changed <==> includes != old(includes))
    {
      ghost var before := includes;
      changed := false;
      for i := 0 to |includes|
        invariant |includes| == |before|
        invariant forall k | 0 <= k < |before| ::
          includes[k] == if k < i then RestampedAll(before, read)[k] else before[k]
        invariant changed <==> includes != before
      {
        var stamp := read(includes[i].path);
        if includes[i].stamp != stamp {
          includes := includes[i := includes[i].(stamp := stamp)];
          assert includes[i] != before[i];
          changed := true;
        }
      }
    }

    method PollOnce(p: Poll) returns (fired: Option<Trigger>)
      modifies this
      ensures (State(), fired) == Step(old(State()), p)
    {
      SyncTargets(p);
      var changed := Check(p);
      if changed.Some? {
        pending := changed;
        debounceUntil := Some(p.now + EffectiveDebounce(p.debounceMs));
        return None;
      }
      if pending.Some? && debounceUntil.Some? && p.now >= debounceUntil.value {
        fired := pending;
        pending, debounceUntil := None, None;
      } else {
        fired := None;
      }
    }
  }
}
