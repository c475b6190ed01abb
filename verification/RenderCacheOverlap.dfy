/** Stores of cached renders that may overlap (crates/renderer/src/background/render_cache.rs:163-210).  The prewarming
    helper and the lock screen both store, without a lock, and all stores of one picture share one temporary name
    (crates/renderer/src/background/asset.rs:155-190, crates/curtain/src/background/loader.rs:176-187). */
module RenderCacheOverlap {
  import opened Bytes
  import opened FrameSizes
  import opened Options
  import opened RenderCacheFiles
  import opened RenderCacheKeys
  import Caches = RenderCaches
  import Pruning = RenderCachePruning

  datatype Picture = Picture(request: Request, pixels: seq<byte>)

  function StoreOf(hash: Hash, r: Request, pixels: seq<byte>): Store<Picture> {
    var name := CacheName(hash, r);
    Store(Picture(r, pixels), name, Caches.TempName(name), Caches.Encoded(r.size, pixels))
  }

  /** The store is one of a picture in play, with as many pixels as its size calls for. */
  ghost predicate Genuine(hash: Hash, play: set<Request>, store: Store<Picture>) {
    && store == StoreOf(hash, store.picture.request, store.picture.pixels)
    && store.picture.request in play
    && store.picture.request.size.ByteLen() == Some(|store.picture.pixels|)
  }

  ghost function GenuineFor(hash: Hash, play: set<Request>): Store<Picture> -> bool {
    store => Genuine(hash, play, store)
  }

  ghost predicate AllGenuine(hash: Hash, play: set<Request>, events: seq<Event<Picture>>) {
    GoodEvents(events, GenuineFor(hash, play))
  }

  /** So are the stores under way and those that completed. */
  ghost predicate GenuineCache(hash: Hash, play: set<Request>, c: Cache<Picture>, known: map<string, Store<Picture>>) {
    AllGood(c, known, GenuineFor(hash, play))
  }

  function LoadNow(c: Cache<Picture>, hash: Hash, r: Request): Caches.Load {
    var name := CacheName(hash, r);
    if name in c.names && c.names[name] in c.files then Caches.Decoded(c.files[c.names[name]], r.size)
    else Caches.Load.Miss
  }

  /** A load misses because the file is gone, or returns the pixels of the last store of that picture to complete. */
  ghost predicate LoadIsRight(hash: Hash, c: Cache<Picture>, known: map<string, Store<Picture>>, r: Request) {
    var name := CacheName(hash, r);
    if name in c.names then
      && name in known && SameRequest(known[name].picture.request, r)
      && LoadNow(c, hash, r) == Caches.Hit(known[name].picture.pixels)
    else LoadNow(c, hash, r) == Caches.Load.Miss
  }

  ghost predicate AllLoadsAreRight(hash: Hash, play: set<Request>, c: Cache<Picture>,
                                   known: map<string, Store<Picture>>)
  {
    forall r <- play :: LoadIsRight(hash, c, known, r)
  }

  /** A store of the picture may begin: any other of it under way writes the same pixels, has written nothing yet, and
      still has the temporary name. */
  ghost predicate MayBegin(hash: Hash, c: Cache<Picture>, r: Request, pixels: seq<byte>) {
    forall id <- c.writers.Keys :: MayBeginBeside(hash, c, c.writers[id], r, pixels)
  }

  ghost predicate MayBeginBeside(hash: Hash, c: Cache<Picture>, w: Writer<Picture>, r: Request, pixels: seq<byte>) {
    SameRequest(w.store.picture.request, r) ==>
      && w.written == 0 && w.store.picture.pixels == pixels && Caches.TempName(CacheName(hash, r)) in c.names
  }

  // ---- Stores, pictures and names

  lemma StoresArePlain(hash: Hash, r: Request, pixels: seq<byte>)
    ensures Plain(StoreOf(hash, r, pixels))
  {
    CacheNameBeginsWithDigit(hash, r);
  }

  lemma StoresBegin(hash: Hash, r: Request, pixels: seq<byte>)
    ensures Begins(StoreOf(hash, r, pixels))
  {
    Caches.HeaderParts(r.size, pixels);
    assert Caches.Encoded(r.size, pixels)[0] == Caches.Encoded(r.size, pixels)[..8][0] == 75;
  }

  lemma SameTempSameName(m: string, n: string)
    requires Caches.TempName(m) == Caches.TempName(n)
    ensures m == n
  {
    assert Caches.TempName(m)[1..1 + |m|] == m && Caches.TempName(n)[1..1 + |n|] == n;
  }

  /** Stores share a temporary name exactly when they are of one picture, and then write the same bytes exactly when
      they have the same pixels. */
  lemma SameTempIff(hash: Hash, play: set<Request>, a: Store<Picture>, b: Store<Picture>)
    requires Caches.HashHolds(hash, play) && Genuine(hash, play, a) && Genuine(hash, play, b)
    ensures a.temp == b.temp <==> SameRequest(a.picture.request, b.picture.request)
    ensures a.name == b.name <==> SameRequest(a.picture.request, b.picture.request)
    ensures a.temp == b.temp ==> (a.bytes == b.bytes <==> a.picture.pixels == b.picture.pixels)
    ensures a.temp == b.temp ==> |a.bytes| == |b.bytes|
  {
    SameNameIffSameRequest(hash, a.picture.request, b.picture.request);
    if a.temp == b.temp {
      SameTempSameName(a.name, b.name);
    }
    Caches.HeaderParts(a.picture.request.size, a.picture.pixels);
    Caches.HeaderParts(b.picture.request.size, b.picture.pixels);
  }

  lemma HarmlessIff(hash: Hash, play: set<Request>, c: Cache<Picture>, known: map<string, Store<Picture>>,
                    r: Request, pixels: seq<byte>)
    requires Caches.HashHolds(hash, play) && GenuineCache(hash, play, c, known)
    requires Genuine(hash, play, StoreOf(hash, r, pixels))
    ensures Harmless(c, StoreOf(hash, r, pixels)) <==> MayBegin(hash, c, r, pixels)
  {
    forall id <- c.writers.Keys
      ensures HarmlessBeside(c, c.writers[id], StoreOf(hash, r, pixels))
         <==> MayBeginBeside(hash, c, c.writers[id], r, pixels)
    {
      HarmlessBesideIff(hash, play, c, c.writers[id], r, pixels);
    }
  }

  lemma HarmlessBesideIff(hash: Hash, play: set<Request>, c: Cache<Picture>, w: Writer<Picture>,
                          r: Request, pixels: seq<byte>)
    requires Caches.HashHolds(hash, play) && Genuine(hash, play, w.store)
    requires Genuine(hash, play, StoreOf(hash, r, pixels))
    ensures HarmlessBeside(c, w, StoreOf(hash, r, pixels)) <==> MayBeginBeside(hash, c, w, r, pixels)
  {
    SameTempIff(hash, play, w.store, StoreOf(hash, r, pixels));
  }

  lemma RefiningLoadsAreRight(hash: Hash, play: set<Request>, c: Cache<Picture>, known: map<string, Store<Picture>>)
    requires Caches.HashHolds(hash, play) && Refines(c, known) && GenuineCache(hash, play, c, known)
    ensures AllLoadsAreRight(hash, play, c, known)
  {
    forall r <- play ensures LoadIsRight(hash, c, known, r) {
      var name := CacheName(hash, r);
      StoresArePlain(hash, r, []);
      if name in c.names {
        assert name in known && Genuine(hash, play, known[name]);
        SameNameIffSameRequest(hash, known[name].picture.request, r);
        Caches.RoundTripIff(r.size, known[name].picture.pixels);
      }
    }
  }

  // ---- When loads are right

  /** As long as stores begin only when they may: at any moment, whatever stores are half done, broken off or racing
      with removals, every load is right. */
  lemma LoadReturnsLastCompleted(hash: Hash, play: set<Request>, events: seq<Event<Picture>>, r: Request)
    requires Caches.HashHolds(hash, play) && AllGenuine(hash, play, events) && r in play
    requires AllDoNoHarm(Empty(), events)
    ensures LoadIsRight(hash, Run(Empty(), events), LastStored(events), r)
  {
    RunLoadsAreRight(hash, play, Empty(), map[], events);
  }

  /** And a load may take its time: once it has opened the file, whatever happens next, harmful stores included,
      it reads those pixels. */
  lemma LoadMayTakeItsTime(hash: Hash, play: set<Request>, events: seq<Event<Picture>>, r: Request,
                           more: seq<Event<Picture>>)
    requires Caches.HashHolds(hash, play) && AllGenuine(hash, play, events) && r in play
    requires AllDoNoHarm(Empty(), events)
    requires AllGenuine(hash, play, more) && CacheName(hash, r) in Run(Empty(), events).names
    ensures var c, name := Run(Empty(), events), CacheName(hash, r);
            && name in LastStored(events) && c.names[name] in Run(c, more).files
            && Caches.Decoded(Run(c, more).files[c.names[name]], r.size)
               == Caches.Hit(LastStored(events)[name].picture.pixels)
  {
    var c, name := Run(Empty(), events), CacheName(hash, r);
    LoadReturnsLastCompleted(hash, play, events, r);
    RunRefines(Empty(), map[], events);
    StoresArePlain(hash, r, []);
    NamedFilesAreSettled(c, LastStored(events), name);
    forall event <- more | event.Create? ensures Plain(event.store) {
      StoresArePlain(hash, event.store.picture.request, event.store.picture.pixels);
    }
    OpenFileStaysAsItIs(c, more, c.names[name]);
  }

  /** Exactly when a store may begin, at any moment of such a run: whatever then happens, as long as other stores begin
      only when they may, every load stays right.  If it may not, stores under way need only write on and rename. */
  lemma MayBeginIff(hash: Hash, play: set<Request>, events: seq<Event<Picture>>, id: nat, r: Request, pixels: seq<byte>)
    requires Caches.HashHolds(hash, play) && AllGenuine(hash, play, events) && AllDoNoHarm(Empty(), events)
    requires id !in Run(Empty(), events).writers && Genuine(hash, play, StoreOf(hash, r, pixels))
    ensures var c, known := Run(Empty(), events), LastStored(events);
            var next := Created(c, id, StoreOf(hash, r, pixels));
            MayBegin(hash, c, r, pixels) <==>
              forall more | AllGenuine(hash, play, more) && AllDoNoHarm(next, more) ::
                AllLoadsAreRight(hash, play, Run(next, more), Known(next, known, more))
  {
    var c, known, store := Run(Empty(), events), LastStored(events), StoreOf(hash, r, pixels);
    var next := Created(c, id, store);
    RunRefines(Empty(), map[], events);
    GoodRun(Empty(), map[], events, GenuineFor(hash, play));
    HarmlessIff(hash, play, c, known, r, pixels);
    if MayBegin(hash, c, r, pixels) {
      HarmlessLoadsAreRight(hash, play, c, known, id, r, pixels);
    } else {
      var more := HarmMisleads(hash, play, c, known, id, r, pixels);
      assert AllDoNoHarm(next, more) && AllGenuine(hash, play, more);
    }
  }

  lemma HarmlessLoadsAreRight(hash: Hash, play: set<Request>, c: Cache<Picture>, known: map<string, Store<Picture>>,
                              id: nat, r: Request, pixels: seq<byte>)
    requires Caches.HashHolds(hash, play) && Refines(c, known) && GenuineCache(hash, play, c, known)
    requires id !in c.writers && Genuine(hash, play, StoreOf(hash, r, pixels))
    requires Harmless(c, StoreOf(hash, r, pixels))
    ensures var next := Created(c, id, StoreOf(hash, r, pixels));
            forall more | AllGenuine(hash, play, more) && AllDoNoHarm(next, more) ::
              AllLoadsAreRight(hash, play, Run(next, more), Known(next, known, more))
  {
    var next := Created(c, id, StoreOf(hash, r, pixels));
    StoresArePlain(hash, r, pixels);
    CreatedRefines(c, known, id, StoreOf(hash, r, pixels));
    GoodStep(c, known, Create(id, StoreOf(hash, r, pixels)), GenuineFor(hash, play));
    forall more | AllGenuine(hash, play, more) && AllDoNoHarm(next, more)
      ensures AllLoadsAreRight(hash, play, Run(next, more), Known(next, known, more)) == true
    {
      RunLoadsAreRight(hash, play, next, known, more);
    }
  }

  lemma RunLoadsAreRight(hash: Hash, play: set<Request>, c: Cache<Picture>, known: map<string, Store<Picture>>,
                         events: seq<Event<Picture>>)
    requires Caches.HashHolds(hash, play) && Refines(c, known) && GenuineCache(hash, play, c, known)
    requires AllGenuine(hash, play, events) && AllDoNoHarm(c, events)
    ensures AllLoadsAreRight(hash, play, Run(c, events), Known(c, known, events)) == true
  {
    RunRefines(c, known, events);
    GoodRun(c, known, events, GenuineFor(hash, play));
    RefiningLoadsAreRight(hash, play, Run(c, events), Known(c, known, events));
  }

  lemma HarmMisleads(hash: Hash, play: set<Request>, c: Cache<Picture>, known: map<string, Store<Picture>>,
                     id: nat, r: Request, pixels: seq<byte>)
    returns (more: seq<Event<Picture>>)
    requires Caches.HashHolds(hash, play) && Refines(c, known) && GenuineCache(hash, play, c, known)
    requires id !in c.writers && Genuine(hash, play, StoreOf(hash, r, pixels))
    requires !Harmless(c, StoreOf(hash, r, pixels))
    ensures NoneBegins(more) && AllGenuine(hash, play, more)
    ensures var next := Created(c, id, StoreOf(hash, r, pixels));
            AllDoNoHarm(next, more) && !AllLoadsAreRight(hash, play, Run(next, more), Known(next, known, more))
  {
    var store := StoreOf(hash, r, pixels);
    var next := Created(c, id, store);
    var j :| j in c.writers && !HarmlessBeside(c, c.writers[j], store);
    var w := c.writers[j].store;
    StoresArePlain(hash, r, pixels);
    StoresBegin(hash, r, pixels);
    StoresBegin(hash, w.picture.request, w.picture.pixels);
    SameTempIff(hash, play, w, store);
    var spoiled: Store<Picture>;
    more, spoiled := HarmSpoils(c, known, id, store, j);
    NoHarmInFinishing(next, more);
    SpoiledLoadIsWrong(hash, play, Run(next, more), Known(next, known, more), spoiled);
  }

  lemma SpoiledLoadIsWrong(hash: Hash, play: set<Request>, c: Cache<Picture>, known: map<string, Store<Picture>>,
                           spoiled: Store<Picture>)
    requires Spoils(c, known, spoiled) && Genuine(hash, play, spoiled)
    requires |c.files[c.names[spoiled.name]]| <= |spoiled.bytes|
    ensures !LoadIsRight(hash, c, known, spoiled.picture.request)
    ensures !AllLoadsAreRight(hash, play, c, known)
  {
    var r, bytes := spoiled.picture.request, c.files[c.names[spoiled.name]];
    Caches.HeaderParts(r.size, spoiled.picture.pixels);
    if Caches.Decoded(bytes, r.size) == Caches.Hit(spoiled.picture.pixels) {
      Caches.OnlyWholeFilesHit(bytes, r.size, spoiled.picture.pixels);
    }
  }

  // ---- Two stores of one picture

  /** From an empty cache, one store of the picture has written `count` bytes when a second begins. */
  lemma SecondBegins(hash: Hash, r: Request, pixels: seq<byte>, count: nat)
    requires 0 < count <= |Caches.Encoded(r.size, pixels)|
    ensures var store := StoreOf(hash, r, pixels);
            var c := Run(Empty(), Begun(store, count));
            && Refines(c, map[]) && Plain(store) && Begins(store) && c.writers.Keys == {0} && store.temp in c.names
            && c.writers[0] == Writer(store, c.names[store.temp], count)
            && c.names[store.temp] in c.files && c.files[c.names[store.temp]] == store.bytes[..count]
            && Known(Empty(), map[], Begun(store, count)) == map[]
  {
    var store := StoreOf(hash, r, pixels);
    StoresArePlain(hash, r, pixels);
    StoresBegin(hash, r, pixels);
    BegunRuns(Empty(), map[], store, count);
    BegunAlone(Empty(), store, count);
    RunRefines(Empty(), map[], Begun(store, count));
  }

  /** Of any picture: a second store begins after the first has written everything, and the first renames the file the
      second has just emptied.  A load now fails. */
  lemma OverlapCutsShort(hash: Hash, r: Request, pixels: seq<byte>)
    ensures var store := StoreOf(hash, r, pixels);
            var events := Begun(store, |store.bytes|) + ([Create(1, store)] + Finishing(0, |store.bytes|));
            LoadNow(Run(Empty(), events), hash, r) == Caches.Load.Failed
  {
    var store := StoreOf(hash, r, pixels);
    Caches.HeaderParts(r.size, pixels);
    SecondBegins(hash, r, pixels, |store.bytes|);
    WholeThenNothing(Run(Empty(), Begun(store, |store.bytes|)), map[], store);
    Appending(Empty(), map[], Begun(store, |store.bytes|), [Create(1, store)] + Finishing(0, |store.bytes|));
  }

  /** Or the second has written its header when the first, `k` pixel bytes further, goes on where it was.
      A load now returns zeros for those bytes. */
  lemma OverlapLeavesHole(hash: Hash, r: Request, pixels: seq<byte>, k: nat)
    requires r.size.ByteLen() == Some(|pixels|) && k < |pixels|
    ensures var store := StoreOf(hash, r, pixels);
            var events := Begun(store, 16 + k) + ([Create(1, store), Append(1, 16)] + Finishing(0, |store.bytes|));
            LoadNow(Run(Empty(), events), hash, r) == Caches.Hit(Zeros(k) + pixels[k..])
  {
    var store := StoreOf(hash, r, pixels);
    Caches.HeaderParts(r.size, pixels);
    SecondBegins(hash, r, pixels, 16 + k);
    var c := Run(Empty(), Begun(store, 16 + k));
    HeaderThenHole(c, map[], store, 16, k);
    Appending(Empty(), map[], Begun(store, 16 + k), [Create(1, store), Append(1, 16)] + Finishing(0, |store.bytes|));
    HoleReads(r.size, pixels, k);
  }

  lemma HoleReads(size: FrameSize, pixels: seq<byte>, k: nat)
    requires size.ByteLen() == Some(|pixels|) && k <= |pixels|
    ensures var whole := Caches.Encoded(size, pixels);
            |whole| == 16 + |pixels|
            && Caches.Decoded(whole[..16] + Zeros(k) + whole[16 + k..], size) == Caches.Hit(Zeros(k) + pixels[k..])
  {
    Caches.HeaderParts(size, pixels);
    var whole, holed := Caches.Encoded(size, pixels), Caches.Encoded(size, Zeros(k) + pixels[k..]);
    assert whole[16 + k..] == pixels[k..];
    assert whole[..16] + Zeros(k) + whole[16 + k..] == holed;
    Caches.RoundTripIff(size, Zeros(k) + pixels[k..]);
  }

  // ---- Stores one after another

  /** The steps of an event of the cache as a whole. */
  function StepsOf(hash: Hash, event: Caches.Event): seq<Event<Picture>> {
    match event
    case Evict(names) => [Evict(names)]
    case Store(r, pixels, _, write) =>
      var store := StoreOf(hash, r, pixels);
      match write
      case Renamed => Begun(store, |store.bytes|) + [Rename(0)]
      case CutShort(written) => Begun(store, written) + [Close(0)]
      case NotCreated => []
  }

  function Steps(hash: Hash, events: seq<Caches.Event>): seq<Event<Picture>> {
    if events == [] then []
    else Steps(hash, events[..|events| - 1]) + StepsOf(hash, events[|events| - 1])
  }

  /** The directory as its names show it. */
  ghost predicate Shows(c: Cache<Picture>, files: Pruning.Directory) {
    && (forall name :: name in c.names <==> name in files)
    && (forall name <- files.Keys :: c.names[name] in c.files && c.files[c.names[name]] == files[name].bytes)
  }

  /** Each picture in play is known by its last completed store, or not at all. */
  ghost predicate Agrees(hash: Hash, play: set<Request>, known: map<string, Store<Picture>>,
                         pictures: Caches.Pictures)
  {
    forall r <- play :: AgreesOn(hash, known, pictures, r)
  }

  ghost predicate AgreesOn(hash: Hash, known: map<string, Store<Picture>>, pictures: Caches.Pictures, r: Request) {
    var name := CacheName(hash, r);
    && (name in known <==> Caches.Canonical(r) in pictures)
    && (name in known ==> known[name].picture.pixels == pictures[Caches.Canonical(r)])
  }

  /** An event as a whole is its steps. */
  lemma EventIsItsSteps(hash: Hash, c: Cache<Picture>, known: map<string, Store<Picture>>, files: Pruning.Directory,
                        event: Caches.Event)
    requires Numbered(c) && c.writers == map[] && Shows(c, files)
    ensures var steps, d := StepsOf(hash, event), Run(c, StepsOf(hash, event));
            && d.writers == map[] && AllDoNoHarm(c, steps) && Shows(d, Caches.Step(files, hash, event))
            && Known(c, known, steps)
               == if event.Store? && event.write == Caches.Renamed
                  then known[CacheName(hash, event.request) := StoreOf(hash, event.request, event.pixels)] else known
  {
    match event {
      case Evict(names) =>
        EvictIsItsStep(c, known, files, names);
      case Store(r, pixels, now, write) =>
        StoresArePlain(hash, r, pixels);
        StoreIsItsSteps(hash, c, known, files, event);
    }
  }

  lemma EvictIsItsStep(c: Cache<Picture>, known: map<string, Store<Picture>>, files: Pruning.Directory,
                       names: set<string>)
    requires c.writers == map[] && Shows(c, files)
    ensures var steps: seq<Event<Picture>> := [Evict(names)];
            && Run(c, steps) == Evicted(c, names) && Known(c, known, steps) == known && AllDoNoHarm(c, steps)
            && Shows(Evicted(c, names), files - names)
  {
    Push(c, known, [], Evict(names));
    NoHarmPush(c, [], Evict(names));
    var evict: Event<Picture> := Evict(names);
    assert [] + [evict] == [evict];
  }

  lemma StoreIsItsSteps(hash: Hash, c: Cache<Picture>, known: map<string, Store<Picture>>, files: Pruning.Directory,
                        event: Caches.Event)
    requires Numbered(c) && c.writers == map[] && Shows(c, files)
    requires event.Store? && Plain(StoreOf(hash, event.request, event.pixels))
    ensures var steps, d := StepsOf(hash, event), Run(c, StepsOf(hash, event));
            && d.writers == map[] && AllDoNoHarm(c, steps) && Shows(d, Caches.Step(files, hash, event))
            && Known(c, known, steps)
               == if event.write == Caches.Renamed
                  then known[CacheName(hash, event.request) := StoreOf(hash, event.request, event.pixels)] else known
  {
    var store := StoreOf(hash, event.request, event.pixels);
    match event.write {
      case Renamed => RenamedIsItsSteps(c, known, files, store, event.now);
      case CutShort(written) => CutShortIsItsSteps(c, known, files, store, written, event.now);
      case NotCreated =>
    }
  }

  lemma RenamedIsItsSteps(c: Cache<Picture>, known: map<string, Store<Picture>>, files: Pruning.Directory,
                          store: Store<Picture>, now: nat)
    requires Numbered(c) && c.writers == map[] && Shows(c, files)
    requires Plain(store) && store.temp == Caches.TempName(store.name)
    ensures var steps := Begun(store, |store.bytes|) + [Rename(0)];
            && Run(c, steps).writers == map[] && AllDoNoHarm(c, steps)
            && Shows(Run(c, steps), Caches.Stored(files, store.name, store.bytes, now, Caches.Renamed))
            && Known(c, known, steps) == known[store.name := store]
  {
    CompletesAlone(c, known, store);
    ShowsRenamed(c, Run(c, Begun(store, |store.bytes|) + [Rename(0)]), files, store, now);
  }

  lemma CutShortIsItsSteps(c: Cache<Picture>, known: map<string, Store<Picture>>, files: Pruning.Directory,
                           store: Store<Picture>, written: nat, now: nat)
    requires Numbered(c) && c.writers == map[] && Shows(c, files)
    requires Plain(store) && store.temp == Caches.TempName(store.name)
    ensures var steps := Begun(store, written) + [Close(0)];
            && Run(c, steps).writers == map[] && AllDoNoHarm(c, steps)
            && Shows(Run(c, steps), Caches.Stored(files, store.name, store.bytes, now, Caches.CutShort(written)))
            && Known(c, known, steps) == known
  {
    BreaksOffAlone(c, known, store, written);
    ShowsCutShort(c, Run(c, Begun(store, written) + [Close(0)]), files, store, written, now);
  }

  lemma ShowsRenamed(c: Cache<Picture>, d: Cache<Picture>, files: Pruning.Directory, store: Store<Picture>, now: nat)
    requires Shows(c, files) && Plain(store) && store.temp == Caches.TempName(store.name) && store.temp !in d.names
    requires store.name in d.names && d.names[store.name] in d.files && d.files[d.names[store.name]] == store.bytes
    requires forall name | name != store.temp && name != store.name :: SameBehind(c, d, name)
    ensures Shows(d, Caches.Stored(files, store.name, store.bytes, now, Caches.Renamed))
  {
    var after := Caches.Stored(files, store.name, store.bytes, now, Caches.Renamed);
    forall name ensures name in d.names <==> name in after {
      assert name != store.temp && name != store.name ==> SameBehind(c, d, name);
    }
    forall name <- after.Keys ensures d.names[name] in d.files && d.files[d.names[name]] == after[name].bytes {
      assert name != store.temp && name != store.name ==> SameBehind(c, d, name);
    }
  }

  lemma ShowsCutShort(c: Cache<Picture>, d: Cache<Picture>, files: Pruning.Directory, store: Store<Picture>,
                      written: nat, now: nat)
    requires Shows(c, files) && store.temp == Caches.TempName(store.name)
    requires store.temp in d.names && d.names[store.temp] in d.files
    requires d.files[d.names[store.temp]]
             == if written <= |store.bytes| then store.bytes[..written] else store.bytes
    requires forall name | name != store.temp :: SameBehind(c, d, name)
    ensures Shows(d, Caches.Stored(files, store.name, store.bytes, now, Caches.CutShort(written)))
  {
    var after := Caches.Stored(files, store.name, store.bytes, now, Caches.CutShort(written));
    forall name ensures name in d.names <==> name in after {
      assert name != store.temp ==> SameBehind(c, d, name);
    }
    forall name <- after.Keys ensures d.names[name] in d.files && d.files[d.names[name]] == after[name].bytes {
      assert name != store.temp ==> SameBehind(c, d, name);
    }
  }

  lemma CompletedAgrees(hash: Hash, play: set<Request>, known: map<string, Store<Picture>>, pictures: Caches.Pictures,
                        r: Request, pixels: seq<byte>)
    requires Caches.HashHolds(hash, play) && r in play && Agrees(hash, play, known, pictures)
    ensures Agrees(hash, play, known[CacheName(hash, r) := StoreOf(hash, r, pixels)],
                   pictures[Caches.Canonical(r) := pixels])
  {
    forall s <- play
      ensures AgreesOn(hash, known[CacheName(hash, r) := StoreOf(hash, r, pixels)],
                       pictures[Caches.Canonical(r) := pixels], s)
    {
      SameNameIffSameRequest(hash, s, r);
      assert AgreesOn(hash, known, pictures, s);
      Caches.CanonicalIff(s, r);
    }
  }

  /** So a run of events one after another is a run of steps, in which nothing overlaps. */
  lemma {:induction false} RunIsItsSteps(hash: Hash, play: set<Request>, events: seq<Caches.Event>)
    requires Caches.HashHolds(hash, play) && forall event <- events :: Caches.WellFormed(event, play)
    ensures var steps := Steps(hash, events);
            var c := Run(Empty(), steps);
            && AllDoNoHarm(Empty(), steps) && c.writers == map[] && Refines(c, LastStored(steps))
            && Shows(c, Caches.Run(map[], hash, events))
            && GenuineCache(hash, play, c, LastStored(steps))
            && Agrees(hash, play, LastStored(steps), Caches.LastStored(map[], events))
  {
    if events != [] {
      var init, event := events[..|events| - 1], events[|events| - 1];
      var before := Steps(hash, init);
      assert event in events;
      RunIsItsSteps(hash, play, init);
      EventIsItsSteps(hash, Run(Empty(), before), LastStored(before), Caches.Run(map[], hash, init), event);
      Appending(Empty(), map[], before, StepsOf(hash, event));
      RunRefines(Empty(), map[], Steps(hash, events));
      StepsAreGenuine(hash, play, event);
      GoodRun(Run(Empty(), before), LastStored(before), StepsOf(hash, event), GenuineFor(hash, play));
      if event.Store? && event.write == Caches.Renamed {
        CompletedAgrees(hash, play, LastStored(before), Caches.LastStored(map[], init), event.request, event.pixels);
      }
    }
  }

  lemma StepsAreGenuine(hash: Hash, play: set<Request>, event: Caches.Event)
    requires Caches.WellFormed(event, play)
    ensures AllGenuine(hash, play, StepsOf(hash, event))
  {
    if event.Store? {
      var store := StoreOf(hash, event.request, event.pixels);
      assert Genuine(hash, play, store);
      BegunIsGood(store, GenuineFor(hash, play), event.write);
    }
  }

  lemma BegunIsGood(store: Store<Picture>, good: Store<Picture> -> bool, write: Caches.Write)
    requires good(store)
    ensures GoodEvents(Begun(store, |store.bytes|) + [Rename(0)], good)
    ensures write.CutShort? ==> GoodEvents(Begun(store, write.written) + [Close(0)], good)
  {
  }

  /** After any run of stores, broken-off stores and removals, one after another, from an empty cache: a load misses
      because the file is gone, or returns the last buffer stored for the same picture. */
  lemma LoadReturnsLastStored(hash: Hash, play: set<Request>, events: seq<Caches.Event>, r: Request)
    requires r in play && Caches.HashHolds(hash, play) && forall event <- events :: Caches.WellFormed(event, play)
    ensures var now, pictures := Caches.Run(map[], hash, events), Caches.LastStored(map[], events);
            if CacheName(hash, r) in now then
              && Caches.Canonical(r) in pictures
              && Caches.LoadFrom(now, hash, r) == Caches.Hit(pictures[Caches.Canonical(r)])
            else Caches.LoadFrom(now, hash, r) == Caches.Load.Miss
  {
    var steps := Steps(hash, events);
    RunIsItsSteps(hash, play, events);
    RefiningLoadsAreRight(hash, play, Run(Empty(), steps), LastStored(steps));
    assert LoadIsRight(hash, Run(Empty(), steps), LastStored(steps), r);
    assert AgreesOn(hash, LastStored(steps), Caches.LastStored(map[], events), r);
  }
}
