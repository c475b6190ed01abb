/** Files written under a temporary name and renamed into place, step by step and several at once
    (crates/renderer/src/background/render_cache.rs:163-210).  A file lives on under an open handle whatever becomes
    of its name.  What is stored is left open here. */
module RenderCacheFiles {
  import opened Bytes

  /** One store: what it is a picture of, the names it uses and the bytes it writes. */
  datatype Store<P> = Store(picture: P, name: string, temp: string, bytes: seq<byte>)

  /** A store under way: its open file and how many bytes it has written. */
  datatype Writer<P> = Writer(store: Store<P>, file: nat, written: nat)

  /** Files by number, the names of the cache directory, the next unused number, and the stores under way. */
  datatype Cache<P> = Cache(files: map<nat, seq<byte>>, names: map<string, nat>, unused: nat,
                              writers: map<nat, Writer<P>>)

  /** The steps of the store `id`, and the removal of names.  `Close` ends a store early, by an error or a crash. */
  datatype Event<P> =
    | Create(id: nat, store: Store<P>)
    | Append(id: nat, count: nat)
    | Rename(id: nat)
    | Close(id: nat)
    | Evict(evicted: set<string>)

  function Empty<P>(): Cache<P> {
    Cache(map[], map[], 0, map[])
  }

  function Zeros(count: nat): (zeros: seq<byte>)
    ensures |zeros| == count && forall i | 0 <= i < count :: zeros[i] == 0
  {
    seq(count, i => 0)
  }

  /** Writing at an offset: past the end, the gap reads as zeros.  Writing nothing leaves the file as it is. */
  function WriteAt(bytes: seq<byte>, offset: nat, data: seq<byte>): seq<byte> {
    if data == [] then bytes
    else
      (if offset <= |bytes| then bytes[..offset] else bytes + Zeros(offset - |bytes|))
      + data
      + if offset + |data| <= |bytes| then bytes[offset + |data|..] else []
  }

  // ---- The steps

  /** `File::create`: an existing file of that name is emptied in place. */
  function Created<P>(c: Cache<P>, id: nat, store: Store<P>): Cache<P> {
    if id in c.writers then c
    else if store.temp in c.names then
      c.(files := c.files[c.names[store.temp] := []], writers := c.writers[id := Writer(store, c.names[store.temp], 0)])
    else
      Cache(c.files[c.unused := []], c.names[store.temp := c.unused], c.unused + 1,
            c.writers[id := Writer(store, c.unused, 0)])
  }

  function WrittenUpTo<P>(w: Writer<P>, count: nat): nat {
    if w.written + count <= |w.store.bytes| then w.written + count else |w.store.bytes|
  }

  /** Some more of the header and pixels, where this store's last write ended. */
  function Appended<P>(c: Cache<P>, id: nat, count: nat): Cache<P> {
    if id !in c.writers || c.writers[id].file !in c.files || c.writers[id].written > |c.writers[id].store.bytes| then c
    else
      var w := c.writers[id];
      var end := WrittenUpTo(w, count);
      c.(files := c.files[w.file := WriteAt(c.files[w.file], w.written, w.store.bytes[w.written..end])],
         writers := c.writers[id := w.(written := end)])
  }

  /** The store has written everything. */
  predicate IsWritten<P>(c: Cache<P>, id: nat) {
    id in c.writers && c.writers[id].written == |c.writers[id].store.bytes|
  }

  /** And the temporary name is still there. */
  predicate Completes<P>(c: Cache<P>, id: nat) {
    IsWritten(c, id) && c.writers[id].store.temp in c.names
  }

  /** `fs::rename` takes the file that has the temporary name now. */
  function Renamed<P>(c: Cache<P>, id: nat): Cache<P>
    requires Completes(c, id)
  {
    var store := c.writers[id].store;
    c.(names := (c.names - {store.temp})[store.name := c.names[store.temp]], writers := c.writers - {id})
  }

  function Closed<P>(c: Cache<P>, id: nat): Cache<P> {
    c.(writers := c.writers - {id})
  }

  function Evicted<P>(c: Cache<P>, evicted: set<string>): Cache<P> {
    c.(names := c.names - evicted)
  }

  /** A store renames only when it has written everything; without its temporary name it fails. */
  function Step<P>(c: Cache<P>, event: Event<P>): Cache<P> {
    match event
    case Create(id, store) => Created(c, id, store)
    case Append(id, count) => Appended(c, id, count)
    case Rename(id) => if Completes(c, id) then Renamed(c, id) else if IsWritten(c, id) then Closed(c, id) else c
    case Close(id) => Closed(c, id)
    case Evict(evicted) => Evicted(c, evicted)
  }

  /** A store that has written everything ends with its rename, whether its temporary name is still there or not. */
  lemma RenameEndsIff<P>(c: Cache<P>, id: nat)
    ensures id in Step(c, Rename(id)).writers <==> id in c.writers && !IsWritten(c, id)
    ensures !Completes(c, id) ==> Step(c, Rename(id)).names == c.names && Step(c, Rename(id)).files == c.files
  {
  }

  function Run<P>(c: Cache<P>, events: seq<Event<P>>): Cache<P> {
    if events == [] then c else Step(Run(c, events[..|events| - 1]), events[|events| - 1])
  }

  /** The plain map: under each name, the last store that completed. */
  function Recorded<P>(c: Cache<P>, known: map<string, Store<P>>, event: Event<P>): map<string, Store<P>> {
    if event.Rename? && Completes(c, event.id) then known[c.writers[event.id].store.name := c.writers[event.id].store]
    else known
  }

  function Known<P>(c: Cache<P>, known: map<string, Store<P>>, events: seq<Event<P>>): map<string, Store<P>> {
    if events == [] then known
    else
      var init := events[..|events| - 1];
      Recorded(Run(c, init), Known(c, known, init), events[|events| - 1])
  }

  function LastStored<P>(events: seq<Event<P>>): map<string, Store<P>> {
    Known(Empty(), map[], events)
  }

  // ---- Stores that do no harm

  /** Temporary names begin with a dot, and the others do not. */
  predicate IsTemp(name: string) {
    name != "" && name[0] == '.'
  }

  ghost predicate Plain<P>(store: Store<P>) {
    IsTemp(store.temp) && !IsTemp(store.name)
  }

  ghost predicate AllPlain<P(!new)>(events: seq<Event<P>>) {
    forall event <- events :: event.Create? ==> Plain(event.store)
  }

  /** A store may begin beside another: if they share their temporary name, the other writes the same bytes, has
      written none of them yet, and still has the name. */
  ghost predicate HarmlessBeside<P(!new)>(c: Cache<P>, w: Writer<P>, store: Store<P>) {
    w.store.temp == store.temp ==> w.written == 0 && w.store.bytes == store.bytes && store.temp in c.names
  }

  /** And beside all those under way. */
  ghost predicate Harmless<P(!new)>(c: Cache<P>, store: Store<P>) {
    forall id <- c.writers.Keys :: HarmlessBeside(c, c.writers[id], store)
  }

  ghost predicate DoesNoHarm<P(!new)>(c: Cache<P>, event: Event<P>) {
    event.Create? ==> Plain(event.store) && Harmless(c, event.store)
  }

  ghost predicate AllDoNoHarm<P(!new)>(c: Cache<P>, events: seq<Event<P>>) {
    events == [] ||
    (AllDoNoHarm(c, events[..|events| - 1]) && DoesNoHarm(Run(c, events[..|events| - 1]), events[|events| - 1]))
  }

  /** Files are numbered below the next unused number, and no file has two names. */
  ghost predicate Numbered<P(!new)>(c: Cache<P>) {
    && (forall file <- c.files.Keys :: file < c.unused)
    && (forall name <- c.names.Keys :: c.names[name] in c.files)
    && (forall m, n | m in c.names && n in c.names && c.names[m] == c.names[n] :: m == n)
  }

  /** The store's file holds the front of its bytes, at least what it has written itself, and is reached by its
      temporary name only, unless it is whole. */
  ghost predicate Owns<P(!new)>(c: Cache<P>, w: Writer<P>) {
    && Plain(w.store)
    && w.file in c.files && w.written <= |c.files[w.file]| && c.files[w.file] <= w.store.bytes
    && (forall name <- c.names.Keys :: c.names[name] == w.file ==>
          name == w.store.temp || (!IsTemp(name) && c.files[w.file] == w.store.bytes))
    && (w.store.temp in c.names ==> c.names[w.store.temp] == w.file)
  }

  /** Two stores share their file, their temporary name and their bytes, or neither file nor name. */
  ghost predicate Apart<P(!new)>(v: Writer<P>, w: Writer<P>) {
    if v.file == w.file then v.store.temp == w.store.temp && v.store.bytes == w.store.bytes
    else v.store.temp != w.store.temp
  }

  ghost predicate AllOwn<P(!new)>(c: Cache<P>) {
    && (forall id <- c.writers.Keys :: Owns(c, c.writers[id]))
    && (forall i, j | i in c.writers && j in c.writers :: Apart(c.writers[i], c.writers[j]))
  }

  /** Behind every name that is not a temporary one is the whole of a store. */
  ghost predicate AllWhole<P(!new)>(c: Cache<P>, known: map<string, Store<P>>) {
    forall name <- c.names.Keys :: !IsTemp(name) ==>
      name in known && c.names[name] in c.files && c.files[c.names[name]] == known[name].bytes
  }

  ghost predicate Refines<P(!new)>(c: Cache<P>, known: map<string, Store<P>>) {
    Numbered(c) && AllOwn(c) && AllWhole(c, known)
  }

  lemma CreatedOwns<P(!new)>(c: Cache<P>, id: nat, store: Store<P>)
    requires Numbered(c) && id !in c.writers && Plain(store)
    ensures var next := Created(c, id, store);
            id in next.writers && next.writers == c.writers[id := next.writers[id]]
            && next.writers[id].store == store && Owns(next, next.writers[id])
  {
  }

  lemma CreatedSpares<P(!new)>(c: Cache<P>, id: nat, store: Store<P>, v: Writer<P>)
    requires Numbered(c) && id !in c.writers && Owns(c, v) && Plain(store)
    requires HarmlessBeside(c, v, store)
    ensures var next := Created(c, id, store);
            id in next.writers && Owns(next, v) && Apart(v, next.writers[id]) && Apart(next.writers[id], v)
  {
  }

  lemma CreatedAllOwn<P(!new)>(c: Cache<P>, id: nat, store: Store<P>)
    requires Numbered(c) && AllOwn(c) && id !in c.writers && Plain(store) && Harmless(c, store)
    ensures AllOwn(Created(c, id, store))
  {
    CreatedOwns(c, id, store);
    forall i <- c.writers.Keys
      ensures var next := Created(c, id, store);
              Owns(next, c.writers[i]) && Apart(c.writers[i], next.writers[id]) && Apart(next.writers[id], c.writers[i])
    {
      CreatedSpares(c, id, store, c.writers[i]);
    }
  }

  lemma CreatedRefines<P(!new)>(c: Cache<P>, known: map<string, Store<P>>, id: nat, store: Store<P>)
    requires Refines(c, known) && Harmless(c, store) && Plain(store)
    ensures Refines(Created(c, id, store), known)
  {
    if id !in c.writers {
      CreatedAllOwn(c, id, store);
    }
  }

  /** Writing the right bytes at the right place leaves a front of the bytes. */
  lemma WrittenInPlace(whole: seq<byte>, bytes: seq<byte>, written: nat, end: nat)
    requires bytes <= whole && written <= |bytes| && written <= end <= |whole|
    ensures WriteAt(bytes, written, whole[written..end]) == if end <= |bytes| then bytes else whole[..end]
  {
    var data, after := whole[written..end], WriteAt(bytes, written, whole[written..end]);
    assert forall i | 0 <= i < |data| :: data[i] == whole[written + i];
    if data != [] {
      assert forall i | 0 <= i < |after| :: after[i] == whole[i];
    }
  }

  lemma AppendedOwns<P(!new)>(c: Cache<P>, id: nat, count: nat)
    requires id in c.writers && Owns(c, c.writers[id])
    ensures var w, next := c.writers[id], Appended(c, id, count);
            var grown, before := w.(written := WrittenUpTo(w, count)), c.files[w.file];
            var after := if grown.written <= |before| then before else w.store.bytes[..grown.written];
            && next == c.(files := c.files[w.file := after], writers := c.writers[id := grown])
            && before <= after && Owns(next, grown)
  {
    var w := c.writers[id];
    WrittenInPlace(w.store.bytes, c.files[w.file], w.written, WrittenUpTo(w, count));
  }

  lemma AppendedSpares<P(!new)>(c: Cache<P>, id: nat, count: nat, v: Writer<P>)
    requires id in c.writers && Owns(c, c.writers[id]) && Owns(c, v) && Apart(v, c.writers[id])
    ensures Owns(Appended(c, id, count), v)
  {
    AppendedOwns(c, id, count);
  }

  lemma AppendedKeepsWhole<P(!new)>(c: Cache<P>, known: map<string, Store<P>>, id: nat, count: nat)
    requires Numbered(c) && AllWhole(c, known) && id in c.writers && Owns(c, c.writers[id])
    ensures Numbered(Appended(c, id, count)) && AllWhole(Appended(c, id, count), known)
  {
    AppendedOwns(c, id, count);
  }

  lemma AppendedRefines<P(!new)>(c: Cache<P>, known: map<string, Store<P>>, id: nat, count: nat)
    requires Refines(c, known)
    ensures Refines(Appended(c, id, count), known)
  {
    if id in c.writers {
      AppendedOwns(c, id, count);
      AppendedKeepsWhole(c, known, id, count);
      var next := Appended(c, id, count);
      forall i <- next.writers.Keys ensures Owns(next, next.writers[i]) {
        AppendedSpares(c, id, count, c.writers[i]);
      }
      forall i, j | i in next.writers && j in next.writers ensures Apart(next.writers[i], next.writers[j]) {
        assert Apart(c.writers[i], c.writers[j]);
      }
    }
  }

  lemma RenamedSpares<P(!new)>(c: Cache<P>, id: nat, v: Writer<P>)
    requires Numbered(c) && Completes(c, id) && Owns(c, c.writers[id]) && Owns(c, v) && Apart(v, c.writers[id])
    ensures Owns(Renamed(c, id), v)
  {
  }

  lemma RenamedRefines<P(!new)>(c: Cache<P>, known: map<string, Store<P>>, id: nat)
    requires Refines(c, known) && Completes(c, id)
    ensures Refines(Renamed(c, id), Recorded(c, known, Rename(id)))
  {
    var next, w := Renamed(c, id), c.writers[id];
    assert Owns(c, w);
    forall i <- next.writers.Keys ensures Owns(next, c.writers[i]) {
      RenamedSpares(c, id, c.writers[i]);
    }
  }

  lemma ClosedRefines<P(!new)>(c: Cache<P>, known: map<string, Store<P>>, id: nat)
    requires Refines(c, known)
    ensures Refines(Closed(c, id), known)
  {
    forall i <- Closed(c, id).writers.Keys ensures Owns(Closed(c, id), c.writers[i]) {
      assert Owns(c, c.writers[i]);
    }
  }

  lemma EvictedRefines<P(!new)>(c: Cache<P>, known: map<string, Store<P>>, evicted: set<string>)
    requires Refines(c, known)
    ensures Refines(Evicted(c, evicted), known)
  {
    forall i <- c.writers.Keys ensures Owns(Evicted(c, evicted), c.writers[i]) {
      assert Owns(c, c.writers[i]);
    }
  }

  lemma StepRefines<P(!new)>(c: Cache<P>, known: map<string, Store<P>>, event: Event<P>)
    requires Refines(c, known) && DoesNoHarm(c, event)
    // Compared with true to keep the predicate whole for the solver.
    ensures Refines(Step(c, event), Recorded(c, known, event)) == true
  {
    match event {
      case Create(id, store) => CreatedRefines(c, known, id, store);
      case Append(id, count) => AppendedRefines(c, known, id, count);
      case Rename(id) =>
        if Completes(c, id) {
          RenamedRefines(c, known, id);
        } else {
          ClosedRefines(c, known, id);
        }
      case Close(id) => ClosedRefines(c, known, id);
      case Evict(evicted) => EvictedRefines(c, known, evicted);
    }
  }

  /** As long as every store begins harmlessly: at any moment, with any number of stores half done, broken off or racing
      with removals, each name has the last store completed under it, or is gone. */
  lemma {:induction false} RunRefines<P(!new)>(c: Cache<P>, known: map<string, Store<P>>, events: seq<Event<P>>)
    requires Refines(c, known) && AllDoNoHarm(c, events)
    ensures Refines(Run(c, events), Known(c, known, events))
  {
    if events != [] {
      var init := events[..|events| - 1];
      RunRefines(c, known, init);
      StepRefines(Run(c, init), Known(c, known, init), events[|events| - 1]);
    }
  }

  /** The stores under way and completed are all good ones, each completed one under its own name. */
  ghost predicate AllGood<P(!new)>(c: Cache<P>, known: map<string, Store<P>>, good: Store<P> -> bool) {
    && (forall id <- c.writers.Keys :: good(c.writers[id].store))
    && (forall name <- known.Keys :: known[name].name == name && good(known[name]))
  }

  ghost predicate GoodEvents<P(!new)>(events: seq<Event<P>>, good: Store<P> -> bool) {
    forall event <- events :: event.Create? ==> good(event.store)
  }

  lemma GoodStep<P(!new)>(c: Cache<P>, known: map<string, Store<P>>, event: Event<P>, good: Store<P> -> bool)
    requires AllGood(c, known, good) && (event.Create? ==> good(event.store))
    ensures AllGood(Step(c, event), Recorded(c, known, event), good)
  {
  }

  lemma {:induction false} GoodRun<P(!new)>(c: Cache<P>, known: map<string, Store<P>>, events: seq<Event<P>>,
                                            good: Store<P> -> bool)
    requires AllGood(c, known, good) && GoodEvents(events, good)
    ensures AllGood(Run(c, events), Known(c, known, events), good)
  {
    if events != [] {
      var init := events[..|events| - 1];
      assert events[|events| - 1] in events && forall event <- init :: event in events;
      GoodRun(c, known, init, good);
      GoodStep(Run(c, init), Known(c, known, init), events[|events| - 1], good);
    }
  }

  // ---- Reading while others write

  /** Whatever store still has the file open finds its bytes there already, and none can get at it by a temporary
      name. */
  ghost predicate Settled<P(!new)>(c: Cache<P>, file: nat) {
    && file in c.files && file < c.unused
    && (forall id <- c.writers.Keys :: SettledFor(c.writers[id], file, c.files[file]))
    && (forall name <- c.names.Keys :: IsTemp(name) ==> c.names[name] != file)
  }

  ghost predicate SettledFor<P(!new)>(w: Writer<P>, file: nat, bytes: seq<byte>) {
    Plain(w.store) && (w.file == file ==> bytes == w.store.bytes && w.written <= |bytes|)
  }

  lemma NamedFilesAreSettled<P(!new)>(c: Cache<P>, known: map<string, Store<P>>, name: string)
    requires Refines(c, known) && name in c.names && !IsTemp(name)
    ensures Settled(c, c.names[name])
  {
    forall id <- c.writers.Keys ensures SettledFor(c.writers[id], c.names[name], c.files[c.names[name]]) {
      assert Owns(c, c.writers[id]);
    }
  }

  lemma SettledAppend<P(!new)>(c: Cache<P>, id: nat, count: nat, file: nat)
    requires Settled(c, file) && id in c.writers
    ensures Settled(Appended(c, id, count), file) && Appended(c, id, count).files[file] == c.files[file]
  {
    var w := c.writers[id];
    assert SettledFor(w, file, c.files[file]);
    if w.file == file {
      WrittenInPlace(w.store.bytes, w.store.bytes, w.written, WrittenUpTo(w, count));
    }
  }

  lemma SettledStep<P(!new)>(c: Cache<P>, event: Event<P>, file: nat)
    requires Settled(c, file) && (event.Create? ==> Plain(event.store))
    ensures Settled(Step(c, event), file) && Step(c, event).files[file] == c.files[file]
  {
    if event.Append? && event.id in c.writers {
      SettledAppend(c, event.id, event.count, file);
    }
    if event.Rename? && event.id in c.writers {
      assert SettledFor(c.writers[event.id], file, c.files[file]);
    }
  }

  /** So a load that has opened a named file reads the same bytes to the end, whatever stores and removals come
      between its reads, overlapping or not. */
  lemma {:induction false} OpenFileStaysAsItIs<P(!new)>(c: Cache<P>, events: seq<Event<P>>, file: nat)
    requires Settled(c, file) && AllPlain(events)
    ensures Settled(Run(c, events), file) && Run(c, events).files[file] == c.files[file]
  {
    if events != [] {
      assert events[|events| - 1] in events;
      OpenFileStaysAsItIs(c, events[..|events| - 1], file);
      SettledStep(Run(c, events[..|events| - 1]), events[|events| - 1], file);
    }
  }

  // ---- Stores one after another

  lemma Push<P>(c: Cache<P>, known: map<string, Store<P>>, events: seq<Event<P>>, event: Event<P>)
    ensures Run(c, events + [event]) == Step(Run(c, events), event)
    ensures Known(c, known, events + [event]) == Recorded(Run(c, events), Known(c, known, events), event)
  {
    assert (events + [event])[..|events|] == events;
  }

  lemma {:induction false} Appending<P(!new)>(c: Cache<P>, known: map<string, Store<P>>, a: seq<Event<P>>,
                                              b: seq<Event<P>>)
    ensures Run(c, a + b) == Run(Run(c, a), b)
    ensures Known(c, known, a + b) == Known(Run(c, a), Known(c, known, a), b)
    ensures AllDoNoHarm(c, a + b) <==> AllDoNoHarm(c, a) && AllDoNoHarm(Run(c, a), b)
  {
    if b == [] {
      assert a + b == a;
    } else {
      var init := b[..|b| - 1];
      Appending(c, known, a, init);
      assert (a + b)[..|a + b| - 1] == a + init && (a + b)[|a + b| - 1] == b[|b| - 1];
    }
  }

  /** A store has begun in `c` and written `count` bytes. */
  function Begun<P>(store: Store<P>, count: nat): seq<Event<P>> {
    [Create(0, store), Append(0, count)]
  }

  /** The two caches have the same bytes behind the name, or both nothing. */
  ghost predicate SameBehind<P>(c: Cache<P>, d: Cache<P>, name: string) {
    && (name in c.names <==> name in d.names)
    && (name in c.names ==> c.names[name] in c.files && d.names[name] in d.files
                            && c.files[c.names[name]] == d.files[d.names[name]])
  }

  lemma BegunRuns<P(!new)>(c: Cache<P>, known: map<string, Store<P>>, store: Store<P>, count: nat)
    requires c.writers == map[] && Plain(store)
    ensures Run(c, Begun(store, count)) == Appended(Created(c, 0, store), 0, count)
    ensures Known(c, known, Begun(store, count)) == known && AllDoNoHarm(c, Begun(store, count))
  {
    var create: Event<P>, append: Event<P> := Create(0, store), Append(0, count);
    Push(c, known, [], create);
    Push(c, known, [create], append);
    assert [] + [create] == [create] && [create] + [append] == Begun(store, count);
    assert Begun(store, count)[..1] == [create] && [create][..0] == [];
  }

  lemma BegunFile<P(!new)>(c: Cache<P>, store: Store<P>, count: nat)
    requires Numbered(c) && c.writers == map[]
    ensures var next, d := Created(c, 0, store), Appended(Created(c, 0, store), 0, count);
            var end := if count <= |store.bytes| then count else |store.bytes|;
            && store.temp in d.names && d.names == next.names && 0 in next.writers
            && next.writers[0].file == d.names[store.temp]
            && d.writers == map[0 := Writer(store, d.names[store.temp], end)]
            && d.files == next.files[d.names[store.temp] := store.bytes[..end]]
  {
    var next := Created(c, 0, store);
    WrittenInPlace(store.bytes, [], 0, WrittenUpTo(next.writers[0], count));
    assert store.bytes[..0] == [];
  }

  /** A store alone: its bytes so far are behind its temporary name, and every other name is as it was. */
  lemma BegunAlone<P(!new)>(c: Cache<P>, store: Store<P>, count: nat)
    requires Numbered(c) && c.writers == map[] && Plain(store)
    ensures var d := Run(c, Begun(store, count));
            var end := if count <= |store.bytes| then count else |store.bytes|;
            && store.temp in d.names && d.names[store.temp] in d.files
            && d.writers == map[0 := Writer(store, d.names[store.temp], end)]
            && d.files[d.names[store.temp]] == store.bytes[..end]
            && forall name | name != store.temp :: SameBehind(c, d, name)
  {
    BegunRuns(c, map[], store, count);
    BegunFile(c, store, count);
    forall name | name != store.temp ensures SameBehind(c, Appended(Created(c, 0, store), 0, count), name) {
      CreatedKeepsName(c, store, name);
    }
  }

  lemma CreatedKeepsName<P(!new)>(c: Cache<P>, store: Store<P>, name: string)
    requires Numbered(c) && 0 !in c.writers && name != store.temp
    ensures var next := Created(c, 0, store);
            && SameBehind(c, next, name)
            && (name in next.names ==> next.names[name] != next.writers[0].file)
  {
  }

  lemma RenamesAlone<P(!new)>(d: Cache<P>, known: map<string, Store<P>>, store: Store<P>)
    requires Plain(store) && store.temp in d.names && d.names[store.temp] in d.files
    requires d.writers == map[0 := Writer(store, d.names[store.temp], |store.bytes|)]
    ensures var e := Step(d, Rename(0));
            && Recorded(d, known, Rename(0)) == known[store.name := store]
            && e.writers == map[] && e.files == d.files
            && e.names == (d.names - {store.temp})[store.name := d.names[store.temp]]
  {
  }

  /** A whole store alone puts its bytes behind its name, and nothing else changes but the temporary name. */
  lemma CompletesAlone<P(!new)>(c: Cache<P>, known: map<string, Store<P>>, store: Store<P>)
    requires Numbered(c) && c.writers == map[] && Plain(store)
    ensures var events := Begun(store, |store.bytes|) + [Rename(0)];
            var d := Run(c, events);
            && AllDoNoHarm(c, events) && Known(c, known, events) == known[store.name := store]
            && d.writers == map[] && store.temp !in d.names
            && store.name in d.names && d.names[store.name] in d.files && d.files[d.names[store.name]] == store.bytes
            && forall name | name != store.temp && name != store.name :: SameBehind(c, d, name)
  {
    var d := Run(c, Begun(store, |store.bytes|));
    BegunRuns(c, known, store, |store.bytes|);
    BegunAlone(c, store, |store.bytes|);
    RenamesAlone(d, known, store);
    Push(c, known, Begun(store, |store.bytes|), Rename(0));
    NoHarmPush(c, Begun(store, |store.bytes|), Rename(0));
    assert store.bytes[..|store.bytes|] == store.bytes;
    forall name | name != store.temp && name != store.name ensures SameBehind(c, Step(d, Rename(0)), name) {
      assert SameBehind(c, d, name);
    }
  }

  lemma NoHarmPush<P(!new)>(c: Cache<P>, events: seq<Event<P>>, event: Event<P>)
    requires AllDoNoHarm(c, events) && !event.Create?
    ensures AllDoNoHarm(c, events + [event])
  {
    assert (events + [event])[..|events|] == events;
  }

  /** A store alone that is broken off leaves what it wrote behind its temporary name. */
  lemma BreaksOffAlone<P(!new)>(c: Cache<P>, known: map<string, Store<P>>, store: Store<P>, count: nat)
    requires Numbered(c) && c.writers == map[] && Plain(store)
    ensures var events := Begun(store, count) + [Close(0)];
            var d := Run(c, events);
            && AllDoNoHarm(c, events) && Known(c, known, events) == known && d.writers == map[]
            && store.temp in d.names && d.names[store.temp] in d.files
            && d.files[d.names[store.temp]] == (if count <= |store.bytes| then store.bytes[..count] else store.bytes)
            && forall name | name != store.temp :: SameBehind(c, d, name)
  {
    var d := Run(c, Begun(store, count));
    BegunRuns(c, known, store, count);
    BegunAlone(c, store, count);
    Push(c, known, Begun(store, count), Close(0));
    NoHarmPush(c, Begun(store, count), Close(0));
    assert store.bytes[..|store.bytes|] == store.bytes;
    forall name | name != store.temp ensures SameBehind(c, Closed(d, 0), name) {
      assert SameBehind(c, d, name);
    }
  }

  // ---- Stores that do harm

  /** The store `i` writes on to its end and renames. */
  function Finishing<P>(i: nat, count: nat): seq<Event<P>> {
    [Append(i, count), Rename(i)]
  }

  /** Only stores under way go on: none begins. */
  ghost predicate NoneBegins<P(!new)>(events: seq<Event<P>>) {
    forall event <- events :: !event.Create?
  }

  lemma {:induction false} NoHarmInFinishing<P(!new)>(c: Cache<P>, events: seq<Event<P>>)
    requires NoneBegins(events)
    ensures AllDoNoHarm(c, events)
  {
    if events != [] {
      assert events[|events| - 1] in events;
      NoHarmInFinishing(c, events[..|events| - 1]);
    }
  }

  /** Behind the store's name is something else, though it is the last to have completed there. */
  ghost predicate Spoils<P(!new)>(c: Cache<P>, known: map<string, Store<P>>, store: Store<P>) {
    && store.name in known && known[store.name] == store
    && store.name in c.names && c.names[store.name] in c.files
    && c.files[c.names[store.name]] != store.bytes
  }

  /** A cache file is never empty and never begins with a zero. */
  ghost predicate Begins<P>(store: Store<P>) {
    store.bytes != [] && store.bytes[0] != 0
  }

  /** A store under way finishes beside one that has just begun. */
  lemma FinishingRuns<P(!new)>(c: Cache<P>, known: map<string, Store<P>>, i: nat)
    requires i in c.writers && c.writers[i].file in c.files && c.writers[i].written <= |c.writers[i].store.bytes|
    requires c.writers[i].store.temp in c.names && c.names[c.writers[i].store.temp] in c.files
    ensures var w, bytes := c.writers[i], c.files[c.writers[i].file];
            var after := WriteAt(bytes, w.written, w.store.bytes[w.written..]);
            var (d, m) := (Run(c, Finishing(i, |w.store.bytes|)), Known(c, known, Finishing(i, |w.store.bytes|)));
            && w.store.name in m && m[w.store.name] == w.store
            && w.store.name in d.names && d.names[w.store.name] == c.names[w.store.temp]
            && d.files == c.files[w.file := after]
  {
    var w := c.writers[i];
    var append: Event<P>, rename: Event<P> := Append(i, |w.store.bytes|), Rename(i);
    assert w.store.bytes[w.written..|w.store.bytes|] == w.store.bytes[w.written..];
    Push(c, known, [], append);
    Push(c, known, [append], rename);
    assert [] + [append] == [append] && [append] + [rename] == Finishing(i, |w.store.bytes|);
  }

  /** The other store has lost its name: finishing, it renames the empty file of the one that has just begun. */
  lemma LostNameSpoils<P(!new)>(c: Cache<P>, known: map<string, Store<P>>, id: nat, store: Store<P>, j: nat)
    requires Refines(c, known) && id !in c.writers && Plain(store)
    requires j in c.writers && c.writers[j].store.temp == store.temp && store.temp !in c.names
    requires Begins(c.writers[j].store)
    ensures var (next, count) := (Created(c, id, store), |c.writers[j].store.bytes|);
            var d := Run(next, Finishing(j, count));
            Spoils(d, Known(next, known, Finishing(j, count)), c.writers[j].store)
            && d.files[d.names[c.writers[j].store.name]] == []
  {
    assert Owns(c, c.writers[j]);
    FinishingRuns(Created(c, id, store), known, j);
  }

  /** The other store has written something: finishing, it leaves nothing or zeros in its place. */
  lemma WrittenSpoils<P(!new)>(c: Cache<P>, known: map<string, Store<P>>, id: nat, store: Store<P>, j: nat)
    requires Refines(c, known) && id !in c.writers && Plain(store)
    requires j in c.writers && c.writers[j].store.temp == store.temp && store.temp in c.names
    requires Begins(c.writers[j].store) && c.writers[j].written > 0
    ensures var (next, w) := (Created(c, id, store), c.writers[j]);
            var d := Run(next, Finishing(j, |w.store.bytes|));
            Spoils(d, Known(next, known, Finishing(j, |w.store.bytes|)), w.store)
            && d.files[d.names[w.store.name]]
               == if w.written == |w.store.bytes| then [] else Zeros(w.written) + w.store.bytes[w.written..]
  {
    var w := c.writers[j];
    assert Owns(c, w);
    FinishingRuns(Created(c, id, store), known, j);
    if w.written == |w.store.bytes| {
      assert w.store.bytes[w.written..] == [];
    } else {
      assert [] + Zeros(w.written) == Zeros(w.written);
    }
  }

  /** So when it had written everything, nothing is left. */
  lemma WholeThenNothing<P(!new)>(c: Cache<P>, known: map<string, Store<P>>, store: Store<P>)
    requires Refines(c, known) && Plain(store) && Begins(store) && c.writers.Keys == {0} && store.temp in c.names
    requires c.writers[0] == Writer(store, c.names[store.temp], |store.bytes|)
    ensures var d := Run(c, [Create(1, store)] + Finishing(0, |store.bytes|));
            store.name in d.names && d.names[store.name] in d.files && d.files[d.names[store.name]] == []
  {
    var create: Event<P> := Create(1, store);
    WrittenSpoils(c, known, 1, store, 0);
    Appending(c, known, [create], Finishing(0, |store.bytes|));
    Push(c, known, [], create);
    assert [] + [create] == [create];
  }

  /** Or the one that has just begun has written `header` bytes by then: a hole of zeros is left between. */
  lemma HeaderThenHole<P(!new)>(c: Cache<P>, known: map<string, Store<P>>, store: Store<P>, header: nat, k: nat)
    requires Refines(c, known) && Plain(store) && c.writers.Keys == {0} && store.temp in c.names
    requires c.writers[0] == Writer(store, c.names[store.temp], header + k) && header + k < |store.bytes|
    ensures var events := [Create(1, store), Append(1, header)] + Finishing(0, |store.bytes|);
            var d := Run(c, events);
            && store.name in d.names && d.names[store.name] in d.files
            && d.files[d.names[store.name]] == store.bytes[..header] + Zeros(k) + store.bytes[header + k..]
  {
    var mid: seq<Event<P>> := [Create(1, store), Append(1, header)];
    HeaderOverwrites(c, known, store, header);
    Appending(c, known, mid, Finishing(0, |store.bytes|));
    FinishingRuns(Run(c, mid), known, 0);
    WriteAtPastEnd(store.bytes[..header], k, store.bytes[header + k..]);
  }

  lemma WriteAtPastEnd(bytes: seq<byte>, gap: nat, data: seq<byte>)
    requires data != []
    ensures WriteAt(bytes, |bytes| + gap, data) == bytes + Zeros(gap) + data
  {
    assert bytes[..|bytes|] == bytes;
  }

  lemma HeaderOverwrites<P(!new)>(c: Cache<P>, known: map<string, Store<P>>, store: Store<P>, header: nat)
    requires Refines(c, known) && Plain(store) && c.writers.Keys == {0} && store.temp in c.names
    requires c.writers[0].file == c.names[store.temp] && header <= |store.bytes|
    ensures var d := Run(c, [Create(1, store), Append(1, header)]);
            && 0 in d.writers && d.writers[0] == c.writers[0] && d.names == c.names
            && d.names[store.temp] in d.files && d.files[d.names[store.temp]] == store.bytes[..header]
  {
    var create: Event<P>, append: Event<P> := Create(1, store), Append(1, header);
    Push(c, known, [], create);
    Push(c, known, [create], append);
    assert [] + [create] == [create] && [create] + [append] == [create, append];
    WrittenInPlace(store.bytes, [], 0, header);
    assert store.bytes[..0] == [];
  }

  /** Both write everything they have, and one of them renames. */
  function BothFinishing<P>(j: nat, first: nat, id: nat, second: nat, renamed: nat): seq<Event<P>> {
    [Append(j, first), Append(id, second), Rename(renamed)]
  }

  lemma OneOverOther(a: seq<byte>, b: seq<byte>)
    requires b != []
    ensures WriteAt(a, 0, b) == b + if |b| <= |a| then a[|b|..] else []
    ensures b <= a ==> WriteAt(a, 0, b) == a
    ensures !(b <= a) ==> WriteAt(a, 0, b) != a
  {
    var both := WriteAt(a, 0, b);
    assert b <= both;
    if b <= a {
      assert a == a[..|b|] + a[|b|..];
    }
  }

  lemma WritesAllAtOnce<P(!new)>(c: Cache<P>, i: nat)
    requires i in c.writers && c.writers[i].written == 0 && c.writers[i].file in c.files
    ensures var w := c.writers[i];
            Appended(c, i, |w.store.bytes|)
            == c.(files := c.files[w.file := WriteAt(c.files[w.file], 0, w.store.bytes)],
                  writers := c.writers[i := w.(written := |w.store.bytes|)])
  {
    var bytes := c.writers[i].store.bytes;
    assert bytes[0..|bytes|] == bytes;
  }

  lemma BothWrite<P(!new)>(c: Cache<P>, known: map<string, Store<P>>, id: nat, store: Store<P>, j: nat)
    requires Refines(c, known) && id !in c.writers && Plain(store)
    requires j in c.writers && c.writers[j].store.temp == store.temp && store.temp in c.names
    requires Begins(c.writers[j].store) && Begins(store) && c.writers[j].written == 0
    ensures var (next, w) := (Created(c, id, store), c.writers[j]);
            var (first, second) := (|w.store.bytes|, |store.bytes|);
            var d := Run(next, [Append(j, first), Append(id, second)]);
            && Known(next, known, [Append(j, first), Append(id, second)]) == known
            && d.names == c.names && w.file == c.names[store.temp]
            && w.file in d.files && d.files[w.file] == WriteAt(w.store.bytes, 0, store.bytes)
            && j in d.writers && d.writers[j] == w.(written := first)
            && id in d.writers && d.writers[id] == Writer(store, w.file, second)
  {
    var next, w := Created(c, id, store), c.writers[j];
    var appendJ: Event<P>, appendId: Event<P> := Append(j, |w.store.bytes|), Append(id, |store.bytes|);
    assert Owns(c, w);
    WritesAllAtOnce(next, j);
    WritesAllAtOnce(Appended(next, j, |w.store.bytes|), id);
    assert WriteAt([], 0, w.store.bytes) == w.store.bytes;
    Push(next, known, [], appendJ);
    Push(next, known, [appendJ], appendId);
    assert [] + [appendJ] == [appendJ] && [appendJ] + [appendId] == [appendJ, appendId];
  }

  /** The other store writes other bytes: once both have written all of theirs, one of them renames the wrong ones. */
  lemma OtherBytesSpoil<P(!new)>(c: Cache<P>, known: map<string, Store<P>>, id: nat, store: Store<P>, j: nat)
    returns (renamed: nat, spoiled: Store<P>)
    requires Refines(c, known) && id !in c.writers && Plain(store)
    requires j in c.writers && c.writers[j].store.temp == store.temp && store.temp in c.names
    requires Begins(c.writers[j].store) && Begins(store)
    requires c.writers[j].written == 0 && c.writers[j].store.bytes != store.bytes
    ensures spoiled == store || spoiled == c.writers[j].store
    ensures var next := Created(c, id, store);
            var events := BothFinishing(j, |c.writers[j].store.bytes|, id, |store.bytes|, renamed);
            && Spoils(Run(next, events), Known(next, known, events), spoiled)
            && (|c.writers[j].store.bytes| == |store.bytes| ==>
                  |Run(next, events).files[Run(next, events).names[spoiled.name]]| == |spoiled.bytes|)
  {
    var next, w := Created(c, id, store), c.writers[j];
    BothWrite(c, known, id, store, j);
    OneOverOther(w.store.bytes, store.bytes);
    renamed := if store.bytes <= w.store.bytes then id else j;
    spoiled := if store.bytes <= w.store.bytes then store else w.store;
    var both: seq<Event<P>> := [Append(j, |w.store.bytes|), Append(id, |store.bytes|)];
    Push(next, known, both, Rename(renamed));
    assert both + [Rename(renamed)] == BothFinishing(j, |w.store.bytes|, id, |store.bytes|, renamed);
  }

  /** A store that does not begin harmlessly can be followed by writing and renaming alone to a spoiled name. */
  lemma HarmSpoils<P(!new)>(c: Cache<P>, known: map<string, Store<P>>, id: nat, store: Store<P>, j: nat)
    returns (more: seq<Event<P>>, spoiled: Store<P>)
    requires Refines(c, known) && id !in c.writers && Plain(store) && Begins(store)
    requires j in c.writers && Begins(c.writers[j].store) && !HarmlessBeside(c, c.writers[j], store)
    ensures NoneBegins(more) && (spoiled == store || spoiled == c.writers[j].store)
    ensures var next := Created(c, id, store);
            && Spoils(Run(next, more), Known(next, known, more), spoiled)
            && (|c.writers[j].store.bytes| == |store.bytes| ==>
                  |Run(next, more).files[Run(next, more).names[spoiled.name]]| <= |spoiled.bytes|)
  {
    var w := c.writers[j];
    spoiled, more := w.store, Finishing(j, |w.store.bytes|);
    if store.temp !in c.names {
      LostNameSpoils(c, known, id, store, j);
    } else if w.written > 0 {
      assert Owns(c, w);
      WrittenSpoils(c, known, id, store, j);
    } else {
      var renamed: nat;
      renamed, spoiled := OtherBytesSpoil(c, known, id, store, j);
      more := BothFinishing(j, |w.store.bytes|, id, |store.bytes|, renamed);
    }
  }

  /** Exactly when a store may begin: whatever then happens, as long as only stores begin that may, every name keeps the
      last store completed under it. */
  lemma MayBeginIff<P(!new)>(c: Cache<P>, known: map<string, Store<P>>, id: nat, store: Store<P>)
    requires Refines(c, known) && id !in c.writers && Plain(store) && Begins(store)
    requires forall j <- c.writers.Keys :: Begins(c.writers[j].store)
    ensures Harmless(c, store) <==>
              forall more | AllDoNoHarm(Created(c, id, store), more) ::
                AllWhole(Run(Created(c, id, store), more), Known(Created(c, id, store), known, more))
  {
    var next := Created(c, id, store);
    if Harmless(c, store) {
      CreatedRefines(c, known, id, store);
      forall more | AllDoNoHarm(next, more) ensures AllWhole(Run(next, more), Known(next, known, more)) {
        RunRefines(next, known, more);
      }
    } else {
      var j :| j in c.writers && !HarmlessBeside(c, c.writers[j], store);
      assert Owns(c, c.writers[j]);
      var more, spoiled := HarmSpoils(c, known, id, store, j);
      NoHarmInFinishing(next, more);
      assert !AllWhole(Run(next, more), Known(next, known, more));
    }
  }
}
