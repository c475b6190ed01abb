/** The render cache as a whole (crates/renderer/src/background/render_cache.rs): its file format, its stores, loads
    and prunes, and the plain partial map they amount to. */
module RenderCaches {
  import opened Bytes
  import opened FrameSizes
  import opened Options
  import opened Pruning = RenderCachePruning
  import opened RenderCacheKeys
  import opened Shuffles

  // ---- The file format

  /** `KWYBG001`. */
  const CACHE_MAGIC: seq<byte> := [75, 87, 89, 66, 71, 48, 48, 49]

  function LittleEndian(n: u32): (bytes: seq<byte>)
    ensures |bytes| == 4
  {
    [n % 0x100, n / 0x100 % 0x100, n / 0x100 / 0x100 % 0x100, n / 0x100 / 0x100 / 0x100]
  }

  function FromLittleEndian(bytes: seq<byte>): u32
    requires |bytes| == 4
  {
    bytes[0] as int + (bytes[1] as int + (bytes[2] as int + bytes[3] as int * 0x100) * 0x100) * 0x100
  }

  lemma LittleEndianRoundTrip(n: u32)
    ensures FromLittleEndian(LittleEndian(n)) == n
  {
    var a, b, c: int := n / 0x100, n / 0x100 / 0x100, n / 0x100 / 0x100 / 0x100;
    assert c * 0x100 + b % 0x100 == b;
    assert b * 0x100 + a % 0x100 == a;
  }

  function Encoded(size: FrameSize, pixels: seq<byte>): seq<byte> {
    CACHE_MAGIC + LittleEndian(size.width) + LittleEndian(size.height) + pixels
  }

  datatype Load = Hit(pixels: seq<byte>) | Miss | Failed

  /** Reading a cache file: a foreign magic or another size is a miss, a file cut short is an error,
      and bytes after the pixels are ignored. */
  function Decoded(bytes: seq<byte>, size: FrameSize): Load {
    if |bytes| < 16 then Failed
    else if bytes[..8] != CACHE_MAGIC then Miss
    else if FrameSize(FromLittleEndian(bytes[8..12]), FromLittleEndian(bytes[12..16])) != size then Miss
    else if size.ByteLen().None? || |bytes| - 16 < size.ByteLen().value then Failed
    else Hit(bytes[16..16 + size.ByteLen().value])
  }

  lemma FromLittleEndianRoundTrip(bytes: seq<byte>)
    requires |bytes| == 4
    ensures LittleEndian(FromLittleEndian(bytes)) == bytes
  {
    var n := FromLittleEndian(bytes);
    var rest := bytes[1] as int + (bytes[2] as int + bytes[3] as int * 0x100) * 0x100;
    var high := bytes[2] as int + bytes[3] as int * 0x100;
    assert n == bytes[0] as int + rest * 0x100 && n / 0x100 == rest && rest / 0x100 == high;
  }

  lemma HeaderParts(size: FrameSize, pixels: seq<byte>)
    ensures var bytes := Encoded(size, pixels);
            && |bytes| == 16 + |pixels|
            && bytes[..8] == CACHE_MAGIC
            && bytes[8..12] == LittleEndian(size.width) && bytes[12..16] == LittleEndian(size.height)
            && bytes[16..] == pixels
  {
  }

  /** The four bytes from `at` on as a number, the least significant first. */
  function NumberAt(bytes: seq<byte>, at: nat): nat
    requires at + 4 <= |bytes|
  {
    var a, b, c, d: int := bytes[at], bytes[at + 1], bytes[at + 2], bytes[at + 3];
    a + b * 0x100 + c * 0x1_0000 + d * 0x100_0000
  }

  /** What a load makes of a file: "KWYBG001", width and height must match, or it is a miss; a file too short for its
      header or its pixels is an error; else the pixels follow. */
  lemma DecodedIff(bytes: seq<byte>, size: FrameSize)
    ensures var load := Decoded(bytes, size);
            var matches := |bytes| >= 16 && bytes[..8] == [75, 87, 89, 66, 71, 48, 48, 49]
                           && NumberAt(bytes, 8) == size.width && NumberAt(bytes, 12) == size.height;
            && (load == Load.Miss <==> |bytes| >= 16 && !matches)
            && (load.Hit? <==> matches && size.ByteLen().Some? && |bytes| >= 16 + size.ByteLen().value)
            && (load.Hit? ==> load.pixels == bytes[16..16 + size.ByteLen().value])
  {
  }

  /** A stored buffer reads back as itself exactly when it has the length its size calls for. */
  lemma RoundTripIff(size: FrameSize, pixels: seq<byte>)
    ensures Decoded(Encoded(size, pixels), size) == Hit(pixels) <==> size.ByteLen() == Some(|pixels|)
  {
    HeaderParts(size, pixels);
    LittleEndianRoundTrip(size.width);
    LittleEndianRoundTrip(size.height);
    var bytes := Encoded(size, pixels);
    if size.ByteLen().Some? && size.ByteLen().value <= |pixels| {
      assert bytes[16..16 + size.ByteLen().value] == bytes[16..][..size.ByteLen().value];
    }
  }

  /** And no other file of that length or less reads as that buffer. */
  lemma OnlyWholeFilesHit(bytes: seq<byte>, size: FrameSize, pixels: seq<byte>)
    requires size.ByteLen() == Some(|pixels|) && |bytes| <= 16 + |pixels|
    requires Decoded(bytes, size) == Hit(pixels)
    ensures bytes == Encoded(size, pixels)
  {
    FromLittleEndianRoundTrip(bytes[8..12]);
    FromLittleEndianRoundTrip(bytes[12..16]);
    assert bytes == bytes[..8] + bytes[8..12] + bytes[12..16] + bytes[16..];
    assert bytes[16..] == bytes[16..16 + |pixels|];
  }

  /** And never as a buffer of another size. */
  lemma OtherSizeMisses(stored: FrameSize, pixels: seq<byte>, size: FrameSize)
    requires stored != size
    ensures Decoded(Encoded(stored, pixels), size) == Miss
  {
    HeaderParts(stored, pixels);
    LittleEndianRoundTrip(stored.width);
    LittleEndianRoundTrip(stored.height);
  }

  // ---- Stores and loads on the directory

  /** How far a store gets: all the way to the rename, some bytes into the temporary file, or not that far. */
  datatype Write = Renamed | CutShort(written: nat) | NotCreated

  function TempName(name: string): string {
    "." + name + ".tmp"
  }

  function Stored(files: Directory, name: string, bytes: seq<byte>, now: nat, write: Write): Directory {
    match write
    case Renamed => (files - {TempName(name)})[name := File(bytes, now)]
    case CutShort(written) => files[TempName(name) := File(if written <= |bytes| then bytes[..written] else bytes, now)]
    case NotCreated => files
  }

  function LoadFrom(files: Directory, hash: Hash, r: Request): Load {
    var name := CacheName(hash, r);
    if name in files then Decoded(files[name].bytes, r.size) else Miss
  }

  // ---- The partial map behind the files

  /** One picture per request; no variant and the empty variant are one. */
  type Pictures = map<Request, seq<byte>>

  function Canonical(r: Request): Request {
    r.(variant := Some(VariantText(r.variant)))
  }

  lemma CanonicalIff(a: Request, b: Request)
    ensures Canonical(a) == Canonical(b) <==> SameRequest(a, b)
  {
    SameVariantIff(a.variant, b.variant);
  }

  /** One thing after another: a store is one event here, however far it gets (its steps are in `RenderCacheOverlap`).
      `Evict` stands for a prune, whole or broken off, or any other removal of files. */
  datatype Event =
    | Store(request: Request, pixels: seq<byte>, now: nat, write: Write)
    | Evict(names: set<string>)

  function Step(files: Directory, hash: Hash, event: Event): Directory {
    match event
    case Store(r, pixels, now, write) => Stored(files, CacheName(hash, r), Encoded(r.size, pixels), now, write)
    case Evict(names) => files - names
  }

  function Run(files: Directory, hash: Hash, events: seq<Event>): Directory {
    if events == [] then files
    else Step(Run(files, hash, events[..|events| - 1]), hash, events[|events| - 1])
  }

  /** The plain map: a completed store sets its entry, and nothing else changes it. */
  function LastStored(pictures: Pictures, events: seq<Event>): Pictures {
    if events == [] then pictures
    else
      var before, event := LastStored(pictures, events[..|events| - 1]), events[|events| - 1];
      if event.Store? && event.write == Renamed then before[Canonical(event.request) := event.pixels] else before
  }

  /** No two requests in play make the hash collide. */
  ghost predicate HashHolds(hash: Hash, play: set<Request>) {
    forall a, b | a in play && b in play :: NoCollision(hash, HashedStrings(hash, a) + HashedStrings(hash, b))
  }

  /** Buffers handed to the cache have the length their size calls for. */
  ghost predicate WellFormed(event: Event, play: set<Request>) {
    event.Store? ==> event.request in play && event.request.size.ByteLen() == Some(|event.pixels|)
  }

  /** A prune looks at every file of the cache's own, and never at a temporary one: what a broken-off store leaves
      behind stays. */
  lemma LeftoversAreNeverPruned(hash: Hash, r: Request, name: string)
    ensures HasArgbExtension(CacheName(hash, r)) && !HasArgbExtension(TempName(name))
  {
    CacheNameParts(hash, r);
    IsCacheFileIff(CacheName(hash, r));
    IsCacheFileIff(TempName(name));
    var temp := TempName(name);
    assert temp[|temp| - 1] == 'p';
  }

  /** A completed store is there for the next load, whatever was there before. */
  lemma StoreThenLoad(files: Directory, hash: Hash, r: Request, pixels: seq<byte>, now: nat)
    requires r.size.ByteLen() == Some(|pixels|)
    ensures LoadFrom(Step(files, hash, Store(r, pixels, now, Renamed)), hash, r) == Hit(pixels)
  {
    RoundTripIff(r.size, pixels);
  }

  // ---- The program

  class RenderCache {
    var files: Directory
    const hash: Hash

    constructor (found: Directory, hashFunction: Hash)
      ensures files == found && hash == hashFunction
    {
      files, hash := found, hashFunction;
    }

    /** `store_cached_buffer_for_source`. */
    method StoreCachedBuffer(r: Request, pixels: seq<byte>, now: nat, write: Write) returns (ok: bool)
      modifies this`files
      ensures files == Step(old(files), hash, Store(r, pixels, now, write))
      ensures ok <==> write == Renamed
    {
      ok := WriteAndRename(CacheName(hash, r), Encoded(r.size, pixels), now, write);
    }

    /** Write a temporary file, then rename it into place. */
    method WriteAndRename(name: string, bytes: seq<byte>, now: nat, write: Write) returns (ok: bool)
      modifies this`files
      ensures files == Stored(old(files), name, bytes, now, write)
      ensures ok <==> write == Renamed
    {
      var temp := TempName(name);
      if write == NotCreated {
        return false;
      }
      files := files[temp := File([], now)];
      if write.CutShort? {
        files := files[temp := File(if write.written <= |bytes| then bytes[..write.written] else bytes, now)];
        return false;
      }
      files := files[temp := File(bytes, now)];
      files := (files - {temp})[name := files[temp]];
      ok := true;
    }

    /** `load_cached_buffer_for_source`. */
    method LoadCachedBuffer(r: Request) returns (load: Load)
      ensures load == LoadFrom(files, hash, r)
    {
      var name := CacheName(hash, r);
      if name !in files {
        return Miss;
      }
      var bytes := files[name].bytes;
      if |bytes| < 16 {
        return Failed;
      }
      if bytes[..8] != CACHE_MAGIC {
        return Miss;
      }
      var cached := FrameSize(FromLittleEndian(bytes[8..12]), FromLittleEndian(bytes[12..16]));
      if cached != r.size {
        return Miss;
      }
      var byteLen := r.size.ByteLen();
      if byteLen.None? || |bytes| - 16 < byteLen.value {
        return Failed;
      }
      load := Hit(bytes[16..16 + byteLen.value]);
    }

    /** `remove_pruned_file`: a file that is gone already counts for nothing, and is no error. */
    method RemovePrunedFile(e: Entry, removal: string -> Removal, report: Report) returns (ok: bool, next: Report)
      modifies this`files
      ensures ok <==> removal(e.name) != Denied
      ensures files == if ok then old(files) - {e.name} else old(files)
      ensures next == Counted(report, e, removal)
    {
      match removal(e.name) {
        case Removed =>
          files := files - {e.name};
          return true, report.(removedFiles := report.removedFiles + 1,
                                       removedBytes := report.removedBytes + e.byteLen);
        case Vanished =>
          files := files - {e.name};
          return true, report;
        case Denied =>
          return false, report;
      }
    }

    /** The first pass over one name of the listing: a cache file is removed if expired, else collected. */
    method ConsiderFile(listing: seq<string>, i: nat, policy: Policy, removal: string -> Removal, now: nat,
                        report: Report, retained: seq<Entry>, ghost before: Directory)
      returns (ok: bool, next: Report, kept: seq<Entry>)
      requires Distinct(listing) && i < |listing|
      requires FirstPass(files, before, listing, i, report, retained, policy, removal, now)
      modifies this`files
      ensures ok ==> FirstPass(files, before, listing, i + 1, next, kept, policy, removal, now)
      ensures !ok ==> BrokenOff(files, before, Filter(Entries(before, listing), policy, now, true), removal)
    {
      var name := listing[i];
      NextIsThere(files, before, listing, i, report, retained, policy, removal, now);
      if !IsCacheFile(name) {
        FirstPassSkips(files, before, listing, i, report, retained, policy, removal, now);
        return true, report, retained;
      }
      var e := EntryOf(files, name);
      var counted := report.(scannedFiles := report.scannedFiles + 1);
      if !Expired(e, policy, now) {
        FirstPassCollects(files, before, listing, i, report, retained, policy, removal, now);
        return true, counted, retained + [e];
      }
      ok, next := RemovePrunedFile(e, removal, counted);
      kept := retained;
      if ok {
        FirstPassRemoves(old(files), before, listing, i, report, retained, policy, removal, now);
      } else {
        FirstPassBreaksOff(files, before, listing, i, report, retained, policy, removal, now);
      }
    }

    /** The first pass of `prune_render_cache_at`: expired files go as they are met, the others are collected. */
    method RemoveExpired(policy: Policy, listing: seq<string>, removal: string -> Removal, now: nat)
      returns (ok: bool, report: Report, retained: seq<Entry>)
      requires Distinct(listing) && forall name <- listing :: name in files
      modifies this`files
      ensures var entries := Entries(old(files), listing);
              var expired := Filter(entries, policy, now, true);
              if ok then
                && Removing(files, old(files), report, expired, removal)
                && report.scannedFiles == |entries| && report.retainedBytes == 0
                && retained == Filter(entries, policy, now, false)
              else
                BrokenOff(files, old(files), expired, removal)
    {
      report, retained := Report(0, 0, 0, 0), [];
      FirstPassStarts(files, listing, policy, removal, now);
      for i := 0 to |listing|
        // Compared with true to keep the predicate whole for the solver.
        invariant FirstPass(files, old(files), listing, i, report, retained, policy, removal, now) == true
      {
        ok, report, retained := ConsiderFile(listing, i, policy, removal, now, report, retained, old(files));
        if !ok {
          return;
        }
      }
      FirstPassEnds(files, old(files), listing, report, retained, policy, removal, now);
      ok := true;
    }

    /** One size victim, the `i`-th of `count`. */
    method RemoveVictim(sorted: seq<Entry>, i: nat, bytes: nat, ghost maxBytes: nat, removal: string -> Removal,
                        report: Report,
                        ghost before: Directory, ghost expired: seq<Entry>, ghost count: nat)
      returns (ok: bool, next: Report, left: nat)
      requires i < |sorted| && bytes > maxBytes
      requires SecondPass(files, before, report, expired, sorted, removal, i, bytes, maxBytes, count)
      modifies this`files
      ensures ok ==> next.scannedFiles == report.scannedFiles
                     && SecondPass(files, before, next, expired, sorted, removal, i + 1, left, maxBytes, count)
      ensures !ok ==> count <= |sorted| && BrokenOff(files, before, expired + sorted[..count], removal)
    {
      UnderwayGoesOn(sorted, i, bytes, maxBytes, count);
      PlannedNext(expired, sorted, i, count);
      ghost var gone, planned := expired + sorted[..i], expired + sorted[..count];
      ok, next := RemovePrunedFile(sorted[i], removal, report);
      if ok {
        RemovingOneMore(old(files), before, report, gone, sorted[i], removal);
      } else {
        assert planned[|gone|] == sorted[i] && forall k | 0 <= k < |gone| :: planned[k] == gone[k];
        DeniedBreaksOff(old(files), before, report, gone, sorted[i], planned, removal);
      }
      left := bytes - sorted[i].byteLen;
    }

    /** The second pass: the oldest collected files go until the rest fits. */
    method RemoveOldest(sorted: seq<Entry>, maxBytes: nat, removal: string -> Removal, report: Report,
                        ghost before: Directory, ghost expired: seq<Entry>)
      returns (ok: bool, next: Report)
      requires Removing(files, before, report, expired, removal)
      modifies this`files
      ensures var count := VictimCount(sorted, TotalBytes(sorted), maxBytes);
              if ok then
                && Removing(files, before, next, expired + sorted[..count], removal)
                && next.scannedFiles == report.scannedFiles && next.retainedBytes == TotalBytes(sorted[count..])
              else
                BrokenOff(files, before, expired + sorted[..count], removal)
    {
      var bytes: nat, i: nat := TotalBytes(sorted), 0;
      ghost var count := VictimCount(sorted, bytes, maxBytes);
      SecondPassStarts(files, before, report, expired, sorted, removal, maxBytes);
      next := report;
      while i < |sorted| && bytes > maxBytes
        invariant SecondPass(files, before, next, expired, sorted, removal, i, bytes, maxBytes, count) == true
        invariant next.scannedFiles == report.scannedFiles
        decreases |sorted| - i
      {
        ok, next, bytes := RemoveVictim(sorted, i, bytes, maxBytes, removal, next, before, expired, count);
        if !ok {
          return;
        }
        i := i + 1;
      }
      SecondPassEnds(files, before, next, expired, sorted, removal, i, bytes, maxBytes, count);
      next := next.(retainedBytes := bytes);
      ok := true;
    }

    /** `prune_render_cache_at`.  `listing` is the directory in the order it is read, and `removal`
        answers each removal.
        None is the error return, which may leave some of the planned files removed and every other file as it was. */
    method PruneRenderCacheAt(policy: Policy, listing: seq<string>, removal: string -> Removal, now: nat)
      returns (report: Option<Report>)
      requires Distinct(listing) && forall name <- listing :: name in files
      modifies this`files
      ensures var entries := Entries(old(files), listing);
              var plan := PlanFor(entries, policy, now);
              var gone := plan.expired + plan.victims;
              if report.Some? then
                && NoneDenied(gone, removal) && files == old(files) - Names(gone)
                && report.value == ReportOf(|entries|, gone, removal, TotalBytes(plan.survivors))
              else
                BrokenOff(files, old(files), gone, removal)
      ensures report.Some? ==> Pruned(files, old(files), listing, policy, now)
      ensures forall name <- old(files).Keys :: !HasArgbExtension(name) ==>
                name in files && files[name] == old(files)[name]
    {
      ghost var before, entries := files, Entries(files, listing);
      ghost var plan := PlanFor(entries, policy, now);
      var ok, found, retained := RemoveExpired(policy, listing, removal, now);
      if ok {
        var sorted := SortedByAge(retained);
        ok, found := RemoveOldest(sorted, policy.maxBytes, removal, found, before, plan.expired);
      } else {
        BrokenOffLater(files, before, plan.expired, plan.victims, removal);
      }
      report := if ok then Some(found) else None;
      PlanLeaves(before, listing, policy, now);
      if !ok {
        BrokenOffSparesOthers(files, before, listing, policy, now, removal);
      }
    }
  }
}
