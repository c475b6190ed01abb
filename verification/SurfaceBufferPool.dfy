/** The shared-memory frame allocator of crates/renderer/src/shm.rs: at most two slots of one frame each,
    handed back by asynchronous release events and reclaimed by force when both are held. */
module SurfaceBufferPools {
  import opened FrameSizes
  import opened Options

  const MAX_BUFFER_SLOTS: nat := 2
  /** `attached` stands for the `wl_buffer` a slot keeps. */
  datatype Slot = Slot(released: bool, attached: bool)

  const FRESH_SLOT := Slot(false, false)

  datatype Pool = Pool(capacity: nat, slotLen: nat, slots: seq<Slot>, nextSlot: nat)

  /** The answer to one `RawPool::resize`.  A pool never shrinks; a successful resize makes it at least as large
      as requested; `extra` covers any growth beyond that. */
  datatype Resize = Resize(ok: bool, extra: nat)

  /** The answers to the (up to three) resizes of one call, in program order. */
  datatype Resizes = Resizes(onChange: Resize, onCompact: Resize, onGrow: Resize) {
    predicate AllOk() {
      onChange.ok && onCompact.ok && onGrow.ok
    }
  }

  datatype Grant = Granted(index: nat) | ResizeFailed | InvalidFrameSize

  function Max(a: nat, b: nat): nat {
    if a < b then b else a
  }

  function Resized(capacity: nat, requested: nat, reply: Resize): nat {
    Max(capacity, if reply.ok then requested else 0) + reply.extra
  }

  /** The slots left when released ones are popped off the end, never the last one. */
  function PopReleased(slots: seq<Slot>): (kept: seq<Slot>)
    ensures kept <= slots
    ensures |kept| <= 1 || !kept[|kept| - 1].released
    ensures forall i | |kept| <= i < |slots| :: slots[i].released
    ensures slots != [] ==> kept != []
  {
    if |slots| > 1 && slots[|slots| - 1].released then PopReleased(slots[..|slots| - 1]) else slots
  }

  /** The index of the first released slot, or the number of slots. */
  function FirstReleased(slots: seq<Slot>): (index: nat)
    ensures index <= |slots|
    ensures index < |slots| ==> slots[index].released
    ensures forall i | 0 <= i < index :: !slots[i].released
  {
    if slots == [] || slots[0].released then 0 else 1 + FirstReleased(slots[1..])
  }

  /** A frame length other than the current one drops every slot. */
  function Relength(pool: Pool, byteLen: nat, reply: Resize): Pool {
    if pool.slotLen == byteLen then pool
    else Pool(Resized(pool.capacity, byteLen, reply), byteLen, [], 0)
  }

  function Compacted(pool: Pool, byteLen: nat, reply: Resize): Pool {
    var kept := PopReleased(pool.slots);
    var next := if kept != [] then pool.nextSlot % |kept| else pool.nextSlot;
    var needed := byteLen * Max(|kept|, 1);
    pool.(slots := kept, nextSlot := next,
          capacity := if needed <= USIZE_MAX then Resized(pool.capacity, needed, reply) else pool.capacity)
  }

  /** Reuse a released slot, else reclaim the next one when both are held, else grow by one. */
  function Allocated(pool: Pool, byteLen: nat, reply: Resize): (Pool, Grant) {
    var found := FirstReleased(pool.slots);
    if found < |pool.slots| then
      (Handed(pool, found), Granted(found))
    else if |pool.slots| >= MAX_BUFFER_SLOTS then
      var index := pool.nextSlot % |pool.slots|;
      (Handed(pool, index), Granted(index))
    else
      var index := |pool.slots|;
      var needed := byteLen * (index + 1);
      if needed > USIZE_MAX || needed > I32_MAX then
        (pool, InvalidFrameSize)
      else
        var grown := pool.(capacity := Resized(pool.capacity, needed, reply));
        if !reply.ok then (grown, ResizeFailed)
        else (grown.(slots := grown.slots + [FRESH_SLOT], nextSlot := (index + 1) % (|grown.slots| + 1)),
              Granted(index))
  }

  function Handed(pool: Pool, index: nat): Pool
    requires index < |pool.slots|
  {
    pool.(slots := pool.slots[index := FRESH_SLOT], nextSlot := (index + 1) % |pool.slots|)
  }

  function NextBufferSlot(pool: Pool, byteLen: nat, resizes: Resizes): (Pool, Grant) {
    var relengthed := Relength(pool, byteLen, resizes.onChange);
    if pool.slotLen != byteLen && !resizes.onChange.ok then
      (relengthed, ResizeFailed)
    else
      var compacted := Compacted(relengthed, byteLen, resizes.onCompact);
      if byteLen * Max(|compacted.slots|, 1) > USIZE_MAX then (compacted, InvalidFrameSize)
      else if !resizes.onCompact.ok then (compacted, ResizeFailed)
      else Allocated(compacted, byteLen, resizes.onGrow)
  }

  // ---- Frames and release events

  /** What the caller's drawing did: failed, drew nothing new (the regional variant only), or drew. */
  datatype Render = Failed | NoDamage | Drawn

  /** Where one frame's pixels go. */
  datatype Placement = Placement(index: nat, offset: nat, len: nat)

  datatype Event =
    | Release(index: nat)
    | Frame(size: FrameSize, resizes: Resizes, render: Render)

  /** One event: the new pool, and the bytes handed to the caller, if any. */
  function Step(pool: Pool, event: Event): (Pool, Option<Placement>) {
    match event
    case Release(index) =>
      (if index < |pool.slots| then pool.(slots := pool.slots[index := pool.slots[index].(released := true)]) else pool,
       None)
    case Frame(size, resizes, render) =>
      if size.IsEmpty() || size.ByteLen().None? then
        (pool, None)
      else
        var byteLen := size.ByteLen().value;
        var (next, grant) := NextBufferSlot(pool, byteLen, resizes);
        match grant
        case Granted(index) => (Finished(next, index, render), Some(Placement(index, index * byteLen, byteLen)))
        case _ => (next, None)
  }

  function Finished(pool: Pool, index: nat, render: Render): Pool {
    if index >= |pool.slots| then pool
    else match render
      case Failed => pool
      case NoDamage => pool.(slots := pool.slots[index := pool.slots[index].(released := true)])
      case Drawn => pool.(slots := pool.slots[index := pool.slots[index].(attached := true)])
  }

  function Run(pool: Pool, events: seq<Event>): Pool
    decreases |events|
  {
    if events == [] then pool else Run(Step(pool, events[0]).0, events[1..])
  }

  /** `SurfaceBufferPool::new`; the shared memory may be larger than asked for. */
  function NewPool(slotLen: nat, extra: nat): Pool {
    Pool(slotLen + extra, slotLen, [], 0)
  }

  // ---- The memory invariant

  ghost predicate Valid(pool: Pool) {
    && |pool.slots| <= MAX_BUFFER_SLOTS
    && pool.nextSlot < Max(|pool.slots|, 1)
    && |pool.slots| * pool.slotLen <= pool.capacity
    && (pool.slots != [] ==> |pool.slots| * pool.slotLen <= I32_MAX)
  }

  lemma FewerSlotsFit(fewer: nat, slots: nat, slotLen: nat)
    requires fewer <= slots
    ensures fewer * slotLen <= slots * slotLen
  {
  }

  lemma CompactedIsValid(pool: Pool, byteLen: nat, reply: Resize)
    requires Valid(pool) && pool.slotLen == byteLen
    ensures var compacted := Compacted(pool, byteLen, reply);
            Valid(compacted) && compacted.slotLen == byteLen && compacted.capacity >= pool.capacity
  {
    FewerSlotsFit(|PopReleased(pool.slots)|, |pool.slots|, byteLen);
  }

  lemma AllocatedIsValid(pool: Pool, byteLen: nat, reply: Resize)
    requires Valid(pool) && pool.slotLen == byteLen
    ensures var (next, grant) := Allocated(pool, byteLen, reply);
            && Valid(next) && next.slotLen == byteLen && next.capacity >= pool.capacity
            && (grant.Granted? ==> grant.index < |next.slots| && next.slots[grant.index] == FRESH_SLOT
                                   && next.nextSlot == (grant.index + 1) % |next.slots|)
  {
  }

  lemma RelengthIsValid(pool: Pool, byteLen: nat, reply: Resize)
    requires Valid(pool)
    ensures var relengthed := Relength(pool, byteLen, reply);
            Valid(relengthed) && relengthed.slotLen == byteLen && relengthed.capacity >= pool.capacity
  {
  }

  lemma GrantIsInPool(pool: Pool, byteLen: nat, resizes: Resizes)
    requires Valid(pool)
    ensures var (next, grant) := NextBufferSlot(pool, byteLen, resizes);
            && Valid(next) && next.slotLen == byteLen && next.capacity >= pool.capacity
            && (grant.Granted? ==> grant.index < |next.slots| && next.slots[grant.index] == FRESH_SLOT
                                   && next.nextSlot == (grant.index + 1) % |next.slots|)
  {
    var relengthed := Relength(pool, byteLen, resizes.onChange);
    RelengthIsValid(pool, byteLen, resizes.onChange);
    CompactedIsValid(relengthed, byteLen, resizes.onCompact);
    AllocatedIsValid(Compacted(relengthed, byteLen, resizes.onCompact), byteLen, resizes.onGrow);
  }

  lemma PlacementFits(index: nat, slots: nat, byteLen: nat)
    requires index < slots
    ensures index * byteLen + byteLen <= slots * byteLen
  {
    FewerSlotsFit(index + 1, slots, byteLen);
  }

  lemma SidesFit(width: nat, height: nat)
    requires width > 0 && height > 0
    ensures width * 4 <= width * height * 4 && height * 4 <= width * height * 4
  {
    FewerSlotsFit(1, height, width);
    FewerSlotsFit(1, width, height);
  }

  /** Every event keeps the invariant, and every frame's bytes lie in the pool and below `i32::MAX`,
      so the casts of offset, width, height and stride in `create_buffer` are exact. */
  lemma StepIsSafe(pool: Pool, event: Event)
    requires Valid(pool)
    ensures var (next, placed) := Step(pool, event);
            && Valid(next) && next.capacity >= pool.capacity
            && (placed.Some? ==>
                  && placed.value.offset + placed.value.len <= next.capacity
                  && placed.value.offset + placed.value.len <= I32_MAX
                  && event.size.width * 4 <= I32_MAX && event.size.height * 4 <= I32_MAX)
  {
    match event {
      case Release(_) =>
      case Frame(size, resizes, render) =>
        if !size.IsEmpty() && size.ByteLen().Some? {
          var byteLen := size.ByteLen().value;
          FrameIsSafe(pool, size, byteLen, resizes);
          var (next, grant) := NextBufferSlot(pool, byteLen, resizes);
          if grant.Granted? {
            FinishedIsValid(next, grant.index, render);
          }
        }
    }
  }

  lemma FinishedIsValid(pool: Pool, index: nat, render: Render)
    requires Valid(pool)
    ensures var next := Finished(pool, index, render);
            Valid(next) && next.capacity == pool.capacity && next.slotLen == pool.slotLen
  {
  }

  lemma FrameIsSafe(pool: Pool, size: FrameSize, byteLen: nat, resizes: Resizes)
    requires Valid(pool) && !size.IsEmpty() && size.ByteLen() == Some(byteLen)
    ensures var (next, grant) := NextBufferSlot(pool, byteLen, resizes);
            && Valid(next) && next.capacity >= pool.capacity
            && (grant.Granted? ==>
                  && grant.index < |next.slots|
                  && grant.index * byteLen + byteLen <= next.capacity
                  && grant.index * byteLen + byteLen <= I32_MAX
                  && size.width * 4 <= I32_MAX && size.height * 4 <= I32_MAX)
  {
    GrantIsInPool(pool, byteLen, resizes);
    var (next, grant) := NextBufferSlot(pool, byteLen, resizes);
    if grant.Granted? {
      PlacementFits(grant.index, |next.slots|, byteLen);
      SidesFit(size.width, size.height);
    }
  }

  lemma {:induction false} RunIsSafe(slotLen: nat, extra: nat, events: seq<Event>)
    ensures Valid(Run(NewPool(slotLen, extra), events))
  {
    RunKeepsValid(NewPool(slotLen, extra), events);
  }

  lemma {:induction false} RunKeepsValid(pool: Pool, events: seq<Event>)
    requires Valid(pool)
    ensures Valid(Run(pool, events))
    decreases |events|
  {
    if events != [] {
      StepIsSafe(pool, events[0]);
      RunKeepsValid(Step(pool, events[0]).0, events[1..]);
    }
  }

  // ---- Double buffering

  /** A slot that has not been released is handed out only when both slots are held, and then it is the next in turn. */
  lemma UnreleasedSlotIsReclaimedInTurn(pool: Pool, byteLen: nat, resizes: Resizes)
    requires Valid(pool) && pool.slotLen == byteLen
    ensures var grant := NextBufferSlot(pool, byteLen, resizes).1;
            grant.Granted? && grant.index < |pool.slots| && !pool.slots[grant.index].released ==>
              |pool.slots| == MAX_BUFFER_SLOTS && grant.index == pool.nextSlot
              && forall slot <- pool.slots :: !slot.released
  {
    var kept := PopReleased(pool.slots);
    var found := FirstReleased(kept);
    if found == |kept| == MAX_BUFFER_SLOTS {
      assert kept == pool.slots;
    }
  }

  /** Slot `index` was granted at the current frame length, has not been released, and is not next in turn unless a
      released one comes first. */
  ghost predicate Held(pool: Pool, index: nat, byteLen: nat) {
    && Valid(pool) && pool.slotLen == byteLen
    && index < |pool.slots| && !pool.slots[index].released
    && (|pool.slots| == MAX_BUFFER_SLOTS ==> pool.nextSlot != index || pool.slots[1 - index].released)
  }

  /** Whatever else happens, the next call at the same length does not hand out a held slot, and on an error
      keeps it held. */
  lemma HeldSlotIsSpared(pool: Pool, index: nat, byteLen: nat, resizes: Resizes)
    requires Held(pool, index, byteLen)
    ensures var (next, grant) := NextBufferSlot(pool, byteLen, resizes);
            grant != Granted(index) && (!grant.Granted? ==> Held(next, index, byteLen))
  {
    GrantIsInPool(pool, byteLen, resizes);
    UnreleasedSlotIsReclaimedInTurn(pool, byteLen, resizes);
  }

  /** The bytes given out by the first frame of `events` that gets any. */
  function NextPlacement(pool: Pool, events: seq<Event>): Option<Placement>
    decreases |events|
  {
    if events == [] then None
    else
      var (next, placed) := Step(pool, events[0]);
      if placed.Some? then placed else NextPlacement(next, events[1..])
  }

  /** No release of slot `index`, and no frame of another (valid) length. */
  ghost predicate Undisturbed(events: seq<Event>, index: nat, byteLen: nat) {
    forall event <- events ::
      match event
      case Release(released) => released != index
      case Frame(size, _, _) => size.IsEmpty() || size.ByteLen().None? || size.ByteLen() == Some(byteLen)
  }

  lemma {:induction false} HeldSlotOutlivesEvents(pool: Pool, events: seq<Event>, index: nat, byteLen: nat)
    requires Held(pool, index, byteLen) && Undisturbed(events, index, byteLen)
    ensures NextPlacement(pool, events).Some? ==>
              NextPlacement(pool, events).value.index != index && NextPlacement(pool, events).value.len == byteLen
    decreases |events|
  {
    if events != [] {
      var event, rest := events[0], events[1..];
      assert event in events && forall later <- rest :: later in events;
      if event.Frame? && !event.size.IsEmpty() && event.size.ByteLen().Some? {
        HeldSlotIsSpared(pool, index, byteLen, event.resizes);
      }
      if Step(pool, event).1.None? {
        HeldSlotOutlivesEvents(Step(pool, event).0, rest, index, byteLen);
      }
    }
  }

  ghost predicate Overlap(a: Placement, b: Placement) {
    a.offset < b.offset + b.len && b.offset < a.offset + a.len
  }

  /** The frame just granted keeps its bytes until its slot is released or the frame length changes, under any timing
      of the other slot's releases, of failed resizes and of failed renders. */
  lemma NextFrameSparesThisOne(pool: Pool, frame: Event, events: seq<Event>)
    requires Valid(pool) && frame.Frame? && frame.render != NoDamage
    ensures var (next, placed) := Step(pool, frame);
            placed.Some? && Undisturbed(events, placed.value.index, placed.value.len) ==>
              NextPlacement(next, events).Some? ==> !Overlap(placed.value, NextPlacement(next, events).value)
  {
    var (next, placed) := Step(pool, frame);
    if placed.Some? && Undisturbed(events, placed.value.index, placed.value.len) {
      var granted := placed.value;
      GrantedIsHeld(pool, frame);
      HeldSlotOutlivesEvents(next, events, granted.index, granted.len);
      if NextPlacement(next, events).Some? {
        NextPlacementOffset(next, events);
        DistinctSlotsAreApart(granted, NextPlacement(next, events).value);
      }
    }
  }

  /** What a frame leaves in its slot: a `wl_buffer` exactly when it was drawn, to be released later, and a free slot at
      once when there was no damage.  The other slots do not depend on what the drawing did. */
  lemma SlotAfterFrame(pool: Pool, size: FrameSize, resizes: Resizes, render: Render)
    requires Valid(pool) && Step(pool, Frame(size, resizes, render)).1.Some?
    ensures var (next, placed) := Step(pool, Frame(size, resizes, render));
            var failed := Step(pool, Frame(size, resizes, Failed)).0;
            && placed == Step(pool, Frame(size, resizes, Failed)).1
            && placed.value.index < |next.slots| == |failed.slots|
            && next.slots[placed.value.index] == Slot(render == NoDamage, render == Drawn)
            && forall i | 0 <= i < |next.slots| && i != placed.value.index :: next.slots[i] == failed.slots[i]
  {
    GrantIsInPool(pool, size.ByteLen().value, resizes);
  }

  /** Only frames without damage, and no release of slot `index`. */
  ghost predicate Idle(events: seq<Event>, index: nat, byteLen: nat) {
    Undisturbed(events, index, byteLen) && forall event <- events :: event.Frame? ==> event.render == NoDamage
  }

  lemma IdleFrameKeepsHeld(pool: Pool, index: nat, byteLen: nat, resizes: Resizes)
    requires Held(pool, index, byteLen)
    ensures var (next, grant) := NextBufferSlot(pool, byteLen, resizes);
            if grant.Granted? then grant.index != index && Held(Finished(next, grant.index, NoDamage), index, byteLen)
            else Held(next, index, byteLen)
  {
    HeldSlotIsSpared(pool, index, byteLen, resizes);
    GrantIsInPool(pool, byteLen, resizes);
    KeptUnreleased(pool, index, byteLen, resizes);
  }

  lemma IdleStepKeepsHeld(pool: Pool, event: Event, index: nat, byteLen: nat)
    requires Held(pool, index, byteLen) && Idle([event], index, byteLen)
    ensures Held(Step(pool, event).0, index, byteLen)
    ensures Step(pool, event).1.Some? ==> Step(pool, event).1.value.index != index
  {
    assert event in [event];
    if event.Frame? && !event.size.IsEmpty() && event.size.ByteLen().Some? {
      IdleFrameKeepsHeld(pool, index, byteLen, event.resizes);
    }
  }

  lemma {:induction false} NextPlacementOffset(pool: Pool, events: seq<Event>)
    requires NextPlacement(pool, events).Some?
    ensures var placed := NextPlacement(pool, events).value; placed.offset == placed.index * placed.len
    decreases |events|
  {
    if Step(pool, events[0]).1.None? {
      NextPlacementOffset(Step(pool, events[0]).0, events[1..]);
    }
  }

  lemma DistinctSlotsAreApart(a: Placement, b: Placement)
    requires a.len == b.len && a.index != b.index
    requires a.offset == a.index * a.len && b.offset == b.index * b.len
    ensures !Overlap(a, b)
  {
    if a.index < b.index {
      PlacementFits(a.index, b.index, a.len);
    } else {
      PlacementFits(b.index, a.index, a.len);
    }
  }

  /** The event is given none of the bytes on show. */
  ghost predicate Spares(pool: Pool, event: Event, shown: Placement) {
    var placed := Step(pool, event).1;
    placed.Some? ==> !Overlap(shown, placed.value)
  }

  ghost predicate AllSpare(pool: Pool, events: seq<Event>, shown: Placement) {
    forall k | 0 <= k < |events| :: Spares(Run(pool, events[..k]), events[k], shown)
  }

  lemma OtherSlotSpares(pool: Pool, event: Event, shown: Placement)
    requires Undisturbed([event], shown.index, shown.len) && shown.offset == shown.index * shown.len
    requires Step(pool, event).1.Some? ==> Step(pool, event).1.value.index != shown.index
    ensures Spares(pool, event, shown)
  {
    assert event in [event];
    if Step(pool, event).1.Some? {
      DistinctSlotsAreApart(shown, Step(pool, event).1.value);
    }
  }

  /** A held slot outlives any number of frames without damage and of releases of other slots: it stays held, and
      neither they nor the frame after them are given any of its bytes. */
  lemma {:induction false} HeldSlotOutlivesIdleFrames(pool: Pool, shown: Placement, idle: seq<Event>, next: Event)
    requires Held(pool, shown.index, shown.len) && shown.offset == shown.index * shown.len
    requires Idle(idle, shown.index, shown.len) && Undisturbed([next], shown.index, shown.len)
    ensures Held(Run(pool, idle), shown.index, shown.len)
    ensures AllSpare(pool, idle, shown) && Spares(Run(pool, idle), next, shown)
    decreases |idle|
  {
    if idle == [] {
      HeldSlotOutlivesEvents(pool, [next], shown.index, shown.len);
      OtherSlotSpares(pool, next, shown);
    } else {
      var first, rest := idle[0], idle[1..];
      assert first in idle && forall event <- rest :: event in idle;
      IdleStepKeepsHeld(pool, first, shown.index, shown.len);
      OtherSlotSpares(pool, first, shown);
      HeldSlotOutlivesIdleFrames(Step(pool, first).0, shown, rest, next);
      forall k | 0 < k < |idle| ensures Spares(Run(pool, idle[..k]), idle[k], shown) {
        assert idle[..k][1..] == rest[..k - 1];
      }
    }
  }

  lemma GrantedIsHeld(pool: Pool, frame: Event)
    requires Valid(pool) && frame.Frame? && frame.render != NoDamage && Step(pool, frame).1.Some?
    ensures var shown := Step(pool, frame).1.value;
            Held(Step(pool, frame).0, shown.index, shown.len) && shown.offset == shown.index * shown.len
  {
    GrantIsInPool(pool, Step(pool, frame).1.value.len, frame.resizes);
  }

  /** So it is with the frame on show. */
  lemma ShownFrameOutlivesIdleFrames(pool: Pool, frame: Event, idle: seq<Event>, next: Event)
    requires Valid(pool) && frame.Frame? && frame.render != NoDamage && Step(pool, frame).1.Some?
    requires var shown := Step(pool, frame).1.value;
             Idle(idle, shown.index, shown.len) && Undisturbed([next], shown.index, shown.len)
    ensures var after, shown := Step(pool, frame).0, Step(pool, frame).1.value;
            // Compared with true to keep the predicates whole for the solver.
            AllSpare(after, idle, shown) == true && Spares(Run(after, idle), next, shown) == true
  {
    GrantedIsHeld(pool, frame);
    HeldSlotOutlivesIdleFrames(Step(pool, frame).0, Step(pool, frame).1.value, idle, next);
  }

  /** So drawn, without damage, drawn: the third frame takes the second slot, and not the bytes on show. */
  lemma NoDamageCostsNothing(resizes: Resizes)
    requires resizes.AllOk()
    ensures var drawn, same := Frame(FrameSize(1, 1), resizes, Drawn), Frame(FrameSize(1, 1), resizes, NoDamage);
            var one := Step(NewPool(4, 0), drawn).0;
            && Step(one, same).1 == Some(Placement(1, 4, 4))
            && Step(Step(one, same).0, drawn).1 == Some(Placement(1, 4, 4))
  {
    var drawn, same := Frame(FrameSize(1, 1), resizes, Drawn), Frame(FrameSize(1, 1), resizes, NoDamage);
    var one := Step(NewPool(4, 0), drawn).0;
    FirstSlot(NewPool(4, 0), 4, resizes);
    StepIsSafe(NewPool(4, 0), drawn);
    assert Held(one, 0, 4);
    IdleStepKeepsHeld(one, same, 0, 4);
    SecondIsGranted(one, 4, resizes);
    SecondIsGranted(Step(one, same).0, 4, resizes);
  }

  lemma SecondIsGranted(pool: Pool, byteLen: nat, resizes: Resizes)
    requires Held(pool, 0, byteLen) && resizes.AllOk() && 2 * byteLen <= I32_MAX
    ensures NextBufferSlot(pool, byteLen, resizes).1 == Granted(1)
  {
    GrantIff(pool, byteLen, resizes);
    HeldSlotIsSpared(pool, 0, byteLen, resizes);
    GrantIsInPool(pool, byteLen, resizes);
  }

  /** A change of length drops every slot without waiting for releases, so the guarantee ends there: the new frame
      takes the front of the pool and overwrites the old one unless the old one lies beyond it. */
  lemma LengthChangeOverlapsIff(pool: Pool, held: Placement, byteLen: nat, resizes: Resizes)
    requires Valid(pool) && pool.slotLen == held.len != byteLen && byteLen > 0 && held.len > 0
    requires held.offset == held.index * held.len
    requires NextBufferSlot(pool, byteLen, resizes).1.Granted?
    ensures NextBufferSlot(pool, byteLen, resizes).1 == Granted(0)
    ensures Overlap(held, Placement(0, 0, byteLen)) <==> held.index * held.len < byteLen
  {
  }

  /** As here: a frame of two pixels overwrites the unreleased frame of one pixel that is on show. */
  lemma LengthChangeOverwrites(resizes: Resizes)
    requires resizes.AllOk()
    ensures var (shown, first) := Step(NewPool(4, 0), Frame(FrameSize(1, 1), resizes, Drawn));
            && first == Some(Placement(0, 0, 4)) && shown.slots == [Slot(false, true)]
            && Step(shown, Frame(FrameSize(2, 1), resizes, Drawn)).1 == Some(Placement(0, 0, 8))
            && Overlap(Placement(0, 0, 4), Placement(0, 0, 8))
  {
    FirstSlot(NewPool(4, 0), 4, resizes);
    var shown := Step(NewPool(4, 0), Frame(FrameSize(1, 1), resizes, Drawn)).0;
    StepIsSafe(NewPool(4, 0), Frame(FrameSize(1, 1), resizes, Drawn));
    GrantIff(shown, 8, resizes);
    LengthChangeOverlapsIff(shown, Placement(0, 0, 4), 8, resizes);
  }

  lemma FirstSlot(pool: Pool, byteLen: nat, resizes: Resizes)
    requires resizes.AllOk() && pool.slotLen == byteLen <= I32_MAX && pool.slots == []
    ensures var (next, grant) := NextBufferSlot(pool, byteLen, resizes);
            grant == Granted(0) && next.slots == [FRESH_SLOT] && next.slotLen == byteLen
  {
  }

  // ---- The frame on show, past the next grant

  /** Releases of any slots but `index`. */
  ghost predicate OtherReleases(events: seq<Event>, index: nat) {
    forall event <- events :: event.Release? && event.index != index
  }

  lemma {:induction false} ReleasesOnlyFlag(pool: Pool, events: seq<Event>, index: nat)
    requires OtherReleases(events, index)
    ensures var after := Run(pool, events);
            && after == pool.(slots := after.slots) && |after.slots| == |pool.slots|
            && forall i | 0 <= i < |pool.slots| ::
                 after.slots[i] == pool.slots[i].(released := pool.slots[i].released || Release(i) in events)
    ensures Release(index) !in events
    decreases |events|
  {
    if events != [] {
      var first, rest := events[0], events[1..];
      assert events == [first] + rest && first in events && forall event <- rest :: event in events;
      ReleasesOnlyFlag(Step(pool, first).0, rest, index);
    }
  }

  /** While slot `index` is on show, unreleased, another frame is granted and keeps its slot (it was drawn, or its
      drawing failed).  The frame after that one takes the slot on show exactly when the other slot has not been
      released in between.  A frame whose drawing failed was never shown, so nothing ever releases its slot:
      the frame on show survives one failed frame, but not the next frame. */
  lemma ShownFrameIsTakenIff(pool: Pool, index: nat, frame: Event, releases: seq<Event>, next: Event)
    requires frame.Frame? && frame.render != NoDamage && Step(pool, frame).1.Some?
    requires Held(pool, index, Step(pool, frame).1.value.len)
    requires OtherReleases(releases, index)
    requires var after := Run(Step(pool, frame).0, releases);
             next.Frame? && next.size == frame.size && Step(after, next).1.Some?
    ensures var (mid, other) := Step(pool, frame);
            other.value.index != index &&
            (Step(Run(mid, releases), next).1.value.index == index <==> Release(other.value.index) !in releases)
  {
    var (mid, other) := Step(pool, frame);
    var byteLen := other.value.len;
    GrantIsInPool(pool, byteLen, frame.resizes);
    HeldSlotIsSpared(pool, index, byteLen, frame.resizes);
    ReleasesOnlyFlag(mid, releases, index);
    OnlyTwoSlots(pool, mid, index, other.value.index, frame);
    TakenInTurn(Run(mid, releases), index, other.value.index, byteLen, next.resizes);
  }

  lemma OnlyTwoSlots(pool: Pool, mid: Pool, index: nat, other: nat, frame: Event)
    requires frame.Frame? && frame.render != NoDamage && Step(pool, frame).1.Some? && Step(pool, frame).0 == mid
    requires Step(pool, frame).1.value.index == other != index && Held(pool, index, Step(pool, frame).1.value.len)
    ensures Valid(mid) && mid.slotLen == pool.slotLen && |mid.slots| == 2 && index < 2 && other < 2
    ensures mid.nextSlot == index && !mid.slots[index].released && !mid.slots[other].released
  {
    GrantIsInPool(pool, pool.slotLen, frame.resizes);
    KeptUnreleased(pool, index, pool.slotLen, frame.resizes);
  }

  lemma KeptUnreleased(pool: Pool, index: nat, byteLen: nat, resizes: Resizes)
    requires Held(pool, index, byteLen)
    ensures var (next, grant) := NextBufferSlot(pool, byteLen, resizes);
            grant.Granted? ==> index < |next.slots| && (grant.index != index ==> next.slots[index] == pool.slots[index])
  {
    GrantIsInPool(pool, byteLen, resizes);
  }

  lemma TakenInTurn(pool: Pool, index: nat, other: nat, byteLen: nat, resizes: Resizes)
    requires Valid(pool) && pool.slotLen == byteLen && |pool.slots| == 2 && index < 2 && other < 2 && index != other
    requires pool.nextSlot == index && !pool.slots[index].released
    requires NextBufferSlot(pool, byteLen, resizes).1.Granted?
    ensures NextBufferSlot(pool, byteLen, resizes).1.index == index <==> !pool.slots[other].released
  {
    UnreleasedSlotIsReclaimedInTurn(pool, byteLen, resizes);
    var kept := PopReleased(pool.slots);
    if !pool.slots[other].released {
      assert kept == pool.slots;
    }
  }

  /** So drawn, failed, drawn: the third frame takes the bytes of the first, which is still on show. */
  lemma FailedFrameCostsTheOneOnShow(resizes: Resizes)
    requires resizes.AllOk()
    ensures var drawn, failed := Frame(FrameSize(1, 1), resizes, Drawn), Frame(FrameSize(1, 1), resizes, Failed);
            var (one, first) := Step(NewPool(4, 0), drawn);
            var (two, second) := Step(one, failed);
            first == Step(two, drawn).1 == Some(Placement(0, 0, 4)) && second == Some(Placement(1, 4, 4))
  {
    var drawn, failed := Frame(FrameSize(1, 1), resizes, Drawn), Frame(FrameSize(1, 1), resizes, Failed);
    var one := Step(NewPool(4, 0), drawn).0;
    FirstSlot(NewPool(4, 0), 4, resizes);
    StepIsSafe(NewPool(4, 0), drawn);
    assert one.slots == [Slot(false, true)] && one.slotLen == 4;
    SecondSlot(one, 4, resizes);
    var two := Step(one, failed).0;
    StepIsSafe(one, failed);
    GrantIff(two, 4, resizes);
    assert Run(two, []) == two;
    ShownFrameIsTakenIff(one, 0, failed, [], drawn);
  }

  lemma SecondSlot(pool: Pool, byteLen: nat, resizes: Resizes)
    requires resizes.AllOk() && pool.slotLen == byteLen && |pool.slots| == 1 && !pool.slots[0].released
    requires 2 * byteLen <= I32_MAX
    ensures var (next, grant) := NextBufferSlot(pool, byteLen, resizes);
            grant == Granted(1) && next.slots == pool.slots + [FRESH_SLOT] && next.slotLen == byteLen
  {
    assert PopReleased(pool.slots) == pool.slots;
    assert FirstReleased(pool.slots) == 1;
  }

  // ---- Progress

  /** The call needs a new slot: there is none yet at this length, or the first is held and a second, if there is one,
      was released and given up. */
  predicate NeedsGrowth(pool: Pool, byteLen: nat) {
    || pool.slotLen != byteLen || pool.slots == []
    || (!pool.slots[0].released && (|pool.slots| == 1 || pool.slots[1].released))
  }

  /** How many slots there are after a new one. */
  function GrownTo(pool: Pool, byteLen: nat): nat {
    if pool.slotLen != byteLen || pool.slots == [] then 1 else 2
  }

  lemma AnswerAtSameLength(pool: Pool, byteLen: nat, resizes: Resizes)
    requires Valid(pool) && pool.slotLen == byteLen && byteLen <= USIZE_MAX
    ensures var grant, needed := NextBufferSlot(pool, byteLen, resizes).1, byteLen * GrownTo(pool, byteLen);
            && (grant.Granted? <==> resizes.onCompact.ok
                                    && (NeedsGrowth(pool, byteLen) ==> needed <= I32_MAX && resizes.onGrow.ok))
            && (grant == InvalidFrameSize <==> resizes.onCompact.ok && NeedsGrowth(pool, byteLen) && needed > I32_MAX)
  {
    var kept := PopReleased(pool.slots);
    FewerSlotsFit(|kept|, |pool.slots|, byteLen);
    if |kept| == 2 {
      assert kept == pool.slots;
    }
  }

  /** Exactly when a call is answered with a slot, and when with the error for a size that does not fit, whatever the
      resizes do. */
  lemma AnswerIff(pool: Pool, byteLen: nat, resizes: Resizes)
    requires Valid(pool) && byteLen <= USIZE_MAX
    ensures var grant, needed := NextBufferSlot(pool, byteLen, resizes).1, byteLen * GrownTo(pool, byteLen);
            var resized := (pool.slotLen != byteLen ==> resizes.onChange.ok) && resizes.onCompact.ok;
            && (grant.Granted? <==> resized && (NeedsGrowth(pool, byteLen) ==> needed <= I32_MAX && resizes.onGrow.ok))
            && (grant == InvalidFrameSize <==> resized && NeedsGrowth(pool, byteLen) && needed > I32_MAX)
  {
    if pool.slotLen == byteLen {
      AnswerAtSameLength(pool, byteLen, resizes);
    }
  }

  /** A pool whose slots have all been released goes back to one slot; otherwise a grant leaves two. */
  lemma SlotsAfterGrant(pool: Pool, byteLen: nat, resizes: Resizes)
    requires Valid(pool) && NextBufferSlot(pool, byteLen, resizes).1.Granted?
    ensures |NextBufferSlot(pool, byteLen, resizes).0.slots|
            == if pool.slotLen != byteLen || (forall slot <- pool.slots :: slot.released) then 1 else 2
  {
    if pool.slotLen == byteLen {
      var kept := PopReleased(pool.slots);
      if |pool.slots| == 2 && kept != pool.slots {
        assert kept == pool.slots[..1] && pool.slots[1].released;
      }
    }
  }

  /** Once its resizes before the growth have succeeded, the pool holds at least one frame, whatever comes of that. */
  lemma OneFrameIsSecured(pool: Pool, byteLen: nat, resizes: Resizes)
    requires Valid(pool) && byteLen <= USIZE_MAX
    requires (pool.slotLen != byteLen ==> resizes.onChange.ok) && resizes.onCompact.ok
    ensures NextBufferSlot(pool, byteLen, resizes).0.capacity >= byteLen
  {
    GrantIsInPool(pool, byteLen, resizes);
    if pool.slotLen == byteLen && pool.slots != [] {
      FewerSlotsFit(1, |pool.slots|, byteLen);
    }
  }

  lemma CompactedCapacity(pool: Pool, byteLen: nat, reply: Resize)
    requires Valid(pool) && pool.slotLen == byteLen && reply.extra == 0 && reply.ok
    requires byteLen * Max(|PopReleased(pool.slots)|, 1) <= USIZE_MAX
    ensures var compacted := Compacted(pool, byteLen, reply);
            compacted.capacity == Max(pool.capacity, byteLen * Max(|compacted.slots|, 1))
  {
  }

  lemma AllocatedCapacity(pool: Pool, byteLen: nat, reply: Resize)
    requires Valid(pool) && pool.slotLen == byteLen && reply.extra == 0 && Allocated(pool, byteLen, reply).1.Granted?
    ensures var next := Allocated(pool, byteLen, reply).0;
            next.capacity == Max(pool.capacity, |next.slots| * byteLen) && |next.slots| >= Max(|pool.slots|, 1)
  {
  }

  lemma GreatestProduct(capacity: nat, fewer: nat, slots: nat, byteLen: nat)
    requires fewer <= slots
    ensures Max(Max(capacity, byteLen * fewer), slots * byteLen) == Max(capacity, slots * byteLen)
  {
    FewerSlotsFit(fewer, slots, byteLen);
  }

  lemma CapacityAtSameLength(pool: Pool, byteLen: nat, onCompact: Resize, onGrow: Resize)
    requires Valid(pool) && pool.slotLen == byteLen && onCompact.extra == onGrow.extra == 0 && onCompact.ok
    requires byteLen * Max(|PopReleased(pool.slots)|, 1) <= USIZE_MAX
    requires Allocated(Compacted(pool, byteLen, onCompact), byteLen, onGrow).1.Granted?
    ensures var next := Allocated(Compacted(pool, byteLen, onCompact), byteLen, onGrow).0;
            next.capacity == Max(pool.capacity, |next.slots| * byteLen) && |next.slots| >= 1
  {
    var compacted := Compacted(pool, byteLen, onCompact);
    CompactedIsValid(pool, byteLen, onCompact);
    CompactedCapacity(pool, byteLen, onCompact);
    AllocatedCapacity(compacted, byteLen, onGrow);
    GreatestProduct(pool.capacity, Max(|compacted.slots|, 1), |Allocated(compacted, byteLen, onGrow).0.slots|, byteLen);
  }

  /** And the shared memory grows no further than its slots need. */
  lemma CapacityAfterGrant(pool: Pool, byteLen: nat, resizes: Resizes)
    requires Valid(pool) && NextBufferSlot(pool, byteLen, resizes).1.Granted?
    requires resizes.onChange.extra == resizes.onCompact.extra == resizes.onGrow.extra == 0
    ensures var next := NextBufferSlot(pool, byteLen, resizes).0;
            next.capacity == Max(pool.capacity, |next.slots| * byteLen)
  {
    var relengthed := Relength(pool, byteLen, resizes.onChange);
    CapacityAtSameLength(relengthed, byteLen, resizes.onCompact, resizes.onGrow);
    GreatestProduct(pool.capacity, 1, |NextBufferSlot(pool, byteLen, resizes).0.slots|, byteLen);
  }

  /** With working resizes a call succeeds exactly when two frames fit, or one fits and no slot is held.
      A single held slot is never reclaimed, however long its release takes. */
  lemma GrantIff(pool: Pool, byteLen: nat, resizes: Resizes)
    requires Valid(pool) && resizes.AllOk()
    ensures NextBufferSlot(pool, byteLen, resizes).1.Granted? <==>
              || 2 * byteLen <= I32_MAX
              || (byteLen <= I32_MAX && (pool.slotLen != byteLen || forall slot <- pool.slots :: slot.released))
  {
    if pool.slotLen == byteLen && pool.slots != [] {
      FewerSlotsFit(1, |pool.slots|, byteLen);
      var kept := PopReleased(pool.slots);
      if |kept| == 2 {
        assert kept[1] in pool.slots;
      } else {
        assert kept[0] == pool.slots[0];
      }
    }
  }

  /** As here: at 16384 by 16384 one frame fits and two do not, and while it is held no other is granted. */
  lemma HeldFrameBlocksTheNext(resizes: Resizes)
    requires resizes.AllOk()
    ensures var size := FrameSize(16384, 16384);
            var (shown, first) := Step(NewPool(0x4000_0000, 0), Frame(size, resizes, Drawn));
            first == Some(Placement(0, 0, 0x4000_0000)) && Step(shown, Frame(size, resizes, Drawn)).1 == None
  {
    var size := FrameSize(16384, 16384);
    var shown := Step(NewPool(0x4000_0000, 0), Frame(size, resizes, Drawn)).0;
    FirstSlot(NewPool(0x4000_0000, 0), 0x4000_0000, resizes);
    StepIsSafe(NewPool(0x4000_0000, 0), Frame(size, resizes, Drawn));
    assert !shown.slots[0].released;
    GrantIff(shown, 0x4000_0000, resizes);
  }

  // ---- The program

  class SurfaceBufferPool {
    var capacity: nat
    var slotLen: nat
    var slots: seq<Slot>
    var nextSlot: nat

    ghost function State(): Pool
      reads this
    {
      Pool(capacity, slotLen, slots, nextSlot)
    }

    constructor (size: FrameSize, extra: nat)
      requires !size.IsEmpty() && size.ByteLen().Some?
      ensures State() == NewPool(size.ByteLen().value, extra)
    {
      slotLen := size.ByteLen().value;
      capacity := size.ByteLen().value + extra;
      slots := [];
      nextSlot := 0;
    }

    /** `new`, with its error returns: an empty or oversized frame, or no shared memory. */
    static method Open(size: FrameSize, created: Resize) returns (pool: SurfaceBufferPool?)
      ensures pool == null <==> size.IsEmpty() || size.ByteLen().None? || !created.ok
      ensures pool != null ==> fresh(pool) && pool.State() == NewPool(size.ByteLen().value, created.extra)
    {
      if size.IsEmpty() || size.ByteLen().None? || !created.ok {
        return null;
      }
      pool := new SurfaceBufferPool(size, created.extra);
    }

    method ResizePool(requested: nat, reply: Resize) returns (ok: bool)
      modifies this`capacity
      ensures ok == reply.ok && capacity == Resized(old(capacity), requested, reply)
    {
      if reply.ok && capacity < requested {
        capacity := requested;
      }
      capacity := capacity + reply.extra;
      ok := reply.ok;
    }

    method CompactReleasedSlots(byteLen: nat, reply: Resize) returns (error: Option<Grant>)
      modifies this
      ensures State() == Compacted(old(State()), byteLen, reply)
      ensures error == if byteLen * Max(|slots|, 1) > USIZE_MAX then Some(InvalidFrameSize)
                       else if !reply.ok then Some(ResizeFailed) else None
    {
      while |slots| > 1 && slots[|slots| - 1].released
        invariant PopReleased(slots) == PopReleased(old(slots))
        invariant capacity == old(capacity) && slotLen == old(slotLen) && nextSlot == old(nextSlot)
      {
        slots := slots[..|slots| - 1];
      }
      if slots != [] {
        nextSlot := nextSlot % |slots|;
      }
      var newLen := byteLen * Max(|slots|, 1);
      if newLen > USIZE_MAX {
        return Some(InvalidFrameSize);
      }
      var ok := ResizePool(newLen, reply);
      error := if ok then None else Some(ResizeFailed);
    }

    method FindReleased() returns (index: nat)
      ensures index == FirstReleased(slots)
    {
      index := 0;
      while index < |slots| && !slots[index].released
        invariant index <= |slots|
        invariant FirstReleased(slots) == index + FirstReleased(slots[index..])
      {
        index := index + 1;
      }
    }

    method NextSlot(byteLen: nat, resizes: Resizes) returns (grant: Grant)
      modifies this
      ensures (State(), grant) == NextBufferSlot(old(State()), byteLen, resizes)
    {
      if slotLen != byteLen {
        slotLen := byteLen;
        slots := [];
        nextSlot := 0;
        var ok := ResizePool(byteLen, resizes.onChange);
        if !ok {
          return ResizeFailed;
        }
      }
      var error := CompactReleasedSlots(byteLen, resizes.onCompact);
      if error.Some? {
        return error.value;
      }
      grant := AllocateSlot(byteLen, resizes.onGrow);
    }

    /** The rest of `next_buffer_slot`, from the search for a released slot on. */
    method AllocateSlot(byteLen: nat, reply: Resize) returns (grant: Grant)
      modifies this
      ensures (State(), grant) == Allocated(old(State()), byteLen, reply)
    {
      var index := FindReleased();
      if index < |slots| {
        HandOut(index);
        return Granted(index);
      }
      if |slots| >= MAX_BUFFER_SLOTS {
        index := nextSlot % |slots|;
        HandOut(index);
        return Granted(index);
      }
      index := |slots|;
      var newLen := byteLen * (index + 1);
      if newLen > USIZE_MAX || newLen > I32_MAX {
        return InvalidFrameSize;
      }
      var ok := ResizePool(newLen, reply);
      if !ok {
        return ResizeFailed;
      }
      slots := slots + [FRESH_SLOT];
      nextSlot := (index + 1) % |slots|;
      return Granted(index);
    }

    method HandOut(index: nat)
      requires index < |slots|
      modifies this`slots, this`nextSlot
      ensures State() == Handed(old(State()), index)
    {
      slots := slots[index := slots[index].(attached := false, released := false)];
      nextSlot := (index + 1) % |slots|;
    }

    /** `mark_released`, run by the event queue. */
    method MarkReleased(index: nat)
      modifies this`slots
      ensures State() == Step(old(State()), Release(index)).0
    {
      if index < |slots| {
        slots := slots[index := slots[index].(released := true)];
      }
    }

    /** `render_buffer_region`; `render_buffer` and `commit_buffer` are the same without `NoDamage`. */
    method RenderBufferRegion(size: FrameSize, resizes: Resizes, render: Render) returns (placed: Option<Placement>)
      requires Valid(State())
      modifies this
      ensures (State(), placed) == Step(old(State()), Frame(size, resizes, render))
      ensures Valid(State()) && capacity >= old(capacity)
    {
      StepIsSafe(State(), Frame(size, resizes, render));
      if size.IsEmpty() || size.ByteLen().None? {
        return None;
      }
      var byteLen := size.ByteLen().value;
      FrameIsSafe(State(), size, byteLen, resizes);
      var grant := NextSlot(byteLen, resizes);
      if !grant.Granted? {
        return None;
      }
      var index := grant.index;
      if render == NoDamage {
        slots := slots[index := slots[index].(released := true)];
      } else if render == Drawn {
        slots := slots[index := slots[index].(attached := true)];
      }
      placed := Some(Placement(index, index * byteLen, byteLen));
    }
  }
}
