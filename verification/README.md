# A verified model of Veila's algorithms

Veila is a Wayland lock screen: a daemon, a lock-screen client and a renderer, written in Rust. This project models the
parts of it that are algorithms rather than plumbing, and proves what they promise. Code that updates state in place is a
class or a method with loops, proved against a function that says what the new state is; the promises are then lemmas
about those functions and about runs of them. Line numbers below refer to the Rust files.

| file | what it models |
|---|---|
| `ConfigValue.dfy`, `ConfigLayers.dfy`, `ConfigOrder.dfy`, `ConfigReading.dfy` | TOML trees, their recursive merge, the layers of a configuration with two spellings per setting, which source a setting comes from, and what is read |
| `ConfigSchema.dfy` | the unknown-key check, and why checking each source covers the merged document |
| `SurfaceBufferPool.dfy`, `FrameSize.dfy` | the two-slot shared-memory frame allocator |
| `Shuffle.dfy`, `BackgroundSelection.dfy`, `MixedSelection.dfy`, `Slideshow.dfy` | the wallpaper choosers of the daemon and of the lock screen |
| `RenderCacheKey.dfy`, `RenderCachePrune.dfy`, `RenderCache.dfy`, `Printing.dfy` | the render cache: names, format, eviction, and the partial map they amount to |
| `RenderCacheFiles.dfy`, `RenderCacheOverlap.dfy` | its stores step by step, several at once, through one temporary name; whole stores are runs of these steps |
| `Scaling.dfy`, `ImageBlit.dfy`, `Arithmetic.dfy` | scaling and cropping arithmetic, centred and tiled copies |
| `PixelBuffer.dfy`, `Bytes.dfy` | premultiplied compositing, dimming, tinting and PNG export |
| `BoundedLine.dfy` | the two bounded line readers of the IPC sockets |
| `AuthBackoff.dfy` | password attempts and their back-off |
| `AutoReload.dfy` | the debounced file watcher |
| `PowerButtons.dfy`, `Options.dfy` | pointer handling and two-click power confirmation |

Clock readings, random draws, file stamps, answers of the file system and of `RawPool::resize`, and hit tests are
parameters: every theorem holds whatever they are.

## Where the code does not keep a promise

Each of these has an exact condition and an input that fails it among the lemmas below.

- `avatar_radius` has a flat and a nested spelling but no row in the mapping table, so a later layer's flat value loses to an
  older nested one (`FlatAvatarRadiusIsIgnoredIff`, `AvatarRadiusIsLost`). The section `input`, as a table, is read with its
  own defaults and never with the flat spellings, although a layer's flat `input_*` clears the older nested setting: a user
  file that sets `input_width = 400` is read as 310 (`InputReadsAsSetIff`, `FlatInputWidthIsNotRead`). A layer that sets a
  section to a scalar, as `visuals.input = "#fff"` does, drops every nested setting of that section (`LayerWinsIff`,
  `LastWriterWinsIff`, `SectionAsColorDropsSettings`).
- Merging is associative only while no non-table layer separates two tables the third of which is incomplete
  (`MergeAssociativeIff`, `MergeNotAssociative`).
- At a new frame length the allocator drops both slots unreleased and the new frame may overwrite the one on show
  (`LengthChangeOverlapsIff`, `LengthChangeOverwrites`). A frame whose drawing failed holds a slot that nothing releases, so
  the frame after it overwrites the one on show (`ShownFrameIsTakenIff`, `FailedFrameCostsTheOneOnShow`). When two frames do
  not fit below `i32::MAX`, a held slot is never reclaimed and no frame is granted until its release (`GrantIff`,
  `HeldFrameBlocksTheNext`).
- Two stores of one picture that overlap, as the prewarming helper and the lock screen can make them, let a load fail or
  return zeros for part of the picture. A store can begin without such harm exactly when the others of its picture under way
  have written nothing yet, write the same pixels and still have their temporary name (`MayBeginIff`, `OverlapCutsShort`,
  `OverlapLeavesHole`).
- A lock screen that exits under an authentication attempt and is restarted, or a fingerprint that matches under one while
  the session stays locked, lets a second attempt start beside the first (`NeverTwoAttemptsIff`, `TwoAttemptsAtOnce`). Both
  also forget the back-off (`RejectionIsKeptIff`, `ResetForgetsTheWait`), and two attempts at once can be rejected without
  the waits adding up (`WaitsAddUpIff`, `WaitsRunTogether`).
- The slideshow shows the current wallpaper again at the end of each walk, and what it preloads there is not what comes
  next (`AdvanceRepeatsIff`, `PreloadIsNextIff`, `SecondChangeRepeats`).
- The shuffle bag repeats a wallpaper when ordered locks are mixed in (`RandomLockRepeatsIff`, `OrderedLockRepeatsIff`,
  `MixedOrdersRepeatIff`, `SomeShuffleRepeats`).
- A covering image whose free side reaches 2^32 is cut by the cast, down to no height at all for one pixel by 65536 on a
  canvas of 65536 by one (`CoverCoversIff`, `CoverCanVanish`).
- The short cut for transparent pixels differs from the blend formula on pixels that are not premultiplied
  (`ShortCutsAgreeIff`, `ShortCutDropsColor`).

## Model

| member | source | states |
|---|---|---|
| ConfigValue.MergeTomlValues | crates/common/src/config/mod.rs:574-588 | the key-by-key loop, in any order of the override's keys, computes the pointwise recursive merge |
| ConfigValue.MergeAbsorbs | crates/common/src/config/mod.rs:574-588 | laying the same document on a second time changes nothing |
| ConfigValue.SubsumedIffMergeIsOver | crates/common/src/config/mod.rs:574-588 | a merge is just its upper layer exactly when that layer says everything the lower one says |
| ConfigValue.MergeAssociativeIff | crates/common/src/config/mod.rs:574-588 | left-to-right merging agrees with merging the later two first exactly when no table is cut off by a non-table on a common path and not repeated above |
| ConfigValue.MergeNotAssociative | crates/common/src/config/mod.rs:574-588 | three documents for which the two groupings differ |
| ConfigLayers.ApplyLegacyVisualOverridePrecedence | crates/common/src/config/mod.rs:501-521 | the loop over the mapping table removes exactly the older nested settings a layer's flat ones replace |
| ConfigLayers.MergeConfigLayer | crates/common/src/config/mod.rs:488-491 | one layer: the pre-pass, then the merge |
| ConfigLayers.SpellingsAfterLayer | crates/common/src/config/mod.rs:488-521 | both spellings of any setting after a layer, in terms of both spellings below it and in it |
| ConfigLayers.LayerWinsIff | crates/common/src/config/mod.rs:488-521 | for all documents, settings and mapping tables, what a layer says of a setting is what the merged document says, nested spelling before flat, exactly when the layer does not lose it, in one of three listed ways |
| ConfigLayers.SpellingsAfterLayers | crates/common/src/config/mod.rs:488-588 | both spellings in the merged document after any stack, from its layers alone |
| ConfigLayers.LastWriterWins | crates/common/src/config/mod.rs:488-588 | over any list of layers whose sections are tables, the merged document says of a mapped setting what the last layer that sets either spelling says, nested preferred inside a layer |
| ConfigLayers.LastWriterWinsIff | crates/common/src/config/mod.rs:488-588 | over a stack of any shape, any setting and any mapping table, the merged document says what the last setter says exactly under a condition on the layers alone: no later layer overwrites or drops the spelling it uses, and no older nested one beats its flat one |
| ConfigLayers.MappingRowsAreDistinct | crates/common/src/config/mod.rs:523-572 | in the program's table no nested setting belongs to two flat ones, which last-writer-wins rests on |
| ConfigLayers.AvatarRadiusIsUnmapped | crates/common/src/config/mod.rs:523-572 | no row clears the nested `avatar.radius` |
| ConfigLayers.FlatAvatarRadiusIsIgnoredIff | crates/common/src/config/visuals/identity.rs:123-128 | a later flat `avatar_radius` is ignored exactly when an older layer left a different nested one |
| ConfigLayers.AvatarRadiusIsLost | crates/common/src/config/visuals/identity.rs:123-128 | a theme and a user file for which it is |
| ConfigLayers.SectionAsColorDropsSettings | crates/common/src/config/visuals/input.rs:5-10 | a theme and a user file for which setting a section to a colour drops a setting it does not mention |
| ConfigLayers.FromTomlStrWithThemeSupport | crates/common/src/config/mod.rs:142-169 | the loader lays theme (or bundled default), includes and user file on the defaults, in that order, and strips the loader's own keys |
| ConfigLayers.OtherSettingComesFrom | crates/common/src/config/mod.rs:142-169 | any setting of a section other than `visuals` comes from the user's file, else from the last include that sets it, else from the theme (the bundled one only if none is named), else from the defaults |
| ConfigLayers.LoadedHasNoMetadata | crates/common/src/config/mod.rs:164-166 | the loaded configuration has neither a `theme` nor an `include` key |
| ConfigLayers.MergeIncludes | crates/common/src/config/mod.rs:159-163 | the includes that exist are laid on in list order, each without its own metadata |
| ConfigReading.InputReadsAsSetIff | crates/common/src/config/visuals/input.rs:133-229 | a setting of `input` is read as its last setter says exactly when that setter's nested spelling stands, or the section ends up a colour and the last setter stands, or the value is the default anyway; from the layers alone |
| ConfigReading.SectionAfterLayers | crates/common/src/config/mod.rs:488-588 | whether a section ends up a table is decided by the last layer that mentions it |
| ConfigReading.LoadedSettingComesFromTheTopIff | crates/common/src/config/mod.rs:142-169 | exactly when the loaded configuration reads a mapped setting from the topmost source that sets it, for all 44 rows and stacks of any shape |
| ConfigReading.LoadedSettingComesFromTheTop | crates/common/src/config/mod.rs:142-169 | it always does for the 34 settings outside `input`, while sections are tables |
| ConfigReading.MappedSettingComesFrom | crates/common/src/config/mod.rs:142-169 | the same order of sources, spelled out, for all 44 mapped settings in the merged document, which is what is read of the 34 outside `input` |
| ConfigReading.MappedIffFallback | crates/common/src/config/mod.rs:523-572 | the mapping table has a row for every flat spelling an accessor falls back on, but for `avatar_radius`, and no other row |
| ConfigReading.FlatInputWidthIsNotRead | crates/common/src/config/visuals/input.rs:18-67 | a user file whose `input_width = 400` is read as 310 over the defaults |
| ConfigSchema.ValidateTable | crates/common/src/config/validation/schema.rs:33-58 | the walk appends one issue for each topmost unknown key, each once, with its printed path, and nothing else |
| ConfigSchema.ValidateSchema | crates/common/src/config/validation/schema.rs:60-87 | the same below one known key, for every kind of schema |
| ConfigSchema.ValidateItems | crates/common/src/config/validation/schema.rs:71-85 | the same for every item of an array of tables |
| ConfigSchema.UnknownKeyIssues | crates/common/src/config/validation/schema.rs:23-31 | each topmost unknown key of a source is reported once with its printed path, and nothing exactly when there is none |
| ConfigSchema.FindRule | crates/common/src/config/validation/schema.rs:33-58 | the rule found is the first of that name, and none is found exactly when there is none |
| ConfigSchema.PrintedPush | crates/common/src/config/validation/schema.rs:71-95 | a printed path sets off each further key by a dot and each index by brackets, whatever comes before |
| ConfigSchema.MergedTableUnknowns | crates/common/src/config/mod.rs:574-588 | for any schema, unknown keys of a merge are unknown keys of one of its parts, and all of the upper part's remain |
| ConfigSchema.LayerUnknowns | crates/common/src/config/mod.rs:488-521 | the same for a whole layer with its pre-pass, which only removes keys |
| ConfigSchema.CleanSourcesMergeClean | crates/common/src/config/mod.rs:488-588 | sources that pass the check one by one merge to a document that passes it |
| ConfigSchema.LoadedConfigIsClean | crates/common/src/config/mod.rs:142-169 | so does the whole load: theme, includes and user file on clean defaults |
| SurfaceBufferPools.SurfaceBufferPool.Open | crates/renderer/src/shm.rs:52-60 | a pool is created empty, or not at all for an empty or oversized frame or a refused allocation |
| SurfaceBufferPools.SurfaceBufferPool.CompactReleasedSlots | crates/renderer/src/shm.rs:260-279 | the popping loop leaves the slots up to the last held one (never none), with the next slot and capacity to match |
| SurfaceBufferPools.SurfaceBufferPool.FindReleased | crates/renderer/src/shm.rs:225-230 | the first released slot, if any |
| SurfaceBufferPools.SurfaceBufferPool.AllocateSlot | crates/renderer/src/shm.rs:225-257 | reuse, forced reclaim or growth, with both error returns and the state they leave |
| SurfaceBufferPools.SurfaceBufferPool.NextSlot | crates/renderer/src/shm.rs:215-258 | the whole of slot selection is the specified transition |
| SurfaceBufferPools.SurfaceBufferPool.RenderBufferRegion | crates/renderer/src/shm.rs:152-205 | a frame, whether drawn, failed or undamaged, is the specified transition, keeps the memory invariant and never shrinks the pool |
| SurfaceBufferPools.SurfaceBufferPool.MarkReleased | crates/renderer/src/shm.rs:36-40 | a release flips one flag and nothing else |
| SurfaceBufferPools.StepIsSafe | crates/renderer/src/shm.rs:62-103 | every event keeps the invariant, and every granted byte range lies in the pool and below `i32::MAX`, so the casts are exact |
| SurfaceBufferPools.RunIsSafe | crates/renderer/src/shm.rs:52-279 | the invariant holds after any run of releases, frames of any sizes, refused resizes and failed renders |
| SurfaceBufferPools.UnreleasedSlotIsReclaimedInTurn | crates/renderer/src/shm.rs:237-245 | an unreleased slot is handed out only when both are held, and then the one in turn |
| SurfaceBufferPools.HeldSlotOutlivesEvents | crates/renderer/src/shm.rs:215-279 | a slot that is held and not in turn is not the next one handed out, whatever happens in between |
| SurfaceBufferPools.NextFrameSparesThisOne | crates/renderer/src/shm.rs:215-279 | the next frame at the same length never overlaps the one just granted unless that one was released, under any timing |
| SurfaceBufferPools.SlotAfterFrame | crates/renderer/src/shm.rs:152-205 | the slot of a frame is free again at once exactly when there was no damage, and has a buffer exactly when it was drawn; the other slots do not depend on it |
| SurfaceBufferPools.HeldSlotOutlivesIdleFrames | crates/renderer/src/shm.rs:152-205 | a held slot stays held under any number of frames without damage and releases of other slots, and neither they nor the frame after them get its bytes |
| SurfaceBufferPools.ShownFrameOutlivesIdleFrames | crates/renderer/src/shm.rs:152-205 | so the frame on show keeps its bytes through all of these |
| SurfaceBufferPools.NoDamageCostsNothing | crates/renderer/src/shm.rs:179-184 | drawn, without damage, drawn: the third frame takes the second slot |
| SurfaceBufferPools.LengthChangeOverlapsIff | crates/renderer/src/shm.rs:216-221 | at a new length the new frame overwrites the old one exactly when the old one begins before its end |
| SurfaceBufferPools.LengthChangeOverwrites | crates/renderer/src/shm.rs:216-221 | two frames for which it does |
| SurfaceBufferPools.ShownFrameIsTakenIff | crates/renderer/src/shm.rs:223-245 | while one frame is on show, the second frame after it takes its slot exactly when the slot of the first has not been released |
| SurfaceBufferPools.FailedFrameCostsTheOneOnShow | crates/renderer/src/shm.rs:105-129 | drawn, failed, drawn: the third frame takes the bytes of the first, still on show |
| SurfaceBufferPools.GrantIff | crates/renderer/src/shm.rs:215-279 | with working resizes a slot is granted exactly when two frames fit, or one does and none is held |
| SurfaceBufferPools.AnswerIff | crates/renderer/src/shm.rs:215-279 | exactly when a call is answered with a slot, and when with the error for a size that does not fit, whatever each resize answers |
| SurfaceBufferPools.SlotsAfterGrant | crates/renderer/src/shm.rs:260-279 | a pool goes back to one slot exactly when the length changed or all its slots were released |
| SurfaceBufferPools.OneFrameIsSecured | crates/renderer/src/shm.rs:260-279 | once the resizes before a growth have succeeded, the pool holds at least one frame |
| SurfaceBufferPools.CapacityAfterGrant | crates/renderer/src/shm.rs:215-279 | the shared memory grows to exactly what its slots need and never shrinks |
| SurfaceBufferPools.HeldFrameBlocksTheNext | crates/renderer/src/shm.rs:247-253 | a frame size at which a held frame keeps every other from being granted |
| Shuffles.Shuffle | crates/daemon/src/app/state.rs:277-283 | the in-place swapping loop computes the specified shuffle of the array |
| Shuffles.ShuffledPermutes | crates/daemon/src/app/state.rs:277-283 | a shuffle is a permutation, whatever is drawn |
| Shuffles.EveryOrderIsReachable | crates/curtain/src/background/slideshow.rs:134-140 | every permutation is the result of some draws: the swaps themselves shut out no order |
| BackgroundSelections.BackgroundSelectionState.Next | crates/daemon/src/app/state.rs:225-274 | one choice, in either order and with any change of the list, is the specified transition |
| BackgroundSelections.BackgroundSelectionState.Refill | crates/daemon/src/app/state.rs:252-266 | a refill is a shuffle whose head is exchanged if it would repeat the last wallpaper |
| BackgroundSelections.RefilledAvoidsLast | crates/daemon/src/app/state.rs:252-266 | a refilled bag of two or more never begins with the last wallpaper and holds no duplicate |
| BackgroundSelections.RandomRunNeverRepeats | crates/daemon/src/app/state.rs:225-274 | a random-only run never repeats, across refills and replaced lists |
| BackgroundSelections.ConsecutiveRandomWallpapersDiffer | crates/daemon/src/app/state.rs:225-274 | from the start, any two consecutive random wallpapers differ |
| BackgroundSelections.BagIsDrawnInOrder | crates/daemon/src/app/state.rs:249-272 | what is left of the bag comes first, in order |
| BackgroundSelections.EachBlockShowsEveryWallpaper | crates/daemon/src/app/state.rs:225-274 | over one list, each aligned block of draws is a permutation of it |
| MixedSelections.StateIsByTheLocks | crates/daemon/src/app/state.rs:225-274 | over any mix of orders and lists: place in the list, place in the bag and bag, from the locks alone |
| MixedSelections.ShownByTheLocks | crates/daemon/src/app/state.rs:225-274 | an ordered lock shows the list at the number of ordered locks before it, a random one the bag at the number of random ones |
| MixedSelections.RememberedIsListed | crates/daemon/src/app/state.rs:225-274 | over any run, empty lists and duplicates included, the remembered wallpaper and those left in the bag are in the current list |
| MixedSelections.RandomLockRepeatsIff | crates/daemon/src/app/state.rs:240-273 | a random lock repeats exactly when it follows an ordered one over the same list, the bag is not used up, and both places name one wallpaper |
| MixedSelections.OrderedLockRepeatsIff | crates/daemon/src/app/state.rs:240-273 | an ordered lock repeats exactly when it follows a random lock or another list and its turn names the wallpaper at that lock's place in its bag or list |
| MixedSelections.RepeatsNeedAChange | crates/daemon/src/app/state.rs:225-274 | in any mixed run two equal wallpapers in a row mean a change of order or list, and a random repeat follows an ordered lock over the same list |
| MixedSelections.MixedOrdersRepeatIff | crates/daemon/src/app/state.rs:240-273 | for every list of two or more and all draws, random, ordered, random shows one wallpaper twice in a row exactly when the first shuffle puts the head of the list first or second |
| MixedSelections.MixedOrdersRepeatTwo | crates/daemon/src/app/state.rs:240-273 | over two wallpapers it always does |
| MixedSelections.SomeShuffleRepeats | crates/daemon/src/app/state.rs:225-274 | for every list of two or more there are draws with which it does |
| BackgroundSelections.OrderedRunCycles | crates/daemon/src/app/state.rs:241-247 | ordered draws cycle through the list from where they stand |
| Slideshows.BackgroundSlideshow.constructor | crates/curtain/src/background/slideshow.rs:19-60 | a loaded slideshow is valid and starts at the wallpaper already on show, if listed |
| Slideshows.BackgroundSlideshow.SlideshowSequence | crates/curtain/src/background/slideshow.rs:110-132 | both loops compute the rotation, or the shuffled rest behind the initial index |
| Slideshows.BackgroundSlideshow.AdvanceAt | crates/curtain/src/background/slideshow.rs:75-88 | an advance is the specified transition and keeps the sequence a permutation with the position inside |
| Slideshows.BackgroundSlideshow.Reset | crates/curtain/src/background/slideshow.rs:103-108 | a reset starts a new walk at the last wallpaper of the old one |
| Slideshows.BackgroundSlideshow.NextPreloadPath | crates/curtain/src/background/slideshow.rs:90-101 | the preloaded path is the next of the walk, or its first at the end |
| Slideshows.SequenceIsPermutation | crates/curtain/src/background/slideshow.rs:110-132 | every sequence is a permutation of all indices that begins with the initial one |
| Slideshows.AdvanceRepeatsIff | crates/curtain/src/background/slideshow.rs:75-88 | a due change shows the same wallpaper again exactly at the end of a walk |
| Slideshows.PreloadIsNextIff | crates/curtain/src/background/slideshow.rs:90-101 | the preloaded wallpaper is the next one shown exactly when no wrap is due |
| Slideshows.SecondChangeRepeats | crates/curtain/src/background/slideshow.rs:75-101 | a loaded slideshow of two wallpapers whose second change shows the current one again, and not the one preloaded |
| Slideshows.FirstChangeDueIff | crates/curtain/src/background/slideshow.rs:19-60 | a loaded slideshow changes from one interval after loading on, exactly if it is timed and has two wallpapers |
| Slideshows.NextChangeDueIff | crates/curtain/src/background/slideshow.rs:75-88 | after a change the next is due exactly one interval after the poll that made it; a poll before that changes nothing |
| Slideshows.PreloadsIffChangeComes | crates/curtain/src/background/slideshow.rs:90-101 | over any run from load on, a wallpaper is preloaded exactly while a change is still to come |
| Slideshows.EachWalkCoversAll | crates/curtain/src/background/slideshow.rs:75-132 | whatever the polls and draws, each block of entries covers every wallpaper once |
| Slideshows.OrderedAppearances | crates/curtain/src/background/slideshow.rs:75-132 | in order, the i-th entry is i - i div n places after the first |
| RenderCacheKeys.SourceKeyInjective | crates/renderer/src/background/render_cache.rs:312-442 | the printed key names one source and one size, even when the path holds colons and digits |
| RenderCacheKeys.TreatmentKeyInjective | crates/renderer/src/background/render_cache.rs:212-227 | the second key determines the first hash and the whole treatment |
| RenderCacheKeys.SameNameIffSameRequest | crates/renderer/src/background/render_cache.rs:212-227 | two requests share a file exactly when they ask for the same picture, if the hash keeps their six strings apart |
| RenderCachePruning.PlanConserves | crates/renderer/src/background/render_cache.rs:233-294 | every scanned file and byte is expired, a victim or a survivor |
| RenderCachePruning.ExpiredIff | crates/renderer/src/background/render_cache.rs:259-272 | the first pass takes exactly the files older than the age limit |
| RenderCachePruning.KeptAreFresh | crates/renderer/src/background/render_cache.rs:259-272 | what gets past it is within the age limit |
| RenderCachePruning.IsCacheFileIff | crates/renderer/src/background/render_cache.rs:246-258 | a cache file is one with a stem and the extension `argb` |
| RenderCachePruning.PlanLeaves | crates/renderer/src/background/render_cache.rs:233-294 | a prune leaves every file of another name and no cache file past the age limit, and all those within it if they fit the size limit |
| RenderCachePruning.VictimsAreOldest | crates/renderer/src/background/render_cache.rs:276-290 | no victim is newer than any survivor |
| RenderCachePruning.SurvivorsFitBarely | crates/renderer/src/background/render_cache.rs:275-293 | the survivors fit the limit, and with the last victim they would not |
| RenderCachePruning.ReportConserves | crates/renderer/src/background/render_cache.rs:233-310 | when no removal is refused, bytes scanned are bytes removed, bytes of files that had vanished and bytes retained, and files likewise |
| RenderCachePruning.PruningTwiceIsPruningOnce | crates/renderer/src/background/render_cache.rs:233-294 | a second prune of the directory at the same time removes nothing, in whatever order it is listed |
| RenderCaches.RoundTripIff | crates/renderer/src/background/render_cache.rs:75-111 | a stored buffer reads back as itself exactly when it has the length its size calls for |
| RenderCaches.OtherSizeMisses | crates/renderer/src/background/render_cache.rs:75-111 | a file of another size is a miss |
| RenderCaches.DecodedIff | crates/renderer/src/background/render_cache.rs:75-111 | hit, miss or error, from the bytes of the file: the magic "KWYBG001", width and height least byte first, and enough bytes for the pixels |
| RenderCaches.OnlyWholeFilesHit | crates/renderer/src/background/render_cache.rs:75-111 | no other file of that length or less reads back as the stored buffer |
| RenderCacheFiles.RunRefines | crates/renderer/src/background/render_cache.rs:177-207 | creating, appending and renaming in separate steps, by any number of stores: while stores begin only where they do no harm, each name has the last store completed under it |
| RenderCacheFiles.MayBeginIff | crates/renderer/src/background/render_cache.rs:177-207 | from any state where names hold completed stores, a store does no harm by beginning exactly when every name keeps its last completed store whatever follows |
| RenderCacheFiles.RenameEndsIff | crates/renderer/src/background/render_cache.rs:163-210 | a store that has written everything ends with its rename, and without its temporary name changes nothing |
| RenderCacheFiles.OpenFileStaysAsItIs | crates/renderer/src/background/render_cache.rs:81-110 | a cache file that a load has opened keeps its bytes, whatever stores and removals follow |
| RenderCacheOverlap.LoadReturnsLastCompleted | crates/renderer/src/background/render_cache.rs:75-210 | at any moment between such steps, a load misses because the file is gone or returns the pixels of the last completed store of that picture, as long as stores begin only when they may |
| RenderCacheOverlap.MayBeginIff | crates/renderer/src/background/render_cache.rs:163-210 | a store may begin (the others of its picture under way have written nothing, write the same pixels and still have the temporary name) exactly when no continuation leads to a wrong load |
| RenderCacheOverlap.LoadMayTakeItsTime | crates/renderer/src/background/render_cache.rs:81-110 | a load that has opened the file reads those pixels whatever stores and removals, overlapping or not, come between its reads |
| RenderCacheOverlap.OverlapCutsShort | crates/renderer/src/background/render_cache.rs:177-207 | for every picture, two overlapping stores after which a load fails |
| RenderCacheOverlap.OverlapLeavesHole | crates/renderer/src/background/render_cache.rs:177-207 | for every picture, two overlapping stores after which a load returns zeros for part of it |
| RenderCacheOverlap.EventIsItsSteps | crates/renderer/src/background/render_cache.rs:163-210 | a whole store, completed or broken off, is a run of the single steps |
| RenderCacheOverlap.RunIsItsSteps | crates/renderer/src/background/render_cache.rs:163-210 | a run of whole stores and removals is a run of steps with nothing overlapping, and the same names and bytes |
| RenderCacheOverlap.LoadReturnsLastStored | crates/renderer/src/background/render_cache.rs:75-210 | so after any run of whole stores from an empty cache a load misses because the file is gone, or returns the last buffer stored for that picture |
| RenderCaches.StoreThenLoad | crates/renderer/src/background/render_cache.rs:75-210 | a completed store is what the next load returns |
| RenderCaches.LeftoversAreNeverPruned | crates/renderer/src/background/render_cache.rs:246-258 | cache files have the extension a prune looks for, and temporary ones never do, so what a broken-off store leaves stays |
| RenderCaches.RenderCache.StoreCachedBuffer | crates/renderer/src/background/render_cache.rs:163-210 | writing a temporary file and renaming it is the specified step, wherever it breaks off |
| RenderCaches.RenderCache.LoadCachedBuffer | crates/renderer/src/background/render_cache.rs:75-111 | the header checks decide between hit, miss and error as specified |
| RenderCaches.RenderCache.RemovePrunedFile | crates/renderer/src/background/render_cache.rs:296-310 | a file already gone counts for nothing and is no error; a refused removal changes nothing |
| RenderCaches.RenderCache.RemoveExpired | crates/renderer/src/background/render_cache.rs:246-273 | the first loop removes exactly the expired files and collects the others in listing order |
| RenderCaches.RenderCache.RemoveOldest | crates/renderer/src/background/render_cache.rs:275-293 | the second loop removes exactly the planned victims and reports what is left |
| RenderCaches.RenderCache.PruneRenderCacheAt | crates/renderer/src/background/render_cache.rs:233-294 | a prune leaves the directory without exactly the planned files and reports them, or breaks off having removed only some of them; old cache files are gone, young ones that fit stay, and files of other names always stay |
| Scaling.CoverCoversIff | crates/renderer/src/background/render.rs:273-288 | the scaled image covers the target, one side equal and the other least, exactly when the free side fits `u32`, stated on the four sides without dividing |
| Scaling.CoverCanVanish | crates/renderer/src/background/render.rs:273-288 | an image for which the cast leaves no height |
| Scaling.FitFits | crates/renderer/src/background/render.rs:290-305 | the fitted image has both sides in 1 to the target, one equal and the other greatest, and nothing is cut |
| Scaling.CenteredAxisIsCentered | crates/renderer/src/background/render.rs:319-327 | the centred part lies in both images, is all of one, and its margins differ by at most a pixel |
| Scaling.FillCropIsInside | crates/renderer/src/background/render.rs:36-47 | the crop lies inside the scaled image, centred to the pixel, for empty sizes too |
| ImageBlit.BlitRegion | crates/renderer/src/background/render.rs:329-349 | the rectangle arrives and every other canvas pixel keeps its value |
| ImageBlit.RenderImageCenter | crates/renderer/src/background/render.rs:62-66 | each canvas pixel is the centred image's pixel or the fallback |
| ImageBlit.RenderImageTile | crates/renderer/src/background/render.rs:68-92 | each canvas pixel is the image pixel at its coordinates modulo the image's sides; both loops end in bounds |
| ImageBlit.CounterFitsIff | crates/renderer/src/background/render.rs:73-89 | the `u32` counters of those loops never overflow exactly when the far edge, rounded up to whole tiles, fits; canvas plus tile fitting is enough |
| PixelBuffers.BlendKeepsPremultiplied | crates/renderer/src/lib.rs:341-361 | blending premultiplied pixels gives a premultiplied pixel and the clamps never fire |
| PixelBuffers.ShortCutsAgreeIff | crates/renderer/src/lib.rs:341-361 | the short cuts equal the general formula exactly when a transparent source adds nothing that still fits |
| PixelBuffers.ShortCutDropsColor | crates/renderer/src/lib.rs:341-361 | a pixel for which they differ |
| PixelBuffers.OpaqueStaysOpaque | crates/renderer/src/lib.rs:341-361 | an opaque pixel stays opaque under any source |
| PixelBuffers.TintIsBlend | crates/renderer/src/background/treatment.rs:15-37 | the tinting loop's own formula is a blend with the tint |
| PixelBuffers.DimmedIsDarker | crates/renderer/src/background/treatment.rs:4-32 | dimming never brightens, keeps alpha, and is black from 100 percent on |
| PixelBuffers.DimmedIsProportional | crates/renderer/src/background/treatment.rs:4-32 | dimming by p percent leaves each channel within one of its (100 - p) percent |
| PixelBuffers.CompositingKeepsPremultiplied | crates/renderer/src/lib.rs:152-176 | any sequence of clears, blends, dims and tints keeps each colour byte at or below its alpha |
| PixelBuffers.CompositingKeepsOpaque | crates/renderer/src/lib.rs:152-176 | an opaque buffer stays opaque under any such sequence without a translucent clear |
| PixelBuffers.CompositedPixelwise | crates/renderer/src/lib.rs:152-176 | any sequence of operations works on each pixel alone, and an overlay of another size changes nothing |
| PixelBuffers.ChannelRoundTripIff | crates/renderer/src/lib.rs:363-369 | a channel survives unpremultiplying and premultiplying exactly when it does not exceed its alpha |
| PixelBuffers.ExportRoundTripIff | crates/renderer/src/lib.rs:271-298 | an exported pixel drawn again is the same bytes exactly when it is premultiplied |
| PixelBuffers.UnpremultiplyRounds | crates/renderer/src/lib.rs:363-369 | unpremultiplying divides to the nearest and stops at 255 |
| PixelBuffers.ExportedAlpha | crates/renderer/src/lib.rs:271-298 | exporting keeps alpha and drops the colour of a transparent pixel |
| PixelBuffers.SoftwareBuffer.ClearTo | crates/renderer/src/lib.rs:152-157 | the clearing loop sets every four bytes to the premultiplied blue, green, red and the alpha |
| PixelBuffers.SoftwareBuffer.Blend | crates/renderer/src/lib.rs:159-176 | the loop blends pixel by pixel, or reports a size mismatch and changes nothing |
| PixelBuffers.SoftwareBuffer.ApplyTreatment | crates/renderer/src/background/treatment.rs:4-27 | the in-place loops dim, then tint, every pixel |
| PixelBuffers.SoftwareBuffer.SavePng | crates/renderer/src/lib.rs:271-298 | the exported colours redraw the buffer exactly when it is premultiplied throughout |
| BoundedLines.FirstLineIff | crates/daemon/src/adapters/ipc.rs:257-286 | a line is returned exactly when its newline sits at index 64 KiB or before and it is UTF-8 |
| BoundedLines.FirstLineErrors | crates/daemon/src/adapters/ipc.rs:257-286 | which error comes back instead, from the bytes and the way the stream ends |
| BoundedLines.ReadBoundedLine | crates/daemon/src/adapters/ipc.rs:257-286 | the result is a function of the stream's bytes, however they are split into reads |
| BoundedLines.ReadBufferedLine | crates/curtain/src/ipc/auth.rs:166-195 | the same function of the bytes, and on a line exactly it and its newline are consumed |
| AuthBackoff.SaturationIsUnobservable | crates/daemon/src/domain/auth.rs:33-38 | the saturating counter and product give the same waits as unbounded ones |
| AuthBackoff.DelaysGrow | crates/daemon/src/domain/auth.rs:23-38 | waits start at the base, never shrink and never exceed the maximum |
| AuthBackoff.WaitsDouble | crates/daemon/src/domain/auth.rs:17-38 | the first wait is the base, at least a millisecond; each further one is twice the one before or the maximum, if that is less, up to the seventeenth, and the same from then on |
| AuthBackoff.DeadlinesDouble | crates/daemon/src/domain/auth.rs:97-101 | and so are the deadlines of failures in a row |
| AuthBackoff.RunTracks | crates/daemon/src/domain/auth.rs:60-102 | over any run at all, counter, policy and deadline are those of the failures in a row since the last success, match or renewal, and of the last of them |
| AuthBackoff.RateLimitedIff | crates/daemon/src/domain/auth.rs:73-89 | over any run, a submission is turned away exactly while nothing is in flight and the wait of the last failure lasts, and is told what is left of it |
| AuthBackoff.AttemptAfterFailuresWaits | crates/daemon/src/domain/auth.rs:73-101 | after k failures in a row, each but the first of an attempt in flight, the next attempt starts no earlier than the sum of the k waits after the first, reloads under the lock included |
| AuthBackoff.WaitsAddUpIff | crates/daemon/src/domain/auth.rs:73-101 | over any run, it does exactly when an attempt is in flight or the last rejection came no sooner than the waits before it add up |
| AuthBackoff.WaitsRunTogether | crates/daemon/src/app/fingerprint.rs:104-109 | a run in which it does not: after a match two attempts are under way and both are rejected |
| AuthBackoff.OutstandingAreInFlightOrLost | crates/daemon/src/app/runtime/auth.rs:65-84 | over any run, attempts begun less answers had are the one in flight and those abandoned by a renewal or a match, less the answers that came with none in flight |
| AuthBackoff.OneAttemptAtATime | crates/daemon/src/app/runtime/auth.rs:65-84 | one attempt is outstanding while one is in flight and none otherwise, if no renewal or match comes under one |
| AuthBackoff.NeverTwoAttemptsIff | crates/daemon/src/app/runtime/auth.rs:65-84 | there are never two outstanding at any point of a run exactly when none is started while an abandoned one is not made up for |
| AuthBackoff.TwoAttemptsAtOnce | crates/daemon/src/app/events/lifecycle.rs:158-203 | runs with two: submit, then a reset or a match, then submit |
| AuthBackoff.RejectionIsKeptIff | crates/daemon/src/app/runtime/state.rs:66-85 | after a rejection anywhere in a run, and until its wait ends, passwords are turned away exactly if no event since renews the state or reports a success or match |
| AuthBackoff.ResetForgetsTheWait | crates/daemon/src/app/runtime/state.rs:66-85 | a password that must wait after a rejection is admitted at once after a reset |
| AuthBackoff.WaitEndsOnTime | crates/daemon/src/domain/auth.rs:97-101 | after a failure the next attempt is admitted exactly from the end of the wait on |
| AuthBackoff.AuthState.SubmitPassword | crates/daemon/src/app/runtime/auth.rs:62-84 | admission and start of an attempt, and the error of a missing answer channel, which starts none |
| AuthBackoff.AuthState.FinishSuccess | crates/daemon/src/domain/auth.rs:91-95 | a success, or a match, clears counter, wait and flight |
| AuthBackoff.AuthState.FinishFailure | crates/daemon/src/domain/auth.rs:97-101 | a failure counts up, saturating, and sets the wait by the new count |
| AuthBackoff.AuthState.ApplyReload | crates/daemon/src/app/helpers.rs:231-238 | a reload starts anew with the new policy only when no lock is active |
| AutoReload.EffectiveDebounce | crates/daemon/src/app/watch.rs:197-203 | the debounce time is the one from 250 to 5000 ms nearest to the configured one |
| AutoReload.ChangeIsSeenOnce | crates/daemon/src/app/watch.rs:97-195 | polling again before the disk changes finds nothing new |
| AutoReload.ObservedByThePolls | crates/daemon/src/app/watch.rs:97-225 | what every poll of a watcher observes, from the polls alone: the first of include, theme, wallpaper and configuration whose stamp differs from when it was last looked at or taken up |
| AutoReload.EditIsNoticed | crates/daemon/src/app/watch.rs:97-225 | an edit between two polls of the same files is noticed by the second, and without auto-reload only one of the configuration is |
| AutoReload.PendingIsWaiting | crates/daemon/src/app/watch.rs:97-160 | pending kind and deadline are set together, and are those of the last observed change exactly while it waits |
| AutoReload.FiresIff | crates/daemon/src/app/watch.rs:97-160 | a trigger fires at exactly the first quiet poll at or past the last change's deadline, with that change's kind |
| AutoReload.AutoReloadWatcher.SyncTargets | crates/daemon/src/app/watch.rs:162-195 | a path already watched keeps its stamp, a new one starts from its stamp now |
| AutoReload.AutoReloadWatcher.Check | crates/daemon/src/app/watch.rs:104-146 | all stamps are brought up to date and the change reported is include over theme over wallpaper over configuration |
| AutoReload.AutoReloadWatcher.CheckIncludes | crates/daemon/src/app/watch.rs:136-146 | the loop updates every stale include stamp and says whether there was one |
| AutoReload.AutoReloadWatcher.PollOnce | crates/daemon/src/app/watch.rs:97-160 | one poll is the specified transition |
| PowerButtons.RedrawIff | crates/ui/src/shell/pointer.rs:11-171 | a pointer event asks for a redraw exactly when it changes something other than an expired confirmation |
| PowerButtons.PointerOutcome | crates/ui/src/shell/pointer.rs:11-171 | one description of motion, press and release: what is hovered, pressed, selected and shown afterwards, or that the event only revealed the password field |
| PowerButtons.PointerLetsGo | crates/ui/src/shell/pointer.rs:11-61 | while an authentication is in flight, and when the pointer leaves, hover and press are cleared and nothing else changes |
| PowerButtons.ConfirmationIsCurrent | crates/ui/src/shell/pointer.rs:236-245 | no expired confirmation is left by a tick, or by a press or release that is looked at |
| PowerButtons.SecretSwitchedIff | crates/ui/src/shell/pointer.rs:115-171 | a pointer event switches the shown secret exactly when it is a release over the pressed toggle, which goes back to a press the pointer was not seen to leave |
| PowerButtons.ConfirmationIsArmed | crates/ui/src/shell/pointer.rs:213-245 | over any run the recorded confirmation is what the clicks armed, or it is over and gone |
| PowerButtons.RequestIff | crates/ui/src/shell/pointer.rs:115-234 | an event raises a request exactly when it clicks that action's button and the button needs no confirmation or is armed in time |
| PowerButtons.RequestByClicksIff | crates/ui/src/shell/pointer.rs:115-234 | from the events alone: a release over the pressed, enabled button raises its request exactly when it asks for no confirmation, or the click before was on it, raised nothing and is at most five seconds old |
| PowerButtons.RequestedIff | crates/ui/src/shell/pointer.rs:173-234 | the request on record is the last one raised since one was taken |
| PowerButtons.ConfirmedRequestNeedsTwoClicks | crates/ui/src/shell/pointer.rs:115-234 | a confirmed request needs an earlier click on the same action at most 5 s before, with no click on another button between |
| PowerButtons.PressedIff | crates/ui/src/shell/pointer.rs:11-171 | what each event does to a pressed button: exactly which press, keep or let go of it |
| PowerButtons.PressedByPress | crates/ui/src/shell/pointer.rs:11-171 | over any run a pressed button goes back to a press on it, with only events since that keep it pressed |
| PowerButtons.PressedSinceIsPressed | crates/ui/src/shell/pointer.rs:11-171 | and the other way round |
| PowerButtons.RequestNeedsPress | crates/ui/src/shell/pointer.rs:115-150 | whatever raises a request is a release over the button, with no authentication pending, after such a press |
| PowerButtons.ShellState.HandlePointerMotion | crates/ui/src/shell/pointer.rs:11-49 | new state and redraw flag of a motion |
| PowerButtons.ShellState.HandlePointerLeave | crates/ui/src/shell/pointer.rs:51-61 | new state and redraw flag of a leave |
| PowerButtons.ShellState.HandlePointerPress | crates/ui/src/shell/pointer.rs:63-113 | new state and redraw flag of a press |
| PowerButtons.ShellState.HandlePointerRelease | crates/ui/src/shell/pointer.rs:115-171 | new state and redraw flag of a release |
| PowerButtons.ShellState.ActivatePowerButton | crates/ui/src/shell/pointer.rs:213-234 | a click acts, or arms the button for five seconds, or does nothing if it is not an enabled one |
| PowerButtons.ShellState.ClearExpiredPowerConfirmation | crates/ui/src/shell/pointer.rs:236-245 | a confirmation goes exactly when its time is past |
| PowerButtons.ShellState.TakePointerAction | crates/ui/src/shell/pointer.rs:173-177 | the request is handed out once |
| PowerButtons.ShellState.RevealAuth | crates/ui/src/shell/state.rs:548-556 | the password field is revealed exactly when it was hidden and may be |

## Left out

- ConfigValue.MergeTomlValues: Rust's `&mut Value` is an exclusive borrow of one tree, so the slot is passed in and handed
  back; that the update happens in place is not captured. The same holds for the pre-pass and the schema walk's issue list.
- ImageBlit.RenderImageTile: the `u32` loop counters must be able to pass the far edges (canvas plus tile fits `u32` is
  enough), and image sides are at least one, as the decoder gives them; outside that the counters overflow.
- Scaling.FillCropIsInside: only while the covering side fits `u32`; past that the image is cut as `CoverCoversIff` says.
- ConfigLayers.LastWriterWins: sections are tables here; `LastWriterWinsIff` has stacks of any shape. A setting itself is
  never a table in either.
- ConfigReading.InputReadsAsSetIff: values are compared as they are written, so two notations of one colour count as
  different; what the accessors make of a value after finding it is not modelled.
- RenderCacheKeys.SameNameIffSameRequest: `stable_hash` (64-bit FNV-1a) is any function; the theorem assumes that it keeps
  apart the finitely many strings hashed for the requests in play. `Path::display` is taken to print paths faithfully.
- RenderCaches.RenderCache.PruneRenderCacheAt: byte sums are unbounded (the `u64` sums and saturations are not modelled),
  the directory's own read errors and non-files are left out, and a file's metadata does not change during the call.
- RenderCacheOverlap.LoadReturnsLastStored: buffers handed to the cache have the length their size calls for, as every
  `SoftwareBuffer` does; a foreign program that writes into the cache directory is not modelled.
- RenderCacheOverlap.MayBeginIff: each system call is one step, as is the reading of a load's file.
- Shuffles.EveryOrderIsReachable: draws are arbitrary; one 64-bit seed reaches at most 2^64 orders, fewer than there are of
  21 wallpapers.
- SurfaceBufferPools.NextFrameSparesThisOne: release events arrive between calls; the atomic flags inside one call are
  read as one snapshot. Damage rectangles, `wl_buffer` objects and the shared memory itself are not modelled.
- BackgroundSelections.BackgroundSelectionState.Next: the time-seeded xorshift generator is any sequence of draws.
- AuthBackoff.OneAttemptAtATime: an answer comes only if an attempt begun since the last reset is still unanswered (those
  before it go to a dropped channel, crates/daemon/src/app/runtime/state.rs:75-78); a match may come at any time.
- AuthBackoff.AttemptAfterFailuresWaits: the clock is monotone; overflow of `Instant` is not modelled.
- AuthBackoff.OutstandingAreInFlightOrLost: an abandoned attempt that ends unseen still counts as outstanding, and answers
  are counted, not matched with attempts, as the daemon does not compare their numbers.
- PowerButtons.RequestIff: the theme is fixed during a run, and hit tests are functions of the position that are not
  interpreted.
- BoundedLines.FirstLineIff: the UTF-8 test is a parameter.
- PixelBuffers.CompositingKeepsPremultiplied: the image path (crates/renderer/src/background/render.rs:25-31) copies pixels
  without premultiplying, so it is not one of the operations; `copy_rect_from` copies bytes and is left out.
- Gradients, blobs, blur and resize filters: `f32` arithmetic, where rounding is the point.
- TOML, serde and path expansion: the model starts from parsed trees and lists, and load errors end the load.
- The lock and unlock protocol, D-Bus, PAM, Wayland objects, weather, media and battery: input and output.
- Suspend, screen-off, key-repeat and resume timers, widget formatting and accessors: settled by reading a few branches.
