# Cache Cat, verified

A Dafny model of the parts of Cache Cat in which correctness is least obvious,
with proofs about every input, every interleaving and every reachable state.

* **Expiry.** The eight-level, 256-slot time wheel of `mocha/mod.rs` as a class
  over an array of slots, proved to be a plain bag of (key, expiry) pairs
  (`TimeWheel.dfy`). The cache around it - concurrent map, FIFO command queue,
  worker, logical clock - as a step system in which every shared access is one
  event (`CacheModel.dfy`). Its invariant is in `CacheSafety.dfy`. Its
  refinement to a plain map filtered by time is in `CacheRefinement.dfy`, the
  answers of operations that take several steps are in `CacheAnswers.dfy`, and
  what an answered `AdvanceAndWait` or `HasExpired` guarantees is in
  `CacheExpiry.dfy`. `CacheLifetime.dfy` says how long an entry lives,
  `CacheProgress.dfy` that the worker always gets its work done.
  `ExpireWorker.dfy` runs the worker's commands to completion over the real
  wheel. `CacheKeys.dfy` is KEYS.
* **RESP.** The two-phase decoder (`Resp.dfy`) is proved equal to a one-pass
  reader, stable under appended bytes, and to accept exactly the frames of a
  grammar (`RespProofs.dfy`). `RespStream.dfy` has the stream decoder for arbitrary
  chunks. `RespEncoder.dfy` has the reply encoder for both protocol versions and
  its round trip. `RespExact.dfy` shows that exactly the encodable values survive
  it up to the documented downgrade, and `RespIdentity.dfy` which of them come
  back as themselves. `NumberText.dfy` says which texts are numbers.
* **Bit strings.** `BitString.dfy` views a value as an infinite, zero-extended
  bit string. `BitField.dfy` (BITFIELD), `BitArgs.dfy` (its arguments) and
  `BitPos.dfy` (BITPOS) refine that view.
* **Smaller commands.** `Spop.dfy` (replica-deterministic SPOP), `PubSub.dfy`
  (the two-way subscription index), `Glob.dfy` (both glob matchers) with
  `GlobText.dfy` (what patterns mean), `ListCommands.dfy` (LREM, LTRIM, LRANGE).
* `Machine.dfy`, `Arith.dfy` and `Decimal.dfy` hold machine types, division
  facts and decimal text.

Machine integers are bounded subset types over unbounded integers. Shifts and
masks are written as division and remainder by powers of two. Truncating shifts,
saturating additions, two's complement casts and wrapping negation are written
out. Byte strings stand for `Bytes`, `String` and `Vec<u8>`. Strings keep their
bytes, so lossy UTF-8 conversion is the identity. Doubles are kept as their text.
The logical clock only moves forward because it is set with `fetch_max`
(`cache_cat/src/raft/types/core/mocha/core.rs:84-89`).

## Where the code differs from what one would expect

All but the last two are proved statements, with the exact condition; the last
two are reading notes.

* `get_entry`, `remove_entry`, `set_expire_policy` and `unlink` read the clock
  before they touch the map. Their answer is that of the time-filtered map exactly
  when the entry did not expire in between (`CacheRefinement.AnswersExact`), and a
  batched unlink counts every such entry as well
  (`CacheAnswers.BatchUnlinkExact`). A read answers from the time-filtered map at
  some moment during the read unless the entry it finds was stored during the
  read when already expired, as an unlink does (`CacheAnswers.GetLinearizes`). From any state with two
  idle clients a read can return an entry that was never alive
  (`CacheRefinement.StaleReadRun`).
* `set_expire_policy` can bring a dead entry back in the same way
  (`CacheRefinement.SetExpiryExact`, `CacheRefinement.ResurrectionRun`). The
  function is private and only `cache_cat/src/mocha/test.rs` calls it, so no
  command of the program reaches this race.
* The decoder never looks at the two bytes after a bulk payload
  (`RespFrames.BlobReads`), and takes signs and leading zeros in sizes and counts;
  `RespFrames.DecodeExact` says exactly what it accepts. A simple string survives the wire exactly when it
  holds no CRLF (`RespFrames.LineExact`); `RespExact.RoundTripExact` gives the
  condition for every value and both protocol versions.
* Not every value that is sent comes back as itself. Under RESP3 three different
  nulls are one (`RespIdentity.NullsCollapse`), a verbatim hint is cut or padded
  to three bytes and scores become arrays; RESP2 has no maps, sets, booleans and
  so on. `RespIdentity.IdentityExact` gives the exact condition.
* BITPOS for a clear bit on an empty string answers 0 even in an explicit range,
  where no position is wanted (`BitPos.BitPosMeans`).
* `GlobMatcher` panics on some patterns with an unclosed bracket;
  `Glob.PanicExact` says which.
* LREM with the smallest 64-bit count removes nothing in a build without
  overflow checks, since negating that count overflows
  (`ListCommands.LRemExact`).
* The comment in `keys` says that the read clock hides entries strictly before
  it; the code also hides those equal to it, as `get_with_read_clock` does. The
  model follows the code.
* On a missing key, `execute_compute`
  (`cache_cat/src/raft/types/core/mocha/cas.rs:133-150`) discards the reply of a
  command that aborts and answers with an error instead. The replies modelled
  here for SPOP are those the command itself produces.

## Model

| member | source | states |
|---|---|---|
| WheelDigits.HomePlaced | cache_cat/src/mocha/mod.rs:109-120 | an item that is not yet due is put in a slot that satisfies the placement invariant, for every expiry and time |
| WheelDigits.TickLoosens | cache_cat/src/mocha/mod.rs:152-158 | one tick keeps every placement legal up to the levels whose digit has just changed |
| WheelDigits.CascadeSlot | cache_cat/src/mocha/mod.rs:201-208 | everything in the slot named by the current digit falls within the span that has just begun |
| WheelDigits.CascadeHome | cache_cat/src/mocha/mod.rs:201-208 | re-inserting such an item puts it on a strictly lower level, legally placed |
| WheelDigits.CascadeStops | cache_cat/src/mocha/mod.rs:155-166 | when cascading stops, the current level-0 slot holds exactly what is due now and all else is legally placed |
| WheelDigits.BoundaryNests | cache_cat/src/mocha/mod.rs:155-163 | a time on a level boundary is on every lower boundary, so stopping at the first other level misses nothing |
| TimeWheel.LevelForDelta | cache_cat/src/mocha/mod.rs:210-220 | the level loop finds the level whose span contains the distance, despite the truncating shift of its last round |
| TimerBag.AdvancesMembers | cache_cat/src/mocha/mod.rs:139-176 | advancing splits the scheduled items into fired and kept, and fires only what is due |
| TimerBag.AdvancesUnique | cache_cat/src/mocha/mod.rs:147-150 | what fires and what stays is determined by the bag, so the tick path and the bulk path cannot differ |
| TimerBag.AdvancesCompose | cache_cat/src/mocha/mod.rs:139-199 | two advances in a row are one advance to the later time |
| TimeWheel.HierarchicalTimeWheel.constructor | cache_cat/src/mocha/mod.rs:92-107 | a new wheel is valid, empty and at the given time |
| TimeWheel.HierarchicalTimeWheel.NothingOverdue | cache_cat/src/mocha/mod.rs:109-176 | in a valid wheel every item expires after the current time |
| TimeWheel.HierarchicalTimeWheel.Insert | cache_cat/src/mocha/mod.rs:109-120 | the item is appended to the one slot its expiry and the time determine, the overdue case included; nothing else changes |
| TimeWheel.HierarchicalTimeWheel.Schedule | cache_cat/src/mocha/mod.rs:109-120 | inserting an item that is not yet due keeps the wheel valid and adds exactly that item |
| TimeWheel.HierarchicalTimeWheel.Cascade | cache_cat/src/mocha/mod.rs:201-208 | one level is cascaded without losing or duplicating an item |
| TimeWheel.HierarchicalTimeWheel.CascadeLevels | cache_cat/src/mocha/mod.rs:155-163 | the level loop cascades every level whose lower digits are zero and stops where it may |
| TimeWheel.HierarchicalTimeWheel.DrainDue | cache_cat/src/mocha/mod.rs:165-174 | draining the current slot fires items whose expiry is the current time and leaves a valid wheel |
| TimeWheel.HierarchicalTimeWheel.Tick | cache_cat/src/mocha/mod.rs:152-175 | one tick fires exactly the items whose expiry is the new time and keeps all others |
| TimeWheel.HierarchicalTimeWheel.Resettle | cache_cat/src/mocha/mod.rs:192-198 | drained items are fired if due and re-inserted otherwise, none lost |
| TimeWheel.HierarchicalTimeWheel.TakeAll | cache_cat/src/mocha/mod.rs:184-190 | all slots are emptied and every item is handed over once |
| TimeWheel.HierarchicalTimeWheel.AdvanceLarge | cache_cat/src/mocha/mod.rs:178-199 | the bulk path fires exactly the items due by the new time and keeps a valid wheel |
| TimeWheel.HierarchicalTimeWheel.AdvanceByTicks | cache_cat/src/mocha/mod.rs:152-175 | the tick path does the same and fires in non-decreasing expiry order |
| TimeWheel.HierarchicalTimeWheel.AdvanceTo | cache_cat/src/mocha/mod.rs:139-176 | for every time, exactly the due items fire, the rest stays, the invariant is kept; short advances fire in expiry order |
| TimeWheel.HierarchicalTimeWheel.HasDue | cache_cat/src/mocha/mod.rs:122-137 | true exactly when some scheduled item is due and current |
| CacheSafety.ActKeeps | cache_cat/src/mocha/mod.rs:280-296 | no client access writes a volatile entry without taking charge of its timer, or gives up a timer other than by sending it |
| CacheSafety.WorkPasses | cache_cat/src/mocha/mod.rs:501-564 | the worker gives up a timer only when the entry it stands for is gone |
| CacheSafety.WorkTimes | cache_cat/src/mocha/mod.rs:507-517 | wheel and clock readings never run ahead of the clock, so the worker inserts only items that are not yet due |
| CacheSafety.InvStep | cache_cat/src/mocha/mod.rs:280-564 | every event of every client, the worker or the clock keeps a timer for each volatile entry |
| CacheSafety.RunInv | cache_cat/src/mocha/mod.rs:243-564 | the invariant holds in every state of every run |
| CacheRefinement.DropInvisible | cache_cat/src/mocha/mod.rs:298-315 | removing an entry through its own due timer is invisible in the time-filtered map |
| CacheRefinement.ActRefines | cache_cat/src/mocha/mod.rs:288-465 | each client access is the plain-map step it stands for; lookups and lazy removal stand for none |
| CacheRefinement.WorkRefines | cache_cat/src/mocha/mod.rs:501-564 | no worker step changes the time-filtered map |
| CacheRefinement.StepRefines | cache_cat/src/mocha/mod.rs:288-564 | every event refines its plain-map step |
| CacheRefinement.RunRefines | cache_cat/src/mocha/mod.rs:288-564 | every run of the cache is a run of the plain map, in every interleaving |
| CacheRefinement.AnswersExact | cache_cat/src/mocha/mod.rs:347-465 | reads, removals, policy changes and unlinks answer from the plain map if and only if the clock did not overtake the entry |
| CacheRefinement.SetExpiryExact | cache_cat/src/mocha/mod.rs:429-447 | changing a policy acts on the plain map if and only if it does not revive an overtaken entry, and acts and answers like the plain map if and only if no entry was overtaken |
| CacheAnswers.BatchUnlinkExact | cache_cat/src/mocha/mod.rs:714-752 | in every run a batched unlink visits each key once and counts those in the plain map plus those overtaken, so its count is the plain map's if and only if none was overtaken |
| CacheAnswers.GetLinearizes | cache_cat/src/mocha/mod.rs:347-367 | in every run a read answers from the plain map at some moment between its two accesses if and only if it did not find an entry that came into the map during the read already expired |
| CacheAnswers.GetFailsByDeadWrite | cache_cat/src/mocha/mod.rs:347-358 | when it does not, some client wrote an expired entry under the key, or unlinked it, during the read |
| CacheRefinement.StaleReadRun | cache_cat/src/mocha/mod.rs:347-358 | a run from any state with two idle clients in which a read returns an entry that was never alive |
| CacheRefinement.ResurrectionRun | cache_cat/src/mocha/mod.rs:429-436 | a run from any state with a live volatile entry in which that entry dies and returns |
| CacheLifetime.InsertLives | cache_cat/src/mocha/mod.rs:265-296 | in every run an inserted entry is in the plain map, with its value, exactly as long as its policy says counted from the insert's clock reading, saturation included, until its key is written, removed or unlinked; and that entry is the answer |
| CacheLifetime.ExpiryLives | cache_cat/src/mocha/mod.rs:429-447 | a policy set on a live entry counts from the map access, and the value stays |
| CacheLifetime.RemovedStaysOut | cache_cat/src/mocha/mod.rs:453-465 | once removed, cleared or unlinked a key stays out of the plain map until it is written |
| CacheLifetime.OperationRemembers | cache_cat/src/mocha/mod.rs:288-465 | whatever happens between, an operation's map access is on the key it was called with and uses the clock it read at the start |
| CacheLifetime.PhysicalEffects | cache_cat/src/mocha/mod.rs:429-465 | removing and clearing take dead entries out too, a policy set on a dead entry takes it out, unlinking keeps the value, and no access changes any key but its own |
| CacheLifetime.GetReaps | cache_cat/src/mocha/mod.rs:347-367 | a read that finds an expired entry removes it in its next access unless it has been replaced |
| CacheProgress.WorkerFinishes | cache_cat/src/mocha/mod.rs:477-564 | from every reachable state the worker alone comes to rest after finitely many steps and has answered every request |
| CacheProgress.RequestsAnswered | cache_cat/src/mocha/mod.rs:570-615 | every `AdvanceAndWait` and `HasExpired` that is sent can be answered by the worker alone |
| CacheProgress.DueWhenPlaced | cache_cat/src/mocha/mod.rs:507-536 | an expiry that is due when the worker turns to its timer has no entry left when the worker waits again, unless written afresh |
| CacheExpiry.AheadStep | cache_cat/src/mocha/mod.rs:477-564 | as long as its entry keeps it, a timer that the worker gets before a command is never overtaken by that command |
| CacheExpiry.SweptUnlessRewritten | cache_cat/src/mocha/mod.rs:540-543 | whatever clients do meanwhile, an expiry that was due when `AdvanceAndWait` was sent, and whose timer no client held, is gone when it is answered unless it was written afresh |
| CacheExpiry.AnsweredMeansSwept | cache_cat/src/mocha/mod.rs:540-543 | once it is answered with no concurrent writer nothing that had expired is left, and with the clock unmoved `len()` is the size of the live view |
| CacheExpiry.ReplyExact | cache_cat/src/mocha/mod.rs:544-550 | over every run in which `HasExpired` is sent and answered, with other events between the checks of its scan: a true reply is right, a false one means that no due expiry was there all along, and without writers the reply is exact |
| ExpireWorker.AllLaterIsView | cache_cat/src/mocha/mod.rs:782-784 | a map whose timers all lie ahead is its own live view |
| ExpireWorker.Expirer.RunCallbacks | cache_cat/src/mocha/mod.rs:554-564 | exactly the entries with a fired, due and current timer go, and no live entry is touched |
| ExpireWorker.Expirer.AdvanceWheel | cache_cat/src/mocha/mod.rs:554-564 | if every volatile entry has a timer in the wheel, advancing leaves exactly the live view |
| ExpireWorker.Expirer.PlaceAll | cache_cat/src/mocha/mod.rs:519-536 | after a batch every entry is tracked by the wheel and no live entry is touched |
| ExpireWorker.Expirer.HandleExpireCommand | cache_cat/src/mocha/mod.rs:501-552 | each command keeps all entries tracked, touches no live entry, sweeps on advance and answers exactly |
| ExpireWorker.Expirer.AnswerDue | cache_cat/src/mocha/mod.rs:544-550 | a positive answer is always right, and with every entry tracked the answer is exact |
| CacheKeys.Keys | cache_cat/src/mocha/mod.rs:673-708 | lists exactly the matching keys that a read with the same clocks finds, each once, and panics exactly when the matcher does on such a key |
| CacheKeys.ReadClockHides | cache_cat/src/mocha/mod.rs:376-408 | a read with a read clock finds the plain map's entry at the later of the two clocks |
| CacheKeys.KeysAreViewKeys | cache_cat/src/mocha/mod.rs:673-708 | on patterns with closed brackets these are the keys of the plain map at the later clock that the declarative semantics admits |
| RespParser.FindLine | cache_cat/src/protocol/resp.rs:295-303 | the index of the first CRLF, or none anywhere |
| RespParser.ReadLine | cache_cat/src/protocol/resp.rs:286-290 | the line between mode byte and CRLF, and its full length within the buffer |
| RespParser.ReadBlob | cache_cat/src/protocol/resp.rs:394-413 | header, payload and terminator add up to a length within the buffer; the null form only where it is allowed |
| RespParser.ParseMeta | cache_cat/src/protocol/resp.rs:246-273 | a successful parse covers at least three bytes and no more than the buffer |
| RespParser.ParseElements | cache_cat/src/protocol/resp.rs:471-479 | as many elements as announced, within the buffer |
| RespParser.ParseAggregate | cache_cat/src/protocol/resp.rs:447-486 | a parsed aggregate lies within the buffer; only arrays have a null form |
| RespParser.ParseAttribute | cache_cat/src/protocol/resp.rs:491-513 | an attribute and the element it annotates lie within the buffer |
| RespParser.ParseWellSized | cache_cat/src/protocol/resp.rs:138-244 | header and children tile every aggregate exactly at every depth, so each split and advance of `take` is in bounds |
| RespParser.Decode | cache_cat/src/protocol/resp.rs:123-136 | a decoded value uses up at least three bytes of the buffer |
| RespReader.ParseAgrees | cache_cat/src/protocol/resp.rs:138-513 | the two-phase parser accepts the same inputs as a one-pass reader, with the same lengths and values |
| RespReader.DecodeIsRead | cache_cat/src/protocol/resp.rs:123-136 | decoding is that one-pass reader on every input |
| RespStability.ReadStable | cache_cat/src/protocol/resp.rs:246-513 | a successful parse is unchanged by appended bytes, at every nesting depth |
| RespFrames.BlobReads | cache_cat/src/protocol/resp.rs:394-434 | a length-prefixed payload is read back whatever the two closing bytes are and however its size is written |
| RespFrames.FrameReads | cache_cat/src/protocol/resp.rs:246-513 | every frame of the grammar, of any depth and whatever follows, reads back as its meaning with its exact length |
| RespFrames.FrameDecodes | cache_cat/src/protocol/resp.rs:123-136 | the decoder returns the meaning of a frame and consumes exactly its bytes |
| RespFrames.DecodeExact | cache_cat/src/protocol/resp.rs:123-513 | the decoder yields a value and a length if and only if so many bytes are a frame of the grammar that means that value |
| RespFrames.AttributeTransparent | cache_cat/src/protocol/resp.rs:235-240 | a leading attribute does not change the decoded value |
| RespFrames.PrefixWaits | cache_cat/src/protocol/resp.rs:123-136 | no proper prefix of a frame decodes to anything |
| RespFrames.LineExact | cache_cat/src/protocol/resp.rs:286-310 | a simple string decodes to itself if and only if it holds no CRLF |
| NumberText.DoubleExact | cache_cat/src/protocol/resp.rs:355-365 | a text is a double if and only if it is printed from a sign, digits, point, fraction and exponent, or is one of the three words in any case |
| NumberText.BigNumberExact | cache_cat/src/protocol/resp.rs:368-381 | a text is a big number if and only if it is an optional sign and at least one digit |
| NumberText.IntegersAreNumbers | cache_cat/src/protocol/resp.rs:355-381 | every integer prints as a big number and as a double |
| NumberText.DoublesDecode | cache_cat/src/protocol/resp.rs:355-365 | every number text decodes to that double whatever follows |
| RespStream.DecodeStable | cache_cat/src/protocol/resp.rs:123-136 | a decoding step that succeeds is unchanged by appended bytes |
| RespStream.ChunkingIrrelevant | cache_cat/src/raft/network/redis_server.rs:60-62 | for every byte stream, well formed or not, the values emitted do not depend on how it is cut into chunks |
| RespStream.StreamExact | cache_cat/src/protocol/resp.rs:123-136 | frames cut at arbitrary boundaries come out as exactly their values with nothing left over |
| RespStream.FindLineByWindows | cache_cat/src/protocol/resp.rs:295-303 | the window loop finds the first CRLF |
| RespStream.ParseChildren | cache_cat/src/protocol/resp.rs:473-479 | the element loop computes the recursive parse and the running length |
| RespStream.StreamDecoder.TakeFromStream | cache_cat/src/protocol/resp.rs:123-136 | the first complete frame leaves the buffer, or nothing changes |
| RespStream.StreamDecoder.Feed | cache_cat/src/raft/network/redis_server.rs:60-62 | after a read all complete frames are emitted in order and the remainder stays |
| RespEncoder.EncodesFrame | cache_cat/src/raft/types/core/response_value.rs:121-255 | what the encoder writes is the wire form of a good frame that means the documented downgrade of the value |
| RespEncoder.RoundTrip | cache_cat/src/raft/types/core/response_value.rs:121-255 | decoding an encoded value gives its image under that protocol version and consumes exactly its bytes, whatever follows |
| RespEncoder.ReEncodes | cache_cat/src/protocol/resp.rs:623-641 | encoding the decoded value again gives the same bytes, for every value and version |
| RespExact.ReadClean | cache_cat/src/protocol/resp.rs:286-513 | whatever the bytes, a decoded value holds no CRLF in a line, only well-formed number texts, sizes that fit, no batch and no score list |
| RespExact.RoundTripExact | cache_cat/src/raft/types/core/response_value.rs:121-255 | a value comes back as its image if and only if it is encodable, and no bytes at all decode to the image of one that is not |
| RespExact.RepliesExact | cache_cat/src/raft/types/core/response_value.rs:248-253 | a run of replies, however cut, arrives exactly as the images of its replies if and only if each is encodable |
| RespIdentity.ImageIdentity | cache_cat/src/raft/types/core/response_value.rs:14-25 | the image of a value is the value itself if and only if the protocol version can tell it from all others |
| RespIdentity.IdentityExact | cache_cat/src/raft/types/core/response_value.rs:121-255 | for every value, version and continuation, the value comes back as itself if and only if it is encodable and kept |
| RespIdentity.EncodeConfuses | cache_cat/src/raft/types/core/response_value.rs:121-255 | two encodable values have the same bytes if and only if their images agree |
| RespIdentity.NullsCollapse | cache_cat/src/raft/types/core/response_value.rs:121-255 | under RESP3 the null, the null bulk string and the null array are one on the wire, and decode to the null |
| RespEncoder.Hint | cache_cat/src/raft/types/core/response_value.rs:201-218 | a verbatim hint keeps its first three bytes and is filled up with spaces |
| RespEncoder.VerbatimDecodes | cache_cat/src/protocol/resp.rs:173-191 | a verbatim payload is split at a colon in fourth place and is all text otherwise |
| RespEncoder.RepliesArrive | cache_cat/src/raft/types/core/response_value.rs:248-253 | a batch arrives as its replies one by one, however the bytes are cut |
| BitString.SetMask | cache_cat/src/protocol/bitmap/bitfield.rs:447-452 | setting a bit of a byte changes that bit only |
| BitString.ClearMask | cache_cat/src/protocol/bitmap/bitfield.rs:453-455 | clearing a bit of a byte changes that bit only |
| BitString.FieldOfWrite | cache_cat/src/protocol/bitmap/bitfield.rs:414-457 | a field reads back the pattern written to it |
| BitString.WriteOfField | cache_cat/src/protocol/bitmap/bitfield.rs:414-457 | writing back what was read changes no bit |
| BitString.DisjointWrites | cache_cat/src/protocol/bitmap/bitfield.rs:437-457 | writes to disjoint fields commute and do not disturb each other |
| BitString.ByteIsField | cache_cat/src/protocol/bitmap/bitfield.rs:414-432 | each byte of a string is the number in its eight bits, most significant first |
| BitEncoding.WidthsExact | cache_cat/src/protocol/bitmap/bitfield.rs:672-676 | the accepted widths are exactly those whose values all fit a 64-bit integer |
| BitEncoding.DecodeRepresents | cache_cat/src/protocol/bitmap/bitfield.rs:78-98 | the branches of decoding, sign extension included, are two's complement and stay in bounds |
| BitEncoding.EncodeDecode | cache_cat/src/protocol/bitmap/bitfield.rs:101-109 | every representable value survives encoding and decoding |
| BitEncoding.DecodeEncode | cache_cat/src/protocol/bitmap/bitfield.rs:78-109 | every raw pattern survives decoding and encoding |
| BitEncoding.SatNearest | cache_cat/src/protocol/bitmap/bitfield.rs:122-128 | SAT gives a representable value at least as near as any other |
| BitEncoding.WrapCongruent | cache_cat/src/protocol/bitmap/bitfield.rs:130-144 | WRAP gives a representable value congruent modulo two to the width |
| BitEncoding.CongruentUnique | cache_cat/src/protocol/bitmap/bitfield.rs:130-144 | there is only one such value |
| BitEncoding.WrapAdds | cache_cat/src/protocol/bitmap/bitfield.rs:372-388 | wrapping early or late makes no difference |
| BitField.PutGet | cache_cat/src/protocol/bitmap/bitfield.rs:357-363 | a stored value is read back and every bit outside its field is unchanged |
| BitField.StepIsLocal | cache_cat/src/protocol/bitmap/bitfield.rs:341-405 | a sub-command depends on and changes its own field only |
| BitField.WriteExact | cache_cat/src/protocol/bitmap/bitfield.rs:350-405 | a write replies nil if and only if its policy is FAIL and its target does not fit, and then changes nothing; otherwise the field holds the target if that fits, under SAT a value nearest to it, under WRAP one congruent to it, SET replies the old value, INCRBY the new, and no other bit moves |
| BitField.DisjointStepsCommute | cache_cat/src/protocol/bitmap/bitfield.rs:341-405 | sub-commands on disjoint fields commute, replies included |
| BitField.IncrementsCompose | cache_cat/src/protocol/bitmap/bitfield.rs:372-402 | any run of wrapping increments on a field is one wrap of the old value plus their sum, and each reply is the wrap of the old value plus the sum so far |
| BitField.HighestWriteEnd | cache_cat/src/protocol/bitmap/bitfield.rs:306-313 | the furthest bit of any write sub-command, none exactly when there is no write |
| BitField.StoreBit | cache_cat/src/protocol/bitmap/bitfield.rs:441-456 | storing one bit leaves all others and the length alone |
| BitField.BitBuffer.ReadField | cache_cat/src/protocol/bitmap/bitfield.rs:414-432 | the bit loop reads the field of the infinite bit string |
| BitField.BitBuffer.WriteField | cache_cat/src/protocol/bitmap/bitfield.rs:437-457 | the bit loop writes the field of the infinite bit string |
| BitField.BitBuffer.PrepareWriteBuffer | cache_cat/src/protocol/bitmap/bitfield.rs:315-329 | the buffer is zero-extended to the furthest write and its bits are unchanged |
| BitField.BitBuffer.ExecuteOne | cache_cat/src/protocol/bitmap/bitfield.rs:341-405 | one sub-command does to the bytes what the fold step does to the bit string |
| BitField.BitBuffer.ExecuteOperations | cache_cat/src/protocol/bitmap/bitfield.rs:331-408 | replies and bits are those of a plain fold, the length is decided by the furthest write, reads alone change nothing |
| BitArgs.ParseEncoding | cache_cat/src/protocol/bitmap/bitfield.rs:646-683 | only i1 to i64 and u1 to u63 are accepted |
| BitArgs.ParseOffset | cache_cat/src/protocol/bitmap/bitfield.rs:685-735 | an accepted offset keeps its field within the largest string |
| BitArgs.ScaledOffset | cache_cat/src/protocol/bitmap/bitfield.rs:690-718 | `#n` is the offset n times the width, errors included |
| BitArgs.ParseOps | cache_cat/src/protocol/bitmap/bitfield.rs:563-632 | every sub-command that is accepted can be executed; which lists are accepted is `BitArgs.ArgsExact` |
| BitArgs.ParseArgs | cache_cat/src/protocol/bitmap/bitfield.rs:546-633 | the argument loop, with its sticky overflow policy, computes the recursive reading |
| BitArgs.ArgsParseBack | cache_cat/src/protocol/bitmap/bitfield.rs:546-633 | printed sub-commands, each with its policy, parse back to themselves |
| BitArgs.SparseParsesBack | cache_cat/src/protocol/bitmap/bitfield.rs:560-632 | sub-commands printed with OVERFLOW only where the policy changes parse back to themselves |
| BitArgs.EncodingExact | cache_cat/src/protocol/bitmap/bitfield.rs:646-683 | an encoding is accepted if and only if it is `i` or `u` and a spelling of a valid width |
| BitArgs.OffsetExact | cache_cat/src/protocol/bitmap/bitfield.rs:685-735 | an offset is accepted if and only if it spells a bit, or `#` and a field number, whose field ends within 512 MB |
| BitArgs.PolicyExact | cache_cat/src/protocol/bitmap/bitfield.rs:750-759 | a policy is accepted if and only if it is one of the three words in any case |
| BitArgs.ArgsExact | cache_cat/src/protocol/bitmap/bitfield.rs:546-633 | an argument list is accepted if and only if it spells sub-commands and policy changes, and it yields the sub-commands each under the policy last named before it |
| BitArgs.ItemRefused | cache_cat/src/protocol/bitmap/bitfield.rs:563-632 | a unit is refused as unknown or incomplete, or else for the first of its parts that spells nothing |
| BitArgs.FirstErrorWins | cache_cat/src/protocol/bitmap/bitfield.rs:563-632 | a list is refused for its first bad unit, whatever follows |
| BitPos.NormalizeRange | cache_cat/src/protocol/bitmap/bitpos.rs:168-203 | a normalised range is non-empty and inside the string |
| BitPos.FirstBit | cache_cat/src/protocol/bitmap/bitpos.rs:213-264 | the least position in a closed range that holds the wanted bit |
| BitPos.LeadingZeros | cache_cat/src/protocol/bitmap/bitpos.rs:244-247 | the digits before the first one digit are zero |
| BitPos.ByteScan | cache_cat/src/protocol/bitmap/bitpos.rs:233-251 | looking at a whole byte at once finds its first wanted bit, or shows that it has none |
| BitPos.FindFirstBit | cache_cat/src/protocol/bitmap/bitpos.rs:213-264 | the byte-skipping loop finds the least position |
| BitPos.ByteRangeIsBitRange | cache_cat/src/protocol/bitmap/bitpos.rs:49-135 | a byte range equals the bit range covering it, for indices of either sign whose bit form still fits 64 bits |
| BitPos.RangeCovers | cache_cat/src/protocol/bitmap/bitpos.rs:168-203 | the searched bits are exactly those between the two indices, of either sign and in either unit |
| BitPos.BitPosMeans | cache_cat/src/protocol/bitmap/bitpos.rs:49-135 | the reply is the least wanted position, counting the zeros behind the string when the end is left out, or -1 when there is none, if and only if the string is not empty, a set bit is asked for, or no range is given; otherwise it is 0 although none is wanted |
| BitPos.ParseMagnitude | cache_cat/src/protocol/bitmap/bitpos.rs:380-390 | the checked loop gives the number, or there is a non-digit or an overflow |
| BitPos.ParseRedisI64 | cache_cat/src/protocol/bitmap/bitpos.rs:360-411 | accepts the canonical decimal of a 64-bit integer, the smallest included, and nothing else |
| Decimal.ParsePrint | cache_cat/src/protocol/resp.rs:322-326 | a printed 64-bit integer parses back to itself |
| Decimal.ParseI64Exact | cache_cat/src/protocol/bitmap/bitfield.rs:737-748 | 64-bit parsing accepts an optional sign, any zeros and a number that fits, and nothing else |
| Decimal.ParseU64Exact | cache_cat/src/protocol/bitmap/bitfield.rs:704-711 | unsigned parsing accepts an optional plus sign, any zeros and a number that fits, and nothing else |
| Decimal.MagnitudePrint | cache_cat/src/protocol/bitmap/bitpos.rs:375-390 | digits without a leading zero are the canonical text of their number |
| ByteOrder.SortedUnique | cache_cat/src/protocol/set/spop.rs:320-325 | a set has only one listing in byte order |
| ByteOrder.LexExact | cache_cat/src/protocol/set/spop.rs:323-325 | in byte order a prefix comes first and otherwise the first difference decides |
| Spop.IndexBelow | cache_cat/src/protocol/set/spop.rs:181-193 | every drawn index is below its bound |
| Spop.IndexProportional | cache_cat/src/protocol/set/spop.rs:181-193 | the index is in proportion to the random number |
| Spop.EveryIndexDrawn | cache_cat/src/protocol/set/spop.rs:181-193 | every index below the bound is drawn for some random number |
| Spop.PublishedValues | cache_cat/src/protocol/set/spop.rs:166-207 | the generator and the hash give a published value of SplitMix64 and of 64-bit FNV-1a |
| Spop.SeedTellsClocks | cache_cat/src/protocol/set/spop.rs:201-211 | at different clocks a key gets different seeds |
| Spop.SeedTellsHashes | cache_cat/src/protocol/set/spop.rs:201-211 | at one clock keys with different hashes get different seeds |
| Spop.SwapRemoveAt | cache_cat/src/protocol/set/spop.rs:341-341 | removing puts the last candidate in the removed place and moves no other |
| Spop.DeterministicRng.NextIndex | cache_cat/src/protocol/set/spop.rs:166-193 | the drawn index is below the bound |
| Spop.RandomSeed | cache_cat/src/protocol/set/spop.rs:201-211 | the hash loop computes the seed as a function of key and clock alone |
| Spop.DrawDistinct | cache_cat/src/protocol/set/spop.rs:332-351 | the draw takes distinct members out of the candidates |
| Spop.ReplicaDeterministic | cache_cat/src/protocol/set/spop.rs:311-351 | for any two iteration orders of a set, the same key, clock and count draw the same members in the same order |
| Spop.SetValue.DrawFrom | cache_cat/src/protocol/set/spop.rs:339-351 | the drawing loop removes exactly the drawn members from the set |
| Spop.SetValue.Mutate | cache_cat/src/protocol/set/spop.rs:254-383 | on a set, min(count, size) distinct members go, the set is what remains, the key is removed exactly when nothing does, the reply is the popped members or the one popped; any other value is refused unchanged, whatever the count |
| PubSub.InvStep | cache_cat/src/raft/application/pub_sub.rs:68-429 | every lock section of every command keeps both directions of the index in agreement, no empty name, no idle client without subscription |
| PubSub.RunInv | cache_cat/src/raft/application/pub_sub.rs:26-429 | that holds in every state of every interleaving |
| PubSub.OthersKeep | cache_cat/src/raft/application/pub_sub.rs:75-117 | a step changes the listings of the acting client only and leaves no name without subscribers |
| PubSub.DisconnectErases | cache_cat/src/raft/application/pub_sub.rs:306-329 | after a disconnect no trace of the client is left, whatever ran in between |
| PubSub.CommandAchieves | cache_cat/src/raft/application/pub_sub.rs:68-429 | in every run, with other clients in between, a completed command has changed the client's own names by exactly the names it was given, and the index lists it under exactly those |
| PubSub.PublishExact | cache_cat/src/raft/application/pub_sub.rs:243-303 | on a quiescent registry a message reaches exactly the clients subscribed by channel or pattern |
| PubSub.PublishAmidCommands | cache_cat/src/raft/application/pub_sub.rs:243-303 | with other clients' commands between the three locks, a client that runs none itself gets the message exactly if it is subscribed |
| PubSub.Publish | cache_cat/src/raft/application/pub_sub.rs:243-303 | the reply counts each reached client once |
| PubSub.Registry.Register | cache_cat/src/raft/application/pub_sub.rs:76-81 | the registration loop adds the client to every name |
| PubSub.Registry.Unregister | cache_cat/src/raft/application/pub_sub.rs:106-116 | the removal loop takes the client out of every name and drops names left empty |
| Glob.BracketEnd | cache_cat/src/utils/glob.rs:161-185 | a bracket scan stops at its closing bracket or at the end |
| Glob.MatchBracket | cache_cat/src/utils/glob.rs:139-194 | the scan loop decides membership in the class and finds its end |
| Glob.MatcherIsDeclarative | cache_cat/src/utils/glob.rs:22-136 | with closed brackets the matcher accepts exactly the values that can be cut into fitting pieces, and does not panic |
| GlobText.ClassMeans | cache_cat/src/utils/glob.rs:139-194 | a class printed from bytes and ranges, negated or not, holds exactly those bytes or exactly the others, wherever it stands |
| GlobText.ClassMatches | cache_cat/src/utils/glob.rs:75-97 | a pattern that is one class matches exactly those single bytes |
| GlobText.TokensParseBack | cache_cat/src/utils/glob.rs:22-194 | every printable list of tokens is the reading of its text |
| Glob.PanicExact | cache_cat/src/utils/glob.rs:75-97 | some value makes the matcher panic if and only if scanning can reach an unclosed class that some byte is in |
| Glob.MatchPattern | cache_cat/src/raft/application/pub_sub.rs:507-535 | the search loop decides the pub/sub pattern relation |
| Glob.PatternIsDeclarative | cache_cat/src/raft/application/pub_sub.rs:507-535 | on every pattern the pub/sub matcher accepts exactly the channels that can be cut to fit |
| Glob.MatchersAgree | cache_cat/src/raft/application/pub_sub.rs:507-535 | without brackets and escapes both matchers agree on every input |
| ListCommands.RemoveFirstMeans | cache_cat/src/protocol/list/lrem.rs:168-182 | exactly the first min(count, occurrences) matches go and everything else stays in order |
| ListCommands.WithoutExact | cache_cat/src/protocol/list/lrem.rs:197-208 | removing every match keeps each other element and distributes over concatenation |
| ListCommands.TailIsReversedHead | cache_cat/src/protocol/list/lrem.rs:183-196 | removing from the tail is removing from the head of the reversed list |
| ListCommands.LRemMirror | cache_cat/src/protocol/list/lrem.rs:164-212 | LREM with -n is the mirror image of LREM with n |
| ListCommands.LRemExact | cache_cat/src/protocol/list/lrem.rs:183-196 | the code does what is documented if and only if the count is not the smallest integer or there is no match |
| ListCommands.ListValue.RemoveFromHead | cache_cat/src/protocol/list/lrem.rs:168-182 | the head loop leaves the list that removal from the head describes and counts what went |
| ListCommands.ListValue.RemoveFromTail | cache_cat/src/protocol/list/lrem.rs:183-196 | the tail loop leaves the list that removal from the tail describes and counts what went |
| ListCommands.ListValue.RemoveEvery | cache_cat/src/protocol/list/lrem.rs:197-208 | every match goes, the rest stays in order |
| ListCommands.ListValue.RemoveElements | cache_cat/src/protocol/list/lrem.rs:164-212 | the list becomes what LREM leaves and the reply counts the removed elements |
| ListCommands.LRangeMeans | cache_cat/src/utils/list.rs:3-30 | LRANGE returns the selected positions, all of them and in order, for indices of either sign |
| ListCommands.ListValue.Trim | cache_cat/src/protocol/list/ltrim.rs:136-197 | LTRIM leaves exactly what LRANGE returns for the same indices |

## Left out

- Raft, its log store, snapshots, state-machine apply and cluster membership: thin wrappers over libraries.
- RPC clients, servers, TLS, pipelines and file transfer: input and output.
- Lua scripting, memory reports, configuration, sentinel and client information: foreign calls or formatting.
- Hashes, sorted sets, HyperLogLog, plain string commands and single-branch reads: they would only add easy members.
- `execute_compute` and the version check used while a snapshot is loaded: the dispatch around the modelled commands.
- Floating-point values and lossy UTF-8: doubles are their text, strings are their bytes.
- The texts of error replies and the argument parsers of SPOP, BITPOS, LREM and LTRIM.
- The confirmation frames of (un)subscribe commands and the delivery channel behind a subscription: whether a receiver is alive is a parameter.
- Overdue `insert` calls from outside `cascade`: the worker never makes one, and `CacheSafety.WorkTimes` is why.
- The retry loop inside the concurrent map: `compute`, `insert`, `remove` and `clear` are one step each.
- CacheKeys.Keys: assumes that the map does not change while it is iterated, since what the concurrent map's iterator yields otherwise is not specified.
- ByteOrder.SortBytes: stands for the library sort of the candidates; that any sort gives this result is `ByteOrder.SortedUnique`.
- BitPos.BitPosMeans: strings of more than 2^60 bytes, where the reply is an error, are left to the definition of the command.
- RespParser.ParseMeta: recursion depth is not modelled; neither is it for `RespParser.Take` and `Glob.MatchInner`.
- ListCommands.LRem: models the build without overflow checks; a build with them panics on the smallest count.
