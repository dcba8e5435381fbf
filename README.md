# Mk2PVRouter frame decoder in Dafny

A model of the ESPHome `mk2pvrouter` component's serial-frame decoder, with
proofs about it.

The decoder reads bytes from a UART into a fixed 1048-byte frame buffer. It
moves through four states: OFF → ON → START_FRAME_RECEIVED →
END_FRAME_RECEIVED → OFF.

- In ON it drops bytes up to the start byte `0x02`.
- In START_FRAME_RECEIVED it keeps bytes up to the end byte `0x03`. It reads
  at most 128 bytes per call, and aborts to OFF when the buffer is full.
- In END_FRAME_RECEIVED it walks the frame group by group. Each group is
  `0x0A tag 0x09 value 0x09 crc 0x0D`. The walk checks the group's 6-bit
  checksum and extracts the tag and value into 16-byte scratch buffers with
  `strncpy`. It hands each valid pair to every registered listener with that
  tag, in registration order.

The project has eight modules:

- `Wire` (`wire.dfy`): the byte type, sizes and marker bytes.
- `Crc` (`crc.dfy`): the checksum and the group checksum test.
- `Field` (`field.dfy`): `memchr`, `get_field`, `strncpy` and the C-string
  reading of a NUL-terminated buffer.
- `Listeners` (`listeners.dfy`): the listener registry and what publishing
  one reading calls.
- `Groups` (`groups.dfy`): the frame walk as a function, the wire encoding of
  groups, and the round-trip theorems relating them.
- `Machine` (`machine.dfy`): the state machine as values. It covers one
  `read_chars_until_` call, `setup()`, `update()`, one `loop()` call, `n`
  calls in a row, and the theorems about a frame arriving over the link:
  one that fits is published, one too long for the buffer is dropped
  without any listener call.
- `Router` (`router.dfy`): the class `Mk2PVRouter` itself. It holds the
  fixed arrays `buf`, `tagBuf` and `valBuf`, `bufIndex`, `state`, the
  listener list, the waiting UART bytes `rx`, and the trace `published` of
  `publish_val` calls. Each method is proved against a function of the value
  model. `Setup`, `Update`, `ReadCharsUntil`, `ReadOne` and `Loop` follow
  `Machine` (`SetupStep`, `UpdateStep`, `ReadUntil`, `ReadFrom`, `LoopStep`).
  `CalculateCrc` and `CheckCrc` follow `Crc` (`Checksum`, `GroupCrcOk`).
  `DecodeGroup`, `WalkStep` and `WalkFrame` follow `Groups` (`CheckedGroup`,
  `Walk`). `PublishValue` follows `Listeners` (`Deliveries`). `Loop` and
  `WalkFrame` leave the scratch buffers `tagBuf` and `valBuf` unstated, and
  `Loop` the frame buffer beyond `bufIndex`.
- `Arrival` (`arrival.dfy`): a frame whose bytes arrive in arbitrary chunks,
  one `loop()` call after each. Whatever the split, the frame is published
  exactly once, and a bounded number of further calls leaves the decoder in
  OFF with the body buffered and the bytes after the frame waiting.

The serial link is the queue `rx` of waiting bytes. `available()` is
`|rx| > 0` and `read()` takes `rx[0]`. A call `publish_val(value)` on the
listener at position `i` is recorded as `Event(i, value)`.

The documented return value of `get_field` (mk2pvrouter.cpp:23) is 0 when
no TAB is found. The code also returns 0 when the TAB is the field's first
byte. `Field.FieldLen` and `Field.GetField` follow the code.

## Model

| member | source | states |
|---|---|---|
| Router.Mk2PVRouter.constructor | components/mk2pvrouter/mk2pvrouter.cpp:238-241 | a new decoder is OFF, with `bufIndex` 0, no listener, checksum area end 1, buffers of 1048/16/16 bytes and nothing published |
| Router.Mk2PVRouter.Model | components/mk2pvrouter/mk2pvrouter.h:49-63 | the object's state, used frame and waiting bytes as a `Decoder` value; the used frame never exceeds `MAX_BUF_SIZE - 1` bytes |
| Router.Mk2PVRouter.Receive | components/mk2pvrouter/mk2pvrouter.cpp:93-94 | bytes arriving on the link queue behind those already waiting; nothing else changes |
| Router.Mk2PVRouter.RegisterListener | components/mk2pvrouter/mk2pvrouter.cpp:248-250 | the listener is appended to the registry (no deduplication); the decoder state and trace are unchanged |
| Router.Mk2PVRouter.Setup | components/mk2pvrouter/mk2pvrouter.cpp:117 | the new state is `SetupStep` of the old: OFF, buffer and link untouched |
| Router.Mk2PVRouter.Update | components/mk2pvrouter/mk2pvrouter.cpp:122-127 | the new state is `UpdateStep` of the old: only OFF is affected, and it becomes ON with an empty buffer |
| Router.Mk2PVRouter.ReadCharsUntil | components/mk2pvrouter/mk2pvrouter.cpp:90-112 | result, buffer contents, bytes left on the link and state are exactly those of `ReadUntil` on the old buffer and link: found flag, kept bytes, bytes taken, OFF exactly on a full buffer |
| Router.Mk2PVRouter.Store | components/mk2pvrouter/mk2pvrouter.cpp:108 | with room left, the byte is appended to the used frame and `bufIndex` grows by one; nothing else changes |
| Router.Mk2PVRouter.ReadOne | components/mk2pvrouter/mk2pvrouter.cpp:94-108 | one byte is taken off the link; the call ends exactly as `ReadFrom` says (target found, or OFF on a full buffer), or goes on with the buffer and quota `ReadFrom` continues with |
| Router.Mk2PVRouter.CalculateCrc | components/mk2pvrouter/mk2pvrouter.cpp:49-57 | the 8-bit accumulated sum, masked and offset, equals `Checksum` of the group's bytes but the last `checksumAreaEnd` |
| Router.Mk2PVRouter.CheckCrc | components/mk2pvrouter/mk2pvrouter.cpp:68-79 | the result is `GroupCrcOk`: the group's last byte (for an empty group, its LF) equals the checksum |
| Router.Mk2PVRouter.PublishValue | components/mk2pvrouter/mk2pvrouter.cpp:217-223 | the trace grows by exactly `Deliveries` for the tag and value: matching listeners, in order; nothing else changes |
| Router.Mk2PVRouter.DecodeGroup | components/mk2pvrouter/mk2pvrouter.cpp:182-204 | the new cursor is `CheckedGroup`'s, and the trace grows by the deliveries of its reading when it emits one, by nothing when it skips |
| Router.Mk2PVRouter.WalkStep | components/mk2pvrouter/mk2pvrouter.cpp:170-205 | one round of the walk with the source's LF window: it either ends the walk having published exactly `Walk` from the cursor, or moves the cursor forward with the published part of `Walk` taken off |
| Router.Mk2PVRouter.WalkFrame | components/mk2pvrouter/mk2pvrouter.cpp:152-206 | the walk publishes exactly `DispatchAll` of `Walk(frame, 0)` and leaves state, buffer and link as they were |
| Router.Mk2PVRouter.Loop | components/mk2pvrouter/mk2pvrouter.cpp:138-209 | the new state is `LoopStep(old state).0` and the trace grows by `LoopStep(old state).1` |
| Machine.ReadFrom | components/mk2pvrouter/mk2pvrouter.cpp:93-109 | reads stay within the link and the quota; nothing is read from an empty link; found and full never both hold; drop mode keeps nothing and never fills; a full abort leaves 1047 bytes; an ordinary end means the link or the quota ran out |
| Machine.ReadUntil | components/mk2pvrouter/mk2pvrouter.cpp:90-112 | one call takes at most 128 bytes, and none (with nothing changed) when none are waiting |
| Machine.ReadFromNext | components/mk2pvrouter/mk2pvrouter.cpp:93-108 | a byte that is not the target is kept (keep mode, room left) or dropped, and the call goes on with one read fewer |
| Machine.ReadFromEnds | components/mk2pvrouter/mk2pvrouter.cpp:93-106 | the call ends when the link or the quota runs out, when the target is read (found, not stored), or on a full buffer in keep mode (discarded, full) |
| Machine.ReadRestEnds | components/mk2pvrouter/mk2pvrouter.cpp:93-111 | with the link or the quota exhausted, the call returns false with the buffer as it is |
| Machine.ReadFromFound | components/mk2pvrouter/mk2pvrouter.cpp:95-96 | found exactly when the last byte taken is the target, and no earlier byte taken is |
| Machine.ReadFromKeeps | components/mk2pvrouter/mk2pvrouter.cpp:97-108 | in keep mode the buffer grows by exactly the bytes taken, minus the target or the discarded byte |
| Machine.ReadFromTarget | components/mk2pvrouter/mk2pvrouter.cpp:93-96 | unless the buffer fills, found holds exactly when the target is among the waiting bytes within the quota |
| Machine.SetupStep | components/mk2pvrouter/mk2pvrouter.cpp:117 | setup goes to OFF and keeps buffer and link |
| Machine.UpdateStep | components/mk2pvrouter/mk2pvrouter.cpp:122-127 | from OFF: ON with an empty buffer; from any other state: no change |
| Machine.LoopStep | components/mk2pvrouter/mk2pvrouter.cpp:138-209 | the buffer bound is kept, and no listener is called outside END_FRAME_RECEIVED |
| Machine.Loops | components/mk2pvrouter/mk2pvrouter.cpp:138-209 | any number of `loop()` calls keep the buffer bound |
| Machine.OffIsIdle | components/mk2pvrouter/mk2pvrouter.cpp:140-141 | in OFF, `loop()` changes nothing and calls nobody |
| Machine.IdleWithoutInput | components/mk2pvrouter/mk2pvrouter.cpp:93 | with no waiting bytes, ON and START_FRAME_RECEIVED keep state and buffer across calls |
| Machine.SeekStart | components/mk2pvrouter/mk2pvrouter.cpp:142-146 | in ON the buffer is kept, and the state becomes START_FRAME_RECEIVED exactly when `0x02` is among the next 128 waiting bytes, else stays ON |
| Machine.SeekEnd | components/mk2pvrouter/mk2pvrouter.cpp:147-151 | from START_FRAME_RECEIVED the next state is END_FRAME_RECEIVED only with `0x03` among the next 128 bytes, START_FRAME_RECEIVED only without, and OFF only with a full buffer |
| Machine.OverflowAborts | components/mk2pvrouter/mk2pvrouter.cpp:103-106 | with 1047 bytes buffered, a non-end byte is discarded and the decoder goes to OFF |
| Machine.CollectChunk | components/mk2pvrouter/mk2pvrouter.cpp:147-151 | 128 waiting bytes without `0x03` that fit are appended in one call, staying in START_FRAME_RECEIVED |
| Machine.CloseFrame | components/mk2pvrouter/mk2pvrouter.cpp:147-151 | the rest of a frame and its end byte arriving within the quota are appended (end byte consumed, not stored) and the state becomes END_FRAME_RECEIVED |
| Machine.FindStart | components/mk2pvrouter/mk2pvrouter.cpp:142-146 | in ON, noise without `0x02` and the start byte are consumed by one call, reaching START_FRAME_RECEIVED |
| Machine.PublishFrame | components/mk2pvrouter/mk2pvrouter.cpp:152-207 | END_FRAME_RECEIVED reads nothing, publishes the walk of the buffer and always goes to OFF |
| Machine.FrameArrives | components/mk2pvrouter/mk2pvrouter.cpp:147-151 | a body without `0x03` that fits the buffer is collected by `|body| / 128 + 1` calls, ending in END_FRAME_RECEIVED with the whole body and nothing published |
| Machine.ReadFromOverflows | components/mk2pvrouter/mk2pvrouter.cpp:93-108 | in keep mode, `m` non-target bytes filling the buffer's last `m` places, then one more non-target byte, within the quota: the call stores the `m` bytes, takes and discards the next one and gives up on a full buffer |
| Machine.OverflowStep | components/mk2pvrouter/mk2pvrouter.cpp:103-106 | in START_FRAME_RECEIVED, bytes without `0x03` that fill the buffer within one quota, then one more non-end byte: one call stores them, discards that byte and goes to OFF, calling nobody |
| Machine.FrameOverflows | components/mk2pvrouter/mk2pvrouter.cpp:147-151 | a frame too long for the buffer is dropped: the bytes that fill the buffer and the non-end byte after them take `|kept| / 128 + 1` calls, which store them, discard that byte, publish nothing and leave OFF |
| Machine.OversizedFrameDropped | components/mk2pvrouter/mk2pvrouter.cpp:103-106 | from START_FRAME_RECEIVED, any body without `0x03` longer than the room `k` left in the buffer is dropped by `k / 128 + 1` calls: the first `k` bytes stored, the next discarded, nothing published, state OFF |
| Machine.ReceiveFrame | components/mk2pvrouter/mk2pvrouter.cpp:122-209 | after `update()`, a frame behind fewer than 128 bytes of noise without `0x02`, whose body has no `0x03` and fits the buffer, leads in `|body| / 128 + 3` calls to OFF with the body buffered, the rest of the link waiting, and exactly the walk of the body published (noise of any length: `Arrival.ReceiveInChunks`) |
| Machine.ReceiveGroups | components/mk2pvrouter/mk2pvrouter.cpp:122-209 | end to end: a frame of encoded groups without `0x03` that fits the buffer, sent after `update()` behind fewer than 128 bytes of noise without `0x02`, delivers in `|body| / 128 + 3` calls exactly the readings of the accepted groups, in order |
| Machine.LineFeedWindow | components/mk2pvrouter/mk2pvrouter.cpp:170 | the LF search length `buf_index_ - 1` in 32-bit unsigned arithmetic: one less than the frame length, or 0xFFFFFFFF for an empty frame |
| Machine.LineFeedWindowOverruns | components/mk2pvrouter/mk2pvrouter.cpp:170 | the search from the cursor ends beyond the 1048-byte buffer exactly for an empty frame or when cursor plus frame length exceed 1049 |
| Arrival.Feed | components/mk2pvrouter/mk2pvrouter.cpp:93 | chunks arriving one after another, each followed by a `loop()` call, keep the buffer bound |
| Arrival.ScanStops | components/mk2pvrouter/mk2pvrouter.cpp:93-96 | on waiting bytes taken from a stream whose first target byte from the read position sits at `m`, a call finds the target exactly by taking the bytes through `m`, and otherwise stops before `m` |
| Arrival.SkipOutcome | components/mk2pvrouter/mk2pvrouter.cpp:93-100 | in drop mode the buffer is kept, the start byte is taken when found, and otherwise the call stops before it, using its whole quota when every byte up to the start byte was waiting |
| Arrival.CollectStops | components/mk2pvrouter/mk2pvrouter.cpp:93-108 | in keep mode with room for the bytes before the end byte, the buffer never fills, the end byte is taken when found, and otherwise the call stops before it, using its whole quota when all was waiting |
| Arrival.CollectKeeps | components/mk2pvrouter/mk2pvrouter.cpp:97-108 | in the same call the buffer receives exactly the bytes taken, the end byte excluded |
| Arrival.OnStep | components/mk2pvrouter/mk2pvrouter.cpp:142-146 | in ON a call keeps the buffer, drops the bytes it takes and reaches START_FRAME_RECEIVED exactly when it finds the start byte |
| Arrival.StartStep | components/mk2pvrouter/mk2pvrouter.cpp:147-151 | in START_FRAME_RECEIVED a call reaches END_FRAME_RECEIVED when it finds the end byte, OFF on a full buffer, and otherwise stays |
| Arrival.SkipNoise | components/mk2pvrouter/mk2pvrouter.cpp:142-146 | skipping noise without a start byte takes the start byte exactly when the call reaches it, and otherwise a whole quota once all has arrived |
| Arrival.CollectBody | components/mk2pvrouter/mk2pvrouter.cpp:147-151 | collecting a body that fits never fills the buffer, takes the end byte exactly when the call reaches it, and otherwise a whole quota once all has arrived |
| Arrival.CollectFrame | components/mk2pvrouter/mk2pvrouter.cpp:97-108 | while collecting, the buffer holds the body read so far, and the whole body once the end byte is taken |
| Arrival.NoiseNearer | components/mk2pvrouter/mk2pvrouter.cpp:93 | skipping noise never increases the calls still needed, and a whole quota of noise decreases them |
| Arrival.BodyNearer | components/mk2pvrouter/mk2pvrouter.cpp:93 | collecting body bytes never increases the calls still needed, and a whole quota decreases them |
| Arrival.SkipEnd | components/mk2pvrouter/mk2pvrouter.cpp:144-145 | taking the start byte leaves the decoder on the stream, in START_FRAME_RECEIVED with an empty buffer, and nearer to OFF |
| Arrival.SkipMore | components/mk2pvrouter/mk2pvrouter.cpp:142-146 | a call that does not reach the start byte leaves the decoder on the stream in ON, no further from OFF |
| Arrival.CollectEnd | components/mk2pvrouter/mk2pvrouter.cpp:149-150 | taking the end byte leaves the decoder on the stream, in END_FRAME_RECEIVED with the whole body, and nearer to OFF |
| Arrival.CollectMore | components/mk2pvrouter/mk2pvrouter.cpp:147-151 | a call that does not reach the end byte leaves the decoder on the stream in START_FRAME_RECEIVED, no further from OFF |
| Arrival.TrackOn | components/mk2pvrouter/mk2pvrouter.cpp:142-146 | in ON a call keeps the decoder on the stream, never reaches OFF and calls nobody |
| Arrival.TrackStart | components/mk2pvrouter/mk2pvrouter.cpp:147-151 | in START_FRAME_RECEIVED a call keeps the decoder on the stream, never aborts to OFF for a body that fits, and calls nobody |
| Arrival.StayOff | components/mk2pvrouter/mk2pvrouter.cpp:140-141 | in OFF a call changes nothing and calls nobody |
| Arrival.TrackEnd | components/mk2pvrouter/mk2pvrouter.cpp:152-207 | in END_FRAME_RECEIVED a call publishes the walk of the body and goes to OFF at the same place in the stream |
| Arrival.TrackStep | components/mk2pvrouter/mk2pvrouter.cpp:138-209 | any call keeps the decoder on the stream, publishes the frame exactly when it leaves END_FRAME_RECEIVED, and once all has arrived gets it nearer to OFF |
| Arrival.ReceiveChunk | components/mk2pvrouter/mk2pvrouter.cpp:93-94 | bytes that continue the stream, queued behind the waiting ones, keep the decoder on it at the same place |
| Arrival.FeedFirst | components/mk2pvrouter/mk2pvrouter.cpp:138-209 | one chunk and one call keep the decoder on the stream, account for what is published, and bring it no further from OFF |
| Arrival.FeedTracks | components/mk2pvrouter/mk2pvrouter.cpp:93 | any split of the stream into chunks, one call after each, keeps the decoder on the stream, brings it no further from OFF, and makes the frame's calls exactly once if it ends in OFF, none otherwise |
| Arrival.AtEnd | components/mk2pvrouter/mk2pvrouter.cpp:152-207 | with everything arrived and no call needed, the decoder is in OFF with the body buffered and the bytes after the frame waiting |
| Arrival.Nearer | components/mk2pvrouter/mk2pvrouter.cpp:138-209 | once everything has arrived, each call before OFF uses up one of the calls still needed |
| Arrival.Drain | components/mk2pvrouter/mk2pvrouter.cpp:138-209 | once everything has arrived, the calls still needed (or more) publish the frame if not yet published and leave OFF with the bytes after the frame waiting |
| Arrival.OnAtStart | components/mk2pvrouter/mk2pvrouter.cpp:122-127 | after `update()` the decoder stands at the head of the stream with nothing published and `|noise| / 128 + |body| / 128 + 3` calls still needed |
| Arrival.FeedThenDrain | components/mk2pvrouter/mk2pvrouter.cpp:138-209 | from the head of the stream, any chunks and then the calls still needed publish the frame once and leave OFF |
| Arrival.ReceiveInChunks | components/mk2pvrouter/mk2pvrouter.cpp:90-209 | after `update()`, noise, `0x02`, a body and `0x03` arriving in any chunks, with one `loop()` after each, then `|noise| / 128 + |body| / 128 + 3` more calls: OFF with the body buffered, the rest waiting, and exactly one walk of the body published |
| Groups.WalkRound | components/mk2pvrouter/mk2pvrouter.cpp:170-173 | a round that does not stop moves the cursor forward and stays inside the frame |
| Groups.GroupRound | components/mk2pvrouter/mk2pvrouter.cpp:176-180 | a group round that does not stop leaves the cursor within the frame, at or after the group start |
| Groups.CheckedGroup | components/mk2pvrouter/mk2pvrouter.cpp:182-204 | the cursor stays between the group start and just past its CR, and a group is only published when its checksum test passes |
| Groups.EmittedReading | components/mk2pvrouter/mk2pvrouter.cpp:185-204 | a published tag and value fit the 16-byte buffers with their terminator and hold no NUL and no TAB |
| Groups.WalkReadings | components/mk2pvrouter/mk2pvrouter.cpp:170-205 | the walk yields at most one reading per byte, each fitting the scratch buffers and free of NUL and TAB |
| Groups.WalkSkip | components/mk2pvrouter/mk2pvrouter.cpp:170 | bytes without LF do not change what the walk yields |
| Groups.NoCarriageReturnStopsWalk | components/mk2pvrouter/mk2pvrouter.cpp:176-179 | with no CR after the cursor nothing is published |
| Groups.WalkStopsBeforeLastByte | components/mk2pvrouter/mk2pvrouter.cpp:170-171 | no LF before the frame's last byte means nothing is published, so the shorter first search loses nothing |
| Groups.RoundAtLineFeed | components/mk2pvrouter/mk2pvrouter.cpp:170-173 | the round handles the group right after the first LF from the cursor |
| Groups.LineFeedSearch | components/mk2pvrouter/mk2pvrouter.cpp:170-173 | a search over the buffer reaching at least the frame's last byte decides the round as the in-frame search does: no LF inside the frame ends the walk, else the group after it is handled |
| Groups.CarriageReturnSearch | components/mk2pvrouter/mk2pvrouter.cpp:176-180 | no CR after the LF stops the walk; the first CR closes the group |
| Groups.GroupEndsAtCarriageReturn | components/mk2pvrouter/mk2pvrouter.cpp:176 | a group runs to the first CR after its LF |
| Groups.BadChecksumSkips | components/mk2pvrouter/mk2pvrouter.cpp:182-183 | a checksum failure skips the group, the cursor staying just after its LF |
| Groups.BadTagSkips | components/mk2pvrouter/mk2pvrouter.cpp:186-189 | an empty or 16-plus-byte tag skips the group, cursor just after the LF |
| Groups.BadValueSkips | components/mk2pvrouter/mk2pvrouter.cpp:195-198 | an empty or 16-plus-byte value skips the group, cursor just after the tag's TAB |
| Groups.GoodGroupEmits | components/mk2pvrouter/mk2pvrouter.cpp:193-204 | a group passing all checks is published with the C strings of its tag and value, and the cursor moves past value, TAB, checksum byte and CR |
| Groups.CheckedGroupOutcome | components/mk2pvrouter/mk2pvrouter.cpp:182-204 | with known TAB-closed fields, the group is published exactly when checksum and both lengths (1 to 15) pass; otherwise it is skipped with the cursor inside it |
| Groups.CheckedGroupEmits | components/mk2pvrouter/mk2pvrouter.cpp:182-204 | a group passing all checks, fields filling it up to the checksum byte, is published and the cursor moves just past its CR |
| Groups.CheckedGroupSkips | components/mk2pvrouter/mk2pvrouter.cpp:182-199 | any failing check skips the group with the cursor inside it |
| Groups.FieldLenOfPlain | components/mk2pvrouter/mk2pvrouter.cpp:30-33 | `get_field` on a TAB-free field followed by a TAB reports the field's length |
| Groups.EncodedSearch | components/mk2pvrouter/mk2pvrouter.cpp:170-180 | at an encoded group's LF, the round checks exactly that group, up to its own CR |
| Groups.EncodedFields | components/mk2pvrouter/mk2pvrouter.cpp:182-195 | an encoded group's tag and value are found at their lengths, and its checksum test compares against the sender's checksum of tag, TAB, value, TAB |
| Groups.EncodedCheck | components/mk2pvrouter/mk2pvrouter.cpp:182-204 | an encoded group is published exactly when `Accepted` holds, moving past its CR, else skipped |
| Groups.WalkEmits | components/mk2pvrouter/mk2pvrouter.cpp:204 | a publishing round puts its reading first in the walk |
| Groups.WalkStops | components/mk2pvrouter/mk2pvrouter.cpp:177-179 | a stopping round ends the walk |
| Groups.WalkSkips | components/mk2pvrouter/mk2pvrouter.cpp:183 | a skipping round leaves the walk to the new cursor |
| Groups.GroupStep | components/mk2pvrouter/mk2pvrouter.cpp:161-205 | at an encoded group the walk yields that group's reading if accepted, nothing otherwise, and goes on after its CR |
| Groups.WalkEncoded | components/mk2pvrouter/mk2pvrouter.cpp:170-205 | a run of encoded groups yields the accepted groups' readings, then the walk goes on after them |
| Groups.FrameWalk | components/mk2pvrouter/mk2pvrouter.cpp:170-205 | a frame of well-framed groups publishes the readings of exactly the accepted groups, in order |
| Groups.ExpectedSendable | components/mk2pvrouter/mk2pvrouter.cpp:204 | correctly sent NUL-free groups are each read back as their own tag and value |
| Groups.RoundTrip | components/mk2pvrouter/mk2pvrouter.cpp:161-205 | N correctly encoded groups yield exactly N readings, the i-th being the i-th group's (tag, value) |
| Groups.GroupRoundTrip | components/mk2pvrouter/mk2pvrouter.cpp:161-205 | one group with 1-15-byte plain fields and the right checksum yields exactly its (tag, value) |
| Crc.Covered | components/mk2pvrouter/mk2pvrouter.cpp:51 | the checksum covers no more than the group, and all but the trailing bytes when the group is long enough |
| Crc.Checksum | components/mk2pvrouter/mk2pvrouter.cpp:54-55 | the checksum lies in 0x20..0x5F, so it is never TAB, LF, CR or NUL |
| Crc.WrapKeepsLowBits | components/mk2pvrouter/mk2pvrouter.cpp:50-53 | the 8-bit wrap of the running sum does not change its value modulo 64 |
| Crc.MaskIsMod64 | components/mk2pvrouter/mk2pvrouter.cpp:54 | `& 0x3F` on a byte is its remainder modulo 64 |
| Crc.EmptyGroupFails | components/mk2pvrouter/mk2pvrouter.cpp:69-70 | an empty group is compared with the LF before it and always fails |
| Crc.PassingCrcByte | components/mk2pvrouter/mk2pvrouter.cpp:68-79 | a group passes only when its last byte lies in 0x20..0x5F, so never when it is TAB, LF, CR or NUL |
| Crc.GroupCrcOkIff | components/mk2pvrouter/mk2pvrouter.cpp:68-79 | a non-empty group passes exactly when its last byte is the checksum of every earlier byte |
| Field.FindByte | components/mk2pvrouter/mk2pvrouter.cpp:30 | the result is the first position holding the byte in the range, or none when no position does |
| Field.Memchr | components/mk2pvrouter/mk2pvrouter.cpp:30 | the scan returns `FindByte` |
| Field.FieldLen | components/mk2pvrouter/mk2pvrouter.cpp:26-40 | a positive length ends at a TAB inside the range with no TAB before it; 0 exactly when there is no TAB or the first byte is the TAB |
| Field.CStr | components/mk2pvrouter/mk2pvrouter.cpp:204 | the C string is the longest NUL-free prefix, ending at the first NUL or at the end |
| Field.CStrNoNul | components/mk2pvrouter/mk2pvrouter.cpp:204 | a field without NUL reads back as itself |
| Field.StrNCpy | components/mk2pvrouter/mk2pvrouter.cpp:36 | `strncpy` output has the field's length: the field's bytes up to its first NUL, NULs after |
| Field.StrNCpyKeepsCStr | components/mk2pvrouter/mk2pvrouter.cpp:36-37 | a copied and terminated field reads back as the field's C string |
| Field.StrNCopy | components/mk2pvrouter/mk2pvrouter.cpp:36 | the array's first `n` bytes become `StrNCpy` of the source field and the rest is untouched |
| Field.CopiedCStr | components/mk2pvrouter/mk2pvrouter.cpp:36-37 | a destination holding a copied, terminated field reads back as the field's C string |
| Field.GetField | components/mk2pvrouter/mk2pvrouter.cpp:26-40 | returns `FieldLen`; copies and terminates the field exactly when it fits (`len < max_len`) and a TAB was found, the destination then reading back as the field's C string; leaves it untouched otherwise |
| Listeners.Deliveries | components/mk2pvrouter/mk2pvrouter.cpp:217-223 | publishing to `n` listeners makes at most `n` calls |
| Listeners.DeliveriesMatch | components/mk2pvrouter/mk2pvrouter.cpp:218-221 | every call goes to a listener whose tag equals the published tag, with the published value |
| Listeners.DeliveriesOrdered | components/mk2pvrouter/mk2pvrouter.cpp:218 | calls follow registration order, each listener at most once |
| Listeners.DeliveriesReach | components/mk2pvrouter/mk2pvrouter.cpp:218-221 | every listener with the published tag is called |
| Listeners.DeliveriesNext | components/mk2pvrouter/mk2pvrouter.cpp:218-222 | one more listener adds one call exactly when its tag matches |
| Listeners.UnknownTagReachesNobody | components/mk2pvrouter/mk2pvrouter.cpp:219-220 | a tag no listener declared calls nobody |
| Listeners.DeliveriesPrefix | components/mk2pvrouter/mk2pvrouter.cpp:218 | listeners registered later do not change calls to earlier ones |
| Listeners.RegisterAppendsDelivery | components/mk2pvrouter/mk2pvrouter.cpp:248-250 | registering a listener keeps every earlier call, in order, and adds exactly one call to it when its tag matches |
| Listeners.DispatchAllCalls | components/mk2pvrouter/mk2pvrouter.cpp:217-223 | publishing a sequence of readings calls only registered listeners, each with the value of a reading published under its own tag |
| Listeners.DispatchAllAppend | components/mk2pvrouter/mk2pvrouter.cpp:204 | publishing readings one after another makes their calls in that order |

## Left out

- `dump_config`, `check_uart_settings` and `baud_rate_` (mk2pvrouter.cpp:230-233, 240) are UART configuration and logging, with no effect on decoding.
- The UART itself. The waiting bytes are the field `rx`, and `Receive` stands for bytes arriving.
- ESPHome scheduling. `setup`, `update` and `loop` are methods to call; `Machine.Loops` describes repeated `loop()` calls.
- `ESP_LOG*` logging. It changes no state.
- The listeners' own `publish_val`. The default does nothing, and an override is code outside this component, so each call is recorded as an event.
- The unused constant `MAX_ITERATIONS` (mk2pvrouter.cpp:14).
- Router.Mk2PVRouter.WalkStep: searches for LF only up to the end of the 1048-byte buffer. The source's search may read past it (see Findings), and memory beyond the buffer is not modelled.
- Router.Mk2PVRouter.WalkFrame: does not state what the scratch buffers `tagBuf` and `valBuf` hold afterwards. Only their C-string reading at publish time matters to the source.
- Router.Mk2PVRouter.Loop: likewise says nothing about the scratch buffers, nor about the frame buffer beyond `bufIndex`.
- Bytes arriving during a `loop()` call. `available()` is read again before each read (mk2pvrouter.cpp:93), so a call may take a byte that arrived while it ran. `Arrival` lets bytes arrive only between calls. A byte that arrives during a call and is taken by it acts as if it had arrived just before the call. One the call does not take acts as if it had arrived just after. This argument is not a proved lemma.
- The walk reads the frame buffer through a copy taken when the walk starts, since it never writes the buffer.
- Bytes are unsigned. The checksum lies in 0x20..0x5F, so comparing it with the `char` holding the last group byte gives the same answer whatever the signedness of `char`.
- The integer widths of `buf_index_` (32 bits) and the read counter `j` (8 bits) are not modelled. `buf_index_` stays at or below 1047. `j` stays at or below 129, because the test `j++ < 128` (mk2pvrouter.cpp:93) increments `j` even when it fails. Neither wraps. The exception is `buf_index_ - 1`, whose wrap is modelled in `Machine.LineFeedWindow`.
- The buffer-size comment in mk2pvrouter.h:11-12 speaks of 1024 bytes. The model uses the constant's value, 1048.

## Findings

| source | as written | input that shows it | evidently intended | confidence | as-written member | corrected member |
|---|---|---|---|---|---|---|
| components/mk2pvrouter/mk2pvrouter.cpp:170 | each LF search scans `buf_index_ - 1` bytes from the cursor, and for an empty frame `buf_index_ - 1` wraps to 0xFFFFFFFF | the frame `0x02 0x03` (empty body): the search runs from `buf_` over 0xFFFFFFFF bytes. A 600-byte frame whose first group ends at byte 499: the next search covers bytes 500..1098, past the 1048-byte buffer | scan `buf_end - buf_finger` bytes, staying inside the frame | high; not executed | Machine.LineFeedWindowOverruns | Groups.WalkRound |
