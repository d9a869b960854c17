# craft-bevy netcode bookkeeping, modelled in Dafny

craft-bevy is a voxel game on the Bevy engine. Its client and server exchange command
frames (player inputs tagged with a frame number) and authoritative state frames (serialized
component state). This project models the bookkeeping behind that exchange and proves
properties of it:

- `CommandFrameBuffer` and `StateFrameBuffer` are sliding windows of frames. They support
  `push` with eviction, `grow`/`shrink` of the capacity, `clear_old`, and a history iterator
  that stops at the first entry below a threshold. The frame arithmetic the two buffers share
  lives in `FrameWindow`.
- `Synchronized` holds a component's buffers. Its authoring command skips a push when the
  newly authored state frame equals the frame the history iterator yields first.
- `Synchronizable` holds a component's inputs. `input_frame` drains every input up to a
  frame and returns the last one drained.
- `Clients` is the server's registry from connections to client ids. `ConnectionInfo` is
  the local role.
- The network message listener handles one batch of transport events. It sends on connect,
  authorizes clients and turns messages into command-frame, state-frame and entity-spawn
  events according to the local role.
- The server's player-movement system routes command frames into the command buffer of the
  matching entity. The client's state-consumption system turns state frames into consume
  commands for the mirroring local entity.
- `SimulationTime` is the fixed-step frame counter.
- `WorldData` is the 3x3x3 window of loaded chunks around the player.
- `Octree` is the indirection pool of the voxel octree texture: the free-slot cursor,
  slot flattening, offsets, and the descent `add_data` makes.

Stateful source types are Dafny classes. Their fields are the Rust struct's fields, and a
`VecDeque` or `HashMap` becomes a `seq` or `map` field that the methods reassign. Each
class with non-trivial behaviour has a value datatype (`Value()`) and pure functions
describing each operation (`Pushed`, `Shrunk`, `Added`, …). Each method's `ensures` ties
the new state to those functions, and lemmas prove what the source promises about them.
Loops in the source are `while` loops here, with the invariants that prove them.

Rust integer types are subset types of `int` (`u8`, `u16`, `u32`, `u128`, `i32`). A
debug-build panic (overflow, underflow, `unwrap` of `None`, an index out of bounds) is a
`requires` clause on the operation that would panic.

The repository is a snapshot taken in the middle of a rewrite, and a few files disagree.
The model follows the code that is actually called:

- Messages have the variants the listener matches on. `src/models/net_message.rs` has no
  `EntitySpawn` variant.
- A `Client` carries only its id (`src/models/net_client.rs`). The listener calls
  `Client::new` with two arguments.
- A state frame's `state` is a byte sequence.
- A component's type id is a `u8` parameter.
- The client consumption system's command is the one `Synchronized::consume_state` builds.
- The command buffer that player movement pushes into is the entity's `CommandFrameBuffer`.

Files: `models.dfy` (shared datatypes), `frame_window.dfy`, `command_frame_buffer.dfy`,
`state_frame_buffer.dfy`, `synchronized.dfy`, `synchronizable.dfy`, `clients.dfy`,
`connection_info.dfy`, `network_message_listener.dfy`, `server_player_movement.dfy`,
`client_authoratative_state_consumption.dfy`, `simulation_time.dfy`, `world_data.dfy`,
`octree.dfy`.

## Model

| member | source | states |
|---|---|---|
| FrameWindow.LeadingRunSpec | src/models/command_frame_buffer.rs:95-103 | `clear_old(f)` pops only front entries of frame `f` and stops at the first entry of another frame |
| FrameWindow.LeadingRunUnique | src/models/command_frame_buffer.rs:95-103 | the number of entries `clear_old(f)` pops is the only prefix length with those two properties |
| FrameWindow.ClearedBelowSpec | src/models/command_frame_buffer.rs:36-38 | the countdown loop of `shrink` pops the longest front prefix whose frames are below the bound and never increase, and stops at the first entry that breaks either rule |
| FrameWindow.ClearedBelowStep | src/models/command_frame_buffer.rs:36-38 | one `clear_old(f)` round, followed by the remaining rounds on what is left, satisfies the same description with bound `f + 1` |
| FrameWindow.ClearedBelowAscending | src/models/command_frame_buffer.rs:30-40 | on entries in ascending frame order, `shrink`'s loop removes the front frame group if its frame is below the bound, and nothing else |
| FrameWindow.HistoryThreshold | src/models/command_frame_buffer.rs:83-93 | the threshold of `history_iter(n)` never exceeds the latest frame; it is `n` frames below the latest, or 0 when `n` exceeds the earliest frame |
| FrameWindow.HistoryLenSpec | src/models/command_frame_buffer.rs:116-124 | the history iterator yields only entries at or above the threshold; its first `None` comes at the first entry below it |
| FrameWindow.HistoryAscendingAllOrNothing | src/models/command_frame_buffer.rs:116-124 | on ascending entries the history iterator yields either the whole buffer or nothing |
| FrameWindow.PlanPush | src/models/command_frame_buffer.rs:54-74 | `push` sets the latest frame; it evicts exactly when the span equals the capacity and the deque is non-empty; only the front frame group is evicted; the earliest frame becomes the new front's frame; the new entry is lost exactly when the eviction empties a one-entry deque |
| FrameWindow.GapPushesNeverEvict | src/models/command_frame_buffer.rs:60 | pushes of frames beyond `earliest + capacity` never evict, because the span skips past the capacity: every such frame is kept |
| FrameWindow.FirstPushOpensWindow | src/models/command_frame_buffer.rs:54-76 | the first push into an empty buffer produces a contiguous window holding just that frame |
| FrameWindow.ConsecutivePushKeepsWindow | src/models/command_frame_buffer.rs:60-76 | pushing consecutive frames keeps the window contiguous and never holds more than `capacity` frames (for capacity at least 2) |
| FrameWindow.ShrinkAscending | src/models/command_frame_buffer.rs:30-40 | `shrink` lowers the capacity and keeps both counters, even when the earliest frame's entries go; on ascending entries it removes the front frame group exactly when its frame is below `latest - capacity'` |
| FrameWindow.GrowOnlyRaisesCapacity | src/models/command_frame_buffer.rs:26-28 | `grow` adds to the capacity and changes nothing else |
| CommandFrameBuffers.ClearStep | src/models/command_frame_buffer.rs:36-38 | one round of the shrink loop leaves a suffix of the starting entries, and the count still to pop stays consistent with `ClearedBelow` |
| CommandFrameBuffers.EvictStep | src/models/command_frame_buffer.rs:61-68 | `pop_front` followed by `clear_old` of the popped frame removes the front frame group |
| CommandFrameBuffers.Pushed | src/models/command_frame_buffer.rs:42-77 | the counters and frames after `push` are those `FrameWindow.ApplyPush` gives |
| CommandFrameBuffers.Grown | src/models/command_frame_buffer.rs:26-28 | the buffer after `grow` has the window `FrameWindow.ApplyGrow` gives |
| CommandFrameBuffers.Shrunk | src/models/command_frame_buffer.rs:30-40 | the buffer after `shrink` has the window `FrameWindow.ApplyShrink` gives |
| CommandFrameBuffers.PushedKeepsOrder | src/models/command_frame_buffer.rs:48-76 | a push appends exactly the frame `{entity_id, frame, input}` at the back, behind the surviving entries in their old order; the evicted entries are a front prefix sharing the front frame |
| CommandFrameBuffers.HistoryWithinWindow | src/models/command_frame_buffer.rs:83-93 | the history yields a front prefix of the deque, every entry at or above the threshold; when not clamped, within `n` frames of the latest |
| CommandFrameBuffers.DefaultHistoryEmpty | src/models/command_frame_buffer.rs:14-22 | a default buffer's history is empty for any lookback |
| CommandFrameBuffers.CommandFrameBuffer.constructor | src/models/command_frame_buffer.rs:14-22 | a default buffer has both counters 0, capacity 3 and no entries |
| CommandFrameBuffers.CommandFrameBuffer.Grow | src/models/command_frame_buffer.rs:26-28 | the new state is `Grown` of the old state |
| CommandFrameBuffers.CommandFrameBuffer.Shrink | src/models/command_frame_buffer.rs:30-40 | the new state is `Shrunk` of the old state; panics on capacity underflow |
| CommandFrameBuffers.CommandFrameBuffer.ClearAllBelow | src/models/command_frame_buffer.rs:36-38 | the countdown loop leaves the entries after the `ClearedBelow` prefix; counters unchanged |
| CommandFrameBuffers.CommandFrameBuffer.Push | src/models/command_frame_buffer.rs:42-77 | the new state is `Pushed` of the old state; requires no underflow in `latest - earliest` |
| CommandFrameBuffers.CommandFrameBuffer.HistoryIter | src/models/command_frame_buffer.rs:83-93 | a fresh iterator over the deque with the clamped threshold, which will yield exactly `History` |
| CommandFrameBuffers.CommandFrameBuffer.ClearOld | src/models/command_frame_buffer.rs:95-103 | the loop drops exactly the `LeadingRun` of the frame; counters unchanged |
| CommandFrameBuffers.CommandFrameBufferIterMut.constructor | src/models/command_frame_buffer.rs:106-109 | an iterator at the front of a snapshot with its threshold |
| CommandFrameBuffers.CommandFrameBufferIterMut.Next | src/models/command_frame_buffer.rs:116-124 | `next` returns the next entry if it is at or above the threshold, else `None`, and advances past whatever it looked at |
| StateFrameBuffers.ClearStep | src/models/state_frame_buffer.rs:36-38 | as for the command buffer, over state frames |
| StateFrameBuffers.EvictStep | src/models/state_frame_buffer.rs:53-60 | as for the command buffer, over state frames |
| StateFrameBuffers.Pushed | src/models/state_frame_buffer.rs:42-69 | the counters and frames after `push(sf)` are those `FrameWindow.ApplyPush` gives |
| StateFrameBuffers.Grown | src/models/state_frame_buffer.rs:26-28 | the buffer after `grow` has the window `FrameWindow.ApplyGrow` gives |
| StateFrameBuffers.Shrunk | src/models/state_frame_buffer.rs:30-40 | the buffer after `shrink` has the window `FrameWindow.ApplyShrink` gives |
| StateFrameBuffers.HistoryFirst | src/models/state_frame_buffer.rs:108-116 | the first `next()` of `history_iter(n)` is the front entry exactly when it is at or above the threshold |
| StateFrameBuffers.PushedKeepsOrder | src/models/state_frame_buffer.rs:46-68 | a push appends the state frame at the back behind the survivors, in order; evictions are a front group |
| StateFrameBuffers.HistoryWithinWindow | src/models/state_frame_buffer.rs:75-85 | the history is a front prefix at or above the threshold |
| StateFrameBuffers.DefaultHistoryEmpty | src/models/state_frame_buffer.rs:14-22 | a default buffer's history is empty |
| StateFrameBuffers.StateFrameBuffer.constructor | src/models/state_frame_buffer.rs:14-22 | counters 0, capacity 3, no entries |
| StateFrameBuffers.StateFrameBuffer.Grow | src/models/state_frame_buffer.rs:26-28 | new state is `Grown` of the old |
| StateFrameBuffers.StateFrameBuffer.Shrink | src/models/state_frame_buffer.rs:30-40 | new state is `Shrunk` of the old |
| StateFrameBuffers.StateFrameBuffer.ClearAllBelow | src/models/state_frame_buffer.rs:36-38 | the countdown loop leaves the entries after the `ClearedBelow` prefix |
| StateFrameBuffers.StateFrameBuffer.Push | src/models/state_frame_buffer.rs:42-69 | new state is `Pushed` of the old |
| StateFrameBuffers.StateFrameBuffer.HistoryIter | src/models/state_frame_buffer.rs:75-85 | a fresh iterator that will yield exactly `History` |
| StateFrameBuffers.StateFrameBuffer.ClearOld | src/models/state_frame_buffer.rs:87-95 | drops exactly the `LeadingRun` of the frame |
| StateFrameBuffers.StateFrameBufferIterMut.constructor | src/models/state_frame_buffer.rs:98-101 | an iterator at the front of a snapshot |
| StateFrameBuffers.StateFrameBufferIterMut.Next | src/models/state_frame_buffer.rs:108-116 | the next entry if at or above the threshold, else `None` |
| Synchronization.AuthorStateFrame | src/components/synchronized.rs:53-61 | the authored frame carries the entity's id, the component type, the frame and the serialized state |
| Synchronization.ConsumeWrite | src/components/synchronized.rs:44-47 | consuming hands the frame's state bytes to the command's entity |
| Synchronization.AuthorThenConsume | src/components/synchronized.rs:64-66 | consuming an authored frame hands back exactly the authored state to the same entity |
| Synchronization.AuthoredSkipsOnlyFrontDuplicate | src/components/synchronized.rs:30-41 | authoring leaves the buffer unchanged when the front entry passes the threshold and equals the new frame; in every other case it pushes the new frame |
| Synchronization.AuthorIntoEmptyPushes | src/components/synchronized.rs:30-41 | authoring into an empty buffer stores just the new frame |
| Synchronization.AuthoredTwiceDuplicates | src/components/synchronized.rs:31-40 | authoring the same frame twice into a buffer whose front entry is older stores it twice |
| Synchronization.AuthoredLatestIdempotent | src/components/synchronized.rs:30-41 | comparing with the back entry, re-authoring the latest frame leaves the buffer unchanged |
| Synchronization.Synchronized.constructor | src/components/synchronized.rs:69-75 | `new` keeps the component type id and starts two default buffers |
| Synchronization.Synchronized.AuthorState | src/components/synchronized.rs:82-90 | the authoring command carries the component type, the entity and the frame |
| Synchronization.Synchronized.ConsumeState | src/components/synchronized.rs:92-99 | the consumption command carries the component type, the entity and the frame unchanged |
| Synchronization.AuthoringWrite | src/components/synchronized.rs:30-41 | the buffer after the authoring command is `Authored` of the buffer before |
| Synchronizables.DrainCountSpec | src/components/synchronizable.rs:58-76 | `input_frame(f)` pops only front inputs with frame at most `f`, and stops at the first later one |
| Synchronizables.DrainCountUnique | src/components/synchronizable.rs:58-76 | the number popped is the only prefix length with those properties |
| Synchronizables.DrainedNothing | src/components/synchronizable.rs:58-76 | `input_frame` returns `None` exactly when nothing is popped: the deque is empty or its front is later than `f` |
| Synchronizables.DrainStopsAtFirstLater | src/components/synchronizable.rs:65-69 | no input behind a later one is popped |
| Synchronizables.Synchronizable.constructor | src/components/synchronizable.rs:18-27 | empty inputs and predictions, no server truth |
| Synchronizables.Synchronizable.SetServerTruth | src/components/synchronizable.rs:50-52 | the server truth becomes the frame; the deques stay |
| Synchronizables.Synchronizable.ClearServerTruth | src/components/synchronizable.rs:54-56 | the server truth becomes `None`; the deques stay |
| Synchronizables.Synchronizable.InputFrameAt | src/components/synchronizable.rs:58-76 | returns the last input popped (`Drained`) and leaves the inputs after the `DrainCount` prefix |
| ClientRegistry.DefaultKnowsNoConnection | src/resources/clients.rs:13-20 | a default registry knows no connection and is consistent |
| ClientRegistry.AddThenGet | src/resources/clients.rs:27-30 | after `add`, the connection maps to the client's id and the id to the client; other connections and ids keep their entries |
| ClientRegistry.AddKeepsConsistent | src/resources/clients.rs:27-30 | `add` keeps every mapped id registered |
| ClientRegistry.Clients.constructor | src/resources/clients.rs:13-20 | both maps empty |
| ClientRegistry.Clients.GetClientId | src/resources/clients.rs:23-25 | the id stored for the connection, if any |
| ClientRegistry.Clients.Add | src/resources/clients.rs:27-30 | new state is `Added` of the old |
| ClientRegistry.Clients.Iter | src/resources/clients.rs:32-36 | a fresh iterator over every stored client |
| ClientRegistry.ClientsIter.constructor | src/resources/clients.rs:32-36 | nothing yielded, every id still to come |
| ClientRegistry.ClientsIter.Next | src/resources/clients.rs:48-54 | yields a client not yielded before, or `None` exactly when none remain |
| ClientRegistry.IterCoversEachClientOnce | src/resources/clients.rs:48-54 | a finished walk has yielded every stored client exactly once |
| ConnectionInfos.ExactlyOneRole | src/models/connection_info.rs:15-27 | `is_server` and `is_client` follow the variant and exactly one holds |
| ConnectionInfos.ServerAddrByRole | src/models/connection_info.rs:29-41 | on a server `server_addr` is its own address; on a client it is the server field |
| NetworkMessageListener.ConnectedSendsOne | src/systems/network_message_listener.rs:28-44 | a connect event sends exactly one message: a client authorizes with the server, reliably ordered; a server sends an empty message back, unreliably |
| NetworkMessageListener.HandleCommandFrameEvent | src/systems/network_message_listener.rs:99-119 | an event is emitted exactly when the node is a server and the connection is registered, carrying the registered id and the frame |
| NetworkMessageListener.HandleStateFrameEvent | src/systems/network_message_listener.rs:121-137 | at most one event, and one exactly when the node is a client; that event carries the received state frame unchanged |
| NetworkMessageListener.HandleEntitySpawnEvent | src/systems/network_message_listener.rs:139-153 | at most one event, and one exactly when the node is a client; that event carries the received spawn unchanged |
| NetworkMessageListener.ClientEmitsNoCommandFrames | src/systems/network_message_listener.rs:106-109 | over a whole batch, a client emits no command-frame events |
| NetworkMessageListener.ServerEmitsNoStateOrSpawnEvents | src/systems/network_message_listener.rs:127-148 | over a whole batch, a server emits no state-frame or spawn events |
| NetworkMessageListener.ClientForwardsStateAndSpawns | src/systems/network_message_listener.rs:62-72 | over a whole batch, a client's state-frame events are exactly the state frames of the AuthoritativeStateFrame messages, one each, unchanged and in arrival order; its spawn events likewise match the EntitySpawn messages |
| NetworkMessageListener.SpawnsAndSendsCounted | src/systems/network_message_listener.rs:25-79 | one player spawn (component type 1) per authorize message and one send per connect event |
| NetworkMessageListener.RegistryGrowsWithDeviceId | src/systems/network_message_listener.rs:90-94 | the registry only gains connections, every new or changed one maps to the fixed device id 123, and consistency is kept |
| NetworkMessageListener.CommandEventsFromKnownClients | src/systems/network_message_listener.rs:113-118 | every command-frame event comes from an id the registry held before or from the device id |
| NetworkMessageListener.HandleAuthorization | src/systems/network_message_listener.rs:82-97 | registers the connection as client 123 and spawns a player synchronized on component type 1 |
| NetworkMessageListener.NetworkMessageListenerSystem | src/systems/network_message_listener.rs:25-79 | the loop's registry and outputs are those of the fold `Listen` |
| ServerPlayerMovement.FirstMatchSpec | src/systems/server_player_movement.rs:17-20 | the inner loop stops at the first entity whose id matches |
| ServerPlayerMovement.RouteOneTouchesFirstMatchOnly | src/systems/server_player_movement.rs:16-29 | an event with an input command changes only the first matching entity's buffer, by pushing that frame; no other buffer changes |
| ServerPlayerMovement.RouteAllLeavesOthers | src/systems/server_player_movement.rs:13-31 | a buffer that no controlling event names, or that sits behind an earlier entity with the same id, is unchanged after the batch |
| ServerPlayerMovement.RouteEvent | src/systems/server_player_movement.rs:16-31 | the inner loop's effect on the buffers is `RouteOne` |
| ServerPlayerMovement.ServerPlayerMovementSystem | src/systems/server_player_movement.rs:8-33 | the buffers after the batch are `RouteAll` of the buffers before |
| ClientStateConsumption.TargetSpec | src/systems/client_authoratative_state_consumption.rs:17-23 | the target is the first entity mirroring the frame's server entity, and there is none only when no entity mirrors it |
| ClientStateConsumption.ConsumeAllSound | src/systems/client_authoratative_state_consumption.rs:13-24 | at most one command per event; each command is for the component type, carries a received frame unchanged, and targets the first mirroring entity |
| ClientStateConsumption.ConsumeOneComplete | src/systems/client_authoratative_state_consumption.rs:16-23 | an event yields a command exactly when its type matches and some entity mirrors its server entity |
| ClientStateConsumption.ClientAuthoratativeStateConsumptionSystem | src/systems/client_authoratative_state_consumption.rs:7-26 | the nested loops produce exactly `ConsumeAll` |
| SimulationTimes.FrameDurationOf | src/resources/simulation_time.rs:13 | the frame duration times the speed is 1000 ms; it is unbounded exactly when the speed is 0 |
| SimulationTimes.SimulationTime.constructor | src/resources/simulation_time.rs:12-21 | starts at frame 0, both durations from the speed |
| SimulationTimes.SimulationTime.SetFrame | src/resources/simulation_time.rs:23-29 | `frame()` afterwards returns the frame that was set |
| SimulationTimes.SimulationTime.Tick | src/resources/simulation_time.rs:43-46 | the frame goes up by exactly one; the last execution time is now |
| SimulationTimes.SimulationTime.AdjustSpeed | src/resources/simulation_time.rs:48-50 | the current duration follows the speed; the frame is unchanged |
| SimulationTimes.SimulationTimeSystem | src/resources/simulation_time.rs:53-57 | the frame advances by one when `can_tick`, otherwise not at all |
| WorldDatas.EnteringLeavingSplit | src/resources/world_data.rs:45-57 | no coordinate both enters and leaves; the overlap does neither; with no old center the whole window enters; staying put changes nothing |
| WorldDatas.EnteringIsFarFromOldCenter | src/resources/world_data.rs:45-57 | an entering coordinate is at least 2 away from the old center on some axis |
| WorldDatas.CubeListSpec | src/resources/world_data.rs:34-43 | the 27 offsets of the triple loop cover the window, each coordinate once |
| WorldDatas.EnteredCount | src/resources/world_data.rs:45-69 | `move_to` reports at most 27 coordinates, and all 27 when there was no center |
| WorldDatas.WorldData.constructor | src/resources/world_data.rs:19-24 | no center and no chunks |
| WorldDatas.WorldData.AddChunk | src/resources/world_data.rs:26-28 | stores or replaces exactly the chunk at the coordinate |
| WorldDatas.WorldData.MoveTo | src/resources/world_data.rs:30-70 | the result lists, without repeats, exactly the coordinates of the new window not in the old one; chunks of coordinates that left are removed, those that entered are empty, all others are untouched; the center is the new coordinate |
| WorldDatas.WorldData.Unload | src/resources/world_data.rs:59-61 | removes exactly the leaving coordinates' chunks |
| WorldDatas.WorldData.Load | src/resources/world_data.rs:63-65 | inserts an empty chunk for each entering coordinate and lists each once |
| WorldDatas.OldWindow | src/resources/world_data.rs:34-43 | the first triple loop collects exactly the old window, or nothing without a center |
| WorldDatas.SplitWindow | src/resources/world_data.rs:45-57 | the second triple loop leaves exactly the leaving coordinates in the old set and collects exactly the entering ones |
| Octrees.DefaultGrid | src/render/octree.rs:152-170 | depth 0, zero coordinates and eight empty cells with zero data |
| Octrees.NewGrid | src/render/octree.rs:173-180 | the given depth and coordinates with default cells |
| Octrees.PoolIndexDecodes | src/render/octree.rs:105 | the slot flattening `x + 256y` can be undone |
| Octrees.PoolIndexInjective | src/render/octree.rs:134-137 | distinct pool coordinates flatten to distinct slots |
| Octrees.CellIndexDecodes | src/render/octree.rs:42 | the eight cell positions map one to one onto cell indices 0 to 7 |
| Octrees.AdvanceIsSuccessor | src/render/octree.rs:88-102 | the cursor stays in range and moves to the very next pool coordinate: none is handed out twice or skipped |
| Octrees.WalkLandsOnLeaf | src/render/octree.rs:34-73 | the descent stores into an existing slot, on a cell that is not an index cell |
| Octrees.StoreCellChangesOneCell | src/render/octree.rs:46-67 | storing changes exactly one cell of one grid, which becomes a data cell holding the data |
| Octrees.WalkAfterStore | src/render/octree.rs:34-73 | after a store, the descent from the same position takes the same path to the same cell |
| Octrees.AddDataIdempotent | src/render/octree.rs:30-77 | adding the same voxel twice leaves the pool as one addition did |
| Octrees.FreshTreeDescent | src/render/octree.rs:46-56 | in a fresh tree, the origin lands in the root's first cell and any other position reaches the endless `continue` |
| Octrees.NewPoolAsWritten | src/render/octree.rs:20 | the pool `Octree::new` builds has no slots |
| Octrees.NewRootWriteOutOfBounds | src/render/octree.rs:20-21 | the root write of `new` indexes past the end of the pool |
| Octrees.Octree.constructor | src/render/octree.rs:18-28 | extents `2^depth_max`, the cursor at the origin, and a default grid in every slot, the root slot included |
| Octrees.Octree.AllocateNode | src/render/octree.rs:83-115 | while the cursor is below the extent in `z`, writes the new grid, placed at the cursor, into the cursor's slot and advances the cursor; otherwise changes nothing; always returns the default grid |
| Octrees.Octree.ComputeOffset | src/render/octree.rs:117-132 | the offset plus the wrapped grid coordinate is the node's pool coordinate |
| Octrees.Octree.SetGrid | src/render/octree.rs:134-137 | writes exactly the slot the offset flattens to |
| Octrees.Octree.AddData | src/render/octree.rs:30-77 | the loop's outcome is `Walk`, and the pool is changed only at the cell the walk ends on |

## Left out

- Floating point: `SimulationTime`'s `f32` durations are kept as the speed they come from (`FrameDuration`, a real number of milliseconds). `VoxelData`'s colour is four reals.
- Clocks: `Instant::now()` is a natural-number parameter `now`. `can_tick` compares elapsed time with the duration, and is a boolean input to `SimulationTimeSystem`. The `frame_duration` and `last_execution` getters are plain field reads.
- Serialization: `bincode` decoding is a function parameter `decode`. The `unwrap` on it is the requirement that every message decodes (`AllDecode`).
- Transport: `net.send` is recorded as a `Send` value (address, message, delivery) in the listener's outputs. `println!` output is left out.
- ECS: the Bevy event readers, queries and `Commands` are sequences.
  - Player movement routes events into the query rows' buffers.
  - Consumption returns its consume commands.
  - The listener returns its events, sends and spawns. A spawned `(Synchronized, LocalPlayer, LocalPlayerBody)` bundle is recorded as `SpawnedPlayer(1)`.
- The `author_state_inner` and `consume_state_inner` function pointers are `AuthorStateFrame` and `ConsumeWrite`. The component's `author_serialized_state` result is the `state` parameter. Its `consume_serialized_state` is the `ConsumeCall` value handed to the entity.
- Synchronization.Synchronized.AuthorState: the command copies the handle's state buffer by value (`src/components/synchronized.rs:88`). The model runs `AuthoringWrite` against a buffer passed in, so it does not capture whether the copy or the original receives the push.
- The buffers' iterators yield `&mut` references. The model yields values, and writes through them are not modelled.
- Hash iteration order:
  - `ClientsIter.Next`, `Unload` and `Load` pick an arbitrary remaining element.
  - `MoveTo`'s result order is unspecified; only its contents and lack of repeats are stated.
- WorldDatas.WorldData.MoveTo: requires the old and new centers to be at least one step from the `i32` limits, where `center[i] + d` would overflow.
- Debug-build panics are preconditions:
  - `push` with a frame below the earliest frame (`u32` underflow);
  - `grow` past `u32::MAX`; `shrink` below zero;
  - `history_iter` with `latest - n` underflowing;
  - `tick` at `u32::MAX`;
  - `allocate_node` beyond `depth_max`;
  - the `u16` slot flattening with a `z` coordinate of 1 or more (`Flattens`);
  - `compute_offset`'s `u8` subtractions and its `% 0`;
  - `add_data`'s panics (`WalkDefined`).
- Octrees.Octree.AddData: the branch for an empty cell away from the origin `continue`s without advancing `depth`, so the source never leaves its loop. The model returns `Diverges` there instead of looping.
- `IndirectionGrid::create_child` and `Octree::root` are left out. `create_child` relies on shared `Rc<RefCell>` borrowing of the tree and is not called.
- Octrees.Octree.constructor: the pool is a fixed array of 65536 slots, every slot a flattened pool coordinate can name. The source's capacity `grids_max[0] * grids_max[1] * grids_max[2]` overflows `u8` for `depth_max >= 3`. `depth_max` is at most 7, so that `2^depth_max` is a `u8`.
- `Synchronized::command_frames`/`state_frames` and `Synchronizable`'s deque accessors are direct field access.
- `Client::is_authenticated` (always true) is kept as a predicate.

## Findings

| source | as written | input that shows it | evidently intended | confidence | as-written member | corrected member |
|---|---|---|---|---|---|---|
| src/components/synchronized.rs:31-40 | the new state frame is compared with the first entry `history_iter(1)` yields, which is the front (oldest) entry of the buffer | a buffer holding `[a]` with `a.frame == 1`; authoring `sf` with `sf.frame == 2` twice gives `[a, sf, sf]` | re-authoring the frame just stored is skipped: compare with the back (latest) entry | not executed | Synchronization.AuthoredTwiceDuplicates | Synchronization.AuthoredLatestIdempotent |
| src/render/octree.rs:20-21 | `Vec::with_capacity` creates an empty vector, and `pool[0] = …` then indexes past its end | `depth_max <= 2`, e.g. 0 (for larger `depth_max` a debug build already panics on the `u8` overflow at lines 19-20) | the pool is allocated with its slots, so the root grid can be stored in slot 0 | not executed | Octrees.NewRootWriteOutOfBounds | Octrees.Octree.constructor |
