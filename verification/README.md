# A verified model of the omni-3dgs-extension render pipeline

The system streams remotely rendered images (NeRF or 3D Gaussian splatting)
into an Omniverse viewport. This project models its core in Dafny:

- **The viewport bridges** (`GsplatBridge`, `NerfBridge`). In each, a UI-thread
  dispatcher reacts to rendering events and a worker thread waits on a
  `threading.Event`, exchanges one request/reply with the render server, and
  updates a 1280x720 RGBA frame buffer.
  - The splatting bridge snapshots the scene in the dispatcher and clears the
    event at the end of a cycle.
  - The NeRF bridge clears the event before the cycle and sends a pose only
    when it changed.
  - Both fall back to a placeholder animation (`Pixels`) that adds one to
    every colour value modulo 256.
- **The wire protocol** (`Wire`): the multipart messages between the bridges
  and the Gaussian-splatting server.
  - One server iteration: parse the pose, render at 1280x720, reply with
    metadata, RGB and depth, or with a one-part `{'error': ...}`.
  - Both bridges' receive logic, and the depth reciprocal.
- **The render queue of the NeRF renderer** (`RenderQueue`): a bounded deque
  of pose requests served newest first by several render threads. Each thread
  walks a quality ladder (`CameraConfig`), skips rungs of stale requests,
  drops stale results, and publishes into a take-once result slot.
- **The older progressive dispatcher** (`ProgressiveDispatcher`): one thread
  per registered request, each calling back once per rung of a two-rung
  ladder.
- **The checkpoint key normaliser** (`CheckpointKeys`): the four-stage rewrite
  of a loaded state dict's keys before `load_state_dict`.
  - Strip `module.`.
  - Keep `_model.` keys and detect DDP.
  - Drop appearance-embedding keys.
  - Strip the DDP `module.` prefix.

## How the model is built

- Concurrency is modelled as interleavings of atomic steps. Each thread is a
  program counter in an immutable state record, and `Run` folds a sequence
  of actions. Properties are stated for every action sequence: invariants
  are preserved step by step, and bounds are proved with potential
  functions. Most steps are one locked section or one line. These are
  coarser:
  - `update_camera` (render_queue.py:213-222) is one step, although its
    timestamp lock covers only line 219;
  - the body of the NeRF worker's `try` block (nerf extension.py:211-277) is
    one step;
  - the splatting dispatcher (gsplat extension.py:399-425) and each of the
    splatting worker's reset, exchange and frame update are one step each;
  - a legacy registration is two steps (the locked increment, then the
    read-back and thread start), and a legacy rung's render and callback are
    one step.

  A render thread's stale check and its `render_at` call are separate
  steps, so a request can be superseded between them.
- Python dicts are association lists in insertion order. Assignment
  overwrites in place or appends; comprehensions are folds of assignments.
- Images are abstract. A frame is a sequence of pixels; a rendered image
  records what was rendered (pose and camera). Floating-point depth is kept
  as a real, with +inf as a separate tag.
- Clocks, the renderer, cv2 resizing and every value read from the UI or the
  scene are parameters of the actions that consume them.

## Behaviour worth knowing

These follow from the code, and the model keeps them.

- **Depth.** No per-pixel depth compositing is done. The splatting frame
  update (gsplat extension.py:371-382) has three branches. With an empty
  mesh path and the timeline stopped, the placeholder ticks. Otherwise
  alpha becomes 255 and the frame shows the depth view of the replicator
  depth when the timeline plays and the visibility is not `"invisible"`.
  That test also holds when no mesh was ever selected and the visibility is
  still `None`. In every other case the frame shows the rendered colour.
- **Annotator flag.** The snapshot does not cover the annotator flag that
  the reset step reads. `_cleanup` can clear it during a cycle, and
  `init_replicator` in a busy dispatcher can set it
  (`GsplatBridge.CleanupDuringCycleForcesReset`).
- **Events during a cycle.** The splatting worker clears its event at the end
  of a cycle and the dispatcher returns early while the event is set. A
  rendering event that arrives during a cycle is therefore dropped, not
  coalesced into one more cycle (`GsplatBridge.DispatchWhileBusy`). Only the
  NeRF worker, which clears first, gets exactly one more cycle
  (`NerfBridge.SetDuringCycleGivesOneMore`).
- **Depth on the wire.** The server forwards `render_res['depth']` as its
  third part, and the splatting client stores the reciprocal of what it
  receives. Which quantity that part holds is outside the model.
- **Shutdown.** The comment says the event is set to wake the worker "to
  check should_stop". In fact the woken worker first runs one more full
  cycle, which may contact the server, because the flag is checked only at
  the top of the loop (`NerfBridge.ShutdownEndsWorker`).
- **Staleness.** The older dispatcher has no staleness check
  (`ProgressiveDispatcher.StaleRequestStillDelivers`). Its rung budget and
  delay fields are never read.
- **Default ladders.** The two-rung default ladder (90x42 and 900x420, fov 72)
  belongs to the older dispatcher. The current queue's default has five rungs
  from 64x36 to 1280x720.

## Model

| member | source | states |
|---|---|---|
| Common.PrefixRoundTrip | nerfstudio_renderer/src/nerfstudio_renderer/renderer.py:54 | `(p + s)` starts with `p`, and slicing off `len(p)` gives `s` back |
| Pixels.InitialBuffer | extension/exts/omni.gsplat.viewport/omni/gsplat/viewport/extension.py:87-90 | the startup buffer has 1280x720 pixels, all opaque with RGB 128 |
| Pixels.TickNAdvances | extension/exts/omni.nerf.viewport/omni/nerf/viewport/extension.py:276 | after `n` placeholder steps every colour value is `(v + n) mod 256` and alpha is unchanged |
| Pixels.TickPeriod | extension/exts/omni.nerf.viewport/omni/nerf/viewport/extension.py:276 | the `uint8` wrap-around makes the placeholder periodic: 256 steps give the buffer back |
| Pixels.TickChangesEveryPixel | extension/exts/omni.gsplat.viewport/omni/gsplat/viewport/extension.py:372-374 | every placeholder step changes every pixel, so a live pipeline is visibly distinct from a frozen one |
| Pixels.RgbWritesKeepOpaque | extension/exts/omni.nerf.viewport/omni/nerf/viewport/extension.py:273-276 | the placeholder and `rgba[:,:,:3] = ...` never touch alpha, so an opaque buffer stays opaque |
| CameraConfig.DefaultLadder | nerfstudio_renderer/src/nerfstudio_renderer/render_queue.py:64-77 | five rungs, strictly increasing in width and height, all at the Isaac Sim vertical fov, from 64x36 up to 1280x720 |
| CameraConfig.LegacyDefaultLadder | nerfstudio_renderer/render_queue.py:43-46 | two rungs at fov 72: 90x42 with 5 calls and no delay, then 900x420 with 2 calls and delay 0.1 |
| CameraConfig.GetItem | nerfstudio_renderer/render_queue.py:76-83 | Python list indexing: defined exactly for `-len <= idx < len`, with negative indices counted from the end |
| CameraConfig.Enumerate | nerfstudio_renderer/render_queue.py:67-83 | iterating through `__getitem__` until `IndexError` yields exactly the configured rungs, in order |
| RenderQueue.InitQueue | nerfstudio_renderer/src/nerfstudio_renderer/render_queue.py:137-163 | a fresh queue has an empty deque bounded by the thread count, an empty slot and no recorded pose; the two stamps are the two constructor clock readings, so the request stamp is not after the response stamp |
| RenderQueue.BoundedAppend | nerfstudio_renderer/src/nerfstudio_renderer/render_queue.py:142-147 | `deque(maxlen).append` keeps the last `maxlen` elements of `d + [x]` and drops the oldest one only when full |
| RenderQueue.UpdateCamera | nerfstudio_renderer/src/nerfstudio_renderer/render_queue.py:213-222 | a repeated pose changes nothing; a new pose is recorded and stamped, and `(pose, now)` is queued on the right; the response side is untouched |
| RenderQueue.Init | nerfstudio_renderer/src/nerfstudio_renderer/render_queue.py:116-172 | `thread_count` render threads, all at the top of their loop, and a deque bounded by the thread count |
| RenderQueue.WorkerStep | nerfstudio_renderer/src/nerfstudio_renderer/render_queue.py:224-248 | one step of a render thread, case by case: an empty deque changes nothing, otherwise the newest request is popped and starts at rung 0; past the last rung the thread returns to polling; a stale rung is skipped and a fresh one passes its check; a checked rung is rendered at that rung's camera whatever was accepted since; a result older than the last published stamp is dropped, otherwise its stamp becomes the published one and the next step writes its image into the slot, after which the next rung follows; only thread `k` moves, the request stamp is never moved and every new render is of a request in flight |
| RenderQueue.FirstUpdateAccepted | nerfstudio_renderer/src/nerfstudio_renderer/render_queue.py:137-140 | the initial pose matches nothing, so the first update is always queued |
| RenderQueue.PopReturnsLatestUpdate | nerfstudio_renderer/src/nerfstudio_renderer/render_queue.py:222-230 | `pop` after an accepted update returns that request and, when the deque had room, restores the deque |
| RenderQueue.UpdateIdempotent | nerfstudio_renderer/src/nerfstudio_renderer/render_queue.py:250-252 | repeating an update with the same pose changes nothing, whatever the clock says |
| RenderQueue.TakeOnce | nerfstudio_renderer/src/nerfstudio_renderer/render_queue.py:195-198 | `get_rgb_image` returns the slot's content, and a second call without a publication in between returns nothing |
| RenderQueue.DequeBounded | nerfstudio_renderer/src/nerfstudio_renderer/render_queue.py:142-147 | along every run the deque never holds more requests than there are render threads |
| RenderQueue.StepMonotone | nerfstudio_renderer/src/nerfstudio_renderer/render_queue.py:213-248 | with a non-decreasing clock neither timestamp decreases, every new render is of a request that was in flight, and every request put into flight is fresh |
| RenderQueue.ResponseTimestampMonotone | nerfstudio_renderer/src/nerfstudio_renderer/render_queue.py:243-246 | the last response timestamp never decreases along any run |
| RenderQueue.RendersAfterAreFresh | nerfstudio_renderer/src/nerfstudio_renderer/render_queue.py:234-241 | every render call made after a state is for a request at least as new as that state's newest accepted request, or one already past its stale check in that state |
| RenderQueue.StaleRequestNeverRendered | nerfstudio_renderer/src/nerfstudio_renderer/render_queue.py:234-241 | once superseded, a request has no rung rendered whose stale check is still to come, by any thread |
| RenderQueue.InFlightRenderAfterSupersession | nerfstudio_renderer/src/nerfstudio_renderer/render_queue.py:236-241 | the render call holds no lock: a rung past its stale check is rendered even when a newer pose is accepted in between |
| RenderQueue.StaleOverwrite | nerfstudio_renderer/src/nerfstudio_renderer/render_queue.py:243-248 | a clock-respecting two-thread run ends with the older image in the slot although the newer response stamp was recorded |
| RenderQueue.WorkerStepFused | nerfstudio_renderer/src/nerfstudio_renderer/render_queue.py:243-248 | with check and write in one locked section, a fresh result lands in the slot together with its stamp |
| RenderQueue.FusedPublishKeepsNewest | nerfstudio_renderer/src/nerfstudio_renderer/render_queue.py:243-248 | with the fused step the slot, when full, always holds the image whose stamp was last published, under every interleaving |
| RenderQueue.InitHoldsNewest | nerfstudio_renderer/src/nerfstudio_renderer/render_queue.py:163-167 | the empty slot of a fresh queue satisfies that invariant |
| ProgressiveDispatcher.Init | nerfstudio_renderer/render_queue.py:119-127 | no request accepted yet (id -1), completed id 0, no threads, nothing delivered |
| ProgressiveDispatcher.RenderStep | nerfstudio_renderer/render_queue.py:157-163 | one rung appends at most one callback and changes neither id nor ladder |
| ProgressiveDispatcher.RegisterSequential | nerfstudio_renderer/render_queue.py:149-155 | an uninterrupted registration increments the id and starts a thread with the new id at rung 0 |
| ProgressiveDispatcher.RegisterAllShape | nerfstudio_renderer/render_queue.py:149-155 | each sequential registration adds one to the id and one thread after the existing ones |
| ProgressiveDispatcher.SequentialIdAt | nerfstudio_renderer/render_queue.py:149-155 | the n-th sequential registration's thread carries id `acceptedId + 1 + n` and starts at rung 0 |
| ProgressiveDispatcher.SequentialIdsCount | nerfstudio_renderer/render_queue.py:149-155 | sequential registrations get consecutive ids, in order, after the existing threads |
| ProgressiveDispatcher.SequentialIdsFromInit | nerfstudio_renderer/render_queue.py:123-155 | from construction, the n-th sequential registration gets id n |
| ProgressiveDispatcher.DuplicateIdsUnderInterleaving | nerfstudio_renderer/render_queue.py:149-155 | two registrations that both increment before either reads give both threads id 1 (and no thread id 0) |
| ProgressiveDispatcher.ThreadDeliversLadderInOrder | nerfstudio_renderer/render_queue.py:157-163 | a request thread left to run delivers exactly its owed callbacks, one per remaining rung, in ladder order |
| ProgressiveDispatcher.RenderNIdle | nerfstudio_renderer/render_queue.py:160-163 | a thread past its last rung delivers nothing more |
| ProgressiveDispatcher.RenderIgnoresIds | nerfstudio_renderer/render_queue.py:157-163 | what a rung delivers does not depend on the accepted or completed id |
| ProgressiveDispatcher.RenderIgnoresBudgetAndDelay | nerfstudio_renderer/render_queue.py:160-163 | ladders that differ only in call budget and delay deliver the same |
| ProgressiveDispatcher.CompleteIdNeverUpdated | nerfstudio_renderer/render_queue.py:123-163 | `_recent_complete_request_id` keeps its value along every run; the accepted id never decreases |
| ProgressiveDispatcher.StaleRequestStillDelivers | nerfstudio_renderer/render_queue.py:133-163 | a request superseded before its first rung still calls back with its old pose |
| ProgressiveDispatcher.StepLocked | nerfstudio_renderer/render_queue.py:149-155 | with the id read under the lock, the accepted id never decreases, and ladder, completed id and deliveries are kept |
| ProgressiveDispatcher.LockedIdsDistinct | nerfstudio_renderer/render_queue.py:149-155 | with the id read under the lock, thread ids stay strictly increasing under every interleaving |
| ProgressiveDispatcher.LockedInterleavingDistinct | nerfstudio_renderer/render_queue.py:149-155 | the interleaving that duplicated ids now gives ids 0 and 1 |
| CheckpointKeys.Put | nerfstudio_renderer/src/nerfstudio_renderer/renderer.py:61 | `d[k] = v`: `k` then maps to `v`, every other key keeps its value, keys stay distinct, and the length grows only for a new key |
| CheckpointKeys.DropPrefix | nerfstudio_renderer/src/nerfstudio_renderer/renderer.py:54 | a key that starts with the prefix is the prefix followed by the result; any other key is returned as is |
| CheckpointKeys.StripModule | nerfstudio_renderer/src/nerfstudio_renderer/renderer.py:53-55 | the stripped state is a dict (distinct keys) |
| CheckpointKeys.LastMatch | nerfstudio_renderer/src/nerfstudio_renderer/renderer.py:53-55 | the reference lookup is defined exactly when some loaded key strips to `k` |
| CheckpointKeys.LaterKeyWins | nerfstudio_renderer/src/nerfstudio_renderer/renderer.py:53-55 | looking up `k` in the stripped state gives the value of the last loaded key that strips to `k` |
| CheckpointKeys.SplitModelState | nerfstudio_renderer/src/nerfstudio_renderer/renderer.py:57-63 | the loop builds a dict that, on a dict, maps `k` to what `_model.` + `k` held; its flag is true exactly when every `_model.` key continues with `module.` (vacuously with none, with an empty result) |
| CheckpointKeys.ModelPartEmpty | nerfstudio_renderer/src/nerfstudio_renderer/renderer.py:59-61 | without `_model.` keys the model state is empty |
| CheckpointKeys.ModelPartLookup | nerfstudio_renderer/src/nerfstudio_renderer/renderer.py:59-61 | the model part maps `k` to what `_model.` + `k` held |
| CheckpointKeys.DropAppearance | nerfstudio_renderer/src/nerfstudio_renderer/renderer.py:66 | no kept key contains `embedding_appearance` |
| CheckpointKeys.DropAppearanceLookup | nerfstudio_renderer/src/nerfstudio_renderer/renderer.py:66 | keys with the tag disappear; every other key keeps its value |
| CheckpointKeys.DropAppearanceSubset | nerfstudio_renderer/src/nerfstudio_renderer/renderer.py:66 | filtering keeps a subset of the entries, and distinct keys stay distinct |
| CheckpointKeys.StripDdpLookup | nerfstudio_renderer/src/nerfstudio_renderer/renderer.py:69-70 | when every key starts with `module.`, the strip is a renaming: `k` gets what `module.` + `k` held |
| CheckpointKeys.DdpFlagMatches | nerfstudio_renderer/src/nerfstudio_renderer/renderer.py:53-63 | the flag computed on the stripped dict is exactly the reference condition on the loaded keys |
| CheckpointKeys.DdpKeysCarryModule | nerfstudio_renderer/src/nerfstudio_renderer/renderer.py:60-63 | with the flag set, every model-part key starts with `module.` |
| CheckpointKeys.NormaliseMatchesReference | nerfstudio_renderer/src/nerfstudio_renderer/renderer.py:53-70 | the whole normaliser agrees on every key with an independent per-key reference |
| CheckpointKeys.ModelPartDistinct | nerfstudio_renderer/src/nerfstudio_renderer/renderer.py:58-61 | the model part is a dict |
| CheckpointKeys.NoAppearanceKeys | nerfstudio_renderer/src/nerfstudio_renderer/renderer.py:53-70 | no key of the final state mentions the appearance embedding |
| CheckpointKeys.NormaliseDistinct | nerfstudio_renderer/src/nerfstudio_renderer/renderer.py:53-70 | the final state is a dict |
| CheckpointKeys.StripDdpDistinct | nerfstudio_renderer/src/nerfstudio_renderer/renderer.py:70 | the DDP strip yields a dict |
| Wire.Message | vanillags_renderer/src/main.py:143-149 | frames sent with `SNDMORE` on all but the last form one well-framed message carrying those frames in order |
| Wire.Recip | extension/exts/omni.gsplat.viewport/omni/gsplat/viewport/extension.py:330 | `1 / x`: zero maps to +inf and +inf to zero, and nothing else maps to either |
| Wire.RecipInvolution | extension/exts/omni.gsplat.viewport/omni/gsplat/viewport/extension.py:330 | the reciprocal applied twice gives the value back, +inf and zero included |
| Wire.RecipAll | extension/exts/omni.gsplat.viewport/omni/gsplat/viewport/extension.py:330 | the element-wise reciprocal is undone by `Recip` at every pixel |
| Wire.GsplatRequest | extension/exts/omni.gsplat.viewport/omni/gsplat/viewport/extension.py:288-310 | the splatting request is one well-framed three-part message that starts with the pose JSON |
| Wire.NerfRequest | extension/exts/omni.nerf.viewport/omni/nerf/viewport/extension.py:254-258 | the NeRF request is a single part holding the pose JSON |
| Wire.ServeOnce | vanillags_renderer/src/main.py:115-153 | a server iteration consumes one part and answers with a well-framed reply. It has three parts exactly when a 1280x720 camera was built and rendered, and one part exactly when it is an error |
| Wire.PoseRoundTrip | vanillags_renderer/src/main.py:117-122 | the server decodes the pose a bridge encodes into a 1280x720 camera at that pose |
| Wire.ServerRendersRequestedPose | vanillags_renderer/src/main.py:117-123 | for either bridge's request the server renders the requested pose |
| Wire.ShapeMatchesImage | vanillags_renderer/src/main.py:126-149 | a success reply is metadata `[h, w, 3]` matching the RGB TIFF, followed by a float TIFF |
| Wire.ServerReadsOnlyPose | vanillags_renderer/src/main.py:117 | the server consumes one of the three request parts, and its reply does not depend on the background parts |
| Wire.ServeOnceFixed | vanillags_renderer/src/main.py:115-153 | the corrected server consumes parts up to the first one without "more" |
| Wire.FixedServerConsumesRequest | vanillags_renderer/src/main.py:115-153 | the corrected server consumes a well-framed request exactly and replies as before |
| Wire.GsplatReceive | extension/exts/omni.gsplat.viewport/omni/gsplat/viewport/extension.py:312-330 | as written, any reply shorter than three parts ends in the exception handler |
| Wire.ErrorReplyNeverReported | extension/exts/omni.gsplat.viewport/omni/gsplat/viewport/extension.py:312-318 | every server error reply has one part, so the client as written never reaches its `'error'` check |
| Wire.FixedClientRoundTrip | extension/exts/omni.gsplat.viewport/omni/gsplat/viewport/extension.py:312-330 | with the corrected client every server reply is understood: errors report the server's text, and a viewport-sized render arrives with its RGB and its depth inverted |
| Wire.ClientsDifferOnlyOnErrors | extension/exts/omni.gsplat.viewport/omni/gsplat/viewport/extension.py:312-330 | on server replies the two clients agree exactly when the reply has three parts |
| Wire.NerfReceive | extension/exts/omni.nerf.viewport/omni/nerf/viewport/extension.py:259-266 | the NeRF client yields an image only from a JSON reply that has an `'image'` key |
| Wire.NerfRejectsEverySuccess | extension/exts/omni.nerf.viewport/omni/nerf/viewport/extension.py:259-266 | every successful render the server returns ends in the NeRF client's exception handler |
| Wire.NerfReceiveFixed | extension/exts/omni.nerf.viewport/omni/nerf/viewport/extension.py:259-273 | the corrected NeRF client yields an image exactly when the corrected three-part receive decodes the RGB |
| Wire.NerfFixedReceivesRender | extension/exts/omni.nerf.viewport/omni/nerf/viewport/extension.py:259-273 | with the correction, a viewport-sized render of the requested pose reaches the NeRF client |
| GsplatBridge.Init | extension/exts/omni.gsplat.viewport/omni/gsplat/viewport/extension.py:87-94 | the startup buffer is full size and opaque, the worker idle at the loop test, and the background arrays shaped for the viewport |
| GsplatBridge.DispatchWhileBusy | extension/exts/omni.gsplat.viewport/omni/gsplat/viewport/extension.py:399-404 | while the event is set, a rendering event changes nothing but the one-time replicator attachment |
| GsplatBridge.DispatchWhenIdle | extension/exts/omni.gsplat.viewport/omni/gsplat/viewport/extension.py:405-425 | otherwise it pushes the current frame and writes every snapshot field, visibility only for a non-empty mesh path, then sets the event |
| GsplatBridge.EmptyBackground | extension/exts/omni.gsplat.viewport/omni/gsplat/viewport/extension.py:346-348 | the replacement background is shaped for the viewport |
| GsplatBridge.Normalized | extension/exts/omni.gsplat.viewport/omni/gsplat/viewport/extension.py:18-26 | a non-negative depth normalises into [0, 255], and +inf to 255 |
| GsplatBridge.InitInv | extension/exts/omni.gsplat.viewport/omni/gsplat/viewport/extension.py:87-94 | the startup state satisfies the bridge invariant |
| GsplatBridge.StepInv | extension/exts/omni.gsplat.viewport/omni/gsplat/viewport/extension.py:332-442 | every step of any thread keeps the invariant: event set during a cycle, arrays shaped during fill and frame, full-size opaque buffer, shutdown after the flag |
| GsplatBridge.RunInv | extension/exts/omni.gsplat.viewport/omni/gsplat/viewport/extension.py:332-442 | the invariant holds along every run |
| GsplatBridge.SnapshotStableDuringCycle | extension/exts/omni.gsplat.viewport/omni/gsplat/viewport/extension.py:399-425 | during a cycle no other thread changes the snapshot (background planes, pose, mesh path, visibility, playing flag), the worker's position or the frame |
| GsplatBridge.CleanupDuringCycleForcesReset | extension/exts/omni.gsplat.viewport/omni/gsplat/viewport/extension.py:339-348 | the annotator flag the reset step reads is outside the snapshot: `_cleanup` during a cycle turns a kept background into the empty one |
| GsplatBridge.ReachableSnapshotStable | extension/exts/omni.gsplat.viewport/omni/gsplat/viewport/extension.py:399-425 | in every reachable in-cycle state the snapshot is stable against the other threads |
| GsplatBridge.ResetStep | extension/exts/omni.gsplat.viewport/omni/gsplat/viewport/extension.py:340-348 | an unusable background becomes zero colour and +inf depth at every pixel, and a usable one is kept |
| GsplatBridge.FillStep | extension/exts/omni.gsplat.viewport/omni/gsplat/viewport/extension.py:277-310 | with an empty mesh path nothing is sent; otherwise exactly one three-part message starting with the pose goes out; the next step is the frame update whatever the reply |
| GsplatBridge.ErrorKeepsBuffers | extension/exts/omni.gsplat.viewport/omni/gsplat/viewport/extension.py:317-318 | an error reply leaves the 3DGS colour and depth untouched |
| GsplatBridge.SuccessFillsBuffers | extension/exts/omni.gsplat.viewport/omni/gsplat/viewport/extension.py:319-330 | a viewport-sized success reply replaces the colour, and the depth with its reciprocal |
| GsplatBridge.ClientFixKeepsBuffers | extension/exts/omni.gsplat.viewport/omni/gsplat/viewport/extension.py:312-330 | the receive as written and the corrected one have the same effect on the buffers; they differ only where an error is reported instead of raised |
| GsplatBridge.FrameStep | extension/exts/omni.gsplat.viewport/omni/gsplat/viewport/extension.py:371-382 | the frame update: the placeholder with no mesh and no playback; the opaque depth view when visible and playing; else the opaque 3DGS colour |
| GsplatBridge.ClearStep | extension/exts/omni.gsplat.viewport/omni/gsplat/viewport/extension.py:354-356 | a finished cycle clears the event, counts one cycle and returns to the loop test |
| GsplatBridge.StepBudget | extension/exts/omni.gsplat.viewport/omni/gsplat/viewport/extension.py:337-356 | once the flag is set, completed cycles plus the remaining budget never grow |
| GsplatBridge.AtMostOneCycleAfterStop | extension/exts/omni.gsplat.viewport/omni/gsplat/viewport/extension.py:337-356 | after `should_stop` is set the worker completes at most one more cycle, whatever the interleaving |
| GsplatBridge.WorkerStepTowardsExit | extension/exts/omni.gsplat.viewport/omni/gsplat/viewport/extension.py:337-356 | each worker step brings an unblocked stopping worker one step nearer the exit |
| GsplatBridge.WorkerExits | extension/exts/omni.gsplat.viewport/omni/gsplat/viewport/extension.py:337-357 | an unblocked stopping worker exits within the counted number of steps |
| GsplatBridge.WorkerRunStopped | extension/exts/omni.gsplat.viewport/omni/gsplat/viewport/extension.py:357 | an exited worker stays exited |
| GsplatBridge.ShutdownWakesIntoExit | extension/exts/omni.gsplat.viewport/omni/gsplat/viewport/extension.py:438-442 | `on_shutdown` sets the flag before the event, leaving a worker that can exit |
| NerfBridge.Init | extension/exts/omni.nerf.viewport/omni/nerf/viewport/extension.py:64-67 | the startup buffer is full size, opaque and RGB 128; no pose recorded; the worker at the loop test |
| NerfBridge.DispatchIdempotent | extension/exts/omni.nerf.viewport/omni/nerf/viewport/extension.py:282-284 | setting the event twice is setting it once |
| NerfBridge.StepPending | extension/exts/omni.nerf.viewport/omni/nerf/viewport/extension.py:206-279 | a worker step either completes a pending cycle or leaves the pending work as it was |
| NerfBridge.PendingConserved | extension/exts/omni.nerf.viewport/omni/nerf/viewport/extension.py:206-279 | along worker steps, completed plus pending cycles is constant |
| NerfBridge.WorkerCompletesPending | extension/exts/omni.nerf.viewport/omni/nerf/viewport/extension.py:206-279 | without further sets the worker completes exactly its pending cycles, never more and all of them within five steps |
| NerfBridge.PendingSettles | extension/exts/omni.nerf.viewport/omni/nerf/viewport/extension.py:206-209 | enough worker steps leave nothing pending |
| NerfBridge.IdleStaysIdle | extension/exts/omni.nerf.viewport/omni/nerf/viewport/extension.py:206-209 | a worker with nothing pending completes no cycle |
| NerfBridge.RunDispatches | extension/exts/omni.nerf.viewport/omni/nerf/viewport/extension.py:282-284 | any number of rendering events only set the event |
| NerfBridge.SetsBeforeWakeCollapse | extension/exts/omni.nerf.viewport/omni/nerf/viewport/extension.py:206-209 | any number of events before the worker wakes give exactly one cycle |
| NerfBridge.SetDuringCycleGivesOneMore | extension/exts/omni.nerf.viewport/omni/nerf/viewport/extension.py:206-209 | an event during a cycle gives exactly one further cycle, and without it the worker blocks after the current one |
| NerfBridge.SamePoseNotResent | extension/exts/omni.nerf.viewport/omni/nerf/viewport/extension.py:247-277 | an unchanged pose sends nothing and pushes the frame as it is |
| NerfBridge.NewPoseRecordedAndSent | extension/exts/omni.nerf.viewport/omni/nerf/viewport/extension.py:247-258 | a new pose is recorded and sent as one request, whatever the reply |
| NerfBridge.PoseFailureSkipsCycle | extension/exts/omni.nerf.viewport/omni/nerf/viewport/extension.py:210-279 | when getting the viewport, the prim or its transform raises, nothing is recorded, sent or pushed, the frame is kept and the loop goes on |
| NerfBridge.UnchangedPoseNeverResent | extension/exts/omni.nerf.viewport/omni/nerf/viewport/extension.py:247-249 | the same pose in two consecutive cycles is sent at most once, even if the first exchange failed |
| NerfBridge.PlaceholderCycle | extension/exts/omni.nerf.viewport/omni/nerf/viewport/extension.py:274-277 | without backend support or a mesh, the placeholder runs, the frame is pushed and nothing is sent |
| NerfBridge.ErrorReplyKeepsFrame | extension/exts/omni.nerf.viewport/omni/nerf/viewport/extension.py:261-262 | an error reply leaves the frame unchanged, and it is pushed |
| NerfBridge.ExceptionSkipsPush | extension/exts/omni.nerf.viewport/omni/nerf/viewport/extension.py:210-279 | a cycle that raises pushes nothing and keeps the frame, and the loop goes on |
| NerfBridge.ServerSuccessNeverShown | extension/exts/omni.nerf.viewport/omni/nerf/viewport/extension.py:259-273 | as written, a new pose answered by the server's success reply leaves the frame unchanged and unpushed |
| NerfBridge.FixedClientShowsRender | extension/exts/omni.nerf.viewport/omni/nerf/viewport/extension.py:259-277 | with the corrected client, the server's render of a new pose becomes the frame's RGB and is pushed |
| NerfBridge.RunInv | extension/exts/omni.nerf.viewport/omni/nerf/viewport/extension.py:202-290 | along every run the buffer stays full size and opaque |
| NerfBridge.StepBudget | extension/exts/omni.nerf.viewport/omni/nerf/viewport/extension.py:206-209 | once the flag is set, completed cycles plus the remaining budget never grow |
| NerfBridge.AtMostOneCycleAfterStop | extension/exts/omni.nerf.viewport/omni/nerf/viewport/extension.py:286-290 | after `should_stop` is set the worker completes at most one more cycle, whatever the interleaving |
| NerfBridge.WorkerExits | extension/exts/omni.nerf.viewport/omni/nerf/viewport/extension.py:206-209 | a stopping worker not blocked on a cleared event exits within the counted number of steps |
| NerfBridge.ShutdownEndsWorker | extension/exts/omni.nerf.viewport/omni/nerf/viewport/extension.py:286-290 | `on_shutdown` wakes a waiting worker into exactly one more cycle, after which it exits |

## Findings

| source | as written | input that shows it | evidently intended | confidence | as-written member | corrected member |
|---|---|---|---|---|---|---|
| nerfstudio_renderer/src/nerfstudio_renderer/render_queue.py:243-248 | the response-stamp check and the slot write are two separately locked sections | thread 0 passes the check for request A (stamp 1); thread 1 then checks and writes B (stamp 2); thread 0 then writes A | the slot holds the newest published image | not executed | RenderQueue.StaleOverwrite | RenderQueue.FusedPublishKeepsNewest |
| vanillags_renderer/src/main.py:117 | `recv_json()` reads only the first part of a request | the splatting bridge's three-part request (pose, RGB, depth) | receive the whole multipart request | not executed | Wire.ServerReadsOnlyPose | Wire.FixedServerConsumesRequest |
| extension/exts/omni.gsplat.viewport/omni/gsplat/viewport/extension.py:313-318 | three receives happen before the `'error'` check | the server's one-part `{'error': ...}` reply | check the metadata first, and receive the images only on success | not executed | Wire.ErrorReplyNeverReported | Wire.FixedClientRoundTrip |
| extension/exts/omni.nerf.viewport/omni/nerf/viewport/extension.py:259-273 | the reply is expected to be one JSON object with `'shape'` and a base64 `'image'` | any successful render: the server replies `{'shape': ...}` followed by two TIFF parts | read the server's three-part reply | not executed | NerfBridge.ServerSuccessNeverShown | NerfBridge.FixedClientShowsRender |
| nerfstudio_renderer/render_queue.py:149-153 | the id is incremented under the lock and read after the lock is released | two registrations that both increment before either reads | read the id inside the lock | not executed | ProgressiveDispatcher.DuplicateIdsUnderInterleaving | ProgressiveDispatcher.LockedIdsDistinct |

Both bridge models use the corrected receives (`fixedClient` selects it in
`NerfBridge`). `GsplatBridge.ClientFixKeepsBuffers` shows that for the
splatting bridge the correction changes what is reported, not what is drawn.

## Left out

- **Camera pose.** The pose arithmetic is not modelled: matrix products and
  inverses, orthonormalisation, the Euler decomposition, `np.deg2rad` and the
  COLMAP conversion in `create_camera_from_pose`. A pose is an opaque pair of
  vectors carried through unchanged.
- **Rendering.** `render_at`, the Gaussian rasteriser and `cv2.resize` are
  parameters: a function from camera to result, and the `resized` field of an
  observation.
- **Codecs.** TIFF, base64 and JSON are not modelled. Frames carry typed
  values, and a decode that fails is a `None`.
- **Socket state machine.** The ZeroMQ REQ/REP state machine is not modelled:
  neither the `EFSM` errors that follow a partial receive or a send out of
  turn, nor blocking. A receive past the last part of a reply is taken to
  raise, and the server is taken to reply after its one-part receive.
- **File I/O.** `load_config` reads a file, and `NerfStudioRenderer` and the
  model checkpoint are loaded from disk, so neither is modelled.
- **UI.** Windows, overlays, selection and stage events are not modelled.
  Pushing a frame is an append to `pushed`.
- **Replicator.** `init_replicator` is reduced to the `annotators` flag.
- **Sleeps and timeouts.** `time.sleep(0.05)` in the polling loop and the
  one-second join timeout are not modelled.
- **Previous pose.** The splatting bridge's previous-pose fields serve only
  the commented-out eco mode, so they are not modelled.
- **Time.** The clock `time.time()` is an explicit integer parameter of
  updates. Runs state when it is non-decreasing.
- **Python comparison.** The initial `(-inf, -inf, -inf)` pose of the current
  queue is a tuple compared against lists, which never matches. It is
  modelled as "no pose recorded".
- **Mesh path reads.** The NeRF worker reads the mesh path twice (lines 212
  and 219). The model reads it once per cycle.
- **Render exceptions.** `render_at` in the current queue's render thread
  (render_queue.py:241) is called outside any `try`, so an exception ends
  that thread. The model's renderer never raises, and no thread dies.
- **Dispatcher exceptions.** The splatting dispatcher can raise after it has
  written some snapshot fields and before it sets the event: in reading the
  annotators or the camera pose, or in looking up the mesh prim
  (gsplat extension.py:415-422). The model's handler is one step that always
  completes.
- Wire.ServeOnce: the error texts are stand-ins for Python's `str(e)`, so only
  the reply's shape, not its text, is stated.
- GsplatBridge.Shade: a negative depth, which the distance annotator does not
  produce, is written as 0. The kernel's `uint8` conversion of a negative
  float is left unspecified.
- GsplatBridge.StepInv: the invariant states shapes, sizes and opacity, not
  pixel contents.
