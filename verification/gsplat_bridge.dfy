/** The splatting viewport bridge: a UI-thread dispatcher and a worker
    thread that share one level-triggered event.

    On every rendering event the dispatcher returns at once if the event is
    still set. Otherwise it pushes the current frame buffer to the UI, takes
    a snapshot of the scene (background planes, pose, mesh path, visibility,
    playing flag), and sets the event. The worker waits for the event and
    then does one cycle: reset the background if it is unusable, exchange
    with the render server, and update the frame buffer. It clears the event
    only at the end of the cycle, so no dispatcher writes a snapshot during
    a cycle. The dispatcher's whole handler is one atomic step; so are the
    worker's loop test, wait, reset, exchange, frame update and clear. */
module GsplatBridge {
  import opened Common
  import opened Pixels
  import opened Wire

  /** A replicator annotator output, with its array shape. */
  datatype RgbaArray = RgbaArray(shape: seq<nat>, pixels: seq<Rgba>)
  datatype DepthArray = DepthArray(shape: seq<nat>, values: seq<Depth>)

  /** An array whose shape is the viewport's holds one entry per pixel (the
      shape describes the data; during start-up it may be anything else). */
  type RgbaPlane = c: RgbaArray | c.shape != RgbaShape || |c.pixels| == PixelCount witness RgbaArray([], [])
  type DepthPlane = d: DepthArray | d.shape != DepthShape || |d.values| == PixelCount witness DepthArray([], [])

  /** Where the worker thread is. `Resetting`, `Filling`, `Framing` and
      `Clearing` are the steps of one cycle. */
  datatype Pc = Top | Waiting | Resetting | Filling | Framing | Clearing | Stopped

  datatype Bridge = Bridge(
    event: bool,                  // render_event
    shouldStop: bool,             // should_stop
    pc: Pc,
    cycles: nat,                  // completed worker cycles
    annotators: bool,             // both replicator annotators attached
    rgbaRep: RgbaPlane,           // background colour
    depthRep: DepthPlane,         // background depth
    pose: Option<Pose>,           // camera_to_object pose
    meshPath: Option<string>,     // mesh_prim_path (None until the first snapshot)
    visibility: Option<string>,   // mesh_prim_visibility
    playing: Option<bool>,        // timeline_is_playing
    rgb3dgs: seq<Rgb>,
    depth3dgs: seq<Depth>,
    rgba: seq<Rgba>,              // the frame buffer shown in the UI
    pushed: seq<seq<Rgba>>,       // frames pushed to the UI, oldest first
    sent: seq<seq<Part>>,         // request messages sent to the server
    shutdown: nat)                // 0 running, 1 stop flag set, 2 worker woken

  /** The scene as the dispatcher reads it on one rendering event. */
  datatype Scene = Scene(depth: DepthPlane, colour: RgbaPlane, pose: Pose, meshPath: string,
                         visibility: string, playing: bool)

  datatype Action =
    | Dispatch(scene: Scene)      // `_on_rendering_event`
    | Cleanup                     // `_cleanup` on stage close: annotators detached
    | Work(reply: seq<Part>)      // one worker step; `reply` is what the socket delivers to a fill
    | StopFlag                    // `on_shutdown`: should_stop = True
    | StopWake                    // `on_shutdown`: render_event.set()

  const DepthShape: seq<nat> := [ViewportHeight, ViewportWidth]
  const RgbaShape: seq<nat> := [ViewportHeight, ViewportWidth, 4]

  /** `z_far`, the depth that maps to white in the depth view. */
  const ZFar: real := 5.0

  predicate WellShaped(c: RgbaPlane, d: DepthPlane)
  {
    c.shape == RgbaShape && |c.pixels| == PixelCount && d.shape == DepthShape && |d.values| == PixelCount
  }

  /** State at `on_startup`: buffer at RGB 128 and alpha 255, zeroed
      background planes, black 3DGS colour, +inf 3DGS depth, worker started. */
  function Init(): (s: Bridge)
    ensures Opaque(s.rgba) && |s.rgba| == PixelCount
    ensures !s.event && !s.shouldStop && s.pc == Top && s.meshPath.None?
    ensures WellShaped(s.rgbaRep, s.depthRep)
  {
    Bridge(false, false, Top, 0, false,
           RgbaArray(RgbaShape, seq(PixelCount, _ => Rgba(0, 0, 0, 0))),
           DepthArray(DepthShape, seq(PixelCount, _ => Finite(0.0))),
           None, None, None, None,
           seq(PixelCount, _ => Rgb(0, 0, 0)), seq(PixelCount, _ => Infinite),
           InitialBuffer(), [], [], 0)
  }

  // ---------------------------------------------------------------------
  // The dispatcher

  /** `_on_rendering_event`. Replicator is attached first in any case; with
      the event set nothing else happens. Otherwise the frame is pushed, the
      snapshot written (visibility only for a non-empty mesh path) and the
      event set last. */
  function OnRenderingEvent(s: Bridge, sc: Scene): Bridge
  {
    var s1 := s.(annotators := true);
    if s1.event then s1
    else
      s1.(pushed := s1.pushed + [s1.rgba],
          depthRep := sc.depth, rgbaRep := sc.colour,
          pose := Some(sc.pose), meshPath := Some(sc.meshPath),
          visibility := if sc.meshPath != "" then Some(sc.visibility) else s1.visibility,
          playing := Some(sc.playing),
          event := true)
  }

  /** While a cycle is pending, a rendering event changes nothing but the
      one-time replicator attachment. */
  lemma DispatchWhileBusy(s: Bridge, sc: Scene)
    requires s.event
    ensures OnRenderingEvent(s, sc) == s.(annotators := true)
  {
  }

  /** Otherwise it pushes the old frame, writes every snapshot field, keeps
      the old visibility for an empty mesh path, and sets the event. */
  lemma DispatchWhenIdle(s: Bridge, sc: Scene)
    requires !s.event
    ensures var r := OnRenderingEvent(s, sc);
            && r.event && r.pushed == s.pushed + [s.rgba]
            && r.pose == Some(sc.pose) && r.meshPath == Some(sc.meshPath) && r.playing == Some(sc.playing)
            && r.rgbaRep == sc.colour && r.depthRep == sc.depth
            && (sc.meshPath != "" ==> r.visibility == Some(sc.visibility))
            && (sc.meshPath == "" ==> r.visibility == s.visibility)
            && r.rgba == s.rgba && r.pc == s.pc
  {
  }

  // ---------------------------------------------------------------------
  // The worker

  predicate Truthy(b: Option<bool>)
  {
    b == Some(true)
  }

  /** The background is unusable when the timeline is not playing, an
      annotator is missing, or a plane has the wrong shape. */
  predicate NeedsReset(s: Bridge)
  {
    !Truthy(s.playing) || !s.annotators || s.depthRep.shape != DepthShape || s.rgbaRep.shape != RgbaShape
  }

  /** All-zero RGBA and +inf depth. */
  function EmptyBackground(s: Bridge): (r: Bridge)
    ensures WellShaped(r.rgbaRep, r.depthRep)
  {
    s.(rgbaRep := RgbaArray(RgbaShape, seq(PixelCount, _ => Rgba(0, 0, 0, 0))),
       depthRep := DepthArray(DepthShape, seq(PixelCount, _ => Infinite)))
  }

  function PlaneRgb(c: RgbaPlane): RgbImage
  {
    RgbImage(ViewportHeight, ViewportWidth, seq(|c.pixels|, i requires 0 <= i < |c.pixels| => RgbOf(c.pixels[i])))
  }

  function PlaneDepth(d: DepthPlane): DepthImage
  {
    DepthImage(ViewportHeight, ViewportWidth, d.values)
  }

  /** What a receive outcome does to the 3DGS buffers: an error leaves them
      alone, a decode failure part-way keeps what was written. */
  function Absorb(s: Bridge, outcome: GsOutcome): Bridge
  {
    match outcome
    case ServerError(_) => s
    case Raised => s
    case RgbOnly(rgb) => s.(rgb3dgs := rgb)
    case Decoded(rgb, depth) => s.(rgb3dgs := rgb, depth3dgs := depth)
  }

  /** `_fill_3dgs_buffers`, with the corrected receive. An empty mesh path
      means no exchange. A missing pose (no snapshot yet) raises before
      anything is sent. Otherwise the three-part request is sent and the
      reply absorbed. */
  function Fill(s: Bridge, reply: seq<Part>): Bridge
  {
    if s.meshPath == Some("") then s
    else if s.pose.None? then s
    else
      var s1 := s.(sent := s.sent + [GsplatRequest(s.pose.value, PlaneRgb(s.rgbaRep), PlaneDepth(s.depthRep))]);
      Absorb(s1, GsplatReceiveFixed(reply))
  }

  /** The receive as written ends an error reply in the exception handler
      instead of reporting it, but the buffers end up the same: on every
      reply the two receives have the same effect on the bridge. */
  lemma ClientFixKeepsBuffers(s: Bridge, reply: seq<Part>)
    ensures Absorb(s, GsplatReceive(reply)) == Absorb(s, GsplatReceiveFixed(reply))
    ensures GsplatReceive(reply) != GsplatReceiveFixed(reply) ==>
      GsplatReceive(reply) == Raised && GsplatReceiveFixed(reply).ServerError?
  {
  }

  /** The depth after normalisation: clamp at `z_far`, scale to [0, 255]. */
  function Normalized(d: Depth): (v: real)
    ensures d.Finite? && 0.0 <= d.r ==> 0.0 <= v <= 255.0
    ensures d.Infinite? ==> v == 255.0
  {
    match d
    case Infinite => 255.0
    case Finite(x) => (if x < ZFar then x else ZFar) / ZFar * 255.0
  }

  /** The byte written for one depth value (a negative depth, which the
      distance annotator does not produce, is written as 0). */
  function Shade(d: Depth): Byte
  {
    var v := Normalized(d);
    if v <= 0.0 then 0 else if v >= 255.0 then 255 else v.Floor
  }

  /** `normalize_depth`: each pixel's RGB becomes the grey level of its depth,
      alpha is kept. A pixel without a depth value (the worker's invariant
      rules that out) is left as it is. */
  function DepthView(buf: seq<Rgba>, depth: seq<Depth>): (r: seq<Rgba>)
    ensures |r| == |buf|
    ensures forall i :: 0 <= i < |buf| && i < |depth| ==>
      r[i] == Rgba(Shade(depth[i]), Shade(depth[i]), Shade(depth[i]), buf[i].a)
  {
    seq(|buf|, i requires 0 <= i < |buf| =>
      if i < |depth| then Rgba(Shade(depth[i]), Shade(depth[i]), Shade(depth[i]), buf[i].a) else buf[i])
  }

  /** The kernel also overwrites the depth plane with the normalised values. */
  function NormalizeAll(values: seq<Depth>): (r: seq<Depth>)
    ensures |r| == |values|
  {
    seq(|values|, i requires 0 <= i < |values| => Finite(Normalized(values[i])))
  }

  /** `_update_and_frame_buffer`: the placeholder animation when there is no
      mesh and the timeline is not playing; otherwise make the buffer opaque
      and show the depth view (visible mesh, playing) or the 3DGS colour. */
  function UpdateFrame(s: Bridge): Bridge
  {
    if s.meshPath == Some("") && !Truthy(s.playing) then s.(rgba := Tick(s.rgba))
    else
      var b := SetOpaque(s.rgba);
      if s.visibility != Some("invisible") && Truthy(s.playing) then
        s.(rgba := DepthView(b, s.depthRep.values),
           depthRep := s.depthRep.(values := NormalizeAll(s.depthRep.values)))
      else if |s.rgb3dgs| == |b| then s.(rgba := SetRgb(b, s.rgb3dgs))
      else s.(rgba := b)
  }

  /** One atomic step of `_render_worker`. */
  function WorkerStep(s: Bridge, reply: seq<Part>): Bridge
  {
    match s.pc
    case Top => s.(pc := if s.shouldStop then Stopped else Waiting)
    case Waiting => if s.event then s.(pc := Resetting) else s
    case Resetting => (if NeedsReset(s) then EmptyBackground(s) else s).(pc := Filling)
    case Filling => Fill(s, reply).(pc := Framing)
    case Framing => UpdateFrame(s).(pc := Clearing)
    case Clearing => s.(event := false, pc := Top, cycles := s.cycles + 1)
    case Stopped => s
  }

  function Step(s: Bridge, a: Action): Bridge
  {
    match a
    case Dispatch(sc) => OnRenderingEvent(s, sc)
    case Cleanup => s.(annotators := false)
    case Work(reply) => WorkerStep(s, reply)
    case StopFlag => if s.shutdown == 0 then s.(shouldStop := true, shutdown := 1) else s
    case StopWake => if s.shutdown == 1 then s.(event := true, shutdown := 2) else s
  }

  function Run(s: Bridge, acts: seq<Action>): Bridge
    decreases |acts|
  {
    if acts == [] then s else Run(Step(s, acts[0]), acts[1..])
  }

  // ---------------------------------------------------------------------
  // Invariants

  predicate InCycle(pc: Pc)
  {
    pc == Resetting || pc == Filling || pc == Framing || pc == Clearing
  }

  /** The invariant of every reachable state:
      - during a cycle the event is set;
      - after the reset step of a cycle the background planes are usable;
      - the buffers have viewport size, and the frame buffer is opaque;
      - the stop flag is set once shutdown has begun. */
  predicate Inv(s: Bridge)
  {
    && (InCycle(s.pc) ==> s.event)
    && (s.pc == Filling || s.pc == Framing ==> WellShaped(s.rgbaRep, s.depthRep))
    && |s.rgba| == PixelCount && |s.rgb3dgs| == PixelCount && Opaque(s.rgba)
    && (s.shutdown > 0 ==> s.shouldStop)
    && s.shutdown <= 2
  }

  lemma InitInv()
    ensures Inv(Init())
  {
  }

  lemma StepInv(s: Bridge, a: Action)
    requires Inv(s)
    ensures Inv(Step(s, a))
  {
    if a.Work? && s.pc == Framing {
      var b := SetOpaque(s.rgba);
      RgbWritesKeepOpaque(b, s.rgb3dgs);
    }
    if a.Work? && s.pc == Filling {
      var f := Fill(s, a.reply);
      assert |f.rgb3dgs| == PixelCount;
    }
  }

  lemma {:induction false} RunInv(s: Bridge, acts: seq<Action>)
    requires Inv(s)
    ensures Inv(Run(s, acts))
    decreases |acts|
  {
    if acts != [] {
      StepInv(s, acts[0]);
      RunInv(Step(s, acts[0]), acts[1..]);
    }
  }

  /** What the dispatcher writes and the worker reads. */
  datatype Snapshot = Snapshot(colour: RgbaPlane, depth: DepthPlane, pose: Option<Pose>,
                               meshPath: Option<string>, visibility: Option<string>, playing: Option<bool>)

  function SnapshotOf(s: Bridge): Snapshot
  {
    Snapshot(s.rgbaRep, s.depthRep, s.pose, s.meshPath, s.visibility, s.playing)
  }

  /** During a cycle no other thread changes the snapshot: the dispatcher
      returns early because the event is still set, and shutdown and cleanup
      do not write it. */
  lemma SnapshotStableDuringCycle(s: Bridge, a: Action)
    requires Inv(s) && InCycle(s.pc) && !a.Work?
    ensures SnapshotOf(Step(s, a)) == SnapshotOf(s)
    ensures Step(s, a).pc == s.pc && Step(s, a).rgba == s.rgba
  {
  }

  /** The annotator flag is not part of the snapshot. The reset step reads
      it, and `_cleanup` can clear it while a cycle waits to reset, so a
      background that needed no reset is then replaced by the empty one. */
  lemma CleanupDuringCycleForcesReset(s: Bridge, reply: seq<Part>)
    requires s.pc == Resetting && !NeedsReset(s)
    ensures SnapshotOf(Step(s, Cleanup)) == SnapshotOf(s)
    ensures WorkerStep(s, reply).depthRep == s.depthRep
    ensures WorkerStep(Step(s, Cleanup), reply).depthRep == EmptyBackground(s).depthRep
  {
  }

  /** Reachable states satisfy the invariant, so the snapshot is stable
      during every cycle of every run. */
  lemma ReachableSnapshotStable(acts: seq<Action>, a: Action)
    requires InCycle(Run(Init(), acts).pc) && !a.Work?
    ensures SnapshotOf(Step(Run(Init(), acts), a)) == SnapshotOf(Run(Init(), acts))
  {
    InitInv();
    RunInv(Init(), acts);
  }

  // ---------------------------------------------------------------------
  // One cycle

  /** The reset step replaces an unusable background by zero colour and +inf
      depth, and keeps a usable one. */
  lemma ResetStep(s: Bridge, reply: seq<Part>)
    requires s.pc == Resetting
    ensures var r := WorkerStep(s, reply);
            && r.pc == Filling
            && (NeedsReset(s) ==> forall i :: 0 <= i < PixelCount ==>
                  r.rgbaRep.pixels[i] == Rgba(0, 0, 0, 0) && r.depthRep.values[i] == Infinite)
            && (!NeedsReset(s) ==> r == s.(pc := Filling))
  {
  }

  /** The fill never escapes the worker's cycle: whatever the reply, the
      next step is the frame update. An empty mesh path sends nothing;
      otherwise, with a pose, exactly one three-part message goes out,
      starting with the pose. */
  lemma FillStep(s: Bridge, reply: seq<Part>)
    requires s.pc == Filling
    ensures var r := WorkerStep(s, reply);
            && r.pc == Framing
            && (s.meshPath == Some("") ==> r == s.(pc := Framing))
            && (s.meshPath != Some("") && s.pose.Some? ==>
                  |r.sent| == |s.sent| + 1 && WellFramed(r.sent[|s.sent|]) && |r.sent[|s.sent|]| == 3
                  && r.sent[|s.sent|][0].frame == JsonFrame(PoseJson(s.pose.value)))
  {
  }

  /** An error reply leaves the 3DGS colour and depth untouched. */
  lemma ErrorKeepsBuffers(s: Bridge, reply: seq<Part>)
    requires s.pc == Filling
    requires |reply| > 0 && reply[0].frame.JsonFrame? && "error" in reply[0].frame.obj
    ensures WorkerStep(s, reply).rgb3dgs == s.rgb3dgs && WorkerStep(s, reply).depth3dgs == s.depth3dgs
  {
  }

  /** A full-size successful reply replaces both 3DGS buffers; depth arrives
      as its reciprocal. */
  lemma SuccessFillsBuffers(s: Bridge, rgb: RgbImage, depth: DepthImage)
    requires s.pc == Filling && s.meshPath != Some("") && s.pose.Some?
    requires ViewportSized(rgb, depth)
    ensures var r := WorkerStep(s, SuccessReply(rgb, depth));
            r.rgb3dgs == rgb.pixels && r.depth3dgs == RecipAll(depth.values)
  {
  }

  /** The frame-update decision table. */
  lemma FrameStep(s: Bridge, reply: seq<Part>)
    requires s.pc == Framing && Inv(s)
    ensures var r := WorkerStep(s, reply);
            && r.pc == Clearing
            && (s.meshPath == Some("") && !Truthy(s.playing) ==> r.rgba == Tick(s.rgba))
            && (!(s.meshPath == Some("") && !Truthy(s.playing)) && s.visibility != Some("invisible") && Truthy(s.playing) ==>
                  forall i :: 0 <= i < |s.rgba| ==>
                    r.rgba[i] == Rgba(Shade(s.depthRep.values[i]), Shade(s.depthRep.values[i]), Shade(s.depthRep.values[i]), 255))
            && (!(s.meshPath == Some("") && !Truthy(s.playing)) && !(s.visibility != Some("invisible") && Truthy(s.playing)) ==>
                  forall i :: 0 <= i < |s.rgba| ==> r.rgba[i] == Rgba(s.rgb3dgs[i].r, s.rgb3dgs[i].g, s.rgb3dgs[i].b, 255))
  {
  }

  /** A completed cycle clears the event and returns to the loop test. */
  lemma ClearStep(s: Bridge, reply: seq<Part>)
    requires s.pc == Clearing
    ensures var r := WorkerStep(s, reply);
            !r.event && r.pc == Top && r.cycles == s.cycles + 1
  {
  }

  // ---------------------------------------------------------------------
  // Shutdown

  /** Cycles the worker may still complete once the stop flag is set. */
  function Budget(pc: Pc): nat
  {
    if pc == Top || pc == Stopped then 0 else 1
  }

  /** After the stop flag is set, completed cycles plus the budget never grow. */
  lemma StepBudget(s: Bridge, a: Action)
    requires s.shouldStop
    ensures Step(s, a).shouldStop
    ensures Step(s, a).cycles + Budget(Step(s, a).pc) <= s.cycles + Budget(s.pc)
  {
  }

  /** Once `should_stop` is set, the worker completes at most one more cycle
      (none if it is about to test the flag). */
  lemma {:induction false} AtMostOneCycleAfterStop(s: Bridge, acts: seq<Action>)
    requires s.shouldStop
    ensures Run(s, acts).cycles <= s.cycles + Budget(s.pc)
    ensures Run(s, acts).cycles + Budget(Run(s, acts).pc) <= s.cycles + Budget(s.pc)
    decreases |acts|
  {
    if acts != [] {
      StepBudget(s, acts[0]);
      AtMostOneCycleAfterStop(Step(s, acts[0]), acts[1..]);
    }
  }

  /** Worker steps left before it exits, once the flag is set and it cannot
      block (the event is set if it is waiting). */
  function ToExit(pc: Pc): nat
  {
    match pc
    case Stopped => 0
    case Top => 1
    case Clearing => 2
    case Framing => 3
    case Filling => 4
    case Resetting => 5
    case Waiting => 6
  }

  predicate CanExit(s: Bridge)
  {
    s.shouldStop && (s.pc == Waiting ==> s.event)
  }

  /** Each worker step brings an unblocked stopping worker one step closer to
      exiting. */
  lemma WorkerStepTowardsExit(s: Bridge, reply: seq<Part>)
    requires CanExit(s) && s.pc != Stopped
    ensures CanExit(WorkerStep(s, reply))
    ensures ToExit(WorkerStep(s, reply).pc) == ToExit(s.pc) - 1
  {
  }

  /** After `on_shutdown` has set the flag and then the event, six worker
      steps (whatever the socket delivers) end the worker loop. */
  lemma {:induction false} WorkerExits(s: Bridge, replies: seq<seq<Part>>)
    requires CanExit(s) && |replies| >= ToExit(s.pc)
    ensures WorkerRun(s, replies).pc == Stopped
    decreases |replies|
  {
    if s.pc != Stopped {
      WorkerStepTowardsExit(s, replies[0]);
      WorkerExits(WorkerStep(s, replies[0]), replies[1..]);
    } else {
      WorkerRunStopped(s, replies);
    }
  }

  /** Worker steps only. */
  function WorkerRun(s: Bridge, replies: seq<seq<Part>>): Bridge
    decreases |replies|
  {
    if replies == [] then s else WorkerRun(WorkerStep(s, replies[0]), replies[1..])
  }

  lemma {:induction false} WorkerRunStopped(s: Bridge, replies: seq<seq<Part>>)
    requires s.pc == Stopped
    ensures WorkerRun(s, replies) == s
    decreases |replies|
  {
    if replies != [] {
      WorkerRunStopped(s, replies[1..]);
    }
  }

  /** `on_shutdown` sets the flag before the event, so the worker it wakes
      can exit. */
  lemma ShutdownWakesIntoExit(s: Bridge)
    requires Inv(s) && s.shutdown == 0
    ensures var r := Step(Step(s, StopFlag), StopWake);
            && r.shouldStop && r.event && CanExit(r)
  {
  }
}
