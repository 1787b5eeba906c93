/** The NeRF viewport bridge: the UI thread sets a level-triggered event on
    every rendering event, and a worker thread waits for it, clears it at
    once, and then does one cycle of work. Because the event is cleared
    before the work, a rendering event that arrives during a cycle causes
    exactly one more cycle, and any number of events before the worker wakes
    collapse into one.

    A cycle sends the camera pose to the render server only when it differs
    from the last pose sent. It falls back to the placeholder animation when
    the interpreter cannot talk to the backend or no mesh is selected. The
    worker then pushes the frame to the UI unless the cycle raised. The
    loop test, the wait and the clear are one atomic step each; the whole
    body of the `try` block is one step. */
module NerfBridge {
  import opened Common
  import opened Pixels
  import opened Wire

  datatype Pc = Top | Waiting | Woken | Working | Stopped

  datatype Nerf = Nerf(
    supported: bool,              // is_python_supported
    fixedClient: bool,            // reply read with the corrected receive
    event: bool,                  // render_event
    shouldStop: bool,             // should_stop
    pc: Pc,
    cycles: nat,                  // completed worker cycles
    recorded: Option<Pose>,       // camera_position / camera_rotation
    rgba: seq<Rgba>,              // the frame buffer
    pushed: seq<seq<Rgba>>,       // frames pushed to the UI
    sent: seq<seq<Part>>,         // requests sent to the server
    shutdown: nat)                // 0 running, 1 stop flag set, 2 worker woken

  /** What one cycle observes: the mesh path in the UI, the camera pose
      relative to the mesh (`None` when getting the active viewport, the prim
      or its transform raises), the reply the socket delivers, and the result
      of decoding and resizing an image reply to the viewport (`None` when
      that raises). */
  datatype Observation = Observation(meshPath: string, pose: Option<Pose>, reply: seq<Part>, resized: Option<seq<Rgb>>)

  datatype Action =
    | Dispatch                    // `_on_rendering_event`
    | Work(obs: Observation)      // one worker step
    | StopFlag                    // `on_shutdown`: should_stop = True
    | StopWake                    // `on_shutdown`: render_event.set()

  /** State at `on_startup`: buffer RGB 128, alpha 255; no pose recorded. */
  function Init(supported: bool, fixedClient: bool): (s: Nerf)
    ensures |s.rgba| == PixelCount && Opaque(s.rgba)
    ensures forall i :: 0 <= i < |s.rgba| ==> s.rgba[i].r == 128 && s.rgba[i].g == 128 && s.rgba[i].b == 128
    ensures s.recorded.None? && !s.event && s.pc == Top
  {
    Nerf(supported, fixedClient, false, false, Top, 0, None, InitialBuffer(), [], [], 0)
  }

  function Push(s: Nerf): Nerf
  {
    s.(pushed := s.pushed + [s.rgba])
  }

  /** What a reply does to the frame: keep it (an error reply), show an
      image, or raise. */
  datatype Effect = Keep | Show(rgb: seq<Rgb>) | Raise

  /** As written, the reply is one JSON object with `'error'`, or `'shape'`
      and a base64 `'image'` that is decoded and resized. The corrected
      client reads the server's metadata, RGB and depth parts instead. */
  function ReplyEffect(fixedClient: bool, o: Observation): Effect
  {
    if fixedClient then
      if GsplatReceiveFixed(o.reply).ServerError? then Keep
      else match NerfReceiveFixed(o.reply)
        case Some(rgb) => Show(rgb)
        case None => Raise
    else
      match NerfReceive(o.reply)
      case NerfError(_) => Keep
      case NerfRaised => Raise
      case NerfImage(_, _) => if o.resized.Some? then Show(o.resized.value) else Raise
  }

  /** The `try` block of one cycle. */
  function Body(s: Nerf, o: Observation): Nerf
  {
    if s.supported && o.meshPath != "" then
      match o.pose
      case None => s   // the pose could not be read: the cycle raises before anything is recorded
      case Some(pose) =>
        if Some(pose) != s.recorded then
          // the pose is recorded before the request goes out
          var s1 := s.(recorded := Some(pose), sent := s.sent + [NerfRequest(pose)]);
          match ReplyEffect(s.fixedClient, o)
          case Keep => Push(s1)
          case Raise => s1
          case Show(rgb) =>
            // assigning an image of another size raises
            if |rgb| == |s1.rgba| then Push(s1.(rgba := SetRgb(s1.rgba, rgb))) else s1
        else Push(s)
    else Push(s.(rgba := Tick(s.rgba)))
  }

  /** One atomic step of `_render_worker`. */
  function WorkerStep(s: Nerf, o: Observation): Nerf
  {
    match s.pc
    case Top => s.(pc := if s.shouldStop then Stopped else Waiting)
    case Waiting => if s.event then s.(pc := Woken) else s
    case Woken => s.(event := false, pc := Working)
    case Working => Body(s, o).(pc := Top, cycles := s.cycles + 1)
    case Stopped => s
  }

  function Step(s: Nerf, a: Action): Nerf
  {
    match a
    case Dispatch => s.(event := true)
    case Work(o) => WorkerStep(s, o)
    case StopFlag => if s.shutdown == 0 then s.(shouldStop := true, shutdown := 1) else s
    case StopWake => if s.shutdown == 1 then s.(event := true, shutdown := 2) else s
  }

  function Run(s: Nerf, acts: seq<Action>): Nerf
    decreases |acts|
  {
    if acts == [] then s else Run(Step(s, acts[0]), acts[1..])
  }

  function WorkerRun(s: Nerf, obs: seq<Observation>): Nerf
    decreases |obs|
  {
    if obs == [] then s else WorkerRun(WorkerStep(s, obs[0]), obs[1..])
  }

  // ---------------------------------------------------------------------
  // The event

  /** The dispatcher sets the event unconditionally: a second set is a no-op. */
  lemma DispatchIdempotent(s: Nerf)
    ensures Step(Step(s, Dispatch), Dispatch) == Step(s, Dispatch)
    ensures Step(s, Dispatch).event
  {
  }

  /** Cycles the worker can still complete on its own before it blocks or
      exits: the current one, plus one more if the event is set again. */
  function Pending(s: Nerf): nat
  {
    match s.pc
    case Stopped => 0
    case Top => if s.shouldStop then 0 else if s.event then 1 else 0
    case Waiting => if s.event then 1 else 0
    case Woken => 1
    case Working => if s.event && !s.shouldStop then 2 else 1
  }

  /** Worker steps needed to finish everything pending. */
  function Distance(s: Nerf): nat
  {
    match s.pc
    case Stopped => 0
    case Top => if !s.shouldStop && s.event then 4 else 0
    case Waiting => if s.event then 3 else 0
    case Woken => 2
    case Working => if s.event && !s.shouldStop then 5 else 1
  }

  /** A worker step either completes a pending cycle or changes nothing
      pending: completed plus pending cycles is constant. */
  lemma StepPending(s: Nerf, o: Observation)
    ensures WorkerStep(s, o).cycles + Pending(WorkerStep(s, o)) == s.cycles + Pending(s)
  {
  }

  lemma {:induction false} PendingConserved(s: Nerf, obs: seq<Observation>)
    ensures WorkerRun(s, obs).cycles + Pending(WorkerRun(s, obs)) == s.cycles + Pending(s)
    decreases |obs|
  {
    if obs != [] {
      StepPending(s, obs[0]);
      PendingConserved(WorkerStep(s, obs[0]), obs[1..]);
    }
  }

  /** Without further sets, worker steps complete exactly the pending cycles:
      never more, and all of them given enough steps. */
  lemma WorkerCompletesPending(s: Nerf, obs: seq<Observation>)
    ensures WorkerRun(s, obs).cycles <= s.cycles + Pending(s)
    ensures |obs| >= 5 ==> WorkerRun(s, obs).cycles == s.cycles + Pending(s)
    ensures WorkerRun(s, obs).cycles + Pending(WorkerRun(s, obs)) == s.cycles + Pending(s)
  {
    PendingConserved(s, obs);
    if |obs| >= 5 {
      PendingSettles(s, obs);
    }
  }

  /** Each worker step brings a busy worker one step closer to idle. */
  lemma {:induction false} PendingSettles(s: Nerf, obs: seq<Observation>)
    requires |obs| >= Distance(s)
    ensures Pending(WorkerRun(s, obs)) == 0
    decreases |obs|
  {
    if Distance(s) == 0 {
      IdleStaysIdle(s, obs);
    } else {
      var s1 := WorkerStep(s, obs[0]);
      assert Distance(s1) == Distance(s) - 1;
      PendingSettles(s1, obs[1..]);
    }
  }

  /** A worker with nothing pending changes no cycle count. */
  lemma {:induction false} IdleStaysIdle(s: Nerf, obs: seq<Observation>)
    requires Pending(s) == 0
    ensures Pending(WorkerRun(s, obs)) == 0 && WorkerRun(s, obs).cycles == s.cycles
    decreases |obs|
  {
    if obs != [] {
      IdleStaysIdle(WorkerStep(s, obs[0]), obs[1..]);
    }
  }

  /** Any number of sets before the worker wakes give one cycle. */
  lemma SetsBeforeWakeCollapse(s: Nerf, n: nat, obs: seq<Observation>)
    requires s.pc == Waiting && !s.shouldStop && n >= 1 && |obs| >= 5
    ensures WorkerRun(Run(s, seq(n, _ => Dispatch)), obs).cycles == s.cycles + 1
  {
    var d := Run(s, seq(n, _ => Dispatch));
    RunDispatches(s, n);
    WorkerCompletesPending(d, obs);
  }

  /** Dispatches only set the event. */
  lemma {:induction false} RunDispatches(s: Nerf, n: nat)
    ensures Run(s, seq(n, _ => Dispatch)) == if n == 0 then s else s.(event := true)
    decreases n
  {
    if n > 0 {
      var ds := seq(n, _ => Dispatch);
      assert ds[1..] == seq(n - 1, _ => Dispatch);
      RunDispatches(s.(event := true), n - 1);
    }
  }

  /** A set arriving while the worker is working (the event already cleared)
      gives exactly one further cycle; without it the worker finishes the
      current cycle and blocks. */
  lemma SetDuringCycleGivesOneMore(s: Nerf, obs: seq<Observation>)
    requires s.pc == Working && !s.event && !s.shouldStop && |obs| >= 5
    ensures WorkerRun(Step(s, Dispatch), obs).cycles == s.cycles + 2
    ensures WorkerRun(s, obs).cycles == s.cycles + 1
  {
    WorkerCompletesPending(Step(s, Dispatch), obs);
    WorkerCompletesPending(s, obs);
  }

  // ---------------------------------------------------------------------
  // One cycle

  /** With a backend and a mesh, a pose equal to the recorded one sends
      nothing and leaves the frame as it is (it is pushed again). */
  lemma SamePoseNotResent(s: Nerf, o: Observation)
    requires s.supported && o.meshPath != "" && o.pose.Some? && s.recorded == o.pose
    ensures Body(s, o).sent == s.sent && Body(s, o).rgba == s.rgba
    ensures Body(s, o).pushed == s.pushed + [s.rgba]
  {
  }

  /** A new pose is recorded and sent, as one single-part request, whatever
      the reply then turns out to be. */
  lemma NewPoseRecordedAndSent(s: Nerf, o: Observation)
    requires s.supported && o.meshPath != "" && o.pose.Some? && s.recorded != o.pose
    ensures Body(s, o).recorded == o.pose
    ensures Body(s, o).sent == s.sent + [NerfRequest(o.pose.value)]
  {
  }

  /** A cycle whose pose cannot be read raises before the pose is compared:
      nothing is recorded, sent or pushed, the frame is kept, and the loop
      goes on. */
  lemma PoseFailureSkipsCycle(s: Nerf, o: Observation)
    requires s.pc == Working && s.supported && o.meshPath != "" && o.pose.None?
    ensures WorkerStep(s, o).recorded == s.recorded && WorkerStep(s, o).sent == s.sent
    ensures WorkerStep(s, o).pushed == s.pushed && WorkerStep(s, o).rgba == s.rgba
    ensures WorkerStep(s, o).pc == Top && WorkerStep(s, o).cycles == s.cycles + 1
  {
  }

  /** Hence a pose is never sent twice in a row, even when the first
      exchange failed: after any cycle that sent a pose, a cycle with the
      same pose sends nothing. */
  lemma UnchangedPoseNeverResent(s: Nerf, o1: Observation, o2: Observation)
    requires s.supported && o1.meshPath != "" && o2.meshPath != "" && o1.pose == o2.pose
    ensures Body(Body(s, o1), o2).sent == Body(s, o1).sent
  {
  }

  /** Without a usable backend or without a mesh, the placeholder animation
      runs and the frame is pushed. */
  lemma PlaceholderCycle(s: Nerf, o: Observation)
    requires !s.supported || o.meshPath == ""
    ensures Body(s, o).rgba == Tick(s.rgba)
    ensures Body(s, o).pushed == s.pushed + [Tick(s.rgba)]
    ensures Body(s, o).sent == s.sent
  {
  }

  /** An error reply leaves the frame unchanged (and it is pushed). */
  lemma ErrorReplyKeepsFrame(s: Nerf, o: Observation)
    requires s.supported && o.meshPath != "" && o.pose.Some? && s.recorded != o.pose
    requires |o.reply| > 0 && o.reply[0].frame.JsonFrame? && "error" in o.reply[0].frame.obj
    ensures Body(s, o).rgba == s.rgba && |Body(s, o).pushed| == |s.pushed| + 1
  {
  }

  /** A cycle that raises skips the push, and the loop goes on. */
  lemma ExceptionSkipsPush(s: Nerf, o: Observation)
    requires s.pc == Working && s.supported && o.meshPath != "" && o.pose.Some? && s.recorded != o.pose
    requires ReplyEffect(s.fixedClient, o) == Raise
    ensures WorkerStep(s, o).pushed == s.pushed && WorkerStep(s, o).rgba == s.rgba
    ensures WorkerStep(s, o).pc == Top
  {
  }

  /** The server's success reply (metadata, RGB, depth) has no `'image'`
      key, so against that server every new pose ends in the exception
      handler and the frame is never updated. */
  lemma ServerSuccessNeverShown(s: Nerf, o: Observation, rgb: RgbImage, depth: DepthImage)
    requires s.pc == Working && !s.fixedClient && s.supported && o.meshPath != "" && o.pose.Some? && s.recorded != o.pose
    requires o.reply == SuccessReply(rgb, depth)
    ensures WorkerStep(s, o).rgba == s.rgba && WorkerStep(s, o).pushed == s.pushed
  {
  }

  /** With the corrected client, the server's render of a new pose is what
      the frame shows next: its RGB over the opaque alpha, pushed to the UI. */
  lemma FixedClientShowsRender(s: Nerf, o: Observation, render: GsCamera -> Render)
    requires s.pc == Working && s.fixedClient && s.supported && o.meshPath != "" && o.pose.Some? && s.recorded != o.pose
    requires |s.rgba| == PixelCount
    requires o.reply == ServeOnce(NerfRequest(o.pose.value), render).reply
    requires var c := ServeOnce(NerfRequest(o.pose.value), render).camera;
             c.Some? && render(c.value).Rendered? && ViewportSized(render(c.value).rgb, render(c.value).depth)
    ensures var c := ServeOnce(NerfRequest(o.pose.value), render).camera.value;
            && WorkerStep(s, o).rgba == SetRgb(s.rgba, render(c).rgb.pixels)
            && WorkerStep(s, o).pushed == s.pushed + [WorkerStep(s, o).rgba]
  {
    NerfFixedReceivesRender(o.pose.value, render);
  }

  // ---------------------------------------------------------------------
  // Invariants and shutdown

  /** The worker writes only channels 0-2, so the buffer stays full size and
      opaque. */
  predicate Inv(s: Nerf)
  {
    |s.rgba| == PixelCount && Opaque(s.rgba) && (s.shutdown > 0 ==> s.shouldStop) && s.shutdown <= 2
  }

  lemma {:induction false} RunInv(s: Nerf, acts: seq<Action>)
    requires Inv(s)
    ensures Inv(Run(s, acts))
    decreases |acts|
  {
    if acts != [] {
      var a := acts[0];
      if a.Work? && s.pc == Working {
        var e := ReplyEffect(s.fixedClient, a.obs);
        RgbWritesKeepOpaque(s.rgba, if e.Show? then e.rgb else []);
      }
      RunInv(Step(s, a), acts[1..]);
    }
  }

  function Budget(pc: Pc): nat
  {
    if pc == Top || pc == Stopped then 0 else 1
  }

  lemma StepBudget(s: Nerf, a: Action)
    requires s.shouldStop
    ensures Step(s, a).shouldStop
    ensures Step(s, a).cycles + Budget(Step(s, a).pc) <= s.cycles + Budget(s.pc)
  {
  }

  /** Once `should_stop` is set, whatever else happens, the worker completes
      at most one more cycle. */
  lemma {:induction false} AtMostOneCycleAfterStop(s: Nerf, acts: seq<Action>)
    requires s.shouldStop
    ensures Run(s, acts).cycles <= s.cycles + Budget(s.pc)
    ensures Run(s, acts).cycles + Budget(Run(s, acts).pc) <= s.cycles + Budget(s.pc)
    decreases |acts|
  {
    if acts != [] {
      StepBudget(s, acts[0]);
      AtMostOneCycleAfterStop(Step(s, acts[0]), acts[1..]);
    }
  }

  /** Worker steps to the exit once `should_stop` is set. */
  function StopDistance(pc: Pc): nat
  {
    match pc
    case Stopped => 0
    case Top => 1
    case Working => 2
    case Woken => 3
    case Waiting => 4
  }

  /** With `should_stop` set and the worker not blocked on a cleared event,
      it reaches the exit within `StopDistance` steps and stays there. */
  lemma {:induction false} WorkerExits(s: Nerf, obs: seq<Observation>)
    requires s.shouldStop && (s.pc == Waiting ==> s.event) && |obs| >= StopDistance(s.pc)
    ensures WorkerRun(s, obs).pc == Stopped
    decreases |obs|
  {
    if obs != [] {
      WorkerExits(WorkerStep(s, obs[0]), obs[1..]);
    }
  }

  /** `on_shutdown` sets the flag, then the event: a worker blocked in the
      wait runs the cycle that the wake-up starts (the flag is checked only at
      the top of the loop) and then exits, within four steps. */
  lemma ShutdownEndsWorker(s: Nerf, obs: seq<Observation>)
    requires s.shutdown == 0 && s.pc == Waiting && |obs| >= 4
    ensures WorkerRun(Step(Step(s, StopFlag), StopWake), obs).pc == Stopped
    ensures WorkerRun(Step(Step(s, StopFlag), StopWake), obs).cycles == s.cycles + 1
  {
    var r := Step(Step(s, StopFlag), StopWake);
    WorkerExits(r, obs);
    PendingSettles(r, obs);
    WorkerCompletesPending(r, obs);
  }
}
