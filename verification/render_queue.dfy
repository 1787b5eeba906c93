/** The latest-wins render queue of the nerfstudio renderer
    (`NerfStudioRenderQueue` in the `src` package).

    The UI thread calls `update_camera` with each new pose; accepted poses are
    pushed on a deque whose length is bounded by the number of render threads,
    so the oldest request is dropped when it is full. Each render thread pops
    the NEWEST request and renders it at every rung of the quality ladder,
    skipping a rung when a newer request has been accepted since, and
    publishing a result only when no newer result has been published. The UI
    collects results with `get_rgb_image`, which empties the one-image slot.

    Every thread is a sequence of atomic steps. A render thread's loop body is
    split at the points where it takes or releases a lock: pop, stale check,
    render call, response check, buffer write. The render call holds no lock,
    so a request can be superseded between its stale check and its render;
    that rung is still rendered. */
module RenderQueue {
  import opened Common
  import opened CameraConfig

  /** A render request: the pose and the clock reading when it was accepted. */
  datatype Request = Request(pose: Pose, timestamp: int)

  /** The result of `render_at` for one request at one rung. Pixel content is
      outside the model; an image is identified by what it was rendered for. */
  datatype Image = Image(request: Request, camera: Camera)

  /** The shared fields of the queue. `lastPose` is `None` until the first
      accepted update: the initial `(-inf, -inf, -inf)` tuples never compare
      equal to the position and rotation lists passed in. */
  datatype Queue = Queue(
    lastPose: Option<Pose>,
    deque: seq<Request>,       // leftmost = oldest
    maxLen: nat,               // `thread_count`, the deque's `maxlen`
    lastRequestTs: int,
    lastResponseTs: int,
    buffer: Option<Image>)

  /** The queue as the constructor leaves it: two clock readings, taken in
      order, seed the two timestamps. */
  function InitQueue(threadCount: nat, t0: int, t1: int): (q: Queue)
    requires t0 <= t1
    ensures q.deque == [] && q.buffer == None && q.lastPose == None && q.maxLen == threadCount
    ensures q.lastRequestTs == t0 && q.lastResponseTs == t1
    ensures q.lastRequestTs <= q.lastResponseTs
  {
    Queue(None, [], threadCount, t0, t1, None)
  }

  /** `deque.append` on a deque with `maxlen`: the element goes on the right
      and, once the deque is full, the leftmost (oldest) element falls off. */
  function BoundedAppend(d: seq<Request>, x: Request, maxLen: nat): (r: seq<Request>)
    ensures |r| == if |d| < maxLen then |d| + 1 else maxLen
    ensures r == (d + [x])[|d| + 1 - |r|..]
    ensures maxLen > 0 ==> r[|r| - 1] == x
    ensures |d| < maxLen ==> r == d + [x]
    ensures 0 < |d| == maxLen ==> r == d[1..] + [x]
  {
    var e := d + [x];
    if |e| <= maxLen then e else e[|e| - maxLen..]
  }

  /** `_is_input_similar`: the pose equals the last accepted one. */
  predicate IsInputSimilar(q: Queue, pose: Pose)
  {
    q.lastPose == Some(pose)
  }

  /** `update_camera(position, rotation)` with the clock reading `now`. */
  function UpdateCamera(q: Queue, pose: Pose, now: int): (r: Queue)
    // a repeated pose is a no-op
    ensures IsInputSimilar(q, pose) ==> r == q
    // either way the pose is now the recorded one
    ensures IsInputSimilar(r, pose)
    // an accepted pose stamps the request time and queues (pose, now) on the right
    ensures !IsInputSimilar(q, pose) ==>
      r.lastRequestTs == now && r.deque == BoundedAppend(q.deque, Request(pose, now), q.maxLen)
    // the response side is never touched
    ensures r.lastResponseTs == q.lastResponseTs && r.buffer == q.buffer && r.maxLen == q.maxLen
  {
    if IsInputSimilar(q, pose) then q
    else q.(lastPose := Some(pose), lastRequestTs := now,
            deque := BoundedAppend(q.deque, Request(pose, now), q.maxLen))
  }

  /** `deque.pop()`: remove and return the rightmost (newest) request, or
      nothing when the deque is empty. */
  function PopNewest(q: Queue): (Option<Request>, Queue)
  {
    if q.deque == [] then (None, q)
    else (Some(q.deque[|q.deque| - 1]), q.(deque := q.deque[..|q.deque| - 1]))
  }

  /** `get_rgb_image`: hand out the slot's content and leave it empty. */
  function GetRgbImage(q: Queue): (Option<Image>, Queue)
  {
    (q.buffer, q.(buffer := None))
  }

  /** A rung of `req` is skipped when a newer request has been accepted
      (`timestamp - last_request_timestamp < 0`). Equal is not stale. */
  predicate IsStale(q: Queue, req: Request)
  {
    req.timestamp < q.lastRequestTs
  }

  /** Where one render thread is in its loop. */
  datatype WorkerPc =
    | Polling                                             // top of `while True`
    | AtLevel(req: Request, level: nat)                   // before the stale check of rung `level`
    | Checked(req: Request, level: nat)                   // check passed, before `render_at`
    | Rendered(req: Request, level: nat, image: Image)    // before the response check
    | Publishing(req: Request, level: nat, image: Image)  // before the buffer write

  /** The queue, the ladder, the render threads and the UI thread's clock.
      `rendered` logs every `render_at` call in order. */
  datatype System = System(
    queue: Queue,
    ladder: seq<Camera>,
    workers: seq<WorkerPc>,
    clock: int,
    rendered: seq<Image>)

  datatype Action =
    | Update(pose: Pose, now: int)   // UI thread: `update_camera`
    | Work(worker: nat)              // one atomic step of render thread `worker`
    | Take                           // UI thread: `get_rgb_image`

  /** Construction: `thread_count` render threads, all at the top of their loop. */
  function Init(threadCount: nat, ladder: seq<Camera>, t0: int, t1: int): (s: System)
    requires t0 <= t1
    ensures |s.workers| == threadCount && s.queue.maxLen == threadCount
    ensures forall k :: 0 <= k < |s.workers| ==> s.workers[k] == Polling
    ensures s.queue.lastRequestTs <= s.clock
  {
    System(InitQueue(threadCount, t0, t1), ladder, seq(threadCount, _ => Polling), t1, [])
  }

  /** The same system with render thread `k` moved to `pc`. */
  function SetPc(s: System, k: nat, pc: WorkerPc): System
    requires k < |s.workers|
  {
    s.(workers := s.workers[k := pc])
  }

  /** The requests that some render thread has found fresh and is about to
      render: their stale check is behind them. */
  function InFlight(s: System): set<Request>
  {
    set k | 0 <= k < |s.workers| && s.workers[k].Checked? :: s.workers[k].req
  }

  /** One atomic step of render thread `k`, as written: the response check and
      the buffer write are separate locked sections. */
  function WorkerStep(s: System, k: nat): (r: System)
    ensures |r.workers| == |s.workers|
    ensures k >= |s.workers| ==> r == s
    // only thread `k` moves
    ensures forall j :: 0 <= j < |s.workers| && j != k ==> r.workers[j] == s.workers[j]
    // an idle thread facing an empty deque changes nothing
    ensures k < |s.workers| && s.workers[k].Polling? && s.queue.deque == [] ==> r == s
    // an idle thread takes the newest request and starts at rung 0
    ensures k < |s.workers| && s.workers[k].Polling? && s.queue.deque != [] ==>
      r.workers[k] == AtLevel(s.queue.deque[|s.queue.deque| - 1], 0)
      && r.queue.deque == s.queue.deque[..|s.queue.deque| - 1]
    // past the last rung the thread goes back to the top of its loop
    ensures k < |s.workers| && s.workers[k].AtLevel? && s.workers[k].level >= |s.ladder| ==>
      r.workers[k] == Polling && r.queue == s.queue && r.rendered == s.rendered
    // a stale rung is skipped; a fresh one passes its check; neither touches the queue
    ensures k < |s.workers| && s.workers[k].AtLevel? && s.workers[k].level < |s.ladder| ==>
      && r.queue == s.queue && r.rendered == s.rendered
      && r.workers[k] == (if IsStale(s.queue, s.workers[k].req)
                          then AtLevel(s.workers[k].req, s.workers[k].level + 1)
                          else Checked(s.workers[k].req, s.workers[k].level))
    // a checked rung is rendered at that rung's camera, whatever has been accepted since
    ensures k < |s.workers| && s.workers[k].Checked? && s.workers[k].level < |s.ladder| ==>
      var image := Image(s.workers[k].req, s.ladder[s.workers[k].level]);
      && r.queue == s.queue
      && r.rendered == s.rendered + [image]
      && r.workers[k] == Rendered(s.workers[k].req, s.workers[k].level, image)
    // a result older than the last published one is dropped and the next rung follows
    ensures k < |s.workers| && s.workers[k].Rendered? && s.workers[k].req.timestamp < s.queue.lastResponseTs ==>
      r.queue == s.queue && r.workers[k] == AtLevel(s.workers[k].req, s.workers[k].level + 1)
    // otherwise its stamp becomes the published one, and the write is still to come
    ensures k < |s.workers| && s.workers[k].Rendered? && s.workers[k].req.timestamp >= s.queue.lastResponseTs ==>
      && r.queue == s.queue.(lastResponseTs := s.workers[k].req.timestamp)
      && r.workers[k] == Publishing(s.workers[k].req, s.workers[k].level, s.workers[k].image)
    // the write puts the image in the slot, and the next rung follows
    ensures k < |s.workers| && s.workers[k].Publishing? ==>
      && r.queue == s.queue.(buffer := Some(s.workers[k].image))
      && r.workers[k] == AtLevel(s.workers[k].req, s.workers[k].level + 1)
    // what workers never change
    ensures r.queue.lastRequestTs == s.queue.lastRequestTs && r.queue.maxLen == s.queue.maxLen
    ensures r.queue.lastPose == s.queue.lastPose && r.clock == s.clock && r.ladder == s.ladder
    ensures |r.queue.deque| <= |s.queue.deque|
    // the published timestamp never goes back
    ensures r.queue.lastResponseTs >= s.queue.lastResponseTs
    // the render log only grows, and only by requests that were in flight
    ensures s.rendered <= r.rendered
    ensures forall i :: |s.rendered| <= i < |r.rendered| ==> r.rendered[i].request in InFlight(s)
  {
    if k >= |s.workers| then s
    else match s.workers[k]
      case Polling =>
        var (popped, q) := PopNewest(s.queue);
        if popped.None? then s   // `time.sleep(0.05); continue`
        else SetPc(s.(queue := q), k, AtLevel(popped.value, 0))
      case AtLevel(req, i) =>
        if i >= |s.ladder| then SetPc(s, k, Polling)
        else if IsStale(s.queue, req) then SetPc(s, k, AtLevel(req, i + 1))
        else SetPc(s, k, Checked(req, i))
      case Checked(req, i) =>
        if i >= |s.ladder| then SetPc(s, k, Polling)
        else
          var image := Image(req, s.ladder[i]);
          SetPc(s.(rendered := s.rendered + [image]), k, Rendered(req, i, image))
      case Rendered(req, i, image) =>
        if req.timestamp < s.queue.lastResponseTs then SetPc(s, k, AtLevel(req, i + 1))
        else SetPc(s.(queue := s.queue.(lastResponseTs := req.timestamp)), k, Publishing(req, i, image))
      case Publishing(req, i, image) =>
        SetPc(s.(queue := s.queue.(buffer := Some(image))), k, AtLevel(req, i + 1))
  }

  function Step(s: System, a: Action): System
  {
    match a
    case Update(pose, now) => s.(queue := UpdateCamera(s.queue, pose, now), clock := now)
    case Work(k) => WorkerStep(s, k)
    case Take => s.(queue := GetRgbImage(s.queue).1)
  }

  function Run(s: System, acts: seq<Action>): System
    decreases |acts|
  {
    if acts == [] then s else Run(Step(s, acts[0]), acts[1..])
  }

  /** The clock the UI thread reads never goes backwards. */
  predicate Allowed(s: System, a: Action)
  {
    a.Update? ==> a.now >= s.clock
  }

  predicate ClockRespecting(s: System, acts: seq<Action>)
    decreases |acts|
  {
    acts == [] || (Allowed(s, acts[0]) && ClockRespecting(Step(s, acts[0]), acts[1..]))
  }

  /** The request timestamp never runs ahead of the clock. */
  predicate ClockValid(s: System)
  {
    s.queue.lastRequestTs <= s.clock
  }

  // ---------------------------------------------------------------------
  // Properties of single operations

  /** The first update is always accepted: the initial pose matches nothing. */
  lemma FirstUpdateAccepted(threadCount: nat, t0: int, t1: int, pose: Pose, now: int)
    requires t0 <= t1 && threadCount > 0
    ensures UpdateCamera(InitQueue(threadCount, t0, t1), pose, now).deque == [Request(pose, now)]
    ensures UpdateCamera(InitQueue(threadCount, t0, t1), pose, now).lastRequestTs == now
  {
  }

  /** Update and pop are last-in-first-out partners: a pop right after an
      accepted update returns that very request and, if the deque had room,
      leaves the deque as it was. */
  lemma PopReturnsLatestUpdate(q: Queue, pose: Pose, now: int)
    requires !IsInputSimilar(q, pose) && q.maxLen > 0
    ensures PopNewest(UpdateCamera(q, pose, now)).0 == Some(Request(pose, now))
    ensures |q.deque| < q.maxLen ==> PopNewest(UpdateCamera(q, pose, now)).1.deque == q.deque
  {
  }

  /** Repeating an update with the same pose changes nothing, whatever the clock says. */
  lemma UpdateIdempotent(q: Queue, pose: Pose, now: int, later: int)
    ensures UpdateCamera(UpdateCamera(q, pose, now), pose, later) == UpdateCamera(q, pose, now)
  {
  }

  /** The result slot is take-once: with no publication in between, a second
      `get_rgb_image` returns nothing. */
  lemma TakeOnce(q: Queue)
    ensures GetRgbImage(GetRgbImage(q).1).0 == None
    ensures GetRgbImage(q).0 == q.buffer
  {
  }

  // ---------------------------------------------------------------------
  // Invariants over runs

  /** The deque never holds more requests than there are render threads. */
  lemma {:induction false} DequeBounded(s: System, acts: seq<Action>)
    requires |s.queue.deque| <= s.queue.maxLen
    ensures Run(s, acts).queue.maxLen == s.queue.maxLen
    ensures |Run(s, acts).queue.deque| <= s.queue.maxLen
    decreases |acts|
  {
    if acts != [] {
      var t := Step(s, acts[0]);
      assert t.queue.maxLen == s.queue.maxLen && |t.queue.deque| <= t.queue.maxLen by {
        match acts[0]
        case Update(pose, now) =>
        case Work(k) =>
        case Take =>
      }
      DequeBounded(t, acts[1..]);
    }
  }

  /** A request is fresh with respect to state `s0` when it is at least as
      new as the newest request `s0` has accepted, or when some thread of
      `s0` has already passed its stale check for it. */
  predicate FreshFor(s0: System, req: Request)
  {
    req.timestamp >= s0.queue.lastRequestTs || req in InFlight(s0)
  }

  /** One step under a monotone clock keeps the clock invariant, neither
      timestamp decreases, every render is of a request that was in flight,
      and every request put into flight is fresh. */
  lemma StepMonotone(s: System, a: Action)
    requires ClockValid(s) && Allowed(s, a)
    ensures ClockValid(Step(s, a))
    ensures Step(s, a).queue.lastRequestTs >= s.queue.lastRequestTs
    ensures Step(s, a).queue.lastResponseTs >= s.queue.lastResponseTs
    ensures s.rendered <= Step(s, a).rendered
    ensures forall i :: |s.rendered| <= i < |Step(s, a).rendered| ==> Step(s, a).rendered[i].request in InFlight(s)
    ensures forall x :: x in InFlight(Step(s, a)) ==> FreshFor(s, x)
  {
  }

  /** Published responses never go back in time: `last_response_timestamp`
      never decreases along any run (no clock assumption needed). */
  lemma {:induction false} ResponseTimestampMonotone(s: System, acts: seq<Action>)
    ensures Run(s, acts).queue.lastResponseTs >= s.queue.lastResponseTs
    decreases |acts|
  {
    if acts != [] {
      var t := Step(s, acts[0]);
      assert t.queue.lastResponseTs >= s.queue.lastResponseTs by {
        match acts[0]
        case Update(pose, now) =>
        case Work(k) =>
        case Take =>
      }
      ResponseTimestampMonotone(t, acts[1..]);
    }
  }

  /** With a non-decreasing clock, every render call made from state `s` on is
      for a request that is fresh with respect to `s`: at least as new as the
      newest request `s` has accepted, or already past its stale check in `s`. */
  lemma {:induction false} RendersAfterAreFresh(s: System, acts: seq<Action>)
    requires ClockValid(s) && ClockRespecting(s, acts)
    ensures Run(s, acts).queue.lastRequestTs >= s.queue.lastRequestTs
    ensures s.rendered <= Run(s, acts).rendered
    ensures forall i :: |s.rendered| <= i < |Run(s, acts).rendered| ==>
      FreshFor(s, Run(s, acts).rendered[i].request)
    ensures forall x :: x in InFlight(Run(s, acts)) ==> FreshFor(s, x)
    decreases |acts|
  {
    if acts != [] {
      var t := Step(s, acts[0]);
      StepMonotone(s, acts[0]);
      RendersAfterAreFresh(t, acts[1..]);
      var r := Run(t, acts[1..]);
      assert forall x :: FreshFor(t, x) ==> FreshFor(s, x);
      forall i | |s.rendered| <= i < |r.rendered| ensures FreshFor(s, r.rendered[i].request) {
        if i < |t.rendered| {
          assert r.rendered[i] == t.rendered[i];
        }
      }
    }
  }

  /** Once a request is stale it stays stale: with a non-decreasing clock, no
      rung of it whose stale check is still to come is ever rendered, by any
      thread. A rung already past its check (in flight) is still rendered;
      see `InFlightRenderAfterSupersession`. */
  lemma StaleRequestNeverRendered(s: System, acts: seq<Action>, req: Request)
    requires ClockValid(s) && ClockRespecting(s, acts)
    requires IsStale(s.queue, req) && req !in InFlight(s)
    ensures forall i :: |s.rendered| <= i < |Run(s, acts).rendered| ==>
      Run(s, acts).rendered[i].request != req
  {
    RendersAfterAreFresh(s, acts);
  }

  /** The render call holds no lock: a thread that has passed the stale check
      renders its rung even when a newer pose is accepted in between. */
  lemma InFlightRenderAfterSupersession(s: System, k: nat, pose: Pose, now: int)
    requires k < |s.workers| && s.workers[k].Checked? && s.workers[k].level < |s.ladder|
    requires !IsInputSimilar(s.queue, pose) && now > s.workers[k].req.timestamp
    ensures IsStale(Step(s, Update(pose, now)).queue, s.workers[k].req)
    ensures Step(Step(s, Update(pose, now)), Work(k)).rendered ==
      s.rendered + [Image(s.workers[k].req, s.ladder[s.workers[k].level])]
  {
  }

  // ---------------------------------------------------------------------
  // The split publication and its fused correction

  /** The states of the out-of-order publication run below. */
  function RaceState(a: Pose, b: Pose, n: nat): System
  {
    var cam := Camera(64, 36, IsaacVerticalFov);
    var ra, rb := Request(a, 1), Request(b, 2);
    var ia, ib := Image(ra, cam), Image(rb, cam);
    var q0 := Queue(None, [], 2, 0, 0, None);
    var q1 := Queue(Some(a), [ra], 2, 1, 0, None);
    var q2 := Queue(Some(a), [], 2, 1, 0, None);
    var q4 := Queue(Some(a), [], 2, 1, 1, None);
    var q5 := Queue(Some(b), [rb], 2, 2, 1, None);
    var q6 := Queue(Some(b), [], 2, 2, 1, None);
    var q8 := Queue(Some(b), [], 2, 2, 2, None);
    var q9 := Queue(Some(b), [], 2, 2, 2, Some(ib));
    var q10 := Queue(Some(b), [], 2, 2, 2, Some(ia));
    match n
    case 0 => System(q0, [cam], [Polling, Polling], 0, [])
    case 1 => System(q1, [cam], [Polling, Polling], 1, [])
    case 2 => System(q2, [cam], [AtLevel(ra, 0), Polling], 1, [])
    case 3 => System(q2, [cam], [Checked(ra, 0), Polling], 1, [])
    case 4 => System(q2, [cam], [Rendered(ra, 0, ia), Polling], 1, [ia])
    case 5 => System(q4, [cam], [Publishing(ra, 0, ia), Polling], 1, [ia])
    case 6 => System(q5, [cam], [Publishing(ra, 0, ia), Polling], 2, [ia])
    case 7 => System(q6, [cam], [Publishing(ra, 0, ia), AtLevel(rb, 0)], 2, [ia])
    case 8 => System(q6, [cam], [Publishing(ra, 0, ia), Checked(rb, 0)], 2, [ia])
    case 9 => System(q6, [cam], [Publishing(ra, 0, ia), Rendered(rb, 0, ib)], 2, [ia, ib])
    case 10 => System(q8, [cam], [Publishing(ra, 0, ia), Publishing(rb, 0, ib)], 2, [ia, ib])
    case 11 => System(q9, [cam], [Publishing(ra, 0, ia), AtLevel(rb, 1)], 2, [ia, ib])
    case _ => System(q10, [cam], [AtLevel(ra, 1), AtLevel(rb, 1)], 2, [ia, ib])
  }

  /** The actions of the out-of-order publication run. */
  function RaceActions(a: Pose, b: Pose): seq<Action>
  {
    [Update(a, 1), Work(0), Work(0), Work(0), Work(0), Update(b, 2),
     Work(1), Work(1), Work(1), Work(1), Work(1), Work(0)]
  }

  lemma RaceStep(a: Pose, b: Pose, n: nat)
    requires a != b && n < 12
    ensures Allowed(RaceState(a, b, n), RaceActions(a, b)[n])
    ensures Step(RaceState(a, b, n), RaceActions(a, b)[n]) == RaceState(a, b, n + 1)
  {
  }

  lemma {:induction false} RaceRun(a: Pose, b: Pose, n: nat)
    requires a != b && n <= 12
    ensures ClockRespecting(RaceState(a, b, n), RaceActions(a, b)[n..])
    ensures Run(RaceState(a, b, n), RaceActions(a, b)[n..]) == RaceState(a, b, 12)
    decreases 12 - n
  {
    if n < 12 {
      RaceStep(a, b, n);
      RaceRun(a, b, n + 1);
      assert RaceActions(a, b)[n..][1..] == RaceActions(a, b)[n + 1..];
    }
  }

  /** Two threads can publish out of order: thread 0 passes the response check
      for an older request, thread 1 passes it for a newer one and writes the
      slot, then thread 0's write overwrites the newer image. The run from
      construction is clock-respecting and ends with the older image in the
      slot although the newer response timestamp has been recorded. */
  lemma StaleOverwrite(a: Pose, b: Pose)
    requires a != b
    ensures var s := Init(2, [Camera(64, 36, IsaacVerticalFov)], 0, 0);
            var r := Run(s, RaceActions(a, b));
            && ClockRespecting(s, RaceActions(a, b))
            && r.queue.buffer == Some(Image(Request(a, 1), Camera(64, 36, IsaacVerticalFov)))
            && r.queue.lastResponseTs == 2
            && r.queue.buffer.value.request.timestamp < r.queue.lastResponseTs
  {
    var s := Init(2, [Camera(64, 36, IsaacVerticalFov)], 0, 0);
    assert s.workers == [Polling, Polling];
    assert s == RaceState(a, b, 0);
    RaceRun(a, b, 0);
  }

  /** The corrected render-thread step: the response check and the buffer
      write happen in one locked section, so the slot always holds the image
      whose timestamp was last recorded. */
  function WorkerStepFused(s: System, k: nat): (r: System)
    ensures k < |s.workers| && s.workers[k].Rendered? && s.workers[k].req.timestamp >= s.queue.lastResponseTs ==>
      r.queue.buffer == Some(s.workers[k].image) && r.queue.lastResponseTs == s.workers[k].req.timestamp
    ensures r.queue.lastRequestTs == s.queue.lastRequestTs
    ensures r.queue.lastResponseTs >= s.queue.lastResponseTs
  {
    if k < |s.workers| && s.workers[k].Rendered? then
      var req, i, image := s.workers[k].req, s.workers[k].level, s.workers[k].image;
      if req.timestamp < s.queue.lastResponseTs then SetPc(s, k, AtLevel(req, i + 1))
      else SetPc(s.(queue := s.queue.(lastResponseTs := req.timestamp, buffer := Some(image))), k, AtLevel(req, i + 1))
    else WorkerStep(s, k)
  }

  function StepFused(s: System, a: Action): System
  {
    match a
    case Update(pose, now) => s.(queue := UpdateCamera(s.queue, pose, now), clock := now)
    case Work(k) => WorkerStepFused(s, k)
    case Take => s.(queue := GetRgbImage(s.queue).1)
  }

  function RunFused(s: System, acts: seq<Action>): System
    decreases |acts|
  {
    if acts == [] then s else RunFused(StepFused(s, acts[0]), acts[1..])
  }

  /** The slot, when full, holds an image of the request whose timestamp is
      the last published one; no thread sits between check and write. */
  predicate SlotHoldsNewest(s: System)
  {
    && (s.queue.buffer.Some? ==> s.queue.buffer.value.request.timestamp == s.queue.lastResponseTs)
    && (forall k :: 0 <= k < |s.workers| ==> !s.workers[k].Publishing?)
    && (forall k :: 0 <= k < |s.workers| && s.workers[k].Rendered? ==>
          s.workers[k].image.request == s.workers[k].req)
  }

  /** With the fused step, every run from construction keeps the slot holding
      the newest published image, whatever the interleaving and the clock. */
  lemma {:induction false} FusedPublishKeepsNewest(s: System, acts: seq<Action>)
    requires SlotHoldsNewest(s)
    ensures SlotHoldsNewest(RunFused(s, acts))
    decreases |acts|
  {
    if acts != [] {
      var t := StepFused(s, acts[0]);
      assert SlotHoldsNewest(t) by {
        match acts[0]
        case Update(pose, now) =>
        case Take =>
        case Work(k) =>
          if k < |s.workers| {
            match s.workers[k]
            case Polling =>
            case AtLevel(req, i) =>
            case Checked(req, i) =>
            case Rendered(req, i, image) =>
            case Publishing(req, i, image) =>
          }
      }
      FusedPublishKeepsNewest(t, acts[1..]);
    }
  }

  /** A freshly constructed queue satisfies the fused invariant. */
  lemma InitHoldsNewest(threadCount: nat, ladder: seq<Camera>, t0: int, t1: int)
    requires t0 <= t1
    ensures SlotHoldsNewest(Init(threadCount, ladder, t0, t1))
  {
  }
}
