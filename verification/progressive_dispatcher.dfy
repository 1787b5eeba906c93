/** The older progressive render dispatcher (`NerfStudioRenderQueue` in the
    top-level `render_queue.py`).

    `register_render_request` increments the accepted-request id under a lock,
    releases the lock, reads the id back and starts a thread that renders the
    pose at every rung of the ladder in order, calling the callback after each
    rung. Nothing ever reads or updates the "completed" id, so there is no
    staleness suppression: an old request delivers all its callbacks even
    after newer requests have been accepted.

    Threads are sequences of atomic steps: a registration is split into its
    locked increment (`Register`) and the unlocked read-back that starts the
    thread (`Spawn`); each request thread advances one rung per `Render`. */
module ProgressiveDispatcher {
  import opened Common
  import opened CameraConfig

  /** A caller-supplied callback, identified by an opaque token. */
  type CallbackId = nat

  /** The result of `render_at(position, rotation, width, height, fov)`,
      identified by its arguments. */
  datatype Image = Image(pose: Pose, width: nat, height: nat, fov: real)

  /** One call `callback(image)` made by the thread of request `requestId`. */
  datatype Delivery = Delivery(callback: CallbackId, requestId: int, image: Image)

  /** A registration that has incremented the id but not yet started its thread. */
  datatype Pending = Pending(pose: Pose, callback: CallbackId)

  /** A running `_progressive_renderer_call`, about to render rung `next`. */
  datatype Task = Task(requestId: int, pose: Pose, callback: CallbackId, next: nat)

  datatype Dispatcher = Dispatcher(
    acceptedId: int,   // `_recent_accepted_request_id`
    completeId: int,   // `_recent_complete_request_id`
    ladder: Ladder<LegacyEntry>,
    pending: seq<Pending>,
    tasks: seq<Task>,
    delivered: seq<Delivery>)

  datatype Action =
    | Register(pose: Pose, callback: CallbackId)   // locked increment
    | Spawn(index: nat)                            // read-back and thread start of pending registration `index`
    | Render(task: nat)                            // one rung of request thread `task`

  /** Construction: no request yet accepted (id -1), completed id 0. */
  function Init(ladder: Ladder<LegacyEntry>): (d: Dispatcher)
    ensures d.acceptedId == -1 && d.completeId == 0
    ensures d.tasks == [] && d.pending == [] && d.delivered == []
  {
    Dispatcher(-1, 0, ladder, [], [], [])
  }

  /** The render of `pose` at one rung: width, height and fov of that rung. */
  function RenderAt(pose: Pose, entry: LegacyEntry): Image
  {
    Image(pose, entry.camera.width, entry.camera.height, entry.camera.fov)
  }

  /** Remove element `j` of a sequence. */
  function RemoveAt<T>(s: seq<T>, j: nat): (r: seq<T>)
    requires j < |s|
    ensures |r| == |s| - 1
  {
    s[..j] + s[j + 1..]
  }

  /** One rung of request thread `k`: render at the current rung and call the
      callback, then move to the next rung. A finished thread does nothing. */
  function RenderStep(d: Dispatcher, k: nat): (r: Dispatcher)
    ensures r.acceptedId == d.acceptedId && r.completeId == d.completeId && r.ladder == d.ladder
    ensures r.pending == d.pending && |r.tasks| == |d.tasks|
    ensures d.delivered <= r.delivered && |r.delivered| <= |d.delivered| + 1
  {
    if k < |d.tasks| && d.tasks[k].next < |d.ladder.cameras| then
      var t := d.tasks[k];
      var image := RenderAt(t.pose, d.ladder.cameras[t.next]);
      d.(tasks := d.tasks[k := t.(next := t.next + 1)],
         delivered := d.delivered + [Delivery(t.callback, t.requestId, image)])
    else d
  }

  /** One atomic step, as written. */
  function Step(d: Dispatcher, a: Action): Dispatcher
  {
    match a
    case Register(pose, cb) =>
      d.(acceptedId := d.acceptedId + 1, pending := d.pending + [Pending(pose, cb)])
    case Spawn(j) =>
      if j < |d.pending| then
        // the id is read after the lock has been released
        d.(pending := RemoveAt(d.pending, j),
           tasks := d.tasks + [Task(d.acceptedId, d.pending[j].pose, d.pending[j].callback, 0)])
      else d
    case Render(k) => RenderStep(d, k)
  }

  function Run(d: Dispatcher, acts: seq<Action>): Dispatcher
    decreases |acts|
  {
    if acts == [] then d else Run(Step(d, acts[0]), acts[1..])
  }

  /** Unfolding a run by one action. */
  lemma RunCons(d: Dispatcher, a: Action, rest: seq<Action>)
    ensures Run(d, [a] + rest) == Run(Step(d, a), rest)
  {
    assert ([a] + rest)[1..] == rest;
  }

  // ---------------------------------------------------------------------
  // Request ids

  /** A registration with no other thread in between: increment, then read back. */
  function RegisterSequential(d: Dispatcher, pose: Pose, cb: CallbackId): (r: Dispatcher)
    ensures r.acceptedId == d.acceptedId + 1
    ensures r.tasks == d.tasks + [Task(d.acceptedId + 1, pose, cb, 0)]
    ensures r.pending == d.pending
  {
    var d1 := Step(d, Register(pose, cb));
    var r := Step(d1, Spawn(|d1.pending| - 1));
    assert d1.pending[..|d1.pending| - 1] == d.pending;
    r
  }

  /** Registrations made one after the other. */
  function RegisterAll(d: Dispatcher, reqs: seq<Pending>): Dispatcher
    decreases |reqs|
  {
    if reqs == [] then d
    else RegisterAll(RegisterSequential(d, reqs[0].pose, reqs[0].callback), reqs[1..])
  }

  /** Sequential registrations add one to the id and one thread each, after
      the existing threads. */
  lemma {:induction false} RegisterAllShape(d: Dispatcher, reqs: seq<Pending>)
    ensures RegisterAll(d, reqs).acceptedId == d.acceptedId + |reqs|
    ensures |RegisterAll(d, reqs).tasks| == |d.tasks| + |reqs|
    ensures RegisterAll(d, reqs).tasks[..|d.tasks|] == d.tasks
    decreases |reqs|
  {
    if reqs != [] {
      var d1 := RegisterSequential(d, reqs[0].pose, reqs[0].callback);
      RegisterAllShape(d1, reqs[1..]);
      var r := RegisterAll(d1, reqs[1..]);
      assert r.tasks[..|d.tasks|] == r.tasks[..|d1.tasks|][..|d.tasks|];
    }
  }

  /** The thread of the n-th sequential registration carries id
      `acceptedId + 1 + n` and starts at rung 0. */
  lemma {:induction false} SequentialIdAt(d: Dispatcher, reqs: seq<Pending>, n: nat)
    requires n < |reqs|
    ensures |RegisterAll(d, reqs).tasks| == |d.tasks| + |reqs|
    ensures RegisterAll(d, reqs).tasks[|d.tasks| + n] == Task(d.acceptedId + 1 + n, reqs[n].pose, reqs[n].callback, 0)
    decreases n
  {
    RegisterAllShape(d, reqs);
    var d1 := RegisterSequential(d, reqs[0].pose, reqs[0].callback);
    var r := RegisterAll(d1, reqs[1..]);
    assert RegisterAll(d, reqs) == r;
    if n == 0 {
      RegisterAllShape(d1, reqs[1..]);
      assert r.tasks[|d.tasks|] == r.tasks[..|d1.tasks|][|d.tasks|];
    } else {
      SequentialIdAt(d1, reqs[1..], n - 1);
      assert reqs[1..][n - 1] == reqs[n];
    }
  }

  /** Sequentially, the n-th registration (counting from 0) after construction
      gets id n: the counter starts at -1 and each registration adds exactly 1. */
  lemma SequentialIdsCount(d: Dispatcher, reqs: seq<Pending>)
    ensures RegisterAll(d, reqs).acceptedId == d.acceptedId + |reqs|
    ensures |RegisterAll(d, reqs).tasks| == |d.tasks| + |reqs|
    ensures RegisterAll(d, reqs).tasks[..|d.tasks|] == d.tasks
    ensures forall n :: 0 <= n < |reqs| ==>
      RegisterAll(d, reqs).tasks[|d.tasks| + n] == Task(d.acceptedId + 1 + n, reqs[n].pose, reqs[n].callback, 0)
  {
    RegisterAllShape(d, reqs);
    forall n | 0 <= n < |reqs|
      ensures RegisterAll(d, reqs).tasks[|d.tasks| + n] == Task(d.acceptedId + 1 + n, reqs[n].pose, reqs[n].callback, 0)
    {
      SequentialIdAt(d, reqs, n);
    }
  }

  /** From construction, sequential registrations get ids 0, 1, 2, ... */
  lemma SequentialIdsFromInit(ladder: Ladder<LegacyEntry>, reqs: seq<Pending>)
    ensures |RegisterAll(Init(ladder), reqs).tasks| == |reqs|
    ensures forall n :: 0 <= n < |reqs| ==> RegisterAll(Init(ladder), reqs).tasks[n].requestId == n
  {
    var d := Init(ladder);
    SequentialIdsCount(d, reqs);
    var r := RegisterAll(d, reqs);
    forall n | 0 <= n < |reqs|
      ensures r.tasks[n].requestId == n
    {
      assert r.tasks[|d.tasks| + n] == Task(d.acceptedId + 1 + n, reqs[n].pose, reqs[n].callback, 0);
    }
  }

  /** Because the id is re-read after the lock is released, two overlapping
      registrations can both start with the same id. */
  lemma DuplicateIdsUnderInterleaving(ladder: Ladder<LegacyEntry>, a: Pose, b: Pose)
    ensures var r := Run(Init(ladder), [Register(a, 0), Register(b, 1), Spawn(0), Spawn(0)]);
            |r.tasks| == 2 && r.tasks[0].requestId == 1 && r.tasks[1].requestId == 1
  {
    var d0 := Init(ladder);
    var d1 := Step(d0, Register(a, 0));
    var d2 := Step(d1, Register(b, 1));
    var d3 := Step(d2, Spawn(0));
    var d4 := Step(d3, Spawn(0));
    assert d4.tasks == [Task(1, a, 0, 0), Task(1, b, 1, 0)];
    RunCons(d3, Spawn(0), []);
    RunCons(d2, Spawn(0), [Spawn(0)]);
    RunCons(d1, Register(b, 1), [Spawn(0), Spawn(0)]);
    RunCons(d0, Register(a, 0), [Register(b, 1), Spawn(0), Spawn(0)]);
  }

  // ---------------------------------------------------------------------
  // One request thread

  /** The callbacks a request thread still owes, by an independent
      definition: one per remaining rung, in ladder order, each with the
      width, height and fov of its rung. */
  function OwedDeliveries(t: Task, ladder: Ladder<LegacyEntry>): seq<Delivery>
  {
    if t.next >= |ladder.cameras| then []
    else seq(|ladder.cameras| - t.next,
             i requires 0 <= i < |ladder.cameras| - t.next =>
               Delivery(t.callback, t.requestId, RenderAt(t.pose, ladder.cameras[t.next + i])))
  }

  /** `n` consecutive rungs of request thread `k`. */
  function RenderN(d: Dispatcher, k: nat, n: nat): Dispatcher
    decreases n
  {
    if n == 0 then d else RenderN(RenderStep(d, k), k, n - 1)
  }

  /** A request thread left to run delivers exactly the callbacks it owes:
      one per remaining rung, in ladder order, and nothing after that. */
  lemma {:induction false} ThreadDeliversLadderInOrder(d: Dispatcher, k: nat, n: nat)
    requires k < |d.tasks|
    requires n >= |d.ladder.cameras| - d.tasks[k].next
    ensures RenderN(d, k, n).delivered == d.delivered + OwedDeliveries(d.tasks[k], d.ladder)
    decreases n
  {
    var t := d.tasks[k];
    if t.next >= |d.ladder.cameras| {
      RenderNIdle(d, k, n);
    } else {
      var d1 := RenderStep(d, k);
      var t1 := d1.tasks[k];
      assert t1 == t.(next := t.next + 1);
      ThreadDeliversLadderInOrder(d1, k, n - 1);
      var owed := OwedDeliveries(t, d.ladder);
      var owed1 := OwedDeliveries(t1, d.ladder);
      assert owed == [owed[0]] + owed1;
    }
  }

  /** A finished request thread delivers nothing more. */
  lemma {:induction false} RenderNIdle(d: Dispatcher, k: nat, n: nat)
    requires k < |d.tasks| && d.tasks[k].next >= |d.ladder.cameras|
    ensures RenderN(d, k, n) == d
    decreases n
  {
    if n > 0 {
      RenderNIdle(RenderStep(d, k), k, n - 1);
    }
  }

  // ---------------------------------------------------------------------
  // No staleness suppression

  /** A request thread's step reads neither id: with any other accepted and
      completed ids it delivers exactly the same callback. */
  lemma RenderIgnoresIds(d: Dispatcher, k: nat, accepted: int, complete: int)
    ensures RenderStep(d.(acceptedId := accepted, completeId := complete), k).delivered
         == RenderStep(d, k).delivered
  {
  }

  /** The call budget and the delay of a rung are never consulted: two ladders
      with the same cameras produce the same callbacks. */
  lemma RenderIgnoresBudgetAndDelay(d: Dispatcher, k: nat, other: Ladder<LegacyEntry>)
    requires |other.cameras| == |d.ladder.cameras|
    requires forall i :: 0 <= i < |other.cameras| ==> other.cameras[i].camera == d.ladder.cameras[i].camera
    ensures RenderStep(d.(ladder := other), k).delivered == RenderStep(d, k).delivered
  {
  }

  /** `_recent_complete_request_id` is never updated by any run. */
  lemma {:induction false} CompleteIdNeverUpdated(d: Dispatcher, acts: seq<Action>)
    ensures Run(d, acts).completeId == d.completeId
    ensures Run(d, acts).acceptedId >= d.acceptedId
    decreases |acts|
  {
    if acts != [] {
      CompleteIdNeverUpdated(Step(d, acts[0]), acts[1..]);
    }
  }

  /** A superseded request still delivers: request A is registered and
      started, request B is registered and started, and A's thread then calls
      its callback at its first rung although B's id is newer. */
  lemma StaleRequestStillDelivers(ladder: Ladder<LegacyEntry>, a: Pose, b: Pose)
    requires |ladder.cameras| > 0
    ensures var r := Run(Init(ladder), [Register(a, 0), Spawn(0), Register(b, 1), Spawn(0), Render(0)]);
            && r.acceptedId == 1
            && r.delivered == [Delivery(0, 0, RenderAt(a, ladder.cameras[0]))]
  {
    var acts := [Register(a, 0), Spawn(0), Register(b, 1), Spawn(0), Render(0)];
    var d0 := Init(ladder);
    var d1 := Step(d0, acts[0]);
    var d2 := Step(d1, acts[1]);
    assert d2.tasks == [Task(0, a, 0, 0)] && d2.pending == [];
    var d3 := Step(d2, acts[2]);
    var d4 := Step(d3, acts[3]);
    assert d4.tasks == [Task(0, a, 0, 0), Task(1, b, 1, 0)];
    var d5 := Step(d4, acts[4]);
    assert d5.delivered == [Delivery(0, 0, RenderAt(a, ladder.cameras[0]))];
    RunCons(d4, acts[4], []);
    RunCons(d3, acts[3], acts[4..]);
    RunCons(d2, acts[2], acts[3..]);
    RunCons(d1, acts[1], acts[2..]);
    RunCons(d0, acts[0], acts[1..]);
    assert [acts[3]] + acts[4..] == acts[3..];
    assert [acts[2]] + acts[3..] == acts[2..];
    assert [acts[1]] + acts[2..] == acts[1..];
    assert [acts[0]] + acts[1..] == acts;
  }

  // ---------------------------------------------------------------------
  // The corrected registration: the id is read inside the locked section

  /** Corrected step: a registration increments the id and hands the value it
      produced to the new thread within one locked section, so there is no
      separate read-back. Request threads are unchanged (no staleness check
      is added: the dispatcher never had one). */
  function StepLocked(d: Dispatcher, a: Action): (r: Dispatcher)
    ensures r.acceptedId >= d.acceptedId
    ensures r.ladder == d.ladder && r.completeId == d.completeId
    ensures d.delivered <= r.delivered
  {
    match a
    case Register(pose, cb) =>
      d.(acceptedId := d.acceptedId + 1, tasks := d.tasks + [Task(d.acceptedId + 1, pose, cb, 0)])
    case Spawn(j) => d
    case Render(k) => RenderStep(d, k)
  }

  function RunLocked(d: Dispatcher, acts: seq<Action>): Dispatcher
    decreases |acts|
  {
    if acts == [] then d else RunLocked(StepLocked(d, acts[0]), acts[1..])
  }

  /** Ids handed to request threads are strictly increasing in start order
      and never exceed the accepted id. */
  predicate IdsIncreasing(d: Dispatcher)
  {
    && (forall i, j :: 0 <= i < j < |d.tasks| ==> d.tasks[i].requestId < d.tasks[j].requestId)
    && (forall i :: 0 <= i < |d.tasks| ==> d.tasks[i].requestId <= d.acceptedId)
  }

  /** With the id read under the lock, no interleaving of registrations and
      renders gives two requests the same id. */
  lemma {:induction false} LockedIdsDistinct(d: Dispatcher, acts: seq<Action>)
    requires IdsIncreasing(d)
    ensures IdsIncreasing(RunLocked(d, acts))
    decreases |acts|
  {
    if acts != [] {
      var d1 := StepLocked(d, acts[0]);
      assert IdsIncreasing(d1) by {
        match acts[0]
        case Register(pose, cb) =>
        case Spawn(j) =>
        case Render(k) =>
          if k < |d.tasks| {
            assert forall i :: 0 <= i < |d1.tasks| ==> d1.tasks[i].requestId == d.tasks[i].requestId;
          }
      }
      LockedIdsDistinct(d1, acts[1..]);
    }
  }

  /** The interleaving that duplicated ids now yields ids 0 and 1. */
  lemma LockedInterleavingDistinct(ladder: Ladder<LegacyEntry>, a: Pose, b: Pose)
    ensures var r := RunLocked(Init(ladder), [Register(a, 0), Register(b, 1), Spawn(0), Spawn(0)]);
            |r.tasks| == 2 && r.tasks[0].requestId == 0 && r.tasks[1].requestId == 1
  {
    var d0 := Init(ladder);
    var d2 := StepLocked(StepLocked(d0, Register(a, 0)), Register(b, 1));
    assert d2.tasks == [Task(0, a, 0, 0), Task(1, b, 1, 0)];
    RunLockedCons(d2, Spawn(0), []);
    RunLockedCons(d2, Spawn(0), [Spawn(0)]);
    RunLockedCons(StepLocked(d0, Register(a, 0)), Register(b, 1), [Spawn(0), Spawn(0)]);
    RunLockedCons(d0, Register(a, 0), [Register(b, 1), Spawn(0), Spawn(0)]);
  }

  lemma RunLockedCons(d: Dispatcher, a: Action, rest: seq<Action>)
    ensures RunLocked(d, [a] + rest) == RunLocked(StepLocked(d, a), rest)
  {
    assert ([a] + rest)[1..] == rest;
  }
}
