/** Render-quality ladders (`RendererCameraConfig`): the ordered lists of
    camera settings that both render queues walk, low fidelity first. The
    current queue uses plain width/height/fov rungs; the older dispatcher's
    rungs also carry a call budget and a delay. */
module CameraConfig {
  import opened Common

  /** The size (pixels) and vertical field of view (degrees) of one render. */
  datatype Camera = Camera(width: nat, height: nat, fov: real)

  /** A rung of the older ladder format. */
  datatype LegacyEntry = LegacyEntry(camera: Camera, numAllowedRenderCalls: nat, delayBeforeRenderCall: real)

  /** A ladder: the configuration list, lowest quality first. */
  datatype Ladder<T> = Ladder(cameras: seq<T>)

  /** Vertical field of view matching the Isaac Sim default camera (60 degrees
      horizontal at 16:9). */
  const IsaacVerticalFov: real := 35.98339777135764

  /** The default ladder of the current render queue: five 16:9 rungs from
      0.05x to 1x of 1280x720, all with the same field of view. */
  function DefaultLadder(): (l: Ladder<Camera>)
    ensures |l.cameras| == 5
    ensures forall i :: 0 <= i < |l.cameras| ==>
      l.cameras[i].fov == IsaacVerticalFov && l.cameras[i].width * 9 == l.cameras[i].height * 16
    ensures forall i, j :: 0 <= i < j < |l.cameras| ==>
      l.cameras[i].width < l.cameras[j].width && l.cameras[i].height < l.cameras[j].height
    ensures l.cameras[0].width == 64 && l.cameras[0].height == 36
    ensures l.cameras[4].width == 1280 && l.cameras[4].height == 720
  {
    Ladder([
      Camera(64, 36, IsaacVerticalFov),
      Camera(128, 72, IsaacVerticalFov),
      Camera(320, 180, IsaacVerticalFov),
      Camera(640, 360, IsaacVerticalFov),
      Camera(1280, 720, IsaacVerticalFov)
    ])
  }

  /** The default ladder of the older dispatcher: two rungs at field of view
      72, a fast preview (budget 5, no delay) and a sharper frame (budget 2,
      0.1 s delay). */
  function LegacyDefaultLadder(): (l: Ladder<LegacyEntry>)
    ensures |l.cameras| == 2
    ensures forall i :: 0 <= i < |l.cameras| ==> l.cameras[i].camera.fov == 72.0
    ensures l.cameras[0].camera.width < l.cameras[1].camera.width
    ensures l.cameras[0].camera.height < l.cameras[1].camera.height
    ensures l.cameras[0].camera == Camera(90, 42, 72.0) && l.cameras[1].camera == Camera(900, 420, 72.0)
    ensures l.cameras[0].numAllowedRenderCalls == 5 && l.cameras[0].delayBeforeRenderCall == 0.0
    ensures l.cameras[1].numAllowedRenderCalls == 2 && l.cameras[1].delayBeforeRenderCall == 0.1
  {
    Ladder([
      LegacyEntry(Camera(90, 42, 72.0), 5, 0.0),
      LegacyEntry(Camera(900, 420, 72.0), 2, 0.1)
    ])
  }

  /** `__len__`: the number of rungs. */
  function Len<T>(cfg: Ladder<T>): nat
  {
    |cfg.cameras|
  }

  /** `__getitem__(idx)`, which indexes the underlying Python list: negative
      indices count from the end, anything else out of range raises
      `IndexError` (modelled as `None`). */
  function GetItem<T>(cfg: Ladder<T>, idx: int): (r: Option<T>)
    ensures r.Some? <==> -(Len(cfg) as int) <= idx < Len(cfg)
    ensures 0 <= idx < Len(cfg) ==> r == Some(cfg.cameras[idx])
    ensures -(Len(cfg) as int) <= idx < 0 ==> r == Some(cfg.cameras[idx + Len(cfg)])
  {
    var n := |cfg.cameras|;
    if 0 <= idx < n then Some(cfg.cameras[idx])
    else if -n <= idx < 0 then Some(cfg.cameras[n + idx])
    else None
  }

  /** `enumerate(config)` on a class that defines only `__len__` and
      `__getitem__`: Python's sequence protocol calls `__getitem__(0)`,
      `__getitem__(1)`, ... until `IndexError`. The entries visited are exactly
      the rungs, in order, and there are `__len__` of them. */
  method Enumerate<T>(cfg: Ladder<T>) returns (entries: seq<T>)
    ensures entries == cfg.cameras
    ensures |entries| == Len(cfg)
  {
    entries := [];
    var i := 0;
    var item := GetItem(cfg, i);
    while item.Some?
      invariant 0 <= i <= |cfg.cameras|
      invariant entries == cfg.cameras[..i]
      invariant item == GetItem(cfg, i)
      decreases |cfg.cameras| - i
    {
      entries := entries + [item.value];
      i := i + 1;
      item := GetItem(cfg, i);
    }
  }
}
