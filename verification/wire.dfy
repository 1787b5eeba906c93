/** The request/reply framing between the viewport bridges and the Gaussian
    splatting render server. A ZeroMQ message is a list of parts, each with a
    "more" flag that is set on every part but the last. Part contents are
    modelled by what they carry: a JSON object, or a TIFF blob holding an
    8-bit RGB image or a float image. Encoding and decoding of TIFF, JSON and
    base64 are identities on these values. */
module Wire {
  import opened Common
  import opened Pixels

  /** The JSON values the protocol uses. */
  datatype Value = Text(s: string) | Numbers(xs: seq<real>) | Dims(ds: seq<nat>)

  type Json = map<string, Value>

  /** A per-pixel float: the model keeps +inf as a tag and nothing else of
      floating point. */
  datatype Depth = Finite(r: real) | Infinite

  datatype RgbImage = RgbImage(height: nat, width: nat, pixels: seq<Rgb>)
  datatype DepthImage = DepthImage(height: nat, width: nat, values: seq<Depth>)

  datatype Blob = RgbTiff(rgb: RgbImage) | FloatTiff(depth: DepthImage)

  datatype Frame = JsonFrame(obj: Json) | BlobFrame(blob: Blob)

  datatype Part = Part(frame: Frame, more: bool)

  /** A complete message: at least one part, "more" on all but the last. */
  predicate WellFramed(m: seq<Part>)
  {
    && |m| > 0
    && (forall i :: 0 <= i < |m| - 1 ==> m[i].more)
    && !m[|m| - 1].more
  }

  /** Frames sent back to back, `SNDMORE` on all but the last. */
  function Message(frames: seq<Frame>): (m: seq<Part>)
    requires |frames| > 0
    ensures WellFramed(m)
    ensures |m| == |frames|
    ensures forall i :: 0 <= i < |m| ==> m[i].frame == frames[i]
  {
    seq(|frames|, i requires 0 <= i < |frames| => Part(frames[i], i < |frames| - 1))
  }

  /** `1 / x` on a float, with division by zero giving +inf and `1 / inf`
      giving 0. */
  function Recip(v: Depth): (r: Depth)
    ensures v == Finite(0.0) <==> r == Infinite
    ensures v == Infinite <==> r == Finite(0.0)
  {
    match v
    case Infinite => Finite(0.0)
    case Finite(x) => if x == 0.0 then Infinite else Finite(1.0 / x)
  }

  /** Taking the reciprocal twice gives the value back. */
  lemma RecipInvolution(v: Depth)
    ensures Recip(Recip(v)) == v
  {
  }

  function RecipAll(values: seq<Depth>): (r: seq<Depth>)
    ensures |r| == |values|
    ensures forall i :: 0 <= i < |values| ==> Recip(r[i]) == values[i]
  {
    seq(|values|, i requires 0 <= i < |values| => Recip(values[i]))
  }

  // ---------------------------------------------------------------------
  // Requests

  /** `{'position': list(pos), 'rotation': list(rot)}`; the degree-to-radian
      conversion of the rotation is left to the caller. */
  function PoseJson(p: Pose): Json
  {
    map["position" := Numbers([p.position.x, p.position.y, p.position.z]),
        "rotation" := Numbers([p.rotation.x, p.rotation.y, p.rotation.z])]
  }

  /** The splatting bridge's request: pose JSON, then the background RGB and
      depth as TIFF blobs, as one three-part message. */
  function GsplatRequest(p: Pose, background: RgbImage, backgroundDepth: DepthImage): (m: seq<Part>)
    ensures WellFramed(m) && |m| == 3
    ensures m[0].frame == JsonFrame(PoseJson(p))
  {
    Message([JsonFrame(PoseJson(p)), BlobFrame(RgbTiff(background)), BlobFrame(FloatTiff(backgroundDepth))])
  }

  /** The NeRF bridge's request: the pose JSON alone. */
  function NerfRequest(p: Pose): (m: seq<Part>)
    ensures WellFramed(m) && |m| == 1 && m[0].frame == JsonFrame(PoseJson(p))
  {
    Message([JsonFrame(PoseJson(p))])
  }

  // ---------------------------------------------------------------------
  // The render server

  /** The camera the server builds from a request, at the default resolution. */
  datatype GsCamera = GsCamera(position: Vec3, rotation: Vec3, width: nat, height: nat)

  /** What the splatting renderer produced for one camera. */
  datatype Render = Rendered(rgb: RgbImage, depth: DepthImage) | RenderFailed(message: string)

  /** Why a server iteration raised. */
  datatype Fault = NotJson | MissingKey(key: string) | BadPose | RenderError(message: string)

  /** `str(e)` of the exception, as the server puts it in the error reply.
      A `KeyError` prints its key quoted; decode and shape errors are given
      fixed stand-in texts. */
  function FaultText(f: Fault): string
  {
    match f
    case NotJson => "request is not JSON"
    case MissingKey(k) => "'" + k + "'"
    case BadPose => "pose is not two 3-vectors"
    case RenderError(m) => m
  }

  function ErrorReply(f: Fault): seq<Part>
  {
    Message([JsonFrame(map["error" := Text(FaultText(f))])])
  }

  function SuccessReply(rgb: RgbImage, depth: DepthImage): seq<Part>
  {
    Message([JsonFrame(map["shape" := Dims([rgb.height, rgb.width, 3])]),
             BlobFrame(RgbTiff(rgb)), BlobFrame(FloatTiff(depth))])
  }

  /** One iteration of the server loop: nothing to do on an empty inbox;
      otherwise `consumed` parts were received and `reply` was sent, and
      `camera` is the camera handed to the renderer, if any. */
  datatype Served = Idle | Served(consumed: nat, reply: seq<Part>, camera: Option<GsCamera>)

  /** A JSON value that is a list of three numbers, as a vector. */
  function AsVec3(v: Value): Option<Vec3>
  {
    if v.Numbers? && |v.xs| == 3 then Some(Vec3(v.xs[0], v.xs[1], v.xs[2])) else None
  }

  /** Parse the request object: `data['position']`, then `data['rotation']`. */
  function ParsePose(obj: Json): (r: Result)
  {
    if "position" !in obj then Fail(MissingKey("position"))
    else if "rotation" !in obj then Fail(MissingKey("rotation"))
    else
      var pos := AsVec3(obj["position"]);
      var rot := AsVec3(obj["rotation"]);
      if pos.None? || rot.None? then Fail(BadPose)
      else Ok(GsCamera(pos.value, rot.value, ViewportWidth, ViewportHeight))
  }

  datatype Result = Ok(camera: GsCamera) | Fail(fault: Fault)

  /** The server loop body: `recv_json()` reads ONE part, builds a 1280x720
      camera from it, renders, and replies with metadata, RGB and depth; any
      exception turns into a one-part `{'error': str(e)}` reply. */
  function ServeOnce(inbox: seq<Part>, render: GsCamera -> Render): (s: Served)
    ensures inbox == [] <==> s.Idle?
    ensures s.Served? ==> s.consumed == 1 && WellFramed(s.reply) && s.reply[0].frame.JsonFrame?
    ensures s.Served? ==> (|s.reply| == 3 <==> s.camera.Some? && render(s.camera.value).Rendered?)
    ensures s.Served? ==> (|s.reply| == 1 <==> "error" in s.reply[0].frame.obj)
    ensures s.Served? && s.camera.Some? ==>
      s.camera.value.width == 1280 && s.camera.value.height == 720
  {
    if inbox == [] then Idle
    else
      var first := inbox[0].frame;
      if !first.JsonFrame? then Served(1, ErrorReply(NotJson), None)
      else match ParsePose(first.obj)
        case Fail(f) => Served(1, ErrorReply(f), None)
        case Ok(cam) =>
          match render(cam)
          case RenderFailed(m) => Served(1, ErrorReply(RenderError(m)), Some(cam))
          case Rendered(rgb, depth) => Served(1, SuccessReply(rgb, depth), Some(cam))
  }

  /** The pose a bridge encodes is the pose the server decodes, and the
      camera it builds has the viewport resolution. */
  lemma PoseRoundTrip(p: Pose)
    ensures ParsePose(PoseJson(p)) == Ok(GsCamera(p.position, p.rotation, 1280, 720))
  {
  }

  /** Whichever bridge sent it, the server renders the requested pose. */
  lemma ServerRendersRequestedPose(p: Pose, bg: RgbImage, d: DepthImage, render: GsCamera -> Render)
    ensures ServeOnce(NerfRequest(p), render).camera == Some(GsCamera(p.position, p.rotation, 1280, 720))
    ensures ServeOnce(GsplatRequest(p, bg, d), render).camera == Some(GsCamera(p.position, p.rotation, 1280, 720))
  {
    PoseRoundTrip(p);
  }

  /** A success reply's metadata states the shape of the RGB image it sends. */
  lemma ShapeMatchesImage(inbox: seq<Part>, render: GsCamera -> Render)
    requires ServeOnce(inbox, render).Served? && |ServeOnce(inbox, render).reply| == 3
    ensures var r := ServeOnce(inbox, render).reply;
            && r[1].frame.BlobFrame? && r[1].frame.blob.RgbTiff?
            && r[2].frame.BlobFrame? && r[2].frame.blob.FloatTiff?
            && r[0].frame == JsonFrame(map["shape" := Dims([r[1].frame.blob.rgb.height, r[1].frame.blob.rgb.width, 3])])
  {
  }

  /** The server reads only the pose part of a splatting request: the reply
      is the same whatever background is attached, and two of the three
      parts are left unread. */
  lemma ServerReadsOnlyPose(p: Pose, bg1: RgbImage, d1: DepthImage, bg2: RgbImage, d2: DepthImage,
                            render: GsCamera -> Render)
    ensures ServeOnce(GsplatRequest(p, bg1, d1), render).consumed == 1 < |GsplatRequest(p, bg1, d1)|
    ensures ServeOnce(GsplatRequest(p, bg1, d1), render) == ServeOnce(GsplatRequest(p, bg2, d2), render)
  {
  }

  /** Corrected server: receive the whole request message (up to and including
      the part without "more"), then answer from its first part. */
  function ServeOnceFixed(inbox: seq<Part>, render: GsCamera -> Render): (s: Served)
    ensures inbox == [] <==> s.Idle?
    ensures s.Served? ==> 1 <= s.consumed <= |inbox|
    ensures s.Served? && s.consumed < |inbox| ==> !inbox[s.consumed - 1].more
    ensures s.Served? ==> forall i :: 0 <= i < s.consumed - 1 ==> inbox[i].more
  {
    if inbox == [] then Idle
    else
      var once := ServeOnce(inbox, render);
      Served(MessageLength(inbox), once.reply, once.camera)
  }

  /** Parts up to and including the first without "more" (all of them when
      every part has it). */
  function MessageLength(inbox: seq<Part>): (n: nat)
    requires inbox != []
    ensures 1 <= n <= |inbox|
    ensures forall i :: 0 <= i < n - 1 ==> inbox[i].more
    ensures n < |inbox| ==> !inbox[n - 1].more
    decreases |inbox|
  {
    if !inbox[0].more || |inbox| == 1 then 1 else 1 + MessageLength(inbox[1..])
  }

  /** On a well-framed request followed by anything, the corrected server
      consumes exactly that request and replies as the original does. */
  lemma FixedServerConsumesRequest(req: seq<Part>, rest: seq<Part>, render: GsCamera -> Render)
    requires WellFramed(req)
    ensures ServeOnceFixed(req + rest, render).consumed == |req|
    ensures ServeOnceFixed(req + rest, render).reply == ServeOnce(req + rest, render).reply
  {
    var n := MessageLength(req + rest);
    assert (req + rest)[|req| - 1] == req[|req| - 1];
  }

  // ---------------------------------------------------------------------
  // The splatting bridge's reply handling

  /** What one exchange does to the bridge's buffers. */
  datatype GsOutcome =
    | ServerError(message: string)                 // 'error' in metadata: nothing written
    | Decoded(rgb: seq<Rgb>, depth: seq<Depth>)    // both buffers replaced
    | RgbOnly(rgb: seq<Rgb>)                       // depth failed after the RGB write
    | Raised                                       // an exception before any write

  /** `rgb_3dgs[:] = np.array(Image.open(...))`: only a 1280x720 RGB image
      fits the buffer. */
  function DecodeRgb(f: Frame): Option<seq<Rgb>>
  {
    if f.BlobFrame? && f.blob.RgbTiff? && f.blob.rgb.height == ViewportHeight && f.blob.rgb.width == ViewportWidth
       && |f.blob.rgb.pixels| == PixelCount
    then Some(f.blob.rgb.pixels) else None
  }

  /** `depth_3dgs[:] = 1 / np.array(Image.open(...))`: a 1280x720 float image. */
  function DecodeDepth(f: Frame): Option<seq<Depth>>
  {
    if f.BlobFrame? && f.blob.FloatTiff? && f.blob.depth.height == ViewportHeight && f.blob.depth.width == ViewportWidth
       && |f.blob.depth.values| == PixelCount
    then Some(RecipAll(f.blob.depth.values)) else None
  }

  /** After the metadata, decode RGB then depth; the first failure raises. */
  function DecodeImages(rgbFrame: Frame, depthFrame: Frame): GsOutcome
  {
    match DecodeRgb(rgbFrame)
    case None => Raised
    case Some(rgb) =>
      match DecodeDepth(depthFrame)
      case None => RgbOnly(rgb)
      case Some(depth) => Decoded(rgb, depth)
  }

  /** As written: three receives (`recv_json`, `recv`, `recv`), and only then
      the `'error'` check. A receive past the reply's last part yields no part
      and the exchange ends in the exception handler. */
  function GsplatReceive(reply: seq<Part>): (r: GsOutcome)
    ensures |reply| < 3 ==> r == Raised
  {
    if |reply| < 3 || !reply[0].frame.JsonFrame? then Raised
    else if "error" in reply[0].frame.obj then
      var e := reply[0].frame.obj["error"];
      ServerError(if e.Text? then e.s else [])
    else DecodeImages(reply[1].frame, reply[2].frame)
  }

  /** Corrected client: receive the metadata, and receive the two image parts
      only when it is not an error. */
  function GsplatReceiveFixed(reply: seq<Part>): GsOutcome
  {
    if |reply| == 0 || !reply[0].frame.JsonFrame? then Raised
    else if "error" in reply[0].frame.obj then
      var e := reply[0].frame.obj["error"];
      ServerError(if e.Text? then e.s else [])
    else if |reply| < 3 then Raised
    else DecodeImages(reply[1].frame, reply[2].frame)
  }

  /** A render of viewport size. */
  predicate ViewportSized(rgb: RgbImage, depth: DepthImage)
  {
    && rgb.height == ViewportHeight && rgb.width == ViewportWidth && |rgb.pixels| == PixelCount
    && depth.height == ViewportHeight && depth.width == ViewportWidth && |depth.values| == PixelCount
  }

  /** As written, the client never sees the server's error text: a one-part
      error reply runs out of parts at the second receive. */
  lemma ErrorReplyNeverReported(f: Fault)
    ensures |ErrorReply(f)| == 1
    ensures GsplatReceive(ErrorReply(f)) == Raised
  {
  }

  /** The corrected client completes the exchange for every server reply:
      an error reply reports the server's message, and a viewport-sized render
      arrives intact, with the depth image inverted. */
  lemma FixedClientRoundTrip(req: seq<Part>, render: GsCamera -> Render)
    requires req != []
    ensures var s := ServeOnce(req, render);
            match GsplatReceiveFixed(s.reply)
            case ServerError(m) => |s.reply| == 1 && s.reply[0].frame.obj["error"] == Text(m)
            case Decoded(rgb, depth) =>
              && s.camera.Some? && render(s.camera.value).Rendered?
              && rgb == render(s.camera.value).rgb.pixels
              && RecipAll(depth) == render(s.camera.value).depth.values
            case RgbOnly(_) => s.camera.Some? && render(s.camera.value).Rendered?
            case Raised => s.camera.Some? && render(s.camera.value).Rendered?
                           && !ViewportSized(render(s.camera.value).rgb, render(s.camera.value).depth)
  {
    var s := ServeOnce(req, render);
    if s.camera.Some? && render(s.camera.value).Rendered? {
      var d := render(s.camera.value).depth.values;
      if DecodeDepth(s.reply[2].frame).Some? {
        assert forall i :: 0 <= i < |d| ==> RecipAll(RecipAll(d))[i] == d[i] by {
          forall i | 0 <= i < |d| ensures RecipAll(RecipAll(d))[i] == d[i] {
            RecipInvolution(d[i]);
          }
        }
      }
    }
  }

  /** On replies the server can send, the two clients agree whenever the
      reply is a success; they differ exactly on error replies. */
  lemma ClientsDifferOnlyOnErrors(req: seq<Part>, render: GsCamera -> Render)
    requires req != []
    ensures var r := ServeOnce(req, render).reply;
            (GsplatReceive(r) == GsplatReceiveFixed(r) <==> |r| == 3)
  {
  }

  // ---------------------------------------------------------------------
  // The NeRF bridge's reply handling

  datatype NerfOutcome = NerfError(message: string) | NerfImage(shape: seq<nat>, image: Value) | NerfRaised

  /** As written: one `recv_json`, then `'error'`, else `response['shape']`
      and `response['image']` (a missing key raises `KeyError`). */
  function NerfReceive(reply: seq<Part>): (r: NerfOutcome)
    ensures r.NerfImage? ==> |reply| > 0 && reply[0].frame.JsonFrame? && "image" in reply[0].frame.obj
  {
    if |reply| == 0 || !reply[0].frame.JsonFrame? then NerfRaised
    else
      var obj := reply[0].frame.obj;
      if "error" in obj then NerfError(if obj["error"].Text? then obj["error"].s else [])
      else if "shape" !in obj || !obj["shape"].Dims? || "image" !in obj then NerfRaised
      else NerfImage(obj["shape"].ds, obj["image"])
  }

  /** The server's success reply carries no `'image'` key, so the NeRF
      bridge raises on every successful render. */
  lemma NerfRejectsEverySuccess(p: Pose, render: GsCamera -> Render)
    ensures var s := ServeOnce(NerfRequest(p), render);
            |s.reply| == 3 ==> NerfReceive(s.reply) == NerfRaised
  {
  }

  /** Corrected NeRF client: read the server's three-part reply like the
      corrected splatting client and keep the RGB image. */
  function NerfReceiveFixed(reply: seq<Part>): (r: Option<seq<Rgb>>)
    ensures r.Some? <==> GsplatReceiveFixed(reply).Decoded? || GsplatReceiveFixed(reply).RgbOnly?
  {
    match GsplatReceiveFixed(reply)
    case Decoded(rgb, _) => Some(rgb)
    case RgbOnly(rgb) => Some(rgb)
    case _ => None
  }

  /** With the correction, a viewport-sized render requested by the NeRF
      bridge reaches it. */
  lemma NerfFixedReceivesRender(p: Pose, render: GsCamera -> Render)
    ensures var s := ServeOnce(NerfRequest(p), render);
            s.camera.Some? && render(s.camera.value).Rendered?
            && ViewportSized(render(s.camera.value).rgb, render(s.camera.value).depth)
            ==> NerfReceiveFixed(s.reply) == Some(render(s.camera.value).rgb.pixels)
  {
  }
}
