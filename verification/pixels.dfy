/** The viewport frame buffer shared by both extension bridges: a 1280x720
    RGBA byte image stored as a flat sequence of pixels, its initial
    contents, and the cheap "liveness" animation drawn when there is nothing
    to render. */
module Pixels {

  type Byte = x: int | 0 <= x < 256

  datatype Rgb = Rgb(r: Byte, g: Byte, b: Byte)

  datatype Rgba = Rgba(r: Byte, g: Byte, b: Byte, a: Byte)

  /** Default viewport resolution, followed by both bridges and the renderer. */
  const ViewportWidth: nat := 1280
  const ViewportHeight: nat := 720
  const PixelCount: nat := ViewportWidth * ViewportHeight

  /** Every pixel of the buffer is fully opaque. */
  predicate Opaque(buf: seq<Rgba>)
  {
    forall i :: 0 <= i < |buf| ==> buf[i].a == 255
  }

  /** The buffer allocated at startup: RGB 128 everywhere, alpha 255. */
  function InitialBuffer(): (buf: seq<Rgba>)
    ensures |buf| == PixelCount
    ensures Opaque(buf)
    ensures forall i :: 0 <= i < |buf| ==> buf[i].r == 128 && buf[i].g == 128 && buf[i].b == 128
  {
    seq(PixelCount, _ => Rgba(128, 128, 128, 255))
  }

  /** One step of the placeholder animation on one channel value: the value is
      widened, incremented and reduced modulo 256 before being narrowed back. */
  function Bump(v: Byte): Byte
  {
    (v + 1) % 256
  }

  function BumpPixel(p: Rgba): Rgba
  {
    Rgba(Bump(p.r), Bump(p.g), Bump(p.b), p.a)
  }

  /** The placeholder frame update: every RGB value advances by one modulo 256,
      the alpha channel is left alone. */
  function Tick(buf: seq<Rgba>): (r: seq<Rgba>)
    ensures |r| == |buf|
    ensures forall i :: 0 <= i < |buf| ==>
      r[i].r == (buf[i].r + 1) % 256 && r[i].g == (buf[i].g + 1) % 256
      && r[i].b == (buf[i].b + 1) % 256 && r[i].a == buf[i].a
  {
    seq(|buf|, i requires 0 <= i < |buf| => BumpPixel(buf[i]))
  }

  /** The placeholder applied `n` times. */
  function TickN(buf: seq<Rgba>, n: nat): seq<Rgba>
  {
    if n == 0 then buf else Tick(TickN(buf, n - 1))
  }

  /** Overwrite channels 0-2 with `rgb`, pixel by pixel (`rgba[:,:,:3] = rgb`). */
  function SetRgb(buf: seq<Rgba>, rgb: seq<Rgb>): (r: seq<Rgba>)
    requires |rgb| == |buf|
    ensures |r| == |buf|
    ensures forall i :: 0 <= i < |buf| ==>
      r[i] == Rgba(rgb[i].r, rgb[i].g, rgb[i].b, buf[i].a)
  {
    seq(|buf|, i requires 0 <= i < |buf| => Rgba(rgb[i].r, rgb[i].g, rgb[i].b, buf[i].a))
  }

  /** Set channel 3 to 255 (`rgba[:,:,3] = 255`). */
  function SetOpaque(buf: seq<Rgba>): (r: seq<Rgba>)
    ensures |r| == |buf|
    ensures Opaque(r)
    ensures forall i :: 0 <= i < |buf| ==>
      r[i].r == buf[i].r && r[i].g == buf[i].g && r[i].b == buf[i].b
  {
    seq(|buf|, i requires 0 <= i < |buf| => buf[i].(a := 255))
  }

  /** The RGB part of a pixel. */
  function RgbOf(p: Rgba): Rgb
  {
    Rgb(p.r, p.g, p.b)
  }

  /** After `n` placeholder steps every channel value has advanced by `n`
      modulo 256 and alpha is unchanged. */
  lemma {:induction false} TickNAdvances(buf: seq<Rgba>, n: nat)
    ensures |TickN(buf, n)| == |buf|
    ensures forall i :: 0 <= i < |buf| ==>
      TickN(buf, n)[i] == Rgba((buf[i].r + n) % 256, (buf[i].g + n) % 256, (buf[i].b + n) % 256, buf[i].a)
  {
    if n > 0 {
      TickNAdvances(buf, n - 1);
      forall i | 0 <= i < |buf|
        ensures TickN(buf, n)[i] == Rgba((buf[i].r + n) % 256, (buf[i].g + n) % 256, (buf[i].b + n) % 256, buf[i].a)
      {
        ModSucc(buf[i].r, n - 1);
        ModSucc(buf[i].g, n - 1);
        ModSucc(buf[i].b, n - 1);
      }
    }
  }

  lemma ModSucc(v: int, m: nat)
    ensures ((v + m) % 256 + 1) % 256 == (v + m + 1) % 256
  {
  }

  /** The placeholder animation is periodic with period 256: after 256 cycles
      the buffer is back where it started. */
  lemma TickPeriod(buf: seq<Rgba>)
    ensures TickN(buf, 256) == buf
  {
    var period := 256;
    TickNAdvances(buf, period);
    var r := TickN(buf, period);
    assert forall i :: 0 <= i < |buf| ==> r[i] == buf[i];
  }

  /** Each placeholder step visibly changes every pixel, which is what makes a
      live pipeline distinguishable from a frozen one. */
  lemma TickChangesEveryPixel(buf: seq<Rgba>)
    ensures forall i :: 0 <= i < |buf| ==> Tick(buf)[i] != buf[i]
  {
  }

  /** Neither the placeholder nor an RGB write touches alpha, so an opaque
      buffer stays opaque. */
  lemma RgbWritesKeepOpaque(buf: seq<Rgba>, rgb: seq<Rgb>)
    requires Opaque(buf)
    ensures Opaque(Tick(buf))
    ensures |rgb| == |buf| ==> Opaque(SetRgb(buf, rgb))
  {
  }
}
