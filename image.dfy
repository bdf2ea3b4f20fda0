/** The image sampling loop of main: for each pixel, SampleCount jittered
    camera rays traced to depth RayDepth, averaged, passed through a square
    root, clamped and packed into an RGBA8888 word. */
module Image {
  import opened Vectors
  import opened Rays
  import opened Sampling
  import opened Tracer

  /** sampleCount: rays per pixel (a float in the source, compared against the
      integer loop counter). */
  const SampleCount: nat := 150

  /** rayDepth: the bounce budget handed to World::color. */
  const RayDepth: real := 50.0

  /** The image size (w, h) and fov, the tangent of half the vertical field
      of view, taken as given. */
  datatype View = View(width: nat, height: nat, fov: real)
  {
    /** aspectRatio = w / h. */
    function AspectRatio(): real
      requires height > 0
    {
      width as real / height as real
    }
  }

  /** pixelToWorld: a (possibly jittered) pixel position to a point of the
      image plane, x to the right and y upwards. */
  function PixelToWorld(view: View, x: real, y: real): Vec2
    requires view.width > 0 && view.height > 0
  {
    Vec2(((2.0 * ((x + 0.5) / view.width as real)) - 1.0) * view.AspectRatio() * view.fov,
         (1.0 - (2.0 * ((y + 0.5) / view.height as real))) * view.fov)
  }

  /** m in [-1, 1] times a positive k lies in [-k, k]. */
  lemma ScaledUnitInterval(m: real, k: real, p: real)
    requires -1.0 <= m <= 1.0 && k > 0.0 && p == m * k
    ensures -k <= p <= k
  {
    ProductNonNegative(1.0 - m, k, (1.0 - m) * k);
    ProductNonNegative(1.0 + m, k, (1.0 + m) * k);
  }

  /** (v + 0.5) / size lies in [0, 1] for v in [-0.5, size - 0.5]. */
  lemma PixelFraction(v: real, size: real)
    requires size > 0.0 && -0.5 <= v <= size - 0.5
    ensures 0.0 <= (v + 0.5) / size <= 1.0
  {
    DivisionMonotone(0.0, v + 0.5, size);
    DivisionMonotone(v + 0.5, size, size);
  }

  /** Every position inside the pixel grid, jitter included, maps into the
      image-plane window [-aspectRatio * fov, aspectRatio * fov] x [-fov, fov]. */
  lemma PixelToWorldRange(view: View, x: real, y: real)
    requires view.width > 0 && view.height > 0 && view.fov > 0.0
    requires -0.5 <= x <= view.width as real - 0.5 && -0.5 <= y <= view.height as real - 0.5
    ensures var pos := PixelToWorld(view, x, y);
            var right := view.AspectRatio() * view.fov;
            -right <= pos.x <= right && -view.fov <= pos.y <= view.fov
  {
    var w, h := view.width as real, view.height as real;
    PixelFraction(x, w);
    PixelFraction(y, h);
    var right := view.AspectRatio() * view.fov;
    DivisionMonotone(0.0, w, h);
    assert view.AspectRatio() > 0.0 by {
      assert w / h > 0.0;
    }
    ProductPositive(view.AspectRatio(), view.fov, right);
    var mx := (2.0 * ((x + 0.5) / w)) - 1.0;
    var my := 1.0 - (2.0 * ((y + 0.5) / h));
    ScaledUnitInterval(mx, right, mx * right);
    ScaledUnitInterval(my, view.fov, my * view.fov);
    assert mx * view.AspectRatio() * view.fov == mx * right;
  }

  /** The generator's output as two streams: `uniform` stands for the
      randomFloat() draws that jitter the camera rays, `onSphere` the unit vectors
      that randomUnitVec3OnSphere hands to diffuse bounces. */
  datatype Random = Random(uniform: nat -> real, onSphere: nat -> Vec3)

  /** How far each stream has been consumed. */
  datatype Cursor = Cursor(uniform: nat, onSphere: nat)

  /** What the source demands before rendering: a scene whose spheres have
      positive radii, a true square root, and a camera off the image plane
      z = -1 (so that no primary ray has a zero direction). */
  ghost predicate Ready(world: World, sqrt: real -> real)
  {
    world.Valid() && IsSqrt(sqrt) && world.camera.position.z != -1.0
  }

  /** The camera ray through the jittered pixel position (x, y) + offset:
      it starts at the camera and points, normalised, at the image-plane
      point {pos, -1}. */
  function PrimaryRay(world: World, view: View, x: nat, y: nat, offset: Vec2,
                      sqrt: real -> real): (ray: Ray)
    requires Ready(world, sqrt) && view.width > 0 && view.height > 0
    ensures ray.origin == world.camera.position
    ensures NonZero(ray.direction) && Dot(ray.direction, ray.direction) == 1.0
    ensures var pos := PixelToWorld(view, x as real + offset.x, y as real + offset.y);
            var target := Sub(Vec3(pos.x, pos.y, -1.0), world.camera.position);
            Scale(sqrt(Dot(target, target)), ray.direction) == target
  {
    var pos := PixelToWorld(view, x as real + offset.x, y as real + offset.y);
    var target := Sub(Vec3(pos.x, pos.y, -1.0), world.camera.position);
    Ray(world.camera.position, Normalize(target, sqrt))
  }

  /** One sample of pixel (x, y): two uniform draws jitter the position
      within the pixel, the camera ray through it is traced to RayDepth. The
      result carries the stream positions after the sample. */
  function Sample(world: World, view: View, sqrt: real -> real, rnd: Random,
                  x: nat, y: nat, at: Cursor): (s: Accum)
    requires Ready(world, sqrt) && x < view.width && y < view.height
    ensures s.cursor.uniform == at.uniform + 2 && at.onSphere <= s.cursor.onSphere
  {
    var offset := RandomVec2(-0.5, 0.5, rnd.uniform(at.uniform), rnd.uniform(at.uniform + 1));
    var ray := PrimaryRay(world, view, x, y, offset, sqrt);
    var shade := Color(world, ray, RayDepth, sqrt, rnd.onSphere, at.onSphere);
    Accum(shade.color, Cursor(at.uniform + 2, shade.next))
  }

  /** A colour (a sample, or a running sum of samples) and the stream
      positions after it. */
  datatype Accum = Accum(sum: Vec3, cursor: Cursor)

  /** The first n samples of pixel (x, y), summed, drawn from the streams at
      `start`. */
  function Samples(world: World, view: View, sqrt: real -> real, rnd: Random,
                   x: nat, y: nat, start: Cursor, n: nat): (a: Accum)
    requires Ready(world, sqrt) && x < view.width && y < view.height
    ensures a.cursor.uniform == start.uniform + 2 * n
    ensures start.onSphere <= a.cursor.onSphere
  {
    if n == 0 then Accum(Zero, start)
    else
      var prev := Samples(world, view, sqrt, rnd, x, y, start, n - 1);
      var s := Sample(world, view, sqrt, rnd, x, y, prev.cursor);
      Accum(Add(prev.sum, s.sum), s.cursor)
  }

  /** Average over the samples, gamma 2 (square root) and clamp to [0, 1]. */
  function Tone(sum: Vec3, sqrt: real -> real): (c: Vec3)
    ensures InUnitCube(c)
    ensures 0.0 <= sqrt(sum.x / SampleCount as real) <= 1.0 ==> c.x == sqrt(sum.x / SampleCount as real)
    ensures sqrt(sum.x / SampleCount as real) > 1.0 ==> c.x == 1.0
    ensures sqrt(sum.x / SampleCount as real) < 0.0 ==> c.x == 0.0
    ensures 0.0 <= sqrt(sum.y / SampleCount as real) <= 1.0 ==> c.y == sqrt(sum.y / SampleCount as real)
    ensures sqrt(sum.y / SampleCount as real) > 1.0 ==> c.y == 1.0
    ensures sqrt(sum.y / SampleCount as real) < 0.0 ==> c.y == 0.0
    ensures 0.0 <= sqrt(sum.z / SampleCount as real) <= 1.0 ==> c.z == sqrt(sum.z / SampleCount as real)
    ensures sqrt(sum.z / SampleCount as real) > 1.0 ==> c.z == 1.0
    ensures sqrt(sum.z / SampleCount as real) < 0.0 ==> c.z == 0.0
  {
    var average := Div(sum, SampleCount as real);
    Vec3(Clamp01(sqrt(average.x)), Clamp01(sqrt(average.y)), Clamp01(sqrt(average.z)))
  }

  /** static_cast<uint32_t>(c * 255): truncation of a channel in [0, 1]
      towards zero, which yields a byte value. */
  function ChannelValue(c: real): (n: nat)
    requires 0.0 <= c <= 1.0
    ensures n <= 255
    ensures n as real <= c * 255.0 < (n + 1) as real
  {
    (c * 255.0).Floor
  }

  /** The RGBA8888 word: red in the top byte, then green, blue, and an opaque
      alpha of 0xFF in the low byte. */
  function PackRGBA(r: bv8, g: bv8, b: bv8): (word: bv32)
    ensures (word >> 24) as bv8 == r
    ensures ((word >> 16) & 0xFF) as bv8 == g
    ensures ((word >> 8) & 0xFF) as bv8 == b
    ensures word & 0xFF == 0xFF
  {
    (r as bv32 << 24) | (g as bv32 << 16) | (b as bv32 << 8) | 0xFF
  }

  /** The packed word of a tone-mapped colour. */
  function PixelWord(c: Vec3): bv32
    requires InUnitCube(c)
  {
    PackRGBA(ChannelValue(c.x) as bv8, ChannelValue(c.y) as bv8, ChannelValue(c.z) as bv8)
  }

  /** A finished pixel and the stream positions after it. */
  datatype PixelOut = PixelOut(word: bv32, cursor: Cursor)

  /** The pixel (x, y): all SampleCount samples, toned and packed; the pixel
      is opaque and has used two uniform draws per sample. */
  function Pixel(world: World, view: View, sqrt: real -> real, rnd: Random,
                 x: nat, y: nat, start: Cursor): (p: PixelOut)
    requires Ready(world, sqrt) && x < view.width && y < view.height
    ensures p.word & 0xFF == 0xFF
    ensures p.cursor.uniform == start.uniform + 2 * SampleCount
  {
    var a := Samples(world, view, sqrt, rnd, x, y, start, SampleCount);
    PixelOut(PixelWord(Tone(a.sum, sqrt)), a.cursor)
  }

  /** `shade` gives every pixel of the grid as Pixel does. The trigger keeps
      the pixel computation out of sight until a caller names a pixel. */
  ghost predicate Renders(shade: (nat, nat, Cursor) -> PixelOut, world: World, view: View,
                          sqrt: real -> real, rnd: Random)
  {
    Ready(world, sqrt) &&
    forall x: nat, y: nat, c: Cursor {:trigger Pixel(world, view, sqrt, rnd, x, y, c)} ::
      x < view.width && y < view.height ==> shade(x, y, c) == Pixel(world, view, sqrt, rnd, x, y, c)
  }

  /** Pixel (x, y) of the image as a function of the stream positions
      before it; positions off the grid are never asked for and give 0. */
  ghost function Shader(world: World, view: View, sqrt: real -> real, rnd: Random)
    : (nat, nat, Cursor) -> PixelOut
  {
    (x: nat, y: nat, c: Cursor) =>
      if Ready(world, sqrt) && x < view.width && y < view.height
      then Pixel(world, view, sqrt, rnd, x, y, c)
      else PixelOut(0, c)
  }

  lemma ShaderRenders(world: World, view: View, sqrt: real -> real, rnd: Random)
    requires Ready(world, sqrt)
    ensures Renders(Shader(world, view, sqrt, rnd), world, view, sqrt, rnd)
  {
  }

  /** A run of finished pixel words and the stream positions after them. */
  datatype Strip = Strip(words: seq<bv32>, cursor: Cursor)

  /** The first `count` pixels of row y, left to right, each drawing from the
      streams where the previous one stopped. */
  ghost function RowPixels(shade: (nat, nat, Cursor) -> PixelOut, y: nat, count: nat,
                           start: Cursor): (s: Strip)
    ensures |s.words| == count
  {
    if count == 0 then Strip([], start)
    else
      var prev := RowPixels(shade, y, count - 1, start);
      var px := shade(count - 1, y, prev.cursor);
      Strip(prev.words + [px.word], px.cursor)
  }

  /** The first `rows` rows of a `width`-wide image, top to bottom: the
      row-major order of the pixel buffer. */
  ghost function Rows(shade: (nat, nat, Cursor) -> PixelOut, width: nat, rows: nat,
                      start: Cursor): (s: Strip)
    ensures |s.words| == rows * width
  {
    if rows == 0 then Strip([], start)
    else
      var prev := Rows(shade, width, rows - 1, start);
      var row := RowPixels(shade, rows - 1, width, prev.cursor);
      Strip(prev.words + row.words, row.cursor)
  }

  /** Two shaders that agree on the first `count` pixels of row y give the
      same row. */
  lemma {:induction false} RowAgree(s1: (nat, nat, Cursor) -> PixelOut,
                                    s2: (nat, nat, Cursor) -> PixelOut,
                                    y: nat, count: nat, start: Cursor)
    requires forall x: nat, c: Cursor :: x < count ==> s1(x, y, c) == s2(x, y, c)
    ensures RowPixels(s1, y, count, start) == RowPixels(s2, y, count, start)
  {
    if count > 0 {
      RowAgree(s1, s2, y, count - 1, start);
    }
  }

  /** Two shaders that agree on the grid give the same image. */
  lemma {:induction false} ImageAgree(s1: (nat, nat, Cursor) -> PixelOut,
                                      s2: (nat, nat, Cursor) -> PixelOut,
                                      width: nat, rows: nat, start: Cursor)
    requires forall x: nat, y: nat, c: Cursor :: x < width && y < rows ==> s1(x, y, c) == s2(x, y, c)
    ensures Rows(s1, width, rows, start) == Rows(s2, width, rows, start)
  {
    if rows > 0 {
      ImageAgree(s1, s2, width, rows - 1, start);
      RowAgree(s1, s2, rows - 1, width, Rows(s1, width, rows - 1, start).cursor);
    }
  }

  /** Word x of a row is pixel (x, y), computed from the streams where the
      first x pixels of the row left them. */
  lemma {:induction false} RowPixelsAt(shade: (nat, nat, Cursor) -> PixelOut, y: nat, count: nat,
                                       start: Cursor, x: nat)
    requires x < count
    ensures RowPixels(shade, y, count, start).words[x]
            == shade(x, y, RowPixels(shade, y, x, start).cursor).word
  {
    if x < count - 1 {
      RowPixelsAt(shade, y, count - 1, start, x);
    }
  }

  /** Row-major layout of the image: word y * width + x is pixel (x, y),
      computed from the streams where the rows above and the first x pixels
      of row y left them. */
  lemma {:induction false} RowsAt(shade: (nat, nat, Cursor) -> PixelOut, width: nat, rows: nat,
                                  start: Cursor, x: nat, y: nat)
    requires x < width && y < rows
    ensures y * width + x < |Rows(shade, width, rows, start).words|
    ensures var above := Rows(shade, width, y, start);
            Rows(shade, width, rows, start).words[y * width + x]
            == shade(x, y, RowPixels(shade, y, x, above.cursor).cursor).word
  {
    RowMajor(x, y, width, rows);
    var prev := Rows(shade, width, rows - 1, start);
    if y < rows - 1 {
      RowsAt(shade, width, rows - 1, start, x, y);
      RowMajor(x, y, width, rows - 1);
    } else {
      RowPixelsAt(shade, y, width, prev.cursor, x);
    }
  }

  /** Every packed pixel is opaque: its low byte is 0xFF. */
  predicate Opaque(words: seq<bv32>)
  {
    forall i :: 0 <= i < |words| ==> words[i] & 0xFF == 0xFF
  }

  lemma {:induction false} RowOpaque(shade: (nat, nat, Cursor) -> PixelOut, y: nat, count: nat,
                                     start: Cursor)
    requires forall x: nat, c: Cursor :: x < count ==> shade(x, y, c).word & 0xFF == 0xFF
    ensures Opaque(RowPixels(shade, y, count, start).words)
  {
    if count > 0 {
      RowOpaque(shade, y, count - 1, start);
    }
  }

  /** A shader whose every pixel is opaque gives an opaque image. */
  lemma {:induction false} ImageOpaque(shade: (nat, nat, Cursor) -> PixelOut, width: nat,
                                       rows: nat, start: Cursor)
    requires forall x: nat, y: nat, c: Cursor :: x < width && y < rows ==> shade(x, y, c).word & 0xFF == 0xFF
    ensures Opaque(Rows(shade, width, rows, start).words)
  {
    if rows > 0 {
      ImageOpaque(shade, width, rows - 1, start);
      RowOpaque(shade, rows - 1, width, Rows(shade, width, rows - 1, start).cursor);
    }
  }

  /** Any shader that renders the scene gives Shader's image, and that image
      is opaque. */
  lemma {:induction false} RendersImage(shade: (nat, nat, Cursor) -> PixelOut, world: World,
                                        view: View, sqrt: real -> real, rnd: Random, start: Cursor)
    requires Renders(shade, world, view, sqrt, rnd)
    ensures Rows(shade, view.width, view.height, start)
            == Rows(Shader(world, view, sqrt, rnd), view.width, view.height, start)
    ensures Opaque(Rows(shade, view.width, view.height, start).words)
  {
    var shader := Shader(world, view, sqrt, rnd);
    forall x: nat, y: nat, c: Cursor | x < view.width && y < view.height
      ensures shade(x, y, c) == shader(x, y, c)
      ensures shade(x, y, c).word & 0xFF == 0xFF
    {
      assert shade(x, y, c) == Pixel(world, view, sqrt, rnd, x, y, c);
    }
    ImageAgree(shade, shader, view.width, view.height, start);
    ImageOpaque(shade, view.width, view.height, start);
  }

  /** The sample loop of one pixel. */
  method RenderPixel(world: World, view: View, sqrt: real -> real, rnd: Random,
                     ghost shade: (nat, nat, Cursor) -> PixelOut,
                     x: nat, y: nat, start: Cursor) returns (word: bv32, cursor: Cursor)
    requires Renders(shade, world, view, sqrt, rnd) && x < view.width && y < view.height
    ensures PixelOut(word, cursor) == shade(x, y, start)
  {
    var pixelColor := Zero;
    cursor := start;
    for i := 0 to SampleCount
      invariant Accum(pixelColor, cursor) == Samples(world, view, sqrt, rnd, x, y, start, i)
    {
      var sample := Sample(world, view, sqrt, rnd, x, y, cursor);
      pixelColor := Add(pixelColor, sample.sum);
      cursor := sample.cursor;
    }
    word := PixelWord(Tone(pixelColor, sqrt));
    assert PixelOut(word, cursor) == Pixel(world, view, sqrt, rnd, x, y, start);
  }

  /** Row-major indexing: pixel (x, y) of a w-by-h image lies inside the
      buffer, and a row ends where the next one starts. */
  lemma RowMajor(x: nat, y: nat, w: nat, h: nat)
    requires x <= w && y < h
    ensures y * w + x <= (y + 1) * w == y * w + w <= w * h
  {
    ProductNonNegative((h - y - 1) as real, w as real, ((h - y - 1) * w) as real);
    assert w * h == (y + 1) * w + (h - y - 1) * w;
  }

  /** The x loop of main for row y, whose first index in the buffer is
      `base` (= y * w): the row's pixels are written left to right at indices
      base + x; the rest of the buffer is untouched. */
  method RenderRow(world: World, view: View, sqrt: real -> real, rnd: Random,
                   ghost shade: (nat, nat, Cursor) -> PixelOut,
                   pixels: array<bv32>, y: nat, base: nat, start: Cursor)
    returns (cursor: Cursor, ghost written: seq<nat>)
    requires Renders(shade, world, view, sqrt, rnd) && y < view.height
    requires base + view.width <= pixels.Length
    modifies pixels
    ensures Strip(pixels[base..base + view.width], cursor) == RowPixels(shade, y, view.width, start)
    ensures forall i :: 0 <= i < pixels.Length && !(base <= i < base + view.width) ==>
              pixels[i] == old(pixels[i])
    ensures |written| == view.width && forall i :: 0 <= i < |written| ==> written[i] == base + i
  {
    cursor := start;
    written := [];
    for x := 0 to view.width
      invariant Strip(pixels[base..base + x], cursor) == RowPixels(shade, y, x, start)
      invariant forall i :: 0 <= i < pixels.Length && !(base <= i < base + x) ==> pixels[i] == old(pixels[i])
      invariant |written| == x && forall i :: 0 <= i < x ==> written[i] == base + i
    {
      var idx := base + x;
      ghost var done := pixels[base..idx];
      var word, next := RenderPixel(world, view, sqrt, rnd, shade, x, y, cursor);
      pixels[idx] := word;
      assert pixels[base..idx + 1] == done + [word];
      written := written + [idx];
      cursor := next;
    }
  }

  /** Writing row y at `base`, just past the rows above it, and leaving
      every other word as it was extends the image by that row. */
  lemma {:induction false} NextRow(shade: (nat, nat, Cursor) -> PixelOut, width: nat, y: nat,
                                   start: Cursor, before: seq<bv32>, after: seq<bv32>,
                                   base: nat, above: Cursor, cursor: Cursor)
    requires |before| == |after| && base + width <= |after|
    requires Strip(before[..base], above) == Rows(shade, width, y, start)
    requires forall i :: 0 <= i < |after| && !(base <= i < base + width) ==> after[i] == before[i]
    requires Strip(after[base..base + width], cursor) == RowPixels(shade, y, width, above)
    ensures Strip(after[..base + width], cursor) == Rows(shade, width, y + 1, start)
  {
    assert after[..base] == before[..base];
    assert after[..base + width] == after[..base] + after[base..base + width];
  }

  /** The y loop of main over a buffer of w * h words: row y goes to
      indices y * w .. y * w + w - 1, each index written once, in order. */
  method RenderRows(world: World, view: View, sqrt: real -> real, rnd: Random,
                    ghost shade: (nat, nat, Cursor) -> PixelOut,
                    pixels: array<bv32>, start: Cursor)
    returns (cursor: Cursor, ghost written: seq<nat>)
    requires Renders(shade, world, view, sqrt, rnd)
    requires pixels.Length == view.width * view.height
    modifies pixels
    ensures Strip(pixels[..], cursor) == Rows(shade, view.width, view.height, start)
    ensures |written| == pixels.Length && forall i :: 0 <= i < |written| ==> written[i] == i
  {
    var w, h := view.width, view.height;
    cursor := start;
    written := [];
    for y := 0 to h
      invariant y * w <= w * h
      invariant Strip(pixels[..y * w], cursor) == Rows(shade, w, y, start)
      invariant |written| == y * w && forall i :: 0 <= i < |written| ==> written[i] == i
    {
      RowMajor(0, y, w, h);
      ghost var before, above := pixels[..], cursor;
      ghost var rowWritten;
      cursor, rowWritten := RenderRow(world, view, sqrt, rnd, shade, pixels, y, y * w, cursor);
      NextRow(shade, w, y, start, before, pixels[..], y * w, above, cursor);
      written := written + rowWritten;
    }
  }

  /** The render loop of main: a zeroed buffer of w * h words in which every
      pixel is written once, at index y * w + x, in row-major order; it ends
      up holding the packed words of the image, all of them opaque. */
  method Render(world: World, view: View, sqrt: real -> real, rnd: Random, start: Cursor)
    returns (pixels: array<bv32>, cursor: Cursor, ghost written: seq<nat>)
    requires Ready(world, sqrt)
    requires view.width * view.height < 0x1_0000_0000
    ensures fresh(pixels)
    ensures Strip(pixels[..], cursor)
            == Rows(Shader(world, view, sqrt, rnd), view.width, view.height, start)
    ensures Opaque(pixels[..])
    ensures |written| == pixels.Length && forall i :: 0 <= i < |written| ==> written[i] == i
  {
    ShaderRenders(world, view, sqrt, rnd);
    ghost var shade: (nat, nat, Cursor) -> PixelOut :| Renders(shade, world, view, sqrt, rnd);
    pixels := new bv32[view.width * view.height](_ => 0);
    cursor, written := RenderRows(world, view, sqrt, rnd, shade, pixels, start);
    RendersImage(shade, world, view, sqrt, rnd, start);
  }

  /** A sample's jittered position stays within half a pixel of the pixel's
      centre, so it lands inside the image-plane window. */
  lemma JitterInWindow(view: View, x: nat, y: nat, u0: real, u1: real)
    requires x < view.width && y < view.height && view.fov > 0.0
    requires 0.0 <= u0 < 1.0 && 0.0 <= u1 < 1.0
    ensures var offset := RandomVec2(-0.5, 0.5, u0, u1);
            var pos := PixelToWorld(view, x as real + offset.x, y as real + offset.y);
            var right := view.AspectRatio() * view.fov;
            -right <= pos.x <= right && -view.fov <= pos.y <= view.fov
  {
    var offset := RandomVec2(-0.5, 0.5, u0, u1);
    PixelToWorldRange(view, x as real + offset.x, y as real + offset.y);
  }

  /** Between non-negative numbers, order agrees with the order of squares. */
  lemma SquareOrder(a: real, b: real)
    requires a >= 0.0 && b >= 0.0
    ensures a < b <==> Sq(a) < Sq(b)
  {
    if a < b {
      ProductPositive(b - a, b + a, (b - a) * (b + a));
      assert Sq(b) - Sq(a) == (b - a) * (b + a);
    } else {
      ProductNonNegative(a - b, a + b, (a - b) * (a + b));
      assert Sq(a) - Sq(b) == (a - b) * (a + b);
    }
  }

  /** A channel v whose gamma-corrected byte is n: n * n <= 255 * 255 * v <
      (n + 1) * (n + 1) pins floor(sqrt(v) * 255) to n. */
  lemma GammaByte(sqrt: real -> real, v: real, n: nat)
    requires IsSqrt(sqrt) && 0.0 <= v <= 1.0 && n < 255
    requires Sq(n as real) <= 65025.0 * v < Sq((n + 1) as real)
    ensures Clamp01(sqrt(v)) == sqrt(v)
    ensures ChannelValue(sqrt(v)) == n
  {
    var r := sqrt(v);
    assert Sq(r) == v;
    SquareOrder(1.0, r);
    var p := 255.0 * r;
    assert Sq(p) == 65025.0 * v by {
      calc {
        Sq(p);
        (255.0 * r) * (255.0 * r);
        65025.0 * (r * r);
      }
    }
    SquareOrder(p, n as real);
    SquareOrder(p, (n + 1) as real);
    assert n as real <= r * 255.0 < (n + 1) as real;
  }

  /** With no spheres every camera ray sees the sky, so n samples sum to n
      times the sky colour. */
  lemma {:induction false} SkySamples(world: World, view: View, sqrt: real -> real, rnd: Random,
                                      x: nat, y: nat, start: Cursor, n: nat)
    requires Ready(world, sqrt) && world.spheres == [] && x < view.width && y < view.height
    ensures Samples(world, view, sqrt, rnd, x, y, start, n).sum == Scale(n as real, Sky)
  {
    if n > 0 {
      SkySamples(world, view, sqrt, rnd, x, y, start, n - 1);
      var prev := Samples(world, view, sqrt, rnd, x, y, start, n - 1);
      var u := prev.cursor.uniform;
      var offset := RandomVec2(-0.5, 0.5, rnd.uniform(u), rnd.uniform(u + 1));
      var ray := PrimaryRay(world, view, x, y, offset, sqrt);
      assert ClosestHit(world, ray, sqrt).sphere.None?;
      assert Sample(world, view, sqrt, rnd, x, y, prev.cursor).sum == Sky;
    }
  }

  /** SampleCount sky samples tone and pack to the bytes
      floor(255 * sqrt(0.5)) = 180, floor(255 * sqrt(0.8)) = 228 and
      floor(255 * sqrt(0.9)) = 241, opaque. */
  lemma SkyWord(sum: Vec3, sqrt: real -> real)
    requires IsSqrt(sqrt) && sum == Scale(SampleCount as real, Sky)
    ensures PixelWord(Tone(sum, sqrt)) == 0xB4E4F1FF
  {
    assert Div(sum, SampleCount as real) == Sky;
    GammaByte(sqrt, 0.5, 180);
    GammaByte(sqrt, 0.8, 228);
    GammaByte(sqrt, 0.9, 241);
    assert Tone(sum, sqrt) == Vec3(sqrt(0.5), sqrt(0.8), sqrt(0.9));
    assert PackRGBA(180, 228, 241) == 0xB4E4F1FF;
  }

  /** The empty scene renders every pixel as the sky, whatever the random
      draws. */
  lemma EmptySceneIsSky(world: World, view: View, sqrt: real -> real, rnd: Random,
                        x: nat, y: nat, start: Cursor)
    requires Ready(world, sqrt) && world.spheres == [] && x < view.width && y < view.height
    ensures Pixel(world, view, sqrt, rnd, x, y, start).word == 0xB4E4F1FF
  {
    SkySamples(world, view, sqrt, rnd, x, y, start, SampleCount);
    SkyWord(Samples(world, view, sqrt, rnd, x, y, start, SampleCount).sum, sqrt);
  }
}
