# tinytracer path-tracing core in Dafny

tinytracer renders a small scene of spheres with a Monte Carlo path tracer and
shows the result in an SDL window. This project models the tracer's core in
`src/main.cpp`, with floats taken as exact reals:

- the ray–sphere intersection (`Ray::intersects`);
- the point along a ray (`Ray::at`);
- the scatter rule with its degenerate-direction fallback (`Ray::scatter`, `nearZero`);
- the closest-hit scan (`World::hit`);
- the depth-bounded recursive integrator (`World::color`);
- the random helpers (`randomFloat(min, max)`, `randomVec2`, `randomVec3`) and
  the accept/normalise step of `randomUnitVec3OnSphere`;
- the pixel-to-image-plane mapping (`pixelToWorld`);
- the render loop of `main`: 150 jittered camera rays per pixel, averaged,
  square-rooted, clamped, truncated to bytes and packed as RGBA8888 into a
  row-major buffer of `w * h` words.

Files and modules:

- `wrappers.dfy` (`Wrappers`): `Option`.
- `vectors.dfy` (`Vectors`): 3- and 2-vectors with the glm operations used by
  the core. The square root is a parameter `sqrt` constrained by `IsSqrt`.
- `sampling.dfy` (`Sampling`): the random helpers, over draws that are given as
  parameters.
- `rays.dfy` (`Rays`): materials, spheres, rays, `Intersects`, `Scatter` and `NearZero`.
- `world.dfy` (`Tracer`): the world, `HitAmong`/`Hit` and `Color`, with the
  path (`Trace`) a colour follows.
- `image.dfy` (`Image`): `PixelToWorld`, the per-sample and per-pixel
  computations, RGBA packing, and the `RenderPixel`/`RenderRow`/`RenderRows`/`Render`
  loops over a `bv32` array.

The random generator is modelled as two streams, `Random.uniform` and
`Random.onSphere`, read at a `Cursor`:

- `uniform` stands for the `randomFloat()` draws. Each sample takes two of
  them for its jitter. Only the lemmas about where a sample lands
  (`JitterInWindow`) assume that these draws lie in [0, 1).
- `onSphere` stands for the vectors `randomUnitVec3OnSphere` hands out. Each
  diffuse bounce takes one of them.

The renderer is specified by folds (`Samples`, `RowPixels`, `Rows`) that thread
the cursor from sample to sample and from pixel to pixel, in the loop order of
`main`.

The sky pixel of an empty scene is 0xB4E4F1FF (`Image.EmptySceneIsSky`). Its
blue byte is floor(255 · sqrt(0.9)) = floor(241.9…) = 241. Rounding to
nearest would give 242, but `static_cast<uint32_t>` truncates, so the byte is
241.

## Model

| member | source | states |
|---|---|---|
| Vectors.Normalize | src/main.cpp:230 | glm::normalize of a non-zero vector has unit length, is non-zero, and scaled by the input's length gives the input back |
| Vectors.ReflectMirror | src/main.cpp:74 | glm::reflect about a unit normal keeps the length of the incoming vector and flips the sign of its normal component |
| Vectors.Clamp01 | src/main.cpp:234 | clamping to [0, 1] lands in [0, 1], leaves values already in [0, 1] unchanged, sends values below 0 to 0 and values above 1 to 1 |
| Sampling.RandomFloat | src/main.cpp:281-283 | min + (max - min) * u lies in [min, max) for a draw u in [0, 1) |
| Sampling.RandomVec2 | src/main.cpp:293-295 | both components lie in [min, max) when both draws lie in [0, 1) |
| Sampling.RandomVec3 | src/main.cpp:301-304 | all three components lie in [min, max) when the draws lie in [0, 1) |
| Sampling.RandomUnitVec3OnSphere | src/main.cpp:305-313 | turns each triple of draws into the cube point randomVec3(-1, 1) and returns the first point whose squared length l satisfies FLT_MIN < l <= 1, divided by sqrt(l), so the result has unit length; every earlier point was rejected; it returns None exactly when all points are rejected |
| Rays.Ray.At | src/main.cpp:70 | at(t) - origin equals t * direction |
| Rays.Ray.Intersects | src/main.cpp:86-109 | the result is exactly -1 or lies strictly inside (minT, maxT), so both ends are rejected; a negative discriminant h*h - a*c gives -1 |
| Rays.IntersectsNearestRoot | src/main.cpp:86-109 | with an exact sqrt, a non-sentinel result lies on the sphere (abs(at(t) - center)^2 = radius^2) and is at most every parameter in (minT, maxT) where the ray meets the sphere, so the near root wins whenever it is in range; when no such parameter exists the result is -1 |
| Rays.Ray.Scatter | src/main.cpp:72-84 | the scattered ray always starts at p |
| Rays.ScatterDirection | src/main.cpp:72-84 | metallic: the direction is reflect(p - origin, n), with the same length as p - origin and the normal component flipped; otherwise the direction is n + dir, with dir replaced by n exactly when nearZero(n + dir); for a unit normal the diffuse direction is never zero |
| Rays.NearZeroIsShort | src/main.cpp:320-323 | a vector with every component below epsilon in absolute value has squared length below 1 |
| Tracer.HitAmong | src/main.cpp:137-154 | no sphere exactly when every intersection value with (0.001, infinity) is negative (or beyond FLT_MAX), and then t is FLT_MAX; otherwise t is the chosen sphere's own intersection value and is at most every other non-negative value, and every later sphere with a non-negative value has a strictly larger one, so ties go to the later sphere |
| Tracer.Hit | src/main.cpp:137-154 | the scan loop with its skip test returns the record HitAmong specifies for the whole scene |
| Tracer.Bounce | src/main.cpp:128-132 | the scattered ray starts at the hit point at(t) and has a non-zero direction; a diffuse bounce uses one unit-vector draw, a metallic one none |
| Tracer.UnitNormal | src/main.cpp:128-129 | at a hit, (p - center) / radius has unit length, and the hit point differs from the ray's origin |
| Tracer.Color | src/main.cpp:116-135 | black when depth <= 0; the sky colour (0.5, 0.8, 0.9) when depth > 0 and hit finds nothing; the stream position never moves backwards |
| Tracer.Bounces | src/main.cpp:117-134 | the number of bounces depth allows: 0 for depth <= 0, otherwise the least whole number not below depth |
| Tracer.ColorFollowsPath | src/main.cpp:116-135 | the colour is the product of 0.25 * albedo over the spheres on the traced path, times the sky colour if the path escaped and black if it ran out of depth; a path escapes exactly when it hits fewer spheres than the bounce budget |
| Tracer.PathColorBounded | src/main.cpp:134 | with albedos in [0, 1], the colour of a path lies between black and its final colour, channel by channel |
| Tracer.ColorWithinSky | src/main.cpp:116-135 | with albedos in [0, 1], World::color lies between black and the sky colour in every channel |
| Image.PixelToWorldRange | src/main.cpp:315-318 | every position of the pixel grid, half a pixel of jitter included, maps into [-aspectRatio * fov, aspectRatio * fov] x [-fov, fov] |
| Image.JitterInWindow | src/main.cpp:227-229 | a sample jittered by randomVec2(-0.5, 0.5) still maps into that window |
| Image.PrimaryRay | src/main.cpp:223-230 | the camera ray starts at the camera and its direction is the unit vector towards {pixelToWorld(...), -1}: non-zero, of unit length, and scaled by the target's length it gives the target back |
| Image.Sample | src/main.cpp:227-231 | one sample takes exactly two uniform draws and never moves the unit-vector stream backwards |
| Image.Samples | src/main.cpp:226-232 | n samples take exactly 2n uniform draws |
| Image.Tone | src/main.cpp:234 | the toned colour lies in the unit cube and equals sqrt(sum / 150) in each channel where that value is already in [0, 1], and is 1 where it exceeds 1 and 0 where it is negative |
| Image.ChannelValue | src/main.cpp:236-238 | the byte of a channel c in [0, 1] is trunc(c * 255): at most 255, at most c * 255 and greater than c * 255 - 1 |
| Image.PackRGBA | src/main.cpp:236-238 | the top byte is red, then green, then blue, and the low byte is 0xFF |
| Image.Pixel | src/main.cpp:220-238 | a finished pixel is opaque (low byte 0xFF) and has used exactly 300 uniform draws |
| Image.RenderPixel | src/main.cpp:220-238 | the sample loop computes the pixel word and stream position that Pixel specifies |
| Image.RowMajor | src/main.cpp:221 | for x < w and y < h the index y * w + x lies inside the w * h buffer, and row y ends where row y + 1 starts |
| Image.RenderRow | src/main.cpp:219-239 | the x loop writes row y's words, left to right, at base + x, and leaves every other word of the buffer unchanged; each index is logged once, in order |
| Image.RenderRows | src/main.cpp:218-240 | the y loop fills the buffer with the row-major image; the write log is 0, 1, …, w * h - 1, so each index is written exactly once |
| Image.Render | src/main.cpp:216-240 | the zero-initialised buffer of w * h words ends up holding the row-major image of the scene, every word opaque, each index written exactly once |
| Image.RowPixelsAt | src/main.cpp:219-238 | word x of row y is pixel (x, y), computed from the stream positions the first x pixels of the row left behind |
| Image.RowsAt | src/main.cpp:218-238 | row-major layout: index y * w + x lies inside the image, and the word there is pixel (x, y), computed from the stream positions left by the rows above and the first x pixels of row y |
| Image.ImageOpaque | src/main.cpp:236-238 | if every pixel is opaque, the whole buffer is opaque |
| Image.GammaByte | src/main.cpp:234-238 | n * n <= 65025 * v < (n + 1)^2 pins the byte of channel v to n after the square root, and the clamp has no effect |
| Image.SkySamples | src/main.cpp:226-232 | with no spheres, n samples add up to n times the sky colour, whatever the draws |
| Image.SkyWord | src/main.cpp:234-238 | 150 sky samples tone and pack to 0xB4E4F1FF: bytes 180, 228, 241 and alpha 0xFF |
| Image.EmptySceneIsSky | src/main.cpp:216-238 | in an empty scene every pixel is 0xB4E4F1FF, whatever the random draws |

## Left out

- SDL initialisation, the window, renderer and texture, the texture upload and
  the event loop: these are I/O over a library that is not part of this model.
- stb_image, stb_image_write and fmt: these foreign libraries are not used by
  the core.
- Floating point: every float is an exact real. This drops rounding, infinities
  and NaN. `glm::sqrt` is a parameter `sqrt` that is exact on non-negative
  inputs (`IsSqrt`).
- `fov` is taken as given. Computing it with `glm::tan(glm::radians(30))` is
  floating-point numerics.
- `aspectRatio` is exactly w / h.
- The generator: the source draws from one `std::mt19937`, interleaving the
  jitter draws with the three `randomFloat(-1, 1)` calls per candidate inside
  `randomUnitVec3OnSphere`. The model splits this into two streams. One holds
  the jitter draws. The other holds the unit vectors `randomUnitVec3OnSphere`
  returns. The generator's internals and the statistical uniformity of its
  output are not modelled.
- Sampling.RandomUnitVec3OnSphere: the source loops until a candidate is
  accepted. The model scans a finite sequence of draw triples and returns None
  when all of their cube points are rejected, because termination of the
  rejection loop depends on the generator.
- Sampling.RandomUnitVec3OnSphere is not called by the integrator.
  `Tracer.Color` and the render take the sampler's results as the
  `onSphere` stream, and the model does not prove that the stream was
  produced by this method. The method's own contract still describes what
  one call returns.
- Sampling.RandomFloat: states only that the result lies in [min, max). It
  does not state the converse.
- Rays.Ray.Intersects requires a non-zero direction. The source would divide
  by a = 0 and produce NaN. Every ray the tracer builds is proved non-zero.
- Tracer.Color requires every radius to be positive (`World.Valid`), since the
  normal divides by the radius. The source does not check this, and its scene
  satisfies it.
- The render requires the camera to be off the image plane z = -1 (`Ready`),
  so that no primary ray has a zero direction. The source's camera is at the
  origin.
- Image.Render requires w * h < 2^32, so that the `uint32_t` index
  y * w + x does not wrap around.
- The hard-coded scene literal is not modelled. The world is a parameter.
- The `roughness` field is never read and carries no behaviour.
- The draws are real parameters. The model does not state that the
  `onSphere` stream holds unit vectors, because the integrator needs only that
  a diffuse direction is never zero, and that holds for every draw.
