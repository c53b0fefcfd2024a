# Ray tracer core, modelled in Dafny

This project models the exact, non-numeric core of a small Go ray tracer.
Around the floating-point rendering sit four pieces of logic, and each is
modelled here and proved against its own specification:

- **The PPM encoder.** `Image.ToPPM`, `Color.Marshal` and `marshalByte` write a plain-text
  Netpbm "P3" image into a pre-sized byte buffer at an advancing index. The
  header is `P3\n<W> <H>\n255\n`. Each pixel follows as a line `<r> <g> <b>\n`,
  the rows from the last stored row to the first. The whole buffer is
  returned, 12 bytes per pixel, with its unused tail left zero.
- **The world.** `World` is a slice of hittables. `Add` appends, `Clear` nils
  the entries and truncates, and `World.Hit` is the closest-hit sweep: each
  hittable is asked with `t_min` and a bound that starts at `t_max` and becomes
  the scalar of every accepted hit.
- **The progress bar.** `makebar` computes `processed * 20 / total` in Go's
  `int`, taken here to be 64 bits wide (a 64-bit platform), and builds `|`, a green-background code, `bars` spaces, the reset
  code, spaces up to 20 cells, and `|`, with two counting loops.
- **The camera rules.** `NewImage` shapes the grid, `MapPixels` visits every
  cell, `NewCamera` coerces the sample count to at least 1, and `rayColor`
  recurses at most max(depth, 0) times and returns black once the depth is used up.

Modules:

- `Options`: the `Option` type.
- `Primitives`: bytes, colours as byte triples, rays, hits, decimal text, `MarshalByte`, `Marshal`.
- `PpmReader`: a reader for the P3 text. It is the inverse the encoder is proved against.
- `Picture`: the `Image` class and the PPM encoder.
- `Scene`: the `World` class and the sweep specification `Scan`.
- `Tracer`: `RayColor` with an abstract hit oracle, and `NewCamera`.
- `Bar`: `makebar` with int64 wrap-around and truncating division written out.

The model uses these types:

- Pixels are `Color(r, g, b)` of bytes. They are already quantised, as `Marshal`
  makes them with `byte(channel * 255)`.
- A hittable is a function `(Ray, real, real) -> (Hit, bool)`.
- The slice behind `World` is an array of `Slot`s, either `Nil` or `Obj(h)`, plus a length.
- `Image.Data` is a `seq<seq<Color>>` field that `MapPixels` reassigns cell by cell.
- The encoder fills an `array<byte>` in place.

Two consequences of the code are worth stating, because they are easy to
get wrong:

- **Ties go to the later hittable.** `Sphere.Hit` accepts a root equal to
  `t_max` (elements/elements.go:25,27), and each hittable is asked with the
  current closest scalar as its bound (camera/camera.go:34). So a hittable
  whose hit has the same scalar as the current one replaces it. See
  `Scene.ScanTieGoesLater`.
- **Past the end the bar has at least 20 green cells.** This holds for
  `0 < total < processed` (`Bar.BarPastEnd`). The bar is exactly full for
  101 of 100 (`Bar.BarJustPastEnd`) and longer from 21 of 20 on
  (`Bar.BarLongerPastEnd`).

## Model

| member | source | states |
|---|---|---|
| Primitives.DecimalText | primitives/primitives.go:223 | the decimal text of a number is non-empty, all digits, and starts with '0' only for zero |
| Primitives.ByteTextLength | primitives/primitives.go:222-229 | a byte takes 1, 2 or 3 digits, exactly for values below 10, below 100, and from 100 up |
| Primitives.ColorText | primitives/primitives.go:175-187 | the text of a colour is 5 to 11 bytes long |
| Primitives.MarshalByte | primitives/primitives.go:222-229 | writes the digits of b at buff[index..], returns index plus the digit count, and changes no other byte |
| Primitives.Marshal | primitives/primitives.go:175-187 | writes "<r> <g> <b>" at buff[index..], returns the index just past it, changes no other byte, and needs only index + its length (at most 11) within the buffer |
| PpmReader.ValueOfDecimalText | primitives/primitives.go:223 | the digits of the decimal text of n denote n |
| PpmReader.ReadNumberOfDecimalText | primitives/primitives.go:223 | reading back the decimal text of n, followed by a non-digit or nothing, gives n and leaves the rest |
| PpmReader.ReadLineOfColorText | primitives/primitives.go:175-187 | parsing a marshalled colour and its newline gives back r, g and b in order and leaves the rest |
| Picture.Image.constructor | camera/camera.go:178-190 | NewImage with the height given: Height rows of Width cells, all zero colour |
| Picture.Image.MapPixels | camera/camera.go:192-198 | each cell gets m's value for the grid as it stood when the cell came up in row-major order; dimensions are kept |
| Picture.MapPrefixAt | camera/camera.go:192-198 | after the cells before (y, x) are mapped, each of them holds m's value at its turn and every later cell its original colour |
| Picture.LinesLength | camera/camera.go:205-206 | a pixel line takes 6 to 12 bytes, so 12 per pixel always suffices |
| Picture.EmittedLength | camera/camera.go:209-210 | a grid of h rows of w cells emits w * h pixels |
| Picture.EmittedSplit | camera/camera.go:209-210 | row y is emitted after every later row and before every earlier one |
| Picture.ReadSizeOfHeader | camera/camera.go:202-204 | the header reads back as width and height, followed by the body |
| Picture.PpmRoundTrip | camera/camera.go:201-216 | reading the ToPPM text gives back width, height and the pixels, last row first |
| Picture.CopyHeader | camera/camera.go:206-207 | the zeroed buffer becomes the header followed by zeros |
| Picture.MarshalRow | camera/camera.go:210-214 | one row's pixel lines are written at i, the index advances by their length and the tail stays zero |
| Picture.WriteRow | camera/camera.go:209-214 | writing row y extends the written text from rows y+1.. to rows y.. |
| Picture.WriteRows | camera/camera.go:208-215 | after the loop from the last row down to row 0 the buffer is header, all pixel lines, then zeros |
| Picture.EncodePpm | camera/camera.go:201-216 | the result has length len(header) + W*H*12 and is the header, the pixel lines last row first, then zeros |
| Picture.Image.ToPPM | camera/camera.go:201-216 | ToPPM of a well-formed image is the encoded text of its width, height and data |
| Scene.World.constructor | camera/camera.go:15 | the empty world holds no hittables |
| Scene.World.Of | camera/camera.go:44-69 | a world literal holds the hittables listed, in order |
| Scene.World.Add | camera/camera.go:17-19 | the elements become the old ones plus a at the end; the backing array is kept while there is room and replaced when it is full |
| Scene.World.Clear | camera/camera.go:21-26 | the world becomes empty, the used entries of the backing array are nil and the rest are unchanged |
| Scene.World.Hit | camera/camera.go:28-42 | the returned hit and flag are those of the sweep specification over the elements |
| Scene.ScanStep | camera/camera.go:33-40 | one more hittable queried with the current bound either replaces hit, flag and bound or leaves them |
| Scene.ScanMiss | camera/camera.go:28-42 | when no hittable accepts, the result is the no-hit value, false and t_max; this covers the empty world |
| Scene.ScanLastAccepted | camera/camera.go:33-40 | the flag is set iff some hittable accepted, and the hit is the one the last accepting hittable returned |
| Scene.ScanBounded | camera/camera.go:29-37 | with hittables that stay in their interval, the bound never rises and a found hit lies in [t_min, t_max] |
| Scene.ScanNearest | camera/camera.go:28-42 | with hittables that report their nearest root in the interval, a hit is found iff some root lies in [t_min, t_max], and its scalar is the least such root |
| Scene.ScanTieGoesLater | camera/camera.go:33-39 | of several hittables sharing the least root, the last one supplies the hit |
| Tracer.RayColor | camera/camera.go:71-87 | rayColor's recursion on depth; its facts (black for depth <= 0, at most max(depth, 0) bounces, the terminal colour attenuated once per bounce) are stated by Tracer.RayColorIsAttenuatedTerminal and Tracer.Trace |
| Tracer.Trace | camera/camera.go:71-81 | a ray bounces at most max(depth, 0) times, and ends without escaping iff the depth runs out |
| Tracer.RayColorIsAttenuatedTerminal | camera/camera.go:71-87 | rayColor is the terminal colour attenuated once per bounce; depth <= 0 gives black |
| Tracer.NewCamera | camera/camera.go:110-113 | the sample count stored is the given one when positive and 1 otherwise; depth and image are kept |
| Bar.Wrap | util/util.go:30 | int64 wrap-around agrees with the exact value modulo 2^64 and is exact within range |
| Bar.Quo | util/util.go:30 | Go's division: the quotient truncated toward zero, with MinInt64 / -1 giving MinInt64 |
| Bar.BarsQuotient | util/util.go:30 | without overflow, bars is processed * 20 divided by total, truncated toward zero |
| Bar.QuotientMonotonic | util/util.go:30 | truncated division by a positive number is monotonic in the dividend |
| Bar.MakeBar | util/util.go:29-40 | the output is "|", green, bars spaces, reset, 20 - bars further spaces (none when bars >= 20) and "|" |
| Bar.BarSpaces | util/util.go:31-39 | the bar text has max(bars, 0) + max(20 - bars, 0) spaces |
| Bar.BarsInRange | util/util.go:29-40 | for 0 <= processed <= total, bars lies in [0, 20] and the bar has exactly 20 spaces |
| Bar.BarAtStart | util/util.go:30-38 | processed == 0 gives no space before the reset and 20 after it |
| Bar.BarAtEnd | util/util.go:30-38 | processed == total gives 20 spaces before the reset and none after it |
| Bar.BarPastEnd | util/util.go:32-38 | for 0 < total < processed, bars >= 20, the second loop adds nothing and the spaces number bars |
| Bar.BarsMonotonic | util/util.go:30 | with a fixed positive total, bars does not decrease as processed grows |
| Bar.BarTextLength | util/util.go:31-39 | for bars >= 0 the bar is 2 + len(green) + len(reset) + max(bars, 20) characters long |
| Bar.BarJustPastEnd | util/util.go:30 | 101 of 100 gives exactly 20 green cells, so past the end the bar can be just full |
| Bar.BarLongerPastEnd | util/util.go:30-38 | 21 of 20 gives 21 green cells, so the bar grows past 20 cells |
| Bar.BarWrapsAround | util/util.go:30 | processed * 20 wraps: 2^62 of 2^62 gives an empty bar |

## Left out

- Vector, point and colour arithmetic, `Gamma`, `LinearCombination`, the sky gradient and the 0.5 attenuation are floating point. `Tracer.RayColor` takes the sky colour, black and the attenuation as parameters of an arbitrary colour type.
- `Sphere.Hit` (elements/elements.go) solves a quadratic in floats. Hittables are abstract functions. Its contract appears only as a hypothesis: `StaysWithin` and `ReportsNearest` in `Scene`.
- The random bounce direction (`VerctorInUnitSphere`, `util.Random`) is a parameter. The bounced ray is a function of the hit and the depth left.
- `Render` is left out: its sample jitter, colour accumulation, timing and its progress output to stderr. `util.Bar`, `Println`, `Print` and `Printf` are I/O.
- main.go only wires the parts together and is not part of this model.
- `Marshal`'s float-to-byte conversion `byte(c * 255)` is left out. Colours are byte triples.
- `NewImage`'s height `int(float64(width) / aspectRatio)` is float arithmetic, so the height is a parameter. `AspectRatio` is not kept. Negative widths are not modelled either; Go accepts them only when the height comes out zero.
- Picture.Image.MapPixels: the callback receives the grid's current value, not the `*Image` itself, so a callback that mutates the image while it is being mapped is not modelled.
- Scene.World.Add: Go's `append` growth policy is abstracted. A full backing array is replaced by a fresh one of length 2n + 1.
- `Hit_`'s `FrontFace` flag is a float dot-product sign. It is carried in `Hit`, but never computed.
- Tracer.NewCamera: the viewport fields (`ViewportHeight`, `ViewportWidth`, `FocalLength`, `Origin`, `LowerLeftCorner`, `Horizontal`, `Vertical`) are float vectors and are not kept.
- Bar.MakeBar: `total == 0`, which panics in Go, is excluded by a precondition. The range lemmas assume `processed * 20` does not overflow. `Bar.BarWrapsAround` shows what happens when it does.
- Bar.Wrap, Bar.BarWrapsAround: the model assumes a 64-bit platform. Go's `int` is 32 bits wide on 32-bit platforms, where `processed * 20` wraps at 2^31 instead, and these two members describe only 64-bit builds.
- Primitives.MarshalByte, Primitives.Marshal: a buffer too short for the text is excluded by the precondition. Go writes the bytes that fit and then panics. `ToPPM` never reaches that case, and the model proves its writes stay in bounds.
- Scene.World.Add: a nil hittable is not modelled (`Slot.Nil` marks only cleared entries). In Go, `Add(nil)` followed by `Hit` panics. The scene literal `objs` never holds one.
