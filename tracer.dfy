/**
 * The recursion of rayColor and the sample-count rule of NewCamera
 * (camera/camera.go).
 *
 * The numerics are abstract: the world is a hit oracle, the bounce
 * direction (which the source draws at random) is a function of the hit and
 * the remaining depth, and colours are values of an arbitrary type with a
 * given black, a sky colour for rays that escape and an attenuation applied
 * once per bounce.
 */
module Tracer {
  import opened Options
  import opened Primitives
  import Picture

  /** The ingredients rayColor works with. */
  datatype Shading<!C> = Shading(
    world: Ray -> (Hit, bool),       // objs.Hit(r, 0.001, +Inf)
    scatter: (Hit, int) -> Ray,      // the bounced ray at a hit, for the depth left
    sky: Ray -> C,                   // the gradient for a ray that hits nothing
    black: C,                        // Color_(0, 0, 0)
    attenuate: C -> C)               // .Mult(0.5)

  /**
   * rayColor: black once the depth is used up; otherwise the sky colour if
   * the ray escapes, or the attenuated colour of the bounced ray one level
   * deeper.
   */
  function RayColor<C>(r: Ray, depth: int, sh: Shading<C>): C
    decreases depth
  {
    if depth <= 0 then sh.black
    else
      var answer := sh.world(r);
      if answer.1 then sh.attenuate(RayColor(sh.scatter(answer.0, depth), depth - 1, sh))
      else sh.sky(r)
  }

  /**
   * The path a ray takes: how many bounces it makes, and the ray that
   * finally escapes to the sky, or None when the depth ran out first.
   */
  function Trace<C>(r: Ray, depth: int, sh: Shading<C>): (t: (nat, Option<Ray>))
    ensures t.0 <= if depth > 0 then depth else 0
    ensures t.1 == None <==> t.0 == depth || depth <= 0
    decreases depth
  {
    if depth <= 0 then (0, None)
    else
      var answer := sh.world(r);
      if answer.1 then
        var rest := Trace(sh.scatter(answer.0, depth), depth - 1, sh);
        (rest.0 + 1, rest.1)
      else (0, Some(r))
  }

  /** f applied n times. */
  function Iterate<C>(f: C -> C, n: nat, c: C): C
    decreases n
  {
    if n == 0 then c else f(Iterate(f, n - 1, c))
  }

  /**
   * The colour of a ray is its terminal colour (black when the depth runs
   * out, the sky colour of the escaping ray otherwise) attenuated once per
   * bounce, and there are at most max(depth, 0) bounces; in particular a
   * depth of zero or less gives black.
   */
  lemma {:induction false} RayColorIsAttenuatedTerminal<C>(r: Ray, depth: int, sh: Shading<C>)
    ensures var t := Trace(r, depth, sh);
            RayColor(r, depth, sh)
              == Iterate(sh.attenuate, t.0, match t.1 case None => sh.black case Some(e) => sh.sky(e))
    ensures depth <= 0 ==> RayColor(r, depth, sh) == sh.black
    decreases depth
  {
    if depth > 0 {
      var answer := sh.world(r);
      if answer.1 {
        var next := sh.scatter(answer.0, depth);
        RayColorIsAttenuatedTerminal(next, depth - 1, sh);
        var t := Trace(next, depth - 1, sh);
        var terminal := match t.1 case None => sh.black case Some(e) => sh.sky(e);
        assert Iterate(sh.attenuate, t.0 + 1, terminal) == sh.attenuate(Iterate(sh.attenuate, t.0, terminal));
      }
    }
  }

  /** The camera settings the model keeps; the viewport vectors are floats and left out. */
  datatype Camera = Camera(samplesPerPixel: int, maxRayDepth: int, image: Picture.Image)

  /** NewCamera: the sample count is kept when positive and raised to 1 otherwise. */
  function NewCamera(img: Picture.Image, samples: int, maxRayDepth: int): (c: Camera)
    ensures c.samplesPerPixel >= 1
    ensures samples >= 1 ==> c.samplesPerPixel == samples
    ensures samples <= 0 ==> c.samplesPerPixel == 1
    ensures c.maxRayDepth == maxRayDepth && c.image == img
  {
    Camera(if samples <= 0 then 1 else samples, maxRayDepth, img)
  }
}
