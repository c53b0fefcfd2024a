/**
 * Value types of the ray tracer and the byte-level text encoding of a colour
 * (primitives/primitives.go).
 *
 * Colours are taken already quantised: each channel is the byte that the
 * source obtains as byte(channel * 255). Points and vectors are kept only as
 * opaque triples that the world sweep copies around; none of the vector
 * arithmetic is modelled.
 */
module Primitives {

  newtype byte = x: int | 0 <= x < 256

  const Zero: byte := 48      // '0'
  const Space: byte := 32     // ' '
  const Newline: byte := 10   // '\n'

  /** A colour whose channels are bytes, in R, G, B order. */
  datatype Color = Color(r: byte, g: byte, b: byte)

  /** A point or vector; its components are carried, never computed with. */
  datatype Triple = Triple(x: real, y: real, z: real)

  datatype Ray = Ray(origin: Triple, direction: Triple)

  /** The record a hittable returns: the ray parameter of the hit and its geometry. */
  datatype Hit = Hit(scalar: real, point: Triple, normal: Triple, frontFace: bool)

  /** The zero Hit value that stands for "nothing was hit". */
  const NoHit: Hit := Hit(0.0, Triple(0.0, 0.0, 0.0), Triple(0.0, 0.0, 0.0), false)

  /**
   * Anything that can be hit: given a ray and the interval [tMin, tMax] it
   * reports a hit record and whether there was a hit.
   */
  type Hittable = (Ray, real, real) -> (Hit, bool)

  predicate IsDigit(c: byte) {
    Zero <= c <= Zero + 9
  }

  /** Decimal text of a non-negative number, as strconv.Itoa writes it. */
  function DecimalText(n: nat): (s: seq<byte>)
    ensures |s| >= 1
    ensures forall i :: 0 <= i < |s| ==> IsDigit(s[i])
    ensures s[0] == Zero ==> n == 0   // no leading zeros
    decreases n
  {
    if n < 10 then [Zero + n as byte] else DecimalText(n / 10) + [Zero + (n % 10) as byte]
  }

  /** A byte is written with one, two or three digits, by its magnitude. */
  lemma ByteTextLength(b: byte)
    ensures 1 <= |DecimalText(b as nat)| <= 3
    ensures |DecimalText(b as nat)| == 1 <==> b < 10
    ensures |DecimalText(b as nat)| == 2 <==> 10 <= b < 100
    ensures |DecimalText(b as nat)| == 3 <==> 100 <= b
  {
    var n := b as nat;
    if n >= 10 {
      if n >= 100 {
        assert 10 <= n / 10 < 100;
        assert |DecimalText(n / 10 / 10)| == 1;
      }
      assert |DecimalText(n)| == |DecimalText(n / 10)| + 1;
    }
  }

  /**
   * The text Color.Marshal writes: "<r> <g> <b>", between 5 ("0 0 0") and
   * 11 ("255 255 255") bytes long.
   */
  function ColorText(c: Color): (s: seq<byte>)
    ensures 5 <= |s| <= 11
  {
    ByteTextLength(c.r);
    ByteTextLength(c.g);
    ByteTextLength(c.b);
    DecimalText(c.r as nat) + [Space] + DecimalText(c.g as nat) + [Space] + DecimalText(c.b as nat)
  }

  /** Concatenation regrouped; stated once so that proofs can name the step. */
  lemma Assoc<T>(a: seq<T>, b: seq<T>, c: seq<T>)
    ensures a + b + c == a + (b + c)
  {
  }

  /** A prefix one element longer. */
  lemma PrefixStep<T>(s: seq<T>, i: nat)
    requires i < |s|
    ensures s[..i + 1] == s[..i] + [s[i]]
  {
  }

  /** The sequence s with t written over it from position i on. */
  function Overwrite(s: seq<byte>, i: nat, t: seq<byte>): (r: seq<byte>)
    requires i + |t| <= |s|
    ensures |r| == |s|
  {
    s[..i] + t + s[i + |t|..]
  }

  /** Two writes at adjacent positions are one write of the joined text. */
  lemma OverwriteAdjacent(s: seq<byte>, i: nat, t: seq<byte>, u: seq<byte>)
    requires i + |t| + |u| <= |s|
    ensures Overwrite(Overwrite(s, i, t), i + |t|, u) == Overwrite(s, i, t + u)
  {
    var w := Overwrite(s, i, t);
    assert w[..i + |t|] == s[..i] + t;
    assert w[i + |t| + |u|..] == s[i + |t| + |u|..];
  }

  /**
   * marshalByte: writes the decimal digits of b at buff[index..] and returns
   * the index just past them; all other bytes of the buffer are unchanged.
   */
  method MarshalByte(b: byte, buff: array<byte>, index: nat) returns (next: nat)
    requires index + |DecimalText(b as nat)| <= buff.Length
    modifies buff
    ensures next == index + |DecimalText(b as nat)|
    ensures buff[..] == Overwrite(old(buff[..]), index, DecimalText(b as nat))
  {
    var s := DecimalText(b as nat);
    next := index;
    var i := 0;
    while i < |s|
      invariant 0 <= i <= |s|
      invariant next == index + i
      invariant buff[..] == Overwrite(old(buff[..]), index, s[..i])
    {
      ghost var before := buff[..];
      buff[next] := s[i];
      StoreStep(old(buff[..]), index, s, i, before, buff[..]);
      next := next + 1;
      i := i + 1;
    }
    assert s[..i] == s;
  }

  /** One byte stored at position k is a one-byte overwrite. */
  lemma StoreIsOverwrite(s: seq<byte>, k: nat, v: byte)
    requires k < |s|
    ensures s[k := v] == Overwrite(s, k, [v])
  {
  }

  /**
   * One more digit of t stored after the first i ones. Like the lemmas below
   * it, this takes the buffer contents before and after the store as
   * parameters, so that the step is stated once and each call site stays small.
   */
  lemma StoreStep(s0: seq<byte>, index: nat, t: seq<byte>, i: nat, before: seq<byte>, after: seq<byte>)
    requires i < |t| && index + |t| <= |s0|
    requires before == Overwrite(s0, index, t[..i])
    requires after == before[index + i := t[i]]
    ensures after == Overwrite(s0, index, t[..i + 1])
  {
    StoreIsOverwrite(before, index + i, t[i]);
    OverwriteAdjacent(s0, index, t[..i], [t[i]]);
    PrefixStep(t, i);
  }

  /** A byte stored just past a write of t extends that write by the byte. */
  lemma AppendStore(s0: seq<byte>, index: nat, t: seq<byte>, at: nat, v: byte,
                    before: seq<byte>, after: seq<byte>)
    requires at == index + |t| && at < |s0|
    requires before == Overwrite(s0, index, t)
    requires after == before[at := v]
    ensures after == Overwrite(s0, index, t + [v])
  {
    StoreIsOverwrite(before, at, v);
    OverwriteAdjacent(s0, index, t, [v]);
  }

  /** A write of u just past a write of t is one write of t + u. */
  lemma AppendWrite(s0: seq<byte>, index: nat, t: seq<byte>, at: nat, u: seq<byte>,
                    before: seq<byte>, after: seq<byte>)
    requires at == index + |t| && at + |u| <= |s0|
    requires before == Overwrite(s0, index, t)
    requires after == Overwrite(before, at, u)
    ensures after == Overwrite(s0, index, t + u)
  {
    OverwriteAdjacent(s0, index, t, u);
  }

  /**
   * Color.Marshal: writes "<r> <g> <b>" at buff[index..] and returns the index
   * just past the last digit; all other bytes of the buffer are unchanged.
   */
  method Marshal(c: Color, buff: array<byte>, index: nat) returns (next: nat)
    requires index + |ColorText(c)| <= buff.Length
    modifies buff
    ensures next == index + |ColorText(c)|
    ensures buff[..] == Overwrite(old(buff[..]), index, ColorText(c))
  {
    ghost var s0 := buff[..];
    ghost var tr, tg, tb := DecimalText(c.r as nat), DecimalText(c.g as nat), DecimalText(c.b as nat);
    assert ColorText(c) == tr + [Space] + tg + [Space] + tb;
    next := MarshalByte(c.r, buff, index);
    ghost var before := buff[..];
    buff[next] := Space;
    AppendStore(s0, index, tr, next, Space, before, buff[..]);
    next := next + 1;
    before := buff[..];
    ghost var at := next;
    next := MarshalByte(c.g, buff, next);
    AppendWrite(s0, index, tr + [Space], at, tg, before, buff[..]);
    before := buff[..];
    buff[next] := Space;
    AppendStore(s0, index, tr + [Space] + tg, next, Space, before, buff[..]);
    next := next + 1;
    before := buff[..];
    at := next;
    next := MarshalByte(c.b, buff, next);
    AppendWrite(s0, index, tr + [Space] + tg + [Space], at, tb, before, buff[..]);
  }
}
