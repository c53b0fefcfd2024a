/**
 * A reader for the plain-text PPM ("P3") form that Image.ToPPM writes: the
 * magic line, the width and height, the maximum value 255, then one
 * "<r> <g> <b>" line per pixel. It is the inverse against which the encoder
 * is proved; bytes after the last pixel line are ignored.
 */
module PpmReader {
  import opened Options
  import opened Primitives

  /** "P3\n" */
  const Magic: seq<byte> := [80, 51, 10]
  /** "\n255\n": the end of the size line and the maximum-value line. */
  const MaxvalLine: seq<byte> := [10, 50, 53, 53, 10]

  /** Number of leading digit bytes of s. */
  function DigitRun(s: seq<byte>): (k: nat)
    ensures k <= |s|
    ensures forall i :: 0 <= i < k ==> IsDigit(s[i])
    ensures k < |s| ==> !IsDigit(s[k])
  {
    if s != [] && IsDigit(s[0]) then 1 + DigitRun(s[1..]) else 0
  }

  /** The number a run of decimal digits denotes, most significant first. */
  function Value(ds: seq<byte>): nat
    requires forall i :: 0 <= i < |ds| ==> IsDigit(ds[i])
  {
    if ds == [] then 0
    else
      assert IsDigit(ds[|ds| - 1]);
      Value(ds[..|ds| - 1]) * 10 + (ds[|ds| - 1] as int - Zero as int)
  }

  /** Reads a maximal non-empty run of digits; returns its value and the rest. */
  function ReadNumber(s: seq<byte>): Option<(nat, seq<byte>)>
  {
    var k := DigitRun(s);
    if k == 0 then None else Some((Value(s[..k]), s[k..]))
  }

  /** Consumes the literal lit at the front of s. */
  function Expect(s: seq<byte>, lit: seq<byte>): Option<seq<byte>>
  {
    if |lit| <= |s| && s[..|lit|] == lit then Some(s[|lit|..]) else None
  }

  /** Reads a number that fits a byte. */
  function ReadByte(s: seq<byte>): Option<(byte, seq<byte>)>
  {
    var p :- ReadNumber(s);
    if p.0 < 256 then Some((p.0 as byte, p.1)) else None
  }

  /** Reads one pixel line "<r> <g> <b>\n". */
  function ReadLine(s: seq<byte>): Option<(Color, seq<byte>)>
  {
    var r :- ReadByte(s);
    var s1 :- Expect(r.1, [Space]);
    var g :- ReadByte(s1);
    var s2 :- Expect(g.1, [Space]);
    var b :- ReadByte(s2);
    var s3 :- Expect(b.1, [Newline]);
    Some((Color(r.0, g.0, b.0), s3))
  }

  /** Reads n pixel lines. */
  function ReadColors(s: seq<byte>, n: nat): Option<(seq<Color>, seq<byte>)>
    decreases n
  {
    if n == 0 then Some(([], s))
    else
      var p :- ReadLine(s);
      var q :- ReadColors(p.1, n - 1);
      Some(([p.0] + q.0, q.1))
  }

  /** Reads the header: the magic line, width, height and the maximum value 255. */
  function ReadSize(s: seq<byte>): Option<(nat, nat, seq<byte>)>
  {
    var s1 :- Expect(s, Magic);
    var w :- ReadNumber(s1);
    var s2 :- Expect(w.1, [Space]);
    var h :- ReadNumber(s2);
    var s3 :- Expect(h.1, MaxvalLine);
    Some((w.0, h.0, s3))
  }

  /** Reads a whole image: its width, its height and its pixels in file order. */
  function ReadPpm(s: seq<byte>): Option<(nat, nat, seq<Color>)>
  {
    var size :- ReadSize(s);
    var px :- ReadColors(size.2, size.0 * size.1);
    Some((size.0, size.1, px.0))
  }

  lemma ExpectLiteral(lit: seq<byte>, rest: seq<byte>)
    ensures Expect(lit + rest, lit) == Some(rest)
  {
    assert (lit + rest)[..|lit|] == lit;
    assert (lit + rest)[|lit|..] == rest;
  }

  /** Reading the digits that DecimalText writes yields the number back. */
  lemma {:induction false} ValueOfDecimalText(n: nat)
    ensures Value(DecimalText(n)) == n
    decreases n
  {
    var ds := DecimalText(n);
    if n >= 10 {
      assert ds[..|ds| - 1] == DecimalText(n / 10);
      ValueOfDecimalText(n / 10);
    }
  }

  /** A digit run stops where the digits stop. */
  lemma {:induction false} DigitRunOfDigits(ds: seq<byte>, rest: seq<byte>)
    requires forall i :: 0 <= i < |ds| ==> IsDigit(ds[i])
    requires rest == [] || !IsDigit(rest[0])
    ensures DigitRun(ds + rest) == |ds|
    decreases |ds|
  {
    if ds != [] {
      assert (ds + rest)[1..] == ds[1..] + rest;
      DigitRunOfDigits(ds[1..], rest);
    } else {
      assert ds + rest == rest;
    }
  }

  /**
   * Decimal round trip: the text of n, followed by anything that does not
   * start with a digit, reads back as n followed by that rest.
   */
  lemma ReadNumberOfDecimalText(n: nat, rest: seq<byte>)
    requires rest == [] || !IsDigit(rest[0])
    ensures ReadNumber(DecimalText(n) + rest) == Some((n, rest))
  {
    var ds := DecimalText(n);
    DigitRunOfDigits(ds, rest);
    assert (ds + rest)[..|ds|] == ds;
    assert (ds + rest)[|ds|..] == rest;
    ValueOfDecimalText(n);
  }

  lemma ReadByteOfDecimalText(b: byte, rest: seq<byte>)
    requires rest == [] || !IsDigit(rest[0])
    ensures ReadByte(DecimalText(b as nat) + rest) == Some((b, rest))
  {
    ReadNumberOfDecimalText(b as nat, rest);
  }

  /** ReadLine succeeds when each of its six steps does. */
  lemma ReadLineSteps(s: seq<byte>, s1: seq<byte>, s2: seq<byte>, rest: seq<byte>, c: Color)
    requires ReadByte(s) == Some((c.r, [Space] + s1))
    requires ReadByte(s1) == Some((c.g, [Space] + s2))
    requires ReadByte(s2) == Some((c.b, [Newline] + rest))
    ensures ReadLine(s) == Some((c, rest))
  {
    ExpectLiteral([Space], s1);
    ExpectLiteral([Space], s2);
    ExpectLiteral([Newline], rest);
  }

  /**
   * Round trip of Color.Marshal's text: a marshalled colour followed by a
   * newline reads back as that colour, whatever follows.
   */
  lemma ReadLineOfColorText(c: Color, rest: seq<byte>)
    ensures ReadLine(ColorText(c) + [Newline] + rest) == Some((c, rest))
  {
    var tr, tg, tb := DecimalText(c.r as nat), DecimalText(c.g as nat), DecimalText(c.b as nat);
    var s2 := tb + ([Newline] + rest);
    var s1 := tg + ([Space] + s2);
    var s := ColorText(c) + [Newline] + rest;
    assert s == tr + ([Space] + s1) by {
      Assoc(ColorText(c), [Newline], rest);
      Assoc(tr + [Space] + tg + [Space], tb, [Newline] + rest);
      Assoc(tr + [Space] + tg, [Space], s2);
      Assoc(tr + [Space], tg, [Space] + s2);
      Assoc(tr, [Space], s1);
    }
    ReadByteOfDecimalText(c.r, [Space] + s1);
    ReadByteOfDecimalText(c.g, [Space] + s2);
    ReadByteOfDecimalText(c.b, [Newline] + rest);
    ReadLineSteps(s, s1, s2, rest, c);
  }
}
