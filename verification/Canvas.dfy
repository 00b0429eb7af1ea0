/**
 The pixel grid of firmware/ui/canvas, one bit to a pixel, and the line drawn on it: Bresenham's
 error term against the closed form of the line's pixels.
 */
module Canvas {
  import opened AdslCrc
  import opened BitSets
  import opened Remainders

  datatype Point = Point(x: int, y: int)

  function Distance(a: int, b: int): nat {
    if b > a then b - a else a - b
  }

  function Toward(a: int, b: int): int {
    if a < b then 1 else -1
  }

  // ----- the line

  // How many pixels across, after k of the long axis: the nearest, and the lower of two as near.
  function Across(long: nat, short: nat, k: nat): nat
    requires long > 0
  {
    (2 * k * short + long - 1) / (2 * long)
  }

  // The k-th pixel of the line.
  function PixelOf(from: Point, to: Point, k: nat): Point
    requires k > 0 ==> from != to
  {
    var dx, dy := Distance(from.x, to.x), Distance(from.y, to.y);
    if k == 0 then from
    else if dx >= dy then
      Point(from.x + Toward(from.x, to.x) * k, from.y + Toward(from.y, to.y) * Across(dx, dy, k))
    else
      Point(from.x + Toward(from.x, to.x) * Across(dy, dx, k), from.y + Toward(from.y, to.y) * k)
  }

  function Length(from: Point, to: Point): nat {
    var dx, dy := Distance(from.x, to.x), Distance(from.y, to.y);
    if dx >= dy then dx else dy
  }

  // The pixels of a line, in the order they are drawn.
  ghost function Line(from: Point, to: Point): (line: seq<Point>)
    ensures |line| == Length(from, to) + 1
  {
    seq(Length(from, to) + 1, k requires 0 <= k <= Length(from, to) => PixelOf(from, to, k))
  }

  // What nearest means, without dividing.
  ghost predicate IsNearest(long: nat, short: nat, k: nat, m: nat) {
    0 <= 2 * (m * long - k * short) + long < 2 * long
  }

  lemma AcrossIsNearest(long: nat, short: nat, k: nat, m: nat)
    requires long > 0
    ensures IsNearest(long, short, k, m) <==> m == Across(long, short, k)
  {
    var a, n := 2 * k * short + long - 1, 2 * long;
    var q, r := a / n, a % n;
    assert a == q * n + r;
    assert 2 * (m * long - k * short) == m * n - a + long - 1;
    if m > q {
      Larger(q + 1, m, n);
      assert (q + 1) * n == q * n + n;
    } else if m < q {
      Larger(m + 1, q, n);
      assert (m + 1) * n == m * n + n;
    }
  }

  // The error term's one step: the long axis always moves, the short one when the error says so,
  // and the nearest pixel stays the nearest.
  lemma ErrorStep(long: nat, short: nat, k: nat, m: nat)
    requires short <= long && k < long && IsNearest(long, short, k, m)
    ensures var error := (m + 1) * long - (k + 1) * short;
      2 * error + short > 0 && IsNearest(long, short, k + 1, if 2 * error < long then m + 1 else m)
  {
    var error := (m + 1) * long - (k + 1) * short;
    var d := m * long - k * short;
    assert (m + 1) * long == m * long + long && (k + 1) * short == k * short + short;
    if short == long {
      assert d == (m - k) * long;
      if m > k { Larger(1, m - k, long); } else if m < k { Larger(1, k - m, long); assert d == 0 - (k - m) * long; }
    }
  }

  lemma NearestEnds(long: nat, short: nat, m: nat)
    requires long > 0
    ensures IsNearest(long, short, 0, 0) && (short <= long && IsNearest(long, short, long, m) ==> m == short)
  {
    if m > short { Larger(1, m - short, long); assert m * long - long * short == (m - short) * long; }
    else if m < short { Larger(1, short - m, long); assert long * short - m * long == (short - m) * long; }
  }

  // ----- what the pixels are

  lemma EndsOfTheLine(from: Point, to: Point)
    ensures |Line(from, to)| == Length(from, to) + 1
    ensures Line(from, to)[0] == from && Line(from, to)[Length(from, to)] == to
  {
    var dx, dy := Distance(from.x, to.x), Distance(from.y, to.y);
    if dx >= dy && dx > 0 {
      NearestEnds(dx, dy, Across(dx, dy, dx));
      AcrossIsNearest(dx, dy, dx, Across(dx, dy, dx));
    } else if dy > 0 {
      NearestEnds(dy, dx, Across(dy, dx, dy));
      AcrossIsNearest(dy, dx, dy, Across(dy, dx, dy));
    }
  }

  // The k-th pixel is k from the start along the longer axis and within half a pixel of the ideal
  // line along the other: as a fraction of the longer, off * 2 <= long.
  lemma WithinHalfAPixel(from: Point, to: Point, k: nat)
    requires k <= Length(from, to) && from != to
    ensures var p := PixelOf(from, to, k);
      var dx, dy := Distance(from.x, to.x), Distance(from.y, to.y);
      if dx >= dy then
        p.x == from.x + Toward(from.x, to.x) * k && IsNearest(dx, dy, k, Distance(from.y, p.y))
      else
        p.y == from.y + Toward(from.y, to.y) * k && IsNearest(dy, dx, k, Distance(from.x, p.x))
  {
    var dx, dy := Distance(from.x, to.x), Distance(from.y, to.y);
    if dx >= dy {
      AcrossIsNearest(dx, dy, k, Across(dx, dy, k));
      NearestEnds(dx, dy, 0);
      AcrossIsNearest(dx, dy, 0, 0);
    } else {
      AcrossIsNearest(dy, dx, k, Across(dy, dx, k));
      NearestEnds(dy, dx, 0);
      AcrossIsNearest(dy, dx, 0, 0);
    }
  }

  // Each pixel is one step of the longer axis from the one before, and at most one of the other.
  lemma StepsAreSmall(from: Point, to: Point, k: nat)
    requires k < Length(from, to)
    ensures var p, q := PixelOf(from, to, k), PixelOf(from, to, k + 1);
      var dx, dy := Distance(from.x, to.x), Distance(from.y, to.y);
      if dx >= dy then q.x == p.x + Toward(from.x, to.x) && (q.y == p.y || q.y == p.y + Toward(from.y, to.y))
      else q.y == p.y + Toward(from.y, to.y) && (q.x == p.x || q.x == p.x + Toward(from.x, to.x))
  {
    hide Across;
    var dx, dy := Distance(from.x, to.x), Distance(from.y, to.y);
    if dx >= dy { NextAcross(dx, dy, k); } else { NextAcross(dy, dx, k); }
  }

  lemma NextAcross(long: nat, short: nat, k: nat)
    requires short <= long && k < long
    ensures Across(long, short, 0) == 0
    ensures Across(long, short, k + 1) ==
      Across(long, short, k) + (if 2 * ((Across(long, short, k) + 1) * long - (k + 1) * short) < long then 1 else 0)
    ensures 2 * ((Across(long, short, k) + 1) * long - (k + 1) * short) + short > 0
  {
    hide Across;
    var m := Across(long, short, k);
    AcrossIsNearest(long, short, k, m);
    ErrorStep(long, short, k, m);
    AcrossIsNearest(long, short, k + 1, if 2 * ((m + 1) * long - (k + 1) * short) < long then m + 1 else m);
    NearestEnds(long, short, 0);
    AcrossIsNearest(long, short, 0, 0);
  }

  // ----- a line and its reverse

  // Whether some pixel lies halfway between two: the longer axis is divisible by a higher power of
  // two than the shorter.
  predicate HasTie(long: nat, short: nat)
    requires long > 0
  {
    long % 2 == 0 && (short % 2 == 1 || HasTie(long / 2, short / 2))
  }

  ghost predicate IsTie(long: nat, short: nat, k: nat)
    requires long > 0
  {
    exists m: nat :: TiesBetween(long, short, k, m)
  }

  // The k-th place on the ideal line is as far from m as from m + 1.
  ghost predicate TiesBetween(long: nat, short: nat, k: nat, m: nat) {
    2 * (k * short) == 2 * (m * long) + long
  }

  lemma HalfwayTies(k: nat, m: nat)
    ensures TiesBetween(2 * k, 2 * m + 1, k, m)
  {}

  lemma TieDoubles(long: nat, short: nat, k: nat, m: nat)
    ensures TiesBetween(2 * long, 2 * short, k, m) <==> TiesBetween(long, short, k, m)
  {
    assert k * (2 * short) == 2 * (k * short) && m * (2 * long) == 2 * (m * long);
  }

  lemma {:induction false} TieExists(long: nat, short: nat) returns (k: nat)
    requires long > 0 && HasTie(long, short)
    ensures k <= long && IsTie(long, short, k)
  {
    if short % 2 == 1 {
      k := long / 2;
      HalfwayTies(k, short / 2);
    } else {
      k := TieExists(long / 2, short / 2);
      var m: nat :| TiesBetween(long / 2, short / 2, k, m);
      TieDoubles(long / 2, short / 2, k, m);
    }
  }

  lemma {:induction false} TieNeedsTwos(long: nat, short: nat, k: nat)
    requires long > 0 && IsTie(long, short, k)
    ensures HasTie(long, short)
  {
    var m: nat :| TiesBetween(long, short, k, m);
    assert long == 2 * (k * short - m * long);
    if short % 2 == 0 {
      TieDoubles(long / 2, short / 2, k, m);
      TieNeedsTwos(long / 2, short / 2, k);
    }
  }

  lemma NearestBothWays(long: nat, short: nat, k: nat, m: nat, n: nat)
    requires k <= long && long > 0 && IsNearest(long, short, k, m) && IsNearest(long, short, long - k, n)
    ensures m + n == if TiesBetween(long, short, k, m) then short - 1 else short
  {
    var sum: int := m + n - short;
    assert (long - k) * short == long * short - k * short && sum * long == m * long + n * long - long * short;
    SmallMultiple(sum, long);
  }

  lemma SmallMultiple(t: int, long: nat)
    ensures -(long as int) <= t * long < long ==> t == -1 || t == 0
  {
    if t > 0 { Larger(1, t, long); }
    else if t < -1 { Larger(2, -t, long); assert -t * long == -(t * long); }
  }

  // How far across the k-th pixel is from one end and from the other: all of the way between them,
  // and at a tie one short of it.
  lemma AcrossBothWays(long: nat, short: nat, k: nat)
    requires short <= long && k <= long && long > 0
    ensures Across(long, short, k) + Across(long, short, long - k) + (if IsTie(long, short, k) then 1 else 0) == short
  {
    hide Across;
    var m, n := Across(long, short, k), Across(long, short, long - k);
    AcrossIsNearest(long, short, k, m);
    AcrossIsNearest(long, short, long - k, n);
    NearestBothWays(long, short, k, m, n);
    if IsTie(long, short, k) {
      var t: nat :| TiesBetween(long, short, k, t);
      AcrossIsNearest(long, short, k, t);
    }
  }

  // The pixels of the line back, last to first.
  ghost predicate IsItsReverse(from: Point, to: Point) {
    Length(to, from) == Length(from, to) &&
    forall k: nat :: k <= Length(from, to) ==> Line(from, to)[k] == Line(to, from)[Length(from, to) - k]
  }

  lemma ReversedPixel(from: Point, to: Point, k: nat)
    requires k <= Length(from, to) && from != to
    ensures var dx, dy := Distance(from.x, to.x), Distance(from.y, to.y);
      var long, short := if dx >= dy then dx else dy, if dx >= dy then dy else dx;
      PixelOf(from, to, k) == PixelOf(to, from, long - k) <==> !IsTie(long, short, k)
  {
    hide Across, IsTie;
    var dx, dy := Distance(from.x, to.x), Distance(from.y, to.y);
    var long, short := if dx >= dy then dx else dy, if dx >= dy then dy else dx;
    AcrossBothWays(long, short, k);
    NearestEnds(long, short, 0);
    AcrossIsNearest(long, short, 0, 0);
  }

  // Drawn back from its end a line has the same pixels exactly when none of them was a tie: ties
  // fall to the start's side.  A caller can tell by halving.
  lemma ReversesUnlessTied(from: Point, to: Point)
    ensures var dx, dy := Distance(from.x, to.x), Distance(from.y, to.y);
      IsItsReverse(from, to) <==> from == to || !(if dx >= dy then HasTie(dx, dy) else HasTie(dy, dx))
  {
    hide PixelOf, IsTie;
    var dx, dy := Distance(from.x, to.x), Distance(from.y, to.y);
    if from != to {
      var long, short := if dx >= dy then dx else dy, if dx >= dy then dy else dx;
      forall k: nat | k <= long
        ensures Line(from, to)[k] == Line(to, from)[long - k] <==> !IsTie(long, short, k)
      {
        ReversedPixel(from, to, k);
      }
      if HasTie(long, short) {
        var k := TieExists(long, short);
        assert Line(from, to)[k] != Line(to, from)[long - k];
      } else {
        forall k: nat | k <= long ensures !IsTie(long, short, k) {
          if IsTie(long, short, k) { TieNeedsTwos(long, short, k); }
        }
      }
    }
  }

  // As from (0, 0) to (2, 1).
  lemma ReverseMayDiffer()
    ensures !IsItsReverse(Point(0, 0), Point(2, 1))
  {
    assert HasTie(2, 1);
    ReversesUnlessTied(Point(0, 0), Point(2, 1));
  }

  // ----- the grid

  function Painted(byte: bv8, mask: bv8, black: bool): bv8 {
    if black then byte | mask else byte & !mask
  }

  lemma PaintedBit(byte: bv8, k: nat, j: nat, black: bool)
    requires k < 8 && j < 8
    ensures BitSet(Painted(byte, Mask(k), black), j) == if j == k then black else BitSet(byte, j)
  {
    hide Mask, Painted, Single;
    MaskCases(k);
    if j == k { PaintedSame(byte, Mask(k), black); } else { PaintedOther(byte, Mask(k), Mask(j), black); }
  }

  lemma PaintedSame(b: bv8, m: bv8, black: bool)
    requires Single(m)
    ensures Painted(b, m, black) & m != 0 <==> black
  {}

  lemma PaintedOther(b: bv8, m: bv8, n: bv8, black: bool)
    requires m & n == 0
    ensures Painted(b, m, black) & n == b & n
  {}

  lemma PlaceInRows(y: nat, rows: nat, x: nat, stride: nat)
    requires y < rows && x < stride
    ensures 0 <= y * stride + x < stride * rows
  {
    Larger(y + 1, rows, stride);
    assert (y + 1) * stride == y * stride + stride;
  }

  class Canvas {
    const data: array<bv8>
    const width: nat
    const height: nat

    function Stride(): nat {
      (width + 7) / 8
    }

    ghost predicate Valid() {
      data.Length == Stride() * height
    }

    constructor (data: array<bv8>, width: nat, height: nat)
      requires data.Length == ((width + 7) / 8) * height
      ensures Valid() && this.data == data && this.width == width && this.height == height
    {
      this.data, this.width, this.height := data, width, height;
    }

    predicate InGrid(x: int, y: int) {
      0 <= x < width && 0 <= y < height
    }

    lemma PlaceInGrid(x: int, y: int)
      requires Valid() && InGrid(x, y)
      ensures 0 <= y * Stride() + x / 8 < data.Length
    {
      PlaceInRows(y, height, x / 8, Stride());
    }

    // Two places share a byte and a bit of it only if they are one.
    lemma PlacesApart(x: int, y: int, a: int, b: int)
      requires Valid() && InGrid(x, y) && InGrid(a, b)
      requires y * Stride() + x / 8 == b * Stride() + a / 8 && x % 8 == a % 8
      ensures x == a && y == b
    {
      Remainder(y, Stride(), x / 8);
      Remainder(b, Stride(), a / 8);
    }

    ghost predicate Pixel(x: int, y: int)
      reads data
      requires Valid() && InGrid(x, y)
    {
      PlaceInGrid(x, y);
      BitSet(data[y * Stride() + x / 8], x % 8)
    }

    // Every pixel in the grid is as it was, or black as asked on the places painted.
    twostate predicate Shows(points: seq<Point>, black: bool)
      reads data
      requires Valid()
    {
      forall a, b :: InGrid(a, b) ==> Pixel(a, b) == if Point(a, b) in points then black else old(Pixel(a, b))
    }

    method SetPixel(x: int, y: int, black: bool)
      requires Valid()
      modifies data
      ensures forall a, b :: InGrid(a, b) ==> Pixel(a, b) == if a == x && b == y then black else old(Pixel(a, b))
    {
      if x < 0 || x >= width || y < 0 || y >= height {
        return;
      }
      hide BitSet, Mask, Painted;
      PlaceInGrid(x, y);
      var i := y * Stride() + x / 8;
      ghost var before := data[..];
      data[i] := Painted(data[i], Mask(x % 8), black);
      forall a, b | InGrid(a, b)
        ensures Pixel(a, b) == if a == x && b == y then black else old(Pixel(a, b))
      {
        PlaceInGrid(a, b);
        if b * Stride() + a / 8 == i {
          PaintedBit(before[i], x % 8, a % 8, black);
          if a % 8 == x % 8 { PlacesApart(x, y, a, b); }
        }
      }
    }

    method GetPixel(x: int, y: int) returns (black: bool)
      requires Valid()
      ensures black == (InGrid(x, y) && Pixel(x, y))
    {
      if x < 0 || x >= width || y < 0 || y >= height {
        return false;
      }
      PlaceInGrid(x, y);
      black := BitSet(data[y * Stride() + x / 8], x % 8);
    }

    // line: exactly the pixels of the closed form are painted, those that fall in the grid.
    method DrawLine(x0: int, y0: int, x1: int, y1: int, black: bool)
      requires Valid()
      modifies data
      ensures Shows(Line(Point(x0, y0), Point(x1, y1)), black)
    {
      hide PixelOf, Across, IsNearest, Line, ErrorAt, Pixel;
      ghost var from, to := Point(x0, y0), Point(x1, y1);
      var x, y := x0, y0;
      var deltaX := if x1 > x then x1 - x else x - x1;
      var deltaY := if y1 > y then y1 - y else y - y1;
      var stepX := if x < x1 then 1 else -1;
      var stepY := if y < y1 then 1 else -1;
      var error := deltaX - deltaY;
      ghost var k: nat := 0;
      FirstPixel(from, to);
      SetPixel(x, y, black);
      while !(x == x1 && y == y1)
        invariant k <= Length(from, to) && Point(x, y) == PixelOf(from, to, k)
        invariant error == ErrorAt(from, to, k)
        invariant Shows(Line(from, to)[..k + 1], black)
        decreases Length(from, to) - k
      {
        NotThereYet(from, to, k);
        NextPixel(from, to, k);
        var doubled := 2 * error;
        if doubled > -deltaY {
          error := error - deltaY;
          x := x + stepX;
        }
        if doubled < deltaX {
          error := error + deltaX;
          y := y + stepY;
        }
        k := k + 1;
        SetPixel(x, y, black);
        LineNext(from, to, k);
      }
      LastPixel(from, to, k);
      assert Line(from, to)[..k + 1] == Line(from, to);
    }
  }

  // The error term after k steps, by how far each axis has moved.
  ghost function ErrorAt(from: Point, to: Point, k: nat): int
    requires k > 0 ==> from != to
  {
    var dx, dy := Distance(from.x, to.x), Distance(from.y, to.y);
    if from == to then 0
    else if dx >= dy then (Across(dx, dy, k) + 1) * dx - (k + 1) * dy
    else (k + 1) * dx - (Across(dy, dx, k) + 1) * dy
  }

  lemma FirstPixel(from: Point, to: Point)
    ensures PixelOf(from, to, 0) == from && Line(from, to)[..1] == [from]
    ensures ErrorAt(from, to, 0) == Distance(from.x, to.x) - Distance(from.y, to.y)
  {
    var dx, dy := Distance(from.x, to.x), Distance(from.y, to.y);
    if dx >= dy && dx > 0 { NextAcross(dx, dy, 0); } else if dy > 0 { NextAcross(dy, dx, 0); }
  }

  lemma LineNext(from: Point, to: Point, k: nat)
    requires k <= Length(from, to)
    ensures Line(from, to)[..k + 1] == Line(from, to)[..k] + [PixelOf(from, to, k)]
  {
    hide PixelOf;
  }

  lemma NotThereYet(from: Point, to: Point, k: nat)
    requires k <= Length(from, to) && PixelOf(from, to, k) != to
    ensures k < Length(from, to)
  {
    EndsOfTheLine(from, to);
  }

  lemma LastPixel(from: Point, to: Point, k: nat)
    requires k <= Length(from, to) && PixelOf(from, to, k) == to
    ensures k == Length(from, to)
  {
    hide Across;
    var dx, dy := Distance(from.x, to.x), Distance(from.y, to.y);
  }

  // What the loop's two tests do to the pixel and the error.
  lemma NextPixel(from: Point, to: Point, k: nat)
    requires k < Length(from, to)
    ensures var p, q := PixelOf(from, to, k), PixelOf(from, to, k + 1);
      var dx, dy, doubled := Distance(from.x, to.x), Distance(from.y, to.y), 2 * ErrorAt(from, to, k);
      && q.x == p.x + (if doubled > -(dy as int) then Toward(from.x, to.x) else 0)
      && q.y == p.y + (if doubled < dx then Toward(from.y, to.y) else 0)
      && ErrorAt(from, to, k + 1) == ErrorAt(from, to, k)
           - (if doubled > -(dy as int) then dy else 0) + (if doubled < dx then dx else 0)
  {
    hide Across;
    var dx, dy := Distance(from.x, to.x), Distance(from.y, to.y);
    if dx >= dy { NextAcross(dx, dy, k); ErrorMoves(dx, dy, k); } else { NextAcross(dy, dx, k); ErrorMoves(dy, dx, k); }
  }

  lemma ErrorMoves(long: nat, short: nat, k: nat)
    requires long > 0
    ensures (Across(long, short, k) + 1 + 1) * long == (Across(long, short, k) + 1) * long + long
    ensures (k + 1 + 1) * short == (k + 1) * short + short
  {}
}
