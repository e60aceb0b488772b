/** The integer line and circle routines of the DerpOS VGA driver, as the pixels they write in order. */
module Rasteriser {

  datatype Point = Point(x: int, y: int)

  function Abs(n: int): (r: int)
    ensures r >= 0 && (r == n || r == -n)
  {
    if n < 0 then -n else n
  }

  // ----- Lines

  /** `k * minor / major` rounded to the nearest integer, halves up. */
  function RoundHalfUp(k: int, minor: int, major: int): (m: int)
    requires major > 0
  {
    (2 * (k * minor) + major) / (2 * major)
  }

  /** The same, halves down. */
  function RoundHalfDown(k: int, minor: int, major: int): (m: int)
    requires major > 0
  {
    (2 * (k * minor) + major - 1) / (2 * major)
  }

  predicate Shallow(p: Point, q: Point) {
    Abs(q.y - p.y) <= Abs(q.x - p.x)
  }

  function Major(p: Point, q: Point): (n: int)
    ensures n >= 0
  {
    if Shallow(p, q) then Abs(q.x - p.x) else Abs(q.y - p.y)
  }

  function Minor(p: Point, q: Point): (n: int)
    ensures n >= 0
  {
    if Shallow(p, q) then Abs(q.y - p.y) else Abs(q.x - p.x)
  }

  /** The end at which drawing starts: the left one, or for a steep line the upper one. */
  function Start(p: Point, q: Point): (s: Point) {
    if (if Shallow(p, q) then q.x >= p.x else q.y >= p.y) then p else q
  }

  function Finish(p: Point, q: Point): (f: Point) {
    if (if Shallow(p, q) then q.x >= p.x else q.y >= p.y) then q else p
  }

  function Slope(p: Point, q: Point): (s: int) {
    if (q.x < p.x && q.y < p.y) || (q.x > p.x && q.y > p.y) then 1 else -1
  }

  /** The pixel in column (or, if steep, row) `k` of the line. */
  function LinePoint(p: Point, q: Point, k: int): (r: Point)
    requires 0 <= k <= Major(p, q)
  {
    var s := Start(p, q);
    if Major(p, q) == 0 then s
    else if Shallow(p, q) then Point(s.x + k, s.y + Slope(p, q) * RoundHalfUp(k, Minor(p, q), Major(p, q)))
    else Point(s.x + Slope(p, q) * RoundHalfDown(k, Minor(p, q), Major(p, q)), s.y + k)
  }

  function Line(p: Point, q: Point): (pixels: seq<Point>) {
    seq(Major(p, q) + 1, k requires 0 <= k < Major(p, q) + 1 => LinePoint(p, q, k))
  }

  /** A quotient is the only number that leaves a remainder in range. */
  lemma QuotientIs(n: int, d: int, m: int)
    requires d > 0 && m * d <= n < m * d + d
    ensures n / d == m
  {
    var diff := n / d - m;
    assert diff * d == n - n % d - m * d;
    assert diff >= 1 ==> diff * d >= d;
    assert diff <= -1 ==> diff * d <= -1 * d;
  }

  lemma RoundUpIs(k: int, minor: int, major: int, m: int, km: int, mm: int)
    requires major > 0 && km == k * minor && mm == m * major
    requires -major <= 2 * (km - mm) < major
    ensures RoundHalfUp(k, minor, major) == m
  {
    assert m * (2 * major) == 2 * mm;
    QuotientIs(2 * km + major, 2 * major, m);
  }

  lemma RoundDownIs(k: int, minor: int, major: int, m: int, km: int, mm: int)
    requires major > 0 && km == k * minor && mm == m * major
    requires -major < 2 * (km - mm) <= major
    ensures RoundHalfDown(k, minor, major) == m
  {
    assert m * (2 * major) == 2 * mm;
    QuotientIs(2 * km + major - 1, 2 * major, m);
  }

  lemma Distribute(k: int, n: int)
    ensures (k + 1) * n == k * n + n
  {
  }

  /** The error term decides every step as exact rounding would. */
  method DrawShallow(p: Point, q: Point) returns (pixels: seq<Point>)
    requires Shallow(p, q)
    ensures pixels == Line(p, q)
  {
    var dx, dy := q.x - p.x, q.y - p.y;
    var dx1, dy1 := Abs(dx), Abs(dy);
    var px := 2 * dy1 - dx1;
    var x, y, xe;
    if dx >= 0 {
      x, y, xe := p.x, p.y, q.x;
    } else {
      x, y, xe := q.x, q.y, p.x;
    }
    ghost var s := Start(p, q);
    ghost var k, m, km, mm := 0, 0, 0, 0;
    pixels := [Point(x, y)];
    if dx1 > 0 {
      RoundUpIs(0, dy1, dx1, 0, 0, 0);
    }
    while x < xe
      invariant 0 <= k <= dx1 && x == s.x + k && xe == s.x + dx1 && y == s.y + Slope(p, q) * m
      invariant km == k * dy1 && mm == m * dx1 && px == 2 * (km - mm) + 2 * dy1 - dx1
      invariant dx1 > 0 ==> -dx1 <= 2 * (km - mm) < dx1
      invariant |pixels| == k + 1 && forall i :: 0 <= i <= k ==> pixels[i] == LinePoint(p, q, i)
    {
      x := x + 1;
      if px < 0 {
        px := px + 2 * dy1;
      } else {
        if (dx < 0 && dy < 0) || (dx > 0 && dy > 0) {
          y := y + 1;
        } else {
          y := y - 1;
        }
        px := px + 2 * (dy1 - dx1);
        Distribute(m, dx1);
        m, mm := m + 1, mm + dx1;
      }
      Distribute(k, dy1);
      k, km := k + 1, km + dy1;
      RoundUpIs(k, dy1, dx1, m, km, mm);
      pixels := pixels + [Point(x, y)];
    }
  }

  method DrawSteep(p: Point, q: Point) returns (pixels: seq<Point>)
    requires !Shallow(p, q)
    ensures pixels == Line(p, q)
  {
    var dx, dy := q.x - p.x, q.y - p.y;
    var dx1, dy1 := Abs(dx), Abs(dy);
    var py := 2 * dx1 - dy1;
    var x, y, ye;
    if dy >= 0 {
      x, y, ye := p.x, p.y, q.y;
    } else {
      x, y, ye := q.x, q.y, p.y;
    }
    ghost var s := Start(p, q);
    ghost var k, m, km, mm := 0, 0, 0, 0;
    pixels := [Point(x, y)];
    RoundDownIs(0, dx1, dy1, 0, 0, 0);
    while y < ye
      invariant 0 <= k <= dy1 && y == s.y + k && ye == s.y + dy1 && x == s.x + Slope(p, q) * m
      invariant km == k * dx1 && mm == m * dy1 && py == 2 * (km - mm) + 2 * dx1 - dy1
      invariant -dy1 < 2 * (km - mm) <= dy1
      invariant |pixels| == k + 1 && forall i :: 0 <= i <= k ==> pixels[i] == LinePoint(p, q, i)
    {
      y := y + 1;
      if py <= 0 {
        py := py + 2 * dx1;
      } else {
        if (dx < 0 && dy < 0) || (dx > 0 && dy > 0) {
          x := x + 1;
        } else {
          x := x - 1;
        }
        py := py + 2 * (dx1 - dy1);
        Distribute(m, dy1);
        m, mm := m + 1, mm + dy1;
      }
      Distribute(k, dx1);
      k, km := k + 1, km + dx1;
      RoundDownIs(k, dx1, dy1, m, km, mm);
      pixels := pixels + [Point(x, y)];
    }
  }

  /** `vga_draw_line` */
  method DrawLine(p: Point, q: Point) returns (pixels: seq<Point>)
    ensures pixels == Line(p, q)
  {
    if Abs(q.y - p.y) <= Abs(q.x - p.x) {
      pixels := DrawShallow(p, q);
    } else {
      pixels := DrawSteep(p, q);
    }
  }

  /** No pixel is further than half a pixel from the true line. */
  lemma LineIsNearest(p: Point, q: Point, k: int)
    requires 0 <= k <= Major(p, q)
    ensures var s, r := Start(p, q), LinePoint(p, q, k);
            var m := if Shallow(p, q) then Slope(p, q) * (r.y - s.y) else Slope(p, q) * (r.x - s.x);
            2 * Abs(m * Major(p, q) - k * Minor(p, q)) <= Major(p, q)
  {
    if Major(p, q) > 0 {
      RoundedWithinHalf(k, Minor(p, q), Major(p, q));
    }
  }

  lemma RoundedWithinHalf(k: int, minor: int, major: int)
    requires major > 0
    ensures -major <= 2 * (k * minor - RoundHalfUp(k, minor, major) * major) < major
    ensures -major < 2 * (k * minor - RoundHalfDown(k, minor, major) * major) <= major
  {
    RemainderInRange(2 * (k * minor) + major, major);
    RemainderInRange(2 * (k * minor) + major - 1, major);
  }

  lemma RemainderInRange(n: int, major: int)
    requires major > 0
    ensures 0 <= n - 2 * (n / (2 * major) * major) < 2 * major
  {
    var d := 2 * major;
    assert n / d * d == 2 * (n / d * major);
  }

  /** A line at most as high as wide, in coordinates: one pixel a column from left to right, each at the
      nearest row; halfway between two rows it takes the one further from the left end. */
  lemma ShallowExact(p: Point, q: Point, k: int)
    requires Abs(q.y - p.y) <= Abs(q.x - p.x) && p.x != q.x && 0 <= k <= Abs(q.x - p.x)
    ensures var l, r := if p.x < q.x then p else q, if p.x < q.x then q else p;
            var w, d := r.x - l.x, r.y - l.y;
            && |Line(p, q)| == w + 1 && Line(p, q)[k].x == l.x + k
            && var miss := 2 * (k * d - (Line(p, q)[k].y - l.y) * w);
               if d >= 0 then -w <= miss < w else -w < miss <= w
  {
    var l, r := if p.x < q.x then p else q, if p.x < q.x then q else p;
    var w, d := r.x - l.x, r.y - l.y;
    var m := RoundHalfUp(k, Abs(d), w);
    RoundedWithinHalf(k, Abs(d), w);
    if d == 0 {
      assert k * d == 0 && -w <= -2 * (m * w) < w;
      NoStep(m, w);
    } else {
      Signed(k, d, m, w);
    }
  }

  lemma NoStep(m: int, w: int)
    requires w > 0 && -w < 2 * (m * w) <= w
    ensures m == 0
  {
    assert m >= 1 ==> m * w >= w;
    assert m <= -1 ==> m * w <= -w;
  }

  lemma Signed(k: int, d: int, m: int, w: int)
    ensures k * -d == -(k * d) && (-1 * m) * w == -(m * w) && (1 * m) * w == m * w
  {
  }

  /** A line higher than wide: one pixel a row from top to bottom, each at the nearest column; halfway
      it takes the one nearer to the top end. */
  lemma SteepExact(p: Point, q: Point, k: int)
    requires Abs(q.x - p.x) < Abs(q.y - p.y) && 0 <= k <= Abs(q.y - p.y)
    ensures var t, b := if p.y < q.y then p else q, if p.y < q.y then q else p;
            var h, d := b.y - t.y, b.x - t.x;
            && |Line(p, q)| == h + 1 && Line(p, q)[k].y == t.y + k
            && var miss := 2 * (k * d - (Line(p, q)[k].x - t.x) * h);
               if d >= 0 then -h < miss <= h else -h <= miss < h
  {
    var t, b := if p.y < q.y then p else q, if p.y < q.y then q else p;
    var h, d := b.y - t.y, b.x - t.x;
    var m := RoundHalfDown(k, Abs(d), h);
    RoundedWithinHalf(k, Abs(d), h);
    if d == 0 {
      assert k * d == 0;
      NoStepDown(m, h);
    } else {
      Signed(k, d, m, h);
    }
  }

  lemma NoStepDown(m: int, h: int)
    requires h > 0 && -h <= 2 * (m * h) < h
    ensures m == 0
  {
    assert m >= 1 ==> m * h >= h;
    assert m <= -1 ==> m * h <= -h;
  }

  /** The last pixel is the far endpoint, in every octant. */
  lemma LineReachesFinish(p: Point, q: Point)
    ensures Line(p, q)[0] == Start(p, q)
    ensures Line(p, q)[Major(p, q)] == Finish(p, q)
  {
    var major, minor := Major(p, q), Minor(p, q);
    if major > 0 {
      RoundUpIs(0, minor, major, 0, 0, 0);
      RoundDownIs(0, minor, major, 0, 0, 0);
      RoundUpIs(major, minor, major, minor, major * minor, major * minor);
      RoundDownIs(major, minor, major, minor, major * minor, major * minor);
    }
  }

  /** Swapping the endpoints draws the same pixels in the same order. */
  lemma LineIgnoresDirection(p: Point, q: Point)
    ensures Line(p, q) == Line(q, p)
  {
    assert Major(p, q) == Major(q, p);
    forall k | 0 <= k <= Major(p, q) ensures LinePoint(p, q, k) == LinePoint(q, p, k) {
    }
  }

  // ----- Circles

  /** The points of the first octant whose `y` is nearest to the true circle at their `x`. */
  ghost predicate OnArc(x: int, y: int, r: int) {
    0 <= x <= y && -y <= x * x + y * y - r * r < y
  }

  /** The eight reflections of an octant point, in the order in which they are written. */
  function Octants(c: Point, x: int, y: int): (pixels: seq<Point>)
    ensures |pixels| == 8
  {
    [ Point(c.x - x, c.y - y), Point(c.x - y, c.y - x), Point(c.x + y, c.y - x), Point(c.x + x, c.y - y),
      Point(c.x - x, c.y + y), Point(c.x - y, c.y + x), Point(c.x + y, c.y + x), Point(c.x + x, c.y + y) ]
  }

  ghost predicate OnCircle(p: Point, c: Point, r: int) {
    exists x, y :: OnArc(x, y, r) && p in Octants(c, x, y)
  }

  lemma SquaresApart(y: int, z: int)
    requires 0 <= y < z
    ensures y * y + y <= z * z - z
  {
    assert z * z - z - y * y - y == (z - y - 1) * (z + y);
  }

  /** `y` is the integer nearest to the square root of `r * r - x * x`, and there is no other. */
  lemma ArcIsNearest(x: int, y: int, r: int)
    requires OnArc(x, y, r)
    ensures (2 * y - 1) * (2 * y - 1) < 4 * (r * r - x * x) < (2 * y + 1) * (2 * y + 1)
    ensures forall z :: OnArc(x, z, r) ==> z == y
  {
    forall z | 0 <= z && z != y ensures !OnArc(x, z, r) {
      if z < y {
        SquaresApart(z, y);
      } else {
        SquaresApart(y, z);
      }
    }
  }

  lemma ProductsGrow(c: int, a: int, b: int)
    requires 1 <= c <= a <= b
    ensures c * c <= a * a && c * c - c <= b * b - b
  {
    assert 0 <= (a - c) * (a + c) == a * a - c * c;
    assert 0 <= (b - c) * (b + c - 1) == b * b - b - (c * c - c);
  }

  /** After the last step the true circle has left the octant. */
  lemma NothingBeyond(x: int, y: int, r: int, a: int, b: int)
    requires OnArc(x, y, r)
    requires y == x || (y == x + 1 && 2 * (x * x + y * y - r * r) + 4 * x - 2 * y + 3 >= 0)
    ensures OnArc(a, b, r) ==> a <= x
  {
    assert (x + 1) * (x + 1) == x * x + 2 * x + 1;
    if x < a <= b {
      ProductsGrow(x + 1, a, b);
    }
  }

  /** One round of the midpoint loop stays on the arc or leaves the octant for good. */
  lemma ArcStep(x: int, y: int, r: int, d: int, y': int)
    requires OnArc(x, y, r)
    requires d == 2 * (x * x + y * y - r * r) + 4 * x - 2 * y + 3
    requires y' == if d < 0 then y else y - 1
    ensures (x + 1) * (x + 1) + y' * y' - r * r ==
            x * x + y * y - r * r + if d < 0 then 2 * x + 1 else 2 * x - 2 * y + 2
    ensures if x + 1 <= y' then OnArc(x + 1, y', r) else forall a, b :: OnArc(a, b, r) ==> a <= x
  {
    if x + 1 > y' {
      forall a, b ensures OnArc(a, b, r) ==> a <= x {
        NothingBeyond(x, y, r, a, b);
      }
    }
  }

  function Smaller(a: int, b: int): (m: int) {
    if a < b then a else b
  }

  function Larger(a: int, b: int): (m: int) {
    if a < b then b else a
  }

  /** A pixel is on the circle exactly when its two distances from the centre, the smaller one first,
      are on the arc. */
  lemma CircleByDistance(p: Point, c: Point, r: int)
    ensures OnCircle(p, c, r) <==>
            OnArc(Smaller(Abs(p.x - c.x), Abs(p.y - c.y)), Larger(Abs(p.x - c.x), Abs(p.y - c.y)), r)
  {
    var u, v := Abs(p.x - c.x), Abs(p.y - c.y);
    if OnCircle(p, c, r) {
      var x, y :| OnArc(x, y, r) && p in Octants(c, x, y);
      assert Smaller(u, v) == x && Larger(u, v) == y;
    }
    assert p in Octants(c, Smaller(u, v), Larger(u, v));
  }

  /** The heights of the arc, column by column, and no column missing. */
  ghost predicate WholeArc(arc: seq<int>, r: int) {
    && (forall i :: 0 <= i < |arc| ==> OnArc(i, arc[i], r))
    && (forall a, b :: OnArc(a, b, r) ==> a < |arc|)
  }

  lemma ArcIsUnique(arc: seq<int>, arc': seq<int>, r: int)
    requires WholeArc(arc, r) && WholeArc(arc', r)
    ensures arc == arc'
  {
    assert arc != [] ==> OnArc(|arc| - 1, arc[|arc| - 1], r);
    assert arc' != [] ==> OnArc(|arc'| - 1, arc'[|arc'| - 1], r);
    forall i | 0 <= i < |arc| ensures arc[i] == arc'[i] {
      ArcIsNearest(i, arc[i], r);
    }
  }

  /** The pixels written for an arc, octant point by octant point. */
  function Reflected(c: Point, arc: seq<int>): (pixels: seq<Point>) {
    if arc == [] then [] else Reflected(c, arc[..|arc| - 1]) + Octants(c, |arc| - 1, arc[|arc| - 1])
  }

  lemma {:induction false} ReflectedFrom(p: Point, c: Point, arc: seq<int>)
    ensures p in Reflected(c, arc) <==> exists i :: 0 <= i < |arc| && p in Octants(c, i, arc[i])
  {
    if arc != [] {
      var n := |arc| - 1;
      ReflectedFrom(p, c, arc[..n]);
      assert forall i :: 0 <= i < n ==> arc[..n][i] == arc[i];
      assert p in Reflected(c, arc) <==> p in Reflected(c, arc[..n]) || p in Octants(c, n, arc[n]);
    }
  }

  /** The reflections of the whole arc are the pixels of the circle, and no others. */
  lemma ReflectedIsCircle(p: Point, c: Point, r: int, arc: seq<int>)
    requires WholeArc(arc, r)
    ensures p in Reflected(c, arc) <==> OnCircle(p, c, r)
  {
    ReflectedFrom(p, c, arc);
    if OnCircle(p, c, r) {
      var x, y :| OnArc(x, y, r) && p in Octants(c, x, y);
      ArcIsNearest(x, y, r);
      assert arc[x] == y;
    }
  }

  lemma NoPointCircle()
    ensures WholeArc([], 0)
  {
    forall x, y ensures !OnArc(x, y, 0) {
      assert y >= 1 ==> y * y >= y;
      assert x * x >= 0;
    }
  }

  /** `vga_draw_circle`: the reflections of the nearest arc, in order; nothing for a negative radius. */
  method DrawCircle(c: Point, r: int) returns (pixels: seq<Point>, ghost arc: seq<int>)
    ensures pixels == Reflected(c, arc)
    ensures if r >= 0 then WholeArc(arc, r) else arc == []
    ensures r >= 0 ==>
              forall p :: p in pixels <==>
                OnArc(Smaller(Abs(p.x - c.x), Abs(p.y - c.y)), Larger(Abs(p.x - c.x), Abs(p.y - c.y)), r)
  {
    pixels, arc := DrawArc(c, r);
    if r >= 0 {
      forall p ensures p in pixels <==>
                 OnArc(Smaller(Abs(p.x - c.x), Abs(p.y - c.y)), Larger(Abs(p.x - c.x), Abs(p.y - c.y)), r)
      {
        ReflectedIsCircle(p, c, r, arc);
        CircleByDistance(p, c, r);
      }
    }
  }

  method DrawArc(c: Point, r: int) returns (pixels: seq<Point>, ghost arc: seq<int>)
    ensures pixels == Reflected(c, arc)
    ensures if r >= 0 then WholeArc(arc, r) else arc == []
  {
    pixels, arc := [], [];
    var x, y, d := 0, r, 3 - 2 * r;
    if r == 0 {
      NoPointCircle();
      return;
    }
    while y >= x
      invariant 0 <= x == |arc| && (r < 0 ==> y < x && arc == []) && pixels == Reflected(c, arc)
      invariant d == 2 * (x * x + y * y - r * r) + 4 * x - 2 * y + 3
      invariant r > 0 ==> if x <= y then OnArc(x, y, r) else forall a, b :: OnArc(a, b, r) ==> a < x
      invariant forall i :: 0 <= i < x ==> OnArc(i, arc[i], r)
      decreases y - x
    {
      ArcStep(x, y, r, d, if d < 0 then y else y - 1);
      pixels := pixels + Octants(c, x, y);
      assert (arc + [y])[..x] == arc;
      arc := arc + [y];
      if d < 0 {
        d := d + 4 * x + 6;
        x := x + 1;
      } else {
        d := d + 4 * (x - y) + 10;
        x, y := x + 1, y - 1;
      }
    }
  }
}
