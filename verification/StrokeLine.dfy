/** nk_rawfb_stroke_line: integer lines clipped to the scissor rectangle. */
module StrokeLine {
  import opened Arith

  // ---------- the ideal line ----------

  /** The distance `d` in the direction `step`, which is 1 or -1. */
  function Along(step: int, d: int): int
  {
    if step == 1 then d else -d
  }

  /**
   After `i` of `a` steps the line has moved `b * i / a` sideways; `k` is the nearest
   integer, and the larger one of two that are equally near.
   */
  ghost predicate Nearest(a: nat, b: nat, i: int, k: int)
  {
    2 * (b * i) - a < 2 * (a * k) <= 2 * (b * i) + a
  }

  lemma NearestUnique(a: nat, b: nat, i: int, k: int, l: int)
    requires a > 0 && Nearest(a, b, i, k) && Nearest(a, b, i, l)
    ensures k == l
  {
    Spread(a, k, l);
    MulSmall(k - l, 2 * a);
  }

  lemma Spread(a: nat, k: int, l: int)
    ensures (k - l) * (2 * a) == 2 * (a * k) - 2 * (a * l)
  {
  }

  /** The line ends where it should. */
  lemma NearestEnds(a: nat, b: nat)
    requires a > 0
    ensures Nearest(a, b, 0, 0) && Nearest(a, b, a, b)
  {
  }

  /** One round of the loop keeps `k` the nearest integer. */
  lemma FractionStep(a: nat, b: nat, i: int, k: int, fraction: int)
    requires b <= a && Nearest(a, b, i, k) && fraction == 2 * (b * i) + 2 * b - a - 2 * (a * k)
    ensures var l, f := if fraction >= 0 then k + 1 else k, (if fraction >= 0 then fraction - 2 * a else fraction) + 2 * b;
            Nearest(a, b, i + 1, l) && f == 2 * (b * (i + 1)) + 2 * b - a - 2 * (a * l)
  {
    assert b * (i + 1) == b * i + b;
    assert a * (k + 1) == a * k + a;
  }

  /** The pixel is one of the first `n + 1` on a line from (x0, y0) that is driven by x. */
  ghost predicate OnX(x0: int, y0: int, stepx: int, stepy: int, a: nat, b: nat, n: int, x: int, y: int)
  {
    0 <= Along(stepx, x - x0) <= n && Nearest(a, b, Along(stepx, x - x0), Along(stepy, y - y0))
  }

  lemma OnXStep(x0: int, y0: int, stepx: int, stepy: int, a: nat, b: nat, n: int, k: int, x: int, y: int)
    requires a > 0 && stepx in {-1, 1} && stepy in {-1, 1} && n >= 0 && Nearest(a, b, n, k)
    ensures OnX(x0, y0, stepx, stepy, a, b, n, x, y)
       <==> OnX(x0, y0, stepx, stepy, a, b, n - 1, x, y) || (x == x0 + Along(stepx, n) && y == y0 + Along(stepy, k))
  {
    hide Nearest;
    if Along(stepx, x - x0) == n && Nearest(a, b, n, Along(stepy, y - y0)) {
      NearestUnique(a, b, n, k, Along(stepy, y - y0));
    }
  }

  // ---------- the canvas ----------

  function Abs(d: int): nat
  {
    if d < 0 then -d else d
  }

  function Sign(d: int): int
  {
    if d < 0 then -1 else 1
  }

  /** The pixels that a line from (x0, y0) to (x1, y1) covers; a horizontal one lacks its right end. */
  ghost predicate OnLine(x0: int, y0: int, x1: int, y1: int, x: int, y: int)
  {
    var a, b := Abs(x1 - x0), Abs(y1 - y0);
    if b == 0 then y == y0 && Min(x0, x1) <= x < Max(x0, x1)
    else if a > b then OnX(x0, y0, Sign(x1 - x0), Sign(y1 - y0), a, b, a, x, y)
    else OnX(y0, x0, Sign(y1 - y0), Sign(x1 - x0), b, a, b, y, x)
  }

  /** A horizontal line has its left end and all that follows, but not its right end; a single point has nothing. */
  lemma HorizontalLine(x0: int, x1: int, y: int, x: int, z: int)
    ensures OnLine(x0, y, x1, y, x, z) <==> z == y && (x0 <= x < x1 || x1 <= x < x0)
  {
  }

  /** Twice the area between the ideal line and the point, a measure of their distance. */
  function Off(x0: int, y0: int, x1: int, y1: int, x: int, y: int): nat
  {
    Abs((y - y0) * (x1 - x0) - (y1 - y0) * (x - x0))
  }

  /** On a line that is driven by x no point of the same column is nearer to the ideal line; of two equally near ones it is the farther in y. */
  lemma NearestInColumn(x0: int, y0: int, x1: int, y1: int, x: int, y: int, z: int)
    requires y0 != y1 && Abs(x1 - x0) > Abs(y1 - y0) && OnLine(x0, y0, x1, y1, x, y)
    ensures Off(x0, y0, x1, y1, x, y) <= Off(x0, y0, x1, y1, x, z)
    ensures Off(x0, y0, x1, y1, x, y) == Off(x0, y0, x1, y1, x, z) && z != y ==> if y1 > y0 then z < y else y < z
    ensures x0 <= x <= x1 || x1 <= x <= x0
  {
    hide Off, Nearest;
    var a, b, sx, sy := Abs(x1 - x0), Abs(y1 - y0), Sign(x1 - x0), Sign(y1 - y0);
    OffIs(x0, y0, x1, y1, x, y);
    OffIs(x0, y0, x1, y1, x, z);
    NearestIs(a, b, Along(sx, x - x0), Along(sy, y - y0), Along(sy, z - y0));
  }

  /** On other lines no point of the same row is; of two equally near ones it is the farther in x. */
  lemma NearestInRow(x0: int, y0: int, x1: int, y1: int, x: int, y: int, z: int)
    requires y0 != y1 && Abs(x1 - x0) <= Abs(y1 - y0) && OnLine(x0, y0, x1, y1, x, y)
    ensures Off(x0, y0, x1, y1, x, y) <= Off(x0, y0, x1, y1, z, y)
    ensures Off(x0, y0, x1, y1, x, y) == Off(x0, y0, x1, y1, z, y) && z != x ==> if x1 > x0 then z < x else x1 < x0 && x < z
    ensures y0 <= y <= y1 || y1 <= y <= y0
  {
    hide Off, Nearest;
    var a, b, sx, sy := Abs(x1 - x0), Abs(y1 - y0), Sign(x1 - x0), Sign(y1 - y0);
    OffIs(y0, x0, y1, x1, y, x);
    OffIs(y0, x0, y1, x1, y, z);
    OffFlip(x0, y0, x1, y1, x, y);
    OffFlip(x0, y0, x1, y1, z, y);
    NearestIs(b, a, Along(sy, y - y0), Along(sx, x - x0), Along(sx, z - x0));
  }

  lemma OffFlip(x0: int, y0: int, x1: int, y1: int, x: int, y: int)
    ensures Off(x0, y0, x1, y1, x, y) == Off(y0, x0, y1, x1, y, x)
  {
  }

  lemma OffIs(x0: int, y0: int, x1: int, y1: int, x: int, y: int)
    ensures Off(x0, y0, x1, y1, x, y)
         == Abs(Abs(x1 - x0) * Along(Sign(y1 - y0), y - y0) - Abs(y1 - y0) * Along(Sign(x1 - x0), x - x0))
  {
    Negated(x1 - x0, y - y0);
    Negated(y1 - y0, x - x0);
  }

  lemma Negated(c: int, d: int)
    ensures (-c) * d == -(c * d) && c * (-d) == -(c * d) && (-c) * (-d) == c * d && d * c == c * d
  {
  }

  lemma NearestIs(a: nat, b: nat, i: int, k: int, j: int)
    requires a > 0 && Nearest(a, b, i, k)
    ensures Abs(a * k - b * i) <= Abs(a * j - b * i)
    ensures Abs(a * k - b * i) == Abs(a * j - b * i) && j != k ==> j < k && b > 0
  {
    if j < k {
      MulMonoInt(a, j, k - 1);
      Negated(a, k);
    } else if j > k {
      MulMonoInt(a, k + 1, j);
    }
  }

  lemma MulMonoInt(a: nat, x: int, y: int)
    requires x <= y
    ensures a * x <= a * y && a * (y + 1) == a * y + a && a * (x - 1) == a * x - a
  {
    assert a * (y - x) >= 0;
    assert a * (y - x) == a * y - a * x;
  }

  /** Every column, or every row, between the ends has a pixel. */
  lemma NoGaps(x0: int, y0: int, x1: int, y1: int, t: int)
    requires y0 != y1
    ensures Abs(x1 - x0) > Abs(y1 - y0) && (x0 <= t <= x1 || x1 <= t <= x0) ==> exists y :: OnLine(x0, y0, x1, y1, t, y)
    ensures Abs(x1 - x0) <= Abs(y1 - y0) && (y0 <= t <= y1 || y1 <= t <= y0) ==> exists x :: OnLine(x0, y0, x1, y1, x, t)
  {
    hide Nearest;
    var a, b, sx, sy := Abs(x1 - x0), Abs(y1 - y0), Sign(x1 - x0), Sign(y1 - y0);
    if a > b {
      var k := NearestExists(a, b, Along(sx, t - x0));
      assert Along(sy, y0 + Along(sy, k) - y0) == k;
      if x0 <= t <= x1 || x1 <= t <= x0 {
        assert OnLine(x0, y0, x1, y1, t, y0 + Along(sy, k));
      }
    } else {
      var k := NearestExists(b, a, Along(sy, t - y0));
      assert Along(sx, x0 + Along(sx, k) - x0) == k;
      if y0 <= t <= y1 || y1 <= t <= y0 {
        assert OnLine(x0, y0, x1, y1, x0 + Along(sx, k), t);
      }
    }
  }

  lemma NearestExists(a: nat, b: nat, i: int) returns (k: int)
    requires a > 0
    ensures Nearest(a, b, i, k)
  {
    var v := 2 * (b * i) + a;
    k := v / (2 * a);
    assert v == k * (2 * a) + v % (2 * a);
    assert k * (2 * a) == 2 * (a * k);
  }

  lemma LineEnds(x0: int, y0: int, x1: int, y1: int)
    requires y0 != y1
    ensures OnLine(x0, y0, x1, y1, x0, y0) && OnLine(x0, y0, x1, y1, x1, y1)
  {
    var a, b := Abs(x1 - x0), Abs(y1 - y0);
    hide Nearest;
    if a > b {
      NearestEnds(a, b);
    } else {
      NearestEnds(b, a);
    }
  }

  class Canvas {
    const pixels: array2<nat>
    var left: int
    var top: int
    var right: int
    var bottom: int

    /** The scissor rectangle lies within the picture. */
    ghost predicate Valid()
      reads this
    {
      && 0 <= left <= pixels.Length1 && right <= pixels.Length1
      && 0 <= top <= pixels.Length0 && bottom <= pixels.Length0
    }

    ghost predicate Inside(x: int, y: int)
      reads this
    {
      left <= x < right && top <= y < bottom
    }

    method SetPixel(x: int, y: int, col: nat)
      requires Valid()
      modifies pixels
      ensures forall v, u :: 0 <= v < pixels.Length0 && 0 <= u < pixels.Length1 ==>
                pixels[v, u] == if Inside(x, y) && u == x && v == y then col else old(pixels[v, u])
    {
      if y < bottom && y >= top && x >= left && x < right {
        pixels[y, x] := col;
      }
    }

    /** Fill a horizontal run in pieces of `chunk` pixels; the caller has clipped it. */
    method LineHorizontal(x0: int, y: int, x1: int, col: nat, chunk: nat)
      requires 0 <= x0 <= x1 <= pixels.Length1 && 0 <= y < pixels.Length0 && chunk > 0
      modifies pixels
      ensures forall v, u :: 0 <= v < pixels.Length0 && 0 <= u < pixels.Length1 ==>
                pixels[v, u] == if v == y && x0 <= u < x1 then col else old(pixels[v, u])
    {
      var n, at := x1 - x0, x0;
      while n > chunk
        invariant 0 <= n && x0 <= at && at + n == x1
        invariant forall v, u :: 0 <= v < pixels.Length0 && 0 <= u < pixels.Length1 ==>
                    pixels[v, u] == if v == y && x0 <= u < at then col else old(pixels[v, u])
      {
        forall u | at <= u < at + chunk {
          pixels[y, u] := col;
        }
        n := n - chunk;
        at := at + chunk;
      }
      forall u | at <= u < at + n {
        pixels[y, u] := col;
      }
    }

    /** The loop for lines that are driven by x. */
    method StrokeX(xs: int, ys: int, x1: int, stepx: int, stepy: int, dx: nat, dy: nat, col: nat, ghost a: nat, ghost b: nat)
      requires Valid() && stepx in {-1, 1} && stepy in {-1, 1} && dx == 2 * a && dy == 2 * b && b <= a && a > 0
      requires x1 == xs + Along(stepx, a)
      modifies pixels
      ensures forall v, u :: 0 <= v < pixels.Length0 && 0 <= u < pixels.Length1 ==>
                pixels[v, u] == if Inside(u, v) && OnX(xs, ys, stepx, stepy, a, b, a, u, v) then col else old(pixels[v, u])
    {
      hide Nearest, OnX;
      var x0, y0 := xs, ys;
      NearestEnds(a, b);
      First(xs, ys, stepx, stepy, a, b);
      SetPixel(x0, y0, col);
      var fraction := dy - dx / 2;
      ghost var i, k := 0, 0;
      FirstFraction(a, b);
      while x0 != x1
        invariant 0 <= i <= a && x0 == xs + Along(stepx, i) && y0 == ys + Along(stepy, k)
        invariant Nearest(a, b, i, k) && fraction == 2 * (b * i) + 2 * b - a - 2 * (a * k)
        invariant forall v, u :: 0 <= v < pixels.Length0 && 0 <= u < pixels.Length1 ==>
                    pixels[v, u] == if Inside(u, v) && OnX(xs, ys, stepx, stepy, a, b, i, u, v) then col else old(pixels[v, u])
        decreases a - i
      {
        FractionStep(a, b, i, k, fraction);
        if fraction >= 0 {
          y0 := y0 + stepy;
          fraction := fraction - dx;
          k := k + 1;
        }
        x0 := x0 + stepx;
        fraction := fraction + dy;
        i := i + 1;
        SetPixel(x0, y0, col);
        forall v, u | 0 <= v < pixels.Length0 && 0 <= u < pixels.Length1
          ensures OnX(xs, ys, stepx, stepy, a, b, i, u, v) <==> OnX(xs, ys, stepx, stepy, a, b, i - 1, u, v) || (u == x0 && v == y0)
        {
          OnXStep(xs, ys, stepx, stepy, a, b, i, k, u, v);
        }
      }
    }

    /** The loop for lines that are driven by y. */
    method StrokeY(xs: int, ys: int, y1: int, stepx: int, stepy: int, dx: nat, dy: nat, col: nat, ghost a: nat, ghost b: nat)
      requires Valid() && stepx in {-1, 1} && stepy in {-1, 1} && dy == 2 * a && dx == 2 * b && b <= a && a > 0
      requires y1 == ys + Along(stepy, a)
      modifies pixels
      ensures forall v, u :: 0 <= v < pixels.Length0 && 0 <= u < pixels.Length1 ==>
                pixels[v, u] == if Inside(u, v) && OnX(ys, xs, stepy, stepx, a, b, a, v, u) then col else old(pixels[v, u])
    {
      hide Nearest, OnX;
      var x0, y0 := xs, ys;
      NearestEnds(a, b);
      First(ys, xs, stepy, stepx, a, b);
      SetPixel(x0, y0, col);
      var fraction := dx - dy / 2;
      ghost var i, k := 0, 0;
      FirstFraction(a, b);
      while y0 != y1
        invariant 0 <= i <= a && y0 == ys + Along(stepy, i) && x0 == xs + Along(stepx, k)
        invariant Nearest(a, b, i, k) && fraction == 2 * (b * i) + 2 * b - a - 2 * (a * k)
        invariant forall v, u :: 0 <= v < pixels.Length0 && 0 <= u < pixels.Length1 ==>
                    pixels[v, u] == if Inside(u, v) && OnX(ys, xs, stepy, stepx, a, b, i, v, u) then col else old(pixels[v, u])
        decreases a - i
      {
        FractionStep(a, b, i, k, fraction);
        if fraction >= 0 {
          x0 := x0 + stepx;
          fraction := fraction - dy;
          k := k + 1;
        }
        y0 := y0 + stepy;
        fraction := fraction + dx;
        i := i + 1;
        SetPixel(x0, y0, col);
        forall v, u | 0 <= v < pixels.Length0 && 0 <= u < pixels.Length1
          ensures OnX(ys, xs, stepy, stepx, a, b, i, v, u) <==> OnX(ys, xs, stepy, stepx, a, b, i - 1, v, u) || (u == x0 && v == y0)
        {
          OnXStep(ys, xs, stepy, stepx, a, b, i, k, v, u);
        }
      }
    }

    /** Exactly the pixels of the line that lie in the scissor rectangle get the colour. */
    method Stroke(xs: int, y0: int, xe: int, y1: int, col: nat, chunk: nat)
      requires Valid() && chunk > 0
      modifies pixels
      ensures forall v, u :: 0 <= v < pixels.Length0 && 0 <= u < pixels.Length1 ==>
                pixels[v, u] == if Inside(u, v) && OnLine(xs, y0, xe, y1, u, v) then col else old(pixels[v, u])
    {
      hide OnX;
      var x0, x1 := xs, xe;
      var dy, dx := y1 - y0, x1 - x0;
      if dy == 0 {
        if dx == 0 || y0 >= bottom || y0 < top {
          return;
        }
        if dx < 0 {
          x0, x1 := x1, x0;
        }
        x1 := Min(right, x1);
        x0 := Min(right, x0);
        x1 := Max(left, x1);
        x0 := Max(left, x0);
        LineHorizontal(x0, y0, x1, col, chunk);
        return;
      }
      var stepx, stepy := 1, 1;
      if dy < 0 {
        dy := -dy;
        stepy := -1;
      }
      if dx < 0 {
        dx := -dx;
        stepx := -1;
      }
      ghost var a, b := dx, dy;
      dy := dy * 2;
      dx := dx * 2;
      if dx > dy {
        StrokeX(x0, y0, x1, stepx, stepy, dx, dy, col, a, b);
      } else {
        StrokeY(x0, y0, y1, stepx, stepy, dx, dy, col, b, a);
      }
    }
  }

  lemma FirstFraction(a: nat, b: nat)
    ensures 2 * b - (2 * a) / 2 == 2 * (b * 0) + 2 * b - a - 2 * (a * 0)
  {
  }

  lemma First(x0: int, y0: int, stepx: int, stepy: int, a: nat, b: nat)
    requires a > 0 && stepx in {-1, 1} && stepy in {-1, 1}
    ensures forall x, y :: OnX(x0, y0, stepx, stepy, a, b, 0, x, y) <==> (x == x0 && y == y0)
  {
    forall x, y ensures OnX(x0, y0, stepx, stepy, a, b, 0, x, y) <==> (x == x0 && y == y0) {
      NearestEnds(a, b);
      OnXStep(x0, y0, stepx, stepy, a, b, 0, 0, x, y);
    }
  }
}
