/**
 The stroke around overlay text is the text's coverage mask dilated by a disc (`dilate_mask` in
 `services/overlays.rs`): each pixel takes the largest alpha within the radius.
 */
module Dilation {

  datatype Pixel = Pixel(r: nat, g: nat, b: nat, a: nat)

  const TRANSPARENT := Pixel(0, 0, 0, 0)

  /** Rows of alpha values, all of the same length. */
  type Grid = g: seq<seq<nat>> | forall y :: 0 <= y < |g| ==> |g[y]| == |g[0]| witness []

  predicate Inside(g: Grid, x: int, y: int)
  {
    0 <= y < |g| && 0 <= x < |g[y]|
  }

  predicate InDisc(radius: int, dx: int, dy: int)
  {
    radius >= 0 && dx * dx + dy * dy <= radius * radius
  }

  /** The point lies on the mask and within the disc around (x, y). */
  predicate Near(g: Grid, radius: int, x: int, y: int, px: int, py: int)
  {
    Inside(g, px, py) && InDisc(radius, px - x, py - y)
  }

  /** `m` is the largest alpha of the mask near (x, y), or zero when nothing is near. */
  ghost predicate LargestNear(g: Grid, radius: int, x: int, y: int, m: nat)
  {
    && (forall px, py :: Near(g, radius, x, y, px, py) ==> g[py][px] <= m)
    && (m == 0 || exists px, py :: Near(g, radius, x, y, px, py) && g[py][px] == m)
  }

  predicate SameSize(g: Grid, h: Grid)
  {
    |g| == |h| && forall y :: 0 <= y < |g| ==> |g[y]| == |h[y]|
  }

  ghost predicate IsDilation(g: Grid, radius: int, h: Grid)
  {
    SameSize(g, h) && forall x, y :: Inside(g, x, y) ==> LargestNear(g, radius, x, y, h[y][x])
  }

  /** Every alpha of `g` is at most the one of `h` in the same place. */
  ghost predicate Below(g: Grid, h: Grid)
  {
    SameSize(g, h) && forall x, y :: Inside(g, x, y) ==> g[y][x] <= h[y][x]
  }

  // ------------------------------------------------------------ the loops

  function Row(img: array2<Pixel>, y: nat): (r: seq<nat>)
    requires y < img.Length0
    reads img
    ensures |r| == img.Length1 && forall x :: 0 <= x < |r| ==> r[x] == img[y, x].a
  {
    seq(img.Length1, x requires 0 <= x < img.Length1 reads img => img[y, x].a)
  }

  /** The alpha channel of an image stored by rows. */
  function Alphas(img: array2<Pixel>): (g: Grid)
    reads img
    ensures |g| == img.Length0
    ensures forall y :: 0 <= y < |g| ==> |g[y]| == img.Length1
    ensures forall x, y :: 0 <= y < img.Length0 && 0 <= x < img.Length1 ==> g[y][x] == img[y, x].a
  {
    seq(img.Length0, y requires 0 <= y < img.Length0 reads img => Row(img, y))
  }

  lemma SquareBound(d: int, radius: int)
    requires radius >= 0 && d * d <= radius * radius
    ensures -radius <= d <= radius
  {
  }

  lemma DiscBound(radius: int, dx: int, dy: int)
    requires InDisc(radius, dx, dy)
    ensures -radius <= dx <= radius && -radius <= dy <= radius
  {
    assert dx * dx >= 0 && dy * dy >= 0;
    SquareBound(dx, radius);
    SquareBound(dy, radius);
  }

  /** The offset comes before (dx, dy) in the order of the two inner loops. */
  predicate Earlier(ox: int, oy: int, dx: int, dy: int)
  {
    oy < dy || (oy == dy && ox < dx)
  }

  /** `m` is the largest alpha among the offsets visited before (dx, dy), or zero. */
  ghost predicate LargestSoFar(g: Grid, radius: int, x: int, y: int, dx: int, dy: int, m: nat)
  {
    && (forall px, py :: Near(g, radius, x, y, px, py) && Earlier(px - x, py - y, dx, dy) ==> g[py][px] <= m)
    && (m == 0 || exists px, py :: Near(g, radius, x, y, px, py) && g[py][px] == m)
  }

  /** The two inner loops. */
  method MaxAlpha(mask: array2<Pixel>, radius: int, x: int, y: int) returns (m: nat)
    ensures LargestNear(Alphas(mask), radius, x, y, m)
  {
    ghost var g := Alphas(mask);
    m := 0;
    var dy := -radius;
    forall px, py | Near(g, radius, x, y, px, py) ensures -radius <= px - x <= radius && -radius <= py - y <= radius {
      DiscBound(radius, px - x, py - y);
    }
    while dy <= radius
      invariant LargestSoFar(g, radius, x, y, -radius, dy, m)
      invariant radius < 0 ==> m == 0
      decreases radius - dy
    {
      var dx := -radius;
      while dx <= radius
        invariant LargestSoFar(g, radius, x, y, dx, dy, m)
        decreases radius - dx
      {
        if dx * dx + dy * dy <= radius * radius {
          var nx, ny := x + dx, y + dy;
          if 0 <= nx < mask.Length1 && 0 <= ny < mask.Length0 {
            assert Near(g, radius, x, y, nx, ny);
            var a := mask[ny, nx].a;
            if a > m {
              m := a;
            }
          }
        }
        dx := dx + 1;
      }
      dy := dy + 1;
    }
  }

  method DilateMask(mask: array2<Pixel>, radius: int) returns (out: array2<Pixel>)
    ensures fresh(out) && out.Length0 == mask.Length0 && out.Length1 == mask.Length1
    ensures IsDilation(Alphas(mask), radius, Alphas(out))
    ensures forall x, y :: 0 <= y < out.Length0 && 0 <= x < out.Length1 ==>
                             out[y, x] == if out[y, x].a > 0 then Pixel(255, 255, 255, out[y, x].a) else TRANSPARENT
  {
    out := new Pixel[mask.Length0, mask.Length1]((_, _) => TRANSPARENT);
    var y := 0;
    while y < mask.Length0
      invariant y <= mask.Length0
      invariant forall v, u :: y <= v < mask.Length0 && 0 <= u < mask.Length1 ==> out[v, u] == TRANSPARENT
      invariant forall v, u :: 0 <= v < y && 0 <= u < mask.Length1 ==> Written(Alphas(mask), radius, u, v, out[v, u])
    {
      var x := 0;
      while x < mask.Length1
        invariant x <= mask.Length1
        invariant forall v, u :: y < v < mask.Length0 && 0 <= u < mask.Length1 ==> out[v, u] == TRANSPARENT
        invariant forall u :: x <= u < mask.Length1 ==> out[y, u] == TRANSPARENT
        invariant forall v, u :: 0 <= v < y && 0 <= u < mask.Length1 ==> Written(Alphas(mask), radius, u, v, out[v, u])
        invariant forall u :: 0 <= u < x ==> Written(Alphas(mask), radius, u, y, out[y, u])
      {
        var m := MaxAlpha(mask, radius, x, y);
        if m > 0 {
          out[y, x] := Pixel(255, 255, 255, m);
        }
        x := x + 1;
      }
      y := y + 1;
    }
  }

  /** What the pass leaves at (x, y). */
  ghost predicate Written(g: Grid, radius: int, x: int, y: int, p: Pixel)
  {
    && LargestNear(g, radius, x, y, p.a)
    && p == if p.a > 0 then Pixel(255, 255, 255, p.a) else TRANSPARENT
  }

  // ----------------------------------------------------- laws of dilation

  /** For two vectors within two discs, the inner product is at most the product of the radii. */
  lemma InnerProductBound(a: int, b: int, dx: int, dy: int, ex: int, ey: int)
    requires InDisc(a, dx, dy) && InDisc(b, ex, ey)
    ensures dx * ex + dy * ey <= a * b
  {
    var p, q := dx * ex + dy * ey, dx * ey - dy * ex;
    var m, n := dx * dx + dy * dy, ex * ex + ey * ey;
    Lagrange(dx, dy, ex, ey);
    assert q * q >= 0;
    assert p * p <= m * n;
    ProductsOrdered(m, n, a * a, b * b);
    assert (a * a) * (b * b) == (a * b) * (a * b) by {
      SquareOfProduct(a, b);
    }
    assert a * b >= 0;
    SquareBound(p, a * b);
  }

  lemma SquareOfProduct(a: int, b: int)
    ensures (a * a) * (b * b) == (a * b) * (a * b)
  {
  }

  lemma ProductsOrdered(m: int, n: int, u: int, v: int)
    requires 0 <= m <= u && 0 <= n <= v
    ensures m * n <= u * v
  {
    assert m * n <= u * n;
    assert u * n <= u * v;
  }

  lemma Lagrange(dx: int, dy: int, ex: int, ey: int)
    ensures (dx * ex + dy * ey) * (dx * ex + dy * ey) + (dx * ey - dy * ex) * (dx * ey - dy * ex)
         == (dx * dx + dy * dy) * (ex * ex + ey * ey)
  {
    var a, b, c, d := dx * ex, dy * ey, dx * ey, dy * ex;
    assert a * b == c * d;
    assert a * a == (dx * dx) * (ex * ex) && b * b == (dy * dy) * (ey * ey);
    assert c * c == (dx * dx) * (ey * ey) && d * d == (dy * dy) * (ex * ex);
  }

  /** Walking within one disc and then within another stays within a disc of the summed radius. */
  lemma DiscsAdd(a: int, b: int, dx: int, dy: int, ex: int, ey: int)
    requires InDisc(a, dx, dy) && InDisc(b, ex, ey)
    ensures InDisc(a + b, dx + ex, dy + ey)
  {
    InnerProductBound(a, b, dx, dy, ex, ey);
    assert (dx + ex) * (dx + ex) + (dy + ey) * (dy + ey)
        == (dx * dx + dy * dy) + (ex * ex + ey * ey) + 2 * (dx * ex + dy * ey);
    assert (a + b) * (a + b) == a * a + b * b + 2 * (a * b);
  }

  lemma NearNear(g: Grid, h: Grid, a: int, b: int, sum: int, x: int, y: int, qx: int, qy: int, px: int, py: int)
    requires Near(h, b, x, y, qx, qy) && Near(g, a, qx, qy, px, py) && sum == a + b
    ensures Near(g, sum, x, y, px, py)
  {
    DiscsAdd(a, b, px - qx, py - qy, qx - x, qy - y);
    assert (px - qx) + (qx - x) == px - x && (py - qy) + (qy - y) == py - y;
  }

  lemma NearWider(g: Grid, g': Grid, a: int, b: int, x: int, y: int, px: int, py: int)
    requires Near(g, a, x, y, px, py) && SameSize(g, g') && a <= b
    ensures Near(g', b, x, y, px, py)
  {
    ProductsOrdered(a, a, b, b);
  }

  lemma LargestAt(g: Grid, radius: int, h: Grid, x: int, y: int)
    requires IsDilation(g, radius, h) && Inside(h, x, y)
    ensures LargestNear(g, radius, x, y, h[y][x])
  {
    assert Inside(g, x, y);
  }

  /** The point from which a non-zero maximum comes. */
  lemma Source(g: Grid, radius: int, x: int, y: int, m: nat) returns (px: int, py: int)
    requires LargestNear(g, radius, x, y, m) && m > 0
    ensures Near(g, radius, x, y, px, py) && g[py][px] == m
  {
    px, py :| Near(g, radius, x, y, px, py) && g[py][px] == m;
  }

  /** The largest value within one radius of a largest value within another is within both together. */
  lemma ComposeAt(g: Grid, a: int, h: Grid, b: int, sum: int, x: int, y: int, qx: int, qy: int, n: nat)
    requires sum == a + b && Near(h, b, x, y, qx, qy) && h[qy][qx] > 0
    requires LargestNear(g, a, qx, qy, h[qy][qx]) && LargestNear(g, sum, x, y, n)
    ensures h[qy][qx] <= n
  {
    var px, py := Source(g, a, qx, qy, h[qy][qx]);
    NearNear(g, h, a, b, sum, x, y, qx, qy, px, py);
  }

  lemma SizesAgree(g: Grid, h: Grid, k: Grid, once: Grid)
    requires SameSize(g, h) && SameSize(h, k) && SameSize(g, once)
    ensures SameSize(k, once)
  {
  }

  /** One pixel of the twice dilated mask. */
  lemma ComposePixel(g: Grid, a: int, h: Grid, b: int, sum: int, x: int, y: int, m: nat, n: nat)
    requires sum == a + b && IsDilation(g, a, h)
    requires LargestNear(h, b, x, y, m) && LargestNear(g, sum, x, y, n)
    ensures m <= n
  {
    if m > 0 {
      var qx, qy := Source(h, b, x, y, m);
      LargestAt(g, a, h, qx, qy);
      ComposeAt(g, a, h, b, sum, x, y, qx, qy, n);
    }
  }

  /** Dilating twice reaches no further than dilating once by the sum of the radii. */
  lemma DilationsCompose(g: Grid, a: int, h: Grid, b: int, k: Grid, sum: int, once: Grid)
    requires IsDilation(g, a, h) && IsDilation(h, b, k) && IsDilation(g, sum, once) && sum == a + b
    ensures Below(k, once)
  {
    SizesAgree(g, h, k, once);
    forall x, y | Inside(k, x, y) ensures k[y][x] <= once[y][x] {
      LargestAt(h, b, k, x, y);
      LargestAt(g, sum, once, x, y);
      ComposePixel(g, a, h, b, sum, x, y, k[y][x], once[y][x]);
    }
  }

  /** The mask is below its dilation. */
  lemma DilationExtends(g: Grid, radius: int, h: Grid)
    requires radius >= 0 && IsDilation(g, radius, h)
    ensures Below(g, h)
  {
    forall x, y | Inside(g, x, y) ensures g[y][x] <= h[y][x] {
      CentreIsNear(g, radius, x, y);
      LargestAt(g, radius, h, x, y);
    }
  }

  lemma CentreIsNear(g: Grid, radius: int, x: int, y: int)
    requires radius >= 0 && Inside(g, x, y)
    ensures Near(g, radius, x, y, x, y)
  {
  }

  /** A larger mask and a larger radius give a larger dilation, so equal ones give the same. */
  lemma DilationMonotone(g: Grid, a: int, h: Grid, g': Grid, b: int, h': Grid)
    requires IsDilation(g, a, h) && IsDilation(g', b, h')
    requires Below(g, g') && a <= b
    ensures Below(h, h')
  {
    SizesAgreeBelow(g, h, g', h');
    forall x, y | Inside(h, x, y) ensures h[y][x] <= h'[y][x] {
      LargestAt(g, a, h, x, y);
      LargestAt(g', b, h', x, y);
      WiderPixel(g, a, g', b, x, y, h[y][x], h'[y][x]);
    }
  }

  lemma SizesAgreeBelow(g: Grid, h: Grid, g': Grid, h': Grid)
    requires SameSize(g, h) && SameSize(g', h') && SameSize(g, g')
    ensures SameSize(h, h')
  {
  }

  lemma WiderPixel(g: Grid, a: int, g': Grid, b: int, x: int, y: int, m: nat, n: nat)
    requires Below(g, g') && a <= b
    requires LargestNear(g, a, x, y, m) && LargestNear(g', b, x, y, n)
    ensures m <= n
  {
    if m > 0 {
      var px, py := Source(g, a, x, y, m);
      NearWider(g, g', a, b, x, y, px, py);
    }
  }
}
