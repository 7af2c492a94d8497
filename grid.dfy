/** Geometry of a row-major pixel grid of width w and height h: pixel (x, y)
    lives at flat index y * w + x. Also the 8-connected paths and border
    reachability that the flood fill's result is specified by. */
module Grid {

  /** A pixel position (column, row). */
  type Coord = (int, int)

  predicate InBounds(w: nat, h: nat, x: int, y: int) {
    0 <= x < w && 0 <= y < h
  }

  /** Flat index of an in-bounds pixel; always a valid index of a w*h buffer. */
  function Idx(w: nat, h: nat, x: int, y: int): (p: int)
    requires InBounds(w, h, x, y)
    ensures 0 <= p < w * h
  {
    assert y * w <= (h - 1) * w by { MulLeq(y, h - 1, w); }
    y * w + x
  }

  /** Column of flat index p. */
  function Col(w: nat, h: nat, p: int): (x: int)
    requires 0 <= p < w * h
    ensures 0 <= x < w
  {
    p % w
  }

  /** Row of flat index p. */
  function Row(w: nat, h: nat, p: int): (y: int)
    requires 0 <= p < w * h
    ensures 0 <= y < h && Idx(w, h, Col(w, h, p), y) == p
  {
    RowBound(w, h, p);
    p / w
  }

  lemma MulLeq(a: int, b: int, c: nat)
    requires a <= b
    ensures a * c <= b * c
  {
  }

  /** Row y + 1 starts w indices after row y, still inside the grid. */
  lemma RowStep(w: nat, h: nat, y: int)
    requires 0 <= y < h
    ensures y * w + w == (y + 1) * w && (y + 1) * w <= w * h
  {
    MulLeq(y + 1, h, w);
  }

  lemma MulComm(a: int, b: int)
    ensures a * b == b * a
  {
  }

  lemma RowBound(w: nat, h: nat, p: int)
    requires 0 <= p < w * h
    ensures w > 0 && 0 <= p / w < h && (p / w) * w + p % w == p
  {
    if p / w >= h {
      MulLeq(h, p / w, w);
    }
  }

  /** Index and coordinates are inverse to each other. */
  lemma {:induction false} CoordsOfIdx(w: nat, h: nat, x: int, y: int)
    requires InBounds(w, h, x, y)
    ensures Col(w, h, Idx(w, h, x, y)) == x && Row(w, h, Idx(w, h, x, y)) == y
  {
    var p := Idx(w, h, x, y);
    var y' := Row(w, h, p);
    IdxInjective(w, h, x, y, Col(w, h, p), y');
  }

  /** Different in-bounds pixels have different flat indices. */
  lemma {:induction false} IdxInjective(w: nat, h: nat, x1: int, y1: int, x2: int, y2: int)
    requires InBounds(w, h, x1, y1) && InBounds(w, h, x2, y2)
    requires Idx(w, h, x1, y1) == Idx(w, h, x2, y2)
    ensures x1 == x2 && y1 == y2
  {
    if y1 < y2 {
      MulLeq(y1 + 1, y2, w);
    } else if y2 < y1 {
      MulLeq(y2 + 1, y1, w);
    }
  }

  /** (nx, ny) lies in the (2r+1) x (2r+1) square centred on (x, y). */
  predicate Near(x: int, y: int, nx: int, ny: int, r: int) {
    -r <= nx - x <= r && -r <= ny - y <= r
  }

  /** 8-connectivity: distinct pixels at Chebyshev distance 1. */
  predicate Adjacent(a: Coord, b: Coord) {
    a != b && Near(a.0, a.1, b.0, b.1, 1)
  }

  /** A pixel in the first or last column or row. */
  predicate OnBorder(w: nat, h: nat, c: Coord) {
    InBounds(w, h, c.0, c.1) && (c.0 == 0 || c.0 == w - 1 || c.1 == 0 || c.1 == h - 1)
  }

  /** In-bounds and set in the grid bg. */
  predicate SetAt(bg: seq<bool>, w: nat, h: nat, c: Coord)
    requires |bg| == w * h
  {
    InBounds(w, h, c.0, c.1) && bg[Idx(w, h, c.0, c.1)]
  }

  /** A non-empty 8-connected path of set pixels that starts on the border. */
  ghost predicate BorderPath(bg: seq<bool>, w: nat, h: nat, path: seq<Coord>)
    requires |bg| == w * h
  {
    && |path| > 0
    && OnBorder(w, h, path[0])
    && (forall i :: 0 <= i < |path| ==> SetAt(bg, w, h, path[i]))
    && (forall i :: 0 <= i < |path| - 1 ==> Adjacent(path[i], path[i + 1]))
  }

  /** (x, y) can be reached from the border through set pixels only. */
  ghost predicate Reachable(bg: seq<bool>, w: nat, h: nat, x: int, y: int)
    requires |bg| == w * h
  {
    exists path :: BorderPath(bg, w, h, path) && path[|path| - 1] == (x, y)
  }

  /** A set border pixel is reachable (by the one-pixel path). */
  lemma BorderReachable(bg: seq<bool>, w: nat, h: nat, c: Coord)
    requires |bg| == w * h
    requires OnBorder(w, h, c) && SetAt(bg, w, h, c)
    ensures Reachable(bg, w, h, c.0, c.1)
  {
    assert BorderPath(bg, w, h, [c]);
  }

  /** Reachability extends to a set 8-neighbour. */
  lemma ReachableStep(bg: seq<bool>, w: nat, h: nat, a: Coord, b: Coord)
    requires |bg| == w * h
    requires Reachable(bg, w, h, a.0, a.1)
    requires Adjacent(a, b) && SetAt(bg, w, h, b)
    ensures Reachable(bg, w, h, b.0, b.1)
  {
    var path :| BorderPath(bg, w, h, path) && path[|path| - 1] == a;
    var path' := path + [b];
    assert BorderPath(bg, w, h, path');
  }

  /** Every reachable pixel is itself set and in bounds. */
  lemma ReachableIsSet(bg: seq<bool>, w: nat, h: nat, x: int, y: int)
    requires |bg| == w * h
    requires Reachable(bg, w, h, x, y)
    ensures SetAt(bg, w, h, (x, y))
  {
    var path :| BorderPath(bg, w, h, path) && path[|path| - 1] == (x, y);
  }

  /** m contains every set border pixel of bg and every set 8-neighbour of
      its own members. */
  ghost predicate Closed(bg: seq<bool>, m: seq<bool>, w: nat, h: nat)
    requires |bg| == w * h && |m| == w * h
  {
    && (forall c :: OnBorder(w, h, c) && SetAt(bg, w, h, c) ==> SetAt(m, w, h, c))
    && (forall a, b :: SetAt(m, w, h, a) && Adjacent(a, b) && SetAt(bg, w, h, b) ==> SetAt(m, w, h, b))
  }

  /** A closed grid contains everything reachable. */
  lemma {:induction false} ClosedContainsReachable(bg: seq<bool>, m: seq<bool>, w: nat, h: nat, x: int, y: int)
    requires |bg| == w * h && |m| == w * h
    requires Closed(bg, m, w, h)
    requires Reachable(bg, w, h, x, y)
    ensures SetAt(m, w, h, (x, y))
  {
    var path :| BorderPath(bg, w, h, path) && path[|path| - 1] == (x, y);
    var k := 0;
    while k < |path| - 1
      invariant 0 <= k < |path|
      invariant SetAt(m, w, h, path[k])
    {
      assert Adjacent(path[k], path[k + 1]) && SetAt(bg, w, h, path[k + 1]);
      k := k + 1;
    }
  }

  /** The reachable pixels of bg, as a grid. */
  ghost function ReachMap(bg: seq<bool>, w: nat, h: nat): (r: seq<bool>)
    requires |bg| == w * h
    ensures |r| == w * h
  {
    seq(w * h, p requires 0 <= p < w * h => Reachable(bg, w, h, Col(w, h, p), Row(w, h, p)))
  }

  /** The reachable pixels, read back at a coordinate. */
  lemma ReachMapAt(bg: seq<bool>, w: nat, h: nat, c: Coord)
    requires |bg| == w * h && InBounds(w, h, c.0, c.1)
    ensures SetAt(ReachMap(bg, w, h), w, h, c) == Reachable(bg, w, h, c.0, c.1)
  {
    CoordsOfIdx(w, h, c.0, c.1);
  }

  /** The reachable pixels form the least closed grid: they are closed, and
      contained in every closed grid. */
  lemma ReachMapClosed(bg: seq<bool>, w: nat, h: nat)
    requires |bg| == w * h
    ensures Closed(bg, ReachMap(bg, w, h), w, h)
  {
    var r := ReachMap(bg, w, h);
    forall c | OnBorder(w, h, c) && SetAt(bg, w, h, c)
      ensures SetAt(r, w, h, c)
    {
      BorderReachable(bg, w, h, c);
      ReachMapAt(bg, w, h, c);
    }
    forall a, b | SetAt(r, w, h, a) && Adjacent(a, b) && SetAt(bg, w, h, b)
      ensures SetAt(r, w, h, b)
    {
      ReachMapAt(bg, w, h, a);
      ReachableStep(bg, w, h, a, b);
      ReachMapAt(bg, w, h, b);
    }
  }
}
