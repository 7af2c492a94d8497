/** morphologicalClose: a dilation followed by an erosion of a pixel mask with
    a square (2r+1) x (2r+1) window clipped to the image. */
module Morphology {
  import opened Grid

  /** Some in-bounds pixel within radius r of (x, y) has the value target. */
  ghost predicate WindowHas(m: seq<bool>, w: nat, h: nat, x: int, y: int, r: int, target: bool)
    requires |m| == w * h
  {
    exists nx, ny :: InBounds(w, h, nx, ny) && Near(x, y, nx, ny, r) && m[Idx(w, h, nx, ny)] == target
  }

  /** Dilation: a pixel is set when it was set or a set pixel lies in its window. */
  ghost function Dilation(m: seq<bool>, w: nat, h: nat, r: int): (d: seq<bool>)
    requires |m| == w * h
    ensures |d| == w * h
  {
    seq(w * h, p requires 0 <= p < w * h => m[p] || WindowHas(m, w, h, Col(w, h, p), Row(w, h, p), r, true))
  }

  /** Erosion: a set pixel stays set only when no clear pixel lies in its window. */
  ghost function Erosion(m: seq<bool>, w: nat, h: nat, r: int): (e: seq<bool>)
    requires |m| == w * h
    ensures |e| == w * h
  {
    seq(w * h, p requires 0 <= p < w * h => m[p] && !WindowHas(m, w, h, Col(w, h, p), Row(w, h, p), r, false))
  }

  /** Closing: dilation, then erosion of the dilated mask. */
  ghost function Closing(m: seq<bool>, w: nat, h: nat, r: int): (c: seq<bool>)
    requires |m| == w * h
    ensures |c| == w * h
  {
    Erosion(Dilation(m, w, h, r), w, h, r)
  }

  /** Dilation read at a coordinate. */
  lemma DilationAt(m: seq<bool>, w: nat, h: nat, r: int, x: int, y: int)
    requires |m| == w * h && InBounds(w, h, x, y)
    ensures Dilation(m, w, h, r)[Idx(w, h, x, y)] == (m[Idx(w, h, x, y)] || WindowHas(m, w, h, x, y, r, true))
  {
    CoordsOfIdx(w, h, x, y);
  }

  /** Erosion read at a coordinate. */
  lemma ErosionAt(m: seq<bool>, w: nat, h: nat, r: int, x: int, y: int)
    requires |m| == w * h && InBounds(w, h, x, y)
    ensures Erosion(m, w, h, r)[Idx(w, h, x, y)] == (m[Idx(w, h, x, y)] && !WindowHas(m, w, h, x, y, r, false))
  {
    CoordsOfIdx(w, h, x, y);
  }

  /** The nested dy/dx scan of the source: report whether a pixel equal to
      target lies in the window of radius r around (x, y), stopping at the
      first one found. */
  method FindInWindow(m: array<bool>, w: nat, h: nat, x: int, y: int, r: int, target: bool) returns (found: bool)
    requires m.Length == w * h
    ensures found == WindowHas(m[..], w, h, x, y, r, target)
  {
    found := false;
    var dy := -r;
    while dy <= r
      invariant -r <= dy
      invariant !found
      invariant forall nx, ny :: InBounds(w, h, nx, ny) && -r <= nx - x <= r && -r <= ny - y < dy ==> m[Idx(w, h, nx, ny)] != target
      decreases r - dy
    {
      var dx := -r;
      var ny := y + dy;
      while dx <= r
        invariant -r <= dx <= r + 1
        invariant !found
        invariant forall nx :: InBounds(w, h, nx, ny) && -r <= nx - x < dx ==> m[Idx(w, h, nx, ny)] != target
        decreases r - dx
      {
        var nx := x + dx;
        if 0 <= nx < w && 0 <= ny < h {
          if m[Idx(w, h, nx, ny)] == target {
            found := true;
            assert Near(x, y, nx, ny, r) && m[..][Idx(w, h, nx, ny)] == target;
            break;
          }
        }
        dx := dx + 1;
      }
      if found {
        break;
      }
      dy := dy + 1;
    }
  }

  /** The dilation loop of morphologicalClose (and of the feathering step):
      dst starts as a copy of src, and every clear pixel of src with a set
      pixel in its window becomes set in dst. */
  method DilateInto(src: array<bool>, dst: array<bool>, w: nat, h: nat, r: int)
    requires src.Length == w * h && dst.Length == w * h && src != dst
    requires dst[..] == src[..]
    modifies dst
    ensures dst[..] == Dilation(src[..], w, h, r)
  {
    ghost var d := Dilation(src[..], w, h, r);
    var y := 0;
    while y < h
      invariant 0 <= y <= h
      invariant forall q :: 0 <= q < y * w ==> dst[q] == d[q]
      invariant forall q :: y * w <= q < w * h ==> dst[q] == src[q]
    {
      assert y * w + w <= w * h by { MulLeq(y + 1, h, w); }
      var x := 0;
      while x < w
        invariant 0 <= x <= w
        invariant forall q :: 0 <= q < y * w + x ==> dst[q] == d[q]
        invariant forall q :: y * w + x <= q < w * h ==> dst[q] == src[q]
      {
        var p := Idx(w, h, x, y);
        DilationAt(src[..], w, h, r, x, y);
        if !src[p] {
          var hasNeighbour := FindInWindow(src, w, h, x, y, r, true);
          if hasNeighbour {
            dst[p] := true;
          }
        }
        x := x + 1;
      }
      assert y * w + w == (y + 1) * w;
      y := y + 1;
    }
  }

  /** The erosion loop of morphologicalClose: dst starts as a copy of src, and
      every set pixel of src with a clear pixel in its window is cleared. */
  method ErodeInto(src: array<bool>, dst: array<bool>, w: nat, h: nat, r: int)
    requires src.Length == w * h && dst.Length == w * h && src != dst
    requires dst[..] == src[..]
    modifies dst
    ensures dst[..] == Erosion(src[..], w, h, r)
  {
    ghost var e := Erosion(src[..], w, h, r);
    var y := 0;
    while y < h
      invariant 0 <= y <= h
      invariant forall q :: 0 <= q < y * w ==> dst[q] == e[q]
      invariant forall q :: y * w <= q < w * h ==> dst[q] == src[q]
    {
      assert y * w + w <= w * h by { MulLeq(y + 1, h, w); }
      var x := 0;
      while x < w
        invariant 0 <= x <= w
        invariant forall q :: 0 <= q < y * w + x ==> dst[q] == e[q]
        invariant forall q :: y * w + x <= q < w * h ==> dst[q] == src[q]
      {
        var p := Idx(w, h, x, y);
        ErosionAt(src[..], w, h, r, x, y);
        if src[p] {
          var hasGap := FindInWindow(src, w, h, x, y, r, false);
          if hasGap {
            dst[p] := false;
          }
        }
        x := x + 1;
      }
      assert y * w + w == (y + 1) * w;
      y := y + 1;
    }
  }

  /** A fresh array holding the contents of a (new Uint8Array(a)). */
  method Copy(a: array<bool>) returns (b: array<bool>)
    ensures fresh(b) && b[..] == a[..]
  {
    b := new bool[a.Length](i requires 0 <= i < a.Length reads a => a[i]);
  }

  /** morphologicalClose(mask, width, height, radius): a fresh mask holding the
      closing of the input, which is left unchanged. */
  method MorphologicalClose(mask: array<bool>, w: nat, h: nat, radius: int) returns (result: array<bool>)
    requires mask.Length == w * h
    ensures fresh(result) && result[..] == Closing(mask[..], w, h, radius)
  {
    result := Copy(mask);
    DilateInto(mask, result, w, h, radius);
    var temp := Copy(result);
    ErodeInto(temp, result, w, h, radius);
  }

  /** The window relation is symmetric. */
  lemma NearSymmetric(x: int, y: int, nx: int, ny: int, r: int)
    ensures Near(x, y, nx, ny, r) == Near(nx, ny, x, y, r)
  {
  }

  /** With a radius of 0 or less both operations, and so the closing, leave
      the mask as it is. */
  lemma SmallRadiusIdentity(m: seq<bool>, w: nat, h: nat, r: int)
    requires |m| == w * h && r <= 0
    ensures Dilation(m, w, h, r) == m && Erosion(m, w, h, r) == m && Closing(m, w, h, r) == m
  {
    forall p | 0 <= p < w * h
      ensures Dilation(m, w, h, r)[p] == m[p] && Erosion(m, w, h, r)[p] == m[p]
    {
      var x, y := Col(w, h, p), Row(w, h, p);
      assert !WindowHas(m, w, h, x, y, r, !m[p]);
    }
  }

  /** Dilation is monotone. */
  lemma DilationMonotone(a: seq<bool>, b: seq<bool>, w: nat, h: nat, r: int)
    requires |a| == w * h && |b| == w * h
    requires forall p :: 0 <= p < w * h && a[p] ==> b[p]
    ensures forall p :: 0 <= p < w * h && Dilation(a, w, h, r)[p] ==> Dilation(b, w, h, r)[p]
  {
    forall p | 0 <= p < w * h && Dilation(a, w, h, r)[p]
      ensures Dilation(b, w, h, r)[p]
    {
      if !a[p] {
        var x, y := Col(w, h, p), Row(w, h, p);
        var nx, ny :| InBounds(w, h, nx, ny) && Near(x, y, nx, ny, r) && a[Idx(w, h, nx, ny)];
        assert b[Idx(w, h, nx, ny)];
      }
    }
  }

  /** Closing only adds pixels (for a radius of 0 or more): a set pixel lies in
      the window of each of its neighbours, so they are all set after the
      dilation and the erosion keeps it. */
  lemma ClosingExtensive(m: seq<bool>, w: nat, h: nat, r: int)
    requires |m| == w * h && r >= 0
    ensures forall p :: 0 <= p < w * h && m[p] ==> Closing(m, w, h, r)[p]
  {
    var d := Dilation(m, w, h, r);
    forall p | 0 <= p < w * h && m[p]
      ensures Closing(m, w, h, r)[p]
    {
      var x, y := Col(w, h, p), Row(w, h, p);
      if WindowHas(d, w, h, x, y, r, false) {
        var nx, ny :| InBounds(w, h, nx, ny) && Near(x, y, nx, ny, r) && !d[Idx(w, h, nx, ny)];
        DilationAt(m, w, h, r, nx, ny);
        NearSymmetric(x, y, nx, ny, r);
        assert WindowHas(m, w, h, nx, ny, r, true);
        assert false;
      }
    }
  }

  /** Dilating an eroded mask gives no more than the mask (an opening only
      removes pixels). */
  lemma OpeningAntiExtensive(m: seq<bool>, w: nat, h: nat, r: int)
    requires |m| == w * h
    ensures forall p :: 0 <= p < w * h && Dilation(Erosion(m, w, h, r), w, h, r)[p] ==> m[p]
  {
    var e := Erosion(m, w, h, r);
    forall p | 0 <= p < w * h && Dilation(e, w, h, r)[p]
      ensures m[p]
    {
      var x, y := Col(w, h, p), Row(w, h, p);
      if !e[p] {
        var nx, ny :| InBounds(w, h, nx, ny) && Near(x, y, nx, ny, r) && e[Idx(w, h, nx, ny)];
        ErosionAt(m, w, h, r, nx, ny);
        NearSymmetric(x, y, nx, ny, r);
      }
    }
  }

  /** Closing is idempotent: closing a closed mask changes nothing. */
  lemma {:induction false} ClosingIdempotent(m: seq<bool>, w: nat, h: nat, r: int)
    requires |m| == w * h
    ensures Closing(Closing(m, w, h, r), w, h, r) == Closing(m, w, h, r)
  {
    if r < 0 {
      SmallRadiusIdentity(m, w, h, r);
      SmallRadiusIdentity(Closing(m, w, h, r), w, h, r);
    } else {
      var d := Dilation(m, w, h, r);
      var c := Erosion(d, w, h, r);
      ClosingExtensive(m, w, h, r);
      DilationMonotone(m, c, w, h, r);
      OpeningAntiExtensive(d, w, h, r);
      assert Dilation(c, w, h, r) == d;
    }
  }
  /** Closing sets a pixel when every in-bounds pixel of its window lies
      within the radius of a set pixel: such a pixel is in a hole that the
      dilation fills and the erosion then keeps. */
  lemma ClosingFillsCoveredPixel(m: seq<bool>, w: nat, h: nat, r: int, x: int, y: int)
    requires |m| == w * h && InBounds(w, h, x, y) && r >= 0
    requires forall nx, ny :: InBounds(w, h, nx, ny) && Near(x, y, nx, ny, r) ==>
      m[Idx(w, h, nx, ny)] || WindowHas(m, w, h, nx, ny, r, true)
    ensures Closing(m, w, h, r)[Idx(w, h, x, y)]
  {
    var d := Dilation(m, w, h, r);
    forall nx, ny | InBounds(w, h, nx, ny) && Near(x, y, nx, ny, r)
      ensures d[Idx(w, h, nx, ny)]
    {
      DilationAt(m, w, h, r, nx, ny);
    }
    assert d[Idx(w, h, x, y)];
    ErosionAt(d, w, h, r, x, y);
  }

  /** The 4 x 4 mask with the 2 x 2 hole in its middle. */
  function SmallHole(): (m: seq<bool>)
    ensures |m| == 16
  {
    seq(16, p => !(p == 5 || p == 6 || p == 9 || p == 10))
  }

  /** A 2 x 2 hole in a 4 x 4 mask: the radius-1 closing (the radius the
      slider gives at 0 percent) fills it, so the whole image is masked. */
  lemma ClosingFillsSmallHole()
    ensures Closing(SmallHole(), 4, 4, 1) == seq(16, _ => true)
  {
    SmallHoleDilated();
    FullStaysFull(4, 4, 1);
  }

  /** Every pixel of SmallHole is set or next to a set corner pixel. */
  lemma SmallHoleDilated()
    ensures Dilation(SmallHole(), 4, 4, 1) == seq(16, _ => true)
  {
    forall p | 0 <= p < 16
      ensures Dilation(SmallHole(), 4, 4, 1)[p]
    {
      SmallHoleDilatedAt(p);
    }
  }

  /** One pixel of the dilated SmallHole. */
  lemma SmallHoleDilatedAt(p: int)
    requires 0 <= p < 16
    ensures Dilation(SmallHole(), 4, 4, 1)[p]
  {
    var m := SmallHole();
    if p == 5 {
      FilledFrom(m, 1, 1, 0, 0);
    } else if p == 6 {
      FilledFrom(m, 2, 1, 3, 0);
    } else if p == 9 {
      FilledFrom(m, 1, 2, 0, 3);
    } else if p == 10 {
      FilledFrom(m, 2, 2, 3, 3);
    } else {
      assert m[p];
    }
  }

  /** A clear pixel (x, y) next to the set pixel (cx, cy) is set by the
      radius-1 dilation of a 4 x 4 mask. */
  lemma FilledFrom(m: seq<bool>, x: int, y: int, cx: int, cy: int)
    requires |m| == 16 && InBounds(4, 4, x, y) && InBounds(4, 4, cx, cy)
    requires Near(x, y, cx, cy, 1) && m[cy * 4 + cx]
    ensures Dilation(m, 4, 4, 1)[y * 4 + x]
  {
    DilationAt(m, 4, 4, 1, x, y);
    assert m[Idx(4, 4, cx, cy)];
  }

  /** A full mask has no clear pixel in any window, so erosion keeps it. */
  lemma FullStaysFull(w: nat, h: nat, r: int)
    ensures Erosion(seq(w * h, _ => true), w, h, r) == seq(w * h, _ => true)
  {
    var full := seq(w * h, _ => true);
    forall p | 0 <= p < w * h
      ensures Erosion(full, w, h, r)[p]
    {
      assert !WindowHas(full, w, h, Col(w, h, p), Row(w, h, p), r, false);
    }
  }
}
