/** The rest of rerun: feathering of the cleaned mask, the edge-first clear
    order, and clearing the alpha channel of a copy of the original image. */
module Compositing {
  import opened Grid
  import opened Seqs
  import opened Classify
  import opened FloodFill
  import opened Morphology

  /** The mask after the feathering step: dilated by featherAmount when that is
      positive, unchanged otherwise. */
  ghost function Feathered(m: seq<bool>, w: nat, h: nat, featherAmount: int): (f: seq<bool>)
    requires |m| == w * h
    ensures |f| == w * h
  {
    if featherAmount > 0 then Dilation(m, w, h, featherAmount) else m
  }

  /** The feathering step of rerun: featheredMask starts as a copy of
      cleanedMask and receives the dilation; the merge loop then sets in
      cleanedMask every pixel set in featheredMask. */
  method Feather(cleanedMask: array<bool>, w: nat, h: nat, featherAmount: int)
    requires cleanedMask.Length == w * h
    modifies cleanedMask
    ensures cleanedMask[..] == Feathered(old(cleanedMask[..]), w, h, featherAmount)
  {
    if featherAmount > 0 {
      var featheredMask := Copy(cleanedMask);
      DilateInto(cleanedMask, featheredMask, w, h, featherAmount);
      ghost var c0 := cleanedMask[..];
      assert forall q :: 0 <= q < w * h && c0[q] ==> featheredMask[q];
      var i := 0;
      while i < featheredMask.Length
        invariant 0 <= i <= w * h
        invariant featheredMask[..] == Dilation(c0, w, h, featherAmount)
        invariant forall q :: 0 <= q < w * h && c0[q] ==> featheredMask[q]
        invariant forall q :: 0 <= q < i ==> cleanedMask[q] == featheredMask[q]
        invariant forall q :: i <= q < w * h ==> cleanedMask[q] == c0[q]
      {
        if featheredMask[i] && !cleanedMask[i] {
          cleanedMask[i] := true;
        }
        i := i + 1;
      }
    }
  }

  /** Feathering only adds pixels: every pixel of the mask stays set, a new
      pixel lies within featherAmount of a set one, and a featherAmount of 0
      or less changes nothing. */
  lemma FeatherExtensive(m: seq<bool>, w: nat, h: nat, featherAmount: int)
    requires |m| == w * h
    ensures forall p :: 0 <= p < w * h && m[p] ==> Feathered(m, w, h, featherAmount)[p]
    ensures forall p :: 0 <= p < w * h && Feathered(m, w, h, featherAmount)[p] && !m[p] ==>
      featherAmount > 0 && WindowHas(m, w, h, Col(w, h, p), Row(w, h, p), featherAmount, true)
    ensures featherAmount <= 0 ==> Feathered(m, w, h, featherAmount) == m
  {
  }

  /** A masked pixel is an edge pixel when a clear pixel lies among its 8
      neighbours. */
  ghost predicate IsEdge(m: seq<bool>, w: nat, h: nat, p: int)
    requires |m| == w * h && 0 <= p < w * h
  {
    WindowHas(m, w, h, Col(w, h, p), Row(w, h, p), 1, false)
  }

  /** The masked indices below n that are edge pixels (edge = true) or
      interior pixels (edge = false), in increasing order. */
  ghost function PixelsWhere(m: seq<bool>, w: nat, h: nat, edge: bool, n: nat): seq<int>
    requires |m| == w * h && n <= w * h
  {
    if n == 0 then []
    else PixelsWhere(m, w, h, edge, n - 1) + (if m[n - 1] && IsEdge(m, w, h, n - 1) == edge then [n - 1] else [])
  }

  /** PixelsWhere holds exactly the masked indices below n of the given kind. */
  lemma {:induction false} PixelsWhereMembers(m: seq<bool>, w: nat, h: nat, edge: bool, n: nat, p: int)
    requires |m| == w * h && n <= w * h
    ensures p in PixelsWhere(m, w, h, edge, n) <==> 0 <= p < n && m[p] && IsEdge(m, w, h, p) == edge
  {
    if n > 0 {
      PixelsWhereMembers(m, w, h, edge, n - 1, p);
    }
  }

  /** PixelsWhere is strictly increasing, and so free of duplicates. */
  lemma {:induction false} PixelsWhereIncreasing(m: seq<bool>, w: nat, h: nat, edge: bool, n: nat)
    requires |m| == w * h && n <= w * h
    ensures forall i, j :: 0 <= i < j < |PixelsWhere(m, w, h, edge, n)| ==>
      PixelsWhere(m, w, h, edge, n)[i] < PixelsWhere(m, w, h, edge, n)[j]
  {
    if n > 0 {
      var s := PixelsWhere(m, w, h, edge, n - 1);
      PixelsWhereIncreasing(m, w, h, edge, n - 1);
      forall i | 0 <= i < |s|
        ensures s[i] < n - 1
      {
        PixelsWhereMembers(m, w, h, edge, n - 1, s[i]);
      }
    }
  }

  /** finalClearOrder: the edge pixels, then the interior pixels. */
  ghost function ClearOrder(m: seq<bool>, w: nat, h: nat): seq<int>
    requires |m| == w * h
  {
    PixelsWhere(m, w, h, true, w * h) + PixelsWhere(m, w, h, false, w * h)
  }

  /** The clear order lists every masked pixel once and nothing else, and no
      interior pixel comes before an edge pixel. */
  lemma ClearOrderSpec(m: seq<bool>, w: nat, h: nat)
    requires |m| == w * h
    ensures var order := ClearOrder(m, w, h);
      && (forall i :: 0 <= i < |order| ==> 0 <= order[i] < w * h && m[order[i]])
      && (forall p :: 0 <= p < w * h && m[p] ==> p in order)
      && Distinct(order)
      && (forall i, j :: 0 <= i < j < |order| && IsEdge(m, w, h, order[j]) ==> IsEdge(m, w, h, order[i]))
  {
    var edges, interior := PixelsWhere(m, w, h, true, w * h), PixelsWhere(m, w, h, false, w * h);
    var order := edges + interior;
    PixelsWhereKind(m, w, h, true);
    PixelsWhereKind(m, w, h, false);
    forall p | 0 <= p < w * h && m[p]
      ensures p in order
    {
      PixelsWhereMembers(m, w, h, true, w * h, p);
      PixelsWhereMembers(m, w, h, false, w * h, p);
    }
    PixelsWhereIncreasing(m, w, h, true, w * h);
    PixelsWhereIncreasing(m, w, h, false, w * h);
    forall i, j | 0 <= i < |edges| && 0 <= j < |interior|
      ensures edges[i] != interior[j]
    {
      assert IsEdge(m, w, h, edges[i]) && !IsEdge(m, w, h, interior[j]);
    }
    DisjointIncreasingDistinct(edges, interior);
  }

  /** Every entry of PixelsWhere is a masked pixel of the given kind. */
  lemma PixelsWhereKind(m: seq<bool>, w: nat, h: nat, edge: bool)
    requires |m| == w * h
    ensures forall i :: 0 <= i < |PixelsWhere(m, w, h, edge, w * h)| ==>
      && 0 <= PixelsWhere(m, w, h, edge, w * h)[i] < w * h
      && m[PixelsWhere(m, w, h, edge, w * h)[i]]
      && IsEdge(m, w, h, PixelsWhere(m, w, h, edge, w * h)[i]) == edge
  {
    var s := PixelsWhere(m, w, h, edge, w * h);
    forall i | 0 <= i < |s|
      ensures 0 <= s[i] < w * h && m[s[i]] && IsEdge(m, w, h, s[i]) == edge
    {
      PixelsWhereMembers(m, w, h, edge, w * h, s[i]);
    }
  }

  /** Two increasing sequences with no common entry concatenate to one
      without duplicates. */
  lemma DisjointIncreasingDistinct(a: seq<int>, b: seq<int>)
    requires forall i, j :: 0 <= i < j < |a| ==> a[i] < a[j]
    requires forall i, j :: 0 <= i < j < |b| ==> b[i] < b[j]
    requires forall i, j :: 0 <= i < |a| && 0 <= j < |b| ==> a[i] != b[j]
    ensures Distinct(a + b)
  {
    forall i, j | 0 <= i < j < |a + b|
      ensures (a + b)[i] != (a + b)[j]
    {
      if |a| <= i {
        assert (a + b)[i] == b[i - |a|] && (a + b)[j] == b[j - |a|];
      }
    }
  }

  /** IsEdge read at a coordinate. */
  lemma IsEdgeAt(m: seq<bool>, w: nat, h: nat, x: int, y: int)
    requires |m| == w * h && InBounds(w, h, x, y)
    ensures IsEdge(m, w, h, Idx(w, h, x, y)) == WindowHas(m, w, h, x, y, 1, false)
  {
    CoordsOfIdx(w, h, x, y);
  }

  /** The edge/interior split of rerun: scan the cleaned mask row by row and
      sort each masked pixel into edgePixels or interiorPixels by looking for a
      clear pixel among its neighbours; the result is edges, then interior. */
  method FinalClearOrder(mask: array<bool>, w: nat, h: nat) returns (order: seq<int>)
    requires mask.Length == w * h
    ensures order == ClearOrder(mask[..], w, h)
  {
    ghost var m := mask[..];
    var edgePixels, interiorPixels := [], [];
    var y, start := 0, 0;
    while y < h
      invariant 0 <= y <= h && start == y * w
      invariant edgePixels == PixelsWhere(m, w, h, true, start)
      invariant interiorPixels == PixelsWhere(m, w, h, false, start)
    {
      RowStep(w, h, y);
      edgePixels, interiorPixels := SplitRow(mask, w, h, y, edgePixels, interiorPixels);
      y, start := y + 1, start + w;
    }
    assert y == h;
    assert start == w * h by { MulComm(h, w); }
    assert edgePixels == PixelsWhere(m, w, h, true, w * h);
    assert interiorPixels == PixelsWhere(m, w, h, false, w * h);
    order := edgePixels + interiorPixels;
  }

  /** One row of the edge/interior scan. */
  method SplitRow(mask: array<bool>, w: nat, h: nat, y: nat, edges: seq<int>, interior: seq<int>)
    returns (edges': seq<int>, interior': seq<int>)
    requires mask.Length == w * h && y < h && y * w + w <= w * h
    requires edges == PixelsWhere(mask[..], w, h, true, y * w)
    requires interior == PixelsWhere(mask[..], w, h, false, y * w)
    ensures edges' == PixelsWhere(mask[..], w, h, true, y * w + w)
    ensures interior' == PixelsWhere(mask[..], w, h, false, y * w + w)
  {
    edges', interior' := edges, interior;
    var x := 0;
    while x < w
      invariant 0 <= x <= w
      invariant edges' == PixelsWhere(mask[..], w, h, true, y * w + x)
      invariant interior' == PixelsWhere(mask[..], w, h, false, y * w + x)
    {
      var p := Idx(w, h, x, y);
      if mask[p] {
        var isEdge := FindInWindow(mask, w, h, x, y, 1, false);
        IsEdgeAt(mask[..], w, h, x, y);
        if isEdge {
          edges' := edges' + [p];
        } else {
          interior' := interior' + [p];
        }
      }
      x := x + 1;
    }
  }

  /** The image buffer after the alpha byte of every pixel listed in order has
      been set to 0. */
  function Composited(data: seq<Byte>, order: seq<int>): (out: seq<Byte>)
    ensures |out| == |data|
  {
    seq(|data|, k requires 0 <= k < |data| => if k % 4 == 3 && k / 4 in order then 0 else data[k])
  }

  /** Compositing changes only the alpha bytes, and sets exactly those of the
      listed pixels to 0. */
  lemma CompositedPixel(data: seq<Byte>, order: seq<int>, p: int)
    requires 0 <= p && 4 * p + 3 < |data|
    ensures var out := Composited(data, order);
      && out[4 * p] == data[4 * p] && out[4 * p + 1] == data[4 * p + 1] && out[4 * p + 2] == data[4 * p + 2]
      && out[4 * p + 3] == if p in order then 0 else data[4 * p + 3]
  {
  }

  /** Listing one more pixel clears one more alpha byte, when it lies inside
      the buffer. */
  lemma CompositedStep(data: seq<Byte>, order: seq<int>, p: int)
    ensures Composited(data, order + [p])
         == if 0 <= p * 4 + 3 < |data| then Composited(data, order)[p * 4 + 3 := 0] else Composited(data, order)
  {
    var a, b := Composited(data, order + [p]), Composited(data, order);
    forall k | 0 <= k < |data|
      ensures a[k] == if 0 <= p * 4 + 3 < |data| then b[p * 4 + 3 := 0][k] else b[k]
    {
      assert (k % 4 == 3 && k / 4 == p) <==> k == p * 4 + 3;
    }
  }

  /** The compositing loop of rerun: data[p * 4 + 3] = 0 for every p in order.
      A typed-array store outside the buffer does nothing. */
  method ClearAlpha(data: array<Byte>, order: seq<int>)
    modifies data
    ensures data[..] == Composited(old(data[..]), order)
  {
    ghost var d0 := data[..];
    var i := 0;
    while i < |order|
      invariant 0 <= i <= |order|
      invariant data[..] == Composited(d0, order[..i])
    {
      var p := order[i];
      var aIndex := p * 4 + 3;
      CompositedStep(d0, order[..i], p);
      assert order[..i + 1] == order[..i] + [p];
      if 0 <= aIndex < data.Length {
        data[aIndex] := 0;
      }
      i := i + 1;
    }
    assert order[..|order|] == order;
  }

  /** The mask of removed pixels that rerun computes for slider percent aggr
      and feather amount featherAmount. */
  ghost function RemovedMask(data: seq<Byte>, w: nat, h: nat, aggr: Percent, featherAmount: int): (m: seq<bool>)
    requires |data| == 4 * (w * h)
    ensures |m| == w * h
  {
    var prm := DeriveParams(aggr);
    Feathered(Closing(FloodMask(data, w, h, prm, aggr), w, h, prm.morphologicalRadius), w, h, featherAmount)
  }

  /** rerun: on a fresh copy of the original image, flood-fill from the
      border, close the mask, feather it, order it edges first and clear the
      alpha of every listed pixel. The original is left unchanged. */
  method Rerun(original: array<Byte>, w: nat, h: nat, aggr: Percent, featherAmount: int) returns (out: array<Byte>)
    requires original.Length == 4 * (w * h)
    ensures fresh(out)
    ensures out[..] == Composited(original[..], ClearOrder(RemovedMask(original[..], w, h, aggr, featherAmount), w, h))
  {
    out := new Byte[original.Length](i requires 0 <= i < original.Length reads original => original[i]);
    assert out[..] == original[..];
    var prm := DeriveParams(aggr);
    var mask, clearOrder := FloodFillFromEdges(out, w, h, prm, aggr);
    var cleanedMask := MorphologicalClose(mask, w, h, prm.morphologicalRadius);
    Feather(cleanedMask, w, h, featherAmount);
    var finalClearOrder := FinalClearOrder(cleanedMask, w, h);
    ClearAlpha(out, finalClearOrder);
  }

  /** What rerun does to each pixel: its colour is kept, and its alpha becomes
      0 exactly when the pixel is in the removed mask. */
  lemma RerunPixel(data: seq<Byte>, w: nat, h: nat, aggr: Percent, featherAmount: int, p: int)
    requires |data| == 4 * (w * h) && 0 <= p < w * h
    ensures var m := RemovedMask(data, w, h, aggr, featherAmount);
      var out := Composited(data, ClearOrder(m, w, h));
      && out[4 * p] == data[4 * p] && out[4 * p + 1] == data[4 * p + 1] && out[4 * p + 2] == data[4 * p + 2]
      && out[4 * p + 3] == if m[p] then 0 else data[4 * p + 3]
  {
    var m := RemovedMask(data, w, h, aggr, featherAmount);
    ClearOrderSpec(m, w, h);
    CompositedPixel(data, ClearOrder(m, w, h), p);
  }

  /** Every pixel the flood fill reaches is removed: the closing (the radius
      is at least 1) and the feathering only add pixels. */
  lemma FloodPixelsRemoved(data: seq<Byte>, w: nat, h: nat, aggr: Percent, featherAmount: int, p: int)
    requires |data| == 4 * (w * h) && 0 <= p < w * h
    requires FloodMask(data, w, h, DeriveParams(aggr), aggr)[p]
    ensures RemovedMask(data, w, h, aggr, featherAmount)[p]
  {
    var prm := DeriveParams(aggr);
    var c := Closing(FloodMask(data, w, h, prm, aggr), w, h, prm.morphologicalRadius);
    ClosingExtensive(FloodMask(data, w, h, prm, aggr), w, h, prm.morphologicalRadius);
    assert c[p];
  }

  /** An image none of whose border pixels is classified as background comes
      out of rerun unchanged. */
  lemma NoBackgroundBorderUnchanged(data: seq<Byte>, w: nat, h: nat, aggr: Percent, featherAmount: int)
    requires |data| == 4 * (w * h)
    requires forall c :: OnBorder(w, h, c) ==> !PixelIsBackground(data, Idx(w, h, c.0, c.1), DeriveParams(aggr), aggr)
    ensures Composited(data, ClearOrder(RemovedMask(data, w, h, aggr, featherAmount), w, h)) == data
  {
    var prm := DeriveParams(aggr);
    var bg := BackgroundMap(data, w * h, prm, aggr);
    var flood := FloodMask(data, w, h, prm, aggr);
    forall p | 0 <= p < w * h
      ensures !flood[p]
    {
      assert !Reachable(bg, w, h, Col(w, h, p), Row(w, h, p));
    }
    var none := seq(w * h, _ => false);
    assert flood == none;
    EmptyStaysEmpty(w, h, prm.morphologicalRadius);
    EmptyStaysEmpty(w, h, featherAmount);
    var m := RemovedMask(data, w, h, aggr, featherAmount);
    assert m == none;
    var order := ClearOrder(m, w, h);
    ClearOrderSpec(m, w, h);
    assert order == [];
    assert Composited(data, []) == data;
  }

  /** Closing and feathering keep an empty mask empty. */
  lemma EmptyStaysEmpty(w: nat, h: nat, r: int)
    ensures var none := seq(w * h, _ => false);
      Dilation(none, w, h, r) == none && Erosion(none, w, h, r) == none
      && Closing(none, w, h, r) == none && Feathered(none, w, h, r) == none
  {
    var none := seq(w * h, _ => false);
    forall p | 0 <= p < w * h
      ensures !Dilation(none, w, h, r)[p]
    {
      assert !WindowHas(none, w, h, Col(w, h, p), Row(w, h, p), r, true);
    }
  }
}
