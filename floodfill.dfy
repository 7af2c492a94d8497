/** floodFillFromEdges: a breadth-first fill seeded from every border pixel
    that spreads over 8-connected neighbours classified as background. */
module FloodFill {
  import opened Grid
  import opened Seqs
  import opened Classify
  import opened Options

  /** The classification of pixel p of an RGBA buffer (alpha is ignored). */
  predicate PixelIsBackground(data: seq<Byte>, p: int, prm: Params, aggr: int)
    requires 0 <= p && 4 * p + 3 < |data|
  {
    IsBackgroundPixel(data[4 * p], data[4 * p + 1], data[4 * p + 2], prm, aggr)
  }

  /** The four channels of pixel p lie inside a buffer of n pixels. */
  lemma ChannelsInRange(p: int, n: nat)
    requires 0 <= p < n
    ensures 0 <= p * 4 && p * 4 + 3 < 4 * n
  {
  }

  /** The classification of every pixel of a buffer of n pixels. */
  function BackgroundMap(data: seq<Byte>, n: nat, prm: Params, aggr: int): (bg: seq<bool>)
    requires |data| == 4 * n
    ensures |bg| == n
  {
    seq(n, p requires 0 <= p < n => PixelIsBackground(data, p, prm, aggr))
  }

  /** The mask the fill is meant to produce: a pixel is set exactly when a
      path of background pixels leads to it from the border. */
  ghost function FloodMask(data: seq<Byte>, w: nat, h: nat, prm: Params, aggr: int): (m: seq<bool>)
    requires |data| == 4 * (w * h)
    ensures |m| == w * h
  {
    ReachMap(BackgroundMap(data, w * h, prm, aggr), w, h)
  }

  /** Every in-bounds 8-neighbour of c has been visited. */
  ghost predicate Expanded(v: seq<bool>, w: nat, h: nat, c: Coord)
    requires |v| == w * h
  {
    forall d :: Adjacent(c, d) && InBounds(w, h, d.0, d.1) ==> v[Idx(w, h, d.0, d.1)]
  }

  /** What holds of the fill's state between two calls of enqueue, for the
      classification bg and a closed grid r of allowed pixels: mask and visited
      agree with the classification, every masked pixel is allowed, clearOrder
      lists the masked pixels once each, the queue holds distinct masked
      pixels, and every masked pixel that has left the queue (except those in
      `open`, whose neighbours are being enqueued) has had its neighbours
      visited. */
  ghost predicate FillInvariant(bg: seq<bool>, r: seq<bool>, w: nat, h: nat, m: seq<bool>, v: seq<bool>,
                                queue: seq<Coord>, clearOrder: seq<int>, open: set<Coord>)
    requires |bg| == w * h && |r| == w * h && |m| == w * h && |v| == w * h
  {
    && (forall p :: 0 <= p < w * h && m[p] ==> v[p] && r[p])
    && (forall p :: 0 <= p < w * h && v[p] ==> m[p] == bg[p])
    && (forall p :: 0 <= p < w * h ==> (m[p] <==> p in clearOrder))
    && (forall i :: 0 <= i < |clearOrder| ==> 0 <= clearOrder[i] < w * h)
    && Distinct(clearOrder)
    && (forall i :: 0 <= i < |queue| ==> SetAt(m, w, h, queue[i]))
    && Distinct(queue)
    && (forall c :: SetAt(m, w, h, c) && c !in queue && c !in open ==> Expanded(v, w, h, c))
  }

  /** The all-false start state satisfies the invariant. */
  lemma InitialInvariant(bg: seq<bool>, r: seq<bool>, w: nat, h: nat, m: seq<bool>, v: seq<bool>)
    requires |bg| == w * h && |r| == w * h && |m| == w * h && |v| == w * h
    requires forall p :: 0 <= p < w * h ==> !m[p] && !v[p]
    ensures FillInvariant(bg, r, w, h, m, v, [], [], {})
  {
  }

  /** Visiting an unvisited non-background pixel only marks it visited. */
  lemma VisitForeground(bg: seq<bool>, r: seq<bool>, w: nat, h: nat, m: seq<bool>, v: seq<bool>,
                        queue: seq<Coord>, clearOrder: seq<int>, open: set<Coord>, p: int)
    requires |bg| == w * h && |r| == w * h && |m| == w * h && |v| == w * h
    requires FillInvariant(bg, r, w, h, m, v, queue, clearOrder, open)
    requires 0 <= p < w * h && !v[p] && !bg[p]
    ensures FillInvariant(bg, r, w, h, m, v[p := true], queue, clearOrder, open)
  {
    var v' := v[p := true];
    forall c | SetAt(m, w, h, c) && c !in queue && c !in open
      ensures Expanded(v', w, h, c)
    {
      assert Expanded(v, w, h, c);
    }
  }

  /** Visiting an unvisited background pixel that is on the border or next to
      a masked pixel masks it and appends it to the queue and to clearOrder. */
  lemma VisitBackground(bg: seq<bool>, r: seq<bool>, w: nat, h: nat, m: seq<bool>, v: seq<bool>,
                        queue: seq<Coord>, clearOrder: seq<int>, open: set<Coord>,
                        x: int, y: int, parent: Option<Coord>)
    requires |bg| == w * h && |r| == w * h && |m| == w * h && |v| == w * h
    requires Closed(bg, r, w, h)
    requires FillInvariant(bg, r, w, h, m, v, queue, clearOrder, open)
    requires InBounds(w, h, x, y) && !v[Idx(w, h, x, y)] && bg[Idx(w, h, x, y)]
    requires parent.None? ==> OnBorder(w, h, (x, y))
    requires parent.Some? ==> SetAt(m, w, h, parent.value) && Adjacent(parent.value, (x, y))
    ensures var p := Idx(w, h, x, y);
      FillInvariant(bg, r, w, h, m[p := true], v[p := true], queue + [(x, y)], clearOrder + [p], open)
  {
    var p := Idx(w, h, x, y);
    var m', v', queue', clearOrder' := m[p := true], v[p := true], queue + [(x, y)], clearOrder + [p];
    assert SetAt(bg, w, h, (x, y));
    if parent.Some? {
      assert SetAt(r, w, h, parent.value);
    }
    assert r[p];
    assert p !in clearOrder;
    forall i | 0 <= i < |queue|
      ensures queue[i] != (x, y)
    {
      assert SetAt(m, w, h, queue[i]);
    }
    forall c | SetAt(m', w, h, c) && c !in queue' && c !in open
      ensures Expanded(v', w, h, c)
    {
      if Idx(w, h, c.0, c.1) == p { IdxInjective(w, h, c.0, c.1, x, y); }
      assert SetAt(m, w, h, c);
      assert Expanded(v, w, h, c);
    }
    assert FillInvariant(bg, r, w, h, m', v', queue', clearOrder', open);
  }

  /** enqueue(x, y): ignore an out-of-range or already visited pixel; otherwise
      mark it visited and, when it is background, mask it and append it to the
      queue and to clearOrder. `parent` names the masked pixel whose neighbour
      (x, y) is, or is None for a border seed. */
  method Enqueue(data: array<Byte>, w: nat, h: nat, prm: Params, aggr: int,
                 mask: array<bool>, visited: array<bool>, queue: seq<Coord>, clearOrder: seq<int>,
                 x: int, y: int, ghost bg: seq<bool>, ghost r: seq<bool>,
                 ghost parent: Option<Coord>, ghost open: set<Coord>)
    returns (queue': seq<Coord>, clearOrder': seq<int>)
    requires data.Length == 4 * (w * h) && mask.Length == w * h && visited.Length == w * h && mask != visited
    requires bg == BackgroundMap(data[..], w * h, prm, aggr) && |r| == w * h && Closed(bg, r, w, h)
    requires FillInvariant(bg, r, w, h, mask[..], visited[..], queue, clearOrder, open)
    requires parent.None? ==> (InBounds(w, h, x, y) ==> OnBorder(w, h, (x, y)))
    requires parent.Some? ==> SetAt(mask[..], w, h, parent.value) && Adjacent(parent.value, (x, y))
    modifies mask, visited
    ensures FillInvariant(bg, r, w, h, mask[..], visited[..], queue', clearOrder', open)
    ensures InBounds(w, h, x, y) ==> visited[Idx(w, h, x, y)]
    ensures forall q :: 0 <= q < w * h && old(visited[q]) ==> visited[q]
    ensures if !InBounds(w, h, x, y) || old(visited[Idx(w, h, x, y)]) then
        && mask[..] == old(mask[..]) && visited[..] == old(visited[..])
        && queue' == queue && clearOrder' == clearOrder
      else
        var p := Idx(w, h, x, y);
        && visited[..] == old(visited[..])[p := true]
        && mask[..] == old(mask[..])[p := bg[p]]
        && queue' == (if bg[p] then queue + [(x, y)] else queue)
        && clearOrder' == (if bg[p] then clearOrder + [p] else clearOrder)
  {
    queue', clearOrder' := queue, clearOrder;
    if x < 0 || x >= w || y < 0 || y >= h {
      return;
    }
    var p := Idx(w, h, x, y);
    if visited[p] {
      return;
    }
    ghost var m0, v0 := mask[..], visited[..];
    visited[p] := true;
    var i := p * 4;
    ChannelsInRange(p, w * h);
    var red, green, blue := data[i], data[i + 1], data[i + 2];
    assert bg[p] == IsBackgroundPixel(red, green, blue, prm, aggr);
    if IsBackgroundPixel(red, green, blue, prm, aggr) {
      mask[p] := true;
      queue' := queue + [(x, y)];
      clearOrder' := clearOrder + [p];
      VisitBackground(bg, r, w, h, m0, v0, queue, clearOrder, open, x, y, parent);
      assert mask[..] == m0[p := true] && visited[..] == v0[p := true];
    } else {
      VisitForeground(bg, r, w, h, m0, v0, queue, clearOrder, open, p);
      assert m0[p := bg[p]] == m0;
      assert mask[..] == m0 && visited[..] == v0[p := true];
    }
  }

  /** Out of range, or in range and visited: what enqueue leaves behind. */
  predicate VisitedOrOut(v: seq<bool>, w: nat, h: nat, d: Coord)
    requires |v| == w * h
  {
    !InBounds(w, h, d.0, d.1) || v[Idx(w, h, d.0, d.1)]
  }

  /** The k-th of the eight neighbours that the fill loop enqueues, in the
      source's order: the row above, left and right, then the row below. */
  function NeighbourAt(c: Coord, k: int): (d: Coord)
    requires 0 <= k < 8
    ensures Adjacent(c, d)
  {
    var (x, y) := c;
    if k == 0 then (x - 1, y - 1) else if k == 1 then (x, y - 1) else if k == 2 then (x + 1, y - 1)
    else if k == 3 then (x - 1, y) else if k == 4 then (x + 1, y)
    else if k == 5 then (x - 1, y + 1) else if k == 6 then (x, y + 1) else (x + 1, y + 1)
  }

  /** The eight positions are all the 8-neighbours. */
  lemma NeighbourAtComplete(c: Coord, d: Coord)
    requires Adjacent(c, d)
    ensures exists k :: 0 <= k < 8 && NeighbourAt(c, k) == d
  {
    var dx, dy := d.0 - c.0, d.1 - c.1;
    var k := if dy == -1 then dx + 1 else if dy == 0 then (if dx == -1 then 3 else 4) else dx + 6;
    assert NeighbourAt(c, k) == d;
  }

  /** The first k neighbours of cur have been enqueued. */
  predicate NeighboursDone(v: seq<bool>, w: nat, h: nat, cur: Coord, k: int)
    requires |v| == w * h && 0 <= k <= 8
  {
    forall j :: 0 <= j < k ==> VisitedOrOut(v, w, h, NeighbourAt(cur, j))
  }

  /** Taking the head cur off the queue leaves cur open and masked. */
  lemma Dequeue(bg: seq<bool>, r: seq<bool>, w: nat, h: nat, m: seq<bool>, v: seq<bool>,
                queue: seq<Coord>, clearOrder: seq<int>)
    requires |bg| == w * h && |r| == w * h && |m| == w * h && |v| == w * h
    requires FillInvariant(bg, r, w, h, m, v, queue, clearOrder, {}) && |queue| > 0
    ensures FillInvariant(bg, r, w, h, m, v, queue[1..], clearOrder, {queue[0]})
    ensures SetAt(m, w, h, queue[0])
  {
    assert queue == [queue[0]] + queue[1..];
  }

  /** Once all eight neighbours of cur are visited, cur is no longer open. */
  lemma CloseExpanded(bg: seq<bool>, r: seq<bool>, w: nat, h: nat, m: seq<bool>, v: seq<bool>,
                      queue: seq<Coord>, clearOrder: seq<int>, cur: Coord)
    requires |bg| == w * h && |r| == w * h && |m| == w * h && |v| == w * h
    requires FillInvariant(bg, r, w, h, m, v, queue, clearOrder, {cur})
    requires NeighboursDone(v, w, h, cur, 8)
    ensures FillInvariant(bg, r, w, h, m, v, queue, clearOrder, {})
  {
    forall d | Adjacent(cur, d) && InBounds(w, h, d.0, d.1)
      ensures v[Idx(w, h, d.0, d.1)]
    {
      NeighbourAtComplete(cur, d);
    }
    assert Expanded(v, w, h, cur);
  }

  /** The body of the fill loop for the dequeued pixel cur: enqueue its eight
      neighbours (the row above, left and right, the row below), after which
      cur counts as expanded. */
  method EnqueueNeighbours(data: array<Byte>, w: nat, h: nat, prm: Params, aggr: int,
                           mask: array<bool>, visited: array<bool>, queue: seq<Coord>, clearOrder: seq<int>,
                           cur: Coord, ghost bg: seq<bool>, ghost r: seq<bool>)
    returns (queue': seq<Coord>, clearOrder': seq<int>)
    requires data.Length == 4 * (w * h) && mask.Length == w * h && visited.Length == w * h && mask != visited
    requires bg == BackgroundMap(data[..], w * h, prm, aggr) && |r| == w * h && Closed(bg, r, w, h)
    requires FillInvariant(bg, r, w, h, mask[..], visited[..], queue, clearOrder, {cur})
    requires SetAt(mask[..], w, h, cur)
    modifies mask, visited
    ensures FillInvariant(bg, r, w, h, mask[..], visited[..], queue', clearOrder', {})
    ensures |clearOrder'| - |clearOrder| == |queue'| - |queue|
    ensures forall q :: 0 <= q < w * h && old(visited[q]) ==> visited[q]
  {
    queue', clearOrder' := EnqueueRowAbove(data, w, h, prm, aggr, mask, visited, queue, clearOrder, cur, bg, r);
    queue', clearOrder' := EnqueueSides(data, w, h, prm, aggr, mask, visited, queue', clearOrder', cur, bg, r);
    queue', clearOrder' := EnqueueRowBelow(data, w, h, prm, aggr, mask, visited, queue', clearOrder', cur, bg, r);
    CloseExpanded(bg, r, w, h, mask[..], visited[..], queue', clearOrder', cur);
  }

  /** Neighbours 0 to 2: the row above, left to right. */
  method EnqueueRowAbove(data: array<Byte>, w: nat, h: nat, prm: Params, aggr: int,
                           mask: array<bool>, visited: array<bool>, queue: seq<Coord>, clearOrder: seq<int>,
                           cur: Coord, ghost bg: seq<bool>, ghost r: seq<bool>)
    returns (queue': seq<Coord>, clearOrder': seq<int>)
    requires data.Length == 4 * (w * h) && mask.Length == w * h && visited.Length == w * h && mask != visited
    requires bg == BackgroundMap(data[..], w * h, prm, aggr) && |r| == w * h && Closed(bg, r, w, h)
    requires FillInvariant(bg, r, w, h, mask[..], visited[..], queue, clearOrder, {cur})
    requires SetAt(mask[..], w, h, cur)
    requires NeighboursDone(visited[..], w, h, cur, 0)
    modifies mask, visited
    ensures FillInvariant(bg, r, w, h, mask[..], visited[..], queue', clearOrder', {cur})
    ensures SetAt(mask[..], w, h, cur) && NeighboursDone(visited[..], w, h, cur, 3)
    ensures |clearOrder'| - |clearOrder| == |queue'| - |queue|
    ensures forall q :: 0 <= q < w * h && old(visited[q]) ==> visited[q]
  {
    var x, y := cur.0, cur.1;
    queue', clearOrder' := queue, clearOrder;
    queue', clearOrder' := EnqueueStep(data, w, h, prm, aggr, mask, visited, queue', clearOrder', cur, x - 1, y - 1, bg, r, 0);
    queue', clearOrder' := EnqueueStep(data, w, h, prm, aggr, mask, visited, queue', clearOrder', cur, x, y - 1, bg, r, 1);
    queue', clearOrder' := EnqueueStep(data, w, h, prm, aggr, mask, visited, queue', clearOrder', cur, x + 1, y - 1, bg, r, 2);
  }

  /** Neighbours 3 and 4: left, then right. */
  method EnqueueSides(data: array<Byte>, w: nat, h: nat, prm: Params, aggr: int,
                           mask: array<bool>, visited: array<bool>, queue: seq<Coord>, clearOrder: seq<int>,
                           cur: Coord, ghost bg: seq<bool>, ghost r: seq<bool>)
    returns (queue': seq<Coord>, clearOrder': seq<int>)
    requires data.Length == 4 * (w * h) && mask.Length == w * h && visited.Length == w * h && mask != visited
    requires bg == BackgroundMap(data[..], w * h, prm, aggr) && |r| == w * h && Closed(bg, r, w, h)
    requires FillInvariant(bg, r, w, h, mask[..], visited[..], queue, clearOrder, {cur})
    requires SetAt(mask[..], w, h, cur)
    requires NeighboursDone(visited[..], w, h, cur, 3)
    modifies mask, visited
    ensures FillInvariant(bg, r, w, h, mask[..], visited[..], queue', clearOrder', {cur})
    ensures SetAt(mask[..], w, h, cur) && NeighboursDone(visited[..], w, h, cur, 5)
    ensures |clearOrder'| - |clearOrder| == |queue'| - |queue|
    ensures forall q :: 0 <= q < w * h && old(visited[q]) ==> visited[q]
  {
    var x, y := cur.0, cur.1;
    queue', clearOrder' := queue, clearOrder;
    queue', clearOrder' := EnqueueStep(data, w, h, prm, aggr, mask, visited, queue', clearOrder', cur, x - 1, y, bg, r, 3);
    queue', clearOrder' := EnqueueStep(data, w, h, prm, aggr, mask, visited, queue', clearOrder', cur, x + 1, y, bg, r, 4);
  }

  /** Neighbours 5 to 7: the row below, left to right. */
  method EnqueueRowBelow(data: array<Byte>, w: nat, h: nat, prm: Params, aggr: int,
                           mask: array<bool>, visited: array<bool>, queue: seq<Coord>, clearOrder: seq<int>,
                           cur: Coord, ghost bg: seq<bool>, ghost r: seq<bool>)
    returns (queue': seq<Coord>, clearOrder': seq<int>)
    requires data.Length == 4 * (w * h) && mask.Length == w * h && visited.Length == w * h && mask != visited
    requires bg == BackgroundMap(data[..], w * h, prm, aggr) && |r| == w * h && Closed(bg, r, w, h)
    requires FillInvariant(bg, r, w, h, mask[..], visited[..], queue, clearOrder, {cur})
    requires SetAt(mask[..], w, h, cur)
    requires NeighboursDone(visited[..], w, h, cur, 5)
    modifies mask, visited
    ensures FillInvariant(bg, r, w, h, mask[..], visited[..], queue', clearOrder', {cur})
    ensures SetAt(mask[..], w, h, cur) && NeighboursDone(visited[..], w, h, cur, 8)
    ensures |clearOrder'| - |clearOrder| == |queue'| - |queue|
    ensures forall q :: 0 <= q < w * h && old(visited[q]) ==> visited[q]
  {
    var x, y := cur.0, cur.1;
    queue', clearOrder' := queue, clearOrder;
    queue', clearOrder' := EnqueueStep(data, w, h, prm, aggr, mask, visited, queue', clearOrder', cur, x - 1, y + 1, bg, r, 5);
    queue', clearOrder' := EnqueueStep(data, w, h, prm, aggr, mask, visited, queue', clearOrder', cur, x, y + 1, bg, r, 6);
    queue', clearOrder' := EnqueueStep(data, w, h, prm, aggr, mask, visited, queue', clearOrder', cur, x + 1, y + 1, bg, r, 7);
  }

  /** One neighbour enqueue inside the fill loop, with the facts the loop body
      chains: cur stays masked and the first k neighbours, now with the k-th,
      (x, y), are visited or out of range. */
  method EnqueueStep(data: array<Byte>, w: nat, h: nat, prm: Params, aggr: int,
                     mask: array<bool>, visited: array<bool>, queue: seq<Coord>, clearOrder: seq<int>,
                     cur: Coord, x: int, y: int, ghost bg: seq<bool>, ghost r: seq<bool>, ghost k: int)
    returns (queue': seq<Coord>, clearOrder': seq<int>)
    requires data.Length == 4 * (w * h) && mask.Length == w * h && visited.Length == w * h && mask != visited
    requires bg == BackgroundMap(data[..], w * h, prm, aggr) && |r| == w * h && Closed(bg, r, w, h)
    requires FillInvariant(bg, r, w, h, mask[..], visited[..], queue, clearOrder, {cur})
    requires SetAt(mask[..], w, h, cur)
    requires 0 <= k < 8 && (x, y) == NeighbourAt(cur, k) && NeighboursDone(visited[..], w, h, cur, k)
    modifies mask, visited
    ensures FillInvariant(bg, r, w, h, mask[..], visited[..], queue', clearOrder', {cur})
    ensures SetAt(mask[..], w, h, cur) && NeighboursDone(visited[..], w, h, cur, k + 1)
    ensures |clearOrder'| - |clearOrder| == |queue'| - |queue|
    ensures forall q :: 0 <= q < w * h && old(visited[q]) ==> visited[q]
  {
    ghost var v0 := visited[..];
    queue', clearOrder' := Enqueue(data, w, h, prm, aggr, mask, visited, queue, clearOrder, x, y, bg, r, Some(cur), {cur});
    forall j | 0 <= j < k
      ensures VisitedOrOut(visited[..], w, h, NeighbourAt(cur, j))
    {
      assert VisitedOrOut(v0, w, h, NeighbourAt(cur, j));
    }
  }

  /** floodFillFromEdges: the mask holds exactly the pixels reachable from the
      border through background pixels, and clearOrder lists each masked index
      exactly once (so at most w * h of them). */
  method FloodFillFromEdges(data: array<Byte>, w: nat, h: nat, prm: Params, aggr: int)
    returns (mask: array<bool>, clearOrder: seq<int>)
    requires data.Length == 4 * (w * h)
    ensures fresh(mask) && mask.Length == w * h
    ensures mask[..] == FloodMask(data[..], w, h, prm, aggr)
    ensures Distinct(clearOrder) && |clearOrder| <= w * h
    ensures forall i :: 0 <= i < |clearOrder| ==> 0 <= clearOrder[i] < w * h && mask[clearOrder[i]]
    ensures forall p :: 0 <= p < w * h && mask[p] ==> p in clearOrder
  {
    ghost var bg := BackgroundMap(data[..], w * h, prm, aggr);
    ghost var r := ReachMap(bg, w, h);
    ReachMapClosed(bg, w, h);
    mask := new bool[w * h](_ => false);
    var visited := new bool[w * h](_ => false);
    var queue: seq<Coord>;
    InitialInvariant(bg, r, w, h, mask[..], visited[..]);
    queue, clearOrder := SeedRows(data, w, h, prm, aggr, mask, visited, bg, r);
    queue, clearOrder := SeedColumns(data, w, h, prm, aggr, mask, visited, queue, clearOrder, bg, r);
    clearOrder := ExpandQueue(data, w, h, prm, aggr, mask, visited, queue, clearOrder, bg, r);
    FloodMaskExact(bg, r, w, h, mask[..], visited[..], clearOrder);
    DistinctBounded(clearOrder, w * h);
  }

  /** One border enqueue inside the seeding loops, with the facts they chain. */
  method SeedStep(data: array<Byte>, w: nat, h: nat, prm: Params, aggr: int,
                  mask: array<bool>, visited: array<bool>, queue: seq<Coord>, clearOrder: seq<int>,
                  x: int, y: int, ghost bg: seq<bool>, ghost r: seq<bool>)
    returns (queue': seq<Coord>, clearOrder': seq<int>)
    requires data.Length == 4 * (w * h) && mask.Length == w * h && visited.Length == w * h && mask != visited
    requires bg == BackgroundMap(data[..], w * h, prm, aggr) && |r| == w * h && Closed(bg, r, w, h)
    requires FillInvariant(bg, r, w, h, mask[..], visited[..], queue, clearOrder, {})
    requires InBounds(w, h, x, y) ==> OnBorder(w, h, (x, y))
    modifies mask, visited
    ensures FillInvariant(bg, r, w, h, mask[..], visited[..], queue', clearOrder', {})
    ensures InBounds(w, h, x, y) ==> visited[Idx(w, h, x, y)]
    ensures forall q :: 0 <= q < w * h && old(visited[q]) ==> visited[q]
    ensures |clearOrder'| - |clearOrder| == |queue'| - |queue|
  {
    queue', clearOrder' := Enqueue(data, w, h, prm, aggr, mask, visited, queue, clearOrder, x, y, bg, r, None, {});
  }

  /** The first seeding loop: enqueue every pixel of the first and last row. */
  method SeedRows(data: array<Byte>, w: nat, h: nat, prm: Params, aggr: int,
                  mask: array<bool>, visited: array<bool>, ghost bg: seq<bool>, ghost r: seq<bool>)
    returns (queue: seq<Coord>, clearOrder: seq<int>)
    requires data.Length == 4 * (w * h) && mask.Length == w * h && visited.Length == w * h && mask != visited
    requires bg == BackgroundMap(data[..], w * h, prm, aggr) && |r| == w * h && Closed(bg, r, w, h)
    requires FillInvariant(bg, r, w, h, mask[..], visited[..], [], [], {})
    modifies mask, visited
    ensures FillInvariant(bg, r, w, h, mask[..], visited[..], queue, clearOrder, {})
    ensures |queue| == |clearOrder|
    ensures forall c :: OnBorder(w, h, c) && (c.1 == 0 || c.1 == h - 1) ==> visited[Idx(w, h, c.0, c.1)]
  {
    queue, clearOrder := [], [];
    var x := 0;
    while x < w
      invariant 0 <= x <= w
      invariant FillInvariant(bg, r, w, h, mask[..], visited[..], queue, clearOrder, {})
      invariant |queue| == |clearOrder|
      invariant forall c :: OnBorder(w, h, c) && (c.1 == 0 || c.1 == h - 1) && c.0 < x ==> visited[Idx(w, h, c.0, c.1)]
    {
      queue, clearOrder := SeedStep(data, w, h, prm, aggr, mask, visited, queue, clearOrder, x, 0, bg, r);
      queue, clearOrder := SeedStep(data, w, h, prm, aggr, mask, visited, queue, clearOrder, x, h - 1, bg, r);
      x := x + 1;
    }
  }

  /** The second seeding loop: enqueue every pixel of the first and last
      column, after which the whole border is visited. */
  method SeedColumns(data: array<Byte>, w: nat, h: nat, prm: Params, aggr: int,
                     mask: array<bool>, visited: array<bool>, queue: seq<Coord>, clearOrder: seq<int>,
                     ghost bg: seq<bool>, ghost r: seq<bool>)
    returns (queue': seq<Coord>, clearOrder': seq<int>)
    requires data.Length == 4 * (w * h) && mask.Length == w * h && visited.Length == w * h && mask != visited
    requires bg == BackgroundMap(data[..], w * h, prm, aggr) && |r| == w * h && Closed(bg, r, w, h)
    requires FillInvariant(bg, r, w, h, mask[..], visited[..], queue, clearOrder, {})
    requires |queue| == |clearOrder|
    requires forall c :: OnBorder(w, h, c) && (c.1 == 0 || c.1 == h - 1) ==> visited[Idx(w, h, c.0, c.1)]
    modifies mask, visited
    ensures FillInvariant(bg, r, w, h, mask[..], visited[..], queue', clearOrder', {})
    ensures |queue'| == |clearOrder'|
    ensures forall c :: OnBorder(w, h, c) ==> visited[Idx(w, h, c.0, c.1)]
  {
    queue', clearOrder' := queue, clearOrder;
    var y := 0;
    while y < h
      invariant 0 <= y <= h
      invariant FillInvariant(bg, r, w, h, mask[..], visited[..], queue', clearOrder', {})
      invariant |queue'| == |clearOrder'|
      invariant forall c :: OnBorder(w, h, c) && (c.1 == 0 || c.1 == h - 1) ==> visited[Idx(w, h, c.0, c.1)]
      invariant forall c :: OnBorder(w, h, c) && (c.0 == 0 || c.0 == w - 1) && c.1 < y ==> visited[Idx(w, h, c.0, c.1)]
    {
      queue', clearOrder' := SeedStep(data, w, h, prm, aggr, mask, visited, queue', clearOrder', 0, y, bg, r);
      queue', clearOrder' := SeedStep(data, w, h, prm, aggr, mask, visited, queue', clearOrder', w - 1, y, bg, r);
      y := y + 1;
    }
  }

  /** The breadth-first loop of floodFillFromEdges; every dequeue removes one
      entry of clearOrder from the queue, which bounds the iterations by w * h. */
  method ExpandQueue(data: array<Byte>, w: nat, h: nat, prm: Params, aggr: int,
                     mask: array<bool>, visited: array<bool>, queue: seq<Coord>, clearOrder: seq<int>,
                     ghost bg: seq<bool>, ghost r: seq<bool>)
    returns (clearOrder': seq<int>)
    requires data.Length == 4 * (w * h) && mask.Length == w * h && visited.Length == w * h && mask != visited
    requires bg == BackgroundMap(data[..], w * h, prm, aggr) && |r| == w * h && Closed(bg, r, w, h)
    requires FillInvariant(bg, r, w, h, mask[..], visited[..], queue, clearOrder, {})
    requires |queue| == |clearOrder|
    requires forall c :: OnBorder(w, h, c) ==> visited[Idx(w, h, c.0, c.1)]
    modifies mask, visited
    ensures FillInvariant(bg, r, w, h, mask[..], visited[..], [], clearOrder', {})
    ensures forall c :: OnBorder(w, h, c) ==> visited[Idx(w, h, c.0, c.1)]
  {
    var q := queue;
    clearOrder' := clearOrder;
    ghost var dequeued := 0;
    DistinctBounded(clearOrder', w * h);
    while |q| > 0
      invariant FillInvariant(bg, r, w, h, mask[..], visited[..], q, clearOrder', {})
      invariant forall c :: OnBorder(w, h, c) ==> visited[Idx(w, h, c.0, c.1)]
      invariant dequeued + |q| == |clearOrder'| <= w * h
      decreases w * h - dequeued
    {
      var cur := q[0];
      Dequeue(bg, r, w, h, mask[..], visited[..], q, clearOrder');
      q := q[1..];
      dequeued := dequeued + 1;
      q, clearOrder' := EnqueueNeighbours(data, w, h, prm, aggr, mask, visited, q, clearOrder', cur, bg, r);
      DistinctBounded(clearOrder', w * h);
    }
  }

  /** Once the queue is empty and the border is visited, the mask is closed,
      and so, lying inside the reachable pixels, equals them. */
  lemma FloodMaskExact(bg: seq<bool>, r: seq<bool>, w: nat, h: nat, m: seq<bool>, v: seq<bool>, clearOrder: seq<int>)
    requires |bg| == w * h && r == ReachMap(bg, w, h) && |m| == w * h && |v| == w * h
    requires FillInvariant(bg, r, w, h, m, v, [], clearOrder, {})
    requires forall c :: OnBorder(w, h, c) ==> v[Idx(w, h, c.0, c.1)]
    ensures m == r
  {
    assert Closed(bg, m, w, h) by {
      forall a, b | SetAt(m, w, h, a) && Adjacent(a, b) && SetAt(bg, w, h, b)
        ensures SetAt(m, w, h, b)
      {
        assert Expanded(v, w, h, a);
      }
    }
    forall p | 0 <= p < w * h && r[p]
      ensures m[p]
    {
      ClosedContainsReachable(bg, m, w, h, Col(w, h, p), Row(w, h, p));
    }
  }
}
