/** The palette matcher: the index of the palette colour nearest a target colour by
    squared RGB distance, found four candidates at a time in four lanes, the lanes
    reduced, and the remaining colours scanned one by one. */
module PaletteMatch {
  import opened CellTypes

  /** The starting value of every lane's minimum (0x7FFFFFFF, the largest gint32). */
  const Sentinel: int := 0x7FFF_FFFF

  /** Squared RGB distance of a palette colour from the target; alpha plays no part. */
  function Dist(target: Color, c: Color): (d: nat)
    ensures d <= 3 * 255 * 255
    ensures d == 0 <==> c.r == target.r && c.g == target.g && c.b == target.b
  {
    SquareAtMost(c.r - target.r, 255);
    SquareAtMost(c.g - target.g, 255);
    SquareAtMost(c.b - target.b, 255);
    Square(c.r - target.r) + Square(c.g - target.g) + Square(c.b - target.b)
  }

  /** The distance of every palette colour, by index. */
  function Dists(target: Color, palette: seq<Color>): (ds: seq<int>)
    ensures |ds| == |palette|
    ensures forall k :: 0 <= k < |ds| ==> 0 <= ds[k] < Sentinel
  {
    if |palette| == 0 then []
    else Dists(target, palette[..|palette| - 1]) + [Dist(target, palette[|palette| - 1])]
  }

  /** Entry k of Dists is the distance of palette[k]. */
  lemma {:induction false} DistsAt(target: Color, palette: seq<Color>, k: int)
    requires 0 <= k < |palette|
    ensures Dists(target, palette)[k] == Dist(target, palette[k])
  {
    var n := |palette| - 1;
    if k < n {
      DistsAt(target, palette[..n], k);
    }
  }

  /** The number of colours the four-lane loop covers: n rounded down to a multiple of 4. */
  function Grouped(n: int): (g: int)
    ensures n <= 0 ==> g == 0
    ensures n > 0 ==> 0 <= g <= n < g + 4 && g % 4 == 0
  {
    if n <= 0 then 0 else n - n % 4
  }

  /** Among equally near colours the kernel prefers index a to index k when: a was seen
      by the lanes (a < g) and k was not, or both were and a's lane comes first, or they
      share a lane and a is the lower index; among colours past the lanes, the lower index. */
  predicate TieOrder(a: int, k: int, g: int)
  {
    if a < g then k >= g || a % 4 < k % 4 || (a % 4 == k % 4 && a <= k)
    else k >= g && a <= k
  }

  /** best is the index the kernel prefers among the first limit distances ds: the
      nearest, and first in TieOrder among the equally near. */
  ghost predicate Preferred(ds: seq<int>, g: int, limit: int, best: int)
    requires limit <= |ds|
  {
    0 <= best < limit &&
    forall k :: 0 <= k < limit ==> ds[best] <= ds[k] && (ds[k] == ds[best] ==> TieOrder(best, k, g))
  }

  /** What chafa_color_diff_4x_wasm_simd returns for n colours: 0 when n <= 0, otherwise
      the preferred nearest colour among the first n. */
  ghost predicate LaneNearest(target: Color, palette: seq<Color>, n: int, best: int)
    requires n <= |palette|
  {
    if n <= 0 then best == 0 else Preferred(Dists(target, palette), Grouped(n), n, best)
  }

  /** State of lane j once the four-lane loop has covered the first i distances: the
      sentinel before the first group; afterwards the nearest of the lane's colours, the
      first of them on a tie. */
  ghost predicate LaneInv(ds: seq<int>, i: int, j: int, md: int, mi: int)
    requires 0 <= i <= |ds|
  {
    if i == 0 then md == Sentinel && mi == 0
    else
      0 <= mi < i && mi % 4 == j && md == ds[mi] &&
      forall k :: 0 <= k < i && k % 4 == j ==> md <= ds[k] && (k < mi ==> md < ds[k])
  }

  /** The only index of lane j in the group starting at i is i + j. */
  lemma LaneOfGroup(i: int, j: int, k: int)
    requires i % 4 == 0 && 0 <= j < 4 && i <= k < i + 4 && k % 4 == j
    ensures k == i + j
  {
    assert k == 4 * (i / 4) + (k - i);
  }

  /** One group of four updates lane j as the compare-and-bitselect does. */
  lemma LaneStep(ds: seq<int>, i: int, j: int, md: int, mi: int)
    requires 0 <= i && i + 4 <= |ds| && i % 4 == 0 && 0 <= j < 4
    requires forall k :: 0 <= k < |ds| ==> 0 <= ds[k] < Sentinel
    requires LaneInv(ds, i, j, md, mi)
    ensures LaneInv(ds, i + 4, j, if ds[i + j] < md then ds[i + j] else md,
                    if ds[i + j] < md then i + j else mi)
  {
    forall k | i <= k < i + 4 && k % 4 == j
      ensures k == i + j
    {
      LaneOfGroup(i, j, k);
    }
    assert (i + j) % 4 == j by {
      assert i + j == 4 * (i / 4) + j;
    }
  }

  /** All four lanes in their LaneInv state. */
  ghost predicate LanesInv(ds: seq<int>, i: int, minDist: seq<int>, minIdx: seq<int>)
    requires 0 <= i <= |ds|
  {
    |minDist| == 4 && |minIdx| == 4 &&
    forall j :: 0 <= j < 4 ==> LaneInv(ds, i, j, minDist[j], minIdx[j])
  }

  /** Lane-wise signed less-than of two four-lane vectors (wasm_i32x4_lt). */
  function LessMask(x: seq<int>, y: seq<int>): (m: seq<bool>)
    requires |x| == 4 && |y| == 4
    ensures |m| == 4 && forall t :: 0 <= t < 4 ==> (m[t] <==> x[t] < y[t])
  {
    [x[0] < y[0], x[1] < y[1], x[2] < y[2], x[3] < y[3]]
  }

  /** Lane-wise choice between two four-lane vectors under an all-or-nothing mask
      (wasm_v128_bitselect with a comparison result as mask). */
  function Blend(x: seq<int>, y: seq<int>, m: seq<bool>): (r: seq<int>)
    requires |x| == 4 && |y| == 4 && |m| == 4
    ensures |r| == 4 && forall t :: 0 <= t < 4 ==> r[t] == if m[t] then x[t] else y[t]
  {
    [if m[0] then x[0] else y[0], if m[1] then x[1] else y[1],
     if m[2] then x[2] else y[2], if m[3] then x[3] else y[3]]
  }

  /** One group of four updates all lanes. */
  lemma LanesStep(ds: seq<int>, i: int, minDist: seq<int>, minIdx: seq<int>, dists: seq<int>)
    requires 0 <= i && i + 4 <= |ds| && i % 4 == 0
    requires forall k :: 0 <= k < |ds| ==> 0 <= ds[k] < Sentinel
    requires LanesInv(ds, i, minDist, minIdx)
    requires |dists| == 4 && forall t :: 0 <= t < 4 ==> dists[t] == ds[i + t]
    ensures var mask := LessMask(dists, minDist);
            LanesInv(ds, i + 4, Blend(dists, minDist, mask), Blend([i, i + 1, i + 2, i + 3], minIdx, mask))
  {
    var mask := LessMask(dists, minDist);
    var nd, ni := Blend(dists, minDist, mask), Blend([i, i + 1, i + 2, i + 3], minIdx, mask);
    forall j | 0 <= j < 4
      ensures LaneInv(ds, i + 4, j, nd[j], ni[j])
    {
      LaneStep(ds, i, j, minDist[j], minIdx[j]);
    }
  }

  /** After reducing lanes 0 .. lanes - 1 the running best is bi at distance bd: the
      nearest of those lanes' colours, first in TieOrder(_, _, h) on a tie; with no full
      group every lane still holds the sentinel and index 0. The kernel reduces with
      h = g (lane order decides ties); h = 0 is plain index order. */
  ghost predicate Reduced(ds: seq<int>, g: int, h: int, lanes: int, bi: int, bd: int)
    requires 0 <= g <= |ds|
  {
    if g == 0 then bi == 0 && bd == Sentinel
    else
      0 <= bi < g && bi % 4 < lanes && bd == ds[bi] &&
      forall k :: 0 <= k < g && k % 4 < lanes ==> bd <= ds[k] && (ds[k] == bd ==> TieOrder(bi, k, h))
  }

  /** Lane 0 alone is the reduction over one lane, in either tie order. */
  lemma ReduceFirstLane(ds: seq<int>, g: int, h: int, md: int, mi: int)
    requires 0 <= g <= |ds| && (h == g || h == 0)
    requires LaneInv(ds, g, 0, md, mi)
    ensures Reduced(ds, g, h, 1, mi, md)
  {
  }

  /** Folding lane L into the reduction with a strict comparison keeps the earlier lane
      on a tie. */
  lemma ReduceLane(ds: seq<int>, g: int, lanes: int, bi: int, bd: int, md: int, mi: int)
    requires 0 <= g <= |ds| && 1 <= lanes < 4
    requires Reduced(ds, g, g, lanes, bi, bd)
    requires LaneInv(ds, g, lanes, md, mi)
    ensures Reduced(ds, g, g, lanes + 1, if md < bd then mi else bi, if md < bd then md else bd)
  {
  }

  /** The lower-index reduction step: lane L replaces the best when strictly nearer, or
      equally near at a lower index. */
  ghost predicate TakesLane(md: int, mi: int, bd: int, bi: int)
  {
    md < bd || (md == bd && mi < bi)
  }

  /** Folding lane L into the reduction with TakesLane keeps the lowest index on a tie. */
  lemma ReduceLaneFirst(ds: seq<int>, g: int, lanes: int, bi: int, bd: int, md: int, mi: int)
    requires 0 <= g <= |ds| && 1 <= lanes < 4
    requires Reduced(ds, g, 0, lanes, bi, bd)
    requires LaneInv(ds, g, lanes, md, mi)
    ensures Reduced(ds, g, 0, lanes + 1, if TakesLane(md, mi, bd, bi) then mi else bi,
                    if TakesLane(md, mi, bd, bi) then md else bd)
  {
  }

  /** State of the tail scan over the first i distances: the preferred index so far at
      its distance, in TieOrder(_, _, g), or index 0 and the sentinel before any colour
      was seen. */
  ghost predicate Scanned(ds: seq<int>, g: int, i: int, bi: int, bd: int)
    requires 0 <= i <= |ds|
  {
    if i == 0 then bi == 0 && bd == Sentinel
    else Preferred(ds, g, i, bi) && bd == ds[bi]
  }

  /** All four lanes reduced is the preferred colour of the lanes' whole range. */
  lemma ReducedAllLanes(ds: seq<int>, g: int, h: int, bi: int, bd: int)
    requires 0 <= g <= |ds|
    requires Reduced(ds, g, h, 4, bi, bd)
    ensures Scanned(ds, h, g, bi, bd)
  {
  }

  /** The tail loop's step: a colour past the lanes replaces the best only when strictly
      nearer. */
  lemma TailStep(ds: seq<int>, g: int, i: int, bi: int, bd: int)
    requires 0 <= g <= i < |ds|
    requires ds[i] < Sentinel
    requires Scanned(ds, g, i, bi, bd)
    ensures Scanned(ds, g, i + 1, if ds[i] < bd then i else bi, if ds[i] < bd then ds[i] else bd)
  {
  }

  /** The squared RGB distance of palette[k] from the target, computed as the kernel
      does: three channel differences, palette minus target, squared and summed. */
  method PaletteDist(target: Color, palette: seq<Color>, k: int, ghost ds: seq<int>) returns (dist: int)
    requires 0 <= k < |palette| && ds == Dists(target, palette)
    ensures dist == ds[k]
  {
    DistsAt(target, palette, k);
    var dr := palette[k].r - target.r;
    var dg := palette[k].g - target.g;
    var db := palette[k].b - target.b;
    dist := dr * dr + dg * dg + db * db;
  }

  /** The inner loop of one group: the distances of palette[i .. i + 4] into a local
      array of four. */
  method GroupDists(target: Color, palette: seq<Color>, i: int, ghost ds: seq<int>) returns (dists: array<int>)
    requires 0 <= i && i + 4 <= |palette| && ds == Dists(target, palette)
    ensures fresh(dists) && dists.Length == 4
    ensures forall t :: 0 <= t < 4 ==> dists[t] == ds[i + t]
  {
    dists := new int[4];
    var j := 0;
    while j < 4
      invariant 0 <= j <= 4
      invariant forall t :: 0 <= t < j ==> dists[t] == ds[i + t]
    {
      dists[j] := PaletteDist(target, palette, i + j, ds);
      j := j + 1;
    }
  }

  /** The four-lane loop (lines 228-254 of the kernel): lane j keeps the nearest of
      the colours i + j seen so far, replacing it only when strictly nearer. */
  method LaneMinima(target: Color, palette: seq<Color>, n: int, ghost ds: seq<int>)
    returns (minDist: seq<int>, minIdx: seq<int>, i: int)
    requires n <= |palette| && ds == Dists(target, palette)
    ensures i == Grouped(n) && i % 4 == 0
    ensures LanesInv(ds, i, minDist, minIdx)
  {
    minDist := [Sentinel, Sentinel, Sentinel, Sentinel];
    minIdx := [0, 0, 0, 0];
    i := 0;
    while i + 4 <= n
      invariant 0 <= i && i % 4 == 0 && (i == 0 || i <= n)
      invariant LanesInv(ds, i, minDist, minIdx)
    {
      var dists := GroupDists(target, palette, i, ds);
      var mask := LessMask(dists[..], minDist);
      LanesStep(ds, i, minDist, minIdx, dists[..]);
      minDist := Blend(dists[..], minDist, mask);
      minIdx := Blend([i, i + 1, i + 2, i + 3], minIdx, mask);
      assert (i + 4) % 4 == 0;
      i := i + 4;
    }
  }

  /** The reduction of the four lanes (lines 257-272 of the kernel): lane 0 first, then
      each later lane replaces the best only when strictly nearer. */
  method ReduceLanes(minDist: seq<int>, minIdx: seq<int>, ghost ds: seq<int>, ghost g: int)
    returns (bestIdx: int, bestDist: int)
    requires 0 <= g <= |ds| && g % 4 == 0
    requires LanesInv(ds, g, minDist, minIdx)
    ensures Scanned(ds, g, g, bestIdx, bestDist)
  {
    bestIdx := minIdx[0];
    bestDist := minDist[0];
    ReduceFirstLane(ds, g, g, bestDist, bestIdx);
    ReduceLane(ds, g, 1, bestIdx, bestDist, minDist[1], minIdx[1]);
    if minDist[1] < bestDist {
      bestDist := minDist[1];
      bestIdx := minIdx[1];
    }
    ReduceLane(ds, g, 2, bestIdx, bestDist, minDist[2], minIdx[2]);
    if minDist[2] < bestDist {
      bestDist := minDist[2];
      bestIdx := minIdx[2];
    }
    ReduceLane(ds, g, 3, bestIdx, bestDist, minDist[3], minIdx[3]);
    if minDist[3] < bestDist {
      bestDist := minDist[3];
      bestIdx := minIdx[3];
    }
    ReducedAllLanes(ds, g, g, bestIdx, bestDist);
  }

  /** The lane reduction with ties going to the lower palette index. */
  method ReduceLanesFirst(minDist: seq<int>, minIdx: seq<int>, ghost ds: seq<int>, ghost g: int)
    returns (bestIdx: int, bestDist: int)
    requires 0 <= g <= |ds| && g % 4 == 0
    requires LanesInv(ds, g, minDist, minIdx)
    ensures Scanned(ds, 0, g, bestIdx, bestDist)
  {
    bestIdx := minIdx[0];
    bestDist := minDist[0];
    ReduceFirstLane(ds, g, 0, bestDist, bestIdx);
    ReduceLaneFirst(ds, g, 1, bestIdx, bestDist, minDist[1], minIdx[1]);
    if minDist[1] < bestDist || (minDist[1] == bestDist && minIdx[1] < bestIdx) {
      bestDist := minDist[1];
      bestIdx := minIdx[1];
    }
    ReduceLaneFirst(ds, g, 2, bestIdx, bestDist, minDist[2], minIdx[2]);
    if minDist[2] < bestDist || (minDist[2] == bestDist && minIdx[2] < bestIdx) {
      bestDist := minDist[2];
      bestIdx := minIdx[2];
    }
    ReduceLaneFirst(ds, g, 3, bestIdx, bestDist, minDist[3], minIdx[3]);
    if minDist[3] < bestDist || (minDist[3] == bestDist && minIdx[3] < bestIdx) {
      bestDist := minDist[3];
      bestIdx := minIdx[3];
    }
    ReducedAllLanes(ds, g, 0, bestIdx, bestDist);
  }

  /** The tail loop (lines 275-287 of the kernel): the colours from i to n - 1, one by
      one, each replacing the best only when strictly nearer. */
  method ScanTail(target: Color, palette: seq<Color>, n: int, i: int, bestIdx: int, bestDist: int,
                  ghost ds: seq<int>, ghost g: int)
    returns (best: int)
    requires n <= |palette| && ds == Dists(target, palette)
    requires 0 <= g <= i && (i == 0 || i <= n)
    requires Scanned(ds, g, i, bestIdx, bestDist)
    ensures if n <= 0 then best == 0 else Preferred(ds, g, n, best)
  {
    var j, bi, bd := i, bestIdx, bestDist;
    while j < n
      invariant g <= j && (j == i || j <= n)
      invariant Scanned(ds, g, j, bi, bd)
    {
      var dist := PaletteDist(target, palette, j, ds);
      TailStep(ds, g, j, bi, bd);
      if dist < bd {
        bd := dist;
        bi := j;
      }
      j := j + 1;
    }
    best := bi;
  }

  /** chafa_color_diff_4x_wasm_simd: the index of the palette colour nearest the target
      among the first n. Four lanes keep their own minimum over indices i + j; the lanes
      are reduced in order; the colours past the last full group are scanned last. */
  method ColorDiff4x(target: Color, palette: seq<Color>, n: int) returns (best: int)
    requires n <= |palette|
    ensures LaneNearest(target, palette, n, best)
  {
    ghost var ds := Dists(target, palette);
    var minDist, minIdx, i := LaneMinima(target, palette, n, ds);
    var bestIdx, bestDist := ReduceLanes(minDist, minIdx, ds, i);
    best := ScanTail(target, palette, n, i, bestIdx, bestDist, ds, i);
  }

  /** The first nearest colour among the first n: no colour is nearer, and every
      equally near one comes later; 0 when n <= 0. */
  ghost predicate FirstNearest(target: Color, palette: seq<Color>, n: int, best: int)
    requires n <= |palette|
  {
    if n <= 0 then best == 0
    else
      var ds := Dists(target, palette);
      0 <= best < n && forall k :: 0 <= k < n ==> ds[best] <= ds[k] && (ds[k] == ds[best] ==> best <= k)
  }

  /** The kernel with the lane reduction breaking ties by the lower palette index: the
      same lanes and tail scan, and the first nearest colour as its result. */
  method ColorDiff4xFirst(target: Color, palette: seq<Color>, n: int) returns (best: int)
    requires n <= |palette|
    ensures FirstNearest(target, palette, n, best)
  {
    ghost var ds := Dists(target, palette);
    var minDist, minIdx, i := LaneMinima(target, palette, n, ds);
    var bestIdx, bestDist := ReduceLanesFirst(minDist, minIdx, ds, i);
    best := ScanTail(target, palette, n, i, bestIdx, bestDist, ds, 0);
  }

  /** Two indices each first in TieOrder before the other are the same index. */
  lemma TieOrderAntisymmetric(a: int, k: int, g: int)
    requires TieOrder(a, k, g) && TieOrder(k, a, g)
    ensures a == k
  {
    if a < g && k < g {
      assert a % 4 == k % 4 && a <= k && k <= a;
    }
  }

  /** The kernel's result is determined: at most one index satisfies LaneNearest. */
  lemma LaneNearestUnique(target: Color, palette: seq<Color>, n: int, b1: int, b2: int)
    requires n <= |palette|
    requires LaneNearest(target, palette, n, b1) && LaneNearest(target, palette, n, b2)
    ensures b1 == b2
  {
    if n > 0 {
      TieOrderAntisymmetric(b1, b2, Grouped(n));
    }
  }

  /** The kernel's colour is always as near as the first nearest colour. */
  lemma LaneNearestAsNear(target: Color, palette: seq<Color>, n: int, b: int, f: int)
    requires 0 < n <= |palette|
    requires LaneNearest(target, palette, n, b) && FirstNearest(target, palette, n, f)
    ensures Dist(target, palette[b]) == Dist(target, palette[f])
  {
    DistsAt(target, palette, b);
    DistsAt(target, palette, f);
  }

  /** Below four colours no lane is filled and the kernel returns the first nearest. */
  lemma SmallPaletteFirst(target: Color, palette: seq<Color>, n: int, b: int)
    requires n < 4 && n <= |palette|
    requires LaneNearest(target, palette, n, b)
    ensures FirstNearest(target, palette, n, b)
  {
  }

  /** A black target against the palette white, black, white, white, black, white,
      white, white: colours 1 and 4 are exact matches, lane 0 holds 4 and lane 1 holds
      1, and the reduction keeps lane 0 on the tie, so the kernel returns 4 where the
      first nearest colour is 1. */
  lemma LaneTieCounterexample(target: Color, palette: seq<Color>, n: int)
    requires target == Color(0, 0, 0, 255) && n == 8
    requires palette == [Color(255, 255, 255, 255), Color(0, 0, 0, 255), Color(255, 255, 255, 255),
                         Color(255, 255, 255, 255), Color(0, 0, 0, 255), Color(255, 255, 255, 255),
                         Color(255, 255, 255, 255), Color(255, 255, 255, 255)]
    ensures LaneNearest(target, palette, n, 4)
    ensures FirstNearest(target, palette, n, 1)
  {
    var ds := Dists(target, palette);
    forall k | 0 <= k < 8
      ensures ds[k] == 0 <==> k == 1 || k == 4
    {
      DistsAt(target, palette, k);
    }
    assert Grouped(n) == 8;
  }
}
