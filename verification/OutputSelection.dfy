/**
 Choosing the display output on which most of the window lies: the overlap of two
 rectangles, and the nested loop that keeps the best output so far.
 */
module OutputSelection {
  import opened Wrappers
  import opened Integers

  datatype Rect = Rect(left: int, top: int, right: int, bottom: int)

  // Extents of the overlap; negative when the rectangles are apart.
  function Width(a: Rect, b: Rect): int {
    Min(a.right, b.right) - Max(a.left, b.left)
  }

  function Height(a: Rect, b: Rect): int {
    Min(a.bottom, b.bottom) - Max(a.top, b.top)
  }

  function IntersectionArea(a: Rect, b: Rect): nat {
    Max(0, Width(a, b)) * Max(0, Height(a, b))
  }

  // The same formula on 32-bit signed numbers.
  function MachineArea(a: Rect, b: Rect): int {
    S32(Max(0, S32(Width(a, b))) * Max(0, S32(Height(a, b))))
  }

  predicate Inside(r: Rect, x: int, y: int) {
    r.left <= x < r.right && r.top <= y < r.bottom
  }

  // ---------------------------------------------------------------- the overlap formula

  function Interval(a: int, b: int): (s: set<int>)
    ensures forall x :: x in s <==> a <= x < b
    ensures |s| == Max(0, b - a)
    decreases b - a
  {
    if b <= a then {} else Interval(a, b - 1) + {b - 1}
  }

  // The unit cells of a column of a grid, and of the whole grid.
  function Cells(xs: set<int>, ys: set<int>): set<(int, int)> {
    set x, y | x in xs && y in ys :: (x, y)
  }

  lemma {:induction false} ColumnSize(x: int, ys: set<int>)
    ensures |Cells({x}, ys)| == |ys|
    decreases |ys|
  {
    if forall y :: y !in ys {
      assert ys == {} && Cells({x}, ys) == {};
    } else {
      var y :| y in ys;
      ColumnSize(x, ys - {y});
      assert Cells({x}, ys) == Cells({x}, ys - {y}) + {(x, y)};
    }
  }

  lemma {:induction false} GridSize(xs: set<int>, ys: set<int>)
    ensures |Cells(xs, ys)| == |xs| * |ys|
    decreases |xs|
  {
    if forall x :: x !in xs {
      assert xs == {} && Cells(xs, ys) == {};
    } else {
      var x :| x in xs;
      GridSize(xs - {x}, ys);
      ColumnSize(x, ys);
      assert Cells(xs, ys) == Cells(xs - {x}, ys) + Cells({x}, ys);
      assert Cells(xs - {x}, ys) !! Cells({x}, ys);
      assert |xs| * |ys| == (|xs| - 1) * |ys| + |ys|;
    }
  }

  // The formula counts the unit cells that lie in both rectangles, for all rectangles,
  // also empty and inverted ones.
  lemma AreaCountsCells(a: Rect, b: Rect, cells: set<(int, int)>)
    requires forall c :: c in cells <==> Inside(a, c.0, c.1) && Inside(b, c.0, c.1)
    ensures |cells| == IntersectionArea(a, b)
  {
    var xs := Interval(Max(a.left, b.left), Min(a.right, b.right));
    var ys := Interval(Max(a.top, b.top), Min(a.bottom, b.bottom));
    GridSize(xs, ys);
    hide Interval;
    assert cells == Cells(xs, ys);
  }

  predicate On32(r: Rect) {
    && -(TWO_31 as int) <= r.left < TWO_31 && -(TWO_31 as int) <= r.right < TWO_31
    && -(TWO_31 as int) <= r.top < TWO_31 && -(TWO_31 as int) <= r.bottom < TWO_31
  }

  // The rectangles are not so far apart that an extent wraps to a positive number.
  predicate NotFar(a: Rect, b: Rect) {
    -(TWO_31 as int) <= Width(a, b) && -(TWO_31 as int) <= Height(a, b)
  }

  // The machine's area is the true one exactly when that is below 2^31.
  lemma AreaFits(a: Rect, b: Rect)
    requires On32(a) && On32(b) && NotFar(a, b)
    ensures MachineArea(a, b) == IntersectionArea(a, b) <==> IntersectionArea(a, b) < TWO_31
  {
    var w, h := Width(a, b), Height(a, b);
    if w >= TWO_31 && h >= 1 {
      AtLeast(w, h);
    } else if h >= TWO_31 && w >= 1 {
      AtLeast(h, w);
    }
  }

  lemma AtLeast(w: int, h: int)
    requires 0 <= w && 1 <= h
    ensures w * h >= w
  {
    MultipleBounds(h, w + 1);
    assert w * h == w + w * (h - 1);
  }

  // An overlap of between 2^31 and 2^32 cells counts as a negative number: an output with
  // one is not chosen, even when it is the only one.
  lemma HugeOverlap(a: Rect, b: Rect)
    requires 0 <= Width(a, b) < TWO_31 && 0 <= Height(a, b) < TWO_31
    requires TWO_31 <= IntersectionArea(a, b) < TWO_32
    ensures MachineArea(a, b) < 0
  {
  }

  // Rectangles that are far apart may seem to overlap.
  lemma FarOverlap(a: Rect, b: Rect)
    requires On32(a) && On32(b) && Width(a, b) < -(TWO_31 as int) && 0 < Height(a, b) < TWO_31
    requires (Width(a, b) + TWO_32) * Height(a, b) < TWO_31
    ensures IntersectionArea(a, b) == 0 < MachineArea(a, b)
  {
    var w, h := Width(a, b), Height(a, b);
    assert S32(w) == w + TWO_32 > 0;
    AtLeast(w + TWO_32, h);
  }

  // ---------------------------------------------------------------- the selection loop

  // A place in the enumeration: an adapter and one of its outputs.
  datatype Place = Place(adapter: nat, output: nat)

  predicate Comes(p: Place, q: Place) {
    p.adapter < q.adapter || (p.adapter == q.adapter && p.output < q.output)
  }

  predicate Exists(adapters: seq<seq<Rect>>, p: Place) {
    p.adapter < |adapters| && p.output < |adapters[p.adapter]|
  }

  function Area(window: Rect, adapters: seq<seq<Rect>>, p: Place): int
    requires Exists(adapters, p)
  {
    MachineArea(window, adapters[p.adapter][p.output])
  }

  // What has been found among the outputs before a place; the area starts at -1.
  ghost predicate Best(window: Rect, adapters: seq<seq<Rect>>, end: Place, best: Option<Rect>, area: int, at: Place) {
    && (forall p :: Exists(adapters, p) && Comes(p, end) ==> Area(window, adapters, p) <= area)
    && (if best.None? then area == -1 else
          && Exists(adapters, at) && Comes(at, end) && best == Some(adapters[at.adapter][at.output])
          && area == Area(window, adapters, at) >= 0
          && (forall p :: Exists(adapters, p) && Comes(p, at) ==> Area(window, adapters, p) < area))
  }

  // One comparison keeps the first best of the outputs so far.
  lemma BestStep(window: Rect, adapters: seq<seq<Rect>>, end: Place, best: Option<Rect>, area: int, at: Place)
    requires Best(window, adapters, end, best, area, at) && Exists(adapters, end)
    ensures var r, a := adapters[end.adapter][end.output], Area(window, adapters, end);
            var next := end.(output := end.output + 1);
            if a > area then Best(window, adapters, next, Some(r), a, end)
            else Best(window, adapters, next, best, area, at)
  {
    hide MachineArea;
    var next := end.(output := end.output + 1);
    assert forall p :: Comes(p, next) <==> Comes(p, end) || p == end;
  }

  // Its overlap with the window is below 2^31 cells.
  predicate Plain(window: Rect, r: Rect) {
    On32(window) && On32(r) && NotFar(window, r) && IntersectionArea(window, r) < TWO_31
  }

  // Of all plain outputs the one chosen, if plain, has the most cells of the window, and more
  // than any that comes before it.
  lemma BestHasMostCells(window: Rect, adapters: seq<seq<Rect>>, end: Place, best: Rect, area: int, at: Place, p: Place)
    requires Best(window, adapters, end, Some(best), area, at) && Exists(adapters, p) && Comes(p, end)
    ensures var r := adapters[p.adapter][p.output];
            Plain(window, r) && Plain(window, best) ==>
              && IntersectionArea(window, r) <= IntersectionArea(window, best)
              && (Comes(p, at) ==> IntersectionArea(window, r) < IntersectionArea(window, best))
  {
    var r := adapters[p.adapter][p.output];
    if Plain(window, r) && Plain(window, best) {
      AreaFits(window, best);
      AreaFits(window, r);
      hide MachineArea, IntersectionArea, On32, NotFar;
      assert Area(window, adapters, p) <= Area(window, adapters, at);
    }
  }

  // The chosen output is that of adapter a at position o: no output has a larger area, and
  // none that comes before it has as large a one.  There is one unless every area is negative.
  method SelectOutput(window: Rect, adapters: seq<seq<Rect>>)
    returns (bestOutput: Option<Rect>, ghost a: nat, ghost o: nat)
    ensures bestOutput.None? <==>
              forall i, j :: 0 <= i < |adapters| && 0 <= j < |adapters[i]| ==>
                MachineArea(window, adapters[i][j]) < 0
    ensures bestOutput.Some? ==>
              && a < |adapters| && o < |adapters[a]| && bestOutput.value == adapters[a][o]
              && (forall i, j :: 0 <= i < |adapters| && 0 <= j < |adapters[i]| ==>
                    MachineArea(window, adapters[i][j]) <= MachineArea(window, adapters[a][o]))
              && (forall i, j :: 0 <= i < |adapters| && 0 <= j < |adapters[i]| && (i < a || (i == a && j < o)) ==>
                    MachineArea(window, adapters[i][j]) < MachineArea(window, adapters[a][o]))
  {
    hide MachineArea;
    bestOutput := None;
    ghost var at := Place(0, 0);
    var bestIntersectArea: int := -1;
    var adapterIndex := 0;
    while adapterIndex < |adapters|
      invariant 0 <= adapterIndex <= |adapters|
      invariant Best(window, adapters, Place(adapterIndex, 0), bestOutput, bestIntersectArea, at)
    {
      var outputs := adapters[adapterIndex];
      var outputIndex := 0;
      while outputIndex < |outputs|
        invariant 0 <= outputIndex <= |outputs|
        invariant Best(window, adapters, Place(adapterIndex, outputIndex), bestOutput, bestIntersectArea, at)
      {
        var output := outputs[outputIndex];
        var intersectArea := MachineArea(window, output);
        BestStep(window, adapters, Place(adapterIndex, outputIndex), bestOutput, bestIntersectArea, at);
        if intersectArea > bestIntersectArea {
          at := Place(adapterIndex, outputIndex);
          bestOutput := Some(output);
          bestIntersectArea := intersectArea;
        }
        outputIndex := outputIndex + 1;
      }
      NextAdapter(window, adapters, adapterIndex, bestOutput, bestIntersectArea, at);
      adapterIndex := adapterIndex + 1;
    }
    a, o := at.adapter, at.output;
    forall i, j | 0 <= i < |adapters| && 0 <= j < |adapters[i]|
      ensures MachineArea(window, adapters[i][j]) <= bestIntersectArea
      ensures bestOutput.Some? && (i < a || (i == a && j < o)) ==>
                MachineArea(window, adapters[i][j]) < bestIntersectArea
    {
      var p := Place(i, j);
      assert Exists(adapters, p) && Comes(p, Place(adapterIndex, 0));
      assert Area(window, adapters, p) == MachineArea(window, adapters[i][j]);
    }
  }

  // After the last output of an adapter comes the first of the next one.
  lemma NextAdapter(window: Rect, adapters: seq<seq<Rect>>, i: nat, best: Option<Rect>, area: int, at: Place)
    requires i < |adapters| && Best(window, adapters, Place(i, |adapters[i]|), best, area, at)
    ensures Best(window, adapters, Place(i + 1, 0), best, area, at)
  {
    hide Area;
    assert forall p :: Exists(adapters, p) ==> (Comes(p, Place(i + 1, 0)) <==> Comes(p, Place(i, |adapters[i]|)));
  }
}
