/**
 * Seam carving over a grid of pixel energies (A5/resizeable_image.py).
 *
 * The energies come from the image superclass, which is not part of this
 * model; they are given as an `Energy` grid read as `values[x][y]` (the
 * source's `energy_list[x, y]`). A seam is a list of pixels, one per row,
 * whose x coordinates change by at most one from row to row.
 */
module Seam {
  import opened Wrappers

  datatype Pixel = Pixel(x: int, y: int)

  /** A `width` by `height` grid of energies, `values[x][y]`. */
  datatype Energy = Energy(width: int, height: int, values: seq<seq<int>>)
  {
    predicate Valid()
    {
      |values| == width && forall x :: 0 <= x < width ==> |values[x]| == height
    }

    predicate Contains(p: Pixel)
    {
      0 <= p.x < width && 0 <= p.y < height
    }

    function At(p: Pixel): int
      requires Valid() && Contains(p)
    {
      values[p.x][p.y]
    }
  }

  // ---------------------------------------------------------------------------
  // Seams
  // ---------------------------------------------------------------------------

  predicate InBounds(e: Energy, s: seq<Pixel>)
    decreases |s|
  {
    |s| == 0 || (e.Contains(s[0]) && InBounds(e, s[1..]))
  }

  /** Each pixel is on the row below the previous one, at most one column away. */
  predicate Connected(s: seq<Pixel>)
    decreases |s|
  {
    |s| < 2 || (Step(s[0], s[1]) && Connected(s[1..]))
  }

  /** `q` may follow `p` in a seam. */
  predicate Step(p: Pixel, q: Pixel)
  {
    q.y == p.y + 1 && -1 <= q.x - p.x <= 1
  }

  lemma {:induction false} ConnectedStep(s: seq<Pixel>, i: int)
    requires Connected(s) && 0 <= i < |s| - 1
    ensures Step(s[i], s[i + 1])
    decreases |s|
  {
    if i > 0 {
      ConnectedStep(s[1..], i - 1);
    }
  }

  lemma ConnectedPrepend(p: Pixel, s: seq<Pixel>)
    requires Connected(s) && (|s| > 0 ==> Step(p, s[0]))
    ensures Connected([p] + s)
  {
    assert ([p] + s)[1..] == s;
  }

  lemma {:induction false} ConnectedAppend(s: seq<Pixel>, p: Pixel)
    requires Connected(s) && (|s| > 0 ==> Step(s[|s| - 1], p))
    ensures Connected(s + [p])
    decreases |s|
  {
    if |s| > 0 {
      ConnectedAppend(s[1..], p);
      assert (s + [p])[1..] == s[1..] + [p];
    }
  }

  lemma {:induction false} ConnectedPrefix(s: seq<Pixel>, n: int)
    requires Connected(s) && 0 <= n <= |s|
    ensures Connected(s[..n])
    decreases |s|
  {
    if n >= 2 {
      ConnectedPrefix(s[1..], n - 1);
      assert s[..n][1..] == s[1..][..n - 1];
    }
  }

  /** Each pixel of a connected list lies i rows below the first one. */
  lemma {:induction false} ConnectedRows(s: seq<Pixel>, i: int)
    requires Connected(s) && 0 <= i < |s|
    ensures s[i].y == s[0].y + i
    decreases i
  {
    if i > 0 {
      ConnectedRows(s, i - 1);
      ConnectedStep(s, i - 1);
    }
  }

  lemma {:induction false} InBoundsAppend(e: Energy, a: seq<Pixel>, b: seq<Pixel>)
    requires InBounds(e, a) && InBounds(e, b)
    ensures InBounds(e, a + b)
    decreases |a|
  {
    if a != [] {
      InBoundsAppend(e, a[1..], b);
      assert (a + b)[1..] == a[1..] + b;
    } else {
      assert a + b == b;
    }
  }

  /** The first n pixels of a pixel list in the grid are in the grid, and so is the next one. */
  lemma {:induction false} InBoundsPrefix(e: Energy, s: seq<Pixel>, n: int)
    requires InBounds(e, s) && 0 <= n < |s|
    ensures InBounds(e, s[..n]) && e.Contains(s[n])
    decreases n
  {
    if n > 0 {
      InBoundsPrefix(e, s[1..], n - 1);
      assert s[..n][1..] == s[1..][..n - 1];
    }
  }

  /** `s` runs from the top row down to the pixel (x, y). */
  predicate SeamTo(e: Energy, s: seq<Pixel>, x: int, y: int)
  {
    y >= 0 && |s| == y + 1 && s[y] == Pixel(x, y) && Connected(s) && InBounds(e, s)
  }

  /** `s` runs from the pixel (x, y) down to the bottom row. */
  predicate SeamFrom(e: Energy, s: seq<Pixel>, x: int, y: int)
  {
    |s| > 0 && |s| == e.height - y && s[0] == Pixel(x, y) && Connected(s) && InBounds(e, s)
  }

  /** A seam from the top row into the bottom row is a seam from its first pixel down to the bottom row. */
  lemma TopToBottom(e: Energy, s: seq<Pixel>, x: int)
    requires e.height >= 1 && SeamTo(e, s, x, e.height - 1)
    ensures 0 <= s[0].x < e.width && SeamFrom(e, s, s[0].x, 0)
  {
    ConnectedRows(s, e.height - 1);
    InBoundsPrefix(e, s, 0);
  }

  /** A seam from the top row down to the bottom row is a seam into its last pixel. */
  lemma BottomFromTop(e: Energy, s: seq<Pixel>, x: int)
    requires e.height >= 1 && SeamFrom(e, s, x, 0)
    ensures 0 <= s[e.height - 1].x < e.width && SeamTo(e, s, s[e.height - 1].x, e.height - 1)
  {
    ConnectedRows(s, e.height - 1);
    InBoundsPrefix(e, s, e.height - 1);
  }

  /** The total energy of the pixels of `s`. */
  function SeamEnergy(e: Energy, s: seq<Pixel>): int
    requires e.Valid() && InBounds(e, s)
  {
    if s == [] then 0 else e.At(s[0]) + SeamEnergy(e, s[1..])
  }

  lemma SeamEnergyCons(e: Energy, p: Pixel, s: seq<Pixel>)
    requires e.Valid() && e.Contains(p) && InBounds(e, s)
    ensures InBounds(e, [p] + s)
    ensures SeamEnergy(e, [p] + s) == e.At(p) + SeamEnergy(e, s)
  {
    assert ([p] + s)[1..] == s;
  }

  lemma {:induction false} SeamEnergyAppend(e: Energy, a: seq<Pixel>, b: seq<Pixel>)
    requires e.Valid() && InBounds(e, a) && InBounds(e, b)
    ensures InBounds(e, a + b)
    ensures SeamEnergy(e, a + b) == SeamEnergy(e, a) + SeamEnergy(e, b)
  {
    if a != [] {
      assert (a + b)[1..] == a[1..] + b;
      SeamEnergyAppend(e, a[1..], b);
    } else {
      assert a + b == b;
    }
  }

  // ---------------------------------------------------------------------------
  // Small helpers on lists of numbers (Python's `min` and the dict that
  // remembers the last option seen with each value)
  // ---------------------------------------------------------------------------

  function Min(a: int, b: int): int
  {
    if a <= b then a else b
  }

  /** Python's `min` on a non-empty list. */
  function SeqMin(s: seq<int>): (m: int)
    requires |s| > 0
    ensures m in s && forall i :: 0 <= i < |s| ==> m <= s[i]
  {
    assert s == [s[0]] + s[1..];
    if |s| == 1 then s[0] else Min(s[0], SeqMin(s[1..]))
  }

  /** The last position of `v` in `s`. */
  function LastIndexOf(s: seq<int>, v: int): (j: nat)
    requires v in s
    ensures j < |s| && s[j] == v && forall k :: j < k < |s| ==> s[k] != v
  {
    if s[|s| - 1] == v then |s| - 1 else LastIndexOf(s[..|s| - 1], v)
  }

  /** `min` and the last position of the least value of a two-element list. */
  lemma MinOfTwo(a: int, b: int)
    ensures SeqMin([a, b]) == Min(a, b)
    ensures LastIndexOf([a, b], Min(a, b)) == if b == Min(a, b) then 1 else 0
  {
    assert [a, b][1..] == [b];
    assert [a, b][..1] == [a];
  }

  /** `min` and the last position of the least value of a three-element list. */
  lemma MinOfThree(a: int, b: int, c: int)
    ensures SeqMin([a, b, c]) == Min(Min(a, b), c)
    ensures var m := Min(Min(a, b), c);
            LastIndexOf([a, b, c], m) == if c == m then 2 else if b == m then 1 else 0
  {
    assert [a, b, c][1..] == [b, c];
    MinOfTwo(b, c);
    assert [a, b, c][..2] == [a, b];
    MinOfTwo(a, b);
  }

  lemma UpdateSame<K, V>(m: map<K, V>, k: K, a: V, b: V)
    requires a == b
    ensures m[k := a] == m[k := b]
  {
  }

  lemma LastIndexOfSnoc(s: seq<int>, m: int)
    ensures forall v :: v in s + [m] ==>
              LastIndexOf(s + [m], v) == if v == m then |s| else LastIndexOf(s, v)
  {
    forall v | v in s + [m] && v != m
      ensures LastIndexOf(s + [m], v) == LastIndexOf(s, v)
    {
      assert (s + [m])[..|s|] == s;
    }
  }

  /** The first position of `v` in `s` (Python's `list.index`). */
  function FirstIndexOf(s: seq<int>, v: int): (j: nat)
    requires v in s
    ensures j < |s| && s[j] == v && forall k :: 0 <= k < j ==> s[k] != v
  {
    if s[0] == v then 0 else 1 + FirstIndexOf(s[1..], v)
  }

  // ---------------------------------------------------------------------------
  // The dynamic-programming recurrence
  // ---------------------------------------------------------------------------

  /**
   * The pixels of row y - 1 a seam may come from into (x, y), left to right
   * (`options`): the left neighbour is missing on the first column, the
   * right one on the last column.
   */
  function OptionsOf(e: Energy, x: int, y: int): (options: seq<Pixel>)
    requires e.width >= 2 && 0 <= x < e.width && 1 <= y
    ensures 2 <= |options| <= 3
    ensures forall i :: 0 <= i < |options| ==>
              options[i].y == y - 1 && 0 <= options[i].x < e.width && -1 <= options[i].x - x <= 1
    ensures options[|options| - 1] == Pixel(if x < e.width - 1 then x + 1 else x, y - 1)
  {
    if x == 0 then [Pixel(x, y - 1), Pixel(x + 1, y - 1)]
    else if x == e.width - 1 then [Pixel(x - 1, y - 1), Pixel(x, y - 1)]
    else [Pixel(x - 1, y - 1), Pixel(x, y - 1), Pixel(x + 1, y - 1)]
  }

  /**
   * `memoized[x, y]`: the least energy of a seam from the top row into the
   * pixel (x, y). A pixel of the top row costs its own energy; any other
   * costs its own energy plus `Best`, the least cost among its options.
   */
  function Cost(e: Energy, x: int, y: int): int
    requires e.Valid() && e.width >= 2 && 0 <= x < e.width && 0 <= y < e.height
    decreases y, 1
  {
    if y == 0 then e.At(Pixel(x, 0)) else e.At(Pixel(x, y)) + Best(e, x, y)
  }

  /** `min(min_list)` for the pixel (x, y): the least cost among its options. */
  function Best(e: Energy, x: int, y: int): int
    requires e.Valid() && e.width >= 2 && 0 <= x < e.width && 1 <= y < e.height
    decreases y, 0
  {
    if x == 0 then Min(Cost(e, 0, y - 1), Cost(e, 1, y - 1))
    else if x == e.width - 1 then Min(Cost(e, x - 1, y - 1), Cost(e, x, y - 1))
    else Min(Min(Cost(e, x - 1, y - 1), Cost(e, x, y - 1)), Cost(e, x + 1, y - 1))
  }

  /**
   * The column of row y - 1 the recorded seam into (x, y) comes from: the
   * last (rightmost) option whose cost is `Best`.
   */
  function From(e: Energy, x: int, y: int): (q: int)
    requires e.Valid() && e.width >= 2 && 0 <= x < e.width && 1 <= y < e.height
    ensures 0 <= q < e.width && -1 <= q - x <= 1 && Cost(e, q, y - 1) == Best(e, x, y)
    ensures q < x ==> Cost(e, x, y - 1) != Best(e, x, y)
    ensures q <= x < e.width - 1 ==> Cost(e, x + 1, y - 1) != Best(e, x, y)
  {
    var m := Best(e, x, y);
    if x < e.width - 1 && Cost(e, x + 1, y - 1) == m then x + 1
    else if Cost(e, x, y - 1) == m then x
    else x - 1
  }

  /** The option a seam into (x, y) comes from: the last one of least cost. */
  function Parent(e: Energy, x: int, y: int): (p: Pixel)
    requires e.Valid() && e.width >= 2 && 0 <= x < e.width && 1 <= y < e.height
    ensures p.y == y - 1 && 0 <= p.x < e.width && -1 <= p.x - x <= 1
    ensures Cost(e, p.x, p.y) == Best(e, x, y)
  {
    Pixel(From(e, x, y), y - 1)
  }

  lemma SeamToAppend(e: Energy, s: seq<Pixel>, x: int, y: int, p: Pixel)
    requires SeamTo(e, s, x, y) && e.Contains(p) && Step(Pixel(x, y), p)
    ensures SeamTo(e, s + [p], p.x, p.y)
  {
    ConnectedAppend(s, p);
    InBoundsAppend(e, s, [p]);
  }

  /** The seam the table records for (x, y): its parent's seam, then (x, y). */
  function Path(e: Energy, x: int, y: int): (s: seq<Pixel>)
    requires e.Valid() && e.width >= 2 && 0 <= x < e.width && 0 <= y < e.height
    ensures SeamTo(e, s, x, y)
    decreases y
  {
    if y == 0 then [Pixel(x, 0)]
    else
      var p := Parent(e, x, y);
      var above := Path(e, p.x, p.y);
      SeamToAppend(e, above, p.x, p.y, Pixel(x, y));
      above + [Pixel(x, y)]
  }

  /** The recorded seam into (x, y) costs exactly the recorded energy. */
  lemma {:induction false} PathEnergy(e: Energy, x: int, y: int)
    requires e.Valid() && e.width >= 2 && 0 <= x < e.width && 0 <= y < e.height
    ensures SeamEnergy(e, Path(e, x, y)) == Cost(e, x, y)
    decreases y
  {
    if y > 0 {
      var p := Parent(e, x, y);
      PathEnergy(e, p.x, p.y);
      PathEnergyStep(e, x, y);
    } else {
      SeamEnergySnoc(e, [], Pixel(x, y));
    }
  }

  lemma PathEnergyStep(e: Energy, x: int, y: int)
    requires e.Valid() && e.width >= 2 && 0 <= x < e.width && 1 <= y < e.height
    requires var p := Parent(e, x, y); SeamEnergy(e, Path(e, p.x, p.y)) == Cost(e, p.x, p.y)
    ensures SeamEnergy(e, Path(e, x, y)) == Cost(e, x, y)
  {
    var p := Parent(e, x, y);
    SeamEnergySnoc(e, Path(e, p.x, p.y), Pixel(x, y));
  }

  lemma SeamEnergySnoc(e: Energy, s: seq<Pixel>, p: Pixel)
    requires e.Valid() && InBounds(e, s) && e.Contains(p)
    ensures InBounds(e, s + [p])
    ensures SeamEnergy(e, s + [p]) == SeamEnergy(e, s) + e.At(p)
  {
    SeamEnergyAppend(e, s, [p]);
    assert SeamEnergy(e, [p]) == e.At(p);
  }

  /** A seam into (x, y) below the top row is a seam into the pixel above it, then (x, y). */
  lemma SeamToSplit(e: Energy, s: seq<Pixel>, x: int, y: int) returns (q: int)
    requires e.Valid() && SeamTo(e, s, x, y) && y > 0
    ensures 0 <= q < e.width && -1 <= q - x <= 1
    ensures SeamTo(e, s[..y], q, y - 1) && e.Contains(Pixel(x, y))
    ensures SeamEnergy(e, s) == SeamEnergy(e, s[..y]) + e.At(Pixel(x, y))
  {
    q := s[y - 1].x;
    ConnectedStep(s, y - 1);
    ConnectedPrefix(s, y);
    InBoundsPrefix(e, s, y);
    InBoundsPrefix(e, s, y - 1);
    assert s == s[..y] + [s[y]];
    SeamEnergySnoc(e, s[..y], s[y]);
  }

  /** No seam from the top row into (x, y) costs less than the recorded energy. */
  lemma {:induction false} CostIsMinimal(e: Energy, s: seq<Pixel>, x: int, y: int)
    requires e.Valid() && e.width >= 2 && 0 <= x < e.width && 0 <= y < e.height
    requires SeamTo(e, s, x, y)
    ensures Cost(e, x, y) <= SeamEnergy(e, s)
    decreases y
  {
    if y > 0 {
      var q := SeamToSplit(e, s, x, y);
      CostIsMinimal(e, s[..y], q, y - 1);
      assert Best(e, x, y) <= Cost(e, q, y - 1);
    } else {
      SeamEnergySnoc(e, [], s[0]);
      assert s == [] + [s[0]];
    }
  }

  // ---------------------------------------------------------------------------
  // What `dynamic_best_seam` returns
  // ---------------------------------------------------------------------------

  /** The cost `memoized` holds for column x of the bottom row. */
  function BottomCost(e: Energy, x: int): int
    requires e.Valid() && e.width >= 2 && e.height >= 1 && 0 <= x < e.width
  {
    Cost(e, x, e.height - 1)
  }

  /**
   * The column the bottom-row scan of the first n columns settles on when
   * it replaces its pick only on a strictly smaller cost: the leftmost
   * column of least cost.
   */
  function LeftmostMin(e: Energy, n: int): (b: int)
    requires e.Valid() && e.width >= 2 && e.height >= 1 && 1 <= n <= e.width
    ensures 0 <= b < n
    ensures forall x :: 0 <= x < n ==> BottomCost(e, b) <= BottomCost(e, x)
    ensures forall x :: 0 <= x < b ==> BottomCost(e, b) < BottomCost(e, x)
  {
    if n == 1 then 0
    else
      var b := LeftmostMin(e, n - 1);
      if BottomCost(e, b) > BottomCost(e, n - 1) then n - 1 else b
  }

  /** `row_minimum` once the bottom-row scan has seen the first n columns. */
  datatype RowMinimum = RowMinimum(energy: int, pixel: Pixel, above: int, parent: Pixel)

  /** The `row_minimum` entry the scan records for column b of the bottom row. */
  function RowMinimumAt(e: Energy, b: int): RowMinimum
    requires e.Valid() && e.width >= 2 && e.height >= 2 && 0 <= b < e.width
  {
    var options := OptionsOf(e, b, e.height - 1);
    RowMinimum(BottomCost(e, b), Pixel(b, e.height - 1), Best(e, b, e.height - 1), options[|options| - 1])
  }

  function RowMinimumAfter(e: Energy, n: int): RowMinimum
    requires e.Valid() && e.width >= 2 && e.height >= 2 && 1 <= n <= e.width
  {
    RowMinimumAt(e, LeftmostMin(e, n))
  }

  /**
   * The scan's update: the next column replaces the record only when its
   * cost is strictly smaller.
   */
  lemma RowMinimumAfterNext(e: Energy, n: int)
    requires e.Valid() && e.width >= 2 && e.height >= 2 && 1 <= n < e.width
    ensures RowMinimumAfter(e, n + 1)
              == if RowMinimumAfter(e, n).energy > BottomCost(e, n) then RowMinimumAt(e, n)
                 else RowMinimumAfter(e, n)
  {
  }

  /**
   * The seam `dynamic_best_seam` returns: the bottom pixel is the leftmost
   * one of least cost, but the seam above it is the recorded seam of that
   * pixel's last option rather than of its cheapest one.
   */
  function DpResult(e: Energy): seq<Pixel>
    requires e.Valid() && e.width >= 2 && e.height >= 2
  {
    var r := RowMinimumAfter(e, e.width);
    Path(e, r.parent.x, r.parent.y) + [r.pixel]
  }

  /**
   * The returned seam has one pixel per row, is connected, ends at the
   * leftmost bottom pixel of least cost, and costs the recorded energy of
   * the pixel it comes from plus its own.
   */
  lemma DpResultIsSeam(e: Energy)
    requires e.Valid() && e.width >= 2 && e.height >= 2
    ensures var b := LeftmostMin(e, e.width);
            && SeamTo(e, DpResult(e), b, e.height - 1)
            && (forall x :: 0 <= x < e.width ==> BottomCost(e, b) <= BottomCost(e, x))
            && (forall x :: 0 <= x < b ==> BottomCost(e, b) < BottomCost(e, x))
    ensures var r := RowMinimumAfter(e, e.width);
            SeamEnergy(e, DpResult(e)) == Cost(e, r.parent.x, r.parent.y) + e.At(r.pixel)
  {
    var r := RowMinimumAfter(e, e.width);
    var above := Path(e, r.parent.x, r.parent.y);
    SeamToAppend(e, above, r.parent.x, r.parent.y, r.pixel);
    PathEnergy(e, r.parent.x, r.parent.y);
    SeamEnergyAppend(e, above, [r.pixel]);
    assert SeamEnergy(e, [r.pixel]) == e.At(r.pixel);
  }

  /**
   * The seam the scan evidently means to return: the recorded seam of the
   * leftmost bottom pixel of least cost.
   */
  function LeastSeam(e: Energy): seq<Pixel>
    requires e.Valid() && e.width >= 2 && e.height >= 1
  {
    Path(e, LeftmostMin(e, e.width), e.height - 1)
  }

  /** `LeastSeam` is a top-to-bottom seam no top-to-bottom seam beats. */
  lemma LeastSeamIsOptimal(e: Energy, s: seq<Pixel>, x: int)
    requires e.Valid() && e.width >= 2 && e.height >= 1
    requires 0 <= x < e.width && SeamTo(e, s, x, e.height - 1)
    ensures SeamTo(e, LeastSeam(e), LeftmostMin(e, e.width), e.height - 1)
    ensures SeamEnergy(e, LeastSeam(e)) <= SeamEnergy(e, s)
  {
    var b := LeftmostMin(e, e.width);
    PathEnergy(e, b, e.height - 1);
    CostIsMinimal(e, s, x, e.height - 1);
    assert BottomCost(e, b) <= BottomCost(e, x);
  }

  /**
   * On this 2 by 2 grid the returned seam costs 5 while a seam of cost 0
   * exists: both bottom pixels cost 0, the scan picks column 0, and then
   * follows its last option, column 1 of the top row, of energy 5.
   */
  lemma DpResultNotOptimal()
    ensures var e := Energy(2, 2, [[0, 0], [5, 0]]);
            && SeamEnergy(e, DpResult(e)) == 5
            && SeamEnergy(e, LeastSeam(e)) == 0
  {
    var e := Energy(2, 2, [[0, 0], [5, 0]]);
    assert Cost(e, 0, 0) == 0 && Cost(e, 1, 0) == 5;
    assert Cost(e, 0, 1) == 0 && Cost(e, 1, 1) == 0;
    assert LeftmostMin(e, 2) == 0;
    assert Path(e, 1, 0) == [Pixel(1, 0)];
    assert DpResult(e) == [Pixel(1, 0), Pixel(0, 1)];
    PathEnergy(e, 0, 1);
  }

  // ---------------------------------------------------------------------------
  // The naive recursion
  // ---------------------------------------------------------------------------

  /** The columns `recursive_best_seam` tries below x, left to right. */
  function Below(e: Energy, x: int): (xs: seq<int>)
    requires e.width >= 2 && 0 <= x < e.width
    ensures 2 <= |xs| <= 3
    ensures forall i :: 0 <= i < |xs| ==> 0 <= xs[i] < e.width && -1 <= xs[i] - x <= 1
  {
    if x == 0 then [x, x + 1]
    else if x == e.width - 1 then [x - 1, x]
    else [x - 1, x, x + 1]
  }

  /**
   * `recursive_best_seam(x, y)`: the pixel (x, y) followed by the cheapest
   * of the naive seams from the columns below it, the first one on a tie
   * (`seam_energies.index(min(seam_energies))`).
   */
  function RecursiveBestSeam(e: Energy, x: int, y: int): (s: seq<Pixel>)
    requires e.Valid() && e.width >= 2 && 0 <= x < e.width && 0 <= y < e.height
    ensures SeamFrom(e, s, x, y)
    decreases e.height - y, 2
  {
    if y == e.height - 1 then [Pixel(x, y)]
    else
      var c := Below(e, x)[BestBelow(e, x, y)];
      var rest := RecursiveBestSeam(e, c, y + 1);
      SeamFromPrepend(e, Pixel(x, y), rest, c, y + 1);
      [Pixel(x, y)] + rest
  }

  /**
   * `best_seam_index`: the position of the first of the naive seams below
   * (x, y) of least energy.
   */
  function BestBelow(e: Energy, x: int, y: int): (k: nat)
    requires e.Valid() && e.width >= 2 && 0 <= x < e.width && 0 <= y < e.height - 1
    ensures k < |Below(e, x)|
    decreases e.height - y, 1
  {
    var energies := BelowEnergies(e, x, y);
    FirstIndexOf(energies, SeqMin(energies))
  }

  /**
   * `seam_energies`: the energy of the naive seam from each column below
   * (x, y), left to right.
   */
  function BelowEnergies(e: Energy, x: int, y: int): (energies: seq<int>)
    requires e.Valid() && e.width >= 2 && 0 <= x < e.width && 0 <= y < e.height - 1
    ensures |energies| == |Below(e, x)|
    decreases e.height - y, 0
  {
    var below := Below(e, x);
    if |below| == 2 then
      [SeamEnergy(e, RecursiveBestSeam(e, below[0], y + 1)),
       SeamEnergy(e, RecursiveBestSeam(e, below[1], y + 1))]
    else
      [SeamEnergy(e, RecursiveBestSeam(e, below[0], y + 1)),
       SeamEnergy(e, RecursiveBestSeam(e, below[1], y + 1)),
       SeamEnergy(e, RecursiveBestSeam(e, below[2], y + 1))]
  }

  lemma SeamFromPrepend(e: Energy, p: Pixel, s: seq<Pixel>, x: int, y: int)
    requires SeamFrom(e, s, x, y) && e.Contains(p) && Step(p, s[0])
    ensures SeamFrom(e, [p] + s, p.x, p.y)
  {
    ConnectedPrepend(p, s);
  }

  /**
   * One step of the recursion: the naive seam from (x, y) is (x, y) followed
   * by the naive seam from a column c below, whose energy is no more than
   * that of any column nx below, and strictly less when nx is left of c.
   */
  lemma RecursiveStep(e: Energy, x: int, y: int, nx: int) returns (c: int)
    requires e.Valid() && e.width >= 2 && 0 <= x < e.width && 0 <= y < e.height - 1
    requires 0 <= nx < e.width && -1 <= nx - x <= 1
    ensures 0 <= c < e.width && -1 <= c - x <= 1
    ensures RecursiveBestSeam(e, x, y) == [Pixel(x, y)] + RecursiveBestSeam(e, c, y + 1)
    ensures SeamEnergy(e, RecursiveBestSeam(e, x, y))
              == e.At(Pixel(x, y)) + SeamEnergy(e, RecursiveBestSeam(e, c, y + 1))
    ensures SeamEnergy(e, RecursiveBestSeam(e, c, y + 1)) <= SeamEnergy(e, RecursiveBestSeam(e, nx, y + 1))
    ensures nx < c ==>
              SeamEnergy(e, RecursiveBestSeam(e, c, y + 1)) < SeamEnergy(e, RecursiveBestSeam(e, nx, y + 1))
  {
    var below := Below(e, x);
    var energies := BelowEnergies(e, x, y);
    var k := BestBelow(e, x, y);
    assert k == FirstIndexOf(energies, SeqMin(energies));
    var j := if x == 0 then nx else nx - x + 1;
    assert below[j] == nx;
    BelowIncreasing(e, x, j, k);
    c := below[k];
    assert energies[j] == SeamEnergy(e, RecursiveBestSeam(e, nx, y + 1));
    assert energies[k] == SeamEnergy(e, RecursiveBestSeam(e, c, y + 1));
    SeamEnergyCons(e, Pixel(x, y), RecursiveBestSeam(e, c, y + 1));
  }

  /**
   * The naive seam from (x, y) is no more expensive than any seam from
   * (x, y) to the bottom row.
   */
  lemma {:induction false} RecursiveBestSeamIsOptimal(e: Energy, s: seq<Pixel>, x: int, y: int)
    requires e.Valid() && e.width >= 2 && 0 <= x < e.width && 0 <= y < e.height
    requires SeamFrom(e, s, x, y)
    ensures SeamEnergy(e, RecursiveBestSeam(e, x, y)) <= SeamEnergy(e, s)
    decreases e.height - y, 1
  {
    if y < e.height - 1 {
      RecursiveBestSeamIsOptimalBelow(e, s, x, y);
    }
  }

  /** The inductive step of `RecursiveBestSeamIsOptimal`, for a seam of two or more pixels. */
  lemma {:induction false} RecursiveBestSeamIsOptimalBelow(e: Energy, s: seq<Pixel>, x: int, y: int)
    requires e.Valid() && e.width >= 2 && 0 <= x < e.width && 0 <= y < e.height - 1
    requires SeamFrom(e, s, x, y)
    ensures SeamEnergy(e, RecursiveBestSeam(e, x, y)) <= SeamEnergy(e, s)
    decreases e.height - y, 0
  {
    NaiveStep(e, s, x, y);
    RecursiveBestSeamIsOptimal(e, s[1..], s[1].x, y + 1);
  }

  /** A seam from (x, y) continues as a seam from the pixel below it, and the naive bound one row down lifts to (x, y). */
  lemma NaiveStep(e: Energy, s: seq<Pixel>, x: int, y: int)
    requires e.Valid() && e.width >= 2 && 0 <= x < e.width && 0 <= y < e.height - 1
    requires SeamFrom(e, s, x, y)
    ensures 0 <= s[1].x < e.width && SeamFrom(e, s[1..], s[1].x, y + 1)
    ensures SeamEnergy(e, RecursiveBestSeam(e, s[1].x, y + 1)) <= SeamEnergy(e, s[1..]) ==>
              SeamEnergy(e, RecursiveBestSeam(e, x, y)) <= SeamEnergy(e, s)
  {
    SeamFromSplit(e, s, x, y);
    RecursiveStepBound(e, x, y, s[1].x);
  }

  /** The naive seam from (x, y) costs no more than (x, y) followed by the naive seam from any column below. */
  lemma RecursiveStepBound(e: Energy, x: int, y: int, nx: int)
    requires e.Valid() && e.width >= 2 && 0 <= x < e.width && 0 <= y < e.height - 1
    requires 0 <= nx < e.width && -1 <= nx - x <= 1
    ensures SeamEnergy(e, RecursiveBestSeam(e, x, y))
              <= e.At(Pixel(x, y)) + SeamEnergy(e, RecursiveBestSeam(e, nx, y + 1))
  {
    var c := RecursiveStep(e, x, y, nx);
  }

  /**
   * A seam from (x, y) above the bottom row is (x, y) followed by a seam
   * from a neighbouring column of the next row.
   */
  lemma SeamFromSplit(e: Energy, s: seq<Pixel>, x: int, y: int)
    requires e.Valid() && e.width >= 2 && 0 <= x < e.width && 0 <= y < e.height - 1
    requires SeamFrom(e, s, x, y)
    ensures 0 <= s[1].x < e.width && -1 <= s[1].x - x <= 1
    ensures SeamFrom(e, s[1..], s[1].x, y + 1)
    ensures SeamEnergy(e, s) == e.At(Pixel(x, y)) + SeamEnergy(e, s[1..])
  {
    assert Step(s[0], s[1]);
    assert InBounds(e, s[1..]) && e.Contains(s[1..][0]);
  }

  /** `Below` lists its columns left to right. */
  lemma BelowIncreasing(e: Energy, x: int, i: int, j: int)
    requires e.width >= 2 && 0 <= x < e.width && 0 <= i < |Below(e, x)| && 0 <= j < |Below(e, x)|
    ensures i < j <==> Below(e, x)[i] < Below(e, x)[j]
  {
  }

  /**
   * The naive seam from (x, y) continues with the naive seam from the column
   * it picks below, and every column nx below left of that one has a
   * strictly more expensive naive seam (`index` returns the first least
   * energy).
   */
  lemma RecursiveBestSeamLeftmost(e: Energy, x: int, y: int, nx: int)
    requires e.Valid() && e.width >= 2 && 0 <= x < e.width && 0 <= y < e.height - 1
    requires 0 <= nx < e.width && -1 <= nx - x <= 1
    ensures var s := RecursiveBestSeam(e, x, y);
            && s[1..] == RecursiveBestSeam(e, s[1].x, y + 1)
            && (nx < s[1].x ==>
                  SeamEnergy(e, RecursiveBestSeam(e, nx, y + 1)) > SeamEnergy(e, s[1..]))
  {
    var c := RecursiveStep(e, x, y, nx);
    var s := RecursiveBestSeam(e, x, y);
    var rest := RecursiveBestSeam(e, c, y + 1);
    assert s[1..] == rest;
    assert rest[0] == Pixel(c, y + 1);
  }

  /**
   * The seam `naive_best_seam` returns: its loop over the columns 0 to
   * width - 2 keeps only the naive seam of its last iteration, the one
   * from column width - 2, and an image narrower than two pixels gives the
   * empty list.
   */
  function NaiveResult(e: Energy): seq<Pixel>
    requires e.Valid() && e.height >= 1
  {
    if e.width >= 2 then NaiveAfter(e, e.width - 1) else []
  }

  /** The seam `naive_best_seam` holds after its first n iterations. */
  function NaiveAfter(e: Energy, n: int): seq<Pixel>
    requires e.Valid() && e.height >= 1 && 0 <= n && (n == 0 || n < e.width)
  {
    if n == 0 then [] else RecursiveBestSeam(e, n - 1, 0)
  }

  /** The energy of the naive seam from column x of the top row. */
  function StartEnergy(e: Energy, x: int): int
    requires e.Valid() && e.width >= 2 && e.height >= 1 && 0 <= x < e.width
  {
    SeamEnergy(e, RecursiveBestSeam(e, x, 0))
  }

  /** The energies of the naive seams from the first n columns of the top row, in order. */
  function StartEnergies(e: Energy, n: int): (energies: seq<int>)
    requires e.Valid() && e.width >= 2 && e.height >= 1 && 0 <= n <= e.width
    ensures |energies| == n
    ensures forall x :: 0 <= x < n ==> energies[x] == StartEnergy(e, x)
  {
    if n == 0 then [] else StartEnergies(e, n - 1) + [StartEnergy(e, n - 1)]
  }

  /** The leftmost column of the top row whose naive seam costs least. */
  function NaiveLeastStart(e: Energy): (b: int)
    requires e.Valid() && e.width >= 2 && e.height >= 1
    ensures 0 <= b < e.width
    ensures forall x :: 0 <= x < e.width ==> StartEnergy(e, b) <= StartEnergy(e, x)
    ensures forall x :: 0 <= x < b ==> StartEnergy(e, b) < StartEnergy(e, x)
  {
    var energies := StartEnergies(e, e.width);
    FirstIndexOf(energies, SeqMin(energies))
  }

  /**
   * The seam `naive_best_seam` evidently means to return: the cheapest of
   * the naive seams over every column of the top row.
   */
  function NaiveLeastSeam(e: Energy): seq<Pixel>
    requires e.Valid() && e.width >= 2 && e.height >= 1
  {
    RecursiveBestSeam(e, NaiveLeastStart(e), 0)
  }

  /** `NaiveLeastSeam` is a top-to-bottom seam no top-to-bottom seam beats. */
  lemma NaiveLeastSeamIsOptimal(e: Energy, s: seq<Pixel>, x: int)
    requires e.Valid() && e.width >= 2 && e.height >= 1
    requires 0 <= x < e.width && SeamFrom(e, s, x, 0)
    ensures SeamFrom(e, NaiveLeastSeam(e), NaiveLeastStart(e), 0)
    ensures SeamEnergy(e, NaiveLeastSeam(e)) <= SeamEnergy(e, s)
  {
    RecursiveBestSeamIsOptimal(e, s, x, 0);
    assert StartEnergy(e, NaiveLeastStart(e)) <= StartEnergy(e, x);
  }

  /** The naive seam from a pixel of the bottom row is that pixel alone. */
  lemma NaiveBottom(e: Energy, x: int)
    requires e.Valid() && e.width >= 2 && e.height >= 1 && 0 <= x < e.width
    ensures RecursiveBestSeam(e, x, e.height - 1) == [Pixel(x, e.height - 1)]
    ensures SeamEnergy(e, RecursiveBestSeam(e, x, e.height - 1)) == e.At(Pixel(x, e.height - 1))
  {
    SeamEnergySnoc(e, [], Pixel(x, e.height - 1));
    assert [] + [Pixel(x, e.height - 1)] == [Pixel(x, e.height - 1)];
  }

  /**
   * On this 3 by 2 grid the naive result, the seam from column 1, costs 9
   * while the seam down column 0 costs 0.
   */
  lemma NaiveResultNotOptimal()
    ensures var e := Energy(3, 2, [[0, 0], [9, 9], [0, 0]]);
            && SeamEnergy(e, NaiveResult(e)) == 9
            && SeamFrom(e, [Pixel(0, 0), Pixel(0, 1)], 0, 0)
            && SeamEnergy(e, [Pixel(0, 0), Pixel(0, 1)]) == 0
  {
    var e := Energy(3, 2, [[0, 0], [9, 9], [0, 0]]);
    NaiveBottom(e, 0);
    NaiveBottom(e, 1);
    NaiveBottom(e, 2);
    assert BelowEnergies(e, 1, 0) == [0, 9, 0];
    MinOfThree(0, 9, 0);
    assert BestBelow(e, 1, 0) == 0;
    var naive := RecursiveBestSeam(e, 1, 0);
    assert naive == [Pixel(1, 0), Pixel(0, 1)];
    SeamEnergyCons(e, Pixel(1, 0), [Pixel(0, 1)]);
    assert [Pixel(0, 0)] + [Pixel(0, 1)] == [Pixel(0, 0), Pixel(0, 1)];
    SeamEnergyCons(e, Pixel(0, 0), [Pixel(0, 1)]);
    SeamFromPrepend(e, Pixel(0, 0), [Pixel(0, 1)], 0, 1);
  }

  /**
   * The table-based seam and the naive one, each over every column, cost
   * the same: both are optimal among all top-to-bottom seams.
   */
  lemma LeastSeamsAgree(e: Energy)
    requires e.Valid() && e.width >= 2 && e.height >= 1
    ensures SeamEnergy(e, LeastSeam(e)) == SeamEnergy(e, NaiveLeastSeam(e))
  {
    var b := NaiveLeastStart(e);
    var naive := NaiveLeastSeam(e);
    BottomFromTop(e, naive, b);
    LeastSeamIsOptimal(e, naive, naive[e.height - 1].x);
    var table := LeastSeam(e);
    LeastSeamIsOptimal(e, table, LeftmostMin(e, e.width));
    TopToBottom(e, table, LeftmostMin(e, e.width));
    NaiveLeastSeamIsOptimal(e, table, table[0].x);
  }

  /**
   * The least of `min_list` is `Best`, and the option `min_list_path` keeps
   * for it, the last one holding it, is the column `From` picks.
   */
  lemma OptionsMinimum(e: Energy, x: int, y: int, minList: seq<int>)
    requires e.Valid() && e.width >= 2 && 0 <= x < e.width && 1 <= y < e.height
    requires |minList| == |OptionsOf(e, x, y)|
    requires forall j :: 0 <= j < |minList| ==>
               minList[j] == Cost(e, OptionsOf(e, x, y)[j].x, y - 1)
    ensures SeqMin(minList) == Best(e, x, y)
    ensures OptionsOf(e, x, y)[LastIndexOf(minList, SeqMin(minList))] == Parent(e, x, y)
  {
    assert minList == OptionCosts(e, x, y);
    OptionsMinimumOf(e, x, y);
  }

  /** `OptionsMinimum` for the list of the costs of the options themselves. */
  lemma OptionsMinimumOf(e: Energy, x: int, y: int)
    requires e.Valid() && e.width >= 2 && 0 <= x < e.width && 1 <= y < e.height
    ensures var minList := OptionCosts(e, x, y);
            && SeqMin(minList) == Best(e, x, y)
            && OptionsOf(e, x, y)[LastIndexOf(minList, SeqMin(minList))] == Parent(e, x, y)
  {
    if x == 0 {
      MinOfTwo(Cost(e, x, y - 1), Cost(e, x + 1, y - 1));
    } else if x == e.width - 1 {
      MinOfTwo(Cost(e, x - 1, y - 1), Cost(e, x, y - 1));
    } else {
      MinOfThree(Cost(e, x - 1, y - 1), Cost(e, x, y - 1), Cost(e, x + 1, y - 1));
    }
  }

  /** The least seam energies into the options of (x, y), in order. */
  function OptionCosts(e: Energy, x: int, y: int): (costs: seq<int>)
    requires e.Valid() && e.width >= 2 && 0 <= x < e.width && 1 <= y < e.height
    ensures |costs| == |OptionsOf(e, x, y)|
    ensures forall j :: 0 <= j < |costs| ==> costs[j] == Cost(e, OptionsOf(e, x, y)[j].x, y - 1)
  {
    if x == 0 then [Cost(e, x, y - 1), Cost(e, x + 1, y - 1)]
    else if x == e.width - 1 then [Cost(e, x - 1, y - 1), Cost(e, x, y - 1)]
    else [Cost(e, x - 1, y - 1), Cost(e, x, y - 1), Cost(e, x + 1, y - 1)]
  }

  // ---------------------------------------------------------------------------
  // The tables `dynamic_best_seam` fills
  // ---------------------------------------------------------------------------

  /** The pixels of the rows above y, and of row y left of column x. */
  ghost predicate Before(e: Energy, p: Pixel, x: int, y: int)
  {
    e.Contains(p) && (p.y < y || (p.y == y && p.x < x))
  }

  /** `memoized` holds exactly the pixels before (x, y), each with its least seam energy. */
  ghost predicate CostsFilled(e: Energy, memoized: map<Pixel, int>, x: int, y: int)
    requires e.Valid() && e.width >= 2
  {
    && (forall p {:trigger p in memoized} :: p in memoized <==> Before(e, p, x, y))
    && (forall p {:trigger memoized[p]} :: p in memoized && Before(e, p, x, y) ==> memoized[p] == Cost(e, p.x, p.y))
  }

  /** `temp` holds exactly the pixels before (x, y), each with its recorded seam. */
  ghost predicate SeamsFilled(e: Energy, temp: map<Pixel, seq<Pixel>>, x: int, y: int)
    requires e.Valid() && e.width >= 2
  {
    && (forall p {:trigger p in temp} :: p in temp <==> Before(e, p, x, y))
    && (forall p {:trigger temp[p]} :: p in temp && Before(e, p, x, y) ==> temp[p] == Path(e, p.x, p.y))
  }

  /** Recording the least energy of (x, y) fills `memoized` one pixel further. */
  lemma CostsFilledNext(e: Energy, memoized: map<Pixel, int>, x: int, y: int, c: int)
    requires e.Valid() && e.width >= 2 && 0 <= x < e.width && 0 <= y < e.height
    requires CostsFilled(e, memoized, x, y) && c == Cost(e, x, y)
    ensures CostsFilled(e, memoized[Pixel(x, y) := c], x + 1, y)
  {
  }

  /** Recording the seam of (x, y) fills `temp` one pixel further. */
  lemma SeamsFilledNext(e: Energy, temp: map<Pixel, seq<Pixel>>, x: int, y: int, s: seq<Pixel>)
    requires e.Valid() && e.width >= 2 && 0 <= x < e.width && 0 <= y < e.height
    requires SeamsFilled(e, temp, x, y) && s == Path(e, x, y)
    ensures SeamsFilled(e, temp[Pixel(x, y) := s], x + 1, y)
  {
    var next := temp[Pixel(x, y) := s];
    forall q | q in next && Before(e, q, x + 1, y)
      ensures next[q] == Path(e, q.x, q.y)
    {
      if q != Pixel(x, y) {
        assert q in temp && Before(e, q, x, y);
      }
    }
  }

  /** Past the last column of row y is the start of row y + 1. */
  lemma FilledRowEnd(e: Energy, memoized: map<Pixel, int>, temp: map<Pixel, seq<Pixel>>, y: int)
    requires e.Valid() && e.width >= 2
    requires CostsFilled(e, memoized, e.width, y) && SeamsFilled(e, temp, e.width, y)
    ensures CostsFilled(e, memoized, 0, y + 1) && SeamsFilled(e, temp, 0, y + 1)
  {
    assert forall p :: Before(e, p, e.width, y) == Before(e, p, 0, y + 1);
  }

  // ---------------------------------------------------------------------------
  // The image object
  // ---------------------------------------------------------------------------

  /**
   * `ResizeableImage`: the energy table `energy_list` and the two tables
   * `dynamic_best_seam` fills in place, `memoized` (the least energy of a
   * seam into each pixel) and `temp` (that seam).
   */
  class ResizeableImage {
    const energyList: Energy
    var memoized: map<Pixel, int>
    var temp: map<Pixel, seq<Pixel>>

    constructor(energyList: Energy)
      requires energyList.Valid()
      ensures this.energyList == energyList && memoized == map[] && temp == map[]
    {
      this.energyList := energyList;
      memoized := map[];
      temp := map[];
    }

    /**
     * The tables hold exactly the pixels before (x, y), each with its least
     * seam energy and its recorded seam.
     */
    ghost predicate Filled(x: int, y: int)
      reads this
      requires energyList.Valid() && energyList.width >= 2
    {
      CostsFilled(energyList, memoized, x, y) && SeamsFilled(energyList, temp, x, y)
    }

    /**
     * The body of the inner loop of `dynamic_best_seam` for one pixel (x, y)
     * below the top row: gather the options' energies, record the least one
     * plus the pixel's own, and extend the seam of the last option holding
     * that least energy. Returns `min(min_list)` and the last option, which
     * the bottom-row scan uses.
     */
    method FillCell(x: int, y: int) returns (minEnergy: int, option: Pixel)
      requires energyList.Valid() && energyList.width >= 2
      requires 0 <= x < energyList.width && 1 <= y < energyList.height
      requires Filled(x, y)
      modifies this
      ensures memoized == old(memoized)[Pixel(x, y) := Cost(energyList, x, y)]
      ensures temp == old(temp)[Pixel(x, y) := Path(energyList, x, y)]
      ensures Filled(x + 1, y)
      ensures minEnergy == Best(energyList, x, y)
      ensures option == OptionsOf(energyList, x, y)[|OptionsOf(energyList, x, y)| - 1]
    {
      var minList, minListPath;
      minEnergy, minList, minListPath, option := LeastOption(x, y);
      ghost var parent := Parent(energyList, x, y);
      assert Before(energyList, parent, x, y);
      var cost := minEnergy + energyList.At(Pixel(x, y));
      UpdateSame(memoized, Pixel(x, y), cost, Cost(energyList, x, y));
      CostsFilledNext(energyList, memoized, x, y, cost);
      memoized := memoized[Pixel(x, y) := cost];
      ExtendSeam(x, y, minList, minListPath, minEnergy);
      SeamsFilledNext(energyList, old(temp), x, y, Path(energyList, x, y));
    }

    /**
     * The options of the pixel (x, y), their recorded energies `min_list`,
     * the map `min_list_path` and the least of those energies: it is `Best`,
     * and the option recorded for it is the parent of (x, y).
     */
    method LeastOption(x: int, y: int)
      returns (minEnergy: int, minList: seq<int>, minListPath: map<int, Pixel>, option: Pixel)
      requires energyList.Valid() && energyList.width >= 2
      requires 0 <= x < energyList.width && 1 <= y < energyList.height
      requires CostsFilled(energyList, memoized, x, y)
      ensures minEnergy == Best(energyList, x, y) && minEnergy in minList
      ensures minEnergy in minListPath && minListPath[minEnergy] == Parent(energyList, x, y)
      ensures option == OptionsOf(energyList, x, y)[|OptionsOf(energyList, x, y)| - 1]
    {
      var leftPixel, middlePixel, rightPixel := Pixel(x - 1, y - 1), Pixel(x, y - 1), Pixel(x + 1, y - 1);
      var options;
      if x == 0 {
        options := [middlePixel, rightPixel];
      } else if x == energyList.width - 1 {
        options := [leftPixel, middlePixel];
      } else {
        options := [leftPixel, middlePixel, rightPixel];
      }
      assert options == OptionsOf(energyList, x, y);
      minList, minListPath, option := GatherOptions(x, y, options);
      OptionsMinimum(energyList, x, y, minList);
      minEnergy := SeqMin(minList);
    }

    /**
     * The first inner loop of `dynamic_best_seam` for the pixel (x, y):
     * `min_list` lists the recorded energies of the options in order, and
     * `min_list_path` maps each of those energies to the last option
     * holding it.
     */
    method GatherOptions(x: int, y: int, options: seq<Pixel>)
      returns (minList: seq<int>, minListPath: map<int, Pixel>, option: Pixel)
      requires energyList.Valid() && energyList.width >= 2
      requires 0 <= x < energyList.width && 1 <= y < energyList.height
      requires CostsFilled(energyList, memoized, x, y) && options == OptionsOf(energyList, x, y)
      ensures |minList| == |options|
      ensures forall j :: 0 <= j < |options| ==> minList[j] == Cost(energyList, options[j].x, y - 1)
      ensures forall v :: v in minListPath <==> v in minList
      ensures forall v :: v in minListPath ==> minListPath[v] == options[LastIndexOf(minList, v)]
      ensures option == options[|options| - 1]
    {
      minList := [];
      minListPath := map[];
      option := options[0];
      for i := 0 to |options|
        invariant |minList| == i
        invariant forall j :: 0 <= j < i ==> minList[j] == Cost(energyList, options[j].x, y - 1)
        invariant forall v :: v in minListPath <==> v in minList
        invariant forall v :: v in minListPath ==> minListPath[v] == options[LastIndexOf(minList, v)]
        invariant i > 0 ==> option == options[i - 1]
      {
        option := options[i];
        assert Before(energyList, option, x, y);
        LastIndexOfSnoc(minList, memoized[option]);
        minList := minList + [memoized[option]];
        minListPath := minListPath[memoized[option] := option];
      }
    }

    /**
     * The second inner loop of `dynamic_best_seam` for the pixel (x, y):
     * every entry of `min_list` equal to the least one sets the seam into
     * (x, y) to the seam of the option recorded for it, followed by (x, y).
     */
    method ExtendSeam(x: int, y: int, minList: seq<int>, minListPath: map<int, Pixel>, minEnergy: int)
      requires energyList.Valid() && energyList.width >= 2
      requires 0 <= x < energyList.width && 1 <= y < energyList.height
      requires minEnergy in minList && minEnergy in minListPath
      requires var p := Parent(energyList, x, y);
               minListPath[minEnergy] == p && p in temp && temp[p] == Path(energyList, p.x, p.y)
      modifies this
      ensures memoized == old(memoized)
      ensures temp == old(temp)[Pixel(x, y) := Path(energyList, x, y)]
    {
      ghost var seam := Path(energyList, x, y);
      for i := 0 to |minList|
        invariant memoized == old(memoized)
        invariant temp == old(temp) || temp == old(temp)[Pixel(x, y) := seam]
        invariant minEnergy in minList[..i] ==> temp == old(temp)[Pixel(x, y) := seam]
      {
        var lowest := minList[i];
        if lowest == minEnergy {
          temp := temp[Pixel(x, y) := temp[minListPath[lowest]] + [Pixel(x, y)]];
        }
      }
      assert minList[..|minList|] == minList;
    }

    /**
     * `naive_best_seam`: the naive seam of every column but the last in
     * turn, keeping the last one computed.
     */
    method NaiveBestSeam() returns (seamList: seq<Pixel>)
      requires energyList.Valid() && energyList.height >= 1
      ensures seamList == NaiveResult(energyList)
    {
      seamList := [];
      var x := 0;
      while x < energyList.width - 1
        invariant 0 <= x && (x == 0 || x <= energyList.width - 1)
        invariant seamList == NaiveAfter(energyList, x)
      {
        seamList := RecursiveBestSeam(energyList, x, 0);
        x := x + 1;
      }
    }

    /** `compute_seam_energy`: the sum of `energy_list` over the pixels of `seam`. */
    method ComputeSeamEnergy(seam: seq<Pixel>) returns (totalEnergy: int)
      requires energyList.Valid() && InBounds(energyList, seam)
      ensures totalEnergy == SeamEnergy(energyList, seam)
    {
      totalEnergy := 0;
      for i := 0 to |seam|
        invariant InBounds(energyList, seam[..i])
        invariant totalEnergy == SeamEnergy(energyList, seam[..i])
      {
        InBoundsPrefix(energyList, seam, i);
        SeamEnergySnoc(energyList, seam[..i], seam[i]);
        assert seam[..i + 1] == seam[..i] + [seam[i]];
        totalEnergy := totalEnergy + energyList.At(seam[i]);
      }
      assert seam[..|seam|] == seam;
    }

    /**
     * `dynamic_best_seam`: fill the top row, then every row below it left to
     * right, keeping in `row_minimum` the bottom-row pixel of least energy
     * seen so far (first one on a tie) together with the last option of that
     * pixel; return that option's seam followed by the pixel. A grid
     * narrower or shorter than two pixels makes the source fail with a
     * KeyError or IndexError.
     */
    method DynamicBestSeam() returns (seam: seq<Pixel>)
      requires energyList.Valid() && energyList.width >= 2 && energyList.height >= 2
      modifies this
      ensures forall p :: p in memoized <==> energyList.Contains(p)
      ensures forall p :: p in temp <==> energyList.Contains(p)
      ensures forall p :: energyList.Contains(p) ==>
                memoized[p] == Cost(energyList, p.x, p.y) && temp[p] == Path(energyList, p.x, p.y)
      ensures seam == DpResult(energyList)
    {
      FillTopRow();
      var rowMinimum: Option<RowMinimum> := None;
      for y := 1 to energyList.height
        invariant Filled(0, y)
        invariant rowMinimum == if y == energyList.height then Some(RowMinimumAfter(energyList, energyList.width)) else None
      {
        rowMinimum := FillRow(y, rowMinimum);
      }
      assert Filled(0, energyList.height);
      var r := RowMinimumAfter(energyList, energyList.width);
      assert Before(energyList, r.parent, 0, energyList.height);
      seam := temp[rowMinimum.value.parent] + [rowMinimum.value.pixel];
    }

    /** The first loop of `dynamic_best_seam`: each top-row pixel costs its own energy. */
    method FillTopRow()
      requires energyList.Valid() && energyList.width >= 2 && energyList.height >= 1
      modifies this
      ensures Filled(0, 1)
    {
      temp := map[];
      memoized := map[];
      for x := 0 to energyList.width
        invariant Filled(x, 0)
      {
        CostsFilledNext(energyList, memoized, x, 0, energyList.At(Pixel(x, 0)));
        SeamsFilledNext(energyList, temp, x, 0, [Pixel(x, 0)]);
        memoized := memoized[Pixel(x, 0) := energyList.At(Pixel(x, 0))];
        temp := temp[Pixel(x, 0) := [Pixel(x, 0)]];
      }
      FilledRowEnd(energyList, memoized, temp, 0);
    }

    /**
     * One pass of the row loop of `dynamic_best_seam` over row y, left to
     * right; on the bottom row it also scans for `row_minimum`.
     */
    method FillRow(y: int, rowMinimum: Option<RowMinimum>) returns (rowMinimum': Option<RowMinimum>)
      requires energyList.Valid() && energyList.width >= 2 && 1 <= y < energyList.height
      requires Filled(0, y) && rowMinimum == None
      modifies this
      ensures Filled(0, y + 1)
      ensures rowMinimum' == if y == energyList.height - 1 then Some(RowMinimumAfter(energyList, energyList.width)) else None
    {
      rowMinimum' := rowMinimum;
      for x := 0 to energyList.width
        invariant Filled(x, y)
        invariant if y == energyList.height - 1 && x > 0 then rowMinimum' == Some(RowMinimumAfter(energyList, x))
                  else rowMinimum' == None
      {
        var minEnergy, option := FillCell(x, y);
        if y == energyList.height - 1 {
          rowMinimum' := ScanBottom(x, rowMinimum', minEnergy, option);
        }
      }
      FilledRowEnd(energyList, memoized, temp, y);
    }

    /**
     * The bottom-row part of the inner loop of `dynamic_best_seam` at column
     * x: the first column starts the record, and a later one replaces it
     * only when its recorded energy is strictly smaller.
     */
    method ScanBottom(x: int, rowMinimum: Option<RowMinimum>, minEnergy: int, option: Pixel)
      returns (rowMinimum': Option<RowMinimum>)
      requires energyList.Valid() && energyList.width >= 2 && energyList.height >= 2
      requires 0 <= x < energyList.width
      requires Pixel(x, energyList.height - 1) in memoized
      requires memoized[Pixel(x, energyList.height - 1)] == BottomCost(energyList, x)
      requires minEnergy == Best(energyList, x, energyList.height - 1)
      requires option == OptionsOf(energyList, x, energyList.height - 1)[|OptionsOf(energyList, x, energyList.height - 1)| - 1]
      requires rowMinimum == if x > 0 then Some(RowMinimumAfter(energyList, x)) else None
      ensures rowMinimum' == Some(RowMinimumAfter(energyList, x + 1))
    {
      var y := energyList.height - 1;
      if x == 0 {
        rowMinimum' := Some(RowMinimum(memoized[Pixel(x, y)], Pixel(x, y), minEnergy, option));
      } else if rowMinimum.value.energy > memoized[Pixel(x, y)] {
        rowMinimum' := Some(RowMinimum(memoized[Pixel(x, y)], Pixel(x, y), minEnergy, option));
      } else {
        rowMinimum' := rowMinimum;
      }
      if x > 0 {
        RowMinimumAfterNext(energyList, x);
      }
    }
  }
}
