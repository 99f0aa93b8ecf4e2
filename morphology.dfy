/**
 * Specification-level `cv2.dilate` and `cv2.erode` with a k-by-k all-ones
 * kernel and one iteration.  The kernel is anchored at its centre
 * (OpenCV's default anchor, k/2), so the neighbourhood of position x runs
 * from x - k/2 to x + (k - 1 - k/2).  Neighbours outside the image are
 * ignored: they add nothing to a dilation and do not block an erosion.
 * A dilated pixel is the largest value in its neighbourhood, an eroded one
 * the smallest.
 */
module Morphology {
  import opened Grids

  /** OpenCV's default anchor of a k-wide kernel: its centre. */
  function Anchor(k: nat): nat { k / 2 }

  /** Position y (of a dimension of length n) is in the neighbourhood of x under a k-wide kernel. */
  predicate InWindow(y: int, x: int, k: nat, n: nat) {
    0 <= y < n && x - Anchor(k) <= y <= x + (k - 1 - Anchor(k))
  }

  /** First neighbour of x inside the image. */
  function WindowLo(x: nat, k: nat): nat {
    if x < Anchor(k) then 0 else x - Anchor(k)
  }

  /** One past the last neighbour of x inside an image dimension of length n. */
  function WindowHi(x: nat, k: nat, n: nat): nat {
    if x + k - Anchor(k) < n then x + k - Anchor(k) else n
  }

  /** The clipped range [WindowLo, WindowHi) is exactly the neighbourhood, and holds x itself. */
  lemma WindowRange(x: nat, k: nat, n: nat)
    requires 1 <= k && x < n
    ensures WindowLo(x, k) <= x < WindowHi(x, k, n) <= n
    ensures forall y :: InWindow(y, x, k, n) <==> WindowLo(x, k) <= y < WindowHi(x, k, n)
  {
  }

  function Max(a: Byte, b: Byte): Byte { if a < b then b else a }
  function Min(a: Byte, b: Byte): Byte { if a < b then a else b }

  lemma MaxBounds(a: Byte, b: Byte)
    ensures a <= Max(a, b) && b <= Max(a, b)
  {
  }

  lemma MinBounds(a: Byte, b: Byte)
    ensures Min(a, b) <= a && Min(a, b) <= b
  {
  }

  /** Largest of row[lo..hi]; 0 for an empty range. */
  function RowMax(row: seq<Byte>, lo: nat, hi: nat): Byte
    requires lo <= hi <= |row|
    decreases hi - lo
  {
    if lo == hi then 0 else Max(RowMax(row, lo, hi - 1), row[hi - 1])
  }

  /** Smallest of row[lo..hi]; 255 for an empty range. */
  function RowMin(row: seq<Byte>, lo: nat, hi: nat): Byte
    requires lo <= hi <= |row|
    decreases hi - lo
  {
    if lo == hi then 255 else Min(RowMin(row, lo, hi - 1), row[hi - 1])
  }

  /** Largest cell of rows r0..r1, columns c0..c1 of g. */
  function BoxMax(g: Grid<Byte>, r0: nat, r1: nat, c0: nat, c1: nat): Byte
    requires g.Valid() && r0 <= r1 <= g.h && c0 <= c1 <= g.w
    decreases r1 - r0
  {
    if r0 == r1 then 0 else Max(BoxMax(g, r0, r1 - 1, c0, c1), RowMax(g.cells[r1 - 1], c0, c1))
  }

  /** Smallest cell of rows r0..r1, columns c0..c1 of g. */
  function BoxMin(g: Grid<Byte>, r0: nat, r1: nat, c0: nat, c1: nat): Byte
    requires g.Valid() && r0 <= r1 <= g.h && c0 <= c1 <= g.w
    decreases r1 - r0
  {
    if r0 == r1 then 255 else Min(BoxMin(g, r0, r1 - 1, c0, c1), RowMin(g.cells[r1 - 1], c0, c1))
  }

  /** `cv2.dilate(g, np.ones((k, k), np.uint8), iterations=1)`. */
  function Dilate(g: Grid<Byte>, k: nat): (r: Grid<Byte>)
    requires g.Valid() && 1 <= k
    ensures r.Valid() && r.h == g.h && r.w == g.w
  {
    Grid(g.h, g.w, seq(g.h, i requires 0 <= i < g.h =>
      seq(g.w, j requires 0 <= j < g.w =>
        BoxMax(g, WindowLo(i, k), WindowHi(i, k, g.h), WindowLo(j, k), WindowHi(j, k, g.w)))))
  }

  /** `cv2.erode(g, np.ones((k, k), np.uint8), iterations=1)`. */
  function Erode(g: Grid<Byte>, k: nat): (r: Grid<Byte>)
    requires g.Valid() && 1 <= k
    ensures r.Valid() && r.h == g.h && r.w == g.w
  {
    Grid(g.h, g.w, seq(g.h, i requires 0 <= i < g.h =>
      seq(g.w, j requires 0 <= j < g.w =>
        BoxMin(g, WindowLo(i, k), WindowHi(i, k, g.h), WindowLo(j, k), WindowHi(j, k, g.w)))))
  }

  // ------------------------------------------------------------------
  // Window maxima and minima: bounds, witnesses, monotonicity.
  // ------------------------------------------------------------------

  lemma {:induction false} RowMaxUpper(row: seq<Byte>, lo: nat, hi: nat, x: nat)
    requires lo <= x < hi <= |row|
    ensures row[x] <= RowMax(row, lo, hi)
    decreases hi - lo
  {
    if x < hi - 1 {
      RowMaxUpper(row, lo, hi - 1, x);
    }
  }

  lemma {:induction false} RowMinLower(row: seq<Byte>, lo: nat, hi: nat, x: nat)
    requires lo <= x < hi <= |row|
    ensures RowMin(row, lo, hi) <= row[x]
    decreases hi - lo
  {
    if x < hi - 1 {
      RowMinLower(row, lo, hi - 1, x);
    }
  }

  lemma {:induction false} RowMaxAttained(row: seq<Byte>, lo: nat, hi: nat)
    requires lo < hi <= |row|
    ensures exists x :: lo <= x < hi && RowMax(row, lo, hi) == row[x]
    decreases hi - lo
  {
    if lo == hi - 1 {
      assert RowMax(row, lo, hi) == row[lo];
    } else {
      RowMaxAttained(row, lo, hi - 1);
      var x :| lo <= x < hi - 1 && RowMax(row, lo, hi - 1) == row[x];
      if RowMax(row, lo, hi - 1) < row[hi - 1] {
        assert RowMax(row, lo, hi) == row[hi - 1];
      } else {
        assert RowMax(row, lo, hi) == row[x];
      }
    }
  }

  lemma {:induction false} RowMinAttained(row: seq<Byte>, lo: nat, hi: nat)
    requires lo < hi <= |row|
    ensures exists x :: lo <= x < hi && RowMin(row, lo, hi) == row[x]
    decreases hi - lo
  {
    if lo == hi - 1 {
      assert RowMin(row, lo, hi) == row[lo];
    } else {
      RowMinAttained(row, lo, hi - 1);
      var x :| lo <= x < hi - 1 && RowMin(row, lo, hi - 1) == row[x];
      if RowMin(row, lo, hi - 1) > row[hi - 1] {
        assert RowMin(row, lo, hi) == row[hi - 1];
      } else {
        assert RowMin(row, lo, hi) == row[x];
      }
    }
  }

  lemma {:induction false} RowMaxMonotone(row1: seq<Byte>, row2: seq<Byte>, lo: nat, hi: nat)
    requires lo <= hi <= |row1| && hi <= |row2|
    requires forall x :: lo <= x < hi ==> row1[x] <= row2[x]
    ensures RowMax(row1, lo, hi) <= RowMax(row2, lo, hi)
  {
    if lo < hi {
      RowMaxAttained(row1, lo, hi);
      var x :| lo <= x < hi && RowMax(row1, lo, hi) == row1[x];
      RowMaxUpper(row2, lo, hi, x);
    }
  }

  lemma {:induction false} RowMinMonotone(row1: seq<Byte>, row2: seq<Byte>, lo: nat, hi: nat)
    requires lo <= hi <= |row1| && hi <= |row2|
    requires forall x :: lo <= x < hi ==> row1[x] <= row2[x]
    ensures RowMin(row1, lo, hi) <= RowMin(row2, lo, hi)
  {
    if lo < hi {
      RowMinAttained(row2, lo, hi);
      var x :| lo <= x < hi && RowMin(row2, lo, hi) == row2[x];
      RowMinLower(row1, lo, hi, x);
    }
  }

  lemma {:induction false} BoxMaxUpper(g: Grid<Byte>, r0: nat, r1: nat, c0: nat, c1: nat, y: nat, x: nat)
    requires g.Valid() && r0 <= y < r1 <= g.h && c0 <= x < c1 <= g.w
    ensures g.cells[y][x] <= BoxMax(g, r0, r1, c0, c1)
    decreases r1 - r0
  {
    var top, last := BoxMax(g, r0, r1 - 1, c0, c1), RowMax(g.cells[r1 - 1], c0, c1);
    MaxBounds(top, last);
    if y < r1 - 1 {
      BoxMaxUpper(g, r0, r1 - 1, c0, c1, y, x);
    } else {
      RowMaxUpper(g.cells[y], c0, c1, x);
    }
  }

  lemma {:induction false} BoxMinLower(g: Grid<Byte>, r0: nat, r1: nat, c0: nat, c1: nat, y: nat, x: nat)
    requires g.Valid() && r0 <= y < r1 <= g.h && c0 <= x < c1 <= g.w
    ensures BoxMin(g, r0, r1, c0, c1) <= g.cells[y][x]
    decreases r1 - r0
  {
    var top, last := BoxMin(g, r0, r1 - 1, c0, c1), RowMin(g.cells[r1 - 1], c0, c1);
    MinBounds(top, last);
    if y < r1 - 1 {
      BoxMinLower(g, r0, r1 - 1, c0, c1, y, x);
    } else {
      RowMinLower(g.cells[y], c0, c1, x);
    }
  }

  lemma {:induction false} BoxMaxAttained(g: Grid<Byte>, r0: nat, r1: nat, c0: nat, c1: nat)
    requires g.Valid() && r0 < r1 <= g.h && c0 < c1 <= g.w
    ensures exists y, x :: r0 <= y < r1 && c0 <= x < c1 && BoxMax(g, r0, r1, c0, c1) == g.cells[y][x]
    decreases r1 - r0
  {
    RowMaxAttained(g.cells[r1 - 1], c0, c1);
    var x1 :| c0 <= x1 < c1 && RowMax(g.cells[r1 - 1], c0, c1) == g.cells[r1 - 1][x1];
    if r0 == r1 - 1 {
      assert BoxMax(g, r0, r1, c0, c1) == g.cells[r1 - 1][x1];
    } else {
      BoxMaxAttained(g, r0, r1 - 1, c0, c1);
      var y0, x0 :| r0 <= y0 < r1 - 1 && c0 <= x0 < c1 && BoxMax(g, r0, r1 - 1, c0, c1) == g.cells[y0][x0];
      if BoxMax(g, r0, r1 - 1, c0, c1) < RowMax(g.cells[r1 - 1], c0, c1) {
        assert BoxMax(g, r0, r1, c0, c1) == g.cells[r1 - 1][x1];
      } else {
        assert BoxMax(g, r0, r1, c0, c1) == g.cells[y0][x0];
      }
    }
  }

  lemma {:induction false} BoxMinAttained(g: Grid<Byte>, r0: nat, r1: nat, c0: nat, c1: nat)
    requires g.Valid() && r0 < r1 <= g.h && c0 < c1 <= g.w
    ensures exists y, x :: r0 <= y < r1 && c0 <= x < c1 && BoxMin(g, r0, r1, c0, c1) == g.cells[y][x]
    decreases r1 - r0
  {
    RowMinAttained(g.cells[r1 - 1], c0, c1);
    var x1 :| c0 <= x1 < c1 && RowMin(g.cells[r1 - 1], c0, c1) == g.cells[r1 - 1][x1];
    if r0 == r1 - 1 {
      assert BoxMin(g, r0, r1, c0, c1) == g.cells[r1 - 1][x1];
    } else {
      BoxMinAttained(g, r0, r1 - 1, c0, c1);
      var y0, x0 :| r0 <= y0 < r1 - 1 && c0 <= x0 < c1 && BoxMin(g, r0, r1 - 1, c0, c1) == g.cells[y0][x0];
      if BoxMin(g, r0, r1 - 1, c0, c1) > RowMin(g.cells[r1 - 1], c0, c1) {
        assert BoxMin(g, r0, r1, c0, c1) == g.cells[r1 - 1][x1];
      } else {
        assert BoxMin(g, r0, r1, c0, c1) == g.cells[y0][x0];
      }
    }
  }

  /** Pointwise order between two grids of one shape. */
  ghost predicate Below(g1: Grid<Byte>, g2: Grid<Byte>)
    requires g1.Valid() && g2.Valid() && g1.h == g2.h && g1.w == g2.w
  {
    forall i, j :: 0 <= i < g1.h && 0 <= j < g1.w ==> g1.cells[i][j] <= g2.cells[i][j]
  }

  lemma {:induction false} BoxMaxMonotone(g1: Grid<Byte>, g2: Grid<Byte>, r0: nat, r1: nat, c0: nat, c1: nat)
    requires g1.Valid() && g2.Valid() && g1.h == g2.h && g1.w == g2.w && Below(g1, g2)
    requires r0 <= r1 <= g1.h && c0 <= c1 <= g1.w
    ensures BoxMax(g1, r0, r1, c0, c1) <= BoxMax(g2, r0, r1, c0, c1)
    decreases r1 - r0
  {
    if r0 < r1 {
      BoxMaxMonotone(g1, g2, r0, r1 - 1, c0, c1);
      RowMaxMonotone(g1.cells[r1 - 1], g2.cells[r1 - 1], c0, c1);
    }
  }

  lemma {:induction false} BoxMinMonotone(g1: Grid<Byte>, g2: Grid<Byte>, r0: nat, r1: nat, c0: nat, c1: nat)
    requires g1.Valid() && g2.Valid() && g1.h == g2.h && g1.w == g2.w && Below(g1, g2)
    requires r0 <= r1 <= g1.h && c0 <= c1 <= g1.w
    ensures BoxMin(g1, r0, r1, c0, c1) <= BoxMin(g2, r0, r1, c0, c1)
    decreases r1 - r0
  {
    if r0 < r1 {
      BoxMinMonotone(g1, g2, r0, r1 - 1, c0, c1);
      RowMinMonotone(g1.cells[r1 - 1], g2.cells[r1 - 1], c0, c1);
    }
  }

  // ------------------------------------------------------------------
  // The four facts the mask pipeline relies on.
  // ------------------------------------------------------------------

  /** Dilation is extensive: the anchor lies inside the kernel, so every pixel is its own neighbour. */
  lemma DilateExtensive(g: Grid<Byte>, k: nat)
    requires g.Valid() && 1 <= k
    ensures Below(g, Dilate(g, k))
  {
    forall i, j | 0 <= i < g.h && 0 <= j < g.w
      ensures g.cells[i][j] <= Dilate(g, k).cells[i][j]
    {
      WindowRange(i, k, g.h);
      WindowRange(j, k, g.w);
      BoxMaxUpper(g, WindowLo(i, k), WindowHi(i, k, g.h), WindowLo(j, k), WindowHi(j, k, g.w), i, j);
    }
  }

  /** Erosion is anti-extensive. */
  lemma ErodeAntiExtensive(g: Grid<Byte>, k: nat)
    requires g.Valid() && 1 <= k
    ensures Below(Erode(g, k), g)
  {
    forall i, j | 0 <= i < g.h && 0 <= j < g.w
      ensures Erode(g, k).cells[i][j] <= g.cells[i][j]
    {
      WindowRange(i, k, g.h);
      WindowRange(j, k, g.w);
      BoxMinLower(g, WindowLo(i, k), WindowHi(i, k, g.h), WindowLo(j, k), WindowHi(j, k, g.w), i, j);
    }
  }

  /** Dilation is monotone. */
  lemma DilateMonotone(g1: Grid<Byte>, g2: Grid<Byte>, k: nat)
    requires g1.Valid() && g2.Valid() && g1.h == g2.h && g1.w == g2.w && 1 <= k
    requires Below(g1, g2)
    ensures Below(Dilate(g1, k), Dilate(g2, k))
  {
    forall i, j | 0 <= i < g1.h && 0 <= j < g1.w
      ensures Dilate(g1, k).cells[i][j] <= Dilate(g2, k).cells[i][j]
    {
      WindowRange(i, k, g1.h);
      WindowRange(j, k, g1.w);
      BoxMaxMonotone(g1, g2, WindowLo(i, k), WindowHi(i, k, g1.h), WindowLo(j, k), WindowHi(j, k, g1.w));
    }
  }

  /** Erosion is monotone. */
  lemma ErodeMonotone(g1: Grid<Byte>, g2: Grid<Byte>, k: nat)
    requires g1.Valid() && g2.Valid() && g1.h == g2.h && g1.w == g2.w && 1 <= k
    requires Below(g1, g2)
    ensures Below(Erode(g1, k), Erode(g2, k))
  {
    forall i, j | 0 <= i < g1.h && 0 <= j < g1.w
      ensures Erode(g1, k).cells[i][j] <= Erode(g2, k).cells[i][j]
    {
      WindowRange(i, k, g1.h);
      WindowRange(j, k, g1.w);
      BoxMinMonotone(g1, g2, WindowLo(i, k), WindowHi(i, k, g1.h), WindowLo(j, k), WindowHi(j, k, g1.w));
    }
  }

  // ------------------------------------------------------------------
  // On binary masks: the textbook set definitions.
  // ------------------------------------------------------------------

  /**
   * On a binary mask, a dilated pixel is 1 exactly when some neighbour
   * inside the image is 1, and 0 otherwise: the result is again binary.
   */
  lemma DilateBinaryAt(g: Grid<Byte>, k: nat, i: nat, j: nat)
    requires g.Valid() && 1 <= k && IsBinary(g) && i < g.h && j < g.w
    ensures Dilate(g, k).cells[i][j] == 0 || Dilate(g, k).cells[i][j] == 1
    ensures Dilate(g, k).cells[i][j] == 1 <==>
      exists y, x :: InWindow(y, i, k, g.h) && InWindow(x, j, k, g.w) && g.cells[y][x] == 1
  {
    WindowRange(i, k, g.h);
    WindowRange(j, k, g.w);
    var r0, r1, c0, c1 := WindowLo(i, k), WindowHi(i, k, g.h), WindowLo(j, k), WindowHi(j, k, g.w);
    BoxMaxAttained(g, r0, r1, c0, c1);
    var y0, x0 :| r0 <= y0 < r1 && c0 <= x0 < c1 && BoxMax(g, r0, r1, c0, c1) == g.cells[y0][x0];
    assert InWindow(y0, i, k, g.h) && InWindow(x0, j, k, g.w);
    if exists y, x :: InWindow(y, i, k, g.h) && InWindow(x, j, k, g.w) && g.cells[y][x] == 1 {
      var y, x :| InWindow(y, i, k, g.h) && InWindow(x, j, k, g.w) && g.cells[y][x] == 1;
      BoxMaxUpper(g, r0, r1, c0, c1, y, x);
    }
  }

  /**
   * On a binary mask, an eroded pixel is 1 exactly when every neighbour
   * inside the image is 1, and 0 otherwise: the result is again binary.
   */
  lemma ErodeBinaryAt(g: Grid<Byte>, k: nat, i: nat, j: nat)
    requires g.Valid() && 1 <= k && IsBinary(g) && i < g.h && j < g.w
    ensures Erode(g, k).cells[i][j] == 0 || Erode(g, k).cells[i][j] == 1
    ensures Erode(g, k).cells[i][j] == 1 <==>
      forall y, x :: InWindow(y, i, k, g.h) && InWindow(x, j, k, g.w) ==> g.cells[y][x] == 1
  {
    WindowRange(i, k, g.h);
    WindowRange(j, k, g.w);
    var r0, r1, c0, c1 := WindowLo(i, k), WindowHi(i, k, g.h), WindowLo(j, k), WindowHi(j, k, g.w);
    BoxMinAttained(g, r0, r1, c0, c1);
    var y0, x0 :| r0 <= y0 < r1 && c0 <= x0 < c1 && BoxMin(g, r0, r1, c0, c1) == g.cells[y0][x0];
    assert InWindow(y0, i, k, g.h) && InWindow(x0, j, k, g.w);
    if Erode(g, k).cells[i][j] == 1 {
      forall y, x | InWindow(y, i, k, g.h) && InWindow(x, j, k, g.w) ensures g.cells[y][x] == 1 {
        BoxMinLower(g, r0, r1, c0, c1, y, x);
      }
    }
  }

  /** Dilation and erosion of a binary mask are binary. */
  lemma MorphologyKeepsBinary(g: Grid<Byte>, k: nat)
    requires g.Valid() && 1 <= k && IsBinary(g)
    ensures IsBinary(Dilate(g, k)) && IsBinary(Erode(g, k))
  {
    forall i, j | 0 <= i < g.h && 0 <= j < g.w
      ensures Dilate(g, k).cells[i][j] <= 1 && Erode(g, k).cells[i][j] <= 1
    {
      DilateBinaryAt(g, k, i, j);
      ErodeBinaryAt(g, k, i, j);
    }
  }
}
