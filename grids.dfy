/**
 * Two-dimensional arrays of pixels, as numpy holds them: a shape (h, w) and
 * h rows of w cells.  Binary masks are arrays of unsigned bytes (numpy's
 * uint8) holding 0 or 1.
 */
module Grids {

  /** An unsigned 8-bit pixel; `*` on it wraps modulo 256 like numpy's uint8. */
  type Byte = bv8

  /** An h-by-w array stored row by row. */
  datatype Grid<T> = Grid(h: nat, w: nat, cells: seq<seq<T>>) {
    ghost predicate Valid() {
      |cells| == h && forall i :: 0 <= i < h ==> |cells[i]| == w
    }
  }

  /** Every cell of the mask is 0 or 1. */
  ghost predicate IsBinary(g: Grid<Byte>)
    requires g.Valid()
  {
    forall i, j :: 0 <= i < g.h && 0 <= j < g.w ==> g.cells[i][j] == 0 || g.cells[i][j] == 1
  }

  /** numpy's element-wise `a & b` on two uint8 arrays of one shape. */
  function And(a: Grid<Byte>, b: Grid<Byte>): (r: Grid<Byte>)
    requires a.Valid() && b.Valid() && a.h == b.h && a.w == b.w
    ensures r.Valid() && r.h == a.h && r.w == a.w
  {
    Grid(a.h, a.w, seq(a.h, i requires 0 <= i < a.h =>
      seq(a.w, j requires 0 <= j < a.w => a.cells[i][j] & b.cells[i][j])))
  }

  /** numpy's element-wise `a | b`. */
  function Or(a: Grid<Byte>, b: Grid<Byte>): (r: Grid<Byte>)
    requires a.Valid() && b.Valid() && a.h == b.h && a.w == b.w
    ensures r.Valid() && r.h == a.h && r.w == a.w
  {
    Grid(a.h, a.w, seq(a.h, i requires 0 <= i < a.h =>
      seq(a.w, j requires 0 <= j < a.w => a.cells[i][j] | b.cells[i][j])))
  }

  /** numpy's element-wise `a * b` on uint8, which wraps modulo 256. */
  function Mul(a: Grid<Byte>, b: Grid<Byte>): (r: Grid<Byte>)
    requires a.Valid() && b.Valid() && a.h == b.h && a.w == b.w
    ensures r.Valid() && r.h == a.h && r.w == a.w
  {
    Grid(a.h, a.w, seq(a.h, i requires 0 <= i < a.h =>
      seq(a.w, j requires 0 <= j < a.w => a.cells[i][j] * b.cells[i][j])))
  }

  /** The value of `g` after numpy's boolean-index assignment `g[sel] = 0`. */
  function Cleared(g: Grid<Byte>, sel: Grid<bool>): (r: Grid<Byte>)
    requires g.Valid() && sel.Valid() && g.h == sel.h && g.w == sel.w
    ensures r.Valid() && r.h == g.h && r.w == g.w
  {
    Grid(g.h, g.w, seq(g.h, i requires 0 <= i < g.h =>
      seq(g.w, j requires 0 <= j < g.w => if sel.cells[i][j] then 0 else g.cells[i][j])))
  }

  /** `m == 1`, the boolean index `face_buffer == 1`. */
  function IsOne(m: Grid<Byte>): (r: Grid<bool>)
    requires m.Valid()
    ensures r.Valid() && r.h == m.h && r.w == m.w
  {
    Grid(m.h, m.w, seq(m.h, i requires 0 <= i < m.h =>
      seq(m.w, j requires 0 <= j < m.w => m.cells[i][j] == 1)))
  }

  /**
   * The element-wise operations keep masks binary; on binary masks `&` is
   * "both set", `|` is "either set", and the uint8 product coincides with
   * `&`, so multiplying by a 0/1 mask is a hard clip.
   */
  lemma BinaryOps(a: Grid<Byte>, b: Grid<Byte>)
    requires a.Valid() && b.Valid() && a.h == b.h && a.w == b.w
    requires IsBinary(a) && IsBinary(b)
    ensures IsBinary(And(a, b)) && IsBinary(Or(a, b)) && IsBinary(Mul(a, b))
    ensures Mul(a, b) == And(a, b)
    ensures forall i, j :: 0 <= i < a.h && 0 <= j < a.w ==>
      (And(a, b).cells[i][j] == 1 <==> a.cells[i][j] == 1 && b.cells[i][j] == 1)
    ensures forall i, j :: 0 <= i < a.h && 0 <= j < a.w ==>
      (Or(a, b).cells[i][j] == 1 <==> a.cells[i][j] == 1 || b.cells[i][j] == 1)
  {
    var m, n := Mul(a, b), And(a, b);
    forall i | 0 <= i < a.h ensures m.cells[i] == n.cells[i] {
      forall j | 0 <= j < a.w ensures m.cells[i][j] == n.cells[i][j] {
        assert a.cells[i][j] == 0 || a.cells[i][j] == 1;
        assert b.cells[i][j] == 0 || b.cells[i][j] == 1;
      }
    }
  }

  /** Zeroing cells keeps a mask binary. */
  lemma ClearedBinary(g: Grid<Byte>, sel: Grid<bool>)
    requires g.Valid() && sel.Valid() && g.h == sel.h && g.w == sel.w
    requires IsBinary(g)
    ensures IsBinary(Cleared(g, sel))
  {
  }

  // ------------------------------------------------------------------
  // The same arrays held in place, for the steps that assign into them.
  // ------------------------------------------------------------------

  /** The current contents of a two-dimensional array. */
  function Cells(a: array2<Byte>): (g: Grid<Byte>)
    reads a
    ensures g.Valid() && g.h == a.Length0 && g.w == a.Length1
  {
    Grid(a.Length0, a.Length1, seq(a.Length0, i requires 0 <= i < a.Length0 reads a =>
      seq(a.Length1, j requires 0 <= j < a.Length1 reads a => a[i, j])))
  }

  /** Materialises an array value (what numpy does when an expression is evaluated). */
  method FromGrid(g: Grid<Byte>) returns (a: array2<Byte>)
    requires g.Valid()
    ensures fresh(a) && Cells(a) == g
  {
    a := new Byte[g.h, g.w]((i, j) requires 0 <= i < g.h && 0 <= j < g.w => g.cells[i][j]);
    assert forall i :: 0 <= i < g.h ==> Cells(a).cells[i] == g.cells[i];
  }

  /**
   * `a[sel] = 0`: every selected cell of `a` becomes 0 in place and every
   * other cell keeps its value.
   */
  method ZeroWhere(a: array2<Byte>, sel: Grid<bool>)
    requires sel.Valid() && sel.h == a.Length0 && sel.w == a.Length1
    modifies a
    ensures Cells(a) == Cleared(old(Cells(a)), sel)
  {
    ghost var before := Cells(a);
    var i := 0;
    while i < a.Length0
      invariant 0 <= i <= a.Length0
      invariant forall y, x :: 0 <= y < a.Length0 && 0 <= x < a.Length1 ==>
        a[y, x] == if y < i && sel.cells[y][x] then 0 else before.cells[y][x]
    {
      var j := 0;
      while j < a.Length1
        invariant 0 <= j <= a.Length1
        invariant forall y, x :: 0 <= y < a.Length0 && 0 <= x < a.Length1 ==>
          a[y, x] == if (y < i || (y == i && x < j)) && sel.cells[y][x] then 0 else before.cells[y][x]
      {
        if sel.cells[i][j] {
          a[i, j] := 0;
        }
        j := j + 1;
      }
      i := i + 1;
    }
    assert forall y :: 0 <= y < a.Length0 ==> Cells(a).cells[y] == Cleared(before, sel).cells[y];
  }
}
