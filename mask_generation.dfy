/**
 * The binary stages (1 to 6.5) of `generate_inpainting_mask_from_parsing`:
 * from a label map and the target, body and head label sets to the 0/1
 * mask that the soft-edge stage then blurs.
 */
module MaskGeneration {
  import opened Wrappers
  import opened Grids
  import opened Morphology
  import opened Labels

  /** A numpy label array of any dimension: its shape and its cells in row-major order. */
  datatype NdArray = NdArray(shape: seq<nat>, data: seq<int>) {
    ghost predicate Valid() { |data| == Product(shape) }
  }

  function Product(s: seq<nat>): nat {
    if s == [] then 1 else s[0] * Product(s[1..])
  }

  const NotTwoDimensional: string := "parsing must be a 2D array"

  /** The assertion OpenCV's dilate raises (as `cv2.error`) for an image with no pixels. */
  const EmptyImage: string := "(-215:Assertion failed) !src.empty() in function 'dilate'"

  lemma ProductOfTwo(s: seq<nat>)
    requires |s| == 2
    ensures Product(s) == s[0] * s[1]
  {
    assert s[1..][1..] == [];
    assert Product(s[1..]) == s[1] * Product([]);
  }

  lemma RowInBounds(i: nat, h: nat, w: nat)
    requires i < h
    ensures i * w + w <= h * w
  {
    var d := h - (i + 1);
    assert h * w == (i + 1) * w + d * w;
    assert (i + 1) * w == i * w + w;
  }

  /** Row i of an h-by-w array stored row-major in `data`. */
  function RowOf(data: seq<int>, i: nat, h: nat, w: nat): (row: seq<int>)
    requires |data| == h * w && i < h
    ensures |row| == w
  {
    RowInBounds(i, h, w);
    data[i * w .. i * w + w]
  }

  /** AsGrid reads the array row by row: cell (i, j) is element i * w + j. */
  lemma AsGridRowMajor(a: NdArray, i: nat, j: nat)
    requires a.Valid() && |a.shape| == 2 && i < a.shape[0] && j < a.shape[1]
    ensures i * a.shape[1] + j < |a.data| && AsGrid(a).cells[i][j] == a.data[i * a.shape[1] + j]
  {
    ProductOfTwo(a.shape);
    RowInBounds(i, a.shape[0], a.shape[1]);
  }

  /** A two-dimensional array viewed as rows of labels. */
  function AsGrid(a: NdArray): (p: Grid<int>)
    requires a.Valid() && |a.shape| == 2
    ensures p.Valid() && p.h == a.shape[0] && p.w == a.shape[1]
  {
    var h, w := a.shape[0], a.shape[1];
    ProductOfTwo(a.shape);
    Grid(h, w, seq(h, i requires 0 <= i < h => RowOf(a.data, i, h, w)))
  }

  /** `np.isin(parsing, list(labels)).astype(np.uint8)`: 1 exactly where the label is in the set. */
  function IsIn(p: Grid<int>, labels: set<int>): (m: Grid<Byte>)
    requires p.Valid()
    ensures m.Valid() && m.h == p.h && m.w == p.w && IsBinary(m)
    ensures forall i, j :: 0 <= i < p.h && 0 <= j < p.w ==> (m.cells[i][j] == 1 <==> p.cells[i][j] in labels)
  {
    Grid(p.h, p.w, seq(p.h, i requires 0 <= i < p.h =>
      seq(p.w, j requires 0 <= j < p.w => if p.cells[i][j] in labels then 1 else 0)))
  }

  /** `np.isin(parsing, list(labels))` as a boolean index. */
  function Select(p: Grid<int>, labels: set<int>): (m: Grid<bool>)
    requires p.Valid()
    ensures m.Valid() && m.h == p.h && m.w == p.w
    ensures forall i, j :: 0 <= i < p.h && 0 <= j < p.w ==> (m.cells[i][j] <==> p.cells[i][j] in labels)
  {
    Grid(p.h, p.w, seq(p.h, i requires 0 <= i < p.h =>
      seq(p.w, j requires 0 <= j < p.w => p.cells[i][j] in labels)))
  }

  // ------------------------------------------------------------------
  // The stages, one function per named array of the source.
  // ------------------------------------------------------------------

  /** Step 1, `mask_target`. */
  function MaskTarget(p: Grid<int>, target: set<int>): (m: Grid<Byte>)
    requires p.Valid()
    ensures m.Valid() && m.h == p.h && m.w == p.w
    ensures forall i, j :: 0 <= i < p.h && 0 <= j < p.w ==> (m.cells[i][j] == 1 <==> p.cells[i][j] in target)
  {
    IsIn(p, target)
  }

  /** Step 2, `expanded_target`: the target dilated by a 40x40 kernel. */
  function ExpandedTarget(p: Grid<int>, target: set<int>): (m: Grid<Byte>)
    requires p.Valid()
    ensures m.Valid() && m.h == p.h && m.w == p.w
  {
    Dilate(MaskTarget(p, target), 40)
  }

  /** Step 3, `mask_body_near_target`: body pixels inside the expansion, eroded by an 8x8 kernel. */
  function BodyNearTarget(p: Grid<int>, target: set<int>, body: set<int>): (m: Grid<Byte>)
    requires p.Valid()
    ensures m.Valid() && m.h == p.h && m.w == p.w
  {
    Erode(And(ExpandedTarget(p, target), IsIn(p, body)), 8)
  }

  /** Step 4, `mask_human_buffer`: every target, body or head pixel dilated by a 25x25 kernel. */
  function HumanBuffer(p: Grid<int>, target: set<int>, body: set<int>, head: set<int>): (m: Grid<Byte>)
    requires p.Valid()
    ensures m.Valid() && m.h == p.h && m.w == p.w
  {
    Dilate(IsIn(p, target + body + head), 25)
  }

  /** Step 5, `mask`: (expanded target | body near target) * human buffer. */
  function Clipped(p: Grid<int>, target: set<int>, body: set<int>, head: set<int>): (m: Grid<Byte>)
    requires p.Valid()
    ensures m.Valid() && m.h == p.h && m.w == p.w
  {
    Mul(Or(ExpandedTarget(p, target), BodyNearTarget(p, target, body)), HumanBuffer(p, target, body, head))
  }

  /** Step 6, `mask` after `mask[head_mask] = 0`. */
  function HeadProtected(p: Grid<int>, target: set<int>, body: set<int>, head: set<int>): (m: Grid<Byte>)
    requires p.Valid()
    ensures m.Valid() && m.h == p.h && m.w == p.w
  {
    Cleared(Clipped(p, target, body, head), Select(p, head))
  }

  /** Step 6.5, `torso_expand`: the body dilated by a 35x35 kernel. */
  function TorsoExpand(p: Grid<int>, body: set<int>): (m: Grid<Byte>)
    requires p.Valid()
    ensures m.Valid() && m.h == p.h && m.w == p.w
  {
    Dilate(IsIn(p, body), 35)
  }

  /** Step 6.5, `face_buffer`: the face dilated by a 45x45 kernel. */
  function FaceBuffer(p: Grid<int>): (m: Grid<Byte>)
    requires p.Valid()
    ensures m.Valid() && m.h == p.h && m.w == p.w
  {
    Dilate(IsIn(p, {Face}), 45)
  }

  /** Step 6.5, `hair_on_body` after `hair_on_body[face_buffer == 1] = 0`. */
  function HairOnBody(p: Grid<int>, body: set<int>): (m: Grid<Byte>)
    requires p.Valid()
    ensures m.Valid() && m.h == p.h && m.w == p.w
  {
    Cleared(And(IsIn(p, {Hair}), TorsoExpand(p, body)), IsOne(FaceBuffer(p)))
  }

  /** The mask at the end of step 6.5, `mask | hair_on_body`, before the soft edges of step 7. */
  function BinaryMask(p: Grid<int>, target: set<int>, body: set<int>, head: set<int>): (m: Grid<Byte>)
    requires p.Valid()
    ensures m.Valid() && m.h == p.h && m.w == p.w
  {
    Or(HeadProtected(p, target, body, head), HairOnBody(p, body))
  }

  /**
   * The pipeline up to step 6.5: a map that is not two-dimensional is
   * refused with ValueError, and one with no pixels is refused by the
   * first dilation (step 2); an absent body or head set means the
   * taxonomy's own group; the mask has the shape of the map.
   */
  function Generate(parsing: NdArray, target: set<int>, body: Option<set<int>>, head: Option<set<int>>)
    : (r: Result<Grid<Byte>, string>)
    requires parsing.Valid()
    ensures r.Failure? <==> |parsing.shape| != 2 || parsing.shape[0] == 0 || parsing.shape[1] == 0
    ensures |parsing.shape| != 2 ==> r == Failure(NotTwoDimensional)
    ensures |parsing.shape| == 2 && (parsing.shape[0] == 0 || parsing.shape[1] == 0) ==> r == Failure(EmptyImage)
    ensures r.Success? ==> r.value.Valid() && r.value.h == parsing.shape[0] && r.value.w == parsing.shape[1]
  {
    if |parsing.shape| != 2 then Failure(NotTwoDimensional)
    else if parsing.shape[0] == 0 || parsing.shape[1] == 0 then Failure(EmptyImage)
    else Success(BinaryMask(AsGrid(parsing), target, body.GetOr(BodyLabels), head.GetOr(HeadLabels)))
  }

  /**
   * `generate_inpainting_mask_from_parsing` up to step 6.5, with the
   * in-place assignments of steps 6 and 6.5 done on arrays.
   */
  method GenerateInpaintingMask(parsing: NdArray, target: set<int>, body: Option<set<int>>, head: Option<set<int>>)
    returns (r: Result<array2<Byte>, string>)
    requires parsing.Valid()
    ensures r.Failure? <==> Generate(parsing, target, body, head).Failure?
    ensures r.Failure? ==> r.error == Generate(parsing, target, body, head).error
    ensures r.Success? ==> fresh(r.value) && Cells(r.value) == Generate(parsing, target, body, head).value
  {
    if |parsing.shape| != 2 {
      return Failure(NotTwoDimensional);
    }
    if parsing.shape[0] == 0 || parsing.shape[1] == 0 {
      return Failure(EmptyImage);
    }
    var p := AsGrid(parsing);
    var bodyLabels := body.GetOr(BodyLabels);
    var headLabels := head.GetOr(HeadLabels);
    // Steps 1 to 5 are whole-array expressions.
    var mask := FromGrid(Clipped(p, target, bodyLabels, headLabels));
    // Step 6: mask[head_mask] = 0
    ZeroWhere(mask, Select(p, headLabels));
    // Step 6.5: hair_on_body = mask_hair & torso_expand; hair_on_body[face_buffer == 1] = 0
    var hairOnBody := FromGrid(And(IsIn(p, {Hair}), TorsoExpand(p, bodyLabels)));
    ZeroWhere(hairOnBody, IsOne(FaceBuffer(p)));
    var combined := FromGrid(Or(Cells(mask), Cells(hairOnBody)));
    return Success(combined);
  }

  // ------------------------------------------------------------------
  // What the stages guarantee.
  // ------------------------------------------------------------------

  /** Every stage before the soft edges holds only 0 and 1. */
  lemma StagesAreBinary(p: Grid<int>, target: set<int>, body: set<int>, head: set<int>)
    requires p.Valid()
    ensures IsBinary(MaskTarget(p, target)) && IsBinary(ExpandedTarget(p, target))
    ensures IsBinary(BodyNearTarget(p, target, body)) && IsBinary(HumanBuffer(p, target, body, head))
    ensures IsBinary(Clipped(p, target, body, head)) && IsBinary(HeadProtected(p, target, body, head))
    ensures IsBinary(TorsoExpand(p, body)) && IsBinary(FaceBuffer(p)) && IsBinary(HairOnBody(p, body))
    ensures IsBinary(BinaryMask(p, target, body, head))
  {
    MorphologyKeepsBinary(MaskTarget(p, target), 40);
    var expanded := ExpandedTarget(p, target);
    BinaryOps(expanded, IsIn(p, body));
    MorphologyKeepsBinary(And(expanded, IsIn(p, body)), 8);
    MorphologyKeepsBinary(IsIn(p, target + body + head), 25);
    var near := BodyNearTarget(p, target, body);
    BinaryOps(expanded, near);
    BinaryOps(Or(expanded, near), HumanBuffer(p, target, body, head));
    ClearedBinary(Clipped(p, target, body, head), Select(p, head));
    MorphologyKeepsBinary(IsIn(p, body), 35);
    MorphologyKeepsBinary(IsIn(p, {Face}), 45);
    BinaryOps(IsIn(p, {Hair}), TorsoExpand(p, body));
    ClearedBinary(And(IsIn(p, {Hair}), TorsoExpand(p, body)), IsOne(FaceBuffer(p)));
    BinaryOps(HeadProtected(p, target, body, head), HairOnBody(p, body));
  }

  /** The eroded body-near-target mask lies inside the body mask and inside the expanded target. */
  lemma BodyNearTargetInside(p: Grid<int>, target: set<int>, body: set<int>)
    requires p.Valid()
    ensures forall i, j :: 0 <= i < p.h && 0 <= j < p.w && BodyNearTarget(p, target, body).cells[i][j] == 1 ==>
      p.cells[i][j] in body && ExpandedTarget(p, target).cells[i][j] == 1
  {
    var expanded := ExpandedTarget(p, target);
    MorphologyKeepsBinary(MaskTarget(p, target), 40);
    BinaryOps(expanded, IsIn(p, body));
    ErodeAntiExtensive(And(expanded, IsIn(p, body)), 8);
  }

  /**
   * After step 5 nothing lies outside the person: a nonzero pixel has a
   * target, body or head pixel among its 25x25 neighbours.
   */
  lemma ClippedToSilhouette(p: Grid<int>, target: set<int>, body: set<int>, head: set<int>)
    requires p.Valid()
    ensures forall i, j :: 0 <= i < p.h && 0 <= j < p.w && Clipped(p, target, body, head).cells[i][j] != 0 ==>
      exists y, x :: InWindow(y, i, 25, p.h) && InWindow(x, j, 25, p.w) && p.cells[y][x] in target + body + head
  {
    var human := IsIn(p, target + body + head);
    forall i, j | 0 <= i < p.h && 0 <= j < p.w && Clipped(p, target, body, head).cells[i][j] != 0
      ensures exists y, x :: InWindow(y, i, 25, p.h) && InWindow(x, j, 25, p.w) && p.cells[y][x] in target + body + head
    {
      DilateBinaryAt(human, 25, i, j);
      assert HumanBuffer(p, target, body, head).cells[i][j] != 0;
      var y, x :| InWindow(y, i, 25, p.h) && InWindow(x, j, 25, p.w) && human.cells[y][x] == 1;
    }
  }

  /** After step 6 every head pixel is 0. */
  lemma HeadZeroAfterStep6(p: Grid<int>, target: set<int>, body: set<int>, head: set<int>)
    requires p.Valid()
    ensures forall i, j :: 0 <= i < p.h && 0 <= j < p.w && p.cells[i][j] in head ==>
      HeadProtected(p, target, body, head).cells[i][j] == 0
  {
  }

  /**
   * The hair re-addition of step 6.5 sets a pixel only when it is hair,
   * some body pixel lies among its 35x35 neighbours, and no face pixel lies
   * among its 45x45 neighbours: the face and its surround are never re-added.
   */
  lemma HairOnBodyOnlyNearBodyAwayFromFace(p: Grid<int>, body: set<int>)
    requires p.Valid()
    ensures forall i, j :: 0 <= i < p.h && 0 <= j < p.w && HairOnBody(p, body).cells[i][j] != 0 ==>
      && p.cells[i][j] == Hair
      && (exists y, x :: InWindow(y, i, 35, p.h) && InWindow(x, j, 35, p.w) && p.cells[y][x] in body)
      && (forall y, x :: InWindow(y, i, 45, p.h) && InWindow(x, j, 45, p.w) ==> p.cells[y][x] != Face)
  {
    forall i, j | 0 <= i < p.h && 0 <= j < p.w && HairOnBody(p, body).cells[i][j] != 0
      ensures p.cells[i][j] == Hair
      ensures exists y, x :: InWindow(y, i, 35, p.h) && InWindow(x, j, 35, p.w) && p.cells[y][x] in body
      ensures forall y, x :: InWindow(y, i, 45, p.h) && InWindow(x, j, 45, p.w) ==> p.cells[y][x] != Face
    {
      HairOnBodyAt(p, body, i, j);
    }
  }

  /** One pixel of HairOnBodyOnlyNearBodyAwayFromFace. */
  lemma HairOnBodyAt(p: Grid<int>, body: set<int>, i: nat, j: nat)
    requires p.Valid() && i < p.h && j < p.w && HairOnBody(p, body).cells[i][j] != 0
    ensures p.cells[i][j] == Hair
    ensures exists y, x :: InWindow(y, i, 35, p.h) && InWindow(x, j, 35, p.w) && p.cells[y][x] in body
    ensures forall y, x :: InWindow(y, i, 45, p.h) && InWindow(x, j, 45, p.w) ==> p.cells[y][x] != Face
  {
    var hair, torso := IsIn(p, {Hair}), IsIn(p, body);
    assert !IsOne(FaceBuffer(p)).cells[i][j];
    assert And(hair, TorsoExpand(p, body)).cells[i][j] != 0;
    MorphologyKeepsBinary(torso, 35);
    BinaryOps(hair, TorsoExpand(p, body));
    NearBodyAt(p, body, i, j);
    AwayFromFaceAt(p, i, j);
  }

  /** A pixel set in TorsoExpand has a body pixel among its 35x35 neighbours. */
  lemma NearBodyAt(p: Grid<int>, body: set<int>, i: nat, j: nat)
    requires p.Valid() && i < p.h && j < p.w && TorsoExpand(p, body).cells[i][j] == 1
    ensures exists y, x :: InWindow(y, i, 35, p.h) && InWindow(x, j, 35, p.w) && p.cells[y][x] in body
  {
    var torso := IsIn(p, body);
    DilateBinaryAt(torso, 35, i, j);
    var y, x :| InWindow(y, i, 35, p.h) && InWindow(x, j, 35, p.w) && torso.cells[y][x] == 1;
  }

  /** A pixel clear in FaceBuffer has no face pixel among its 45x45 neighbours. */
  lemma AwayFromFaceAt(p: Grid<int>, i: nat, j: nat)
    requires p.Valid() && i < p.h && j < p.w && FaceBuffer(p).cells[i][j] != 1
    ensures forall y, x :: InWindow(y, i, 45, p.h) && InWindow(x, j, 45, p.w) ==> p.cells[y][x] != Face
  {
    DilateBinaryAt(IsIn(p, {Face}), 45, i, j);
  }

  /**
   * After step 6.5 a head pixel can be set only by the hair re-addition:
   * it is hair, near the body and away from the face.  Face, hat and
   * sunglasses pixels therefore stay 0.
   */
  lemma HeadPixelsAfterStep6_5(p: Grid<int>, target: set<int>, body: set<int>, head: set<int>)
    requires p.Valid()
    ensures forall i, j ::
      (0 <= i < p.h && 0 <= j < p.w && p.cells[i][j] in head && BinaryMask(p, target, body, head).cells[i][j] != 0) ==>
      && p.cells[i][j] == Hair
      && (exists y, x :: InWindow(y, i, 35, p.h) && InWindow(x, j, 35, p.w) && p.cells[y][x] in body)
      && (forall y, x :: InWindow(y, i, 45, p.h) && InWindow(x, j, 45, p.w) ==> p.cells[y][x] != Face)
    ensures forall i, j ::
      (0 <= i < p.h && 0 <= j < p.w && p.cells[i][j] in head && p.cells[i][j] in {Face, Hat, Sunglasses}) ==>
      BinaryMask(p, target, body, head).cells[i][j] == 0
  {
    HairOnBodyOnlyNearBodyAwayFromFace(p, body);
    forall i, j | 0 <= i < p.h && 0 <= j < p.w && p.cells[i][j] in head
      ensures BinaryMask(p, target, body, head).cells[i][j] == HairOnBody(p, body).cells[i][j]
    {
      assert HeadProtected(p, target, body, head).cells[i][j] == 0;
    }
  }

  /** Every target pixel outside the head set is 1 at the end of step 6.5. */
  lemma TargetCovered(p: Grid<int>, target: set<int>, body: set<int>, head: set<int>)
    requires p.Valid()
    ensures forall i, j :: 0 <= i < p.h && 0 <= j < p.w && p.cells[i][j] in target && p.cells[i][j] !in head ==>
      BinaryMask(p, target, body, head).cells[i][j] == 1
  {
    StagesAreBinary(p, target, body, head);
    var expanded, near := ExpandedTarget(p, target), BodyNearTarget(p, target, body);
    var human := IsIn(p, target + body + head);
    var buffer := HumanBuffer(p, target, body, head);
    DilateExtensive(MaskTarget(p, target), 40);
    DilateExtensive(human, 25);
    BinaryOps(expanded, near);
    BinaryOps(Or(expanded, near), buffer);
    BinaryOps(HeadProtected(p, target, body, head), HairOnBody(p, body));
    forall i, j | 0 <= i < p.h && 0 <= j < p.w && p.cells[i][j] in target && p.cells[i][j] !in head
      ensures BinaryMask(p, target, body, head).cells[i][j] == 1
    {
      assert expanded.cells[i][j] == 1;
      assert human.cells[i][j] == 1;
      assert Clipped(p, target, body, head).cells[i][j] == 1;
    }
  }

  /** Absent body or head sets mean BODY_LABELS and HEAD_LABELS. */
  lemma DefaultGroups(parsing: NdArray, target: set<int>)
    requires parsing.Valid()
    ensures Generate(parsing, target, None, None) == Generate(parsing, target, Some(BodyLabels), Some(HeadLabels))
  {
  }
}
