/**
 * The request handling of `POST /api/generate-mask/` after the parsing map
 * is in hand: choosing the target labels, refusing an empty target,
 * generating the mask, and zeroing the protected labels. Every exception
 * raised on the way becomes an HTTP 400 whose detail is the exception's
 * message.
 */
module Endpoint {
  import opened Wrappers
  import opened Grids
  import opened Labels
  import opened MaskGeneration
  import Groups

  /** The label and group fields of `GenerateMaskRequest` (the image field is decoded elsewhere). */
  datatype Request = Request(
    targetLabels: Option<seq<int>>,
    targetGroups: Option<seq<string>>,
    protectLabels: Option<seq<int>>,
    protectGroups: Option<seq<string>>)

  /** `HTTPException(status_code, detail)`. */
  datatype HttpError = HttpError(status: int, detail: string)

  const BadRequest: int := 400

  const NoTargetDetail: string := "No target labels provided. Set target_labels or target_groups."

  /** `set(xs)`. */
  function Elements(xs: seq<int>): (s: set<int>)
    ensures forall l :: l in s <==> l in xs
  {
    set l | l in xs
  }

  /** Explicit target labels, even an empty list, override the target groups. */
  function SelectTarget(req: Request): (r: Result<set<int>, string>)
    ensures r.Failure? ==> req.targetLabels.None?
    ensures req.targetLabels.Some? ==> r.Success? && forall l :: l in r.value <==> l in req.targetLabels.value
  {
    if req.targetLabels.Some? then Success(Elements(req.targetLabels.value))
    else Groups.Resolve(req.targetGroups)
  }

  /** `set(protect_labels or []) | _resolve_groups(protect_groups)`. */
  function ProtectSet(req: Request): (r: Result<set<int>, string>)
    ensures r.Failure? <==> Groups.Resolve(req.protectGroups).Failure?
    ensures r.Success? ==> forall l :: l in r.value <==> ProtectedLabel(req, l)
  {
    Groups.ResolveMeaning(req.protectGroups);
    match Groups.Resolve(req.protectGroups)
    case Failure(e) => Failure(e)
    case Success(groups) => Success(Elements(req.protectLabels.GetOr([])) + groups)
  }

  /** `mask[np.isin(parsing, list(protect))] = 0`, skipped when nothing is protected. */
  function Protected(parsing: NdArray, mask: Grid<Byte>, protect: set<int>): (r: Grid<Byte>)
    requires parsing.Valid() && |parsing.shape| == 2
    requires mask.Valid() && mask.h == parsing.shape[0] && mask.w == parsing.shape[1]
    ensures r.Valid() && r.h == mask.h && r.w == mask.w
  {
    if protect == {} then mask else Cleared(mask, Select(AsGrid(parsing), protect))
  }

  /**
   * What the handler answers for a parsing map and a request: the mask, or
   * the HTTP error. The steps run in the handler's order, so the first
   * failing one decides the error.
   */
  function Respond(parsing: NdArray, req: Request): (r: Result<Grid<Byte>, HttpError>)
    requires parsing.Valid()
    ensures r.Failure? ==> r.error.status == BadRequest
    ensures r.Success? ==> |parsing.shape| == 2 && r.value.Valid() && r.value.h == parsing.shape[0] && r.value.w == parsing.shape[1]
  {
    match SelectTarget(req)
    case Failure(e) => Failure(HttpError(BadRequest, e))
    case Success(target) =>
      if target == {} then Failure(HttpError(BadRequest, NoTargetDetail))
      else
        match Generate(parsing, target, Some(BodyLabels), Some(HeadLabels))
        case Failure(e) => Failure(HttpError(BadRequest, e))
        case Success(mask) =>
          match ProtectSet(req)
          case Failure(e) => Failure(HttpError(BadRequest, e))
          case Success(protect) => Success(Protected(parsing, mask, protect))
  }

  /**
   * `generate_mask_endpoint` from the parsing map on: the same steps, with
   * the group loops run by `ResolveGroups` and the protect step assigning
   * into the mask array in place.
   */
  method GenerateMaskEndpoint(parsing: NdArray, req: Request) returns (r: Result<array2<Byte>, HttpError>)
    requires parsing.Valid()
    ensures r.Failure? <==> Respond(parsing, req).Failure?
    ensures r.Failure? ==> r.error == Respond(parsing, req).error
    ensures r.Success? ==> fresh(r.value) && Cells(r.value) == Respond(parsing, req).value
  {
    var target: set<int>;
    if req.targetLabels.Some? {
      target := Elements(req.targetLabels.value);
    } else {
      var resolved := Groups.ResolveGroups(req.targetGroups);
      if resolved.Failure? {
        return Failure(HttpError(BadRequest, resolved.error));
      }
      target := resolved.value;
    }
    if target == {} {
      return Failure(HttpError(BadRequest, NoTargetDetail));
    }
    var generated := GenerateInpaintingMask(parsing, target, Some(BodyLabels), Some(HeadLabels));
    if generated.Failure? {
      return Failure(HttpError(BadRequest, generated.error));
    }
    var mask := generated.value;
    var groups := Groups.ResolveGroups(req.protectGroups);
    if groups.Failure? {
      return Failure(HttpError(BadRequest, groups.error));
    }
    var protect := Elements(req.protectLabels.GetOr([])) + groups.value;
    if protect != {} {
      ZeroWhere(mask, Select(AsGrid(parsing), protect));
    }
    return Success(mask);
  }

  // ------------------------------------------------------------------
  // What the handler guarantees.
  // ------------------------------------------------------------------

  /** When target labels are given, the target groups are never looked at. */
  lemma ExplicitTargetOverridesGroups(parsing: NdArray, req: Request, groups: Option<seq<string>>)
    requires parsing.Valid() && req.targetLabels.Some?
    ensures Respond(parsing, req) == Respond(parsing, req.(targetGroups := groups))
  {
  }

  /**
   * A target that comes out empty is refused with the fixed detail: an
   * empty label list, or no labels and no (or an empty list of) groups.
   */
  lemma EmptyTargetRejected(parsing: NdArray, req: Request)
    requires parsing.Valid()
    ensures SelectTarget(req) == Success({}) ==> Respond(parsing, req) == Failure(HttpError(BadRequest, NoTargetDetail))
    ensures req.targetLabels == Some([]) ==> Respond(parsing, req) == Failure(HttpError(BadRequest, NoTargetDetail))
    ensures req.targetLabels.None? && (req.targetGroups.None? || req.targetGroups == Some([])) ==>
      Respond(parsing, req) == Failure(HttpError(BadRequest, NoTargetDetail))
  {
  }

  /**
   * A target group name that is not a group is refused with the message
   * naming the first such name, before anything else is done.
   */
  lemma UnknownGroupRejected(parsing: NdArray, req: Request)
    requires parsing.Valid() && req.targetLabels.None? && SelectTarget(req).Failure?
    ensures req.targetGroups.Some?
    ensures exists k :: (0 <= k < |req.targetGroups.value| && Groups.Lookup(req.targetGroups.value[k]).None? &&
      (forall k' :: 0 <= k' < k ==> Groups.Lookup(req.targetGroups.value[k']).Some?) &&
      Respond(parsing, req) == Failure(HttpError(BadRequest, Groups.UnknownGroup(req.targetGroups.value[k]))))
  {
    Groups.ResolveMeaning(req.targetGroups);
  }

  /**
   * Once the mask is generated, a protect group name that is not a group is
   * refused with the message naming the first such name.
   */
  lemma UnknownProtectGroupRejected(parsing: NdArray, req: Request)
    requires parsing.Valid() && |parsing.shape| == 2 && parsing.shape[0] > 0 && parsing.shape[1] > 0
    requires SelectTarget(req).Success? && SelectTarget(req).value != {} && ProtectSet(req).Failure?
    ensures req.protectGroups.Some?
    ensures exists k :: (0 <= k < |req.protectGroups.value| && Groups.Lookup(req.protectGroups.value[k]).None? &&
      (forall k' :: 0 <= k' < k ==> Groups.Lookup(req.protectGroups.value[k']).Some?) &&
      Respond(parsing, req) == Failure(HttpError(BadRequest, Groups.UnknownGroup(req.protectGroups.value[k]))))
  {
    Groups.ResolveMeaning(req.protectGroups);
  }

  /** A parsing map that is not two-dimensional is refused once the target is known to be non-empty. */
  lemma ShapeErrorRejected(parsing: NdArray, req: Request)
    requires parsing.Valid() && |parsing.shape| != 2
    requires SelectTarget(req).Success? && SelectTarget(req).value != {}
    ensures Respond(parsing, req) == Failure(HttpError(BadRequest, NotTwoDimensional))
  {
  }

  /** A two-dimensional map with no pixels is refused with OpenCV's message once the target is non-empty. */
  lemma EmptyMapRejected(parsing: NdArray, req: Request)
    requires parsing.Valid() && |parsing.shape| == 2 && (parsing.shape[0] == 0 || parsing.shape[1] == 0)
    requires SelectTarget(req).Success? && SelectTarget(req).value != {}
    ensures Respond(parsing, req) == Failure(HttpError(BadRequest, EmptyImage))
  {
  }

  /**
   * A mask is produced exactly when the target resolves to a non-empty set,
   * the map is two-dimensional and every protect group name is a group.
   */
  lemma SucceedsExactly(parsing: NdArray, req: Request)
    requires parsing.Valid()
    ensures Respond(parsing, req).Success? <==>
      SelectTarget(req).Success? && SelectTarget(req).value != {} &&
      |parsing.shape| == 2 && parsing.shape[0] > 0 && parsing.shape[1] > 0 &&
      (req.protectGroups.Some? ==> forall k :: 0 <= k < |req.protectGroups.value| ==> Groups.Lookup(req.protectGroups.value[k]).Some?)
  {
    Groups.ResolveMeaning(req.protectGroups);
  }

  /**
   * In the answered mask every pixel whose label is protected, by label or
   * through a group, is 0, and every other pixel is as mask generation left it.
   */
  lemma {:induction false} ProtectedPixelsZero(parsing: NdArray, req: Request)
    requires parsing.Valid() && Respond(parsing, req).Success?
    ensures
      var mask := Generate(parsing, SelectTarget(req).value, Some(BodyLabels), Some(HeadLabels)).value;
      var out := Respond(parsing, req).value;
      forall i, j :: 0 <= i < out.h && 0 <= j < out.w ==>
        out.cells[i][j] == if ProtectedLabel(req, AsGrid(parsing).cells[i][j]) then 0 else mask.cells[i][j]
  {
    var mask := Generate(parsing, SelectTarget(req).value, Some(BodyLabels), Some(HeadLabels)).value;
    var protect := ProtectSet(req).value;
    var out := Respond(parsing, req).value;
    assert out == Protected(parsing, mask, protect);
    forall i, j | 0 <= i < out.h && 0 <= j < out.w
      ensures out.cells[i][j] == if ProtectedLabel(req, AsGrid(parsing).cells[i][j]) then 0 else mask.cells[i][j]
    {
      ProtectedAt(parsing, mask, protect, i, j);
    }
  }

  /** One pixel of `Protected`: 0 when its label is protected, untouched otherwise. */
  lemma ProtectedAt(parsing: NdArray, mask: Grid<Byte>, protect: set<int>, i: nat, j: nat)
    requires parsing.Valid() && |parsing.shape| == 2
    requires mask.Valid() && mask.h == parsing.shape[0] && mask.w == parsing.shape[1]
    requires i < mask.h && j < mask.w
    ensures Protected(parsing, mask, protect).cells[i][j] == if AsGrid(parsing).cells[i][j] in protect then 0 else mask.cells[i][j]
  {
  }

  /**
   * A label is protected when it is listed in `protect_labels` or belongs to
   * a group named in `protect_groups`.
   */
  ghost predicate ProtectedLabel(req: Request, l: int) {
    (req.protectLabels.Some? && l in req.protectLabels.value) ||
    (req.protectGroups.Some? && exists k :: 0 <= k < |req.protectGroups.value| && l in Groups.Members(req.protectGroups.value[k]))
  }
}
