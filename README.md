# Clothing inpainting mask — a Dafny model

The service takes a human-parsing map, an image where every pixel holds an
ATR label id (0 background, 1 hat, 2 hair, … 17 scarf). It first turns the
map into a binary mask of the pixels an inpainting model may repaint. That
binary mask covers the target labels (normally clothing), widened to catch
shadows and folds, plus the nearby bare body, clipped to the person's
silhouette. It never covers the head, except for hair that hangs over the
body away from the face. The service then softens the binary mask (blur,
dilation, scaling), so the mask it answers has intermediate values and can
reach past these bounds, head pixels included; this model stops at the
binary mask (see "## Left out").
The `POST /api/generate-mask/` handler has two copies: `api/main.py`, which
runs the parsing model itself, and `api.py`, which is given the parsing map
as a PNG. Both do the same work:
- choose the target labels, from explicit ids or from the group names
  "clothing", "body" and "head";
- refuse an empty target;
- generate the mask;
- zero every pixel whose label is protected.

Any exception on the way becomes an HTTP 400. The parsing module also colours
parsing maps with the PASCAL-style bit-interleaved palette and keeps a table
of per-dataset settings.

The Dafny modules follow the source:

- `Grids` (grids.dfy): numpy uint8 arrays as values (`Grid`) and as
  `array2`, with element-wise `&`, `|`, `*` and in-place `a[sel] = 0`.
- `Morphology` (morphology.dfy): `cv2.dilate` and `cv2.erode` with a square
  all-ones kernel: the maximum or minimum over the neighbourhood.
- `Labels` (labels.dfy): the ATR label ids and the clothing, body and head
  label sets.
- `MaskGeneration` (mask_generation.dfy): steps 1 to 6.5 of
  `generate_inpainting_mask_from_parsing`. Each step is a pure function; a
  method does the same steps with in-place array assignments.
- `Groups` (groups.dfy): `_GROUP_MAP` and `_resolve_groups`, including
  `strip().lower()` on ASCII.
- `ParsingInference` (parsing_inference.dfy): `_get_palette`, imperative
  over an array, and `dataset_settings`.
- `Endpoint` (endpoint.dfy): the handler from the parsing map on. `Respond`
  is the answer as a value, and `GenerateMaskEndpoint` the imperative handler
  proved equal to it.

A step that may raise is modelled with `Result`. These are the failures:
- the 2-D check of the mask generator;
- OpenCV's `!src.empty()` assertion, raised by the first `cv2.dilate` for a
  2-D map with a zero dimension;
- an unknown group name;
- the empty-target `HTTPException`;
- `_get_palette`'s ValueError for a class index of 2^24 or more. It is raised
  by the shift by `7 - i = -1`, which the loop reaches once `i` passes 7;
  Python refuses a negative shift count whatever the shifted bit is.

The `KeyError` of `dataset_settings[name]` for an unknown dataset name is
modelled with `Option`: `ParsingInference.Settings` is `None` exactly there.

## Model

| member | source | states |
|---|---|---|
| Labels.Taxonomy | generate_mask.py:11-32 | the 18 ATR ids are 0..17; clothing = {4,5,6,7,8,16,17}, body = {12,13,14,15}, head = {1,2,3,11}; the three groups are pairwise disjoint |
| Grids.Cleared | generate_mask.py:79 | `g[sel] = 0` as a value, in the shape of g; it is the specification of `Grids.ZeroWhere`, keeps masks binary by `Grids.ClearedBinary`, and its per-pixel effect in the handler is stated by `Endpoint.ProtectedPixelsZero` |
| Grids.And | generate_mask.py:65 | numpy's `a & b` on uint8 masks, in their shape; `Grids.BinaryOps` states that on 0/1 masks it is pixelwise conjunction |
| Grids.Or | generate_mask.py:74 | numpy's `a \| b` on uint8 masks, in their shape; `Grids.BinaryOps` states that on 0/1 masks it is pixelwise disjunction |
| Grids.Mul | generate_mask.py:75 | numpy's `a * b` on uint8 masks (wrapping modulo 256), in their shape; `Grids.BinaryOps` states that on 0/1 masks it equals `&` |
| Grids.IsOne | generate_mask.py:92 | the boolean mask `face_buffer == 1`, in the mask's shape; `MaskGeneration.AwayFromFaceAt` states its effect in step 6.5 |
| Grids.BinaryOps | generate_mask.py:74-75 | on 0/1 masks `&`, `\|` and `*` stay 0/1, `*` equals `&`, and `&`/`\|` are pixelwise conjunction/disjunction |
| Grids.ClearedBinary | generate_mask.py:79 | zeroing selected pixels keeps a mask binary |
| Grids.FromGrid | generate_mask.py:57 | a freshly allocated array holds exactly the given array value |
| Grids.ZeroWhere | api/main.py:119-120 | `mask[sel] = 0` in place: selected cells become 0 and every other cell keeps its old value |
| Morphology.Dilate | generate_mask.py:61 | `cv2.dilate` with a k×k all-ones kernel, in the input's shape: each pixel the maximum of its centre-anchored window; its meaning is stated by `Morphology.DilateBinaryAt`, `DilateExtensive` and `DilateMonotone` |
| Morphology.Erode | generate_mask.py:66 | `cv2.erode` with a k×k all-ones kernel, in the input's shape: each pixel the minimum of its window; its meaning is stated by `Morphology.ErodeBinaryAt`, `ErodeAntiExtensive` and `ErodeMonotone` |
| Morphology.WindowRange | generate_mask.py:60-61 | the clipped index range is exactly the kernel neighbourhood (centre anchor) and contains the pixel itself |
| Morphology.RowMaxAttained | generate_mask.py:61 | a row maximum is the value of some cell in the range |
| Morphology.BoxMaxUpper | generate_mask.py:61 | every cell of a window is at most the window maximum |
| Morphology.BoxMinLower | generate_mask.py:66 | every cell of a window is at least the window minimum |
| Morphology.BoxMaxAttained | generate_mask.py:61 | the window maximum is the value of a cell of the window |
| Morphology.BoxMinAttained | generate_mask.py:66 | the window minimum is the value of a cell of the window |
| Morphology.BoxMaxMonotone | generate_mask.py:61 | a pixelwise smaller image has a smaller window maximum |
| Morphology.BoxMinMonotone | generate_mask.py:66 | a pixelwise smaller image has a smaller window minimum |
| Morphology.DilateExtensive | generate_mask.py:61 | dilation never lowers a pixel |
| Morphology.ErodeAntiExtensive | generate_mask.py:66 | erosion never raises a pixel |
| Morphology.DilateMonotone | generate_mask.py:71 | dilation preserves the pixelwise order of images |
| Morphology.ErodeMonotone | generate_mask.py:66 | erosion preserves the pixelwise order of images |
| Morphology.DilateBinaryAt | generate_mask.py:61 | on a 0/1 mask a dilated pixel is 0 or 1, and it is 1 iff some neighbour in the k×k window is 1 |
| Morphology.ErodeBinaryAt | generate_mask.py:66 | on a 0/1 mask an eroded pixel is 0 or 1, and it is 1 iff every in-image neighbour in the k×k window is 1 |
| Morphology.MorphologyKeepsBinary | generate_mask.py:71 | dilation and erosion of a 0/1 mask are 0/1 masks |
| MaskGeneration.IsIn | generate_mask.py:57 | `np.isin(parsing, labels).astype(uint8)`: a pixel is 1 iff its label is in the set, else 0 |
| MaskGeneration.Select | generate_mask.py:78-79 | the boolean `np.isin` mask: true iff the pixel's label is in the set |
| MaskGeneration.MaskTarget | generate_mask.py:57 | step 1: a pixel is 1 iff its label is a target label |
| MaskGeneration.ExpandedTarget | generate_mask.py:60-61 | step 2, the target dilated 40×40, in the map's shape; binary by `MaskGeneration.StagesAreBinary` |
| MaskGeneration.BodyNearTarget | generate_mask.py:64-66 | step 3, body within the expanded target eroded 8×8, in the map's shape; `MaskGeneration.BodyNearTargetInside` states what it keeps |
| MaskGeneration.HumanBuffer | generate_mask.py:69-71 | step 4, target, body and head labels dilated 25×25, in the map's shape; used by `MaskGeneration.ClippedToSilhouette` |
| MaskGeneration.Clipped | generate_mask.py:74-75 | step 5, `(expanded \| near) * buffer`, in the map's shape; `MaskGeneration.ClippedToSilhouette` states its bound |
| MaskGeneration.HeadProtected | generate_mask.py:78-79 | step 6, head pixels zeroed, in the map's shape; `MaskGeneration.HeadZeroAfterStep6` states its effect |
| MaskGeneration.TorsoExpand | generate_mask.py:83-88 | body labels dilated 35×35, in the map's shape; `MaskGeneration.NearBodyAt` states its meaning |
| MaskGeneration.FaceBuffer | generate_mask.py:90-91 | face dilated 45×45, in the map's shape; `MaskGeneration.AwayFromFaceAt` states its meaning |
| MaskGeneration.HairOnBody | generate_mask.py:82-92 | hair within `torso_expand`, cleared where `face_buffer` is 1, in the map's shape; `MaskGeneration.HairOnBodyOnlyNearBodyAwayFromFace` states its meaning |
| MaskGeneration.BinaryMask | generate_mask.py:93 | the mask at the end of step 6.5, in the map's shape; `MaskGeneration.TargetCovered`, `HeadPixelsAfterStep6_5` and `StagesAreBinary` state what it holds |
| MaskGeneration.AsGrid | generate_mask.py:57 | a 2-D array read as an image of its own height and width; `MaskGeneration.AsGridRowMajor` states which element each pixel is |
| MaskGeneration.AsGridRowMajor | generate_mask.py:57 | pixel (i, j) of an h×w array is element i·w + j of its row-major data |
| MaskGeneration.Generate | generate_mask.py:42-93 | fails with "parsing must be a 2D array" iff the array is not 2-D, and with OpenCV's empty-image assertion from the first `cv2.dilate` iff it is 2-D with a zero dimension; otherwise returns a mask of the parsing map's shape |
| MaskGeneration.GenerateInpaintingMask | generate_mask.py:42-93 | the imperative generator, with steps 6 and 6.5 assigning in place, returns exactly what `Generate` specifies, including its error |
| MaskGeneration.DefaultGroups | generate_mask.py:51-54 | omitted body/head label sets mean BODY_LABELS and HEAD_LABELS |
| MaskGeneration.StagesAreBinary | generate_mask.py:56-93 | every intermediate mask of steps 1–6.5 and the final mask hold only 0 and 1 |
| MaskGeneration.BodyNearTargetInside | generate_mask.py:63-66 | a pixel kept by step 3 is a body pixel inside the expanded target |
| MaskGeneration.ClippedToSilhouette | generate_mask.py:68-75 | after step 5 a set pixel has a target, body or head pixel in its 25×25 neighbourhood |
| MaskGeneration.HeadZeroAfterStep6 | generate_mask.py:77-79 | after step 6 every head-label pixel is 0 |
| MaskGeneration.HairOnBodyOnlyNearBodyAwayFromFace | generate_mask.py:81-92 | `hair_on_body` is set only at hair pixels that have a body pixel in the 35×35 window and no face pixel in the 45×45 window |
| MaskGeneration.HairOnBodyAt | generate_mask.py:81-92 | the same, for one pixel |
| MaskGeneration.NearBodyAt | generate_mask.py:83-88 | a pixel of `torso_expand` has a body pixel among its 35×35 neighbours |
| MaskGeneration.AwayFromFaceAt | generate_mask.py:90-92 | a pixel outside `face_buffer` has no face pixel among its 45×45 neighbours |
| MaskGeneration.HeadPixelsAfterStep6_5 | generate_mask.py:77-93 | in the final mask a set head pixel is hair near the body and away from the face; face, hat and sunglasses pixels are always 0 |
| MaskGeneration.TargetCovered | generate_mask.py:56-93 | every target pixel whose label is not a head label is 1 in the final mask |
| Groups.Strip | api/main.py:65 | `strip()` is no longer than its input and neither starts nor ends with whitespace; `Groups.StripMeaning` and `StripOfPadded` pin it down exactly |
| Groups.IsSpace | api/main.py:65 | the whitespace `strip()` removes: only characters up to code 32 (ASCII, see Left out) |
| Groups.Lower | api/main.py:65 | `lower()` keeps the length, leaves no capital letter, and changes a character only by turning an ASCII capital into its lower-case letter (code + 32) |
| Groups.Normalize | api/main.py:65 | `g.strip().lower()` is no longer than g and neither starts nor ends with whitespace; `Groups.NameMatchesKey` characterises which names give which key |
| Groups.Lookup | api/main.py:65-68 | a name selects a group iff it normalises to "clothing", "body" or "head"; normalising to "clothing", "body" or "head" selects CLOTHING_LABELS, BODY_LABELS or HEAD_LABELS respectively |
| Groups.UnknownGroup | api/main.py:67 | the message `f"unknown group: {g}"`: the 15-character prefix followed by the name exactly as given |
| Groups.ResolveWith | api/main.py:63-69 | the `for g in groups` loop for any name lookup: success means every name was recognised; a failure names, as given, some name of the list the lookup rejects; `Groups.ResolveWithMeaning` states the rest |
| Groups.Resolve | api/main.py:60-69 | `_resolve_groups` only ever returns clothing, body and head labels; `Groups.ResolveMeaning` states its full meaning |
| Groups.LeadingSpaces | api/main.py:65 | counts exactly the whitespace prefix: all of it is whitespace and the next character is not |
| Groups.TrailingSpaces | api/main.py:65 | counts exactly the whitespace suffix: all of it is whitespace and the character before it is not |
| Groups.StripMeaning | api/main.py:65 | `strip()` returns a middle part of the string between whitespace-only ends, and it neither starts nor ends with whitespace |
| Groups.StripOfPadded | api/main.py:65 | conversely, a middle part that does not start or end with whitespace, between whitespace-only ends, is what `strip()` returns |
| Groups.NormalizeIsLoweredMiddle | api/main.py:65 | `g.strip().lower()` is the lower-cased middle of g between whitespace-only ends |
| Groups.NormalizeOfPadded | api/main.py:65 | a key padded with whitespace, in any ASCII case, normalises to the key |
| Groups.NameMatchesKey | api/main.py:65-66 | a name normalises to a group key iff it is that key in some ASCII case with only whitespace around it |
| Groups.GroupKeysAreTrimmed | api/main.py:53-57 | the keys of `_GROUP_MAP` are non-empty and neither start nor end with whitespace |
| Groups.LookupUpperBody | api/main.py:65-68 | "BODY" names the body group |
| Groups.LookupPaddedHead | api/main.py:65-68 | " head " names the head group |
| Groups.LookupUnknown | api/main.py:65-67 | "unknown" names no group |
| Groups.ResolveWithMeaning | api/main.py:63-69 | for any name lookup, the loop succeeds iff every name is recognised; the result is the union of the named groups; a failure names the first unrecognised name |
| Groups.ResolveWithIgnoresOrderAndRepeats | api/main.py:63-69 | for any name lookup, the outcome depends only on the set of names given |
| Groups.ResolveMeaning | api/main.py:60-69 | `_resolve_groups`: None or [] gives the empty set; otherwise it succeeds iff every name is a group, returns exactly the union of their labels, and otherwise fails with "unknown group: g" for the first unknown g |
| Groups.ResolveIgnoresOrderAndRepeats | api/main.py:60-69 | reordering or repeating group names changes neither success nor result |
| Groups.ResolveGroups | api.py:55-64 | the loop with early `raise` computes exactly `Resolve` (union or first-unknown error) |
| Groups.ResolveExampleExact | api/main.py:60-69 | None and [] resolve to {}; ["clothing"] resolves to {4,5,6,7,8,16,17} |
| Groups.ResolveExampleMixed | api/main.py:60-69 | ["BODY", " head "] resolves to the body and head labels together |
| Groups.ResolveExampleUnknown | api/main.py:60-69 | ["unknown"] fails with "unknown group: unknown" |
| ParsingInference.ShrVanishes | parsing_inference.py:49 | `while lab` stops, with `lab >> k == 0`, exactly when the class index is below 2^k |
| ParsingInference.BelowColourLimit | parsing_inference.py:49-54 | after 8 rounds the index is exhausted iff it is below 2^24 |
| ParsingInference.OrBits | parsing_inference.py:50-52 | a bit of `a \| b` is set iff it is set in a or in b |
| ParsingInference.OrDisjoint | parsing_inference.py:50-52 | `\|` of a value above bit k and a bit at k is their sum |
| ParsingInference.Channel | parsing_inference.py:50-52 | every colour channel is below 256; `ParsingInference.ChannelBit` and `ColoursDistinct` state which bits it holds |
| ParsingInference.ShrOfShl | parsing_inference.py:50-54 | `(x << k) >> k == x`: a shift left is undone by the same shift right |
| ParsingInference.BitOfHalf | parsing_inference.py:54 | bit q of x is bit q-1 of `x >> 1` |
| ParsingInference.ChannelBit | parsing_inference.py:50-52 | bit 7-i of channel c of class j is bit 3i+c of j |
| ParsingInference.BackgroundIsBlack | parsing_inference.py:44-49 | class 0 is coloured (0, 0, 0) |
| ParsingInference.ColoursDistinct | parsing_inference.py:40-55 | two different class indices get different colours |
| ParsingInference.CornerColours | parsing_inference.py:50-52 | for classes 0..7 each channel is 0 or 128, following bit c of j |
| ParsingInference.RoundStep | parsing_inference.py:50-54 | one round of the `while lab` loop ORs in exactly the next most-significant bit of each channel |
| ParsingInference.PaintRounds | parsing_inference.py:48-54 | the `while lab` loop writes the three channel values of class j iff j < 2^24, fails with the shift error otherwise, and touches no other entry |
| ParsingInference.PaintClass | parsing_inference.py:44-54 | one `for j` iteration writes the colour of class j into entries 3j..3j+2 iff j < 2^24, and leaves every other entry unchanged |
| ParsingInference.GetPalette | parsing_inference.py:40-55 | `_get_palette(n)` has 3·max(n,0) entries, entry 3j+c is channel c of class j, and it raises "negative shift count" iff n > 2^24 |
| ParsingInference.Settings | parsing_inference.py:18-37 | `dataset_settings[name]` (the `Lip`, `Atr` and `Pascal` entries) exists iff name is "lip", "atr" or "pascal"; every input size is square and class 0 is "Background" |
| ParsingInference.ClassCountsMatchLabels | parsing_inference.py:18-37 | each dataset's `num_classes` equals the length of its label list (20, 18 or 7) |
| ParsingInference.AtrMatchesTaxonomy | parsing_inference.py:26-31 | the ATR label list names index l as the label constant with id l |
| Endpoint.Elements | api/main.py:100 | `set(xs)` holds exactly the elements of xs |
| Endpoint.SelectTarget | api/main.py:99-102 | explicit `target_labels` never fail and give exactly their elements; only group resolution can fail |
| Endpoint.ProtectSet | api/main.py:117 | fails iff protect-group resolution fails; otherwise holds exactly the labels listed in `protect_labels` or belonging to a named protect group |
| Endpoint.Protected | api/main.py:117-120 | the protect step keeps the mask's shape |
| Endpoint.Respond | api/main.py:97-125 | every error the handler answers is a 400; a successful answer has the parsing map's shape |
| Endpoint.GenerateMaskEndpoint | api.py:84-111 | the imperative handler, with loops and in-place zeroing, fails exactly when `Respond` fails and with the same error, and otherwise returns a fresh array holding `Respond`'s mask |
| Endpoint.ExplicitTargetOverridesGroups | api/main.py:99-102 | when `target_labels` is given, `target_groups` has no effect on the answer |
| Endpoint.EmptyTargetRejected | api.py:90-94 | an empty resolved target, `target_labels == []`, or no labels and no or empty groups is answered 400 with "No target labels provided. …" |
| Endpoint.UnknownGroupRejected | api/main.py:102 | a target-group failure is a 400 carrying "unknown group: g" for the first unrecognised g of the request |
| Endpoint.UnknownProtectGroupRejected | api.py:103 | with a non-empty target and a 2-D map with at least one pixel, a protect-group failure is a 400 carrying "unknown group: g" for the first unrecognised protect group g |
| Endpoint.ShapeErrorRejected | api/main.py:110-115 | a non-2-D map with a non-empty target is a 400 carrying the generator's message |
| Endpoint.EmptyMapRejected | api/main.py:122-125 | a 2-D map with no pixels and a non-empty target is a 400 carrying OpenCV's empty-image assertion |
| Endpoint.SucceedsExactly | api/main.py:97-125 | a mask is returned iff the target resolves to a non-empty set, the map is 2-D with at least one pixel, and every protect group is known |
| Endpoint.ProtectedPixelsZero | api/main.py:117-120 | in the answered mask, pixels whose label is in `protect_labels` or in a named protect group are 0, every other pixel is the generated mask's |

## Left out

- Step 7 of `generate_inpainting_mask_from_parsing` is not modelled. It is floating-point image filtering: scaling to 0/255, Gaussian blur, a 7×7 dilation, a second blur, then scaling by 1.3 and clipping. After step 7 pixel values are intermediate, and a pixel next to the mask, even a head pixel, can become nonzero. Every guarantee proved here (head zeroed, face untouched, clipping to the silhouette, target covered) is about the binary mask at the end of step 6.5. `Endpoint.Respond` returns that binary mask with the protected labels zeroed, not the soft mask the handler encodes.
- `cv2.dilate` and `cv2.erode` are modelled with OpenCV's default centre anchor (k/2). Out-of-image neighbours are ignored, which is what OpenCV's default constant border does for max and min. OpenCV's own code is not part of this model.
- `load_parsing_map_from_png_bytes`, base64 decoding, PNG encoding of the output and the `Invalid base64` / `Invalid PNG` errors are left out: they are image and text codecs. The model starts from the decoded parsing array.
- Model loading, the model cache and `run_parsing_inference` are left out. They run a neural network, so the parsing map is a parameter.
- The HTTP transport, the `/health` route, the `DEBUG_LOCAL` debug save and the `__main__` script of generate_mask.py are left out. They are I/O.
- Groups.Lower: only ASCII letters are lower-cased and only ASCII whitespace is stripped. Python's Unicode case mapping and `str.isspace` on non-ASCII characters are not modelled.
- MaskGeneration.Generate: `np.isin` on an array of any dtype is modelled on integer labels. The parsing map's element type is not modelled.
- Endpoint.EmptyTargetRejected: states that an empty target gives the "No target labels provided" 400. It does not state the converse, that no other request gets this detail. That follows from `Endpoint.SucceedsExactly` and `Endpoint.UnknownGroupRejected` only for the success and group-error cases.
- Endpoint.Protected: its own contract states only the shape. What the protect step does to each pixel is stated by `Endpoint.ProtectedPixelsZero`.
- ParsingInference.PaintClass and ParsingInference.PaintRounds are the body of the `for j` loop and of the `while lab` loop of `_get_palette`, as separate methods. The three channel values are passed to `PaintRounds` as ghost parameters characterised bit by bit.
- MaskGeneration.Generate: the `cv2.error` raised for an empty image is modelled by its assertion text only. The OpenCV version and source path that prefix it in `str(e)` are not modelled.
- ParsingInference.Shr, Bit, Shl and Or (the `>>`, `& 1`, `<<` and `|=` of `_get_palette`) carry no contract of their own; their meaning is stated by `ParsingInference.ShrVanishes`, `ShrOfShl`, `BitOfHalf`, `OrBits`, `OrDisjoint` and `ChannelBit`.
- Exceptions other than the ones named above (for example memory errors inside numpy) are not modelled.
