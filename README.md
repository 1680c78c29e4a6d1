# Crop-with-padding model of `crop_assets.py`

This Dafny project models `scripts/crop_assets.py`. The script crops the transparent borders off a fixed list of PNG UI assets.
For each image, `crop_transparent` does the following:

- It asks the image library for the bounding box of the non-transparent pixels.
- If there is no such box (the image is fully transparent), it skips the image.
- Otherwise it grows the box by `padding` on all four sides and clamps the result to the image.
- It then crops to that rectangle and saves the result to the output path. When no output path is given, that is the input file itself.

The model is one module, `CropAssets` in `crop_assets.dfy`:

- `PaddedRect` is the padded, clamped rectangle computation. It returns `SkipFullyTransparent` or `CropTo(rect)`. Boxes use the library's `(left, upper, right, lower)` convention.
- `PadLow` and `PadHigh` compute one edge each.
- `OutputPath` gives the default output path.
- `Asset` describes an image file only by its size and the bounding box of its content.
- `CropTransparent` gives the file that one call writes back.
- `Rerun` gives the file after the script has run over it `n` times. Because the script overwrites its inputs, running it again processes its own output.

The bounding box is an input to the model; pixels are never scanned. The model uses these preconditions:

- The box is ordered and inside the image. The image library guarantees this.
- The padding is not negative. The script never checks this: the default is 0 and `main` passes 2.

`PaddedRect` itself has no preconditions, because the script computes the rectangle for any integers.

Re-cropping with the same padding leaves the file's size and content box as they are, for any padding ≥ 0. After one crop, every edge of the content is within `padding` of the image edge or already on it (`CropTransparent`). A file whose margins are all at most `padding` keeps its size and content box when cropped (`CropTransparentFixpoint`); a file with a wider margin shrinks.

## Model

| member | source | states |
|---|---|---|
| `CropAssets.PaddedRect` | scripts/crop_assets.py:28-39 | no bounding box gives the skip outcome and only then; any rectangle produced lies within the image edges (0 ≤ left, 0 ≤ top, right ≤ width, bottom ≤ height), whatever the inputs |
| `CropAssets.PadLow` | scripts/crop_assets.py:36-37 | the left/upper edge is never negative; it moves out by exactly `padding` when the margin is at least `padding`, and is clamped to 0 otherwise |
| `CropAssets.PadHigh` | scripts/crop_assets.py:38-39 | the right/lower edge never passes the image size; it moves out by exactly `padding` when the margin is at least `padding`, and is clamped to the width/height otherwise |
| `CropAssets.PaddedRectInsideAndEnclosing` | scripts/crop_assets.py:36-39 | for a box inside the image and padding ≥ 0, a crop is produced, the rectangle is ordered (left ≤ right, top ≤ bottom) and inside the image, and it contains the original box |
| `CropAssets.CropSizeBounds` | scripts/crop_assets.py:36-39 | the crop's width lies between the box's width and the image width; the same holds for the height |
| `CropAssets.ZeroPaddingIsExact` | scripts/crop_assets.py:36-39 | with padding 0 the rectangle is exactly the bounding box |
| `CropAssets.EdgesAreIndependent` | scripts/crop_assets.py:36-39 | left depends only on the box's left edge and the padding, top only on its top edge and the padding, right also on the width, bottom also on the height |
| `CropAssets.ScenarioInteriorContent` | scripts/crop_assets.py:36-39 | 100×50 image, box (10,10,90,40), padding 2 gives (8,8,92,42) |
| `CropAssets.ScenarioContentTouchesEdges` | scripts/crop_assets.py:36-39 | 100×50 image, box (0,0,100,50), padding 2 gives (0,0,100,50): every side is clamped |
| `CropAssets.OutputPath` | scripts/crop_assets.py:19-20 | with no output path the result is the input path; otherwise it is the given path unchanged |
| `CropAssets.CropTransparent` | scripts/crop_assets.py:26-45 | a fully transparent file is not written at all; otherwise the written image is no larger than the original, still has content, keeps its content's width and height, and its content box lies inside it; each transparent margin (left, top, right, bottom) becomes the old margin capped at `padding`, i.e. the image is cropped to the content plus `padding` |
| `CropAssets.CropTransparentFixpoint` | scripts/crop_assets.py:26-45 | a call keeps the file's size and content box exactly when the file is fully transparent or every transparent margin is already at most `padding` |
| `CropAssets.ScenarioWideMarginShrinks` | scripts/crop_assets.py:36-42 | a 10×10 image with content (5,5,6,6) and padding 2 is cropped to 5×5 with content (2,2,3,3): a margin wider than the padding is cut down to the padding |
| `CropAssets.CropTransparentIdempotent` | scripts/crop_assets.py:19-45 | cropping an already-cropped image again with the same padding keeps its size and content box |
| `CropAssets.Rerun` | scripts/crop_assets.py:65-69 | after any number of runs of the script, the file is still a well-formed image, and it has content exactly when the original had |
| `CropAssets.RerunIsFirstRun` | scripts/crop_assets.py:65-69 | running the script n ≥ 1 times over a file leaves its size and content box as the first run made them. The script overwrites the file in place; `main` passes padding 2, and the lemma holds for any padding ≥ 0 |

## Left out

- Opening and decoding the image, the RGBA conversion, pixel scanning by `getbbox`, `crop` and `save` (lines 23, 26, 42, 45, 47) belong to the image library. The bounding box is an input.
- `CropTransparent` models `crop` only by its effect on the file: the new size is the rectangle's size, and the content box is shifted by the rectangle's upper-left corner. This is exact for a rectangle that contains the whole content box, which `PaddedRectInsideAndEnclosing` proves.
- `CropTransparent`: a file with content is always saved again at line 45, as RGBA (line 23), even when the rectangle is the whole image. The model describes a file only by its size and content box, so such a rewrite counts as unchanged; pixel format and PNG metadata chunks the writer may drop are not modelled.
- All console output (lines 29, 48, 62-63, 71, 73-74) is I/O and is not modelled.
- Most of `main` is not modelled: the hard-coded directory, the file list, `os.path.join`, the `os.path.exists` check and the order of the loop. `Rerun` models n executions of the whole script over one existing file; one pass of the loop (line 69) is n = 1.
- Negative padding and malformed boxes are outside the preconditions, because the script does not define what they mean. `PaddedRect` still computes a result for them, as the script does.
