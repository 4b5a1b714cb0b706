# IC-Light batch relighting: verified model of the deterministic glue

`run_ic_light_bg.py` relights a directory of portrait PNGs with IC-Light on Stable
Diffusion 1.5. Almost all of it drives pretrained networks. This project models the four
deterministic pieces of logic around those networks and proves their properties in Dafny:

- **Prompt chunking** (`PromptChunks`, `encode_prompt_inner`). The tokenizer's ids are cut
  into windows of `max_length - 2` tokens. Each window is framed with BOS and EOS and padded
  with EOS to exactly `max_length`. The tokenizer's ids, `model_max_length` and the BOS/EOS
  ids are parameters.
- **Prompt-pair alignment** (`PromptPair`, `encode_prompt_pair`). The shorter of the
  conditional and unconditional chunk lists is repeated cyclically and cut to the longer
  length. A chunk embedding is an opaque element type.
- **Background presets** (`Background`, the `BGSource` enumeration and the branch chain in
  `process`). A preset name is parsed into one of twelve presets. The preset then yields the
  uploaded image, its mirror, a uniform grey image, or a gradient truncated to 8 bits. Images
  are height x width x 3 nested sequences of `uint8`. Gradients are computed over exact reals,
  and `astype(np.uint8)` is `.Floor`, proved to stay in byte range.
- **Batch planning** (`BatchPlan`, with the string helpers in `Listing`). This is the
  top-level loop without its file I/O. It keeps the `.png` names of the directory listing in
  sorted order and zips them with the stripped light and hair label lines. It records, per
  item, the input name, output name, background preset name and prompt passed to
  `process_relight`. The label-driven preset and the `"white hair "` prompt are computed as
  the script does, then discarded. Every item gets `CUSTOM_GRAY` and the unmodified
  `--prompt`. Only the first result is saved, under the input's file name (`SaveFirst`).

`Common` holds `Option`, `Result`, `Min`, `Max` and integer ceiling division.

The LEFT gradient at width 4 is `np.linspace(224, 32, 4) = [224, 160, 96, 32]`, which
`Background.LeftWidthFour` proves.

## Model

| member | source | states |
|---|---|---|
| `PromptChunks.Pad` | run_ic_light_bg.py:154-155 | the result has exactly `i` elements: it agrees with `x` on the first `min(len(x), i)` positions and is `p` everywhere after `x` ends |
| `PromptChunks.Window` | run_ic_light_bg.py:158 | the slice `tokens[k*step : k*step+step]` is non-empty, has `min(step, len - k*step)` elements and reads the tokens from offset `k*step` |
| `PromptChunks.Framed` | run_ic_light_bg.py:158 | `[id_start] + window + [id_end]` is two longer than the window, starts with BOS, ends with EOS and holds exactly the window in between |
| `PromptChunks.OffsetInside` | run_ic_light_bg.py:158 | every start offset of `range(0, len(tokens), step)` lies inside the token list |
| `PromptChunks.Chunks` | run_ic_light_bg.py:148-159 | fails exactly when `max_length - 2` is zero (a `range` step of 0); yields no chunk when it is negative; otherwise yields `ceil(len / (max_length - 2))` chunks, each of length `max_length` |
| `PromptChunks.ChunkLayout` | run_ic_light_bg.py:148-159 | padding never truncates: chunk `k` is BOS, then window `k`, then EOS, then only EOS up to `max_length` |
| `PromptChunks.ChunkCount` | run_ic_light_bg.py:158 | the chunk count `n` is the ceiling: `n * step >= len`, `(n - 1) * step < len` when `n > 0`, and `n == 0` exactly for an empty token list |
| `PromptChunks.WindowsCoverPrefix` | run_ic_light_bg.py:158 | the windows of the first `m` chunks, concatenated, are the first `min(len, m*step)` tokens |
| `PromptChunks.UnframeChunk` | run_ic_light_bg.py:158-159 | stripping BOS and the trailing EOS run from chunk `k` gives back window `k` when EOS is not a token |
| `PromptChunks.ChunksRoundTrip` | run_ic_light_bg.py:157-159 | round trip: unframing every chunk and concatenating gives back the tokenizer's ids exactly, when EOS is not a token |
| `Common.CeilDiv` | run_ic_light_bg.py:175-176 | `math.ceil(a / b)`: the least `q` with `q * b >= a` |
| `PromptPair.Tile` | run_ic_light_bg.py:179-180 | `torch.cat([xs] * times)` has `len(xs) * times` elements and element `j` is `xs[j mod len(xs)]` |
| `PromptPair.Align` | run_ic_light_bg.py:175-180 | repeating `ceil(target / len)` times and cutting to `target` gives exactly `target` elements, element `j` being `xs[j mod len(xs)]` |
| `PromptPair.AlignPair` | run_ic_light_bg.py:172-180 | fails (float division by zero) exactly when either chunk list is empty |
| `PromptPair.AlignPairSpec` | run_ic_light_bg.py:172-180 | for non-empty inputs both outputs have length `max(len(c), len(uc))`, each reads its input cyclically, and the longer input comes back unchanged |
| `Background.Parse` | run_ic_light_bg.py:440-452 | `BGSource(s)` lookup by value: a parsed member's value is `s`; any other string gives no member |
| `Background.Value` | run_ic_light_bg.py:440-452 | the string value of each of the twelve `BGSource` members, as declared (no contract; `ValueInjective` and `ParseValue` state its properties) |
| `Background.ParseValue` | run_ic_light_bg.py:440-452 | every member's value parses back to that member (with `Parse`: a string parses to `p` exactly when it is `p`'s value) |
| `Background.ValueInjective` | run_ic_light_bg.py:440-452 | two members have the same value exactly when they are the same member, so lookup by value is unambiguous |
| `Background.InputBackground` | run_ic_light_bg.py:250-305 | `process` rejects a preset name exactly when it is no member's value; the trailing `else` raise is unreachable |
| `Background.InputBackgroundByValue` | run_ic_light_bg.py:250-252 | a preset selected by its value string is synthesised as that preset |
| `Background.Linspace` | run_ic_light_bg.py:259 | `np.linspace(a, b, n)` has `n` samples; for `n >= 1` it starts at `a`, for `n >= 2` it ends at `b`, and for `n == 1` it is `[a]` |
| `Background.LinspaceMonotone` | run_ic_light_bg.py:259-298 | linspace samples move monotonically from `a` to `b` and never leave the interval between them |
| `Background.LinspaceBytes` | run_ic_light_bg.py:259-261 | a linspace between two byte values stays in byte range, so `astype(np.uint8)` cannot wrap |
| `Background.ToByte` | run_ic_light_bg.py:261 | `astype(np.uint8)` of an in-range value truncates it: `v <= x < v + 1` |
| `Background.Uniform` | run_ic_light_bg.py:257 | `np.zeros((h, w, 3), uint8) + v` has shape h x w x 3 and every sample equal to `v` |
| `Background.FlipColumns` | run_ic_light_bg.py:255 | `np.fliplr` keeps the shape and puts column `c` at `width - 1 - c` |
| `Background.FlipTwice` | run_ic_light_bg.py:255 | mirroring twice restores the image |
| `Background.Horizontal` | run_ic_light_bg.py:259-261 | a tiled horizontal gradient has shape h x w x 3 with equal channels |
| `Background.Vertical` | run_ic_light_bg.py:267-269 | a tiled vertical gradient has shape h x w x 3 with equal channels |
| `Background.Blend` | run_ic_light_bg.py:275-280 | the mean of a horizontal and a vertical gradient has shape h x w x 3 with equal channels |
| `Background.MeanByte` | run_ic_light_bg.py:279-280 | `((x + y) / 2).astype(np.uint8)` of two byte-range samples is the floor of their mean |
| `Background.BlendRow` | run_ic_light_bg.py:279-280 | one row of the blend has the horizontal gradient's width, and pixel `c` is the grey triple of the truncated mean of horizontal sample `c` and the row's vertical sample |
| `Background.Synthesize` | run_ic_light_bg.py:252-305 | UPLOAD passes the background through; UPLOAD_FLIP mirrors it and fails on a missing one; every other preset yields an h x w x 3 image with equal channels |
| `Background.HorizontalProfile` | run_ic_light_bg.py:259-265 | all rows are identical; for `w >= 1` the left column is the truncated `a` and for `w >= 2` the right column is the truncated `b`; samples are monotone along the row and within the endpoints |
| `Background.VerticalProfile` | run_ic_light_bg.py:267-273 | all columns are identical; for `h >= 1` the top row is the truncated `a` and for `h >= 2` the bottom row is the truncated `b`; samples are monotone down the column and within the endpoints |
| `Background.BlendAt` | run_ic_light_bg.py:279-280 | a blended sample is the floor of the mean of the two gradient samples at that pixel |
| `Background.BlendBounds` | run_ic_light_bg.py:274-301 | every blended sample lies between the truncated mean of the low endpoints and that of the high endpoints |
| `Background.BlendAlongRows` | run_ic_light_bg.py:274-301 | along a row a blended image moves in its horizontal gradient's direction |
| `Background.BlendAlongColumns` | run_ic_light_bg.py:274-301 | down a column a blended image moves in its vertical gradient's direction |
| `Background.BlendCorners` | run_ic_light_bg.py:274-301 | the four corners are the truncated means of the matching gradient endpoints |
| `Background.UploadPresets` | run_ic_light_bg.py:252-255 | UPLOAD returns its input unchanged; UPLOAD_FLIP succeeds exactly when an image is given, and flipping the flipped image returns the original |
| `Background.UniformPresets` | run_ic_light_bg.py:256-257 | GREY is h x w x 3 uniformly 64 and CUSTOM_GRAY is h x w x 3 uniformly 100 |
| `Background.HorizontalPresets` | run_ic_light_bg.py:258-265 | LEFT and RIGHT: identical rows of grey pixels within [32, 224], running from 224 to 32 (LEFT) or 32 to 224 (RIGHT), monotone across columns |
| `Background.VerticalPresets` | run_ic_light_bg.py:266-273 | TOP and BOTTOM: identical columns of grey pixels within [32, 224], running from 224 to 32 (TOP) or 32 to 224 (BOTTOM), monotone down rows |
| `Background.CustomPresets` | run_ic_light_bg.py:274-301 | the CUSTOM gradients are grey, within [64, 192] or [32, 224], non-increasing downwards, non-increasing (LEFT) or non-decreasing (RIGHT) across; the brightest corner is top-left (LEFT) or top-right (RIGHT) and the opposite corner is the darkest |
| `Background.LeftWidthFour` | run_ic_light_bg.py:258-261 | LEFT at width 4 and height 1 is the row 224, 160, 96, 32 |
| `Listing.LexLe` | run_ic_light_bg.py:481 | Python's `a <= b` on `str`, the order `sorted` uses (no contract; `LexLeSpec` characterises it) |
| `Listing.LexLeSpec` | run_ic_light_bg.py:481 | `a <= b` exactly when `a` is a prefix of `b` or, at the first position where they differ, `a` has the smaller code point |
| `Listing.LexLeTotal` | run_ic_light_bg.py:481 | Python's string order is total |
| `Listing.LexLeTransitive` | run_ic_light_bg.py:481 | Python's string order is transitive |
| `Listing.LexLeAntisymmetric` | run_ic_light_bg.py:481 | two strings each at most the other are equal |
| `Listing.Insert` | run_ic_light_bg.py:481 | inserting into a sorted list keeps it sorted and adds exactly that one element |
| `Listing.SortNames` | run_ic_light_bg.py:481 | `sorted(names)` is sorted and a permutation of `names` |
| `Listing.SortedUnique` | run_ic_light_bg.py:481 | two sorted lists with the same elements are equal, by antisymmetry of the string order |
| `Listing.SortNamesUnique` | run_ic_light_bg.py:481 | `sorted(names)` is the one sorted permutation of `names` |
| `Listing.IsPng` | run_ic_light_bg.py:482 | `f.endswith('.png')` (no contract; `IsPngSpec` characterises it) |
| `Listing.IsPngSpec` | run_ic_light_bg.py:482 | a name ends with `.png` exactly when it is some stem followed by `.png` |
| `Listing.KeepPng` | run_ic_light_bg.py:482 | the filter keeps only names ending in `.png` |
| `Listing.KeepPngCount` | run_ic_light_bg.py:482 | the filter keeps every `.png` name as often as it occurs and drops every other name |
| `Listing.KeepPngSorted` | run_ic_light_bg.py:482 | filtering a sorted list leaves it sorted |
| `Listing.PngFiles` | run_ic_light_bg.py:481-482 | the image list holds only `.png` names, and holds each `.png` name of the listing as often as the listing does |
| `Listing.PngFilesSorted` | run_ic_light_bg.py:481-482 | the image list is in sorted file-name order |
| `Listing.IsSpace` | run_ic_light_bg.py:486-488 | the characters `str.strip()` removes: U+0009-U+000D, U+001C-U+0020, U+0085, U+00A0, U+1680, U+2000-U+200A, U+2028, U+2029, U+202F, U+205F and U+3000 (no contract; the `Trim` and `Strip` contracts are stated in terms of it) |
| `Listing.TrimStart` | run_ic_light_bg.py:486 | removes exactly the leading whitespace |
| `Listing.TrimEnd` | run_ic_light_bg.py:486 | removes exactly the trailing whitespace |
| `Listing.Strip` | run_ic_light_bg.py:486-488 | `line.strip()` is a slice of the line with only whitespace cut off each side, and neither end of it is whitespace |
| `Listing.StripLines` | run_ic_light_bg.py:486-488 | `[line.strip() for line in file]` has one entry per line, entry `i` being line `i` stripped |
| `Listing.StripLabelLine` | run_ic_light_bg.py:486-488 | a label line followed by any run of blanks (its `\n` or `\r\n` terminator) strips back to exactly the label |
| `BatchPlan.LabelPreset` | run_ic_light_bg.py:501-510 | the light label selects `CUSTOM_GRAY` exactly when it is none of Left, Left_High, Right, Right_High |
| `BatchPlan.LabelPresetIsCustom` | run_ic_light_bg.py:501-510 | every label selects a CUSTOM preset that parses |
| `BatchPlan.Plan` | run_ic_light_bg.py:481-529 | the plan has `min(#png files, #light lines, #hair lines)` entries; entry `i` is the `i`-th sorted `.png` name as input and output, with `CUSTOM_GRAY` and `--prompt` whatever the labels say |
| `BatchPlan.ZipJobs` | run_ic_light_bg.py:490-529 | the loop over the three lists stops at the shortest one; item `i` becomes a job on image `i` with `CUSTOM_GRAY` and the unmodified prompt, whatever its two labels are |
| `BatchPlan.SaveFirst` | run_ic_light_bg.py:532-536 | of the results only the first is saved, under the input's file name |
| `BatchPlan.PlannedFiles` | run_ic_light_bg.py:481-482 | a plan of that form is in sorted name order, names only `.png` files of the listing, and writes each result under its input's name |
| `BatchPlan.PlannedBackground` | run_ic_light_bg.py:511-527 | every planned background name parses as CUSTOM_GRAY and, with no uploaded image, yields the uniform 100 image |

## Left out

- Model loading, the UNet `conv_in` patch, its forward hook and the offset-weight merge (lines 21-88): pretrained networks and tensors.
- Schedulers, both diffusion pipelines, VAE encode/decode and the text encoder (lines 93-143, 162, 311-365): neural-network calls with floating-point numerics.
- The tokenizer call (line 157): its output ids are an input of `PromptChunks.Chunks`.
- The tensor conversion of the chunks (line 161) and the final concatenation of the aligned chunk embeddings along the token axis (lines 182-183): tensor reshapes of the modelled lists.
- `run_rmbg`, `resize_and_center_crop`, `resize_without_crop`, `pytorch2numpy`, `numpy2pytorch` and the highres size and step rounding (lines 189-245, 334-335, 356): floating-point resampling, matting and rounding.
- `process_normal` (lines 379-424): a floating-point photometric heuristic the driver never calls.
- Directory creation, listing, reading the label files, image open and save, and the progress message (lines 477-488, 495, 533-538): the listing and the label lines are inputs of `BatchPlan.Plan`. Splitting a file into lines is not modelled. `SaveFirst` returns the (name, image) pairs it would write.
- `base_name` and `image_path` (lines 491-492): `base_name` is never used. The path join only locates the input file.
- argparse and `quick_prompts`: `--bg_source` is parsed but never read by the driver.
- Negative `image_width`/`image_height`: widths and heights are `nat`, so numpy's error on negative sizes is not modelled.
- `Background.Linspace`: samples are exact reals, not float64. Only endpoints, monotonicity, bounds and tiling are claimed about gradient images. Interior samples that land within rounding error of an integer may truncate differently in numpy.
- `PromptPair.AlignPair`: `ceil` of a float quotient is modelled as integer ceiling division. The two agree for chunk counts below 2^53. With an empty prompt the text encoder would already fail on an empty tensor before this point.
- `Background.Synthesize`: UPLOAD with no uploaded image returns `None`, as the branch does. The failure that `resize_and_center_crop` then raises is outside the model.
- `BatchPlan.Plan` lists every zipped item. The loop catches no exception, so one raised while processing item `i` ends the script and the later items are never processed. Such an exception can come from opening the image, from `run_rmbg`'s channel assertion or unpacking (lines 235-236, for RGBA, greyscale or palette PNGs), from the networks or from saving.
- File names are Dafny strings of code points. Names with undecodable bytes, which `os.listdir` returns with lone surrogates (U+DC80-U+DCFF), are not modelled, so `PngFiles` and `SortNames` do not cover such listings.
