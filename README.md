# Bulk image-editing studio: a Dafny model

This project models the core of a browser studio for bulk image editing.
Images are uploaded into a list. One prompt, or a per-image refinement
prompt, is sent with each image to an image-generation service, and each
result is compared with its original. A wipe slider and a change-analysis
overlay do the comparison: the overlay marks a centred crop and changed
8 x 8 tiles.

The modules follow the source files:

- `Types` (`types.dfy`): the image list entry, its metadata, the model and resolution choices, and Option/Result.
- `NumberText` (`number_text.dfy`): the JavaScript number texts the studio prints, each with a reader that inverts it:
  - the decimal text of an integer;
  - `toFixed(2)` of a value held in hundredths;
  - `parseFloat(x.toFixed(2))`.
- `Helpers` (`helpers.dfy`): `formatFileSize`, the "W x H" text and the metadata of an upload.
- `GeminiService` (`gemini_service.dfy`):
  - the closest aspect ratio and the generation config;
  - the instruction text and the request;
  - the scan of the reply for its first inline image, and the size estimate.
- `DiffOverlay` (`diff_overlay.dfy`):
  - crop detection and its bands;
  - the four nested tile loops as a method over the two pixel arrays, proved equal to a specification on sequences;
  - the mapping of tiles back to full resolution.
- `ComparisonSlider` (`comparison_slider.dfy`):
  - the slider position as a `Slider` class updated by pointer moves;
  - the clamp, the centring percentages, and the clip and line offsets.
- `App` (`app.dfy`):
  - the page state as an `AppState` class, with one method per event handler;
  - the image list updates as pure functions over `seq<ImageItem>`;
  - the "process all" loop as a `for` loop proved against a fold of single edits.

The service call, the file reader, image decoding, the id generator and
object URLs are outside the model. What they deliver enters as parameters:
the service's outcome per call, the decoded dimensions, the generated id,
the URL, and the downsampled pixel buffers.

The change overlay outlines the edited image as if it were centred
unscaled in the original's frame. It compares the two images differently:
both are first stretched to the same sampled size. It then marks an 8 x 8
tile as soon as one of the tile's pixels has a red + green + blue
difference above 30. Every marked tile is drawn in one style, at 10 times
its sampled coordinates. When the two images differ in size or shape,
the marks therefore need not fall inside the outline.

## Model

| member | source | states |
|---|---|---|
| NumberText.NatToString | utils/helpers.ts:19 | The decimal text of an integer is non-empty, all digits, and starts with '0' exactly for zero |
| NumberText.NatToStringValue | utils/helpers.ts:19 | Reading the decimal text back gives the number |
| NumberText.NatToStringInjective | utils/helpers.ts:19 | Different numbers never print as the same text |
| NumberText.RoundHalfUp | App.tsx:137 | The result is the integer nearest to n / d, with halves going up: 2dr <= 2n + d < 2d(r + 1) |
| NumberText.FixedTwo | App.tsx:137 | `toFixed(2)` text is digits, a point third from the end, then exactly two digits |
| NumberText.ShortHundredths | utils/helpers.ts:9 | The text starts with the whole part's digits and adds nothing for a whole value, a point and one digit when only the tenths are non-zero, and a point and two digits otherwise |
| NumberText.FixedTwoRoundTrip | App.tsx:137 | The two-decimal text reads back as the same count of hundredths, with the point third from the end |
| NumberText.WholeRoundTrip | utils/helpers.ts:9 | A whole value prints with no point and reads back as itself |
| NumberText.OneDecimalRoundTrip | utils/helpers.ts:9 | A value with one significant decimal prints one decimal, not ending in '0', and reads back as itself |
| NumberText.ShortHundredthsRoundTrip | utils/helpers.ts:9 | `parseFloat(x.toFixed(2))` text reads back as x's hundredths and never ends in a fractional zero |
| NumberText.ShortHundredthsLeads | utils/helpers.ts:9 | The short text opens with the whole part's digits, so it starts with '0' only for values below 1 |
| NumberText.ShortHundredthsWhole | utils/helpers.ts:9 | A whole number of units prints as its plain decimal text |
| Helpers.UnitIndex | utils/helpers.ts:8 | The unit index i satisfies 1024^i <= bytes < 1024^(i+1) |
| Helpers.UnitIndexIsLargest | utils/helpers.ts:8 | No larger exponent has its power of 1024 at or below bytes |
| Helpers.UnitName | utils/helpers.ts:7-9 | Indices 0 to 3 name Bytes, KB, MB and GB; the name is "undefined" exactly past that table |
| Helpers.FormatFileSize | utils/helpers.ts:5 | Zero bytes print as "0 Bytes" |
| Helpers.FormatFileSizeSmall | utils/helpers.ts:4-10 | Below 1024 the count is printed as it is, followed by " Bytes" |
| Helpers.FormatFileSizeParts | utils/helpers.ts:4-10 | The text is a number, a space and the unit of the largest power of 1024 not above bytes; the number reads back as bytes / 1024^i rounded to the nearest hundredth, opens with the whole part's plain digits (no leading zero but for "0"), and has no trailing fractional zero |
| Helpers.FormatFileSizeCarry | utils/helpers.ts:8-9 | 1048575 bytes print as "1024 KB": rounding carries past the unit boundary |
| Helpers.DimensionsText | utils/helpers.ts:19 | The text is the width's digits, " x ", then the height's digits, and the two digit runs have the width and the height as values |
| Helpers.ParseJoinedDigits | utils/helpers.ts:19 | Two digit strings joined by " x " read back as their two values |
| Helpers.DimensionsRoundTrip | utils/helpers.ts:19 | The "W x H" text reads back as (W, H) |
| Helpers.MetadataOf | utils/helpers.ts:16-21 | Upload metadata keeps the file name and the decoded width and height, its dimension text reads back as them, and its size text is formatFileSize of the file's size, "0 Bytes" for an empty file |
| GeminiService.ReduceIndex | services/geminiService.ts:29 | After the first n options, the reduce's accumulator is a closest option and every earlier option is strictly farther |
| GeminiService.ClosestAspectRatio | services/geminiService.ts:20-29 | With a zero height every distance is Infinity or NaN, no option replaces the first, and the result is "1:1" |
| GeminiService.ClosestAspectRatioIsNearest | services/geminiService.ts:20-29 | The chosen ratio is at least as close to width / height as every option, and strictly closer than every option listed before it |
| GeminiService.SquareIsOneToOne | services/geminiService.ts:21-29 | A square image gets "1:1" |
| GeminiService.HalfwayTieGoesEarlier | services/geminiService.ts:29 | 7:8 = 0.875 lies halfway between 1:1 and 3:4, and the earlier "1:1" wins |
| GeminiService.FullHdIsSixteenToNine | services/geminiService.ts:20-29 | 1920 x 1080 gets "16:9" |
| GeminiService.AspectRatioNameInjective | services/geminiService.ts:22-28 | Different ratios are sent as different strings |
| GeminiService.BuildConfig | services/geminiService.ts:53-59 | The PRO model gets an image config whose strings name the closest ratio and the resolution; the FLASH model gets none |
| GeminiService.PromptText | services/geminiService.ts:72 | The instruction is the fixed preservation text followed by the prompt, unchanged |
| GeminiService.PromptTextInjective | services/geminiService.ts:72 | Different prompts never produce the same instruction |
| GeminiService.ResponseParts | services/geminiService.ts:81 | A non-empty part list is the parts of the first candidate's content; any missing link yields no parts |
| GeminiService.ExtractImageData | services/geminiService.ts:79-92 | Success returns the non-empty data of the first part with inline data. Otherwise the error is "No image was generated in the response.", and either no part has inline data or the first one's is empty |
| GeminiService.EstimatedSize | services/geminiService.ts:103 | The estimate is three quarters of the base64 length, rounded to the nearest integer with halves going up |
| GeminiService.EstimateOfPaddedBase64 | services/geminiService.ts:103 | On padded base64 of m bytes the estimate lies between m and m + 2 |
| GeminiService.ProcessImageEdit | services/geminiService.ts:43-107 | The request carries the model name, the file part and the instruction. It has the PRO-only image config, naming the ratio and the resolution as strings. The result is Ok exactly when the first part with inline data has non-empty data: then it is that data as a PNG data URL, with its decoded dimensions and the estimated size; otherwise it is the no-image error |
| DiffOverlay.DetectCrop | components/DiffOverlay.tsx:52-74 | Bands are drawn exactly when the original is wider or taller than the edited image |
| DiffOverlay.CropGeometrySymmetric | components/DiffOverlay.tsx:56-70 | The edited frame is centred with equal margins; the bottom and right bands end on the frame's edges and all four abut the outline |
| DiffOverlay.CropOffsetsNegativeWhenLarger | components/DiffOverlay.tsx:56-57 | On an axis where the edited image is larger, the offset is negative (it is not clamped) |
| DiffOverlay.CropBandsPartitionFrame | components/DiffOverlay.tsx:59-70 | When the edited image fits on both axes, every point of the original frame lies in exactly one band or in the outline |
| DiffOverlay.PixelIndex | components/DiffOverlay.tsx:104 | Every pixel's offset is a multiple of 4, the start of its RGBA quadruple |
| DiffOverlay.PixelIndexDecodes | components/DiffOverlay.tsx:104 | The offset decodes back to the pixel's column and row, so two pixels never share bytes |
| DiffOverlay.ChannelDelta | components/DiffOverlay.tsx:105-108 | The summed difference is at most 765, and zero exactly when red, green and blue agree |
| DiffOverlay.PixelIndexInBounds | components/DiffOverlay.tsx:104 | Every pixel's four bytes lie inside the w x h RGBA buffer |
| DiffOverlay.TileRect | components/DiffOverlay.tsx:117-120 | A tile at sampled (x, y) is drawn at (10x, 10y), 80 x 80 at full resolution |
| DiffOverlay.TileRectInjective | components/DiffOverlay.tsx:117-120 | Different tiles are drawn as different squares |
| DiffOverlay.RowMarksMembership | components/DiffOverlay.tsx:99-125 | A row's marks are exactly the squares of that row's changed tiles among those scanned |
| DiffOverlay.GridMarksMembership | components/DiffOverlay.tsx:98-125 | After m tile rows, the marks are exactly the squares of the changed tiles in those rows |
| DiffOverlay.MarkedIffTileChanged | components/DiffOverlay.tsx:98-125 | A square is drawn exactly when it belongs to a tile origin of the frame whose tile holds a changed pixel |
| DiffOverlay.MarksAreChangedTiles | components/DiffOverlay.tsx:98-125 | Every drawn square is the square of a changed tile |
| DiffOverlay.TileOrigin | components/DiffOverlay.tsx:98-99 | The tile origin of a coordinate is the multiple of 8 at or below it, less than 8 away |
| DiffOverlay.ChangedPixelIsMarked | components/DiffOverlay.tsx:102-116 | A pixel whose difference exceeds the threshold always gets the square of its tile drawn |
| DiffOverlay.NoMarksIffNoChangedPixel | components/DiffOverlay.tsx:98-127 | Nothing is drawn exactly when no pixel differs by more than the threshold |
| DiffOverlay.IdenticalBuffersMarkNothing | components/DiffOverlay.tsx:105-108 | Identical buffers draw no squares |
| DiffOverlay.ExactThresholdNotMarked | components/DiffOverlay.tsx:91-108 | A difference of exactly 30, with the alpha byte changed by 255, is not marked |
| DiffOverlay.OneAboveThresholdMarked | components/DiffOverlay.tsx:108-124 | A difference of 31 marks the one tile |
| DiffOverlay.RowMarksFromTiles | components/DiffOverlay.tsx:99-125 | A row's marks depend on the buffers only through which of its tiles changed |
| DiffOverlay.GridMarksFromTiles | components/DiffOverlay.tsx:98-127 | The marks depend on the buffers only through which tiles changed |
| DiffOverlay.AlphaIsIgnored | components/DiffOverlay.tsx:105-107 | Buffers that agree on every red, green and blue byte are marked alike: alpha is never compared |
| DiffOverlay.ScanBlocks | components/DiffOverlay.tsx:98-127 | The nested loops with their early exits produce exactly the row-major list of changed-tile squares |
| DiffOverlay.ProcessDiff | components/DiffOverlay.tsx:38-129 | The canvas takes the original's size and the crop view is the crop detection. With an empty sampled canvas the pixel read throws: nothing is marked and the view never reports loaded. Otherwise the marks are those of the scan and the view is loaded |
| ComparisonSlider.Clamp | components/ComparisonSlider.tsx:29 | The position lies in [0, 100]: offsets inside are kept, those below become 0 and those above 100 |
| ComparisonSlider.ClampIdempotent | components/ComparisonSlider.tsx:29 | Clamping twice is clamping once |
| ComparisonSlider.ClampMonotone | components/ComparisonSlider.tsx:29 | Clamping preserves order |
| ComparisonSlider.PointerOffset | components/ComparisonSlider.tsx:28 | Over the container the offset lies in [0, 100], giving 0 and 100 at its edges; left of it the offset is negative and right of it above 100 |
| ComparisonSlider.InsidePointerSetsOffset | components/ComparisonSlider.tsx:28-29 | A pointer over the container sets the position to exactly its offset |
| ComparisonSlider.OutsidePointerPinsToEdge | components/ComparisonSlider.tsx:28-29 | A pointer left of the container pins the position to 0, one right of it to 100 |
| ComparisonSlider.Slider.constructor | components/ComparisonSlider.tsx:21 | The slider starts at 50 |
| ComparisonSlider.Slider.HandleMove | components/ComparisonSlider.tsx:24-30 | Without a mounted container nothing changes. Otherwise the position becomes the clamped offset of the pointer: the mouse's x for a mouse move, the first touch's x for a touch move |
| ComparisonSlider.EditedPlacement | components/ComparisonSlider.tsx:33-40 | Each percentage, taken of the original's side, is the edited image's own pixel size or half the difference of the sides: the image is not scaled |
| ComparisonSlider.PlacementCentred | components/ComparisonSlider.tsx:33-40 | Both margins of the edited image are equal on each axis, and with the image they add up to 100% |
| ComparisonSlider.EqualSizesOverlayExactly | components/ComparisonSlider.tsx:33-40 | Images of equal size overlay exactly: 0%, 0%, 100%, 100% |
| ComparisonSlider.PlacementMatchesCropOutline | components/ComparisonSlider.tsx:33-40 | Converted to pixels, the slider's placement is the crop outline the change overlay draws |
| ComparisonSlider.ClipRightInset | components/ComparisonSlider.tsx:65 | For a position in [0, 100] the clip's right inset lies in [0, 100] |
| ComparisonSlider.LineLeft | components/ComparisonSlider.tsx:89 | For a position in [0, 100] the line stays within the frame |
| ComparisonSlider.ClipMeetsLine | components/ComparisonSlider.tsx:65-89 | The clip's right inset and the line's left offset add up to 100%, so the edited layer shows exactly left of the line |
| App.PrevIndex | App.tsx:64 | One back, wrapping from the first to the last: (i + len - 1) mod len |
| App.NextIndex | App.tsx:68 | One on, wrapping from the last to the first: (i + 1) mod len |
| App.PrevNextInverse | App.tsx:63-70 | Left after right, and right after left, return to the same image |
| App.NextSteps | App.tsx:68 | k presses of ArrowRight stay within the list |
| App.NextStepsWrap | App.tsx:67-70 | k presses of ArrowRight advance the index by k around the list |
| App.FullCycleReturns | App.tsx:67-70 | As many presses as there are images come back to the same image |
| App.WithPreset | App.tsx:81-83 | An empty or already saved prompt leaves the presets unchanged; any other prompt goes in front of the old list |
| App.WithPresetKeepsDistinct | App.tsx:82-83 | Saving never introduces a duplicate preset |
| App.WithPresetContents | App.tsx:82-83 | After saving, the presets are exactly the old ones plus the prompt when it is non-empty |
| App.WithPresetIdempotent | App.tsx:82-83 | Saving the same prompt twice is saving it once |
| App.Apply | App.tsx:120-149 | An update keeps the id and the original. "Processing" changes only the status. "Done" records the edited URL and metadata and keeps the error message. "Error" records the message and keeps the edit |
| App.ProcessingIsOverwritten | App.tsx:120-149 | A later outcome overwrites the interim processing mark entirely |
| App.UpdateById | App.tsx:120 | The mapped list has the same length (its contents: App.UpdateByIdEffect) |
| App.UpdateByIdEffect | App.tsx:120 | Items with the id receive the update, all others are unchanged, and the list keeps its ids in order |
| App.UpdateUnknownId | App.tsx:120 | An update for an id not in the list changes nothing |
| App.UpdateProcessingIsOverwritten | App.tsx:120-149 | Marking processing and then recording an outcome equals recording the outcome directly |
| App.ErrorMessage | App.tsx:148 | The shown error is the thrown message, or "Processing failed" when it has none or an empty one; never empty |
| App.EditedMetadata | App.tsx:134-140 | The edited name is the original's name followed by " (edited)"; the width and height are the returned ones |
| App.EditedMetadataReadsBack | App.tsx:134-140 | The dimension text reads back as the returned size. The size text is " KB" after a number with exactly two decimals, which reads back as the size in kilobytes rounded to the nearest hundredth |
| App.OutcomeUpdate | App.tsx:130-149 | A success becomes a "done" update with the data URL and the edited metadata, a throw an "error" update with its message |
| App.Settle | App.tsx:130-149 | An edit keeps the id and original metadata, and the item ends done exactly on success and failed exactly on a throw |
| App.FindFrom | App.tsx:110 | A reported position lies at or after the start and carries the id |
| App.Find | App.tsx:110 | A reported position lies in the list and carries the id |
| App.FindFromFirst | App.tsx:110 | No earlier position from the start carries the id, and none is reported exactly when none carries it |
| App.FindFirst | App.tsx:110 | The first item carrying the id is found, and none is reported exactly when no item carries it |
| App.FindDistinct | App.tsx:110 | With distinct ids, looking up an item's id finds that item |
| App.SingleEdit | App.tsx:109-151 | The list keeps its length, and an id missing from the handler's list changes nothing |
| App.SingleEditKeepsIds | App.tsx:120-149 | One edit never changes which images are listed, nor their order |
| App.SingleEditAt | App.tsx:109-151 | With distinct ids, an edit changes exactly the item at the id's position, giving it the update of its outcome |
| App.RunAll | App.tsx:153-160 | The list after a run's first n edits has the original length |
| App.RunAllKeepsIds | App.tsx:156-158 | A run never changes which images are listed, nor their order |
| App.RunAllSettles | App.tsx:156-158 | With distinct ids, after n edits each of the first n items is settled by its own outcome, and the others are as they were |
| App.RunAllFinishesEveryImage | App.tsx:156-158 | A whole run leaves every image done or failed |
| App.AnyEditedExists | App.tsx:142-158 | The running "some edit succeeded" flag is true exactly when one of the outcomes so far is a success |
| App.NewItem | App.tsx:94-101 | An upload enters idle, with its id and URL, no edit and no error. Its metadata is getImageMetadata's record of the file's name, size and decoded dimensions, so its size text is formatFileSize of the size and its dimension text reads back as the dimensions |
| App.AppState.constructor | App.tsx:28-41 | No images or presets, an empty prompt, Flash at 1K, no selection and every flag off |
| App.AppState.Navigate | App.tsx:502-505 | Navigation sets the selection and closes the refine panel and the diff view, leaving the content alone |
| App.AppState.KeyDown | App.tsx:61-75 | Without a selection, or for another key, nothing changes. ArrowLeft moves one back and ArrowRight one on, both wrapping. Escape closes the preview. All three clear the flags |
| App.AppState.PrevButton | App.tsx:391-396 | One image back, wrapping, with the refine panel and diff view closed |
| App.AppState.NextButton | App.tsx:444-449 | One image on, wrapping, with the refine panel and diff view closed |
| App.AppState.Close | App.tsx:318-321 | The preview closes and both flags are cleared |
| App.AppState.FilmstripSelect | App.tsx:502-505 | The chosen thumbnail is shown with both flags cleared |
| App.AppState.GridSelect | App.tsx:303 | The chosen card is shown; the flags stay as they were |
| App.AppState.ViewportClick | App.tsx:383-388 | The diff view toggles only when the shown image has a non-empty edited URL |
| App.AppState.ToggleRefine | App.tsx:364 | The refine panel flag flips; nothing else changes |
| App.AppState.CloseRefine | App.tsx:464 | The refine panel closes; nothing else changes |
| App.AppState.EditPrompt | App.tsx:233 | The prompt becomes the typed text; nothing else changes |
| App.AppState.SelectModel | App.tsx:188 | The model becomes the chosen one; nothing else changes |
| App.AppState.SelectResolution | App.tsx:202 | The resolution becomes the chosen one; nothing else changes |
| App.AppState.SavePreset | App.tsx:81-86 | The presets become WithPreset of the old presets and the prompt; nothing else changes |
| App.AppState.Upload | App.tsx:88-107 | A missing file list changes nothing. Otherwise the old images stay in front and one new idle item per file follows, in order |
| App.AppState.ProcessSingleImage | App.tsx:109-151 | An id absent from the handler's list sends nothing and changes nothing. Otherwise one call goes out for that image, with the given prompt and the current model and resolution, and the list becomes the single edit. A success closes the refine panel |
| App.AppState.RunPrompt | App.tsx:153-160 | An empty prompt does nothing. Otherwise it sends one call per image: call k carries the id of the k-th image of the list as the run began, with the prompt, model and resolution. The list becomes the run over it. The busy flag ends off. The refine panel is closed exactly when some edit succeeded |

## Left out

- Drawing is not modelled: canvas contexts, images drawn at 0.4 alpha, fill and stroke styles, fonts, dash patterns, JSX layout, CSS and ImageCard. The model keeps only the geometry that is drawn.
- The two image loads are left out: the load counter that waits for both, and the missing canvas context that skips the scan and still clears the spinner.
- The downsampled size `Math.floor(width * 0.1)` is not computed. The sampled width and height are inputs to `DiffOverlay.ProcessDiff`, and so are the 4 x w x h byte buffers. Those buffers hold both images stretched to that one size (DiffOverlay.tsx:86-87); the resampling that stretches them is not modelled.
- GeminiService.ClosestAspectRatio: distances are exact reals. A halfway ratio that is not a binary fraction can go the other way in the program's doubles. For instance, 7 x 6 ties 1:1 and 4:3 exactly and gets "1:1" here, but the program's rounding makes 4:3 nearer. Likewise 14 x 9 gets "4:3" here and "16:9" in the program.
- Floating point is left out, with the cases it causes:
  - `Math.log` in formatFileSize is replaced by the exact largest power of 1024;
  - `toFixed` switches to exponent form for values of 10^21 and more;
  - `x / 0.1` is treated as exactly `10 * x`;
  - slider and crop percentages are exact reals.
- ComparisonSlider.PointerOffset: requires a container of positive width. A zero-width container makes JavaScript compute Infinity or NaN, which the model does not represent.
- ComparisonSlider.EditedPlacement: requires positive original dimensions. The page mounts the slider without its four dimension props (App.tsx:405-408), so in the running page those percentages come out NaN. The placement lemmas describe the component as written, given its props.
- The service call itself is left out:
  - the network request, the API key, and the aistudio key selection for the PRO model (App.tsx:113-118);
  - `FileReader`, `Image` decoding, `URL.createObjectURL` and `generateId`.
  Their results are inputs: the reply, the dimensions, the URLs and the id. The probability that random ids collide is not modelled; `App.RunAllSettles` assumes distinct ids instead.
- The `File` handle of an item is not part of `ImageItem`. A call names its image by id. The service receives the file's base64 text and type as inputs.
- Presets are not loaded from, nor written to, `localStorage`, and the three default presets are not modelled. Only the list in memory is.
- App.SingleEdit: states the final list after one edit. The interim "processing" mark is set between the two list updates and is shown to be overwritten (`App.UpdateProcessingIsOverwritten`). What other handlers might observe in between is not modelled.
- App.AppState.RunPrompt: each awaited edit runs to completion before the next starts. Concurrent handlers interleaving with a running batch are not modelled. With duplicate ids, the run is described only by the fold `App.RunAll`.
- The refine prompt's text state and the effect that copies the global prompt into it (App.tsx:164-168) are left out. So is the disabled condition of the run and refine buttons (App.tsx:272, 484). `ProcessSingleImage` takes the prompt as a parameter.
- Helpers.FormatFileSize: its contract states only the zero case. The text for other sizes is stated by `Helpers.FormatFileSizeSmall`, `Helpers.FormatFileSizeParts` and `Helpers.FormatFileSizeCarry`. That includes the unit "undefined" beyond GB, and the "1024 KB" carry.
