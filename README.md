# Composite card generator, modelled in Dafny

The generator turns a folder of photos into "cards". For every image file it
finds in `images/`, it reopens the reference image `card-energy-v2.png`. It
checks that the photo is square and resizes it to 340 by 340 pixels. It then
cuts the photo to a circle with a mask and pastes it onto the reference image,
centred in the bottom-left quadrant and nudged one pixel right and one pixel
down. The card is written as `results/<stem>_card.png`. The driver creates
`results/` when it is missing. It stops before looking at any photo when the
reference image or the input folder is missing. An exception raised while
making one card is caught inside `create_composite_card`, which prints an
error line and returns, and the run moves on to the next photo. That error
line is printed by the handler itself, outside the `try`, so an exception
from printing it would end the run; the model takes printing never to raise.

The project has four modules:

- `Geometry` (geometry.dfy): the 340-pixel target size, the paste offset
  (Python's `//` by 2 is Dafny's `/`, since both round toward minus infinity
  for a positive divisor), the box the subject covers and the ellipse inscribed
  in the mask.
- `Composite` (composite.dfy): `create_composite_card`. Images are
  `array2<Rgba>` indexed `[row, column]`; the mask is an `array2<byte>` drawn in
  place; the paste updates the template buffer in place. The function's outcome
  (skipped, generated at a position, or failed with the exception caught) is
  specified by `CardResult`.
- `FileNames` (filenames.dfy): the case-insensitive extension filter,
  `os.path.splitext` and `os.path.join` for POSIX paths, and the output name
  `<stem>_card.png`.
- `Batch` (batch.dfy): `main`. The file system is a value (`Disk`) read at the
  start. A run is recorded as the sequence of steps it takes: creating the
  output folder, one of the two early exits, and one `create_composite_card`
  call per accepted name with its paths and its outcome. `BatchTrace` specifies
  the whole run and `RunBatch` is proved equal to it.

`generator.py` does not crop: it skips non-square photos. It has one
placement, the centred one with the one-pixel nudge.

The table below lists the members whose contracts state something. They are
about these defining functions, which follow the source directly:

- `FileNames.IsImageFile`: the extension filter of generator.py:72.
- `FileNames.SplitExt` and `FileNames.OutputName`: the stem and the output name of generator.py:73-74.
- `FileNames.Join`: the joins of generator.py:69 and generator.py:75.
- `Batch.LoopSteps`: the loop of generator.py:68-77.
- `Batch.BatchTrace`: the whole of `main`, generator.py:49-77.

## Model

| member | source | states |
|---|---|---|
| Geometry.Half | generator.py:36-37 | `a // 2` is the floor half: twice the result is at most `a` and less than `a + 2`, also for a negative `a` |
| Geometry.PastePosition | generator.py:36-38 | the offset before the nudge is the floor half of the room beside the subject: in the left half horizontally, and in the bottom half below row `height // 2` vertically |
| Geometry.BoxFitsQuadrant | generator.py:33-37 | when each half of the template is wider and taller than 340 pixels, the nudged 340 by 340 box lies inside the bottom-left quadrant |
| Geometry.QuadrantNeedsMargin | generator.py:36-37 | the box fits horizontally in the left half if and only if that half is wider than 340 (at exactly 340 the nudge pushes it across the midline); it fits vertically in the bottom half if and only if `height // 2` exceeds 340, or the height is odd and `height // 2` is at least 339 |
| Geometry.Template850 | generator.py:34-37 | for an 850 by 850 template the paste position is (43, 468), the box is in the quadrant, and 340 is 80% of 425 |
| Geometry.EllipseSymmetric | generator.py:31 | the inscribed ellipse is symmetric about the vertical and horizontal midlines of its bounding box |
| Geometry.EllipseInsideBox | generator.py:31 | no pixel outside the bounding box (0, 0, width, height) is in the ellipse |
| Geometry.MaskCornersAndCentre | generator.py:29-31 | in the 340-pixel mask the centre pixel is inside the circle and the four corner pixels are outside |
| Composite.Resize | generator.py:26 | the resize yields a fresh 340 by 340 image holding the filter's output, whatever the subject's size |
| Composite.NewCanvas | generator.py:29 | a fresh single-channel canvas of the given size, all 0 |
| Composite.DrawEllipse | generator.py:30-31 | every canvas pixel in the inscribed ellipse takes the fill value, and every other pixel keeps its old value |
| Composite.NewCircularMask | generator.py:29-31 | the mask is a fresh 340 by 340 canvas, 255 exactly inside the ellipse and 0 elsewhere |
| Composite.Paste | generator.py:40 | each base pixel under an opaque mask pixel of the pasted box takes the image's pixel; every other base pixel, including pixels outside the box or clipped by the base's edges, is unchanged |
| Composite.OpenTemplate | generator.py:10 | a fresh buffer of the template's size holding its pixels |
| Composite.CardResult | generator.py:9-47 | the outcome is Skipped (with the subject's size) if and only if both images open and the subject is not square; Generated if and only if both open, the subject is square and the save succeeds, and then at the position computed from the template's size; otherwise Failed |
| Composite.CreateCompositeCard | generator.py:4-47 | the outcome is CardResult's; a buffer is written if and only if the outcome is Generated, and then it has the template's size, shows the resized subject exactly inside the circle of the box at the paste position, and shows the template everywhere else |
| Composite.Card850 | generator.py:33-40 | on an 850 by 850 template the subject's centre pixel lands at row 638, column 213; the box's corners and every pixel outside rows 468-807 and columns 43-382 keep the template |
| FileNames.RFind | generator.py:73 | the index found is -1 or a valid index |
| FileNames.RFindSpec | generator.py:73 | the index found holds the character, and no later index does |
| FileNames.SplitExtParts | generator.py:73 | root followed by extension is the name; the extension is empty or a dot followed by no dot and no slash |
| FileNames.JoinRoundTrip | generator.py:69 | joining a component under a relative folder loses nothing: the component can be recovered from the path |
| FileNames.JoinExample | generator.py:69 | a relative name under a folder name is joined with one slash |
| FileNames.AcceptedSuffixShape | generator.py:72 | a name the filter accepts ends in a dot followed by the extension's letters in either case, with no dot or slash among them |
| FileNames.AcceptedEnding | generator.py:72 | every accepted name has at least four characters and ends in 'g' or 'p' in either case |
| FileNames.OutputNameOfImage | generator.py:72-74 | for an accepted name without a slash, the output name drops exactly the accepted extension and appends `_card.png`, except that a name that is all dots before the extension keeps it |
| FileNames.FilterAgreesWithSplitExt | generator.py:72-73 | splitext's extension, lower-cased, is one of the four if and only if the filter accepts the name and splitext finds an extension |
| FileNames.ExampleUpperCase | generator.py:72-74 | "Photo.JPEG" is accepted and becomes "Photo_card.png" |
| FileNames.ExampleDottedStem | generator.py:72-74 | "archive.tar.WebP" is accepted and becomes "archive.tar_card.png" |
| FileNames.ExampleHiddenName | generator.py:72-74 | ".png" is accepted and becomes ".png_card.png" |
| FileNames.ExampleRejected | generator.py:72 | "notes.txt", "png" and "photo.gif" are rejected |
| Batch.Accepted | generator.py:68-72 | a name is among the accepted names if and only if it is listed and passes the filter |
| Batch.LoopStepsSnoc | generator.py:68-77 | one more listed name adds one call, if the name is accepted, after the calls for the names before it |
| Batch.VisitFile | generator.py:69-77 | an accepted name gets one create_composite_card call with its input path and derived output path; any other name gets none |
| Batch.VisitAll | generator.py:68-77 | the loop makes exactly the calls the specification of the loop lists, in listing order |
| Batch.RunBatch | generator.py:49-77 | the run takes exactly the steps of BatchTrace: the folder creation, the early exits and the loop |
| Batch.OneCallPerImage | generator.py:68-77 | the loop makes one call per accepted name, in listing order, and nothing else |
| Batch.SetupOrder | generator.py:54-66 | the output folder is created first if and only if it is missing, and never later; a missing reference image or input folder ends the run before any card is attempted |
| Batch.SameCall | generator.py:69-75 | the paths of a call depend on the file name only, not on the images or on the disk |
| Batch.OutcomesDoNotChangeAttempts | generator.py:68-77 | two disks that agree on the folders and the listing attempt the same files under the same paths in the same order, however the images differ (unreadable, non-square or unwritable) |
| Batch.AttemptedIffImage | generator.py:68-77 | once the run reaches the loop, a card is attempted for a name if and only if the name is listed and passes the filter |
| Batch.JoinInputInjective | generator.py:69 | distinct listed names give distinct input paths |
| Batch.CorruptFileDoesNotStopBatch | generator.py:46-77 | with a corrupt photo, a good square photo and a text file listed, the corrupt photo fails, the good photo still gets its card at (43, 468), and the text file is passed over |

## Left out

- Decoding and encoding images, `convert("RGBA")`, and the LANCZOS filter are not modelled. A subject carries its size and the values the filter yields. `Image.open` reads only the header, so a non-square photo is skipped on its header alone, even when its pixel data is corrupt; such a photo is `Some`. `None` stands for a photo `Image.open` cannot identify, or for a square photo whose pixels fail to decode at the convert or the resize.
- Composite.DrawEllipse: the mask is the ideal ellipse inscribed in the box (0, 0, 340, 340). Pillow's rasteriser treats the box as inclusive and picks its own edge pixels, so pixels on the circle's rim may differ.
- Composite.Paste: requires a mask whose pixels are all 0 or 255. Pillow blends for other mask values, but the mask drawn here has only those two.
- Composite.CreateCompositeCard: an exception raised by convert, resize, draw or paste is not modelled separately. Save failure is the only failure after the square check, given as the `saved` parameter.
- FileNames.Lower: models `str.lower()` on ASCII letters only. Other Unicode case mappings are not modelled.
- Batch.OutcomesDoNotChangeAttempts: holds only because printing is taken never to raise. In the source the error line of `create_composite_card` is printed outside its `try`. A print that raises (stdout is a closed pipe, or a listed name holds bytes stdout cannot encode) makes the earlier print fail and then this one. The exception escapes and ends `main`'s loop, so later files are not attempted. Batch.CorruptFileDoesNotStopBatch and Batch.RunBatch rest on the same assumption.
- `FileNames.Join` and `FileNames.SplitExt` follow `os.path` on POSIX systems only. On Windows, `os.path.join` inserts a backslash and `os.path.splitext` also splits at a backslash, so the paths in the recorded steps are the POSIX ones.
- The printed messages are not modelled. The `Skipped` outcome keeps the size that the message reports, and `Generated` keeps the position.
- Failures of `os.makedirs` and `os.listdir` are not modelled. Neither is an `images` path that exists but is not a folder. In the source these raise outside the per-file handler and end the run.
- The template buffer that `create_composite_card` changes in place is not observable after a failed save, so the model returns no buffer then.
