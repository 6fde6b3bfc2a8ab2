# Linuxtrack in Dafny

This project models the working parts of linuxtrack, a head tracker: finding bright blobs in camera pictures,
turning three of them into a head pose, driving the TrackIR 4 camera, cutting its byte stream into frames, shaping
the axes, keeping preferences, and handing pictures and requests between threads and processes. It proves what
those parts are for, and where the code falls short of that, exactly when.

| file | component |
|---|---|
| StripeGraph, Bitmap, BlobFinder | the one-pass labeller over line buffers of ranges that share heap records |
| Scan, Pixels, PixelTotals | scanning a picture into runs; runs against 8-connected pixels; the whole frame |
| Geometry, MatrixArrays, Euler | vectors, orthonormal bases, inversion, Euler angles |
| Pose, WeakPerspective | pose recovery from three points; the closed-form three-point solution |
| Words, TirDevice, TirDriver | machine words; the simulated TrackIR 4; the host side of its initialisation |
| TirPackets, TirBlobs | the TrackIR 4 packet segmenter and frame reader; from its frames to blobs |
| MessageMachine | the Python prototype's message parser |
| PrefStore, Prefs, PrefText, PrefFile | the preference store, its text form, lexer and grammar |
| PayloadList | the linked list with deletion during iteration |
| ResponseCurve | the Bezier response curve and the axis value |
| RunLoop, FrameRing, FramePublisher | protocols between threads and processes, as interleaved steps |

Numbers: floating point is modelled by exact reals, or by exact integers where only sums are kept. A square root is
any function that returns a nonnegative number with the right square. Angles are points of the unit circle. A result
that would not be finite is `None` or `NotFinite`. Line and column numbers of stripes are unsigned 32-bit integers,
with their wrap-around and casts written out; so is the firmware checksum.

Results that were not to be expected from the code's own comments:

- Marking a stripe in the bitmap writes one cell to the right of it, while the same bitmap is still being scanned
  (`src/image_process.c:60-65`). A picture lit in its last column is therefore read differently from what it shows;
  `Scan.SeenIsPicture` says exactly when it is not. And a picture lit in its bottom right corner, or anywhere if it
  has a single column, is marked one cell past its end; `Scan.ToStripes` and `BlobFinder.Finder.AddStripe` say exactly
  when.
- The drivers scan their pictures where they are published (`src/webcam_driver.c:796-816`), so that cell can be the
  first one of a picture that a reader is copying. A copy during which one picture is published is certain to be whole
  exactly when no mark leaves its picture (`FramePublisher.Threshold`).
- `src/cal.h:31-32` says that blobs come sorted by area. They come in reading order of the leftmost pixels on the last
  rows of their components (`PixelTotals.FindBlobs`), so they are sorted if and only if the areas already are in that
  order (`PixelTotals.SortedIff`); `PixelTotals.BlobsNotSorted` is a picture where they are not.
- The line buffers are written past their end exactly when a line holds more stripes than they have ranges
  (`TirBlobs.RoomForNext`, `TirBlobs.FileFrame`). A scanned picture never does that (`Scan.ToStripes`). Stripes of a
  device can: the buffers of a TrackIR 4 have 201 ranges, its columns run to 1023, and 202 runs in every other column
  of a line overflow them (`TirBlobs.TrackIr4Overflows`). Runs that keep apart, left of column c, fit whenever (c+1)/2
  is at most the number of ranges (`StripeGraph.SeparateFits`).
- Euler angles do not give every rotation back near a right-angle yaw (`Euler.EulerRoundTrip`).
- A request set between the two assignments of `ltr_int_get_state_request` is lost, unless it is the one just read;
  set at any other moment it stays pending until the thread takes it (`RunLoop.RequestReachesThread`).
- Deleting before the first element has been fetched leaves an iterator that points to a freed node
  (`PayloadList.Iterator.DeleteCurrent`).
- Saving a store with an empty value fails, and the failed check then frees the live store
  (`src/pref.cpp:422`, `PrefFile.SavePrefs`).
- A firmware file that is present but empty is accepted and uploaded again at every start
  (`TirDriver.SecondInitUploadsNothing`).

## Model

| member | source | states |
|---|---|---|
| StripeGraph.ContactTestIsTouch | src/image_process.c:160-177 | For columns below 2^31 the mixed signed/unsigned contact test says exactly that two runs share a column or touch diagonally |
| StripeGraph.AboveInLineOrder | src/image_process.c:277-305 | For stripes in line order the edges the two line buffers can see are exactly the contacts between neighbouring lines |
| StripeGraph.LabelsAreComponents | src/image_process.c:306-342 | A labelling that is equal along every edge and only inside components names exactly the connected components |
| StripeGraph.SeparateFits | src/image_process.c:349-356 | Runs that keep a column apart, all left of column c, are at most (c+1)/2 on a line, so buffers of that many ranges have room for them |
| Bitmap.Clip | src/image_process.c:43-50 | The coordinate is unchanged within the bounds, and is the bound that it lies beyond otherwise |
| Bitmap.Image.ColumnHolds | src/image_process.c:47-50 | At any pixel ratio: the image column of a camera column is the one it falls in when the columns are scaled up by the ratio, and the column at the edge for one beyond the image |
| Bitmap.Image.DrawStripe | src/image_process.c:52-66 | For any coordinates: the colour fills exactly the cells from one past the first to one past the last column of the stripe, after scaling and clipping; all other cells keep their value; a cell past the end of the bitmap is written exactly when the last of them lies there |
| Bitmap.Image.LeavesFromCorner | src/image_process.c:52-66 | With a bitmap of exactly its rows, the marking leaves it exactly when line and column both end up in the bottom right corner, and then by one cell |
| BlobFinder.SumRedirected | src/image_process.c:179-190 | Redirecting a label moves its whole total (pixels, weight and both moments) to the surviving label and changes no other total |
| BlobFinder.ScanGathers | src/image_process.c:306-331 | After scanning any number of ranges of the line above, every range in contact carries the kept label, no two components have been joined that the new stripe does not join, and labels only ever grow coarser |
| BlobFinder.WindowStep | src/image_process.c:277-305 | Which stripes the two buffers hold after one more stripe: same line, next line (with 32-bit wrap) or any other line |
| BlobFinder.WindowContact | src/image_process.c:307-311 | The earlier stripes adjacent to the newest one are exactly the ranges of the line-above buffer that pass the contact test |
| BlobFinder.ScanThenTag | src/image_process.c:306-342 | Scanning and then labelling the new stripe keeps the labelling exact for the graph extended by that stripe |
| BlobFinder.NumberComponents | src/image_process.c:432-471 | A list of records without repetition, holding every label in use, has one entry per connected component with the total over its stripes |
| BlobFinder.OnceInOrder | src/image_process.c:218-261 | What is listed of one line is listed in the order of first appearances on it |
| BlobFinder.StoredByEnd | src/image_process.c:218-261 | For stripes in line order, storing keeps the list in the order of the first stripes on the last lines of the records |
| BlobFinder.AdvancedByEnd | src/image_process.c:276-305 | So does moving the buffers to the line of the next stripe |
| BlobFinder.JoinedByEnd | src/image_process.c:306-343 | So does merging the records in contact and adding the stripe |
| BlobFinder.NumberedAsListed | src/image_process.c:432-438 | With the components numbered as in such a list, lower numbers have the earlier first stripe on their last line |
| BlobFinder.Record.FromStripe | src/image_process.c:203-216 | A new record holds the totals of its stripe, is matched and not yet listed |
| BlobFinder.Record.AddStripe | src/image_process.c:192-201 | The record total grows by exactly the stripe total; its flags stay |
| BlobFinder.Record.Merge | src/image_process.c:179-190 | The surviving record holds the sum of both totals; its flags stay |
| BlobFinder.RedirectRanges | src/image_process.c:316-326 | Every range up to the limit that referred to the merged record refers to the kept one; all else is unchanged |
| BlobFinder.Finder.StorePreblobs | src/image_process.c:218-261 | Exactly the records of the line above that the line being read does not refer to are listed, each once, in order of first appearance; with `all`, those of the line being read follow in the same way and nothing is left pending; otherwise their flags are cleared |
| BlobFinder.Finder.MergeInto | src/image_process.c:312-329 | Merging two unlisted records redirects every owner, leaves every live total equal to the sum over its stripes, and removes the freed record from everything that is still reachable |
| BlobFinder.Finder.TouchRange | src/image_process.c:307-331 | One range of the line above: heap, owners and kept range follow the labelling step, and a record of the line above is matched exactly when it is kept or owns a stripe of the current line |
| BlobFinder.Finder.ScanLine | src/image_process.c:306-331 | The whole scan of the line above follows the labelling scan, with the record bookkeeping intact |
| BlobFinder.Finder.AdvanceLine | src/image_process.c:276-305 | On the same line nothing moves, on the next line the buffers swap, on any other line everything is finished; afterwards the buffers hold exactly the window of the new stripe |
| BlobFinder.Finder.Append | src/image_process.c:332-343 | The stripe is credited to the kept record, or to a new one if nothing was in contact, and its range joins the current line |
| BlobFinder.Finder.AddStripe | src/image_process.c:263-344 | For any stripe sequence: the invariant (exact component labels, exact totals, no reference to a freed record, matched and listed flags, list in order of last lines) holds again with the stripe added to the history; the bitmap is marked as drawn, and an exactly sized one is left exactly by a stripe in the bottom right corner |
| BlobFinder.Finder.Flush | src/image_process.c:432-435 | At the end of a frame the list has exactly one entry per connected component of all stripes received, each with the exact total over its stripes, and for stripes in line order the entries come in the order of the first stripes on the last lines of their components |
| BlobFinder.Finder.ReportBlobs | src/image_process.c:439-471 | The blobs filled in are the entries within the size limits, in list order, up to the capacity; the rest of the array is untouched. The place of each is where the weight of its entry has the moments of the entry, counted from the centre of the image at the pixel ratio; it is not finite exactly for weight zero |
| BlobFinder.Finder.StripesToBlobs | src/image_process.c:429-488 | Flush, report and reset: the blobs are those of the connected components within the limits, and the finder is empty again. Around the place of each blob the values of the stripes of its own component balance: value times distance sums to zero, in columns at the pixel ratio and in lines |
| Scan.SeenIsPicture | src/image_process.c:386-425 | Because marking a run writes one cell past its end, the scan reads the original picture if and only if every row that follows a row lit in its last column starts with the marking colour |
| Scan.SeenRunsArePictureRuns | src/image_process.c:386-425 | The stripes are the maximal runs of the original picture exactly under that condition |
| Scan.RunsUnique | src/image_process.c:386-425 | A picture has exactly one list of runs |
| Scan.LitLastColumnIsMisread | src/image_process.c:52-66 | A concrete picture with a lit last column whose next row is read wrongly |
| Scan.DarkLastColumnIsHarmless | src/image_process.c:52-66 | A dark last column in every row is enough for the picture to be read as it is |
| Scan.EmitRun | src/image_process.c:404-424 | Each finished run extends the ordered list of maximal runs with its offset-weighted sums, and marks exactly the right neighbours of its pixels; only a run that ends in the very last cell is marked past the end |
| Scan.ScanRow | src/image_process.c:386-425 | One row: all its maximal runs, in order, each fitting the slots of the line buffers; exactly the right neighbours of its lit pixels are marked |
| Scan.CornerSeen | src/image_process.c:386-425 | The cell after the picture gets marked if and only if the bottom right pixel is lit or, with a single column, any pixel |
| Scan.MarkedPastTheEnd | src/image_process.c:52-66 | Two pictures that are marked past their end: one lit in its corner, and a single column lit at its top |
| Scan.RowMarked | src/image_process.c:386-425 | Row by row, the cells marked so far are exactly the right neighbours of those that the scan found lit |
| Scan.RunsFit | src/image_process.c:349-356 | A row of w pixels yields at most (w+1)/2 runs |
| Scan.ToStripes | src/image_process.c:374-427 | For every image: the stripes handed on are exactly the maximal runs of what is read, at most (w+1)/2 per line; the cells marked afterwards are exactly the right neighbours of those read as lit; and an exactly sized bitmap is overrun exactly when the picture, before the scan, is lit in its bottom right corner or, with a single column, anywhere |
| Pixels.OneRunPerPixel | src/image_process.c:386-425 | No pixel lies in two runs |
| Pixels.PixelsAndRunsAgree | src/image_process.c:160-177 | Two lit pixels are 8-connected if and only if their runs are connected in the stripe graph |
| PixelTotals.RunSum | src/image_process.c:388-424 | The count, weight and moments of a run are the sums over its pixels |
| PixelTotals.ComponentSum | src/image_process.c:179-201 | The total of a component over its stripes equals the sum over its pixels of value, value times column and value times line |
| PixelTotals.EntriesOfFrame | src/image_process.c:429-470 | The flushed entries correspond one to one to the 8-connected pixel components, with exact pixel sums |
| PixelTotals.CentroidInBox | src/image_process.c:452-457 | The centroid of a component is finite and lies in every box that contains the component |
| PixelTotals.ComponentHasBlob | src/image_process.c:452-468 | The blob reported for the component of a lit pixel is finite, counts its pixels, and lies where their values balance |
| PixelTotals.EntriesInOrder | src/image_process.c:432-438 | The entries come in the reading order (by row, and from left to right) of the leftmost pixels on the last rows of their components, and there is one for each such pixel |
| PixelTotals.SelectedEnds | src/image_process.c:439-446 | The entries within the size limits are those of the components within the limits, in the same order |
| PixelTotals.SortedIff | src/cal.h:31-32 | The blobs reported are sorted by area if and only if the components within the limits, as many as are reported, already go down (or up) in area in reading order of the pixels where they end |
| PixelTotals.UnsortedAreRuns | src/image_process.c:386-425 | A picture of three blobs that is read as it is, and its runs |
| PixelTotals.BlobsNotSorted | src/cal.h:31-32 | For this picture, with blobs of 2, 1 and 2 pixels, no report is sorted by area, neither way |
| PixelTotals.FindBlobs | src/mac/processing.c:76-77 | End to end, scanning and reporting one picture: the blobs are exactly those of the 8-connected components within the limits, in reading order of the pixels where the components end, as many as there is room for. The score of each is the number of pixels of its component, and over these pixels value times ((w-1)/2 - x - column) and value times ((h-1)/2 - y - line) both sum to zero. The exact condition for the blobs to be sorted; and an exactly sized bitmap is overrun exactly when the picture is lit in the corner or, with a single column, anywhere |
| Geometry.Lagrange | src/math_utils.c:16-26 | The squared length of a cross product is the product of squared lengths minus the squared scalar product |
| Geometry.BaseIsRotation | src/math_utils.c:53-62 | Whenever the Gram-Schmidt base is finite it is orthonormal with determinant one |
| Geometry.BaseAxes | src/math_utils.c:53-62 | In the base made from two vectors the first lies on the positive first axis, and the second in the plane of the first two axes on the positive side |
| Geometry.NoBaseIffCollinear | src/math_utils.c:53-62 | The base is not finite exactly when the two vectors are collinear |
| Geometry.BaseTurns | src/math_utils.c:53-62 | Turning both vectors turns the base and nothing else |
| Geometry.InvertWorks | src/math_utils.c:232-244 | A finite adjugate inverse really is the inverse |
| Geometry.TransposeUndoes | src/math_utils.c:109-117 | The transpose of a rotation undoes it |
| Geometry.RotationKeepsDot | src/math_utils.c:64-69 | A rotation keeps scalar products |
| Geometry.RotationKeepsCross | src/math_utils.c:64-69 | A rotation carries cross products along |
| MatrixArrays.TransposeInPlace | src/math_utils.c:119-132 | The three swaps in place give the transpose |
| MatrixArrays.MulMatrix | src/math_utils.c:96-107 | The two loops fill in exactly the matrix product |
| MatrixArrays.InvertMatrix | src/math_utils.c:232-244 | The array code computes the adjugate inverse, and is finite exactly when the determinant is not zero |
| Euler.EulerIsProduct | src/math_utils.c:152-171 | The nine entries are those of roll, then yaw, then pitch |
| Euler.EulerIsRotation | src/math_utils.c:152-171 | For any three angles the matrix is orthonormal with determinant one |
| Euler.AlignedLengthKept | src/tracking.c:312-316 | Turning a displacement by the head angles keeps its length |
| Euler.EulerRoundTrip | src/math_utils.c:134-171 | Going to angles and back gives the same rotation if and only if the yaw cosine is above 1e-5 or the matrix has no pitch |
| Euler.RightAngleYawBack | src/math_utils.c:143-149 | At exactly a right-angle yaw the matrix always comes back |
| Euler.LostNearGimbal | src/math_utils.c:143-149 | Just off a right-angle yaw, a rotation pitched by a right angle does not come back |
| Euler.NearGimbalAngle | src/math_utils.c:143-149 | Such a yaw angle exists |
| Pose.BaseMoves | src/pose.c:577-581 | The local base of moved points is the moved base |
| Pose.CentreMoves | src/pose.c:632-635 | The centre found from moved points is the moved centre |
| Pose.SpreadMoves | src/pose.c:642-646 | The matrix of points about their centre is multiplied by the rotation |
| Pose.PoseOfMovedPoints | src/pose.c:614-651 | For points with a finite base and an invertible spread, turned by any rotation and moved by any vector: the recovered matrix is exactly the rotation and the centre is the moved centre |
| Pose.PoseRecovered | src/pose.c:614-673 | The whole pose of moved points is there and reports exactly the motion, including the translation of the centre |
| Pose.ModelRecovered | src/pose.c:614-673 | The absolute angles of a model that was turned and moved are those of the turn, and the absolute centre is its moved centre, whatever the reference |
| Pose.MovedCanCentre | src/pose.c:566-612 | Points that can be recentred on still can after any rigid motion |
| Pose.CentreFound | src/pose.c:541-567 | Local coordinates of the centre, applied to the points they were made from, give the centre back |
| Pose.Tracker.Init | src/pose.c:92-136 | Setting up succeeds exactly for a model with a base and an invertible spread; the centre of reference is then the given centre of rotation, and the model is the one in use; without a base the model in use stays, and with a singular spread there is none |
| Pose.Tracker.Center | src/pose.c:572-612 | Recentring succeeds exactly under the same condition on the points; on a singular spread the centre has already moved but the matrix has not |
| Pose.Tracker.GetPose | src/pose.c:614-673 | There is a report exactly when the points have a base; for every rigid motion of the reference points it is exactly that motion, with the moved centre; for every rigid motion of the model of the last successful setup the absolute angles are those of its rotation and the centre is the moved centre, whatever was recentred in between |
| Pose.Tracker.ProcessPoints | src/pose.c:505-516 | Right after recentring the pose is identity and zero; later, for every rigid motion of the reference points, it is exactly that motion. With or without recentring, every rigid motion of the model is reported, with the absolute angles of its rotation |
| WeakPerspective.LargerRootDominates | src/pose.c:307-307 | Where the quadratic is not positive its discriminant is not negative and the larger root is at least as large |
| WeakPerspective.ScaleFacts | src/pose.c:297-307 | For every proper model triangle the scale exists, solves the quadratic, and leaves both later radicands nonnegative |
| WeakPerspective.DepthsExist | src/pose.c:309-317 | The depth offsets exist and satisfy all three distance equations, the sign of the second chosen by the angle test |
| WeakPerspective.PlacedTriangle | src/pose.c:323-333 | Points placed with such depths have the model squared side lengths |
| WeakPerspective.ModelArea | src/pose.c:297-298 | The product of sides is zero exactly for collinear model points and positive otherwise |
| WeakPerspective.ScaleZeroIffOneSpot | src/pose.c:293-307 | The scale is zero exactly when all three blobs coincide |
| WeakPerspective.ObservationSolved | src/pose.c:286-317 | Every proper triangle and every three blobs that do not all coincide give a positive scale and good depths |
| WeakPerspective.Solver.AlterPose | src/pose.c:280-342 | A finite answer exactly for non-collinear models and blobs that do not all coincide; its three distances are exactly those of the model, it projects to the blobs at one scale with point 0 at the focal depth, point 1 behind or (for a cap) before point 0 (and point 2, when point 1 is at the depth of point 0), and recentring puts point 0 at the model distance |
| Words.XorLow | src/tir_hw.c:163-168 | The low bits of an exclusive or are the exclusive or of the low bits |
| Words.Xor16 | src/tir_hw.c:163-171 | Sixteen-bit truncation commutes with 32-bit exclusive or |
| Words.XorBits | src/tir_hw.c:167-168 | A bit of an exclusive or is set exactly when it is set in one operand and not in both |
| Words.XorCancels | src/tir_hw.c:167-168 | Doing it again undoes an exclusive or |
| TirDevice.MixLow | src/tir_hw.c:163-168 | One checksum step: the low sixteen bits after depend only on the low sixteen bits before |
| TirDevice.MixAllLow | src/tir4_model.cpp:87-103 | The same over any run of bytes |
| TirDevice.ChunkedChecksum | src/tir4_model.cpp:92-101 | Cutting to sixteen bits after every packet, as the device does, gives the same checksum as cutting once at the end, as the host does, for any split and from any start |
| TirDevice.Checksum | src/tir_hw.c:152-172 | An image has exactly one checksum: the low sixteen bits at the end of a run of words from 0, in which the exclusive or of each word with the word before plus the byte, modulo 2^32, is sixteen times the byte |
| TirDevice.ChecksumsAgree | src/tir4_model.cpp:87-103 | Host and device agree: carried on from sums with the same low sixteen bits, the checksum of the same bytes is the same |
| TirDevice.ChecksumOfOne | src/tir_hw.c:152-172 | The image of one byte 1 has the checksum 17 |
| TirDevice.Device.SetLeds | src/sn3_model.cpp:10-24 | Each LED follows its bit where the mask has it and keeps its state otherwise |
| TirDevice.Device.SendPacket | src/tir4_model.cpp:52-85 | Every command: what becomes of firmware state, checksum (that of the payload, carried on), answer queue, LEDs, video and threshold, and what stays |
| TirDevice.Device.LoadFirmware | src/tir4_model.cpp:87-103 | From any checksum, the payload is run through byte by byte: each word crossed with the word before plus the byte gives sixteen times the byte; the new checksum is the low sixteen bits of the last word, and firmware counts as loaded |
| TirDevice.Device.BaseSend | src/sn3_model.cpp:26-81 | LED, stop, video and threshold commands change exactly their own state, within the accepted threshold range; a configuration request queues one answer |
| TirDevice.Device.ReceivePacket | src/sn3_model.cpp:83-112 | Answers come in order, cut to the buffer; an empty queue gives nothing unless video and camera are on |
| TirDriver.StatusBytes | src/tir4_model.cpp:114-122 | The status packet carries the loaded flag, the checksum as two bytes and the configuration flag so that the host reads back exactly the device values |
| TirDriver.CksumFirmware | src/tir_hw.c:152-172 | The loop of the host over the whole image computes its checksum, by the same law as that of the device |
| TirDriver.Driver.Receive | src/tir_hw.c:239-239 | A queued answer arrives whole in the buffer; with nothing queued and the camera quiet, nothing arrives |
| TirDriver.Driver.StopCamera | src/tir_hw.c:529-542 | From any state: video, camera and all four LEDs are off, firmware state and queue untouched |
| TirDriver.Driver.Drain | src/tir_hw.c:804-806 | The flush loop ends and leaves the answer queue empty |
| TirDriver.Driver.ReadRomData | src/tir_hw.c:232-260 | Drains the queue, gets its answer, changes nothing else |
| TirDriver.Driver.ReadStatus | src/tir_hw.c:175-205 | Ends for any queue; with no stale answers it returns the device state and leaves none |
| TirDriver.Driver.UploadFirmware | src/tir_hw.c:311-339 | Packets of at most sixty bytes leave the device with the checksum of the whole image by that law, loaded exactly for a nonempty image, inactive |
| TirDriver.Driver.SetThreshold | src/tir_hw.c:373-393 | The device threshold becomes the clamped value, or stays where the device refuses it |
| TirDriver.Driver.ReloadConfig | src/tir_hw.c:834-846 | The wait for the configuration flag ends, with the new configuration active and the threshold set |
| TirDriver.Driver.InitCamera | src/tir_hw.c:792-859 | From any device state: ends, succeeds exactly when there is a firmware file, uploads nothing exactly when not forced, loaded, and the old checksum was that of the image, and leaves the checksum of the image, an active configuration, an empty queue and everything switched off |
| TirDriver.SecondInitUploadsNothing | src/tir_hw.c:820-822 | A second unforced initialisation changes nothing exactly when the image is nonempty or the first one had nothing to upload |
| TirPackets.DecodedRange | src/tir_img.c:129-151 | Line below 512, columns below 1024, point count the width of the run |
| TirPackets.DecodeEncoded | src/tir_img.c:129-144 | Every line below 512 and every pair of columns below 1024, packed into the four bytes, is decoded as it was |
| TirPackets.DecodedRun | src/tir_img.c:124-158 | A decoded stripe has the count, weight and offset sum of a run of pixels of weight one |
| TirPackets.FramesInLineOrder | src/tir_img.c:160-173 | Every frame cut from any word stream is nondecreasing in line number |
| TirPackets.FramesKeepStripes | src/tir_img.c:350-385 | All frames together hold every stripe exactly once and in order |
| TirPackets.FramesAreCut | src/tir_img.c:350-385 | The frames of any word stream are exactly its parts between the cuts: each in line order, and one ends only at an end marker, or where the next stripe lies on a line above the last one |
| TirPackets.PacketsReadBack | src/tir_img.c:427-531 | A transfer made of stripe packets (with two pad bytes after a full one), status and device packets is whole, and its words are those of the packets, in order |
| TirPackets.FramesOfTransfers | src/tir_img.c:536-580 | What a new reader will deliver of any transfers made of such packets is their words, cut exactly there |
| TirPackets.EventsAppend | src/tir_img.c:350-385 | Where a cut falls depends only on the word before it: a stream can be interrupted and resumed anywhere |
| TirPackets.Segmenter.IsNextFrame | src/tir_img.c:160-173 | Says whether the line number went down, and remembers it |
| TirPackets.Segmenter.ProcessStripe | src/tir_img.c:124-158 | Hands on exactly the decoded stripe |
| TirPackets.Segmenter.ProcessWords | src/tir_img.c:350-385 | One pass delivers stripes up to a cut or the packet end; what it leaves unread continues with the same meaning, and a stripe that opens the next frame is neither lost nor delivered twice |
| TirPackets.Segmenter.ProcessPacket | src/tir_img.c:427-531 | The same over whole transfers of status, device and stripe packets, with the pad bytes after a full packet, resuming inside a packet |
| TirPackets.Reader.ReadFrame | src/tir_img.c:536-580 | Each frame returned is the next of the frames of the whole byte stream, whatever the transfers, calls and interruptions; without a frame nothing is lost |
| TirBlobs.RoomForNext | src/image_process.c:338-342 | The line buffers have room for the next stripe if and only if its line then still holds no more stripes than a buffer has ranges |
| TirBlobs.FileFrame | src/tir_img.c:124-158 | For any frame: the stripes are filed in order up to the first one that would be written past its buffer, which none is exactly when no line holds more stripes than a buffer has ranges; an exactly sized bitmap is left exactly when one of them lies in the bottom right corner |
| TirBlobs.FramesToComeInOrder | src/tir_img.c:160-173 | Every frame that a new reader delivers is in line order |
| TirBlobs.ReadBlobs | src/tir_img.c:536-580 | From bytes to blobs: unless the frame overflows the line buffers, and then it says so, the entries are the connected components of exactly the stripes of the next frame, each with its exact total and in the order in which they end; without a frame nothing is lost and nothing reported |
| TirBlobs.CrowdedRead | src/tir_img.c:350-385 | One-pixel stripes in every other column of a line, each in a packet of its own, are read as one frame |
| TirBlobs.CrowdedFits | src/image_process.c:349-356 | That frame is in line order with its runs apart, and fits exactly the buffers with as many ranges as it has stripes |
| TirBlobs.SomeFrameOverflows | src/image_process.c:338-342 | For every size of the buffers below 512 ranges there are whole transfers whose first frame overflows them |
| TirBlobs.TrackIr4Overflows | src/tir_hw.c:1191-1197 | In particular for the 201 ranges that the width of the TrackIR 4 gives |
| PrefStore.PutThenLookup | src/pref.cpp:302-310 | After setting a key a lookup finds the value; every other key finds what it found before |
| PrefStore.SetThenGet | src/pref.cpp:312-322 | The same across sections: no other key and no other section changes |
| PrefStore.PutKeepsOthers | src/pref.cpp:312-322 | Every part but the one section stays where it was |
| PrefStore.PaddedValue | src/pref.cpp:279-279 | The zero-padded number reads back as the number |
| PrefStore.PaddedShape | src/pref.cpp:279-279 | The number is written in decimal digits, at least four, and more only where they are needed |
| PrefStore.CandidatesDiffer | src/pref.cpp:266-290 | The names tried for a new section are all different |
| PrefStore.TakenNames | src/pref.cpp:266-290 | As many names found taken, as many names there are |
| PrefStore.IndexedSnoc | src/pref.cpp:130-153 | Registering a new pair only when its key is new keeps the index equal to the linear scan |
| PrefStore.Section.AddItem | src/pref.cpp:130-134 | Appends the item and keeps index and items in agreement |
| PrefStore.Section.IndexIsScan | src/pref.cpp:145-153 | An index entry is the first pair a linear scan finds, and shares its value |
| PrefStore.Section.GetValue | src/pref.cpp:180-188 | Returns what a linear scan of the items finds |
| PrefStore.Section.KeyExists | src/pref.cpp:237-241 | Says whether a linear scan finds the key |
| PrefStore.Section.AddKey | src/pref.cpp:292-300 | Sets the first pair with the key or appends one; ends although it and its counterpart call each other |
| PrefStore.Section.SetValue | src/pref.cpp:302-310 | The same through the pointer in the index |
| Prefs.SectionsIndexedSnoc | src/pref.cpp:155-165 | Registering a section only when its name is new keeps the index equal to the linear scan |
| Prefs.Prefs.IndexIsScan | src/pref.cpp:162-165 | An index entry is the first section a linear scan finds |
| Prefs.Prefs.GetValue | src/pref.cpp:167-178 | Returns what the first section of that name holds under the key |
| Prefs.Prefs.KeyExists | src/pref.cpp:243-254 | Says whether such a value is there |
| Prefs.Prefs.AddSectionItem | src/pref.cpp:136-143 | Appends a section, keeps all sections separate and the index right, and marks the store changed |
| Prefs.Prefs.AddSection | src/pref.cpp:256-264 | Appends an empty section exactly when the name is new |
| Prefs.Prefs.SetValue | src/pref.cpp:312-322 | The first section of that name, made if need be, takes the value; the rest of the store is unchanged |
| Prefs.Prefs.AddNumberedSection | src/pref.cpp:266-290 | Adds the first free name in the order template, template0000, template0001, ..., within one try more than there are sections |
| PrefText.LexPair | src/pref_flex.lpp:21-46 | A printed pair lexes to key, equals sign and the value without its leading blanks, or to no value at all |
| PrefText.LexParts | src/pref_flex.lpp:19-55 | The printed form of any store with legal names and one-line texts lexes to the tokens of its parts |
| PrefText.ParseParts | src/pref_bison.ypp:44-82 | Parsing the tokens of a store rebuilds it, unless some pair has no value |
| PrefText.ReadsBack | src/pref.cpp:69-90 | What printing and reading make of any store with legal keys and names and one-line texts, including when reading fails |
| PrefText.RoundTrip | src/pref.cpp:69-90 | Printing and reading restore the store, each comment lengthened by exactly three marks and moved into the section it follows, if and only if every value is nonempty and does not start with a blank |
| PrefText.SettingsSurvive | src/pref.cpp:69-90 | Sections, keys and values survive in order, whatever happens to comments |
| PrefFile.PrintSection | src/pref.cpp:69-77 | The text of a section is that of its items in order |
| PrefFile.PrintPrefs | src/pref.cpp:79-90 | The text of the store is that of its parts in order |
| PrefFile.ReadPrefs | src/pref.cpp:405-424 | Fills the store with what the text says; a text with an error leaves it empty |
| PrefFile.SavePrefs | src/pref.cpp:493-534 | Saving succeeds exactly when what is printed can be read; for legal keys and names and one-line texts that is when every value has something besides leading blanks; a failed save empties the live store |
| PrefFile.EmptyValueUnreadable | src/pref.cpp:405-424 | A store with a legal section, a legal key and an empty value: what is printed cannot be read |
| PayloadList.Rejoined | src/list.c:131-140 | With the neighbours of a node joined, the chain without the node is well linked |
| PayloadList.List.AddElement | src/list.c:33-51 | The payload joins at the end of a well-formed list |
| PayloadList.List.Unlink | src/list.c:125-140 | The list without the node is well formed and holds the other payloads in order |
| PayloadList.FreeList | src/list.c:146-162 | Exactly the nodes of the list are freed, from the front and each once, their payloads too if wanted; no pointer is followed to a freed node |
| PayloadList.Iterator.GetNext | src/list.c:69-79 | Returns the next payload, from a node that is not freed, or nothing at the end |
| PayloadList.Iterator.DeleteCurrent | src/list.c:104-144 | Removes and frees the element returned last, or the head if there is none; the iterator stays good if and only if an element had been returned or the list was empty, and otherwise points to a freed node |
| PayloadList.Prune | src/list.c:69-144 | Deleting while iterating, for every list and every choice: each payload is visited once in order, exactly the unchosen ones remain, exactly the chosen nodes are freed, and every node is followed before it is freed |
| RunLoop.StepConsistent | src/runloop.c:15-110 | Each step of the thread keeps place, device state and tracker calls in agreement |
| RunLoop.StepAnnounces | src/cal.c:148-172 | Each step of thread or clients keeps a pending request announced: flag set, or a client about to set it |
| RunLoop.RunKeeps | src/runloop.c:15-119 | Both hold in every state of every interleaving |
| RunLoop.NoLostWakeUp | src/runloop.c:72-92 | While paused, a pending run or shutdown request has its flag set and the thread is not asleep, or a client is about to set it |
| RunLoop.NoAssertion | src/runloop.c:93-96 | The default case of the state switch is never reached |
| RunLoop.CallsOfRun | src/runloop.c:15-110 | A finished run has called init, then frames and whole pause-resume pairs, then close; a failed one only init |
| RunLoop.PendingStep | src/cal.c:148-172 | A pending request is overwritten by nothing but a client or the step with which the thread takes it, and the thread reads no other |
| RunLoop.TakenDecides | src/runloop.c:48-92 | Whatever the clients do meanwhile, the request taken decides which tracker calls come before the next look at the state, and the loop is left exactly for a shutdown or a bad frame |
| RunLoop.RequestReachesThread | src/cal.c:148-172 | In every state: a request set now is certain, however the steps continue, to stay pending until the thread takes it, if and only if the thread has not just read, and not yet cleared, a different one |
| RunLoop.UnderLockNeverLost | src/runloop.c:49-51 | Set while the lock is free, no request is lost |
| RunLoop.ShutdownCanBeLost | src/cal.c:166-172 | A run from the start in which a shutdown set between reading and clearing another request is wiped out |
| MessageMachine.DecodersAgree | python_prototype/tir4.py:431-454 | The prototype and the C driver read the same coordinates from a device stripe |
| MessageMachine.CropPixel | python_prototype/tir4.py:473-482 | A column from 80 to 789 loses 80; columns before become 0, columns after 709 |
| MessageMachine.CropLine | python_prototype/tir4.py:458-482 | A line below 300 loses 12, any other becomes 287; the cropped line lies in the cropped range exactly when the line is not above the offset, and is negative otherwise |
| MessageMachine.CroppedAbove | python_prototype/tir4.py:465-472 | A device stripe whose cropped line is negative |
| MessageMachine.StepShrinks | python_prototype/tir4.py:525-570 | Every pass that does something lowers twice the queue length plus one if not awaiting a header |
| MessageMachine.StepIgnoresMore | python_prototype/tir4.py:525-570 | A pass that can go ahead does the same whatever bytes follow |
| MessageMachine.SplitDoesNotMatter | python_prototype/tir4.py:520-577 | Two reads leave queue, parser state and frames as one read of all the bytes |
| MessageMachine.ReadsDoNotMatter | python_prototype/tir4.py:520-577 | The same for any number of reads |
| MessageMachine.FramesRejoin | python_prototype/tir4.py:571-577 | When frame i holds the words between zero word i and the zero word before it, the frames joined, followed by the pending stripes, are the stripes of all nonzero words, in order, each once |
| MessageMachine.FramesOfMessages | python_prototype/tir4.py:525-577 | For every list of whole messages (stripe words, empty ones, skipped ones) sent to a new machine: frame i holds exactly the stripes of the words between zero word i and the zero word before it, pending are those after the last zero word, and joined they are the stripes of all nonzero words in order |
| MessageMachine.FramesOfReads | python_prototype/tir4.py:520-577 | The same when the bytes of the messages arrive in any number of reads, cut anywhere |
| MessageMachine.MessageProcessor.AddBytes | python_prototype/tir4.py:520-577 | The loop ends and leaves the machine with nothing more it can process; whole messages given to a new processor leave exactly the frames of their words, and the rest pending |
| MessageMachine.MessageProcessor.ProcessPendingBytes | python_prototype/tir4.py:525-577 | One pass, in each mode: what it consumes, and that it stops exactly when more bytes are needed; a zero word finishes the pending frame and starts an empty one, any other word adds its stripe to the pending frame, and no other pass changes frames |
| ResponseCurve.ParameterSolves | src/spline.c:42-45 | For every legal dead zone and curvature the radicand is nonnegative and the parameter, between 0 and 1, is where the curve passes the input |
| ResponseCurve.SideOnCurve | src/spline.c:44-49 | Off the near-linear branch the value is the height of the curve over the input |
| ResponseCurve.InvertsCurve | src/spline.c:22-51 | The response inverts the Bezier curve exactly off the near-linear branch; on it, exactly at the ends or for a straight curve |
| ResponseCurve.SideRises | src/spline.c:22-51 | One side rises from zero at the dead zone to at most one, and is zero only up to the dead zone |
| ResponseCurve.CurveRises | src/spline.c:22-51 | The two-sided curve is monotone, bounded by one, and zero exactly in the dead zone |
| ResponseCurve.AxisRange | src/axis.c:221-253 | The axis value lies between zero and the limit of its side, and is zero exactly when disabled, without a limit, or in the dead zone |
| ResponseCurve.AxisMonotone | src/axis.c:221-253 | A larger input gives a larger value, or a smaller one on an inverted axis |
| ResponseCurve.AxisResponds | src/spline.c:9-51 | The axis value is that height times the limit, for either sign of the factor |
| ResponseCurve.Axis.ValOnAxis | src/axis.c:221-253 | From the parameters alone: zero when disabled or without a limit on the side of the input; otherwise, of the limit of that side, zero in the dead zone and beyond it the height over the deflection, clamped to one, of the quadratic with points (dz, 0), (dz + (1-dz)(1-k), k), (1, 1), where k is the left curvature for negative deflections and the right one otherwise, or of the straight line when the curve is nearly straight |
| ResponseCurve.Axis.SetParam | src/axis.c:291-340 | Changes exactly the one parameter, or none and reports it if the parameter is not a number; marks the curve points stale in any case |
| FrameRing.SlotsDiffer | src/mac/buffer.c:55-81 | Frames fewer than the ring size apart use different slots |
| FrameRing.LumaOfPicture | src/mac/processing.c:150-156 | Whatever the colours, each byte kept of a UYVY picture is the luminance of its pixel, or zero below the threshold; with threshold zero the whole luminance picture comes back |
| FrameRing.NewFrameKeeps | src/mac/processing.c:130-135 | A frame is refused if and only if the ring is full |
| FrameRing.StepKeeps | src/mac/processing.c:36-183 | At byte and flag grain, every step of either thread keeps the filled slots equal to the arc from reader to writer and the waiting frames intact |
| FrameRing.NoInterference | src/mac/processing.c:60-83 | The camera thread never touches the picture being processed, nor processing the one being written |
| FrameRing.RefinesQueue | src/mac/processing.c:36-183 | The steps are those of a bounded first-in first-out queue: a frame joins at the end, leaves at the front, and what processing sees is the one at the front; it finds nothing only when the queue is empty |
| FrameRing.SeenAreAccepted | src/mac/processing.c:36-183 | In every interleaving the pictures processed are the accepted frames, in order, unmodified, none twice |
| FrameRing.FullNotAsleep | src/mac/processing.c:36-50 | Whenever the ring is full and the camera thread is not about to signal, the processing thread can move: it never sleeps through a full ring |
| FrameRing.RefusalsEnd | src/mac/processing.c:130-165 | However the threads interleave, the processing thread makes at most three moves while the ring stays full: refusals come to an end |
| FrameRing.Buffers.IsEmpty | src/mac/buffer.c:46-53 | Looks at the slot, the first one for a bad index; a frame is refused exactly when this fails for the writer |
| FrameRing.Buffers.BufferWritten | src/mac/buffer.c:55-67 | Marks the slot (the first one for a bad index) filled and moves to the next, wrapping at the end: together the two last steps of the camera thread |
| FrameRing.Buffers.BufferRead | src/mac/buffer.c:69-81 | The same, marking it empty: together the two last steps of processing |
| FramePublisher.FrameMap.SlotsDisjoint | src/ltlib_int.c:52-61 | The header and the three buffers lie one after the other inside the mapped file |
| FramePublisher.FrameMap.PastTheSlot | src/ltlib_int.c:52-61 | The cell after a buffer is the first of the next one, or the end of the file |
| FramePublisher.FrameMap.PublishFrame | src/ltlib_int.c:28-79 | All three branches: which buffer becomes current, what every buffer holds afterwards, and where the driver draws next; the picture drawn is the one at the flag, and the one before it is kept |
| FramePublisher.PublishShows | src/ltlib_int.c:28-79 | What a publication is: the picture of the driver becomes current in the next buffer, the one before it stays, and the driver goes on in a blank third buffer or where it was |
| FramePublisher.PublishCompletes | src/ltlib_int.c:28-79 | Undisturbed, the byte steps of a publication come to exactly that |
| FramePublisher.ScanCompletes | src/image_process.c:386-425 | Undisturbed, the marks made cell by cell leave the picture as the whole scan does |
| FramePublisher.StepKeeps | src/ltlib.c:334-376 | Every interleaved byte step of driver, publisher and reader keeps the current picture in place, and the one before it too if no mark leaves its picture; a reader has so far the right bytes |
| FramePublisher.OnlyNextTouched | src/ltlib_int.c:61-79 | By the branches of a publication, only the buffer after the current one is ever written to, as long as no mark leaves its picture |
| FramePublisher.CopiesAreWhole | src/ltlib.c:334-376 | Every copy during which nothing was published is one whole published picture; so is every copy during which one picture was, if no mark leaves its picture |
| FramePublisher.DeviceMarksInside | src/image_process.c:263-271 | For a driver that draws the stripes of its device, the marks of a frame stay inside exactly when no stripe lies in the bottom right corner |
| FramePublisher.SpilledMarkSpoils | src/webcam_driver.c:796-816 | For every picture size, a run in which the mark past a picture lit in its corner lands in a copy that saw a single publication |
| FramePublisher.SecondPublicationSpoils | src/ltlib.c:334-376 | For every picture size, a run without such a mark in which a copy that saw two publications is not the picture noted |
| FramePublisher.Threshold | src/ltlib.c:334-376 | For every picture size and every k: all copies that saw at most k publications are whole if and only if k is 0, or k is 1 and no mark leaves its picture, that is, every picture is dark in its bottom right corner (or altogether, with a single column) when it is scanned |

## Left out

- Floating-point rounding, overflow of the 32-bit point and weight sums, and NaN: reals and unbounded integers instead.
- Crosses and squares drawn on the bitmap after the blobs are found (`src/image_process.c:69-144`): display only.
- Scan.ToStripes: for pixel ratio 1 only, which is what its callers set; drawing itself is modelled for every ratio.
- Scan.EmitRun: for pixel ratio 1 only, like the scan it belongs to.
- Scan.ScanRow: for pixel ratio 1 only, like the scan it belongs to.
- BlobFinder.Finder.AddStripe: for stripes that have room in the line buffers; when they do is stated (TirBlobs.RoomForNext), what a stripe written past them overwrites is not.
- BlobFinder.Finder.Append: the same.
- Bitmap.Image.DrawStripe: that a cell past the end of a bitmap is written is stated, but what it overwrites only for the frame map.
- The Newton iteration `iter_pose`: it has no convergence guarantee.
- The older rotation algorithm (`src/pose.c:450-501`) and the sorting of blobs into model order (`src/pose.c:345-422`).
- Pose.Tracker.Center: vectors and matrices of a pose are values here; only the matrix routines are modelled on arrays.
- Filters and angle clamping after the axes (`src/math_utils.c:267-296`).
- Cameras other than the TrackIR 4, USB failures, and the delays between commands.
- TirPackets.Segmenter.ProcessPacket: for transfers of whole packets, each stripe packet with at least one word, up to the end or to a packet of unknown type; the packet types of the other devices and packets that reach past the end of their transfer are not modelled.
- TirPackets.Reader.ReadFrame: for streams of such transfers.
- TirBlobs.ReadBlobs: the stripes of a frame are filed when the frame is complete, not one by one while it is read.
- A failed USB read is taken to leave the transfer empty.
- FrameMap sizes that change during a session, and a frame ring that is restarted.
- FramePublisher.CopiesAreWhole: the reader's width and height are fixed for the session; reading them in separate steps is not modelled, nor is a reader that starts before the first publication is complete.
- FrameRing.StepKeeps: each buffer of the ring is memory of its own, so a mark past its end changes no other buffer; what else it changes is not modelled.
- Face detection, the shared blob list and the frame flag of the Mac helper process.
- Looking up sections by value and listing section names (`src/pref.cpp:219-227`, `src/pref.cpp:364-392`), and values read as numbers.
- PrefText.RoundTrip: texts contain no NUL character; the tables of the generated lexer and parser are replaced by their rules.
- Files, renaming and locks of the preference store; one operation at a time.
- RunLoop: the library is loaded and the callbacks for state changes do nothing; a frame or its callback may fail at any time.
- PayloadList.Iterator.GetNext: payloads are never null, which the code uses as the end mark; reverse iteration is not modelled.
- The blob finder, plotting and command-line parts of the Python prototype.
- Window systems, game interfaces, plug-ins, sockets and process control.
