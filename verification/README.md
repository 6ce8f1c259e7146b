# Dezoomify: a verified model

A Dafny model of the parts of dezoomify that keep state under a contract, with proofs of what they
promise. Paths below are relative to the repository's root.

- **Pixels** (`Coverage`, `MemoryBudget`, `PixelModel`, `PixelMachine`, `PixelHistory`, `PixelRuns`, `PixelGrids`,
  `PixelStrip`, `PixelPipe`, `PixelCalls`, `JpegView`). Tiles arrive in any order, are composited into
  64-row strips and handed to an encoder in row order, every byte charged to a shared budget. The pipe is
  modelled twice: as a machine whose steps are its locked sections, interleaved in every way, with
  invariants over whole runs; and as objects that change their buffers, words and maps in place, proved
  equal to the machine's functions. A call is shown to be a run of the machine.
- **Levels and pyramids** (`TileLevel`, `Downsample`, `Triangle`, `Pyramid`). Cells, region assembly by range and by
  testing every tile, triangle resampling tile by tile in global coordinates, and the halving pyramid with
  its IIIF paths. Weights are real numbers.
- **Bytes** (`StagedFile`, `PngChunks`, `ImageMetadata`, `TileStructure`, `JpegForms`, `IterJson`,
  `Utf8`, `JsMask`, `JsGrammar`).
  Header insertion in place and the life of a staged file, PNG and JPEG scans, brace pairs, and the
  JavaScript masker.
- **Protocols** (`RateLimiter`, `TokenBucket`, `Relay`, `RetryApproval`, `Acquisition`, `JobProtocol`,
  `JobLevels`, `JobRun`, `JobLaws`). Admission gates, redirects, the shared retry question, the retry loop and its pool, and the
  whole job as the sequence of calls its host sees. Tasks and metadata reads interleave where they await.
- **Bounded state** (`ZifMetadata`, `FinalMetadata`, `Diagnostics`). Pruned metadata and the bounded log
  against what would have been kept without bounds, and which tile's profile an image gets.

What a codec decodes, what the host, the clock, the network and the file system answer, and how the
executor interleaves tasks are parameters. Of blending only this is assumed: an opaque source replaces what
is below it.

Where the code does not do what it, or its documentation, says:

- Both rate limits are promised for any second and any interval, but read a clock that may be set back.
  `RateLimiters.ClockExactly` and `TokenBuckets.ClockExactly` show that the promise survives a step between
  any two consecutive readings, also of different attempts or requests, exactly if it is not a step back,
  and `BackwardClock` in each module gives a failing run.

`dafny verify dfyconfig.toml` checks the whole project.

## Model

| member | source | states |
|---|---|---|
| `MemoryAccounting.ReserveIsExact` | crates/dezoomify-native/src/pixel_pipe.rs:29-39 | A reservation adds exactly its bytes and stays under the cap, except when the cap is the largest 64-bit number and the sum passes it; that is exactly when it wraps. The host's clamp of the cap to four fifths of the available memory (host.rs:315-317) rules that cap out. |
| `MemoryAccounting.ReserveWraps` | crates/dezoomify-native/src/pixel_pipe.rs:29-39 | Where it wraps, 2 to the 64th is lost; under any smaller cap such a reservation is refused. |
| `MemoryAccounting.MemoryBudget.Reserve` | crates/dezoomify-native/src/pixel_pipe.rs:29-39 | Refused over the cap without changing anything; otherwise the bytes join the live reservations and the peak follows. |
| `MemoryAccounting.MemoryBudget.Shrink` | crates/dezoomify-native/src/pixel_pipe.rs:56-64 | One live reservation becomes smaller, and exactly the difference is given back. |
| `MemoryAccounting.MemoryBudget.Drop` | crates/dezoomify-native/src/pixel_pipe.rs:66-74 | One live reservation ends and exactly its bytes are given back. |
| `MemoryAccounting.MemoryBudget.Available` | crates/dezoomify-native/src/pixel_pipe.rs:43-45 | Cap less the sum of the live reservations, never negative. |
| `Coverage.MaskedOnes` | crates/dezoomify-native/src/pixel_pipe.rs:94-95 | The ones of a mask applied to an inverted word are the unmarked pixels under the mask. |
| `Coverage.CoverWordMarks` | crates/dezoomify-native/src/pixel_pipe.rs:91-97 | One word's update marks exactly the run's pixels of that word and no other. |
| `Coverage.CoverWordCounts` | crates/dezoomify-native/src/pixel_pipe.rs:91-97 | One word's ones are exactly the pixels it newly marks. |
| `Coverage.MarkLowers` | crates/dezoomify-native/src/pixel_pipe.rs:90-98 | Marking a run lowers the number of unmarked pixels by what the run had unmarked. |
| `Coverage.Cover` | crates/dezoomify-native/src/pixel_pipe.rs:90-98 | Word by word, the map becomes the old one with the run marked, and the counter stays the number of unmarked pixels. |
| `PixelStrip.PendingStrip.constructor` | crates/dezoomify-native/src/pixel_pipe.rs:205-220 | A blank strip of the right rows: clear pixels, nothing marked, every pixel counted uncovered. |
| `PixelStrip.PendingStrip.CompositeRun` | crates/dezoomify-native/src/pixel_pipe.rs:297-312 | Copying an opaque run and blending a translucent one both composite the run onto the old pixels; pixels outside it stay. |
| `PixelStrip.RunPaints` | crates/dezoomify-native/src/pixel_pipe.rs:292-314 | After one more row, the buffer is the strip with the tile's rows so far composited. |
| `PixelStrip.RunMarks` | crates/dezoomify-native/src/pixel_pipe.rs:313-313 | After one more row, the marks are those of the tile's rows so far. |
| `PixelStrip.PendingStrip.PaintTile` | crates/dezoomify-native/src/pixel_pipe.rs:292-314 | The in-place row loop turns a strip into the strip with the tile composited on every pixel both have, and its coverage and counter with it. |
| `PixelModel.CoversExactly` | crates/dezoomify-native/src/pixel_pipe.rs:250-267 | A tile brings exactly the canvas positions that lie within its decoded and its expected columns and rows, and there the pixel of that column and row. |
| `PixelModel.BlankBytes` | crates/dezoomify-native/src/pixel_pipe.rs:205-220 | A blank strip is charged four bytes a pixel, eight for each 64 pixels begun, and 128 more. |
| `PixelModel.PublishGeometry` | crates/dezoomify-native/src/pixel_pipe.rs:321-354 | Handing a strip over keeps every pending strip on its own rows and the next row a strip boundary. |
| `PixelModel.SegmentGeometry` | crates/dezoomify-native/src/pixel_pipe.rs:279-317 | Compositing one strip's part of a tile keeps the geometry of the pending strips. |
| `PixelMachine.GeometryKept` | crates/dezoomify-native/src/pixel_pipe.rs:226-379 | Every locked section, under every interleaving, keeps pending strips aligned, whole and not behind the next row. |
| `PixelMachine.OrderKept` | crates/dezoomify-native/src/pixel_pipe.rs:331-354 | Every section keeps the strips handed over in row order, each once, with received, queued and dropped strips in that order. |
| `PixelMachine.BudgetKept` | crates/dezoomify-native/src/pixel_pipe.rs:15-74 | Every section keeps the accounted bytes equal to the sum of all live reservations. |
| `PixelHistory.PaintFold` | crates/dezoomify-native/src/pixel_pipe.rs:292-313 | Painting a strip appends the tile's contribution to the fold the strip holds. |
| `PixelHistory.LogKept` | crates/dezoomify-native/src/pixel_pipe.rs:226-320 | Every section keeps the log of accepted contributions: parts of begun tiles, in order of placing and then from the top down, none twice, each in a pending strip or handed over. |
| `PixelHistory.FoldKept` | crates/dezoomify-native/src/pixel_pipe.rs:226-354 | Every section keeps each pending and each handed-over strip equal, pixel by pixel, to the fold of its logged contributions from transparent. |
| `PixelRuns.RunInv` | crates/dezoomify-native/src/pixel_pipe.rs:156-410 | Every state of every interleaved run satisfies geometry, accounting, order, log and fold together. |
| `PixelRuns.BytesAreLiveReservations` | crates/dezoomify-native/src/pixel_pipe.rs:15-74 | In every state of every run the accounted bytes are the live reservations and at most the cap. |
| `PixelRuns.PeakIsRunningMaximum` | crates/dezoomify-native/src/pixel_pipe.rs:33-34 | The recorded peak is the maximum of the accounted bytes over the run. |
| `PixelRuns.FailureIsFinal` | crates/dezoomify-native/src/pixel_pipe.rs:179-190 | The first failure is never replaced, and from then on no strip is queued or received. |
| `PixelRuns.HandedOverStripsHoldTheFold` | crates/dezoomify-native/src/pixel_pipe.rs:205-354 | Strips handed over are whole, in row order, and hold the fold of the accepted contributions; before `finish` each is fully covered. |
| `PixelRuns.FinishHandsOverEveryRow` | crates/dezoomify-native/src/pixel_pipe.rs:356-379 | When `finish` ends, the queue is closed and every canvas row was handed over exactly once, in order. |
| `PixelRuns.PlacedPictureIsHandedOver` | crates/dezoomify-native/src/pixel_pipe.rs:226-354 | Tiles that show a picture, under any order and interleaving, are handed over as exactly the picture's strips, with the queue closed. |
| `PixelRuns.PartitionShows` | crates/dezoomify-native/src/pixel_pipe.rs:221-225 | Any order of opaque tiles that partition the canvas shows the same reference canvas. |
| `PixelRuns.EveryOrderHandsOverTheCanvas` | crates/dezoomify-native/src/pixel_pipe.rs:226-354 | For any opaque partition of the canvas every order of `place` calls hands over the reference canvas cut into 64-row strips, with no late part and the queue closed. |
| `PixelGrids.PartitionExactly` | crates/dezoomify-native/src/pixel_pipe.rs:249-270 | Opaque tiles partition the canvas exactly if every position belongs to one of them by place, decoded and expected size, and to no other. |
| `PixelGrids.GridIsHandedOver` | crates/dezoomify-native/src/pixel_pipe.rs:226-354 | For every grid of cells, its last column and row cut to the canvas, whatever the order and interleaving: strips begin at every 64th row, and each position holds the pixel its own cell's tile has at that column and row. |
| `PixelGrids.NothingBrought` | crates/dezoomify-native/src/pixel_pipe.rs:356-379 | Once `finish` has handed everything over, a position no tile brought is clear. |
| `PixelGrids.LateIsTheRest` | crates/dezoomify-native/src/pixel_pipe.rs:279-284 | In every run without a failed call, as many parts of tiles are counted late as were not accepted. |
| `PixelPipes.PixelPipe.PublishNext` | crates/dezoomify-native/src/pixel_pipe.rs:331-354 | The object's hand-over equals the specified one and adds a blank strip where none is pending; it fails exactly if that blank does not fit the budget, or else if the pipe has failed, and says which. |
| `PixelPipes.PixelPipe.PublishComplete` | crates/dezoomify-native/src/pixel_pipe.rs:321-330 | Hands over complete strips for as long as the next one is complete. |
| `PixelPipes.PixelPipe.Place` | crates/dezoomify-native/src/pixel_pipe.rs:226-320 | A whole `place` call: the producer and queue the specification computes, its two reservations ended or stored. It fails only if the pipe has failed, changing nothing, or at a strip that needs a blank the budget has no room for, with everything above it placed. |
| `PixelPipes.PixelPipe.Finish` | crates/dezoomify-native/src/pixel_pipe.rs:356-379 | A whole `finish` call hands every remaining strip over; it fails only if the pipe has failed or at the first strip whose blank the budget has no room for, with everything above it handed over. |
| `PixelPipes.PixelPipe.Receive` | crates/dezoomify-native/src/pixel_pipe.rs:393-409 | The oldest queued strip with its reservation, the end of the stream, or the failure. |
| `PixelPipes.PixelPipe.Fail` | crates/dezoomify-native/src/pixel_pipe.rs:179-190 | The first error stays; pending strips, queue and metadata are emptied and their bytes given back. |
| `PixelCalls.PlaceLeads` | crates/dezoomify-native/src/pixel_pipe.rs:279-318 | A `place` call nothing interrupts is a run of its own sections and no others, ending where `PlaceFrom` says, or at the first strip whose blank cannot be reserved. |
| `PixelCalls.FinishLeads` | crates/dezoomify-native/src/pixel_pipe.rs:356-379 | A `finish` call nothing interrupts is a run of its own sections and no others, ending where `PublishAll` says, or at the first strip whose blank cannot be reserved. |
| `PixelCalls.FinishedRun` | crates/dezoomify-native/src/pixel_pipe.rs:356-379 | After any run without failure, such a call ends with the queue `PublishAll` computes, closed, and every canvas row handed over once, or at a refused blank. |
| `JpegViews.JpegView.constructor` | crates/dezoomify-native/src/raster.rs:319-328 | The view starts with the first strip; a pipe of a real canvas always has one. |
| `JpegViews.JpegView.Advance` | crates/dezoomify-native/src/raster.rs:329-342 | The next strip is taken and the old one counted consumed, or it fails when the row is not the strip's first. |
| `JpegViews.JpegView.GetPixel` | crates/dezoomify-native/src/raster.rs:349-374 | A read fails exactly when it leaves the strip other than to the first row of the next; then every later read is black. |
| `JpegViews.ReadAll` | crates/dezoomify-native/src/raster.rs:349-374 | A traversal is served to its end exactly when it moves down by strips, and then every answer is the full canvas's pixel. |
| `JpegViews.BandsAreServed` | crates/dezoomify-native/src/raster.rs:311-312 | Every traversal by eight-row bands is served, and the strips consumed then account for every canvas pixel once. |
| `JpegViews.ReadPlaced` | crates/dezoomify-native/src/raster.rs:311-374 | From tiles to encoder: for any order of a partition's tiles, any interleaving with the reader, and any traversal by bands, every answer is the reference canvas's pixel. |
| `TileLevels.CellsPartition` | crates/dezoomify-native/src/tile_output.rs:459-469 | The cells of a level cover every position exactly once. |
| `TileLevels.MeetsInRange` | crates/dezoomify-native/src/tile_output.rs:412-418 | A stored cell of a regular level meets a rectangle exactly when its row and column are in the computed ranges. |
| `TileLevels.RangeIsFilter` | crates/dezoomify-native/src/tile_output.rs:477-584 | On a regular level the row and column range selects exactly the tiles, in the same order, that testing every tile selects. |
| `TileLevels.IntersectsExactly` | crates/dezoomify-native/src/tile_output.rs:532-537 | Rectangles within 32 bits intersect exactly if they share a position. |
| `TileLevels.CountExactly` | crates/dezoomify-native/src/tile_output.rs:461-466 | Cells are counted exactly if their number fits 32 bits. |
| `TileLevels.MeetingIsEnough` | crates/dezoomify-native/src/tile_output.rs:564-582 | Leaving out tiles that do not meet the rectangle changes none of its pixels. |
| `TileLevels.CellShows` | crates/dezoomify-native/src/tile_output.rs:459-584 | On a regular level a position shows the tile stored in its own cell and only that. |
| `TileLevels.Overlay` | crates/dezoomify-native/src/tile_output.rs:477-584 | Cropping and compositing one tile changes exactly the pixels it covers. |
| `TileLevels.OverlayAll` | crates/dezoomify-native/src/tile_output.rs:477-584 | The tiles are composited in order up to the first trouble, which is its error: the flag up before that tile, no memory for it beside the region, or a failed decode. |
| `TileLevels.NoTrouble` | crates/dezoomify-native/src/tile_output.rs:477-584 | There is no trouble exactly if every tile is reached before a cancellation, fits the budget beside the region, and decodes. |
| `TileLevels.Region` | crates/dezoomify-native/src/tile_output.rs:477-584 | The assembled region is the crop of the level's canvas, whichever way its tiles were found, and decodes exactly the tiles that meet it; it fails exactly if the region itself or one of those tiles is in trouble, with the first such error. |
| `TileLevels.CompleteLevelShowsItsTiles` | crates/dezoomify-native/src/tile_output.rs:459-584 | On a complete regular level of opaque tiles each position shows the pixel of its own cell's tile. |
| `Downsampling.NearestWeighs` | crates/dezoomify-native/src/tile_output.rs:621-632 | Every target position of an axis enlarged at most twofold, kept, or reduced has a source position in range with a positive weight. |
| `Downsampling.WeightsSumToOne` | crates/dezoomify-native/src/tile_output.rs:606-623 | On such an axis every target position has weights, none negative, that sum to one. |
| `Downsampling.WeightsFit` | crates/dezoomify-native/src/tile_output.rs:599-613 | The number of weights of a position fits what is charged for it. |
| `Downsampling.ListsWithin` | crates/dezoomify-native/src/tile_output.rs:624-640 | All source positions of a rectangle lie between the first and last it asks for, inside the level. |
| `Downsampling.ListsFit` | crates/dezoomify-native/src/tile_output.rs:599-629 | The weight lists built fit the bytes charged for them. |
| `Downsampling.SumWindow` | crates/dezoomify-native/src/tile_output.rs:645-655 | The loop over the window computes the weighted sum over the whole source picture. |
| `Downsampling.Downsample` | crates/dezoomify-native/src/tile_output.rs:588-663 | Every pixel of any target rectangle is the one the whole target level has there: tiles join without seams; buffers fit the budget. It fails exactly if the buffers do not fit or the source region needed is in trouble, with that error. |
| `Downsampling.ClampNeverFires` | crates/dezoomify-native/src/tile_output.rs:645-661 | Every resampled channel is between 0 and 255 before rounding: the clamp changes no value. |
| `Downsampling.FlatColorIsKept` | crates/dezoomify-native/src/tile_output.rs:645-663 | A picture of one visible colour is reduced to that colour; an invisible one becomes clear. |
| `Downsampling.OpaqueStays` | crates/dezoomify-native/src/tile_output.rs:645-663 | Where the source picture is opaque throughout, so is every resampled pixel. |
| `Downsampling.WeightsExistExactly` | crates/dezoomify-native/src/tile_output.rs:606-623 | Every position of an axis has weights exactly if the axis is enlarged at most twofold; the pyramid only halves. |
| `Triangles.WeightsAreTriangle` | crates/dezoomify-native/src/tile_output.rs:606-627 | In whole numbers: each weight is its position's nearness, `2s - |(2q+1)t - (2p+1)s|` and not below nought for sizes `s` and `t`, over that of all positions; every position that is near at all is listed. |
| `Triangles.HalfWeights` | crates/dezoomify-native/src/tile_output.rs:606-627 | Halved exactly, a position inside weighs its four neighbours 1/8, 3/8, 3/8 and 1/8. |
| `Triangles.ReducedIsMean` | crates/dezoomify-native/src/tile_output.rs:645-662 | In whole numbers: a reduced pixel's opacity is the mean of all opacities of the source weighed by nearness along both axes, its colours the means weighed by opacity too, rounded to the nearest, halves up; and clear if nothing near is visible. |
| `Triangles.RefusedOver` | crates/dezoomify-native/src/tile_output.rs:598-605 | Resampling is refused for memory once four bytes a pixel and, for each column and row, 24 bytes and 16 for each of two more than twice the ratio exceed the budget. |
| `Pyramids.HalvedIsDivCeil` | crates/dezoomify-native/src/tile_output.rs:1186-1191 | Halving k times with rounding up is one rounded-up division by 2^k. |
| `Pyramids.ClientCount` | crates/dezoomify-native/src/tile_output.rs:1197-1198 | A level has as many columns as an IIIF client counts at its scale factor. |
| `Pyramids.PathIsClients` | crates/dezoomify-native/src/tile_output.rs:665-689 | Each tile's region and size are those an IIIF client computes (IIIF Image API 2.1, implementation notes, tile region calculation), for every column and row. |
| `Pyramids.RegionsPartition` | crates/dezoomify-native/src/tile_output.rs:665-689 | The regions one level's paths name cover every position of the full image exactly once. |
| `Pyramids.ScaleBelowCount` | crates/dezoomify-native/src/tile_output.rs:1184-1185 | While the loop goes on the scale stays below the largest tile count, so doubling it fits 32 bits. |
| `Pyramids.HalfLevel` | crates/dezoomify-native/src/tile_output.rs:1186-1220 | Each next level is complete, its tiles are named by their paths, and for a codec that gives back every pixel inside the image its picture is the source's, resampled, blended onto a clear canvas. It fails exactly for the first cell that is cancelled, cannot be resampled or cannot be encoded, with that error. |
| `Pyramids.Build` | crates/dezoomify-native/src/tile_output.rs:1175-1224 | The loop ends; level k has factor 2^k; each follows the one before and was needed; the last is a single tile. It fails exactly at the first level too large for one cell whose half cannot be made, with that error. |
| `Pyramids.OpaquePyramid` | crates/dezoomify-native/src/tile_output.rs:1175-1224 | With a codec that gives back every pixel inside the image, every level of an opaque base is opaque and is exactly the level above it, resampled. |
| `Pyramids.OneCell` | crates/dezoomify-native/src/tile_output.rs:1225-1230 | The lowest level is one tile that covers all of it: the overview exists and is the whole level. |
| `Pyramids.SmallerExactly` | crates/dezoomify-native/src/tile_output.rs:1185-1190 | A level is halved once more exactly as long as it has more than one cell. |
| `StagedFiles.StagedFile.InsertHeader` | crates/dezoomify-native/src/output.rs:169-203 | On success the file is the bytes before the offset, the header, and the rest, despite overlapping chunked moves; on failure nothing before the offset changed; other files never do. It fails exactly for the first failing call or seen cancellation, with that error. |
| `StagedFiles.InsertedExactly` | crates/dezoomify-native/src/output.rs:169-203 | Insertion succeeds exactly if the header is empty, or no call fails and nothing is cancelled among the 64 KiB turns the payload takes. |
| `StagedFiles.InsertionReports` | crates/dezoomify-native/src/output.rs:169-203 | A cancellation is reported exactly if it is noticed before any chunk of 65,536 bytes, from the end, fails; any other failure as such. |
| `StagedFiles.MovedChunk` | crates/dezoomify-native/src/output.rs:186-199 | Moving one chunk behind the gap keeps the part in place and extends the part already moved. |
| `StagedFiles.StagedFile.Publish` | crates/dezoomify-native/src/output.rs:127-165 | One attempt succeeds exactly if the file was written and synced without error, is still there, is not cancelled, may overwrite or finds its name free, and is renamed; then the bytes move to the name asked for and no other name changes. Otherwise it says why, and no name changes. |
| `StagedFiles.OneSuccess` | crates/dezoomify-native/src/output.rs:127-165 | After an attempt succeeds no later one does, and without permission to overwrite the name was free. |
| `StagedFiles.LifeEnds` | crates/dezoomify-native/src/output.rs:84-211 | A staged file ends under the name of its one successful attempt, complete, or nowhere; no other file changes. |
| `PngChunks.ParsedSerialized` | crates/dezoomify-native/src/raster.rs:388-403 | Chunks written one after another (PNG specification, section 5.3) are read back exactly. |
| `PngChunks.ParsedConcat` | crates/dezoomify-native/src/raster.rs:388-403 | Chunks in front of any bytes are read first, then what those bytes hold. |
| `PngChunks.SerializedParsed` | crates/dezoomify-native/src/raster.rs:388-403 | Any bytes start with the serialization of the chunks read from them, and what follows is no chunk. |
| `ImageMetadata.PngMetadata` | crates/dezoomify-native/src/raster.rs:378-403 | The loop yields exactly the iCCP and eXIf chunks among the whole chunks, in order. |
| `ImageMetadata.InsertedAfterHeader` | crates/dezoomify-native/src/raster.rs:254-278 | Inserting chunks at 33 into a file that starts with signature and header chunk gives the chunk list header, inserted, rest. |
| `ImageMetadata.DummyMetadataInserted` | crates/dezoomify-native/src/raster.rs:254-278 | The metadata of a dummy image inserted at 33: header chunk, exactly its metadata chunks, then the rest (section 5.3 of the PNG specification). |
| `ImageMetadata.JpegMetadata` | crates/dezoomify-native/src/raster.rs:404-419 | The loop yields the profile segments, or stops at a profile marker whose length is too small to slice. |
| `ImageMetadata.ProfilesAreTaken` | crates/dezoomify-native/src/raster.rs:404-419 | Of well-formed segments before a scan exactly the profile segments are taken, in order. |
| `ImageMetadata.InsertedAfterApp0` | crates/dezoomify-native/src/raster.rs:264-276 | The profile goes behind an APP0 segment that directly follows the start marker, else behind the start marker. |
| `TileStructure.CheckPng` | crates/dezoomify-native/src/tile_output.rs:325-351 | The loop accepts exactly the bytes whose scan finds the closing chunk. |
| `TileStructure.PngEndIsClosing` | crates/dezoomify-native/src/tile_output.rs:325-351 | The scan accepts exactly the chunk lists whose first closing chunk is empty and follows image data, with a header chunk of thirteen bytes. |
| `TileStructure.CheckJpeg` | crates/dezoomify-native/src/tile_output.rs:352-399 | The loop accepts exactly the bytes whose marker scan finds the end marker after a scan. |
| `TileStructure.WellFormedIsAccepted` | crates/dezoomify-native/src/tile_output.rs:352-399 | A well-formed marker stream (Annex B of ITU-T T.81), with fill bytes before any marker, is accepted exactly if it has a scan, and its end is found. |
| `JpegForms.AcceptedExactly` | crates/dezoomify-native/src/tile_output.rs:352-399 | A JPEG is accepted exactly if, behind its start marker, it reads as well-formed pieces with a scan among them and the end marker, and its end is where they end. |
| `TileStructure.CheckStructure` | crates/dezoomify-native/src/tile_output.rs:322-403 | The check accepts exactly the tiles that have a terminator; other formats always. |
| `TileStructure.TruncationIsNoticed` | crates/dezoomify-native/src/tile_output.rs:321-403 | An accepted tile cut anywhere before its terminator's end is rejected, and accepted with anything added or missing behind it. |
| `JsonBraces.Popped` | crates/dezoomify/src/json_utils.rs:31-36 | A closing brace closes exactly the top of the stack. |
| `JsonBraces.IterJson.Next` | crates/dezoomify/src/json_utils.rs:27-42 | The next balanced pair to close, none passed over, from whatever point it is resumed; otherwise the whole text was read. |
| `JsonBraces.Collect` | crates/dezoomify/src/json_utils.rs:24-43 | All items are exactly the balanced pairs, each once, in the order they close. |
| `JsonBraces.PairsEncloseText` | crates/dezoomify/src/json_utils.rs:24-43 | Two braces are a pair exactly if the text between them is nested text: bytes, and braces around nested text. |
| `JsonBraces.PairsAreUnique` | crates/dezoomify/src/json_utils.rs:24-43 | The items are determined by the text alone. |
| `JsonBraces.PairsAreDisjoint` | crates/dezoomify/src/json_utils.rs:29-37 | No brace belongs to two pairs as opener or as closer. |
| `JavaScriptMask.CommentEndIsCharacter` | crates/dezoomify/src/javascript.rs:306-333 | A comment ends between characters. |
| `JavaScriptMask.QuotedEndIsCharacter` | crates/dezoomify/src/javascript.rs:220-231 | A string ends between characters, although escapes may step into the middle of one. |
| `JavaScriptMask.ElementsTile` | crates/dezoomify/src/javascript.rs:213-249 | The lexical elements follow one another without a gap, each beginning and ending between characters. |
| `JavaScriptMask.MaskElement` | crates/dezoomify/src/javascript.rs:232-246 | One turn outside strings does what the lexer says for the element there. |
| `JavaScriptMask.StringTurn` | crates/dezoomify/src/javascript.rs:220-231 | One byte of a string: an escape skips the next byte, the delimiter closes the string, anything else goes on. |
| `JavaScriptMask.Mask` | crates/dezoomify/src/javascript.rs:213-249 | Same length, well-formed UTF-8, and blanked exactly in the comments and regular expressions among the elements of the text, which `JavaScriptGrammar` tells from the forms of the language. |
| `JavaScriptMask.StringsAreKept` | crates/dezoomify/src/javascript.rs:213-231 | Every byte of a string or of ordinary source is unchanged. |
| `JavaScriptMask.EveryByteHasItsElement` | crates/dezoomify/src/javascript.rs:213-249 | Every byte belongs to exactly one lexical element. |
| `JavaScriptGrammar.ElementKinds` | crates/dezoomify/src/javascript.rs:213-249 | A string begins at a quote; else a comment at one of its four forms; else a regular expression at a slash where one may begin and one is written; else source. |
| `JavaScriptGrammar.RegexIsLiteral` | crates/dezoomify/src/javascript.rs:335-349 | After a slash there is a regular expression that ends at a slash exactly if what lies between is written of bytes, escapes and classes in brackets; classes and escapes hide slashes. |
| `JavaScriptGrammar.UnfinishedIsNone` | crates/dezoomify/src/javascript.rs:335-349 | A body that meets the end of its line or of the text, also within a class, is no regular expression. |
| `JavaScriptGrammar.StringElement` | crates/dezoomify/src/javascript.rs:220-231 | A string ends behind the first closing quote no backslash hides, or with the text. |
| `JavaScriptGrammar.CommentEnds` | crates/dezoomify/src/javascript.rs:306-333 | A block comment ends behind its first closing mark, any other at the first line feed; either with the text. |
| `JavaScriptGrammar.ArrowOnLine` | crates/dezoomify/src/javascript.rs:310-316 | An arrow begins a comment if only blanks precede it on its line, and none if anything visible does. |
| `JavaScriptGrammar.ContextAfter` | crates/dezoomify/src/javascript.rs:255-304 | Whether a slash may begin a regular expression after each element: not after strings, regular expressions and other values, after operators and seven words; blanks and comments change nothing; a parenthesis remembers whether a control word stood before it. |
| `JavaScriptGrammar.ClosedParenthesis` | crates/dezoomify/src/javascript.rs:296-301 | After the parenthesis that closes another a regular expression may begin exactly if the other one stood behind a control word, whatever lies between. |
| `Utf8.ReadsEncoded` | crates/dezoomify/src/javascript.rs:275-291 | Every encoded character is read back. |
| `Utf8.OnlyEncoded` | crates/dezoomify/src/javascript.rs:275-291 | What is read as a character is one, in its encoding. |
| `RateLimiters.Limiter.Admit` | src/proxyTransport.ts:179-193 | Admitted exactly if it is not aborted, fewer than four are in flight, and all starts but the last three are at least a second old; the new start is remembered, and what is dropped from the list has left the window. |
| `RateLimiters.Limiter.Release` | src/proxyTransport.ts:195-203 | The first call gives exactly one slot back while any is in use; repeated calls do nothing; no start is forgotten. |
| `RateLimiters.Limiter.Rollback` | src/proxyTransport.ts:220-226 | An admission taken back gives exactly its slot back while any is in use; its start still counts. |
| `RateLimiters.CountedKept` | src/proxyTransport.ts:179-226 | Every step keeps the counter equal to the outstanding slots, at most four. |
| `RateLimiters.InflightIsOutstanding` | src/proxyTransport.ts:179-226 | Over every run the counter is the outstanding slots, at most four, and the clamp at zero never changes a value. |
| `RateLimiters.NobodyIsLost` | src/proxyTransport.ts:174-260 | Whoever asked stays known to the end: no task is lost, and none asks twice. |
| `RateLimiters.WindowHoldsFour` | src/proxyTransport.ts:179-193 | With a clock that never steps back no half-open window of 1000 ms of any run holds more than four starts. |
| `RateLimiters.WaitIsExact` | src/proxyTransport.ts:186-189 | The wait returned is exactly long enough for the oldest start to leave the window. |
| `RateLimiters.BackwardClock` | src/proxyTransport.ts:174-194 | For every step back, within an attempt or from the last reading of one to the first of the next, a run from an idle gate has five starts in one window of a second. |
| `RateLimiters.ClockExactly` | src/proxyTransport.ts:174-194 | A step of the clock between two consecutive readings, of one attempt or of one and the next, keeps every run, in order but for it, within four starts a second exactly if it is not a step back. |
| `TokenBuckets.OriginBuckets.Take` | src/server/proxy.ts:86-105 | A request is admitted exactly if a whole token is there after refilling, and takes it; the bucket's clock becomes now, buckets stay in range, and no other origin's changes. |
| `TokenBuckets.TokensInRange` | src/server/proxy.ts:86-105 | Tokens stay between none and a full bucket, whatever the clock does. |
| `TokenBuckets.BurstThenRate` | src/server/proxy.ts:70-105 | With a nondecreasing clock, in every interval an origin is admitted at most 20 and five more a second. |
| `TokenBuckets.BackwardClock` | src/server/proxy.ts:92-97 | Twenty requests at one instant, one four seconds earlier, twenty more at the first instant: forty are admitted at that instant. |
| `TokenBuckets.ClockExactly` | src/server/proxy.ts:92-97 | The bound survives a step of the clock between two requests, in every run with that step, exactly if it is not a step back. |
| `Relays.Relay.FetchWithRetry` | src/server/proxy.ts:312-336 | A hop is fetched once, and once more only after a 429 answer. |
| `Relays.Relay.RelayResource` | src/server/proxy.ts:198-218 | Every fetched address is allowed and follows from the answer before it, the loop ends, and the outcome is what the last answer says; it is interrupted exactly if an abort was seen at one of its checks, of which there is one before each hop and retry. |
| `Relays.Relay.Handle` | src/server/proxy.ts:229-298 | Policy first, then one token unless buckets are switched off, then the network: a refused request fetches nothing and only policy or the bucket refuses; at most two calls for each hop allowed; an interruption was seen at a check. |
| `Relays.CallsAreBounded` | src/server/proxy.ts:198-218 | No run makes more than two calls for each of maxRedirects + 1 hops. |
| `RetryApprovals.Gate.Enter` | crates/dezoomify-native/src/host.rs:420-440 | A question opens exactly if approval is needed for an attempt beyond those approved and none is open; what needs no approval, or has it, passes exactly if nothing is cancelled, paused or asked; nothing else changes. |
| `RetryApprovals.Gate.Answer` | crates/dezoomify-native/src/host.rs:441-452 | Any answer closes the question; the attempt goes on exactly if the answer is to retry and nothing was cancelled before, and then it is approved; a Cancel answer cancels. |
| `RetryApprovals.Gate.Wake` | crates/dezoomify-native/src/host.rs:428-431 | A task waiting for another's question stops exactly if all is cancelled, and passes exactly if the gate is open and its attempt is approved by then; else it waits on, or asks once no question is open. |
| `RetryApprovals.RunInv` | crates/dezoomify-native/src/host.rs:420-453 | Every interleaving keeps: the question is open exactly while one task asks it, and only approved attempts are past the approval. |
| `RetryApprovals.AtMostOneQuestion` | crates/dezoomify-native/src/host.rs:420-453 | At most one question is open, and while one is no attempt passes the gate. |
| `RetryApprovals.ApprovalsIncrease` | crates/dezoomify-native/src/host.rs:445-446 | Approved attempts strictly increase: none is approved twice. |
| `RetryApprovals.OnlyApprovedProceed` | crates/dezoomify-native/src/host.rs:1191-1196 | An attempt that needs approval goes on only if it, or a later one, was approved. |
| `RetryApprovals.NothingPassesAfterCancel` | crates/dezoomify-native/src/host.rs:236-252 | From a cancellation on no run lets another attempt pass the gate. |
| `RetryApprovals.NothingPassesWhilePaused` | crates/dezoomify-native/src/host.rs:236-252 | From a pause until it is lifted nobody passes. |
| `RetryApprovals.PassesAfterResume` | crates/dezoomify-native/src/host.rs:236-252 | Once it is lifted a task at the gate passes, unless a question is open or all was cancelled. |
| `RetryApprovals.CancelAnswerIsFinal` | crates/dezoomify-native/src/host.rs:447-450 | After a Cancel answer anywhere in a run nobody passes who had not passed before it. |
| `TileAcquisition.Acquire` | crates/dezoomify/src/acquisition.rs:26-73 | The tile is called for exactly as often as the answers lead on from one attempt to the next: each fails, but not for good, while retries are left or the user may be asked, and the scheduler, the gate and the pause go well; the result is told by the answers to the last attempt, with the number of calls. |
| `TileAcquisition.UntilSuccess` | crates/dezoomify/src/acquisition.rs:26-74 | If only calls fail and every failure can be retried: without interactive retries the tile is called until the first success or once more than there are retries, with them until it succeeds, below the largest 32-bit number; it is acquired exactly if one of these calls succeeds. |
| `TileAcquisition.RunsTheLoop` | crates/dezoomify/src/acquisition.rs:7-74 | In every interleaving of the pool each tile's task is where the loop is after the answers it was given. |
| `TileAcquisition.ApprovalIsAsked` | crates/dezoomify/src/acquisition.rs:40-44 | A call asks for approval exactly if its attempt is beyond the retries. |
| `TileAcquisition.TakesUpExactly` | crates/dezoomify/src/acquisition.rs:13-24 | A tile is taken up exactly while one is left and fewer are under way than allowed. |
| `TileAcquisition.NeverStuck` | crates/dezoomify/src/acquisition.rs:13-24 | Until it has failed or every tile was yielded, something can happen in the pool. |
| `TileAcquisition.AttemptsAreNumbered` | crates/dezoomify/src/acquisition.rs:7-24 | Over every interleaving at most maxConcurrent tiles are under way, and each tile's attempts are numbered without a gap and bounded. |
| `TileAcquisition.FailureCountsAttempts` | crates/dezoomify/src/acquisition.rs:55-61 | A tile reported as failed reports the attempts made for it, saturated at 32 bits. |
| `TileAcquisition.DrainedIsComplete` | crates/dezoomify/src/acquisition.rs:17-22 | When the stream ends without error every tile of the list was acquired and counted once. |
| `JobRuns.CallsKeepProtocol` | crates/dezoomify/src/run.rs:268-335 | Acquiring a list of distinct tiles keeps the protocol under every interleaving: a tile is called for until acquired and never again. |
| `JobRuns.FreshAndReused` | crates/dezoomify/src/run.rs:293-314 | The filter splits the plan: each tile is left to acquire or reused, never both. |
| `JobRuns.Job.FetchMetadata` | crates/dezoomify/src/run.rs:390-440 | One poll of a metadata read: its own check, then its call, then its answer; a followed address that redirects makes where it led followed, and nothing else does; an empty or oversized body fails the read. |
| `JobProtocol.ProtocolPairs` | crates/dezoomify/src/run.rs:390-404 | In every trace that keeps the protocol each read has a check of its own, earlier and shared with no other read; observations, probes and image choices have the one directly before. |
| `JobRuns.Job.Discover` | crates/dezoomify/src/core/discovery/search.rs:615-705 | Discovery makes exactly the calls its schedule of reads gives, overlapping up to the limit, with observations only between them, and ends in the catalog and its warnings or in the error that stopped it: of an observation, or at once of a read that was cancelled or too large, while other failed reads leave it going on. No read goes out on another's check. |
| `JobRuns.DiscussionStops` | crates/dezoomify/src/core/discovery/search.rs:275-290 | Whatever the schedule, what ends discovery early is the failure of its very last call, or a body over the limit in its very last answer. |
| `JobRuns.WhatEndsDiscovery` | crates/dezoomify/src/core/discovery/search.rs:615-705 | An error of discovery is that of its last call, or of a body over the limit answered last, or says that no catalog was found. |
| `JobRuns.Job.Start` | crates/dezoomify/src/run.rs:67-91 | Nothing reaches the host before validation succeeds; the source inputs count as followed. |
| `JobRuns.Job.Follow` | crates/dezoomify/src/run.rs:95-108 | A resource is followed only if it was not before and follows are left, which is exactly when the limit on follows is not reported; each follow uses one up, and any other error is what ended its discovery. |
| `JobRuns.Job.Resolve` | crates/dezoomify/src/run.rs:483-503 | Resolving a source makes nothing but checks and probes, each probe directly after a check, and at most max_tiles of them. |
| `JobRuns.Job.PreparePlan` | crates/dezoomify/src/run.rs:168-228 | The output is begun once, for the chosen level's own tiles or the probed ones, and for lower levels exactly as the output format and the base's tiles allow; the plan is neither empty nor over the tile limit; an error is that of its last call, of probing, or of the plan it made. |
| `JobLevels.ReusableLevels` | crates/dezoomify/src/run.rs:230-266 | The loop ends, and finds the first matching level at each halving of the base down to one tile, in order. |
| `JobLevels.LevelsAsPromised` | crates/dezoomify/src/run.rs:230-266 | Lower levels are taken over exactly from an output in ZIF whose base has square tiles without overlap and sides that are multiples of 16; then, for each halving of the base while it is larger than a tile, the first level of the next size, largest first. |
| `JobRuns.Job.AcquirePlan` | crates/dezoomify/src/run.rs:268-335 | The calls made, and whether it drains, stops or fails and how, are exactly what the schedules at the places of its lists give, one list after the other; on success every index below the total was acquired or reused exactly once, the reused being the tiles planned at earlier corners. |
| `JobRuns.ReusedAreMatching` | crates/dezoomify/src/run.rs:293-314 | The filter reuses exactly as many tiles as are planned at corners output before. |
| `JobRuns.AllMatch` | crates/dezoomify/src/run.rs:289-314 | For distinct earlier corners planned at most once, as many tiles match as there are corners exactly if every corner is planned. |
| `JobRuns.ProgressEnds` | crates/dezoomify/src/run.rs:289-314 | Progress ends at the total exactly if as many planned tiles match earlier corners as there are corners: always if nothing was output before, and for distinct corners planned at most once exactly if each is planned. |
| `JobRuns.Job.Download` | crates/dezoomify/src/run.rs:113-156 | The output is finished only after every tile of the plan made from the chosen level; progress is the total, plus the earlier corners, less the tiles planned at them; an error is that of the last call, of the plan, or of the list the calls end in, and an unfinished run ends in a list whose own schedule stopped. |
| `JobRuns.Job.Run` | crates/dezoomify/src/run.rs:33-53 | The selection loop ends, follows no resource twice and at most max_deferred_follows of them, and keeps the protocol; every error and every unfinished run has its cause in the calls made, at the place the calls end. |
| `JobRuns.Job.Dezoomify` | crates/dezoomify/src/run.rs:23-31 | Every run's calls keep the protocol (each read has its own check for cancellation, probes and image choices directly follow one; tiles only after the output is begun; output finished once, after every tile and the gate), and every result comes after exactly one settlement, the last call; an invalid job only settles; an error is told by where the calls before the settlement end: in a failed call, an oversized answer, a choice or plan that is refused, or a tile's failure; an unfinished run ends in the list whose schedule stopped. |
| `JobLaws.BegunExactly` | crates/dezoomify/src/run.rs:514-585 | A job is begun exactly if it has a source, well-formed inputs, settings in range, and supplied contents that are neither empty nor too large; trouble with the inputs is reported first. |
| `JobLaws.WhatAStepDoes` | crates/dezoomify/src/core/discovery/search.rs:640-690 | A read is taken up exactly if fewer are under way than the limit, at least one; observations are asked for exactly if none is. |
| `JobLaws.OnlyTerminalFailuresEnd` | crates/dezoomify/src/core/discovery/search.rs:275-290 | Discovery goes on exactly as long as no read failed for good or was too large; what ends it is such a read, or an observation that failed while none was under way. |
| `JobLaws.PlanAllowed` | crates/dezoomify/src/acquisition.rs:26-74 | Without interactive retries no call of a plan's acquisition has an attempt beyond the retries. |
| `FinalMetadata.Choose` | crates/dezoomify-native/src/pixel_pipe.rs:356-372 | Sorting the tiles with metadata by plan index of their position, or else by number, and scanning them gives the profile and the EXIF block of the soonest tile that has one. |
| `FinalMetadata.OrderIsNotStored` | crates/dezoomify-native/src/pixel_pipe.rs:237-249 | Tiles with numbers of their own leave the same metadata in whatever order they are placed. |
| `FinalMetadata.RankIsTurn` | crates/dezoomify-native/src/host.rs:698-704 | Probes are stored behind all plan indices and clash with none; what finishing sorts by is then each tile's place in the plan, however it was fetched. |
| `FinalMetadata.FirstTurnDecides` | crates/dezoomify-native/src/pixel_pipe.rs:356-372 | Among tiles of a plan and probes, also ones the plan has no place for, the first in turn that has a profile or EXIF block decides. |
| `FinalMetadata.FirstInPlanOrder` | crates/dezoomify-native/src/pixel_pipe.rs:356-372 | Once every tile of a plan is placed, the final profile and EXIF block are exactly those of the first tile in plan order that has one, whichever tiles were fetched while probing and however placing went. |
| `ZifMetadata.ZifWriter.AcceptMetadata` | crates/dezoomify-native/src/zif_output.rs:163-187 | The map becomes the specified one, and the peak covers what is retained. |
| `ZifMetadata.PrunedAgrees` | crates/dezoomify-native/src/zif_output.rs:163-187 | Pruning keeps the lowest-index profile and EXIF block. |
| `ZifMetadata.SameChoice` | crates/dezoomify-native/src/zif_output.rs:163-187 | For every order of arrival of distinct indices, as a plan's tiles in distinct cells have, the encoder chooses what it would have chosen had everything been kept. |
| `ZifMetadata.OneKept` | crates/dezoomify-native/src/zif_output.rs:163-187 | At most one profile and at most one EXIF block are kept. |
| `ZifMetadata.RetainsOnePair` | crates/dezoomify-native/src/zif_output.rs:151-161 | What is retained on a regular grid is the bytes of the one chosen profile and EXIF block. |
| `ZifMetadata.LateRepeatLosesProfile` | crates/dezoomify-native/src/zif_output.rs:163-187 | If an index recurs after a larger one, some metadata, present with every arrival, makes the choice lose a profile. |
| `ZifMetadata.AgreesExactly` | crates/dezoomify-native/src/zif_output.rs:163-187 | For all metadata and after every arrival the choice is the one with everything kept, exactly if no index recurs after a larger one has arrived. |
| `DiagnosticLogs.Diagnostics.Push` | crates/dezoomify-native/src/diagnostics.rs:209-223 | The eviction loop and the push after it are the specified storing. |
| `DiagnosticLogs.Diagnostics.Log` | crates/dezoomify-native/src/diagnostics.rs:164-231 | One record: numbered, grouped if a failure, stored last unless it is a trace or a failure that has its group, and announced unless it is such a failure. |
| `DiagnosticLogs.LogIsBoundedTail` | crates/dezoomify-native/src/diagnostics.rs:209-223 | After any history the log is exactly the end of what was stored, its bytes the sum of its records, at most 1000 records and 256 KiB unless one record is larger. |
| `DiagnosticLogs.LeavesAsNeeded` | crates/dezoomify-native/src/diagnostics.rs:209-223 | Records leave only as needed: beside each that left, and those after it, the new one had no room. |
| `DiagnosticLogs.SequencesIncrease` | crates/dezoomify-native/src/diagnostics.rs:167-169 | Numbers strictly increase along the log until the largest 32-bit number. |
| `DiagnosticLogs.GroupsSummarize` | crates/dezoomify-native/src/diagnostics.rs:177-207 | At most sixteen groups, each with its failure's count, first and last occurrence; a failure lacks one only if the table is full. |
| `DiagnosticLogs.Shrink` | crates/dezoomify-native/src/diagnostics.rs:322-343 | The report is shrunk records first, then groups but one, then facts, each only while too large; what was left out is counted. |

## Left out

- `PixelPipes.PixelPipe.Receive`: a call that would have to wait is not modelled as a step; the condition variable's wakeups are liveness.
- `PixelPipes.PixelPipe.Finish`: the object keeps the size of a tile's profile and EXIF block, which are chosen in `FinalMetadata` from a map of their contents; that the map is filled under the pipe's lock is not repeated there.
- `FinalMetadata.FirstInPlanOrder`: plans where two tiles share a position output while probing are left out, as only grids are probed; `FinalMetadata.Choose` covers them.
- `PixelPipes.PixelPipe.Fail`: the two locks it takes one after the other are one call here; the machine has them as two steps.
- `PixelCalls.PlaceLeads`: in the run, bytes a hand-over frees are not given back during the call, so a refusal is judged with them still in use.
- `Coverage.Cover`: 64-bit words are sequences of 64 booleans, so shifts and masks are stated by position.
- `PixelStrip.PendingStrip.PaintTile`: a pixel is one element instead of four bytes.
- `PixelMachine`: reservations of decoders, of the workspace and of dropped strips are one sum of outside bytes; its cap is below the largest 64-bit number.
- `JpegViews.JpegView.Advance`: failing the pipe when a read fails is left out; only the view's own state is modelled.
- `TileLevels.Region`: decoding is a function of the stored tile, and the charge for a tile's decoder is its encoded length and pixels.
- `Downsampling.Downsample`: floating-point rounding of weights and sums is left out; an axis is reduced, kept, or enlarged at most twofold, which is where weights exist (`WeightsExistExactly`).
- `Pyramids.Build`: writing and aliasing the files, tiles that share one public path across levels, and the conversion of the base level before the loop are left out; the base is taken to be complete and within the largest tile count.
- `StagedFiles.StagedFile.InsertHeader`: a failing write is modelled as some prefix written; data the system has not flushed is not.
- `StagedFiles.StagedFile.Publish`: other processes that touch the directory between the calls are left out.
- `ImageMetadata.PngMetadata`: the encoder that writes the dummy image is left out; its output is any bytes.
- `TileStructure.WellFormedIsAccepted`: restart markers behind a scan count as its data, as in the scan itself; what the data and the segments mean is not looked into.
- `JsonBraces.Collect`: decoding each slice as UTF-8 and as JSON is left out.
- `JavaScriptMask.Mask`: the Unicode classes beyond ASCII are parameters; `body_at`, `expression_end` and the regular-expression patterns are left out.
- `RateLimiters.WindowHoldsFour`: `reset` and the wakeups of waiters are left out.
- `Relays.Relay.Handle`: the method, protocol version and byte-range checks before the policy, response bodies and headers are left out.
- `RetryApprovals.RunInv`: an approval future that is dropped while its question is open is left out; a pipe failure is one of the failed answers.
- `TileAcquisition.DrainedIsComplete`: progress reports between yields are counted but not listed; pacing is any sequence of delays and verdicts.
- `JobRuns.Job.Dezoomify`: which resources discovery reads, and what catalog it makes of the answers, is any schedule and any catalog; parsing HTML (and its failures), the format option and the resource limit of discovery are left out; grids and positioned sources number their tiles in order, as the plan module (not part of this model) promises.
- `JobRuns.Job.Start`: the syntax of addresses is one verdict for each input.
- `ZifMetadata.ZifWriter.AcceptMetadata`: storing tiles, index growth and the budget checks around it are left out.
- `DiagnosticLogs.Diagnostics.Log`: a record's fields are its grouping key and its serialized length; context, counters and the outcome are left out, and `omitted_records` is unbounded.
- The core discovery and grid modules, the pacing controller, image choice, codecs, user interfaces, the browser extension, the legacy site and the address policy are not part of this model.
