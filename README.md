# HyperFind result list: a Dafny model

This project models the core of HyperFind's `ThumbnailBox`, the panel that shows the
results of a running OpenDiamond search:

- **the patch overlay decoder** (`drawPatches`): a little-endian payload holding an
  `int` count, a `double` distance and `count` records of four `int`s, each record
  stroked as `new Rectangle(x0, y0, x1 - x0, y1 - y0)` as soon as it is read;
- **the statistics decision** of the periodic task (`startStatsTimer`): forward the
  per-server snapshot if some server reports a non-zero total, otherwise show
  "Waiting for First Results"; a fetch that throws changes nothing;
- **the result-stream worker** that `start` launches (`doInBackground` / `process`):
  fetch results until `null`, substitute a 200x150 placeholder for a missing or
  undecodable thumbnail, draw the patch attributes, append one `ResultIcon` per result
  to the list model in fetch order, and call `stop()` on every exit path;
- **`start` and `stop`**: the search handle, the timer future, the two buttons, the
  statistics bar and the list model.

Modules, one per component: `Binary` (Java `int`, little-endian byte order,
wrap-around), `Graphics` (rectangles, images, the `Graphics2D` canvas), `Patches`
(the decoder as a specification function, the writer that inverts it, the
`ByteBuffer` cursor and the imperative `DrawPatches`), `Statistics` (`HasStats` and
the effect of ticks on the statistics bar), `Viewer` (the search session, the
`ThumbnailBox` class, the worker and its specification `Ingest`). `Wrappers` holds
`Option`.

Threads are abstracted away: the worker runs to completion inside one call
(`RunWorker`), and one run of the statistics task is one call (`Tick`). The image
codec (`ImageIO.read`) is a parameter of type `seq<byte> -> Option<Image>`; the search
session is a finite list of results followed by either `null` or an exception.

Where the code's behaviour differs from what one might expect of it, the model follows
the code:

- an exception from `getNextResult()` is not caught inside the loop, so it ends the
  worker (after `stop()`), rather than skipping one result;
- a `SearchClosedException` in a statistics tick only returns from `run()`; the task
  stays scheduled until `stop()` cancels it;
- `stop()` has no once-only guard: every call closes the search again, which
  `StopAfterWorker` shows (the worker's own `stop()` and a later external one close it
  twice);
- a patch payload that underflows throws out of the whole worker loop, and the
  rectangles it stroked before the underflow stay on a thumbnail that is never
  published;
- `ResultIcon` is built from the image and the object identifier only (ThumbnailBox.java:228-229).

## Model

| member | source | states |
|---|---|---|
| `Binary.FromLEToLE` | src/edu/cmu/cs/diamond/hyperfind/ThumbnailBox.java:249-250 | reading back `n` little-endian bytes written from a value below 256^n gives that value |
| `Binary.ToLEFromLE` | src/edu/cmu/cs/diamond/hyperfind/ThumbnailBox.java:249-250 | writing back the value of little-endian bytes reproduces the bytes |
| `Binary.Wrap32` | src/edu/cmu/cs/diamond/hyperfind/ThumbnailBox.java:261 | Java `int` arithmetic: the result is congruent to the exact value modulo 2^32 and equals it when it is in range |
| `Binary.FromInt32` | src/edu/cmu/cs/diamond/hyperfind/ThumbnailBox.java:252 | the unsigned 32 bits of an `int` reinterpret as that `int` |
| `Binary.Int32At` | src/edu/cmu/cs/diamond/hyperfind/ThumbnailBox.java:252 | the `int` that little-endian `getInt` reads at an offset; no contract of its own, its properties are carried by `Binary.Int32AtEncoded` and `Binary.EncodedInt32At` |
| `Binary.Bits64At` | src/edu/cmu/cs/diamond/hyperfind/ThumbnailBox.java:253 | the 64 bits that little-endian `getDouble` reinterprets at an offset; no contract of its own, its properties are carried by `Binary.Bits64AtEncoded` and `Binary.EncodedBits64At` |
| `Binary.Int32AtEncoded` | src/edu/cmu/cs/diamond/hyperfind/ThumbnailBox.java:252 | `getInt` at an offset holding the little-endian encoding of `x` returns `x` |
| `Binary.EncodedInt32At` | src/edu/cmu/cs/diamond/hyperfind/ThumbnailBox.java:252 | encoding the `int` read at an offset reproduces the four bytes there |
| `Binary.Bits64AtEncoded` | src/edu/cmu/cs/diamond/hyperfind/ThumbnailBox.java:253 | `getDouble` at an offset holding the little-endian encoding of 64 bits returns those bits |
| `Binary.EncodedBits64At` | src/edu/cmu/cs/diamond/hyperfind/ThumbnailBox.java:253 | encoding the 64 bits read at an offset reproduces the eight bytes there |
| `Patches.ToRect` | src/edu/cmu/cs/diamond/hyperfind/ThumbnailBox.java:261 | the rectangle keeps corner (x0, y0); corner plus extent wraps back to (x1, y1); when no overflow occurs the extent is exactly x1 - x0, negative extents kept |
| `Patches.WholeRecords` | src/edu/cmu/cs/diamond/hyperfind/ThumbnailBox.java:255-260 | the records read whole number at most `count`, fit in the payload, and fall short of `count` only when the next record would run past the end |
| `Patches.ScanRecordsClosedForm` | src/edu/cmu/cs/diamond/hyperfind/ThumbnailBox.java:255-260 | reading `k` records from `pos` yields the records at `pos + 16i`, as many whole ones as fit, and completes iff all `k` fit |
| `Patches.DecodePatches` | src/edu/cmu/cs/diamond/hyperfind/ThumbnailBox.java:248-265 | the specification of `drawPatches` as a decoder: the patch set, or buffer underflow; no contract of its own, its properties are carried by `Patches.DecodeSucceedsIff`, `Patches.DecodeLayout`, `Patches.DecodeIgnoresTrailing`, `Patches.DecodeEncode` and `Patches.EncodeDecode` |
| `Patches.DrawnQuads` | src/edu/cmu/cs/diamond/hyperfind/ThumbnailBox.java:255-264 | when decoding succeeds the records stroked are exactly the decoded records |
| `Patches.DecodeSucceedsIff` | src/edu/cmu/cs/diamond/hyperfind/ThumbnailBox.java:249-264 | decoding finishes normally iff the payload holds at least 12 + 16 * max(count, 0) bytes; otherwise buffer underflow |
| `Patches.DecodeLayout` | src/edu/cmu/cs/diamond/hyperfind/ThumbnailBox.java:249-259 | count is the int at offset 0, distance the 64 bits at offset 4, and record i is the ints at 12+16i, 16+16i, 20+16i, 24+16i; max(count, 0) records |
| `Patches.NonPositiveCountDrawsNothing` | src/edu/cmu/cs/diamond/hyperfind/ThumbnailBox.java:252-255 | with count <= 0 only the 12-byte header is read and no rectangle is drawn |
| `Patches.UnderflowDrawsWholeRecords` | src/edu/cmu/cs/diamond/hyperfind/ThumbnailBox.java:255-264 | on underflow the rectangles already drawn are the (length - 12) / 16 whole records, each from its offset |
| `Patches.DecodeIgnoresTrailing` | src/edu/cmu/cs/diamond/hyperfind/ThumbnailBox.java:249-264 | bytes after the required length never change the outcome |
| `Patches.DecodeEncode` | src/edu/cmu/cs/diamond/hyperfind/ThumbnailBox.java:249-259 | decoding what the little-endian writer wrote (followed by anything) gives back count, distance and every record |
| `Patches.EncodeDecode` | src/edu/cmu/cs/diamond/hyperfind/ThumbnailBox.java:249-259 | writing back a decoded payload reproduces exactly the prefix decoding read |
| `Patches.TwoRecordExample` | src/edu/cmu/cs/diamond/hyperfind/ThumbnailBox.java:252-259 | the payload with count 2, distance 3.5 and records (0,0,10,10) and (5,5,15,20) decodes back to exactly that |
| `Patches.TwoRecordOutlines` | src/edu/cmu/cs/diamond/hyperfind/ThumbnailBox.java:261 | records (0,0,10,10) and (5,5,15,20) are stroked as rectangles (0,0,10,10) and (5,5,10,15) |
| `Patches.ByteBuffer.Wrap` | src/edu/cmu/cs/diamond/hyperfind/ThumbnailBox.java:249-250 | the cursor starts at position 0 over the payload |
| `Patches.ByteBuffer.GetInt` | src/edu/cmu/cs/diamond/hyperfind/ThumbnailBox.java:252 | returns the little-endian int at the position and advances by 4, or underflows leaving the position alone |
| `Patches.ByteBuffer.GetDouble` | src/edu/cmu/cs/diamond/hyperfind/ThumbnailBox.java:253 | returns the little-endian 64 bits at the position and advances by 8, or underflows |
| `Patches.ReadRecord` | src/edu/cmu/cs/diamond/hyperfind/ThumbnailBox.java:256-259 | the four `getInt` calls read the record at the position and advance by 16, or underflow |
| `Patches.DrawRecords` | src/edu/cmu/cs/diamond/hyperfind/ThumbnailBox.java:255-264 | the loop strokes, in order, the rectangles of the whole records that fit, and finishes normally iff all max(count, 0) records fit |
| `Patches.DrawPatches` | src/edu/cmu/cs/diamond/hyperfind/ThumbnailBox.java:248-265 | finishes normally iff the payload decodes; strokes, in payload order, the rectangles of every record read before finishing or underflowing, and nothing else |
| `Graphics.Canvas.constructor` | src/edu/cmu/cs/diamond/hyperfind/ThumbnailBox.java:207 | the canvas draws on the given thumbnail |
| `Graphics.Canvas.Draw` | src/edu/cmu/cs/diamond/hyperfind/ThumbnailBox.java:263 | stroking a rectangle appends it to the image's outlines and changes nothing else |
| `Statistics.HasStats` | src/edu/cmu/cs/diamond/hyperfind/ThumbnailBox.java:116-122 | the flag is set iff some server reports a total that is not 0 |
| `Statistics.TickUpdate` | src/edu/cmu/cs/diamond/hyperfind/ThumbnailBox.java:116-145 | what one tick does to the statistics bar given the outcome of `getStatistics()`; no contract of its own, its properties are carried by `Statistics.EmptySnapshotWaits`, `Statistics.FailedTicksKeepView`, `Statistics.LastSnapshotDecides` and `Statistics.CountsPersist` |
| `Statistics.EmptySnapshotWaits` | src/edu/cmu/cs/diamond/hyperfind/ThumbnailBox.java:116-137 | an empty snapshot makes the bar show "Waiting for First Results" |
| `Statistics.FailedTicksKeepView` | src/edu/cmu/cs/diamond/hyperfind/ThumbnailBox.java:139-145 | ticks whose fetch throws (search closed, I/O error, interrupted) leave the bar unchanged |
| `Statistics.LastSnapshotDecides` | src/edu/cmu/cs/diamond/hyperfind/ThumbnailBox.java:113-138 | after a run of ticks the bar shows the last fetched snapshot iff some server in it has a non-zero total, and the waiting message otherwise |
| `Statistics.CountsPersist` | src/edu/cmu/cs/diamond/hyperfind/ThumbnailBox.java:116-129 | once a snapshot has a non-zero total, a later one whose totals only grew is forwarded too |
| `Viewer.Thumbnail` | src/edu/cmu/cs/diamond/hyperfind/ThumbnailBox.java:190-204 | the decoded thumbnail, or the blank 200x150 placeholder; no contract of its own, its properties are carried by `Viewer.PlaceholderForMissingThumbnail` |
| `Viewer.DrawAttributes` | src/edu/cmu/cs/diamond/hyperfind/ThumbnailBox.java:214-225 | the patch attributes drawn in order, absent ones skipped, an underflow ending the drawing; no contract of its own, its properties are carried by `Viewer.DrawAttributesKeepsImage`, `Viewer.AbsentAttributesSkipped` and `Viewer.PatchFailureIsFatal` |
| `Viewer.RenderedIcon` | src/edu/cmu/cs/diamond/hyperfind/ThumbnailBox.java:190-229 | the item published for one result, or none when its patches fail; no contract of its own, its properties are carried by `Viewer.PlaceholderForMissingThumbnail` and `Viewer.PatchFailureIsFatal`, and `Viewer.RenderResult` is proved equal to it |
| `Viewer.FetchFrom` | src/edu/cmu/cs/diamond/hyperfind/ThumbnailBox.java:184-187 | `getNextResult()` on a stream gives its first result iff it has one, and `null` only when it is exhausted and ends with `null` |
| `Viewer.Advance` | src/edu/cmu/cs/diamond/hyperfind/ThumbnailBox.java:184 | a fetch consumes exactly the first pending result and leaves an exhausted stream as it is |
| `Viewer.Ingest` | src/edu/cmu/cs/diamond/hyperfind/ThumbnailBox.java:183-232 | the specification of the worker's `while (true)` loop; no contract of its own, its properties are carried by `Viewer.IngestPublishesInOrder` and `Viewer.EveryResultPublished`, and `Viewer.ThumbnailBox.RunWorker` is proved to append exactly its items |
| `Viewer.IngestPublishesInOrder` | src/edu/cmu/cs/diamond/hyperfind/ThumbnailBox.java:183-244 | the worker publishes the rendered items of a prefix of the results, in fetch order, stopping exactly at the first result whose patches fail (which ends the loop); otherwise the loop ends at the stream's `null` or exception |
| `Viewer.EveryResultPublished` | src/edu/cmu/cs/diamond/hyperfind/ThumbnailBox.java:183-244 | when every result renders, exactly one item per result is published and the loop ends as the stream does |
| `Viewer.DrawAttributesKeepsImage` | src/edu/cmu/cs/diamond/hyperfind/ThumbnailBox.java:206-226 | drawing patches keeps the thumbnail's size and pixels and only adds outlines |
| `Viewer.PlaceholderForMissingThumbnail` | src/edu/cmu/cs/diamond/hyperfind/ThumbnailBox.java:190-204 | a result without a thumbnail, or with one the codec rejects, is published on a blank 200x150 image with its own identifier |
| `Viewer.AbsentAttributesSkipped` | src/edu/cmu/cs/diamond/hyperfind/ThumbnailBox.java:215-221 | patch attributes the result lacks draw nothing |
| `Viewer.PatchFailureIsFatal` | src/edu/cmu/cs/diamond/hyperfind/ThumbnailBox.java:214-225 | drawing a result's patches fails iff some present patch attribute underflows |
| `Viewer.RenderResult` | src/edu/cmu/cs/diamond/hyperfind/ThumbnailBox.java:190-229 | the item for one result is the thumbnail or placeholder with every present patch attribute drawn in order, or none when a payload underflows |
| `Viewer.Search.GetNextResult` | src/edu/cmu/cs/diamond/hyperfind/ThumbnailBox.java:184 | yields the next pending result, or `null` / an exception once the results are exhausted or the search is closed |
| `Viewer.Search.GetStatistics` | src/edu/cmu/cs/diamond/hyperfind/ThumbnailBox.java:113-114 | a closed search throws `SearchClosedException`; an open one returns the servers' answer |
| `Viewer.Search.Close` | src/edu/cmu/cs/diamond/hyperfind/ThumbnailBox.java:151 | each call closes the search once more |
| `Viewer.ThumbnailBox.constructor` | src/edu/cmu/cs/diamond/hyperfind/ThumbnailBox.java:84-91 | no search and no timer yet; the buttons as given |
| `Viewer.ThumbnailBox.Start` | src/edu/cmu/cs/diamond/hyperfind/ThumbnailBox.java:164-177 | records the search, disables start and enables stop, shows "Initializing Search", schedules a fresh timer and installs an empty list model |
| `Viewer.ThumbnailBox.Stop` | src/edu/cmu/cs/diamond/hyperfind/ThumbnailBox.java:150-162 | closes the search once more, cancels the timer only if one exists, enables start and disables stop; with no search nothing changes |
| `Viewer.ThumbnailBox.RunWorker` | src/edu/cmu/cs/diamond/hyperfind/ThumbnailBox.java:179-245 | appends exactly the items `Ingest` gives to the list model, and on every exit path runs `stop()` |
| `Viewer.ThumbnailBox.Tick` | src/edu/cmu/cs/diamond/hyperfind/ThumbnailBox.java:109-147 | while the timer is live, forwards the snapshot iff some server has a non-zero total, shows the waiting message otherwise, and does nothing when the fetch throws; after cancellation nothing happens |

## Left out

- Threads and timing: the `SwingWorker`, `SwingUtilities.invokeLater`, the single-thread scheduled executor with its 0 ms initial delay and 500 ms fixed delay, and `cancel(true)` interrupting a tick in flight. The model gives the sequential outcome of one worker run and of one tick; button and list updates that the code defers to the event thread happen at once.
- `Graphics2D.scale` by the ratio of thumbnail size to the original size read through `Util.extractInt` of `_cols.int` and `_rows.int`: this is floating-point rendering, and `Util` is not part of this model. Outlines are recorded in original-image coordinates; a failure of `Util.extractInt` is not modelled.
- The outline colour (`Color.GREEN`) and `g.dispose()`: an outline is recorded without its colour.
- `ImageIO.read` is a parameter; runtime exceptions it might throw are not modelled, only its `null` result and `IOException`.
- `System.out.println` and `printStackTrace` output.
- The Swing layout in the constructor and the `factory` field that `start` stores but this class never uses.
- The OpenDiamond `Search` is not part of this model: it is represented by a finite list of results followed by `null` or an exception, a close counter, and statistics supplied per tick. A `close()` unblocking a fetch in flight on another thread, and an `InterruptedException` from `close()`, are not modelled.
- `Statistics.HasStats`: `ServerStatistics` is reduced to the total object count the decision reads.
- `Viewer.ThumbnailBox.Start`: does not itself run the worker that `execute()` launches; the worker is `Viewer.ThumbnailBox.RunWorker`, called separately.
- `ResultExportTransferHandler.java` (drag-and-drop export): it delegates its work to `Util`, which is not part of this model.
- `ResultIcon.hasRGBImage()`, which only the export handler reads: the class `ResultIcon` is not part of this model, and `Graphics.Image` records no image type (the placeholder's `TYPE_INT_RGB`, or the codec's type).
