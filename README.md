# set-wallpaper, modelled in Dafny

set-wallpaper sets, and fades, the desktop background of an X11 session. It talks to the X server directly:

- it reads and writes the two root-window properties that record the background pixmap, `_XROOTPMAP_ID` and `ESETROOT_PMAP_ID`;
- it creates, copies and fills pixmaps;
- it uploads images in chunks;
- it repaints one pixmap frame by frame to fade a new image in.

This project models the program's own logic on top of an abstract X server, and proves what that logic promises.

- `Wrappers`: `Option`, `Result`, the program's error cases, and a pass/fail `Outcome`.
- `Bytes`: the byte order of the host and of the wire.
  - `struct.pack`/`struct.unpack` of a 32-bit value (`'I'`, `'H'`, `'BB'`).
  - The big-endian probe.
  - The `RGBX`/`BGRX` raw modes used to pack pixels.
- `XServer`: the server as a value `Store`.
  - The store holds the root's id and depth, the atoms, the root properties, the root background attribute, the live pixmaps with their geometry, the live graphics contexts, and the retain-on-close flag.
  - `Step` gives the effect of one request on the store.
  - The `Connection` class holds the store, the log of requests sent, and the resource-id counter.
- `Background`: the background record.
  - Reading a record property, with the fallback from `_XROOTPMAP_ID` to `ESETROOT_PMAP_ID`.
  - `Published`, the store after a pixmap is published.
- `SetWallpaper`: the `ConnectionWrapper` class of `set_wallpaper.py`, with the root-visual search.
- `Fade`: `fade_background_to_image`.
  - The step, opacity and sleep schedule, as exact rationals.
  - Its paint-and-publish loop.
- `ChunkPlan`: the pure arithmetic of `create_pixmap_from_image`.
  - `max_length`, Python floor and ceiling division.
  - Python's clamping slices.
  - The chunk partition of the image bytes.
- `Grab`: the `Display` class of `grab.py`.

Each method's contract ties its result and its new state to a function of the old state. It gives the server store as a `Store` value, and the requests sent as the exact sequence appended to the log. The lemmas relate those functions to each other:

- after publishing, reading the background gives the published pixmap;
- publishing twice is publishing once;
- the chunks put back together are the image;
- unpacking what was packed with the same raw mode gives the pixels back.

In three places the code does not do what it evidently means to do. The model follows the code, and each is a row under "## Findings":

- A fade should end with the new image fully opaque, and `--fade-secs 0` should set the image at once. The code computes `steps = max(1, fps * secs)` on integers and paints `i/steps` for `i` in `0..steps-1`. So the last frame is `(steps-1)/steps`, and `secs = 0`, the default, paints a single frame at opacity 0. In exact arithmetic a share `(steps-1)!/steps^(steps-1)` of the old background always remains. With 8-bit blending that share rounds away beyond a handful of steps, so the visible defect is at small step counts, above all `secs = 0`. This is Finding 1.
- Every PutImage should declare the rows it carries. The code's last chunk declares a full `rows_per_chunk` rows but carries fewer. This is Finding 2.
- Packed pixels should carry the pixel value 0x00RRGGBB to any server. A depth-24 server reads each 32-bit unit in its own image byte order, the one it announces in the connection setup. The code instead picks the raw mode from the host's byte order: `RGBX` on big-endian hosts, `BGRX` on little-endian ones. Only a little-endian host talking to an LSBFirst server gets the right pixels. With `RGBX`, pure red reads as the unused byte on an MSBFirst server and as blue on an LSBFirst one. With `BGRX`, an MSBFirst server reads it as 0x00ffxx. This is Finding 3.

One more difference is an observation, not a finding. `copy_pixmap` in `set_wallpaper.py` creates its graphics context with no values, so its subwindow mode is the server default `ClipByChildren`, unlike the scrape in `grab.py`, which asks for `IncludeInferiors`. It also never frees that context. The model keeps both facts.

## Model

| member | source | states |
|---|---|---|
| Bytes.Unpack32 | set_wallpaper.py:48 | `struct.unpack('I', buf)` succeeds exactly on 4-byte buffers and otherwise fails with `struct.error`; on success, packing the value back gives the buffer |
| Bytes.Pack32 | set_wallpaper.py:38 | a pixmap id becomes one 32-bit item of four native-order bytes, which decode back to the id |
| Bytes.Unpack32Pack32 | set_wallpaper.py:38-48 | a 32-bit pixmap id written as one format-32 item and read back decodes to the same id |
| Bytes.DecodeEncode | set_wallpaper.py:48 | decoding the `width`-byte encoding of any value below 256^width gives the value back, in either byte order |
| Bytes.EncodeDecode | set_wallpaper.py:48 | every byte string is the encoding of its decoded value: decoding is injective |
| Bytes.BigEndianFlag | grab.py:27 | `big_endian` is 1 exactly when the host's native encoding of 0x0100 puts the high byte first, and 0 otherwise |
| Bytes.UnpackPackPixels | grab.py:55-78 | unpacking pixels packed with the same raw mode gives them back, so reading and writing use one convention |
| Bytes.UnpackPixels | grab.py:56 | `Image.frombytes(..., 'raw', mode)` reads one pixel per 4-byte group; packing each pixel with its group's unused byte gives the group back |
| Bytes.RawModeFor | grab.py:77 | the raw mode is `RGBX` exactly on a big-endian host and `BGRX` otherwise, never `XRGB` |
| Bytes.PackPixels | grab.py:78 | `image.tobytes('raw', mode)` gives four bytes per pixel |
| Bytes.RawModeMatchesOnLittleEndian | grab.py:77 | from a little-endian host, a depth-24 LSBFirst server reads the `BGRX` bytes as the pixel value 0x00RRGGBB, whatever the unused byte |
| Bytes.RawModeWrongOnBigEndian | grab.py:77 | from a big-endian host, whatever the unused byte and whichever the server's image byte order, a depth-24 server reads `RGBX` pure red as a pixel value other than 0xff0000 |
| Bytes.SourceRawModeRightOnlyLsbFirst | grab.py:77 | the host-order choice gives pure red its pixel value if and only if both the host and the server's image byte order are little-endian |
| Bytes.IntendedRawModeMatches | grab.py:77 | with the raw mode picked from the server's image byte order, `XRGB` for MSBFirst and `BGRX` for LSBFirst, a depth-24 server reads the pixel value, whatever the unused byte |
| Bytes.IntendedRawModeBytes | grab.py:77 | with a zero unused byte, the intended raw mode writes exactly the server-order encoding of the pixel value |
| XServer.Connection.GenerateId | set_wallpaper.py:57 | `generate_id` hands out the next value of the client's id counter, which neither the root nor a live pixmap or graphics context uses; `IdsExhausted` stands for the transport failing to allocate |
| XServer.Step | set_wallpaper.py:56-97 | the server's effect of one request: root and depth never change, atoms are only added, only ChangeProperty changes properties, and the background only becomes a live pixmap of the root's depth |
| XServer.StepAllocates | set_wallpaper.py:56-67 | no request frees a pixmap, and only a fresh id becomes a new pixmap or graphics context |
| XServer.Connection.Send | set_wallpaper.py:58-67 | a request is appended to the log and applied to the server state |
| XServer.GetPropertyReply | set_wallpaper.py:42-45 | no property gives an empty reply; a type mismatch gives the type and format with no items; otherwise the leading items that fit in `long_length` 4-byte units, encoded in the client's order |
| XServer.Connection.GetPropertyOf | set_wallpaper.py:42-45 | a GetProperty request is logged and its reply is that of the server state |
| XServer.Connection.GetGeometryOf | grab.py:23-26 | a GetGeometry request is logged; its reply for the root is the screen's width, height and depth |
| Background.PixmapFromReply | set_wallpaper.py:46-48 | the value is None exactly when the reply holds no value; a value of any length other than 4 bytes fails; otherwise it is the 4-byte id |
| Background.ReadPixmapProperty | set_wallpaper.py:41-48 | a read fails only with `struct.error`, and a pixmap is found only in a PIXMAP-typed property |
| Background.ReadPixmapPropertyCases | set_wallpaper.py:41-48 | an unset property reads as None; a set property reads as its items' encoding decoded, or fails when that is not 4 bytes |
| Background.ReadPixmapValue | set_wallpaper.py:32-48 | a property holding one format-32 PIXMAP item `p` reads back as `p` |
| Background.CurrentBackground | set_wallpaper.py:75-80 | the `_XROOTPMAP_ID` result unless it is None, otherwise the `ESETROOT_PMAP_ID` result; a pixmap comes only from one of the two properties holding PIXMAP items, and the only failure is the struct error |
| Background.NoRecordNoBackground | set_wallpaper.py:75-80 | with neither record property set there is no current background |
| Background.FallbackToESetRoot | set_wallpaper.py:75-80 | with only `ESETROOT_PMAP_ID` set to `p`, the current background is `p` |
| Background.PublishedFrame | set_wallpaper.py:92-97 | publishing sets both record properties to `p` and the attribute when `p` is live and of the root's depth; no other property, pixmap, graphics context or flag changes |
| Background.Published | set_wallpaper.py:92-97 | publishing interns both record atoms and leaves the root, its depth, the pixmaps, the graphics contexts and the close-down mode alone |
| Background.PublishedReadBack | set_wallpaper.py:75-97 | after publishing `p`, both properties read back as `p` and the current background is `p` |
| Background.PublishedIdempotent | set_wallpaper.py:92-97 | publishing the same pixmap twice leaves the state of publishing it once |
| Background.PublishedAbsorbsAtoms | set_wallpaper.py:75-97 | interning the record atoms before publishing makes no difference to the published state |
| SetWallpaper.FirstWithIdCorrect | set_wallpaper.py:50-54 | the search finds nothing exactly when no visual has the id; otherwise it finds the first visual that has it |
| SetWallpaper.FirstWithIdAppend | set_wallpaper.py:50-54 | searching a concatenation finds the first part's hit, or else the second part's |
| SetWallpaper.FirstWithId | set_wallpaper.py:50-54 | a visual found is one of the searched visuals and has the root visual's id |
| SetWallpaper.AllVisualsHas | set_wallpaper.py:50-54 | every visual of every allowed depth is among the visuals searched |
| SetWallpaper.AllVisualsSplit | set_wallpaper.py:51-52 | the depth-then-visual order of visuals splits at any depth boundary |
| SetWallpaper.AllVisuals | set_wallpaper.py:51-52 | the visuals in the order the nested loop visits them: depth by depth, each depth's visuals in order |
| SetWallpaper.FoundAt | set_wallpaper.py:51-54 | a visual with the id, with no earlier match in depth-then-visual order, is the search result |
| SetWallpaper.ConnectionWrapper.constructor | set_wallpaper.py:19-27 | caches the first screen's root and geometry; with `persist` the only request sent is SetCloseDownMode(RetainPermanent), and the retain flag is set |
| SetWallpaper.ConnectionWrapper.InternAtom | set_wallpaper.py:29-30 | the atom for `name` is interned and nothing else changes |
| SetWallpaper.ConnectionWrapper.SetPropertyToPixmap | set_wallpaper.py:32-39 | interns the name, then replaces that root property with the one-item format-32 PIXMAP value `pixmap` |
| SetWallpaper.ConnectionWrapper.GetPixmapProperty | set_wallpaper.py:41-48 | returns the property read of the old state, after interning the name and sending one GetProperty of 32 long words |
| SetWallpaper.ConnectionWrapper.FindRootVisual | set_wallpaper.py:50-54 | returns the first visual, in depth-then-visual order, whose id is the root visual, and None exactly when there is none |
| SetWallpaper.ConnectionWrapper.CreatePixmap | set_wallpaper.py:56-62 | a fresh id is given a screen-sized pixmap at root depth; with `persist`, the retain directive was logged before it |
| SetWallpaper.ConnectionWrapper.CopyPixmap | set_wallpaper.py:64-67 | a fresh default graphics context is created on the root and used for one full-screen copy, and is never freed |
| SetWallpaper.ConnectionWrapper.GetCurrentBackground | set_wallpaper.py:75-80 | returns the current background of the old state; the second property is read only when the first is unset; only atoms change |
| SetWallpaper.ConnectionWrapper.SetBackground | set_wallpaper.py:92-97 | the store becomes the published state of `pixmap`; the log gains the two property writes, the attribute change, the clear and the flush |
| SetWallpaper.PublishRequestsPublish | set_wallpaper.py:92-97 | applying set_background's requests to any state gives the published state |
| SetWallpaper.WriteRequestsEffect | set_wallpaper.py:32-39 | the two requests of one property write intern the atom and replace that one property |
| SetWallpaper.ConnectionWrapper.SetBackgroundToRootWindowContents | set_wallpaper.py:82-90 | a fresh screen-sized pixmap gets the root copied into it and is published; the left-over graphics context stays live |
| SetWallpaper.ContentsPublished | set_wallpaper.py:56-90 | after those requests the new pixmap, made at the root's depth, is the current background and the root's background attribute, and is live with the screen's geometry |
| Fade.Steps | set_wallpaper.py:110 | `max(1, fps*secs)` is always at least 1 |
| Fade.StepsFacts | set_wallpaper.py:110 | the step count is `fps*secs` when that is at least 1 and 1 otherwise; `secs = 0` gives one step; `fps=20, secs=5` gives 100 |
| Fade.StepOpacity | set_wallpaper.py:111 | `step` lies in (0, 1] and `steps` of them make exactly 1 |
| Fade.StepSleep | set_wallpaper.py:112 | `steps` sleeps make exactly `secs` |
| Fade.FrameOpacity | set_wallpaper.py:123 | the opacity of frame `i` is `i` steps, that is, `steps` times it is `i` |
| Fade.Schedule | set_wallpaper.py:122-123 | one opacity per frame of `range(steps)`, frame `i` at `i/steps` |
| Fade.FrameOpacityIsRatio | set_wallpaper.py:111-123 | the opacity of frame `i`, `i * (1/steps)`, is exactly `i/steps` |
| Fade.ScheduleShape | set_wallpaper.py:121-123 | there are `steps` opacities; they start at 0, strictly increase, stay below 1, and end at `(steps-1)/steps` |
| Fade.TotalSleep | set_wallpaper.py:112-125 | `steps` sleeps of `secs/steps` add up to exactly `secs` |
| Fade.SleepSign | set_wallpaper.py:112-125 | the per-step sleep is negative exactly when `secs` is, which is when `time.sleep` raises |
| Fade.AsWrittenNeverOpaque | set_wallpaper.py:122-123 | as written, in exact arithmetic some of the old background always shows through: the fade never reaches full opacity |
| Fade.AsWrittenInstantPaintsNothing | set_wallpaper.py:110-123 | as written, `secs = 0` paints one frame at opacity 0, which leaves the old background entirely visible |
| Fade.IntendedScheduleShape | set_wallpaper.py:122-123 | the corrected opacities `(i+1)/steps` strictly increase within (0, 1] and end at exactly 1 |
| Fade.IntendedReachesOpaque | set_wallpaper.py:122-123 | with the corrected opacities nothing of the old background shows through at the end |
| Fade.FramesCounts | set_wallpaper.py:122-124 | a run of frames paints exactly its opacities, in order, and publishes once per frame |
| Fade.FadeOutcome | set_wallpaper.py:114-125 | the fade completes exactly when the background decodes to a pixmap, a root visual exists and `secs >= 0`; otherwise it fails with that cause, a missing root visual being reported before a missing background |
| Fade.FramesPainted | set_wallpaper.py:122-125 | all `steps` frames are painted when `secs >= 0`; otherwise the first sleep raises after one frame |
| Fade.PaintFrame | set_wallpaper.py:123-124 | one frame paints at its opacity, then publishes the pixmap |
| Fade.PaintFrames | set_wallpaper.py:121-125 | with a non-negative sleep, all `steps` frames are painted at `i/steps` and published; with a negative one, only the first frame is, and the loop fails |
| Fade.FadeBackgroundToImage | set_wallpaper.py:106-125 | the outcome is `FadeOutcome` of the old state; on success the log holds the retain directive, the background read and exactly the frames painted, and the store is the published state |
| ChunkPlan.FloorDiv | grab.py:87 | Python's `//`: the largest quotient whose product does not exceed the dividend, for either sign of divisor |
| ChunkPlan.MaxLength | grab.py:85-86 | the payload room of a maximum-length request: four bytes per length unit, less the 24-byte fixed part of PutImage |
| ChunkPlan.CeilDiv | grab.py:88 | `math.ceil(height / rows_per_chunk)` for a positive divisor: enough bands of `rows_per_chunk` rows to cover the height, and no band too many |
| ChunkPlan.CeilDivBounds | grab.py:88 | for `rows > 0`, `chunks*rows >= height` and `(chunks-1)*rows < height`, and the count is never negative |
| ChunkPlan.CeilDivNonPositive | grab.py:88-89 | a negative `rows_per_chunk` gives no chunks at all |
| ChunkPlan.PySlice | grab.py:92 | a Python slice with `0 <= i <= j` is the sub-sequence between the indices clamped to the end |
| ChunkPlan.ChunkData | grab.py:90-92 | chunk `k` is `data[y*stride:(y+rows)*stride]` at `y = k*rows`, so it never holds more than `rows*stride` bytes |
| ChunkPlan.Chunks | grab.py:89-92 | the first `k` chunks one after another; `ChunksPrefix` shows they are the data's first `k*rows*stride` bytes |
| ChunkPlan.ChunksPrefix | grab.py:89-92 | the first `k` chunks together are exactly the first `k*rows*stride` bytes, clamped at the end of the data |
| ChunkPlan.ChunkStart | grab.py:90-92 | chunk `k` starts at row `k*rows_per_chunk`: it is the data from byte `k*rows*stride` |
| ChunkPlan.ChunksContiguous | grab.py:89-92 | each chunk begins where the previous one ends, so the slices are disjoint and in order |
| ChunkPlan.ChunksCoverData | grab.py:88-92 | with `len(data) == height*stride`, the plan's chunks put together are the data |
| ChunkPlan.ChunkSize | grab.py:87-92 | every chunk is at most `rows*stride` bytes, and exactly that when it ends inside the data |
| ChunkPlan.RowsFit | grab.py:86-87 | `(max_length // stride) * stride <= max_length` |
| ChunkPlan.ChunkSizesInPlan | grab.py:87-92 | every chunk but the last is full, and the last carries exactly the rows that are left |
| ChunkPlan.AsWrittenLastChunkShort | grab.py:93-95 | when the height is not a multiple of `rows_per_chunk`, the last request declares more rows than its payload holds |
| ChunkPlan.AsWrittenScreenExample | grab.py:85-95 | a 1920x1080 image with the common maximum request length of 65535 units gives 34 rows per chunk, 32 chunks, and a last chunk of 26 rows |
| ChunkPlan.DeclaredRowsMatch | grab.py:93-95 | declaring `min(rows_per_chunk, height - y)` rows matches every payload of the plan, the last included |
| Grab.Display.constructor | grab.py:20-27 | caches the first screen and the root geometry from one GetGeometry reply, and the big-endian flag |
| Grab.Display.ScrapeRootWindowIntoPixmap | grab.py:29-43 | a fresh screen-sized pixmap at root depth, one full-area copy from the root with a GXcopy, FillSolid, IncludeInferiors graphics context, and that graphics context freed |
| Grab.ScrapeRequestsEffect | grab.py:35-42 | the scrape adds the pixmap, with the screen's geometry, and nothing else |
| Grab.Display.CreateSolidPixmap | grab.py:59-65 | a fresh screen-sized pixmap at root depth, filled over its whole area with a graphics context whose foreground is `color`, which is then freed |
| Grab.SolidRequestsEffect | grab.py:61-64 | the fill covers the pixmap's whole geometry while a graphics context with foreground `color` is live; afterwards only the pixmap remains |
| Grab.Display.CreatePixmapFromImage | grab.py:67-99 | a fresh depth-24 pixmap of the image's size and a default graphics context. A zero stride or zero `rows_per_chunk` fails with ZeroDivisionError. The graphics context is then left live exactly when the image is non-empty, since the server refuses a zero-sized pixmap and then a context on it. Otherwise the packed image goes out in the plan's PutImage requests and the graphics context is freed |
| Grab.Display.CreateImageResources | grab.py:80-81 | two fresh, distinct ids: a depth-24 pixmap of the image's size is requested, then a default graphics context on it |
| Grab.CreateOnNewSteps | grab.py:80-81 | the graphics context on the new pixmap exists exactly when the pixmap is non-empty, because the server refuses a zero-sized pixmap and a context on a missing drawable |
| Grab.Display.PutImageChunks | grab.py:89-96 | the loop puts chunk `k` at row `k*rows_per_chunk`, declaring `rows_per_chunk` rows, for every chunk of the plan |
| Grab.ImageRequests | grab.py:89-96 | the upload sends only ZPixmap PutImage requests at depth 24, on the new pixmap with its graphics context, and none when `rows_per_chunk` is negative |
| Grab.UploadRequests | grab.py:89-96 | one PutImage per chunk index, chunk `k` at row `k*rows_per_chunk` carrying `ChunkData` of chunk `k` |
| Grab.PlanRows | grab.py:87 | `rows_per_chunk = max_length // stride`, with Python's floor division |
| Grab.UploadCoversImage | grab.py:85-96 | the payloads of the upload, in order, are the image bytes |
| Grab.UploadRequestBounds | grab.py:86-95 | every PutImage payload is at most `rows_per_chunk*stride <= max_length` bytes, at row `k*rows_per_chunk`, declaring `rows_per_chunk` rows of the image's width at depth 24 |
| Grab.PackedImageSize | grab.py:76-78 | the packed image is `height` rows of `stride = 4*width` bytes |
| Grab.ImageUploadRoundTrip | grab.py:55-96 | the uploaded bytes, unpacked with the same raw mode as the reader uses, are the image's pixels |
| Grab.Display.WriteRecord | grab.py:107-108 | one pass of the loop interns the name and replaces that property with the pixmap |
| Grab.NamesWrittenEffect | grab.py:106-108 | the loop's requests write each name's property in turn |
| Grab.Display.SetBackgroundToPixmap | grab.py:101-113 | sets `_XROOTPMAP_ID`, then `ESETROOT_PMAP_ID`, to the pixmap, then queries the geometry, sets the attribute, clears and flushes; the store becomes the published state |
| Grab.DisplayPublishRequestsPublish | grab.py:106-113 | those requests publish the pixmap exactly as `set_background` in `set_wallpaper.py` does |
| Grab.ImageBackgroundNeedsDepth | grab.py:75-80 | an uploaded image's pixmap has depth 24, so publishing it sets the root's background only when the root has depth 24; otherwise the background stays as it was and only the properties change |

## Left out

- `main` and its argparse handling (`set_wallpaper.py` 128-146) and the `__main__` script of `grab.py` are command-line glue.
- `load_image` and image decoding through cairo or PIL are foreign codecs.
  - An image is modelled as its width, height and RGB pixels.
  - Packing is modelled per pixel.
- `create_surface_for_pixmap` and cairo compositing (`paint_with_alpha`) are floating-point blending inside a library.
  - A frame is modelled as one `Paint` request carrying its exact opacity.
  - Pixel contents are not part of the store: copy, fill, put-image and paint requests are only logged.
- Fade.FadeBackgroundToImage: does not model the pacing of `time.sleep` or the time slept, because they are real time. It models only that `time.sleep` raises on a negative value. The total is proved separately in `Fade.TotalSleep`.
- Fade.FadeOutcome: a missing background or a missing root visual is modelled as a failure before the loop. In the code these reach cairo as `None` and fail while `XCBSurface` is built. The visual is converted before the pixmap is used, so the model tests it first. The exception types are not modelled.
- The xcffib and Xlib transports are not modelled: replies, buffering, `flush`, and the transport's atom numbers.
  - Atoms are identified by name.
  - Errors the server would report asynchronously are modelled as requests that leave the store unchanged.
  - For example: a CreatePixmap with a zero dimension; a CreateGC on a drawable that does not exist; a ChangeWindowAttributes naming a pixmap that is not live or not of the root's depth.
  - A CreatePixmap is accepted at any depth. The server refuses a depth the screen does not list, for example depth 24 for an image on a screen without it.
  - Request fields are unbounded integers. python-xlib packs PutImage's `dst_y` as INT16 and CreatePixmap's width and height as CARD16. So for an image taller than 32767 rows, `put_image` raises `struct.error` and `gc.free()` is never reached. The model sends those requests.
  - Resource ids come from a counter in `XServer.Connection`. The model's failure at 2^32 (`IdsExhausted`) stands for the transport's own allocator failing. python-xlib raises `ResourceIDError` when its id range runs out, and xcffib does not check. `XServer.Connection.Valid` requires every live pixmap and context id to lie below the counter. This stands for X's disjoint per-client id ranges. A pixmap kept from an earlier run through `ESETROOT_PMAP_ID` belongs to another client, so its id lies outside this client's range, and the counter never produces it.
- `1/steps`, `secs/steps` and `image.height / rows_per_chunk` are Python 3 true divisions. The model uses exact reals for the first two and a ceiling division for the third. Under Python 2 `1/steps` would truncate to 0.
- Whether the server honours RetainPermanent after disconnection is not modelled. The model keeps the retain flag and the order of the requests.
- Grab.Display.CreatePixmapFromImage: does not fix the pad byte that PIL writes in the unused fourth byte. It is a parameter, because its value is chosen inside PIL.
- `get_current_background_as_image` is modelled only through its raw-mode choice and the pixel unpacking, because its reply data comes from the server's pixel contents, which are not modelled. That usage is covered by `Bytes.UnpackPackPixels`, `Bytes.RawModeWrongOnBigEndian` and `Grab.ImageUploadRoundTrip`.
- Grab.Display.CreatePixmapFromImage: requires that the image holds exactly `width*height` pixels, which PIL guarantees for every image.
- Screens other than the first are not modelled. The model takes the first screen, `roots[0]`, in both classes. `set_wallpaper.py` does the same, but `grab.py` takes `display.screen()`, the display's default screen, which need not be the first.
- Fade.AsWrittenNeverOpaque: holds in exact arithmetic only, because blending precision is not modelled. cairo and XRender blend in 8-bit channels, and there the leftover `(steps-1)!/steps^(steps-1)` rounds away beyond a handful of steps. The visible defect is at small step counts, above all `secs = 0`, the default.
- Bytes.DepthPixel: takes the server's image byte order as a parameter, because the program never reads it from the connection setup. It also assumes the usual depth-24 masks, red in bits 16-23, green in 8-15 and blue in 0-7. The model does not read them from the visual.
- Property modes other than Replace are not modelled, since the program uses no other.
- `setup.py` is packaging metadata.

## Findings

| source | as written | input that shows it | evidently intended | confidence | as-written member | corrected member |
|---|---|---|---|---|---|---|
| set_wallpaper.py:122-123 | frame `i` is painted at `i * (1/steps)` for `i` in `range(steps)`, so the last frame is `(steps-1)/steps` and `secs = 0` paints once at opacity 0 | `secs = 0`, any `fps`: the only frame has opacity 0 and the old background stays fully visible | opacities `(i+1)/steps`, ending at exactly 1 | not executed | Fade.AsWrittenNeverOpaque | Fade.IntendedReachesOpaque |
| grab.py:93-95 | every PutImage declares `rows_per_chunk` rows, including a last chunk that carries fewer rows, so its length does not match its declared size | a 1920x1080 image, maximum request length 65535: 34 rows per chunk, 32 chunks; the last carries 26 rows but declares 34 | declare `min(rows_per_chunk, image.height - y)` rows | not executed | ChunkPlan.AsWrittenLastChunkShort | ChunkPlan.DeclaredRowsMatch |
| grab.py:77 | raw mode picked from the host's byte order: `RGBX` on big-endian hosts, `BGRX` on little-endian ones | pure red (255, 0, 0) from a big-endian host: bytes `ff 00 00 xx`, which a depth-24 MSBFirst server reads as 0x0000xx and an LSBFirst one as 0x0000ff, rather than 0xff0000 | raw mode picked from the server's image byte order: `XRGB` for MSBFirst, `BGRX` for LSBFirst | not executed | Bytes.RawModeWrongOnBigEndian | Bytes.IntendedRawModeMatches |
