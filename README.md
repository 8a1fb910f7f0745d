# OpenCVandroid: camera packing, frame mailbox and web playlist

A Dafny model of the sequential logic in three parts of the OpenCVandroid app.

- **Packing a camera frame** (`MainActivity.processImage`). An Android
  `YUV_420_888` image has one luma plane and two chroma planes, each a
  `ByteBuffer` with a row stride and a pixel stride. The code copies the
  luma bytes into a new byte array of `ySize + ySize / 2` bytes. It rewinds
  both chroma buffers. Then for each of `height / 2` chroma rows it stores
  `width / 2` pairs, one U byte and one V byte, each read by `get()`. At
  the end of a row, if plane 1's `rowStride` is larger than
  `(width / 2) * pixelStride`, it moves both cursors on by the difference.
  - The model follows the code:
    - reads advance one byte at a time, whatever the pixel stride;
    - plane 1's strides serve both chroma planes;
    - U is stored before V, although the array is then decoded as NV21,
      whose byte order is V first.
  - Every Java exception the loop can raise is a `Fault` in a `Result`:
    - a read at a buffer's limit;
    - a cursor moved past the limit;
    - an array store out of range;
    - fewer than three planes;
    - an array size that wraps negative.
  - Java's 32-bit `int` arithmetic and its truncating `/ 2` are written out.
  - The image listener catches any fault and closes the image on every path.
  - The Canny toggle decides whether the feature hook runs.
- **The renderer's single-slot mailbox** (`MyGLRenderer`).
  - `updateTexture` stores a fresh copy of the frame and overwrites whatever
    was pending.
  - `onDrawFrame` uploads the pending frame only when both dimensions are
    positive, and then empties the slot.
  - The GL texture is ghost state that records the last upload.
  - The textured quad is described by two tables, and the vertex shader
    turns every texture coordinate by `(u, v) ↦ (v, 1 − u)`.
- **The web viewer's playlist** (`web/src/main.ts`). It holds ten names
  `frames/frame_001.jpg` … `frames/frame_010.jpg`, built with
  `("000" + i).slice(-3)`, and a cursor that `nextFrame` advances modulo
  the list length.

The packing is specified in two ways.
- **Step by step.** Module `Nv21Packing` has one function per loop body and
  a method, `PackPlanes`, that mirrors the Java loops over a Dafny array and
  is proved equal to the step functions.
- **In closed form.** Module `Nv21Layout` (with `ChromaRowBytes`) proves
  what the loops compute:
  - where the packing fails and where it succeeds;
  - that a packed array is the luma bytes, then the chroma pairs in row
    order, then zeros;
  - which cursor position each chroma pair comes from.

Modules:
- `Java`: `int` wrap-around, `/ 2`, `byte`, faults.
- `ByteBuffers`: a buffer as bytes plus a cursor.
- `Nv21Packing` and `ChromaRowBytes`: the packing as steps, and the chroma
  byte sequence.
- `Nv21Layout`: the closed forms.
- `CameraActivity`: the activity's toggle, `processImage` and the listener.
- `GLRenderer`: the mailbox and the quad.
- `Playlist`: the web viewer.

## Model

| member | source | states |
|---|---|---|
| Java.Wrap | app/src/main/java/com/wintershade/opencvandroid/MainActivity.java:248 | Java `int` arithmetic: the result is the exact value modulo 2^32 brought into the `int` range; it is exact inside that range, and a sum just above `INT_MAX` comes back 2^32 lower, for example a negative array size |
| Java.Half | app/src/main/java/com/wintershade/opencvandroid/MainActivity.java:256-258 | `x / 2` on `int` truncates toward zero: the remainder is 0 or 1 for non-negative `x` and 0 or -1 for negative `x` |
| ByteBuffers.Remaining | app/src/main/java/com/wintershade/opencvandroid/MainActivity.java:244 | `remaining()` is the number of bytes from the cursor to the limit |
| ByteBuffers.Get | app/src/main/java/com/wintershade/opencvandroid/MainActivity.java:259-260 | `get()` succeeds exactly when the cursor is below the limit; it yields the byte under the cursor and moves the cursor by one; otherwise it throws `BufferUnderflowException` |
| ByteBuffers.SetPosition | app/src/main/java/com/wintershade/opencvandroid/MainActivity.java:263-264 | `position(p)` succeeds exactly when `0 <= p <= limit`, and then only the cursor changes; otherwise it throws `IllegalArgumentException` |
| ByteBuffers.Rewind | app/src/main/java/com/wintershade/opencvandroid/MainActivity.java:252-253 | `rewind()` puts the cursor at 0 and leaves the bytes alone |
| Nv21Packing.GeometryOf | app/src/main/java/com/wintershade/opencvandroid/MainActivity.java:254-258 | the row skip uses plane 1's row stride, and `uvRowBytes` is the wrapped `int` product of `width / 2` and plane 1's pixel stride; for non-negative dimensions the loop bounds are exactly `width / 2` and `height / 2`, rounded down |
| Nv21Packing.Luma | app/src/main/java/com/wintershade/opencvandroid/MainActivity.java:244-246 | the bytes `yBuffer.get(yBytes)` reads are exactly `remaining()` many |
| Nv21Packing.Zeros | app/src/main/java/com/wintershade/opencvandroid/MainActivity.java:248 | a new `byte[n]` has `n` bytes, all zero |
| Nv21Packing.Store | app/src/main/java/com/wintershade/opencvandroid/MainActivity.java:259-260 | an array store succeeds exactly when the index is in range, and then changes only that index; otherwise it throws `ArrayIndexOutOfBoundsException` |
| Nv21Packing.InitialOut | app/src/main/java/com/wintershade/opencvandroid/MainActivity.java:248-249 | the array before the chroma loop has the allocated length |
| Nv21Packing.PairStep | app/src/main/java/com/wintershade/opencvandroid/MainActivity.java:259-260 | definition: one pass of the inner loop reads U, stores it at `uvIndex`, reads V, stores it at `uvIndex + 1`, and stops at the first fault |
| Nv21Packing.Columns | app/src/main/java/com/wintershade/opencvandroid/MainActivity.java:258-261 | definition: the inner loop, `width / 2` passes, stopping at the first fault |
| Nv21Packing.SkipPadding | app/src/main/java/com/wintershade/opencvandroid/MainActivity.java:262-265 | definition: when `rowStride > uvRowBytes` both cursors are set to their wrapped `int` position plus the wrapped gap, U first, and a bad position throws |
| Nv21Packing.Rows | app/src/main/java/com/wintershade/opencvandroid/MainActivity.java:257-266 | definition: the outer loop, each row its columns and then its padding skip, stopping at the first fault |
| Nv21Packing.PackNv21 | app/src/main/java/com/wintershade/opencvandroid/MainActivity.java:239-266 | definition: a missing plane throws; a wrapped-negative array size throws; otherwise the luma copy and both rewound cursors start the chroma loop, whose array or fault is the result |
| Nv21Packing.PackPlanes | app/src/main/java/com/wintershade/opencvandroid/MainActivity.java:239-266 | the imperative packing ends with the fault or the array that the step-by-step definition of the loops gives, for every image |
| Nv21Packing.SkipRowPadding | app/src/main/java/com/wintershade/opencvandroid/MainActivity.java:262-265 | the padding skip as a method agrees with the step definition, including its `IllegalArgumentException` cases |
| Nv21Packing.CopyLuma | app/src/main/java/com/wintershade/opencvandroid/MainActivity.java:244-249 | the new array holds the luma bytes at its front and zeros after them |
| Nv21Packing.PackChromaRow | app/src/main/java/com/wintershade/opencvandroid/MainActivity.java:258-261 | the inner loop over the array agrees with the step definition of one chroma row; on success the array holds the new contents and the write index never goes negative |
| ChromaRowBytes.RowPairs | app/src/main/java/com/wintershade/opencvandroid/MainActivity.java:258-261 | one chroma row writes two bytes per column |
| ChromaRowBytes.ChromaRows | app/src/main/java/com/wintershade/opencvandroid/MainActivity.java:257-265 | the rows write two bytes per chroma sample in all |
| ChromaRowBytes.RowPairsAt | app/src/main/java/com/wintershade/opencvandroid/MainActivity.java:258-260 | within a row, pair `c` is the U byte and then the V byte at cursor `pos + c`: consecutive positions, U first |
| ChromaRowBytes.ChromaRowsAt | app/src/main/java/com/wintershade/opencvandroid/MainActivity.java:257-265 | pair `c` of row `r` is written at `2 * (r * halfWidth + c)`, and it holds the U and the V byte at cursor `pos + r * advance + c` |
| Nv21Layout.Gap | app/src/main/java/com/wintershade/opencvandroid/MainActivity.java:262-265 | the cursors jump after a row exactly when `rowStride > uvRowBytes` |
| Nv21Layout.PairStepClosed | app/src/main/java/com/wintershade/opencvandroid/MainActivity.java:259-260 | one loop pass succeeds exactly when both buffers have a byte left and the array has room for two; then both cursors advance by one and the U and V bytes land at `uvIndex` and `uvIndex + 1` |
| Nv21Layout.ColumnsClosed | app/src/main/java/com/wintershade/opencvandroid/MainActivity.java:258-261 | a row of `n` columns succeeds exactly when both buffers have `n` bytes left and the array has room for `2n`; then the row's pairs are written from `uvIndex` on and nothing else changes |
| Nv21Layout.SkipClosed | app/src/main/java/com/wintershade/opencvandroid/MainActivity.java:262-265 | the padding skip succeeds exactly when both buffers reach the new position; it moves both cursors by the gap and leaves the array alone |
| Nv21Layout.NextRow | app/src/main/java/com/wintershade/opencvandroid/MainActivity.java:257-265 | after a whole row and its skip, the two cursors are still equal and the write index is still inside the array |
| Nv21Layout.RowStep | app/src/main/java/com/wintershade/opencvandroid/MainActivity.java:257-265 | a row that succeeds needs room for its reads, its skip and its writes; with that room, the remaining rows continue from the state after the row |
| Nv21Layout.AfterRowsStep | app/src/main/java/com/wintershade/opencvandroid/MainActivity.java:257-265 | room for `n` rows means room for the first row and then for `n - 1` more, and the closed form after `n` rows is the closed form after `n - 1` rows started where the first row ends |
| Nv21Layout.RowsClosed | app/src/main/java/com/wintershade/opencvandroid/MainActivity.java:257-266 | the whole chroma loop succeeds exactly when both buffers reach `rows * (halfWidth + gap)` and the array has room for `2 * rows * halfWidth` bytes; then the result is the closed form |
| Nv21Layout.RowsClosedStep | app/src/main/java/com/wintershade/opencvandroid/MainActivity.java:257-266 | the inductive case of the previous row: once the first row fits, the loop's outcome over `n` rows is the closed form |
| Nv21Layout.RowGap | app/src/main/java/com/wintershade/opencvandroid/MainActivity.java:254-256 | the padding per row is `rowStride - (width / 2) * pixelStride` when that is positive, and 0 otherwise |
| Nv21Layout.ChromaBytes | app/src/main/java/com/wintershade/opencvandroid/MainActivity.java:257-261 | the chroma loop writes `2 * (height / 2) * (width / 2)` bytes |
| Nv21Layout.GeometryRegular | app/src/main/java/com/wintershade/opencvandroid/MainActivity.java:254-258 | when the stride arithmetic does not wrap, the loop's bounds and skip are the exact integer values |
| Nv21Layout.SpliceAfterPrefix | app/src/main/java/com/wintershade/opencvandroid/MainActivity.java:248-251 | writing from index `ySize` of an array that holds the luma bytes and then zeros replaces a prefix of the zeros |
| Nv21Layout.Start | app/src/main/java/com/wintershade/opencvandroid/MainActivity.java:248-253 | both chroma cursors start at 0, and the write index starts at `ySize`, just after the luma bytes |
| Nv21Layout.StartRoom | app/src/main/java/com/wintershade/opencvandroid/MainActivity.java:248-266 | from the start state, room for every row means: the array's chroma half holds every pair, and both buffers reach `(height / 2) * RowAdvance` |
| Nv21Layout.StartAfterRows | app/src/main/java/com/wintershade/opencvandroid/MainActivity.java:248-266 | after every row from the start state, the array is the luma bytes, then the chroma bytes, then zeros |
| Nv21Layout.PackNv21Characterized | app/src/main/java/com/wintershade/opencvandroid/MainActivity.java:244-266 | when the stride arithmetic does not wrap, packing succeeds exactly when the array size does not overflow, the chroma half has room for every pair and both buffers reach the last read and skip; on success the array is luma, then chroma pairs, then zeros |
| Nv21Layout.SampleByAddition | app/src/main/java/com/wintershade/opencvandroid/MainActivity.java:257-258 | sample number and cursor position are `r` rows of `width / 2` or `RowAdvance` plus `c`, and every row fits the buffers |
| Nv21Layout.ChromaPlacement | app/src/main/java/com/wintershade/opencvandroid/MainActivity.java:251-261 | in a packed array, sample `k = r * (width / 2) + c` is the U byte at `ySize + 2k` and the V byte at `ySize + 2k + 1`, both read at cursor `r * RowAdvance + c`, which lies below both limits; within a row the cursor advances by one per pair whatever the pixel stride, which enters only through the row gap in `RowAdvance` |
| Nv21Layout.PickBetween | app/src/main/java/com/wintershade/opencvandroid/MainActivity.java:249-251 | a position inside the chroma part of luma + chroma + zeros reads the chroma byte |
| Nv21Layout.EvenFrameFillsBuffer | app/src/main/java/com/wintershade/opencvandroid/MainActivity.java:248-261 | for even dimensions and `ySize = width * height` the loop writes exactly `ySize / 2` chroma bytes, and a packed array has no zero tail |
| Nv21Layout.PairStepKeeps | app/src/main/java/com/wintershade/opencvandroid/MainActivity.java:259-260 | one pass keeps the array's length and every byte before `uvIndex`, and does not move `uvIndex` back |
| Nv21Layout.ColumnsKeeps | app/src/main/java/com/wintershade/opencvandroid/MainActivity.java:258-261 | a row keeps the array's length and every byte before the row's first write |
| Nv21Layout.RowsKeeps | app/src/main/java/com/wintershade/opencvandroid/MainActivity.java:257-266 | the whole loop keeps the array's length and every byte before `uvIndex = ySize` |
| Nv21Layout.PackedLayout | app/src/main/java/com/wintershade/opencvandroid/MainActivity.java:244-251 | for any image, whatever its strides, a packed array has `ySize + ySize / 2` bytes and begins with the luma bytes verbatim |
| Nv21Layout.PlaneTwoStridesIgnored | app/src/main/java/com/wintershade/opencvandroid/MainActivity.java:254-255 | changing plane 2's row or pixel stride changes nothing, fault or bytes |
| CameraActivity.CameraImage.constructor | app/src/main/java/com/wintershade/opencvandroid/MainActivity.java:172 | an acquired image is open |
| CameraActivity.CameraImage.Close | app/src/main/java/com/wintershade/opencvandroid/MainActivity.java:179 | `close()` marks the image closed |
| CameraActivity.MainActivity.constructor | app/src/main/java/com/wintershade/opencvandroid/MainActivity.java:67 | `showCanny` starts `true` |
| CameraActivity.MainActivity.OnToggleClick | app/src/main/java/com/wintershade/opencvandroid/MainActivity.java:118 | a click negates `showCanny` |
| CameraActivity.MainActivity.ProcessImage | app/src/main/java/com/wintershade/opencvandroid/MainActivity.java:233-278 | with the OpenCV conversions and the feature hook taken to return normally, `processImage` fails exactly with the packing's fault, or yields the packed bytes and calls the feature hook exactly when `showCanny` is set |
| CameraActivity.MainActivity.OnImageAvailable | app/src/main/java/com/wintershade/opencvandroid/MainActivity.java:169-180 | no image means nothing happens; otherwise a packing fault is caught and reported, or, with the foreign calls taken to return normally, the frame is processed; either way the image ends closed and the toggle is unchanged |
| CameraActivity.ClickTwice | app/src/main/java/com/wintershade/opencvandroid/MainActivity.java:118 | two clicks restore the toggle |
| CameraActivity.FirstClickDisablesHook | app/src/main/java/com/wintershade/opencvandroid/MainActivity.java:276-278 | after start-up and one click, the next frame does not call the feature hook |
| GLRenderer.Initial | app/src/main/java/com/wintershade/opencvandroid/MyGLRenderer.java:42-43 | definition: a new renderer has no pending buffer, pending dimensions 0 and a blank texture, with no uploads yet |
| GLRenderer.Ready | app/src/main/java/com/wintershade/opencvandroid/MyGLRenderer.java:111 | definition: the drain's guard, a pending buffer with both dimensions positive |
| GLRenderer.Updated | app/src/main/java/com/wintershade/opencvandroid/MyGLRenderer.java:183-187 | definition: a hand-over replaces the pending buffer, width and height and leaves the texture alone |
| GLRenderer.Drawn | app/src/main/java/com/wintershade/opencvandroid/MyGLRenderer.java:110-119 | definition: a draw with a pending buffer and both dimensions positive uploads that buffer with those dimensions and empties the slot; otherwise nothing changes |
| GLRenderer.LastWriteWins | app/src/main/java/com/wintershade/opencvandroid/MyGLRenderer.java:183-187 | two hand-overs with no draw between leave only the second buffer, width and height pending |
| GLRenderer.DrawUploadsPending | app/src/main/java/com/wintershade/opencvandroid/MyGLRenderer.java:110-119 | a draw with a pending buffer and positive dimensions uploads exactly that buffer with those dimensions, once, and empties the slot; the dimensions stay |
| GLRenderer.NotReadyStaysPending | app/src/main/java/com/wintershade/opencvandroid/MyGLRenderer.java:111 | a draw with an empty slot or a non-positive dimension changes nothing; a pending buffer stays pending |
| GLRenderer.SecondDrawUploadsNothing | app/src/main/java/com/wintershade/opencvandroid/MyGLRenderer.java:111-118 | a second draw with no hand-over between changes nothing, and a draw uploads at most once |
| GLRenderer.UpdateThenDraw | app/src/main/java/com/wintershade/opencvandroid/MyGLRenderer.java:105-120 | a hand-over followed by a draw shows that frame exactly when both dimensions are positive; otherwise the frame stays pending |
| GLRenderer.RunInvariant | app/src/main/java/com/wintershade/opencvandroid/MyGLRenderer.java:105-188 | over any sequence of hand-overs and draws: the texture is blank or a frame that was handed over with positive dimensions; a pending buffer is one that was handed over; uploads plus the pending frame never exceed the hand-overs; every upload takes a draw |
| GLRenderer.Renderer.constructor | app/src/main/java/com/wintershade/opencvandroid/MyGLRenderer.java:39-43 | a new renderer has no pending buffer, dimensions 0 and a blank texture |
| GLRenderer.Renderer.UpdateTexture | app/src/main/java/com/wintershade/opencvandroid/MyGLRenderer.java:176-188 | the pending buffer is a freshly allocated copy of the argument's bytes, and the pending dimensions are the arguments |
| GLRenderer.Renderer.DrawFrame | app/src/main/java/com/wintershade/opencvandroid/MyGLRenderer.java:105-120 | the drain in place does to the fields and the texture what the mailbox's draw step does to its value |
| GLRenderer.CopyIsIndependent | app/src/main/java/com/wintershade/opencvandroid/MyGLRenderer.java:178-181 | overwriting the caller's buffer after the hand-over leaves the pending copy with the earlier bytes |
| GLRenderer.TwoUpdatesOneDraw | app/src/main/java/com/wintershade/opencvandroid/MyGLRenderer.java:176-188 | after two hand-overs of any dimensions and one draw, the texture holds the second frame, one upload was made, and the slot is empty |
| GLRenderer.DrawTwice | app/src/main/java/com/wintershade/opencvandroid/MyGLRenderer.java:105-120 | two draws in a row upload at most once and leave nothing ready to upload |
| GLRenderer.Vertices | app/src/main/java/com/wintershade/opencvandroid/MyGLRenderer.java:126-130 | a flat attribute array read two components per vertex gives half as many vertices, vertex `i` made of components `2i` and `2i + 1` |
| GLRenderer.QuadMatchesDrawCount | app/src/main/java/com/wintershade/opencvandroid/MyGLRenderer.java:21-33 | both tables hold exactly 2 components for each of the 4 vertices the draw call uses; they are the corners of clip space and of the unit square |
| GLRenderer.Shade | app/src/main/java/com/wintershade/opencvandroid/MyGLRenderer.java:52 | definition: the vertex shader sends texture coordinate (u, v) to (v, 1 - u) |
| GLRenderer.ShadeInverse | app/src/main/java/com/wintershade/opencvandroid/MyGLRenderer.java:52 | the shader's coordinate map is a bijection |
| GLRenderer.ShadeQuarterTurn | app/src/main/java/com/wintershade/opencvandroid/MyGLRenderer.java:52 | applying the map four times gives the identity; no integer coordinate is fixed (over the reals only the centre of the unit square would be) |
| GLRenderer.ShadeKeepsUnitSquare | app/src/main/java/com/wintershade/opencvandroid/MyGLRenderer.java:52 | a coordinate is inside the unit square exactly when its image is |
| GLRenderer.ShadePermutesCorners | app/src/main/java/com/wintershade/opencvandroid/MyGLRenderer.java:28-33 | the texture table holds the four unit corners once each, and the map sends each vertex's coordinate to the next vertex's, a permutation of the corners |
| GLRenderer.QuadSamplesTransposed | app/src/main/java/com/wintershade/opencvandroid/MyGLRenderer.java:21-33 | the screen corner at clip position `p` samples the texture at `((1 - p.y) / 2, (1 - p.x) / 2)`, so the frame appears with its axes exchanged |
| Playlist.DigitChar | web/src/main.ts:10 | a digit value below 10 gives a digit character with that value |
| Playlist.Digits | web/src/main.ts:10 | for `n < 10^21`, `String(n)` writes at least one decimal digit, with no leading zero unless `n` is 0 |
| Playlist.IntToString | web/src/main.ts:10 | definition: `String(i)` for `-10^21 < i < 10^21`, the decimal digits of `i` with a minus sign before those of a negative number |
| Playlist.SliceLast | web/src/main.ts:10 | for `k > 0`, `s.slice(-k)` is the last `k` characters of `s`, or all of `s` when it is shorter |
| Playlist.Pad3 | web/src/main.ts:10 | the padding is always exactly 3 characters, all digits for `0 <= i < 10^21` |
| Playlist.ParseDigits | web/src/main.ts:10 | the decimal string of `n` denotes `n` |
| Playlist.ParseLeadingZeros | web/src/main.ts:10 | leading zeros do not change what a digit string denotes |
| Playlist.ParseSuffix | web/src/main.ts:10 | the last `k` digits of a digit string denote its value modulo `10^k` |
| Playlist.ShortDigits | web/src/main.ts:10 | numbers below 1000 have at most 3 digits |
| Playlist.Pad3Value | web/src/main.ts:10 | for `0 <= i < 10^21` the 3 characters denote `i % 1000` |
| Playlist.Pad3IsZeroPadded | web/src/main.ts:10 | for `0 <= i <= 999` the padding is the decimal form of `i` left-padded with zeros to 3 characters |
| Playlist.FrameName | web/src/main.ts:11 | definition: the prefix `frames/frame_`, the padded number and `.jpg` |
| Playlist.Frames | web/src/main.ts:7-12 | the list has ten entries |
| Playlist.BuildFrames | web/src/main.ts:7-12 | the `push` loop over `i = 1 .. 10` builds the list in which entry `k` names frame `k + 1` |
| Playlist.FramesNumbered | web/src/main.ts:9-11 | entry `k` carries the number `k + 1` between the prefix and the extension |
| Playlist.FramesIncreasing | web/src/main.ts:9-11 | the numbers increase along the list, so no two names are equal |
| Playlist.FramesEnds | web/src/main.ts:9-11 | the first name is `frames/frame_001.jpg` and the last is `frames/frame_010.jpg` |
| Playlist.AdvanceClosed | web/src/main.ts:20 | after `n` calls from a valid index the cursor is `(index + n) % count`, so `count` calls bring it back |
| Playlist.AddOneMod | web/src/main.ts:20 | moving on by one after a wrap is moving on by one before it |
| Playlist.Player.constructor | web/src/main.ts:7-14 | at start-up the list is built, `index` is 0 and within the list |
| Playlist.Player.NextFrame | web/src/main.ts:19-20 | `nextFrame` shows the current name, then sets `index` to `(index + 1) % frames.length`, which stays in range |
| Playlist.Shown | web/src/main.ts:19 | `n` calls show `n` names |
| Playlist.ShownAt | web/src/main.ts:19-20 | call `t` shows the name `t` places after the start, wrapping around |
| Playlist.ShownIsRotation | web/src/main.ts:19-20 | as many calls as there are names show every name once: the list rotated to begin at the start |
| Playlist.FullCycle | web/src/main.ts:19-20 | ten calls show every frame once, from the current one with wrap-around, and leave `index` where it was |

## Left out

- The Camera2 lifecycle is not modelled: opening the camera, sessions, permissions, `ImageReader` setup and the background thread are platform I/O. The listener takes an optional image in place of `acquireLatestImage()`.
- The OpenCV conversions are not modelled: `cvtColor` from NV21 to RGBA and from RGBA to gray, and the `Mat` copies. They are a foreign library. The model stops at the packed array and at whether the feature hook is called.
- CameraActivity.MainActivity.ProcessImage: takes the OpenCV conversions and `FindFeatures` to return normally. In the program, `cvtColor` at MainActivity.java:271 throws a `CvException` for odd dimensions, after the packing has succeeded. And `FindFeatures` at :277 has no native symbol under this class's package (opencvandroid.cpp:10), so its call throws `UnsatisfiedLinkError`. The model yields a processed frame in both cases.
- CameraActivity.MainActivity.OnImageAvailable: only the packing's faults are caught. A `CvException` from `cvtColor` would also be caught and logged at :176, but the model reports that frame as processed. An `UnsatisfiedLinkError` from `FindFeatures` is an `Error`, which `catch (Exception e)` lets through, so the listener itself throws. The `finally` at :178-179 still closes the image, as the model's `closed` clause says.
- The native `FindFeatures` hook is a foreign call and is represented only by whether it is called. Its JNI symbol names a different package from the Java class, which the model does not capture.
- The FPS moving average and its formatting in both apps are floating point and are left out.
- The RGBA hand-off from `processImage` to the renderer through `queueEvent` is left out.
- Concurrency is left out: `synchronized`, `queueEvent` and `runOnUiThread`. The mailbox is modelled sequentially, with the lock taken as a critical section.
- GL shader compile and link, texture parameters, attribute setup and the draw call are left out. The upload is a ghost assignment of the texture. The vertex shader is modelled only through its coordinate map, over integers because the tables hold only -1, 0 and 1.
- `MyGLSurfaceView` is a thin wrapper and is not part of this model.
- DOM updates, `performance.now()`, the `onload` handler and `setInterval` timing are left out. `StatsOverlay` is DOM writes plus float formatting.
- A `ByteBuffer` is modelled as its bytes up to the limit plus a cursor. Capacity beyond the limit, byte order and direct allocation are left out.
- GLRenderer.Renderer.UpdateTexture: the argument is an array whose limit equals its capacity, as `processImage` builds it. For such a buffer, `position(0)` followed by `put` copies all of it. A buffer with a smaller limit is not modelled.
- GLRenderer.Renderer.DrawFrame: `pendingPixelBuffer.position(0)` and `glTexImage2D`'s own checks of the buffer size are not modelled.
- `Nv21Layout` states the closed form only for images that satisfy `Regular`: at least three planes, non-negative width and height, and neither `(width / 2) * pixelStride` nor `rowStride - uvRowBytes` wrapping around. The step definition, `PackPlanes` and `PackedLayout` cover every image, wrapped stride arithmetic included.
- The loops' side effects on buffer cursors are not modelled as visible to later code. Each chroma buffer is a value that `processImage` reads; its cursor after the call is used by nothing else.
- Java's limit on array sizes, an `OutOfMemoryError` below `INT_MAX`, is not modelled. Only the negative size from wrap-around is a fault.
- Pad3 (Playlist.Pad3): for a negative `i`, only the length is stated. The script only pads 1 to 10.
- Playlist.IntToString (and Playlist.Digits, Playlist.Pad3, Playlist.Pad3Value): JavaScript numbers are doubles, and `String(i)` switches to exponent notation from 10^21 on, so the padding of 1e21 is `+21`. The model writes every integer as plain decimal digits, so its contracts match the program only for `|i| < 10^21`. The script only pads 1 to 10.
- Playlist.Player.NextFrame: an empty list cannot occur, because the list always has ten entries. The model requires the list to be non-empty instead of modelling `NaN % 0`.
