# Camera coordinator of a Raspberry Pi picture-taking server, in Dafny

The server in `app.py` shares one camera between HTTP clients. This project
models its three core pieces:

- **The camera manager** (`CameraManager`, module `Camera`). It is a class
  with the fields `isActive` and `camera`. Its methods `Start`, `Stop`,
  `GetFrame` and `CaptureFile` each run as one atomic step, which is what the
  lock in app.py gives them. The camera hardware is abstract. The caller passes
  in what the device does on each call: the serial of the handle it opens,
  the step that raises (if any), and the frame it captures. A ghost log
  `calls` records, in order, every device operation the manager issues. The
  invariant `Valid()` is `isActive ==> camera != None`. Every method keeps it.
- **The video feed loop** (`generate_frames`, module `Streaming`).
  `GenerateFrames` takes the successive results of `get_frame` as a
  sequence. Colour conversion plus JPEG encoding is an abstract `Encoder` that
  may fail. The method returns the chunks the generator yields. It is proved
  equal to the recursive definition `Stream`, and the lemmas about `Stream`
  state what the feed promises.
- **The capture session** (the inner `generate` of `capture_photos`, module
  `Capture`). `RunSession` takes `count`, the successive `get_frame` results
  and the timestamps the clock gives. It returns one trace of `Step`s, in the
  order they happen: each `capture_file` call (`WriteImage(path)`) and each
  event yielded (`Report(Progress(n))`, `Report(Done)`). `EventText` gives the
  server-sent-event text of each event, and `ParseEvent` reads it back.
  `FileName` builds `static/captured_images/image_<timestamp>_<i>.jpg`, with
  `i` written by `Decimal.Show` as Python's `str` writes it.

Three behaviours of app.py that a reader might not expect:

- **Done after an abort.** The `break` at app.py:133 only leaves the `for`
  loop, so the `done` event at app.py:141 also follows an aborted session.
  `RunSession` ends with `Done` in both cases, and `AbortedSessionOfFive`
  shows the aborted case.
- **Partial state after a failed start.** `self.camera` is assigned at
  app.py:29 before `configure` and `start` run at app.py:30-34. If either of
  those raises, the manager is inactive but still holds a handle. `Start`
  models this (`FailedHandle`). A later `stop` then returns false and keeps
  that handle, and a later `start` replaces it without closing it.
- **File name order.** Within one timestamp, names sort in capture order only
  for indices below 10, because the index at app.py:136 is not padded
  (`NamesSortedBelowTen`). `TenSortsBeforeTwo` shows the first case where the
  order breaks.

## Model

| member | source | states |
|---|---|---|
| `Camera.CameraManager.constructor` | app.py:20-23 | a new manager is inactive, holds no handle and has issued no device operation |
| `Camera.CameraManager.Start` | app.py:25-39 | when active: returns false and changes neither the flag, the handle nor the device. When inactive: an open, configure and run that all succeed return true, leave the manager active with the new running handle, and issue exactly those three operations. The configuration applied is `PreviewFor(config)`: the given settings when they are present and non-empty (Python's truth test on a dict), else the device default. A raising step leaves the manager inactive, keeps the handle assigned before the fault, and issues the operations up to that step. `Valid` is kept either way |
| `Camera.CameraManager.Stop` | app.py:41-51 | when inactive: returns false and changes nothing, even if a handle is left over. When active: halt and close issued, the manager inactive, the handle dropped, and true returned. A raising halt or close leaves the manager active with its handle. `Valid` is kept |
| `Camera.CameraManager.GetFrame` | app.py:53-57 | returns absence exactly when inactive, and the captured frame when active. Only an active manager touches the device. The flag and the handle are unchanged |
| `Camera.CameraManager.CaptureFile` | app.py:59-62 | when active, the device is asked to write its image to exactly that path. When inactive there is no effect. The flag and the handle are unchanged |
| `Camera.StartTwice` | app.py:25-39 | two starts without a stop between them return true then false, open the device once, and keep the first start's handle |
| `Camera.AvailableFramesIsFirstAbsence` | app.py:129-133 | the frames before `AvailableFrames(s)` are all present, and the one at that index, if any, is absent |
| `Camera.AvailableFramesExact` | app.py:129-133 | an index with only present frames before it and an absence (or the end) at it equals `AvailableFrames` |
| `Streaming.GenerateFrames` | app.py:79-94 | the feed loop yields exactly `Stream(frames, encode)`, the recursive definition of the feed: for each frame result in turn, stop at an absent frame, skip a frame that fails to encode, else yield `Chunk` of its encoding. It yields at most one chunk per frame before the first absent one |
| `Streaming.UnframeChunk` | app.py:89 | a chunk (`Chunk`) is the part header `--frame\r\nContent-Type: image/jpeg\r\n\r\n`, the encoded image and CRLF, and `Unframe` recovers the image from it |
| `Streaming.StreamStopsAtAbsence` | app.py:90-93 | nothing after the first absent frame is yielded: `Stream(p + [None] + q) == Stream(p)` |
| `Streaming.StreamAppend` | app.py:82-94 | over a run of present frames the feed handles each frame independently, so the stream of the whole is the streams of the parts, concatenated |
| `Streaming.StreamSkipsFailedEncode` | app.py:86-88 | a frame that fails to encode is skipped and the stream goes on with the next frame |
| `Streaming.StreamLength` | app.py:82-93 | the number of chunks is at most the number of frames before the first absent one |
| `Streaming.StreamChunksFramed` | app.py:84-89 | every chunk is well framed, and its image is the encoding of a frame from before the first absence |
| `Capture.RunSession` | app.py:122-141 | the trace is `SessionTrace(stamps, k)`, where k is the number of frames present before the first absence, capped at `max(count, 0)`. Its events are `Progress(1) ... Progress(k)` then `Done`, its `capture_file` paths are `FileName(stamps[i], i)` for each `i < k`, and `Done` is the last step whether the loop completes or breaks |
| `Capture.CapturedCount` | app.py:129-133 | k is at most `max(count, 0)`, and every frame before index k is present. k equals that bound exactly when every frame request succeeds. Otherwise the frame at index k is absent, so k is the index of the first absent frame |
| `Capture.NoAttemptsOnlyDone` | app.py:129-141 | with `count <= 0` the session reports only `Done` |
| `Capture.SessionEventsShape` | app.py:129-141 | the progress values are 1, ..., k in strictly increasing order, followed by exactly one `Done`, which is last |
| `Capture.SessionReports` | app.py:138-141 | the events a session trace yields are `Progress(1) ... Progress(k)` then `Done` |
| `Capture.SessionWrites` | app.py:135-137 | a session trace makes one `capture_file` call per index `i < k`, with `FileName(stamps[i], i)`, in index order |
| `Capture.SessionTraceLayout` | app.py:129-141 | iteration j first calls `capture_file` with `FileName(stamps[j], j)` and then yields `Progress(j + 1)`. `Done` follows the last iteration |
| `Capture.ProgressCountsWrites` | app.py:137-138 | the report of iteration j is `Progress(j + 1)`, and exactly j + 1 `capture_file` calls come before it in the trace (with `SessionTraceLayout`, every other step is a write or the final `Done`) |
| `Capture.IterationsPrefix` | app.py:129-139 | the steps of the first i iterations are a prefix of the steps of the first k, for i <= k |
| `Capture.FullSessionOfFive` | app.py:129-141 | five successful frame requests give progress 1 to 5, then `Done` |
| `Capture.AbortedSessionOfFive` | app.py:129-141 | an absent third frame gives progress 1 and 2, then still `Done` |
| `Capture.FileIndexOfFileName` | app.py:123-136 | a capture path (`FileName`) is `static/captured_images/image_<timestamp>_<i>.jpg`, and `FileIndex` reads the index back from it |
| `Capture.FileNameInjective` | app.py:135-136 | captures with one timestamp and different indices go to different files |
| `Capture.NamesSortedBelowTen` | app.py:135-136 | with one timestamp, names for indices below 10 sort lexicographically in capture order |
| `Capture.TenSortsBeforeTwo` | app.py:135-136 | the name for index 10 sorts before the name for index 2 |
| `Capture.ParseEventText` | app.py:138-141 | the text `EventText` gives each event (`data: <n>\n\n`, or `event: done\ndata: Capture complete\n\n`) reads back as that event through `ParseEvent` |
| `Decimal.Show` | app.py:136-138 | the numeral of an index is non-empty, digits only, without a leading zero, and one digit long exactly for values below 10 |
| `Decimal.ReadShow` | app.py:136-138 | reading a numeral gives back its number |
| `Decimal.ShowInjective` | app.py:136-138 | distinct numbers have distinct numerals |

## Left out

- Flask routing, `Response`, `stream_with_context`, CORS, `app.run` and the download and delete routes (app.py:96-112, 143-204): HTTP plumbing and file-system I/O. The feed and the session return their chunks and events as sequences instead of yielding them over HTTP.
- The `camera_manager.start()` calls at the top of both generators (app.py:81, 127): they are `Start`, modelled on its own. The loop models begin after it returns. A start that raises there ends the generator before any chunk or event, and that path is not part of the loop models.
- `os.makedirs` (app.py:124): file-system I/O.
- `Picamera2` and its `create_preview_configuration`, `configure`, `start`, `stop`, `close`, `capture_array` and `capture_file`: a foreign hardware library. It is replaced by the parameters described above and the ghost log of `DeviceCall`s. Only the device steps inside the manager's `start` (opening the device, `configure`, `start`) and `stop` (`stop`, `close`) may raise. A raising `capture_array` or `capture_file` is not modelled.
- `cv2.cvtColor` and `cv2.imencode` (app.py:85-86): a foreign image codec, represented by the abstract `Encoder`.
- `threading.Lock` and concurrent requests (app.py:22, 26, 42, 54, 60): each manager method is one atomic step. A stop issued by another request between two calls of a loop shows up only as an absent frame in the loop's input.
- A stop that lands between a session's frame request (app.py:130) and its `capture_file` (app.py:137) is not modelled. There `capture_file` does nothing (app.py:61) but `Progress(i + 1)` is still yielded (app.py:138). A `WriteImage` step therefore records a `capture_file` call, not a written file, and a progress value counts calls, not files.
- `time.sleep` and `datetime.now` (app.py:36, 94, 135, 139): timing and the clock. Timestamps are input strings, one per iteration.
- `print` calls: console output.
- `request.args` parsing (app.py:121): `count` is an `int` parameter.
- Streaming.GenerateFrames: `while True` keeps pulling frames forever while the camera stays on. The model pulls from a finite input and also ends when that input runs out.
- Capture.RunSession: requires at least `count` frame results and timestamps. This stands for the camera and the clock answering every request the loop can make, and the loop never reads past the first absence.
