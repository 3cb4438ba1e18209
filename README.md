# Smart traffic pipeline — a Dafny model

This project models the core of a traffic-monitoring service. The service reads a traffic video. It processes every tenth frame: a vehicle detector runs on the frame, the detections are counted per vehicle class (car, bus, truck, motorcycle), and the annotated frame goes into a shared preview slot. The counts are committed as a row of the `traffic_data` table, and an `update` event is broadcast only when that commit succeeds. Two read endpoints serve the 100 most recent rows and the current preview frame.

The environment is given as values:

- The video is `Missing`, `Unopenable` or `Opened(stream)`. The stream is a sequence of reads, each either `ReadFailed` or `Grabbed(capture)`.
- A capture holds the frame, what detection does on it and the clock reading used if the frame is processed. Detection either finds boxes, given by their class names (`Boxes(labels)`), or raises after the box loop has handled some of them (`Fail(handled)`). When the model call itself raises, `handled` is empty.
- The database is one success flag per attempted commit, in order of attempts. A missing flag counts as a failed commit.

Modules:

- `Wrappers` (wrappers.dfy): `Option`.
- `Detection` (detection.dfy): detect_vehicles as an imperative method, checked against reference definitions of the counters. The method's loop increments a four-key map and draws each box.
- `Pipeline` (pipeline.dfy): the `TrafficData` row, the `Update` event, and the class `TrafficApp`, whose fields are the preview slot, the table and the emitted events. Its methods model process_video. Reference functions (`Readable`, `Sampled`, `TableAfter`, `EmittedAfter`, `PreviewAfter`) give the outcome of a run, and lemmas state the run's properties.
- `Api` (api.dfy): traffic_data and video_preview as pure functions over the table and the slot.

Behaviours of `main.py` worth knowing before reading the contracts:

- A frame on which detection raises still gets a row, with all counts zero (main.py:71-73, 113-123). detect_vehicles catches the error itself and returns zeros.
- Boxes drawn before an exception stay on the frame. detect_vehicles draws in place and its handler returns the same frame (main.py:66-67, 73). The preview then shows those boxes next to zero counts (main.py:108).
- The recent-rows query fixes no order among rows with equal timestamps (main.py:158).
- The frame counter starts at 0 and is incremented before the stride test, so the frames processed are numbers 10, 20, ... (main.py:96-104).

## Model

| member | source | states |
|---|---|---|
| `Detection.CountsOf` | main.py:55-62 | the counter map has exactly the four vehicle keys, all non-negative; when detection raises it is the all-zero map of line 73 |
| `Detection.TotalOf` | main.py:69-73 | the total is non-negative, equals the number of vehicle detections (the boxes drawn), never exceeds the number of detections, and is 0 when detection raises |
| `Detection.VehicleBoxes` | main.py:61-67 | only detections with a vehicle label are drawn, and no more boxes than there are detections |
| `Detection.VehicleBoxesSnoc` | main.py:57-67 | step lemma for the drawing loop (an unfolding of `VehicleBoxes` at one more detection): it is drawn after all earlier ones exactly when its label is a vehicle class |
| `Detection.VehicleBoxesInOrder` | main.py:57-67 | drawing keeps the detector's order: the boxes of two runs of detections are drawn one run after the other |
| `Detection.VehicleBoxesMultiset` | main.py:57-67 | every vehicle detection is drawn exactly once and nothing else is drawn |
| `Detection.Annotate` | main.py:57-73 | drawing keeps the picture and its size, only adds overlays after the existing ones, and adds one overlay per vehicle box handled: as many as the total counts when detection does not raise, and the boxes drawn before the exception when it raises |
| `Detection.DetectVehicles` | main.py:52-73 | the loop that increments `class_counts` and draws each vehicle box returns exactly the reference counters, the reference total (the sum of the four values), and the frame with the vehicle boxes drawn; when something raises, it returns zeros and the frame with the boxes drawn before the exception |
| `Detection.CountsStep` | main.py:57-62 | step lemma for the counting loop: one more detection increments only its own class counter, and only if it is a vehicle, and is drawn exactly then |
| `Detection.VehicleBoxesCount` | main.py:69 | the number of boxes drawn equals car + bus + truck + motorcycle counts |
| `Detection.OccurrencesIsMultiplicity` | main.py:61-62 | each counter equals the multiplicity of its label among the detections |
| `Detection.CountsOrderIndependent` | main.py:57-69 | two detection lists with the same labels in any order give the same counters and total |
| `Detection.NonVehicleIgnored` | main.py:48 | inserting a detection with a non-vehicle label anywhere changes no counter and not the total |
| `Detection.FailIsEmptyDetection` | main.py:53-73 | a detection that raises before handling any box gives the same counters, total and frame as a detection that found nothing |
| `Detection.FailKeepsDrawnBoxes` | main.py:57-73 | a detection that raises after handling some boxes counts nothing but leaves those boxes drawn, exactly as a detection that found only them |
| `Pipeline.Processed` | main.py:106-108 | the frame stored in the preview is 640x480 and shows the picture that was read |
| `Pipeline.RecordFor` | main.py:113-121 | each row carries junction "main_junction", the frame's clock reading, the total, and for each class the number of that class's detections in its frame; its total is the sum of its four non-negative counts; a detection that raises gives an all-zero row |
| `Pipeline.UpdateFor` | main.py:125-133 | the event carries junction "main_junction", the frame's clock reading, the total and the per-class detection counts, with total = car + bus + truck + motorcycle |
| `Pipeline.Readable` | main.py:97-100 | reading stops at the end of the video or at the first failed read |
| `Pipeline.ReadableIsLeadingReads` | main.py:97-100 | the frames the loop sees are exactly the frames of the reads before the first failure |
| `Pipeline.LeadingReadsAreReadable` | main.py:97-100 | conversely, frames read one by one until the video ends or a read fails are exactly the readable frames |
| `Pipeline.Sampled` | main.py:102-104 | no more frames are processed than are read |
| `Pipeline.SampleStep` | main.py:101-104 | step lemma for the sampling loop (an unfolding of `Sampled` at one more frame): it is processed exactly when its 1-based number is a multiple of 10 |
| `Pipeline.SampledLength` | main.py:96-104 | F readable frames give exactly floor(F/10) processed frames |
| `Pipeline.SampledAt` | main.py:102-104 | the k-th processed frame (from 0) is frame number 10(k+1), counting frames from 1 |
| `Pipeline.PreviewAfter` | main.py:76-108 | with no processed frame the slot keeps its value; otherwise it holds a 640x480 frame showing the picture of the last processed frame |
| `Pipeline.PreviewAfterOverwrite` | main.py:108 | the slot keeps only the last write: processing one batch of frames and then another leaves what the second leaves, unless it is empty |
| `Pipeline.TrafficApp.constructor` | main.py:76 | at start-up the preview slot is `None` and nothing has been emitted |
| `Pipeline.TrafficApp.ProcessFrame` | main.py:106-139 | a processed frame always overwrites the preview with its annotated output; its row is appended and its event emitted if the commit succeeds, and on failure neither (rollback); the table stays well formed |
| `Pipeline.TrafficApp.ProcessSampled` | main.py:106-137 | processing the next sampled frame takes the state from the reference outcome of the frames processed so far to the reference outcome with that frame added |
| `Pipeline.TrafficApp.SamplingLoop` | main.py:96-141 | the loop's final table, events and preview are those of the reference run over the frames before the first failed read |
| `Pipeline.TrafficApp.ProcessVideo` | main.py:78-145 | a missing or unopenable video changes nothing; otherwise the table gains exactly the committed rows of the processed frames, the events exactly their events, and the preview the last processed frame's output |
| `Pipeline.OutcomeStep` | main.py:106-137 | step lemma for the sampling loop (an unfolding of `TableAfter`, `EmittedAfter` and `PreviewAfter` at one more frame): one more processed frame appends its row, numbered next, and its event exactly when its commit succeeds, and always sets the preview to its output |
| `Pipeline.TableAfter` | main.py:113-137 | a run appends exactly one row per successful commit among its attempts |
| `Pipeline.EmittedAfter` | main.py:122-137 | a run emits exactly one event per successful commit among its attempts |
| `Pipeline.TableAfterKeepsRows` | main.py:122-137 | a run never changes the rows already in the table; it only appends |
| `Pipeline.TableAfterAt` | main.py:112-137 | failure isolation: a processed frame's row is in the table whenever its own commit succeeds, whatever happened to other frames, right after the rows of the earlier successful commits and with the id that follows them |
| `Pipeline.EventOfRecord` | main.py:113-132 | a frame's event carries exactly the junction, counts and time of its row |
| `Pipeline.EventsMirrorRows` | main.py:122-137 | the events a run emits are exactly the events of the rows it appends, one to one and in the same order |
| `Pipeline.TableAfterKeepsWellFormed` | main.py:113-123 | a run keeps the table numbered by insertion and every row consistent |
| `Pipeline.TableAfterTimesBounded` | main.py:109-123 | with a clock that never runs backwards, no row a run appends is later than the clock reading of its last frame |
| `Pipeline.TableAfterInTimeOrder` | main.py:109-123 | with a clock that never runs backwards, the rows a run appends have non-decreasing timestamps |
| `Pipeline.SampledClockMonotone` | main.py:102-109 | sampling keeps frames in reading order, so a monotone clock stays monotone over processed frames |
| `Pipeline.SampledLast` | main.py:102-104 | over at least 10 frames, the last processed frame is frame number 10 * floor(F/10) |
| `Pipeline.PreviewAfterRun` | main.py:76-108 | after a run the preview holds the output of frame 10 * floor(F/10); it is unchanged, and empty from start-up, exactly when fewer than 10 frames were read |
| `Pipeline.RunCounts` | main.py:96-137 | a run makes floor(F/10) commit attempts and appends as many rows as events, one per successful commit; floor(F/10) rows when every commit succeeds |
| `Api.InsertCorrect` | main.py:158 | inserting a row into a newest-first sequence adds exactly that row and keeps the sequence newest first |
| `Api.SortCorrect` | main.py:158 | ordering by timestamp descending returns the same rows, newest first |
| `Api.TakeNewest` | main.py:158 | a limited prefix of the newest-first order leaves out no row newer than one it keeps |
| `Api.RecentRows` | main.py:158 | the query returns min(100, table size) rows of the table, newest first, and no row left out is newer than one returned |
| `Api.TrafficDataResponse` | main.py:154-170 | the response is empty on error; otherwise its items are the projections of the rows `RecentRows` returns, in that order: min(100, table size) items, newest first, no table row left out newer than an item returned, each the projection of a table row, with total = car + bus + truck + motorcycle when the table is well formed |
| `Api.VideoPreview` | main.py:172-186 | the answer is 503 exactly when the slot is `None`, 200 exactly when a frame is present and encodes, and a 200 carries the slot's frame |
| `Api.PreviewAfterProcessing` | main.py:76-108 | after a run from start-up, the preview endpoint answers 503 exactly when fewer than 10 frames could be read; otherwise a 200 carries the 640x480 output of frame number 10·floor(F/10) of the F frames read, and an encoding that fails answers 500 |

## Left out

- The YOLO model (main.py:47, 54, 58-59) is an oracle: each read carries either the class names of the boxes found or `Fail(handled)`, the boxes the loop handled before something raised. What raises (the model call, `model.names`, a conversion, a drawing call) is not distinguished.
- `Pipeline.Resize` is the stand-in for cv2.resize: it sets the size to 640x480 and keeps the picture.
- Confidences, box coordinates and the caption text `"<label> (<pct>%)"` (main.py:60, 64-67) need floating point and pixel drawing. A drawn box is modelled as its label appended to the frame's overlays.
- OpenCV work is not modelled: `VideoCapture`, pixel resizing and JPEG encoding (main.py:88, 93, 106, 179). The frame is an opaque picture id plus its size. The encoder's outcome is a parameter of `VideoPreview`.
- The frame is modelled as a value. detect_vehicles draws on the frame it was passed and returns that same object, and process_video stores a copy in the preview. The in-place drawing is observable only through the frame returned, including on the error path, and `Annotate` of `Fail(handled)` keeps the boxes drawn before the exception. An exception in the middle of drawing one box (after `cv2.rectangle` and before `cv2.putText`, main.py:66-67) is not modelled: a box is drawn entirely or not at all.
- SQLAlchemy engine, session and table creation (main.py:22-45) are storage internals. The store is the `table` sequence. A commit succeeds or fails by its flag. Ids are assigned as insertion positions 1, 2, ..., since this core never deletes rows and a rolled-back insert leaves no row.
- The query's database errors are a boolean parameter of `TrafficDataResponse`.
- `Pipeline.Sampled`: its own contract states only that no more frames are processed than are read. Which frames are processed is stated by `Pipeline.SampleStep`, `Pipeline.SampledLength` and `Pipeline.SampledAt`. The division of the exact count is kept out of the function's contract because it makes every proof about the loop much costlier.
- `Api.RecentRows`: the model computes one particular tie order. Its contract does not state it, because SQL `order_by` leaves the order of equal timestamps open.
- Flask/SocketIO transport and plumbing are not modelled: `render_template`, `jsonify`, `send_file`, the `/video-stream` passthrough and the fixed `/test-db` insert (main.py:150-152, 189-216). Socket emission is modelled as appending to the `emitted` sequence.
- `socketio.emit` (main.py:125-133) is assumed not to raise. It sits in the same `try` as `session.commit()`. If it raised after a successful commit, the row would stay in the table and no event would go out, because the rollback at main.py:137 cannot undo a finished commit. `Pipeline.EventsMirrorRows` (events one to one with the appended rows) holds only under this assumption.
- Threading and pacing are not modelled: the daemon thread, concurrent readers of the preview global, and `time.sleep(0.1)` (main.py:139, 219). The loop is modelled as single-threaded.
- Wall-clock time is an environment-supplied natural number per frame. `datetime.now()` and the `strftime` formatting (main.py:109, 132, 166) are not modelled. The event's `time` and the response's `timestamp` carry that number unformatted.
- The outer `try` of process_video (main.py:80, 144-145) is not modelled. It catches errors outside the per-frame handlers, such as a failing `Session()`. The model treats those steps as not failing.
- Logging is not modelled.
