# Parking occupancy core, modelled in Dafny

This project models the bookkeeping and fusion logic of a camera-based parking
system. The system watches twelve parking spots through a video stream, turns
detector boxes into spot ids, attaches licence-plate text read by OCR, and keeps
a locked occupancy table that the web layer reads.

The modules follow the source files:

- `ParkingStore` (`parking_state.dfy`) is the occupancy store `ParkingState` of
  `app/parking_state.py`. It is a class with a map of twelve mutable spot records
  and the two counters `available` and `occupied`. Each method is one atomic step.
  For the batch update and the three queries, the store's lock guarantees this.
  The `Spot X: Plate Y` line loop of `update_spots_from_image` takes no lock, and
  the model still treats it as atomic. For the line loop, the OCR text is an input.
- `Pipeline` (`run_pipeline.dfy`) is the detection loop of `run.py`. It covers
  `determine_spot_number` as integer arithmetic with truncation toward zero, and
  `process_detections`: the fresh twelve-spot batch, the 0.3 confidence floor,
  last-write-wins per spot, first-in-first-out hand-out of OCR strings, and the
  direct `update_parking_state` writes. It also covers the frame-skip counter and
  the three-slot `frame_buffer` with `get_latest_frame`.
- `PlateReader` (`plate_detector.dfy`) holds `clean_plate_text`, `is_valid_plate`
  and `detect_plate`. `detect_plate` checks the box, filters OCR candidates with a
  strict `prob > min_confidence`, cleans and validates them, and picks the first
  candidate of highest probability, as the stable sort does.
- `CameraStream` (`video_stream.dfy`) is the `VideoStream` of
  `detection/video_stream.py`, which `your_project/detection.py` copies. It has a
  queue of two that drops its oldest frame, and it stops at the first failed grab.
- `LatestFrameStream` (`latest_stream.dfy`) is the `VideoStream` of `test.py`. It
  has a queue of one, drained before every put. A failed grab is retried. `stop`
  releases the capture at most once. The module also holds the per-box label and
  plate gating of `main`.
- `FixedSpots` (`fixed_spots.dfy`) is the per-frame rule of
  `your_project/detection.py`. A box counts for one of six fixed rectangles only
  when it lies wholly inside that rectangle, and the last such box decides. The
  module also models the payload that `update_parking_status` posts.
- `BoundedQueue`, `PyStr` and `Wrappers` are helpers:
  - `BoundedQueue` is the drop-oldest window of a `deque(maxlen=n)`.
  - `PyStr` models the Python `str` operations the code uses. Letters, digits
    and case mapping are ASCII only. White space and line breaks follow
    Python's Unicode sets.
  - `Wrappers` holds an `Option` for Python's `None`.

These points of the code's behaviour are easy to misread; the model follows the code:

- `get_all_spots` returns a shallow copy whose values are the live spot records,
  not a deep copy. `get_spot_status` returns the live record.
- A spot can be `'empty'` and still hold a plate. This happens when a dictionary
  entry carries a truthy plate, or when a later class-0 box lands on a spot that
  already took an OCR string in the same frame. So "plate only when occupied" is
  not an invariant of the store (`MissingStatusKeepsPlate`).
- `occupied` counts the batch entries that say `'occupied'`, not the occupied
  spots in the table. The text path adds one per line, so two lines for the same
  spot count twice (`MarkedCountsLines`).
- The OCR threshold in `detect_plate` is strict (`prob > min_confidence`).
- The reader in `detection/video_stream.py` blocks on an empty queue. Only
  `test.py`'s reader returns `None`.

## Model

| member | source | states |
|---|---|---|
| `ParkingStore.ParkingState.constructor` | dp_21/dp_21/app/parking_state.py:9-14 | A new store holds spots 1..12 as distinct records, each `'empty'` with no plate; `available` is 12 and `occupied` is 0 |
| `ParkingStore.ParkingState.UpdateSpotsFromDetection` | dp_21/dp_21/app/parking_state.py:16-45 | The counters are reset, then the batch is applied entry by entry: the table becomes `ApplyBatch` of the old table, `occupied` is the number of in-table entries saying `'occupied'`, and `available + occupied == 12` |
| `ParkingStore.ParkingState.ApplyBatchEntry` | dp_21/dp_21/app/parking_state.py:25-45 | One batch entry: an id outside the table changes nothing; otherwise only that spot changes, by the dictionary or bare-string rule, and `occupied` grows by one exactly when the entry says `'occupied'` |
| `ParkingStore.ParkingState.ApplyFields` | dp_21/dp_21/app/parking_state.py:26-31 | A dictionary entry sets the status (default `'empty'`); a truthy plate overwrites the stored one, otherwise an explicit `'empty'` clears it, otherwise the old plate stays |
| `ParkingStore.ParkingState.ApplyBare` | dp_21/dp_21/app/parking_state.py:37-41 | A bare string becomes the status and clears the plate only when it is `'empty'` |
| `ParkingStore.ApplyBatchAt` | dp_21/dp_21/app/parking_state.py:24-31 | With distinct keys, each table spot gets the batch's value for it applied once; spots the batch does not name keep their record, and out-of-table ids do nothing |
| `ParkingStore.CountersInRange` | dp_21/dp_21/app/parking_state.py:20-21 | After a batch with distinct keys both counters lie in 0..12 |
| `ParkingStore.OccupiedAtMostIds` | dp_21/dp_21/app/parking_state.py:34-36 | `occupied` never exceeds the number of distinct table ids the batch names |
| `ParkingStore.MissingStatusKeepsPlate` | dp_21/dp_21/app/parking_state.py:27-31 | A dictionary without a status key makes the spot `'empty'` but keeps its plate; an explicit `'empty'` clears it; a truthy plate is stored even with status `'empty'` |
| `ParkingStore.ParkingState.GetSpotStatus` | dp_21/dp_21/app/parking_state.py:47-49 | A table id yields that spot's live record; any other id yields a new record `'unknown'` with no plate |
| `ParkingStore.ParkingState.GetAllSpots` | dp_21/dp_21/app/parking_state.py:51-53 | A new map with keys 1..12 whose values are the store's own records (a shallow copy) |
| `ParkingStore.ParkingState.GetStatus` | dp_21/dp_21/app/parking_state.py:55-62 | `total_spots` is 12, the counters are the current ones and sum to 12, and exactly twelve spot views with ids 1..12 in ascending order carry each spot's status and plate |
| `ParkingStore.ParkingState.UpdateSpotsFromText` | dp_21/dp_21/app/parking_state.py:75-88 | The line loop over the OCR text: the table becomes the outcome of the parsed lines, each in-range line moves one unit from `available` to `occupied` without a reset, and an unreadable number stops the loop with the earlier lines applied |
| `ParkingStore.ParkingState.ApplyTextLine` | dp_21/dp_21/app/parking_state.py:76-86 | One line: `Spot X: Plate Y` with X in the table marks X occupied with plate Y and adds one to `occupied`; an out-of-range X, a blank line or a line without exactly two parts changes nothing; a non-number raises |
| `ParkingStore.ParseLineShape` | dp_21/dp_21/app/parking_state.py:76-81 | Only a non-blank line with exactly one `':'` has any effect, and its plate is the stripped text after the `':'` |
| `ParkingStore.ParseSpotLine` | dp_21/dp_21/app/parking_state.py:78-81 | Parsing the line `"Spot " + n + ": " + plate` gives back the spot number `n` and the plate, for every `n` and every plate without `':'` and surrounding spaces |
| `ParkingStore.ApplyActionsAt` | dp_21/dp_21/app/parking_state.py:82-86 | After the line loop each table spot is occupied with the plate of the last line naming it, or unchanged when no line names it, including when every number is out of range |
| `ParkingStore.MarkedCountsLines` | dp_21/dp_21/app/parking_state.py:85-86 | Two lines for the same spot add two to `occupied` although one spot changed |
| `Pipeline.DetermineSpotNumber` | dp_21/dp_21/run.py:144-154 | The result is none or an id in 1..12, and an id is in 1..6 exactly when the centre lies in the top half |
| `Pipeline.TruncDiv` | dp_21/dp_21/run.py:150 | `int()` of the quotient truncates toward zero: the remainder has the dividend's sign |
| `Pipeline.ColumnsPartition` | dp_21/dp_21/run.py:149-154 | For every centre `0 <= center_x < width`, column c in 0..5 is chosen exactly when c sixths of the width are at most `center_x` and c+1 sixths are more, so each half is partitioned with no gap or overlap |
| `Pipeline.RightOfFrameNoSpot` | dp_21/dp_21/run.py:150-154 | A centre at or past the right edge maps to no spot |
| `Pipeline.LeftOfFrame` | dp_21/dp_21/run.py:150-154 | A slightly negative centre truncates into column 0 and maps to spot 1 or 7; a centre farther left maps to no spot |
| `Pipeline.FuseLastStatus` | dp_21/dp_21/run.py:105-118 | The last mapped detection for a spot sets its status (class 1 `'occupied'`, else `'empty'`); a spot no detection maps to keeps the batch default |
| `Pipeline.FuseNumbersFifo` | dp_21/dp_21/run.py:112-116 | The OCR strings are consumed from the front, one per mapped class-1 detection, while any remain |
| `Pipeline.PlateOfConsumer` | dp_21/dp_21/run.py:112-116 | The k-th mapped class-1 detection gets the k-th OCR string as its spot's plate when more than k strings exist |
| `Pipeline.PlateOfConsumerExhausted` | dp_21/dp_21/run.py:112-118 | Once the OCR strings are used up, a mapped class-1 box marks its spot occupied, leaves its plate as it was, and the list stays empty |
| `Pipeline.FuseLastPlate` | dp_21/dp_21/run.py:105-118 | Each spot's plate after the loop is the OCR string taken by its last plate-taking box, the c-th such box overall taking the c-th string; a spot given no string keeps its starting plate |
| `Pipeline.UnmappedIgnored` | dp_21/dp_21/run.py:105-109 | Detections below confidence 0.3 or mapping to no spot have no effect on the fusion |
| `Pipeline.BatchUpdatesEverySpot` | dp_21/dp_21/run.py:92-134 | The batch starts from all twelve spots, so the store applies a value to every spot and each spot takes the batch's status |
| `Pipeline.BatchOccupiedSpots` | dp_21/dp_21/run.py:92-134 | Because the batch names every spot once, the store's `occupied` after a frame is the number of spots the frame left `'occupied'` |
| `Pipeline.TwoCarsExample` | dp_21/dp_21/run.py:92-134 | Cars over spots 3 and 9 with OCR strings `"XYZ123"`, `"ABC999"` give spot 3 plate `"XYZ123"`, spot 9 plate `"ABC999"`, `occupied` 2 and `available` 10 |
| `Pipeline.UpdateParkingState` | dp_21/dp_21/run.py:231-233 | That spot becomes `'occupied'` with the given plate, no other spot changes, and the counters stay as they were |
| `Pipeline.EverySecondFrame` | dp_21/dp_21/run.py:186-189 | From a fresh counter, exactly every second received frame is processed: n frames give n/2 processed ones |
| `Pipeline.DetectionLoop.OnFrame` | dp_21/dp_21/run.py:176-189 | A missing frame is retried without counting; a received frame increments the count and is processed exactly when the count is divisible by 2 |
| `Pipeline.DetectionLoop.GetLatestFrame` | dp_21/dp_21/run.py:213-215 | The last buffered frame, or none exactly when the buffer is empty |
| `Pipeline.DetectionLoop.constructor` | dp_21/dp_21/run.py:44-50 | The loop starts with the shared store, a frame count of 0 and an empty frame buffer |
| `Pipeline.DetectionLoop.FuseBox` | dp_21/dp_21/run.py:105-122 | One box: dropped below confidence 0.3 or when unmapped; otherwise it may take the first OCR string, sets its spot's status, and writes a truthy plate straight into the store, as one fusion step specifies |
| `Pipeline.DetectionLoop.FuseAndStore` | dp_21/dp_21/run.py:92-134 | The fused batch of one frame is handed to the store: the table becomes the batch applied after the direct writes, `occupied` is counted from the batch and `available = 12 - occupied` |
| `Pipeline.DetectionLoop.FuseAll` | dp_21/dp_21/run.py:92-131 | The detection loop of one frame produces the batch, the remaining OCR strings and the store writes of the fusion specification |
| `Pipeline.DetectionLoop.ProcessDetections` | dp_21/dp_21/run.py:89-142 | The store ends as the fused batch applied to the table, with `occupied` counted from the batch and `available = 12 - occupied`; an encoded frame is appended to a buffer that never holds more than 3 |
| `BoundedQueue.Append` | dp_21/dp_21/run.py:139-140 | Appending to the buffer keeps at most its capacity, puts the new item last, and leaves the newest items of the history |
| `BoundedQueue.AppendAllIsWindow` | dp_21/dp_21/run.py:44 | However many items are pushed, the buffer holds exactly the most recent ones of everything it has seen, in arrival order |
| `PlateReader.CleanPlateChars` | dp_21/dp_21/detection/plate_detector.py:71-75 | The cleaned text contains only upper-case letters and digits |
| `PlateReader.CleanPlateFixed` | dp_21/dp_21/detection/plate_detector.py:71-75 | Cleaning leaves a text unchanged exactly when it consists of upper-case letters and digits |
| `PlateReader.CleanPlateIdempotent` | dp_21/dp_21/detection/plate_detector.py:71-75 | Cleaning twice gives the same text as cleaning once |
| `PlateReader.IsValidPlateIff` | dp_21/dp_21/detection/plate_detector.py:78-84 | A text is valid exactly when it has 4 to 10 characters, at least one letter and at least one digit |
| `PlateReader.ValidPlateExamples` | dp_21/dp_21/detection/plate_detector.py:80-84 | `"AB12CD"` is valid; `"1234"`, `""`, `"A1"` and any 11-character text are not |
| `PlateReader.SelectPlateSpec` | dp_21/dp_21/detection/plate_detector.py:17-68 | The result is `(None, 0.0)` exactly when the box is outside the image or empty, the resize width computed in exact arithmetic is 0, the OCR raised or no candidate passes; otherwise the plate is valid, its probability exceeds the threshold, and it is the first passing candidate of highest probability |
| `PlateReader.BestIsFirstMax` | dp_21/dp_21/detection/plate_detector.py:60-62 | The head of the stably sorted list has the highest probability among the passing candidates, and is the earliest of those tied at it |
| `PlateReader.EligibleEmpty` | dp_21/dp_21/detection/plate_detector.py:52-57 | `valid_plates` is empty exactly when no candidate has probability above the threshold and a valid cleaned text |
| `PlateReader.ThinCropRefused` | dp_21/dp_21/detection/plate_detector.py:35-37 | A crop 1 pixel wide and 201 high is resized to width 0, which makes the call give `(None, 0.0)` |
| `PlateReader.DetectPlate` | dp_21/dp_21/detection/plate_detector.py:17-68 | The method's checks, loop and selection compute the plate and probability that the selection specification describes |
| `PlateReader.CollectPlates` | dp_21/dp_21/detection/plate_detector.py:52-57 | The loop collects the passing candidates with cleaned texts, in OCR order |
| `PlateReader.PickBest` | dp_21/dp_21/detection/plate_detector.py:60-62 | The scan returns the same candidate as the head of the stable descending sort |
| `CameraStream.VideoStream.ProducerStep` | dp_21/dp_21/detection/video_stream.py:21-34 | A stopped stream enqueues nothing; a full queue loses its oldest frame; a failed grab then stops and releases the stream; a good grab is queued last, leaving at most 2 frames |
| `CameraStream.VideoStream.Update` | dp_21/dp_21/detection/video_stream.py:21-34 | While every grab succeeds, the queue holds the newest 2 frames of everything seen, in arrival order. At the first failed grab the stream is stopped and released once; the queue is the window of the frames before it, with the head dropped if it was full, and no later grab is queued. A stopped stream is left as it was |
| `CameraStream.VideoStream.constructor` | dp_21/dp_21/detection/video_stream.py:6-13 | A new stream has an empty queue, is not stopped and has not released its capture |
| `CameraStream.VideoStream.Read` | dp_21/dp_21/detection/video_stream.py:36-37 | The oldest queued frame is removed and returned, first in first out |
| `CameraStream.VideoStream.Stop` | dp_21/dp_21/detection/video_stream.py:39-41 | The stream is marked stopped and the capture released once more; the queue is untouched |
| `LatestFrameStream.LatestStream.Open` | dp_21/dp_21/test.py:35-54 | A capture that did not open gives the `ValueError` case; otherwise a new, open, running stream with an empty queue |
| `LatestFrameStream.LatestStream.ProducerStep` | dp_21/dp_21/test.py:62-77 | A good grab leaves exactly the new frame queued; a failed grab leaves the queue unchanged and the loop running; a set stop event ends the loop |
| `LatestFrameStream.LatestStream.Update` | dp_21/dp_21/test.py:62-77 | Until stopped, the queue holds the newest frame grabbed, if any |
| `LatestFrameStream.NewestOnly` | dp_21/dp_21/test.py:70-77 | Any number of grabs never leaves more than one frame queued, and that frame is the newest |
| `LatestFrameStream.LatestStream.Read` | dp_21/dp_21/test.py:79-83 | An empty queue gives none; otherwise the queued frame is returned and removed |
| `LatestFrameStream.LatestStream.Stop` | dp_21/dp_21/test.py:85-91 | The stop event is set and the capture is released only if still open, so it is released exactly once however often `stop` is called |
| `LatestFrameStream.ClassNames` | dp_21/dp_21/test.py:157 | Label 0 is shown as `"Empty"` and every other label as `"Occupied"` |
| `LatestFrameStream.BoxPlateGated` | dp_21/dp_21/test.py:159-163 | A plate is read only for label 1 when a plate reader exists, and any plate shown is valid |
| `LatestFrameStream.AnnotateBoxes` | dp_21/dp_21/test.py:149-167 | Each box of the results gets its class name and the plate read for it under that gating, in order |
| `FixedSpots.SpotOccupiedIff` | dp_21/dp_21/your_project/detection.py:94-107 | A spot is occupied exactly when some box inside it has label 1 and no later box lies inside it |
| `FixedSpots.NoBoxEmpty` | dp_21/dp_21/your_project/detection.py:93-111 | A spot that no box lies inside is reported empty |
| `FixedSpots.SpotsDisjoint` | dp_21/dp_21/your_project/detection.py:72-79 | The six rectangles are pairwise disjoint, so an upright box lies inside at most one of them |
| `FixedSpots.InvertedBoxInTwoSpots` | dp_21/dp_21/your_project/detection.py:104-106 | A box with swapped corners can pass the containment test of two spots at once |
| `FixedSpots.EvaluateSpot` | dp_21/dp_21/your_project/detection.py:94-107 | The two inner loops compute the occupancy of one spot from the last contained box over all results |
| `FixedSpots.ProcessFrame` | dp_21/dp_21/your_project/detection.py:93-111 | Every processed frame reports all six spots P1..P6 in order, each with its occupancy and no car number |
| `FixedSpots.PayloadStatus` | dp_21/dp_21/your_project/detection.py:50-54 | The payload is keyed by the spot id, carries the number unchanged, and says `'occupied'` exactly for `"Occupied"` and `'empty'` otherwise |
| `FixedSpots.NextFrame` | dp_21/dp_21/your_project/detection.py:83-86 | Reads the oldest frame, then lets the producer run at most one step before the size test; the frame is skipped exactly when the queue held two frames, the stream was running and a good frame was put in between |
| `FixedSpots.EvaluateFrame` | dp_21/dp_21/your_project/detection.py:93-111 | For each spot of the table, in order, the payload carries the spot id, its occupancy from the last contained box, and no car number |

## Left out

- Threads, the store's lock, `Event`, daemon threads and thread joins are not modelled. Each locked method is one atomic method, and each producer loop is a sequence of single steps whose grab results are inputs.
- `ParkingStore.ParkingState.UpdateSpotsFromText`: `update_spots_from_image` takes no lock, but the model treats its loop as atomic. A concurrent `update_spots_from_detection` could reset the counters between its `occupied += 1` and `available -= 1`. So `available + occupied == 12` is kept only when no other update runs at the same time.
- `FixedSpots.NextFrame`: at most one producer step is modelled between the read and the size test. More steps could happen in that window, but the queue would still hold at most two frames.
- `CameraStream.VideoStream.Read`: the source blocks on an empty queue until a frame arrives. The model returns none and changes nothing.
- `PlateReader.ResizeWidth`: computes `min(200, h) * w / h` in exact integer arithmetic. The source computes `int(height * (w / h))` in floating point, and rounding can give 0 where the exact value is 1. For example, w = 1 and h = 49 gives 0.9999999999999999, which truncates to 0. For such crops the source's resize raises and `detect_plate` returns `(None, 0.0)`, while the model goes on to read the OCR candidates.
- `PlateReader.SelectPlateSpec`: its "resize refused" condition is the exact-arithmetic width being 0. Crops 1 pixel wide whose float width rounds down to 0 (heights 49, 98, 103, 107, 161, 187, 196 and 197, among others) are refused by the source but not by the model.
- `Pipeline.DetermineSpotNumber`: uses exact rational arithmetic, so floating-point rounding of `center_x / width * 6` is not modelled. It requires a positive frame width; a zero width would raise `ZeroDivisionError`, which a captured frame never has.
- OpenCV, easyocr and pytesseract are not modelled: resize, colour conversion, thresholding, `readtext`, `image_to_string`, `imshow`, `waitKey` and JPEG encoding. Their results are inputs: OCR candidate lists, OCR strings, the OCR text, and an optional encoded frame.
- The YOLO detector and model loading are not modelled. Detections are given as boxes with class and confidence.
- Timing and pacing are not modelled: `time.sleep`, `target_fps`, read timeouts and retry delays.
- Network and messaging are not modelled: `requests.post` and `socketio.emit`. Only the payload that `update_parking_status` builds is modelled.
- The Flask routes, sessions, user table, browser scripts and the `/update_parking` merge are not part of this model.
- Drawing boxes and text on frames and printing are not modelled.
- Module-level script side effects are not modelled: opening the webcam at import and the `main()` start-up returns.
- The `detect_plate` model treats any exception raised inside the OCR call as an OCR result of `None`, which gives `(None, 0.0)`. Other OpenCV failures are not distinguished.
- Python's `int()` is modelled for a sign, decimal digits and single underscores between digits; other Unicode digits are not. `isalnum`, `isalpha`, `isdigit` and `upper` are modelled over ASCII; `strip` and `splitlines` use Python's Unicode white-space and line-break sets.
