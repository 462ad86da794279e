# Plicker session tally

A model of the live classroom-response reader's session state. The reader
streams webcam frames, a detector turns each frame into a list of results
(student name, answer option code), and the server keeps an insertion-ordered
dictionary `detected_students` from student name to `{first, last}` option. A
name that is new is admitted only while the dictionary holds fewer entries
than the session's `student_count`. A name already present has only its
`last` option overwritten. A new name arriving when the dictionary is full is
dropped. The `start_stream` event sets the count, resets the dictionary and
raises the "stream active" flag. The `stop_stream` event lowers the flag and
broadcasts a snapshot of the dictionary.

- `tally.dfy`, module `Tally`: the rule on values. `Admit` applies one result
  to a `Table` (ordered keys plus a map) and `AdmitAll` applies a sequence of
  results. Beside them is an independent reference description of the outcome:
  `FreshNames` (new names in order of first appearance), `FirstCode` and
  `LastCode`. Lemmas connect the two.
- `session.dfy`, module `Session`: the process-wide state as a class
  `Session` whose fields the start/stop handlers and the capture loop update
  in place. `ProcessFrame` is the `for result in results` loop. `Stream` is
  the `while stream_active` capture loop over a given sequence of frames.

The dictionary's length `len(detected_students)` is the length of the key
order `|keys|`. `WellFormed` makes the key order list each key of the map
exactly once, and `KeysCountEntries` proves that the two lengths then agree.

## Model

| member | source | states |
|---|---|---|
| `Tally.Admit` | app.py:234-239 | Only the entry named by the result can change; every other entry and its presence stay the same. A present name keeps its place, its `first` and the size, and only `last` becomes the code. A new name with room left is appended at the end with `first == last == code`. A new name when `|keys| >= student_count` leaves the table unchanged. The table stays well formed. |
| `Tally.AdmitAll` | app.py:234-239 | Applying a batch of results keeps the table well formed. Old keys keep their positions, because the old key order is a prefix of the new one. No entry is removed, and no recorded `first` is overwritten. |
| `Tally.AdmitAllKeys` | app.py:234-239 | After a batch, the key order is the old keys followed by the new names in the order they first appeared. The new names are cut off at the room that was left (`student_count - len`). So key order is the order of first admission. |
| `Tally.AdmitAllEntries` | app.py:235-239 | After a batch, each entry's `first` is its old `first`, or for a newly admitted name the code of that name's first result. Its `last` is the code of that name's last result in the batch, or its old `last` if the name did not occur. A newly present name must have occurred. |
| `Tally.AdmitAllDropped` | app.py:236-237 | A name that occurred but is absent afterwards was dropped because the table was full, and the table is still full. |
| `Tally.DroppedStaysOut` | app.py:235-237 | A name dropped for lack of room is never admitted later in the same session, whatever results follow. |
| `Tally.KeysCountEntries` | app.py:236 | For a well-formed table, the length of the key order equals the number of entries, so `|keys|` is `len(detected_students)`. |
| `Tally.AdmitAllBound` | app.py:236-237 | A batch never grows the table beyond the larger of its old size and the student count. |
| `Tally.AdmitAllConcat` | app.py:218-239 | Splitting the results into per-frame batches does not change the outcome: one batch after another equals their concatenation. |
| `Tally.SessionTally` | app.py:275-276 | Starting from the empty dictionary that `start_stream` creates, the tally is well formed and holds at most `max(student_count, 0)` students. Its keys are exactly the first `student_count` distinct names, in order of appearance. |
| `Tally.SessionMembership` | app.py:235-237 | From the empty dictionary, a name is in the tally exactly when it is among the first `student_count` distinct names. Only names that occurred are present. If at most `student_count` distinct names occur, all of them are present. |
| `Session.EmittedCounts` | app.py:242-247 | Each payload the loop would send carries the student count as `total_count`. Its `unique_count` is at most the tally's size at the end and at most `max(student_count, 0)`. The counts never decrease from one payload to the next. |
| `Session.Session.constructor` | app.py:18-21 | Process start: count 0, stream inactive, empty tally. |
| `Session.Session.Start` | app.py:270-277 | `student_count` becomes the given count with no range check. The tally becomes empty and the stream becomes active. The class invariant, including the capacity bound, is established. |
| `Session.Session.Stop` | app.py:279-283 | The stream becomes inactive. The returned snapshot equals the tally. Only the flag changes, so the tally and the count are left as they were. |
| `Session.Session.ProcessFrame` | app.py:234-247 | The in-place loop leaves the tally equal to `AdmitAll` of the old tally with that frame's results, and it keeps the capacity bound. The payload carries the results, `unique_count` equal to the tally's size after aggregation, and `total_count` equal to the student count. |
| `Session.Session.Stream` | app.py:218-252 | While active, the capture loop aggregates each frame's results in order. The payloads it emits are exactly `Emitted`: one per detected frame whose encoding succeeded, in frame order. Each payload carries that frame's results and the tally's size right after that frame. An encoding failure does not roll back the aggregation. Each emitted `unique_count` is at most `max(student_count, 0)`, and the counts never decrease from one payload to the next. When inactive, nothing changes and nothing is emitted. |

## Left out

- Camera capture, including the fallback from device 0 to device 1 (app.py:202-210). This is I/O through a foreign library. A frame the camera fails to deliver is the `Unread` frame, which changes nothing.
- The detection and encoding routines `process_frame` and `encode_frame`. They live in `utils`, which is not part of this model. The detector's output is an arbitrary sequence of (name, code) results. A failure of either routine appears as `DetectFailed` (before aggregation) or as `Detected(results, false)` (after aggregation, no payload).
- The `distance` value of each result. It is floating point and the tally never reads it.
- The encoded image in the payload, `socketio.emit`, `socketio.sleep`, `start_background_task` and the threading model. These are transport and concurrency. The handlers and the capture loop share state without synchronisation. A `start_stream` that arrives while a stream is active starts a second capture loop. A `stop_stream` takes effect only at the next loop test. The model runs the handlers and the loop one at a time.
- `int(data['count'])` failing on a non-numeric payload. The handler then raises before changing any state. `Start` takes an already converted integer, of any sign. A count `<= 0` admits nobody.
- Result dictionaries that lack `'name'` or `'code'`. In the source these abort the loop partway through. The typed `Detection` rules them out.
- Logging, frame counting and the inline HTML/JavaScript page (app.py:25-197). The page's own client-side tally has no capacity check. It is not the server's rule.
- The stop snapshot is a value. The source's `dict(...)` copy shares the inner `{first, last}` dictionaries with the live tally. This is not observable, because the snapshot is serialised at once.

`handle_start_stream` accepts any integer count (app.py:273). Stop keeps the
map, and only the next start resets it (app.py:275, 282-283).
