# Kinect position-to-REST capture loop, modelled in Dafny

The program reads skeletal tracking results from an Azure Kinect body tracker once per cycle.
For each detected body it records the id and the pelvis position. It also computes a
"both hands raised" flag, which only decides whether the pelvis is echoed to the console.
It collects the bodies of the cycle into a timestamped `BodyTracking` snapshot. When the
snapshot holds at least one body, it serializes the snapshot with `BodyTracking::JSONOut`
and POSTs the document to a fixed endpoint.

The model has five modules:

- `Kinect` (kinect.dfy): what the SDK returns. This covers the wait results, the four joints
  that are read, and the per-body skeleton fetch result. It also defines `uint32`/`int64` for the
  source's integer widths.
- `Decimal` (decimal.dfy): `std::to_string` of the timestamp, and a parser that reads it back.
- `Tracking` (body_tracking.dfy): the `BodyTracking` class. This covers construction with a
  given clock reading and `push_back`. It models `JSONOut` exactly as written: each element
  followed by a comma, then `pop_back`, then `]}`. It also holds the reference join and the
  properties of the join-then-strip idiom.
- `Extraction` (extraction.dfy): the per-body loop of `main` (main.cpp lines 103-133): the
  gesture rule, the pelvis record, and the loop itself as a method.
- `Cycle` (cycle.dfy): one iteration of the capture loop as a function, and the loop as a
  function from a sequence of iteration inputs to the observed events. Events are a POSTed
  document, the shutdown sequence, or `exit(1)`. The `do`/`while`/`break` loop is also
  written as a method and proved equal to that function.

`JSONOut` is a pure function of the snapshot's `time` and `bodies`, so it cannot modify either.
No operation of the model changes a snapshot's `time` after `New`.

Points where the code may surprise a reader, all modelled as written:

- Body ids are not checked for uniqueness within a snapshot. Repeated ids are kept
  (`Extraction.DuplicateIdsAreKept`).
- An empty snapshot does not serialize to `"bodies": []`. The as-written `JSONOut` produces
  `"bodies": ]}`, and only the caller's non-empty guard keeps that from being sent.
- The timestamp is read when the snapshot is constructed, at the top of each iteration
  (main.cpp line 71). That is before the blocking capture wait.
- Besides the capture wait and the result pop, the loop also checks the enqueue call's result.
  A timeout or failure at any of the three calls `break`s out of the loop, and the shutdown
  calls run once.
- A failed skeleton fetch inside the body loop does not break. It exits the process with status
  1 through `VERIFY`, and the shutdown calls are skipped.

## Model

| member | source | states |
|---|---|---|
| `Extraction.RaisedIffLowerWristAboveHead` | main.cpp:113-115 | Both hands count as raised exactly when even the lower wrist is strictly above the head, with y pointing towards the ground |
| `Extraction.OneHandOrLevelWristIsNotRaised` | main.cpp:114-115 | One raised hand, or a wrist exactly level with the head, gives a false flag |
| `Extraction.RaisedDependsOnlyOnWristAndHeadHeights` | main.cpp:109-115 | The flag reads only the heights of the two wrists and the head; pelvis and sideways or depth positions do not affect it |
| `Extraction.RaisedTruthTable` | main.cpp:113-115 | With the head at 0: both wrists at -1 is raised; wrists at -1 and 1, both at 1, or one at 0 are not |
| `Extraction.ToBodyPositionKeepsIdAndPelvis` | main.cpp:117-124 | The pushed record carries the body's id and the pelvis coordinates, and both can be read back from it |
| `Extraction.ExtractBodies` | main.cpp:100-133 | The body loop succeeds exactly when every skeleton fetch succeeds. The snapshot then keeps the cycle's time and holds exactly one record per body, in index order, with the body's id and pelvis. The snapshot is what pushing those records onto a fresh `BodyTracking` gives, and the result equals the declarative `ExtractFrame` |
| `Extraction.SnapshotIgnoresGesture` | main.cpp:113-131 | Two frames that agree on ids and pelvis positions yield the same snapshot whatever their wrists and heads: the flag never changes the snapshot |
| `Extraction.HighlightsAreRaisedPelvises` | main.cpp:128-131 | The positions echoed to the console are exactly the pelvises of the bodies whose hands are both raised: each echoed position is one, and each such body's pelvis is echoed |
| `Extraction.DuplicateIdsAreKept` | main.cpp:119-126 | Two bodies with the same id both land in the snapshot, in order; nothing is filtered or de-duplicated |
| `Tracking.PushAllAppends` | BodyTracking.h:10-12 | A sequence of `push_back` calls appends the records in order and leaves the timestamp unchanged |
| `Tracking.PushAllFromNew` | BodyTracking.h:12-14 | A freshly constructed snapshot after pushes holds exactly the pushed records, repeats included, and the construction time |
| `Tracking.JSONOut` | BodyTracking.cpp:6-20 | Every output starts with the `{"timestamp": T, "bodies": ` header of the snapshot's own time and ends with `]}` |
| `Tracking.CommaTerminatedIsJoinPlusComma` | BodyTracking.cpp:11-16 | For at least one element, appending a comma after every element equals the comma-separated join plus a single trailing comma, which `pop_back` then removes |
| `Tracking.JSONOutNonEmpty` | BodyTracking.cpp:8-17 | For one body or more the output is the header, `[`, the element texts in list order joined by single commas, and `]}`, which equals the empty-check-first serializer |
| `Tracking.JSONOutEmpty` | BodyTracking.cpp:9-17 | For no bodies `pop_back` strips the `[` itself: the output is the header followed by `]}` and has no array |
| `Tracking.JSONOutWellShapedIff` | BodyTracking.cpp:6-20 | The as-written output has an array for its bodies value exactly when the list is non-empty |
| `Tracking.EmptySnapshotIsMalformed` | BodyTracking.cpp:16-17 | The empty snapshot at time 0 renders as `{"timestamp": 0, "bodies": ]}`, unlike the intended `[]` |
| `Tracking.JSONOutLength` | BodyTracking.cpp:11-16 | For n bodies (n at least 1) the output holds the header, the element texts, the brackets and brace, and exactly n - 1 separator commas |
| `Tracking.JSONOutNoTrailingComma` | BodyTracking.cpp:11-17 | For at least one body the array text begins with the first body's element text and ends with the last body's: no comma leads or trails |
| `Tracking.JSONOutIntended` | BodyTracking.cpp:6-20 | The corrected serializer always produces an array for the bodies value, and `[]` for the empty list |
| `Tracking.TimestampRoundTrip` | BodyTracking.cpp:4-8 | Reading the timestamp back from any `JSONOut` output gives the value fixed at construction, for every list of bodies |
| `Decimal.IntToString` | BodyTracking.cpp:8 | `std::to_string` yields a non-empty text of digits with a leading minus sign exactly for negative values |
| `Decimal.IntToStringRoundTrip` | BodyTracking.cpp:8 | Parsing the decimal rendering of any integer gives the integer back |
| `Decimal.IntToStringInjective` | BodyTracking.cpp:8 | Distinct timestamps render as distinct texts |
| `Cycle.RunCycle` | main.cpp:71-183 | An iteration breaks exactly when one of the three waits does not succeed, and it then reports a non-success result. It exits exactly when the waits succeed but a skeleton fetch fails. When it completes, its snapshot holds the iteration's clock reading and one record per body, and it sends exactly when the frame has a body |
| `Cycle.SentDocumentIsWellShaped` | main.cpp:172-180 | Thanks to the non-empty guard, every sent document is the well-shaped serialization of that iteration's snapshot and reports its clock reading |
| `Cycle.Run` | main.cpp:69-194 | A run yields at most one event per iteration. Every event but the last is a POST, and an exit always has status 1 |
| `Cycle.CompletedRunSendsNonEmptySnapshots` | main.cpp:172-185 | While every iteration completes, the run POSTs exactly one well-shaped document per non-empty snapshot, in iteration order, and nothing else |
| `Cycle.RunComposes` | main.cpp:69-71 | No state crosses iterations: after completed iterations, the rest of the run behaves as if it ran alone |
| `Cycle.FirstFailureEndsRun` | main.cpp:75-194 | The first iteration that does not complete ends the run with nothing sent for it or after it. A failed wait leads to one shutdown; a failed skeleton fetch leads to `exit(1)` without shutdown |
| `Cycle.Iteration` | main.cpp:71-183 | The statement-by-statement loop body computes the same outcome as `RunCycle` |
| `Cycle.MainLoop` | main.cpp:69-194 | The `do`/`while (true)` loop with its `break`s and the shutdown after it produces exactly the events of `Run` |

## Left out

- Device and tracker setup and teardown calls (`k4a_device_*`, `k4abt_tracker_*`, main.cpp lines 49-66 and 191-194) are foreign library calls. Setup failures exit before the loop. The teardown calls are one `Shutdown` event.
- Capture and frame release (`k4a_capture_release`, `k4abt_frame_release`) are resource handling with no effect on the data.
- The HTTP client is left out. A POST is the event `Sent(doc)`. The request method, the `application/json` header and the endpoint URL are deployment details. The response is never inspected by the program, so it is not modelled either.
- `BodyPosition.h` and `BodyPosition::JSONOut` are not part of this model. The element serializer is the parameter `elem`, and its format is not assumed.
- Single-precision coordinates are modelled as `real`, and their text formatting is not modelled.
- A skeleton has many more joints than the four the loop reads. Only pelvis, both wrists and head are modelled.
- `std::time(0)` is the per-iteration input `clock`. Clock monotonicity across iterations is not enforced by the program and is not modelled.
- Console output is left out: `printf`, `std::cout`, cursor positioning, and the pelvis echo. The echo is kept only as the list of echoed positions.
- `Sleep(1000)` is timing only.
- `frame_count` feeds only a commented-out diagnostic.
- The loop never ends on its own. A finite input models a prefix of its iterations, and running out of input means the loop is still waiting.
- `Tracking.JSONOutNoTrailingComma`: states the absence of a trailing comma through the first and last element texts rather than by characters, because the element format is not modelled.

## Findings

| source | as written | input that shows it | evidently intended | confidence | as-written member | corrected member |
|---|---|---|---|---|---|---|
| BodyTracking.cpp:16-17 | `pop_back` after the element loop removes the opening `[` when the list is empty, giving `{"timestamp": T, "bodies": ]}` | a `BodyTracking` with no bodies, e.g. `New(0)` | the bodies value is `[]` for an empty list; main.cpp line 172 only serializes non-empty snapshots, so the loop never sends the malformed text | high for `JSONOut` on its own, unreachable from `main`; not executed | `Tracking.EmptySnapshotIsMalformed` | `Tracking.JSONOutIntended` |
