# People counter: centroid tracker and line-crossing counter

This project models the two state machines at the heart of a real-time people counter.

1. **The centroid tracker** (`CentroidTracker` in `tracker/centroidtracker.py`). It gives every detected person a stable integer id from frame to frame:
   - `registrar` files a new centroid under the next id;
   - `eliminar_registro` retires an id;
   - `actualizar` takes one frame's bounding boxes. It ages every identity when the frame has no boxes. It registers every centroid when nothing is tracked yet. Otherwise it greedily binds existing identities to their nearest new centroid, then either ages the unbound identities or registers the unbound boxes.
2. **The line-crossing counter** (`Main_contador.py:189-224`). It keeps a position history per id and takes a direction against the mean of the earlier positions. A one-shot "counted" latch per id turns an upward crossing of the middle row into an exit and a downward one into an entry. It also keeps the totals `totalUp`, `totalDown`, `move_out`, `move_in` and the "people inside" list `total` that the alert compares against its threshold.

## Layout

| file | module | what it holds |
|---|---|---|
| `basics.dfy` | `Basics` | `Option` and the duplicate-free predicate `Distinct` |
| `geometry.dfy` | `Geometry` | points, boxes, centroids truncated toward zero, squared distances, the distance gate |
| `tracks.dfy` | `Tracks` | the tracker's records, lookup by id, `registrar`, `eliminar_registro`, the ageing loop |
| `matching.dfy` | `Matching` | nearest column per row, the row order, the greedy walk, the unused columns |
| `centroid_tracker.dfy` | `CentroidTracker` | the tracker state and `actualizar` (`Update`), with its properties |
| `crossing_counter.dfy` | `CrossingCounter` | the per-identity crossing logic (`Observe`) and its bookkeeping invariant |
| `pipeline.dfy` | `Pipeline` | one frame of the counting loop (tracker update, then every returned identity observed), and runs of empty frames |

## Modelling choices

- **One record sequence for two dictionaries.** The tracker's two ordered dictionaries (`objetos`, `desaparecidos`) always have the same keys in the same order. They are modelled as one creation-ordered `seq<Track>`, where `Track(id, c, misses)`, plus `nextId`. `Valid` says the ids increase strictly along the sequence and all lie below `nextId`.
- **Orders the source leaves open are parameters.**
  - NumPy's `argsort` on the row minima is not stable. `Update` therefore takes any `rowOrder` that lists every row once in non-decreasing order of its minimum distance (`Matching.IsRowOrder`). `Matching.RowOrder` shows such an order always exists.
  - Unbound columns are registered in the iteration order of a Python `set`. `Update` takes any permutation `colOrder` of the columns and registers the unbound ones in that order.
  - `argmin` ties go to the first index, as NumPy does (`Matching.ArgMin`).
- **Exact integer geometry.**
  - Distances are squared integers. The radius `maxDistance` is a real number. A pair is admitted when `0.0 <= maxDistance` and `d² <= maxDistance²`. `Geometry.WithinIsDistanceGate` proves this agrees with comparing the Euclidean distance to the radius.
  - Sorting rows by squared minimum orders them the same way as sorting by the minimum.
  - Centroids are `int((a + b) / 2.0)`, which truncates toward zero (`Geometry.HalfTowardZero`), unlike Dafny's `/` on negative odd sums.
- **Exact direction test.** "direction < 0" is `y * n < sum` and "direction > 0" is `y * n > sum`, where `n` and `sum` cover the positions recorded before the current one. `CrossingCounter.DirectionSign` proves these are the signs of `y - mean` computed exactly.
- **Ageing as a whole, and as the source's loop.** `Tracks.Age` ages every unheld record in one pass. `Tracks.MissAll` is the source's loop, one increment and possibly one `eliminar_registro` per id. `Tracks.AgeIsLoop`, `CentroidTracker.UpdateNoBoxesIsLoop` and `CentroidTracker.UnmatchedAgeingIsLoop` prove the two give the same records, whatever order the loop visits its ids in.
- **The tracker's parameters.** Every operation takes its `Config` as a parameter: `maxDisappeared` (an integer) and `maxDistance` (a real). The constructor's defaults are 50 and 50; the counting loop builds its tracker with 40 and 50.
- **The detection step.** `Main_contador.py:141-181` supplies the frame's boxes. It fills `rects` only on frames that reuse the correlation trackers, so on every detection frame the tracker sees an empty box list and every identity misses that frame. `Pipeline.EmptyFramesKeep` and `Pipeline.EmptyFramesRetire` describe what such frames do to an identity.

## Model

| member | source | states |
|---|---|---|
| `Geometry.HalfTowardZero` | tracker/centroidtracker.py:54-55 | halving an integer sum truncates toward zero: the result is within one half of the exact midpoint, on the side of zero |
| `Geometry.Centroid` | tracker/centroidtracker.py:52-56 | each coordinate of a box's centroid is the midpoint of its two edges, exact when their sum is even and off by a half otherwise |
| `Geometry.Dist2` | tracker/centroidtracker.py:71 | the squared distance is never negative and is zero exactly for equal points |
| `Geometry.WithinIsDistanceGate` | tracker/centroidtracker.py:93-94 | the squared-distance gate admits a pair exactly when its Euclidean distance is at most a non-negative `maxDistancia` |
| `Matching.ArgMin` | tracker/centroidtracker.py:79 | a row's proposed column is nearest to it, and strictly nearer than every earlier column (ties go to the first index) |
| `Matching.RowKeys` | tracker/centroidtracker.py:75 | a row's sort key is its distance to its proposed column, and no column is nearer to that row |
| `Matching.RowOrder` | tracker/centroidtracker.py:75 | some visiting order always lists every row once by non-decreasing minimum distance |
| `Matching.Walk` | tracker/centroidtracker.py:86-104 | the greedy walk never rebinds a row, binds no column twice, and binds a row only to its own nearest column within the radius |
| `Matching.WalkSettled` | tracker/centroidtracker.py:87-104 | after the walk every visited row is bound, too far from its nearest column, or wanting a column some row already holds |
| `Matching.WalkUntouched` | tracker/centroidtracker.py:87-104 | the walk writes only the rows it visits |
| `Matching.WalkBlocked` | tracker/centroidtracker.py:89-90 | a row whose nearest column is already taken stays unbound for the rest of the walk |
| `Matching.WalkLaterLoses` | tracker/centroidtracker.py:87-104 | of two rows wanting the same column, when the one visited first is within the radius, the one visited later ends unbound |
| `Matching.WalkSettlesAll` | tracker/centroidtracker.py:87-94 | walking every row once leaves every row either bound, too far, or blocked by a taken column |
| `Matching.Greedy` | tracker/centroidtracker.py:67-104 | the association is injective on columns, binds every row only to its nearest column and only within the radius, and leaves a row unbound only when its nearest column is too far or already taken |
| `Matching.GreedyLaterLoses` | tracker/centroidtracker.py:75-104 | in the association, a row loses its nearest column to any row earlier in the row order that wants the same column within the radius |
| `Matching.GreedyPriority` | tracker/centroidtracker.py:75-104 | a row is bound to column `c` exactly when `c` is its nearest column, it is within the radius, and no row earlier in the row order wants `c` within the radius |
| `Matching.GreedyBlocker` | tracker/centroidtracker.py:89-104 | a row left unbound although within the radius of its nearest column has an earlier row that wants that column within the radius |
| `Matching.SmallerKeyFirst` | tracker/centroidtracker.py:75 | the row order visits a row with a smaller minimum distance before one with a larger minimum distance |
| `Matching.Unused` | tracker/centroidtracker.py:107-108 | the unused columns are exactly the listed columns that no row took |
| `Matching.UnusedKeepsDistinct` | tracker/centroidtracker.py:108 | the unused columns contain no column twice |
| `Tracks.Find` | tracker/centroidtracker.py:117-122 | a lookup by id returns a record with that id, and finds nothing exactly when no record has that id |
| `Tracks.Register` | tracker/centroidtracker.py:22-26 | `registrar` appends the new record with no misses after all existing ones, and with the next id it keeps ids increasing and below the next id |
| `Tracks.RegisterFind` | tracker/centroidtracker.py:22-26 | after `registrar` the new id finds the new record and every other id finds what it found before |
| `Tracks.RegisterAll` | tracker/centroidtracker.py:60-61 | registering a batch hands out consecutive ids from the next id, appends the records in input order, and advances the next id by the batch size |
| `Tracks.FreshKeepsOrder` | tracker/centroidtracker.py:22-26 | ids handed out after every existing id keep ids strictly increasing, so no id is reused |
| `Tracks.Deregister` | tracker/centroidtracker.py:28-31 | `eliminar_registro` makes the id unfindable, leaves every other lookup unchanged, and keeps only records that were there |
| `Tracks.DeregisterShrinks` | tracker/centroidtracker.py:28-31 | retiring a present id removes exactly one record and keeps the others in order |
| `Tracks.DeregisterHead` | tracker/centroidtracker.py:28-31 | retiring the oldest id leaves exactly the younger records |
| `Tracks.Age` | tracker/centroidtracker.py:112-123 | ageing never adds a record, keeps ids increasing, and keeps none below the oldest input id |
| `Tracks.AgeIds` | tracker/centroidtracker.py:112-123 | ageing creates no id: every surviving record's id was tracked before |
| `Tracks.AgeFind` | tracker/centroidtracker.py:112-123 | after ageing, a held record is unchanged and any other has gained one miss or is retired past the threshold |
| `Tracks.IncrementFind` | tracker/centroidtracker.py:38 | `desaparecidos[id] += 1` adds one miss to that id's record and changes no other lookup |
| `Tracks.MissFind` | tracker/centroidtracker.py:38-43 | one pass of the ageing loop bumps or retires its id, touches no other id, and keeps ids ordered |
| `Tracks.MissAllFind` | tracker/centroidtracker.py:37-43 | after the ageing loop over distinct ids, each visited id gains one miss, or is retired when that count exceeds `maxDesaparecidos`, and every other id is untouched |
| `Tracks.LoopKeysPresent` | tracker/centroidtracker.py:37-43 | every key the ageing loop reaches is still tracked, unchanged by the earlier passes, so its increment and removal never meet a missing key |
| `Tracks.LookupsDetermine` | tracker/centroidtracker.py:11-12 | two ordered record sequences with the same lookups are equal, so the ordered dictionaries are fixed by their contents |
| `Tracks.AgeIsLoop` | tracker/centroidtracker.py:37-43 | the source's ageing loop over the unheld ids, in any order without repeats, yields exactly the one-pass ageing |
| `CentroidTracker.Init` | tracker/centroidtracker.py:6-20 | a new tracker tracks nothing, hands out ids from 0 and is consistent |
| `CentroidTracker.NewColumns` | tracker/centroidtracker.py:107-108 | the columns to register are exactly the columns no identity took, each once |
| `CentroidTracker.Update` | tracker/centroidtracker.py:33-132 | a frame keeps the tracker consistent, never lowers the next id, and every record it returns is either an old identity or newly issued |
| `CentroidTracker.Associate` | tracker/centroidtracker.py:65-129 | the matching frame keeps the tracker consistent and returns only old identities or newly issued ones |
| `CentroidTracker.AgedTracker` | tracker/centroidtracker.py:112-123 | ageing keeps the tracker consistent, issues no id, and keeps only identities that were tracked |
| `CentroidTracker.Registered` | tracker/centroidtracker.py:127-129 | registration keeps the tracker consistent, appends fresh records after the existing ones, and advances the next id by their number |
| `CentroidTracker.UpdateNoBoxes` | tracker/centroidtracker.py:35-46 | with no boxes no id is issued, and every identity gains exactly one miss or is retired when that count exceeds `maxDesaparecidos` |
| `CentroidTracker.UpdateNoBoxesIsLoop` | tracker/centroidtracker.py:37-43 | the frame without boxes equals the source's loop over the keys in creation order |
| `CentroidTracker.UpdateFirstFrame` | tracker/centroidtracker.py:58-61 | with nothing tracked, every centroid is registered in input order under consecutive ids from the old next id, with no misses |
| `CentroidTracker.RegisteredFromNothing` | tracker/centroidtracker.py:59-61 | registering onto an empty tracker yields exactly the fresh records of the centroids |
| `CentroidTracker.NearerIdentityWins` | tracker/centroidtracker.py:75-104 | of two identities whose nearest box is the same, when the strictly nearer one is within the radius, the farther one is left unbound, and is aged or kept as it was |
| `CentroidTracker.UpdateIdentity` | tracker/centroidtracker.py:96-123 | a bound identity takes its box's centroid and resets its misses; an unbound one is aged when identities are at least as many as boxes and untouched otherwise |
| `CentroidTracker.UpdateGrowth` | tracker/centroidtracker.py:125-129 | when boxes outnumber identities, exactly the unbound boxes are registered, each once, in `colOrder`'s order, under consecutive fresh ids |
| `CentroidTracker.GrowthShape` | tracker/centroidtracker.py:125-129 | a growth frame is the rebound identities followed by the fresh records of the unbound boxes |
| `CentroidTracker.GrowthExcludesAgeing` | tracker/centroidtracker.py:110-129 | a frame that issues an id loses no identity and adds no miss to any |
| `CentroidTracker.ShrinkRegistersNothing` | tracker/centroidtracker.py:110-123 | when identities are at least as many as boxes no id is issued: the unbound boxes are dropped |
| `CentroidTracker.RetiredStaysRetired` | tracker/centroidtracker.py:22-31 | an id handed out and no longer tracked is never tracked again |
| `CentroidTracker.UnmatchedAgeingIsLoop` | tracker/centroidtracker.py:112-123 | when identities are at least as many as boxes, the frame equals the source's loop over the unbound rows, in any order |
| `CentroidTracker.RebindAgeIsLoop` | tracker/centroidtracker.py:114-123 | ageing the unbound records of a rebinding equals looping over their ids |
| `CrossingCounter.Start` | Main_contador.py:108-116 | the counter starts with no records, empty lists and zero totals, which is consistent |
| `CrossingCounter.DirectionSign` | Main_contador.py:195-196 | the integer comparisons give exactly the sign of the current y minus the mean of the earlier ys |
| `CrossingCounter.Observe` | Main_contador.py:189-224 | a first sighting files a record with one centroid and the latch clear; a later one appends the centroid and sets the latch only when it produces an event; an event happens exactly for an unlatched record moving up above the line (an exit) or, failing that, down below it (an entry); other ids are untouched |
| `CrossingCounter.ObserveTotals` | Main_contador.py:199-222 | an exit adds one to `totalUp` and appends it to `move_out`; an entry adds one to `totalDown`, appends it to `move_in`, alerts exactly when the previous `sum(total)` reached the threshold, and resets `total` to entries minus exits; no event changes nothing |
| `CrossingCounter.ObserveKeepsInv` | Main_contador.py:199-222 | one sighting keeps the list lengths equal to the totals, and the totals equal to the number of latched records |
| `CrossingCounter.LatchCount` | Main_contador.py:205 | setting one clear latch adds exactly one latched record, and anything else leaves their number unchanged |
| `CrossingCounter.ObserveAllKeepsInv` | Main_contador.py:189-224 | a sequence of sightings keeps the bookkeeping consistent, never lowers a total, and raises them by one per event |
| `CrossingCounter.AtMostOneEvent` | Main_contador.py:199-220 | over any sequence of sightings an id already counted gets no event, any other id gets at most one, and an id that gets one ends latched |
| `CrossingCounter.ObserveAllRecords` | Main_contador.py:189-224 | the recorded ids after a sequence of sightings are those before together with every sighted id, and every event is for a sighted id |
| `Pipeline.Frame` | Main_contador.py:187-224 | a frame leaves the tracker consistent |
| `Pipeline.FrameKeepsInvariants` | Main_contador.py:187-224 | a frame keeps the counter consistent, keeps every counter record on an id the tracker issued, and reports crossings only for identities the tracker returned |
| `Pipeline.Idle` | tracker/centroidtracker.py:35-46 | an empty frame issues no id and never adds a record |
| `Pipeline.IdleIsUpdate` | tracker/centroidtracker.py:35-46 | the empty frame is the tracker's update on an empty box list, in whatever order, and keeps the tracker consistent |
| `Pipeline.IdleFind` | tracker/centroidtracker.py:35-46 | after an empty frame an absent id stays absent, and a present one has gained a miss or is retired |
| `Pipeline.EmptyFramesAreUpdates` | tracker/centroidtracker.py:35-46 | a run of empty frames is a run of tracker updates and keeps the tracker consistent |
| `Pipeline.EmptyFramesKeep` | tracker/centroidtracker.py:35-46 | an identity survives `n` empty frames with `n` more misses as long as that count stays within `maxDesaparecidos` |
| `Pipeline.EmptyFramesRetire` | tracker/centroidtracker.py:35-46 | an identity whose misses would exceed `maxDesaparecidos` within `n` empty frames is gone after them |
| `Pipeline.EmptyFramesAbsent` | tracker/centroidtracker.py:35-46 | an absent id stays absent through any run of empty frames |
| `Pipeline.SingleObjectKeepsId` | tracker/centroidtracker.py:65-104 | one identity and one box within the radius: the identity keeps its id, takes the box's centroid and resets its misses, and no id is issued |

## Left out

- `utils/thread.py` (frame-grabbing thread and queue) and `utils/mailer.py` (SMTP client) are concurrency and network I/O. They are not part of this model.
- The rest of `Main_contador.py` is left out: argument parsing, config loading, Caffe detection, dlib correlation trackers, OpenCV drawing, CSV logging, the scheduler and the timer. The frame's boxes, the frame height and the alert threshold are parameters.
- The email thread and the on-screen alert are left out. An entry's alert is a boolean on the event, computed as the source computes it.
- The `out_time` and `in_time` timestamps come from the clock. They are not modelled.
- `tracker/trackableobject.py` is not part of this model. A record is taken to start with its one centroid and its latch clear, and to hold `centroids` and `counted` as the caller uses them.
- The floating-point details of `scipy.spatial.distance.cdist` and `np.mean` are replaced by exact integer comparisons. Float rounding that makes two distinct distances equal, or flips a sign, is not modelled.
- The order among rows with equal minimum distance, and the set iteration order of the unbound columns, are parameters and are not fixed.
- The caller builds its tracker with the keyword names `maxDisappeared` and `maxDistance`, and calls `ct.update` (Main_contador.py:106, 187). The class names them `maxDesaparecidos`, `maxDistancia` and `actualizar`. The model follows the class and ignores the naming mismatch.
- Tracks.Deregister: `del` on a missing key raises `KeyError` in the source (tracker/centroidtracker.py:30), while the model returns the sequence unchanged. `Tracks.LoopKeysPresent` shows the tracker never makes such a call.
- Tracks.Increment: `desaparecidos[id] += 1` on a missing key raises `KeyError` in the source (tracker/centroidtracker.py:38, 118), while the model returns the sequence unchanged. `Tracks.LoopKeysPresent` shows the tracker never makes such a call.
- Geometry.Centroid: the source computes `(a + b) / 2.0` as a double and stores it in an integer array (tracker/centroidtracker.py:49, 54-56). The model's exact truncation agrees with it only while `|a + b| < 2^53`. Wider sums and 64-bit overflow are not modelled.
- `maxDesaparecidos` is an integer in the model, although the source accepts any number. An integer miss count exceeds a real limit `x` exactly when it exceeds the floor of `x`, so a fractional limit behaves like its floor.
- CentroidTracker.Update: its own contract states consistency and where ids come from. The per-case behaviour is stated by the lemmas about it.
- Pipeline.Frame: its own contract states only that the tracker stays consistent. The counter's side is in `Pipeline.FrameKeepsInvariants`.
