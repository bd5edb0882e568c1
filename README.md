# Solar system simulation: a verified model of its bookkeeping

The repository is a solar system simulation written in C with MPI. It has a
small task framework and two Python plotting scripts. Each rank of the run owns
a stride of the body slots. Rank 0 resolves every collision. The other ranks
report the colliding pairs they find as integer codes. Asteroids that shatter
and comets that arrive take new slots.

This project models the integer, index and state bookkeeping of that program
and proves what the code promises about it. The floating-point physics is kept
only where a collision rule needs it, over `real`.

One module per component:

| module | file | models |
|---|---|---|
| `CInt` | cint.dfy | C's truncating `/` and `%` (Dafny's are Euclidean) |
| `Text` | text.dfy | `strchr`, `strstr`, `atoi` and `sprintf("%d")`; Python's `split` and `join` |
| `Bodies` | bodies.dfy | the body record, the type tags and their codes, the sizing constants |
| `Support` | support.dfy | `src/simulation_support.c`: the collision test, the per-pair collision rules, the elastic update, `split_asteroid`, `random_comet` |
| `Partition` | partition.dfy | the slices of `update_thread`/`update_worker`, the mirrored scan slices, the gather arrays |
| `Reports` | reports.dfy | the pair code; the peer-side scan; the doubling request buffer; the message streams and rank 0's drain loop |
| `Resolution` | resolution.dfy | `handle_collision` and `comet_invade` as functions on the slots and counters; rank 0's scan and the resolution of reports |
| `Simulation` | simulation.dfy | the globals of `src/main.c` as a class, with methods for the steps that change them, proved against `Resolution` |
| `Clock` | clock.dfy | `parseSecondsToDays` |
| `TaskQueue` | task_queue.dfy | the linked task queue, as a class over nodes with a ghost spine |
| `Worker` | worker.dfy | the worker, its task loop, and the schedule `main` queues |
| `Configuration` | configuration.dfy | `src/simulation_configuration.c`: the string helpers, line dispatch, capacity checks, belt generators |
| `TrajectoryLog` | trajectory_log.dfy | the `parse_input_file` both plotting scripts share |
| `Animation` | animation.dfy | the frame subsampling and axis range of `setUpAnimation` |

Where the code does something its comments or the surrounding code evidently
do not intend, the model does what the code does. Each such quirk is stated as a lemma:

- Line 348 of `handle_collision` tests `bodies[i].type == COMET` where `j` is
  meant. A large body at `i` with a comet at `j` therefore changes nothing
  (`Resolution.LargeFirstUnchanged`), and the order of the pair matters
  (`Resolution.CometOrderMatters`).
- `handle_collision` never looks at the `active` flags
  (`Resolution.IgnoresActive`).
- `split_asteroid` sets the child's `z` from the parent's `y`
  (`Support.SplitZFollowsY`).
- `pop` frees the last node but leaves `tail` pointing at it, so a later
  `push` writes through freed memory and its task is lost
  (`TaskQueue.PushAfterDrain`). The size still counts that task, so `work`
  then pops an empty list and calls an uninitialised task
  (`Worker.WorkAfterDrain`).
- `clear` keeps `size` (`TaskQueue.ClearKeepsSize`).
- A negative asteroid-belt count passes the final capacity check of
  `parseConfiguration` even when the Kuiper belt does not fit
  (`Configuration.NegativeBeltOverruns`).
- When rank 0 adds a comet, it scans with one more slot than the others. One
  slot is then the lower slot of no scanned pair (`Partition.StaleMirrorGap`).
- The animator allocates `int(len / step)` columns but writes one per kept
  point. It raises unless these agree (`Animation.FrameFaultIff`).

In several places C has undefined behaviour or calls `exit`. The model gives
these an explicit fault outcome instead of a precondition:

- a split or a comet past the last slot (`NoRoom`);
- a zero distance or a zero total mass in the elastic update (`NotFinite`);
- a body number past the slots (`TooFewSlots`);
- a generated belt object past the array (`OutOfRange`);
- `work` popping an empty list while the size is positive (the `fault` of
  `Worker.Worker.Work`).

Nothing checks that four more slots fit before a split fills them; the code
writes past the array. The model returns `NoRoom` there and changes nothing.

Random draws, the text-to-`double` conversion and the messages other ranks
send all come in as parameters.

## Model

| member | source | states |
|---|---|---|
| `Clock.Seconds` | src/main.c:489-498 | definition: the seconds a duration stands for; `Decompose` adds back to it and `DecomposeSeconds` inverts it |
| `Clock.Decompose` | src/main.c:489-498 | the five units always add back to the number of seconds, whatever its sign; the `int` product `years * 31536000` fits 32 bits exactly when the time is under 69 years either way |
| `Clock.DecomposeNormal` | src/main.c:489-498 | for a non-negative input every unit is non-negative and days < 365, hours < 24, mins < 60, secs < 60 |
| `Clock.DecomposeSeconds` | src/main.c:489-498 | a normal duration is what its own seconds decompose into: the decomposition is unique and inverts `Seconds` |
| `Clock.DecomposeNegative` | src/main.c:489-498 | with truncating division a negative input gives every unit <= 0 and above minus the next larger unit |
| `Clock.PrettyYears` | src/main.c:499 | `atoi` of the printed progress text gives back the number of years |
| `Text.IndexOf` | src/simulation_configuration.c:333 | `strchr` as an index: -1 exactly when the character is absent, otherwise its first occurrence |
| `Text.IndexOfFirst` | src/simulation_configuration.c:333 | in `pre + [c] + post` with no `c` in `pre`, the first `c` is at `|pre|` |
| `Text.ContainsIffOccurs` | src/simulation_configuration.c:190 | `strstr(s, sub) != NULL` exactly when `sub` occurs at some offset of `s` |
| `Text.Atoi` | src/simulation_configuration.c:335 | definition of C's `atoi`; its properties are stated in `SkipSpaces`, `LeadingDigits`, `AtoiOfNatToString`, `AtoiOfNegated` and `AtoiOfIntToString` |
| `Text.SkipSpaces` | src/simulation_configuration.c:335 | `atoi`'s leading white space is dropped: what remains is empty or starts with a non-space |
| `Text.LeadingDigits` | src/simulation_configuration.c:335 | the digits `atoi` reads are the longest all-digit prefix |
| `Text.IntToString` | src/main.c:332 | definition of `sprintf(buf, "%d", n)`; `atoi` reads it back (`AtoiOfIntToString`) |
| `Text.NatToString` | src/main.c:332 | `%d` of a non-negative number is a non-empty run of digits |
| `Text.DecimalValueOfNatToString` | src/main.c:332 | the digits `%d` writes spell the number back |
| `Text.AtoiOfNatToString` | src/simulation_configuration.c:335 | `atoi` reads back a non-negative number `%d` wrote, followed by any non-digit |
| `Text.AtoiOfNegated` | src/simulation_configuration.c:335 | `atoi` reads back `-n` |
| `Text.AtoiOfIntToString` | src/simulation_configuration.c:335 | `atoi` reads back any number `%d` wrote, followed by any non-digit |
| `Text.Split` | plotter.py:35 | Python's `split` gives at least one piece and no piece holds the separator |
| `Text.JoinSplit` | plotter.py:35 | joining the pieces of a split gives back the string |
| `Text.SplitPieces` | plotter.py:38-39 | a second piece exists exactly when the separator occurs; the first piece is the text before the first separator; the second is the first piece of what follows it |
| `Text.SplitNone` | plotter.py:35 | without the separator the split is the whole string |
| `Text.SplitAtFirst` | plotter.py:35 | the split cuts at the first separator and continues on the rest |
| `Bodies.TypeCode` | src/main.c:459-468 | the enumeration codes: a code below 3 exactly for sun, planet and moon; UNKNOWN exactly at 20 |
| `Support.CheckForCollision` | src/simulation_support.c:28-32 | definition of checkForCollision on squared distances; its properties are stated in `CollisionSymmetric`, `CollisionIffCloser` and `CollisionExamples` |
| `Support.SqDistance` | src/simulation_support.c:29-30 | the squared distance of the centres is never negative |
| `Support.SqDistanceSymmetric` | src/simulation_support.c:29-30 | the squared distance is the same either way round |
| `Support.CollisionSymmetric` | src/simulation_support.c:28-32 | the collision test does not depend on the order of the bodies |
| `Support.CollisionIffCloser` | src/simulation_support.c:28-32 | for the centre distance `dist`, two bodies collide exactly when `dist < r1 + r2` |
| `Support.CollisionExamples` | src/simulation_support.c:28-32 | radii 3 and 3: 5 apart collide; touching at 6 and 7 apart do not |
| `Support.Elastic` | src/simulation_support.c:208-241 | the update has no finite value exactly when the centres coincide or the total mass is zero |
| `Support.ElasticKeepsTangent` | src/simulation_support.c:238-240 | only the component along the line of centres changes |
| `Support.ExchangeMomentum` | src/simulation_support.c:203-206 | velocity changes of `-a p` and `+b p` with `m1 a == m2 b` conserve momentum |
| `Support.ExchangeEnergy` | src/simulation_support.c:203-206 | the same exchange conserves kinetic energy when also `(a+b)|p|^2 == 2<v1-v2, p>` |
| `Support.ElasticCoefficients` | src/simulation_support.c:238-240 | the coefficients of the two updates meet both conditions |
| `Support.SeenFromOther` | src/simulation_support.c:227-236 | both updates of a pair see the same squared distance and relative approach speed |
| `Support.ElasticUpdates` | src/simulation_support.c:238-240 | the two updates of a pair move the velocities by `-a(p1-p2)` and `+b(p1-p2)` |
| `Support.ElasticBalance` | src/simulation_support.c:208-241 | those coefficients satisfy `m1 a == m2 b` and the energy condition |
| `Support.ElasticConserves` | src/simulation_support.c:203-241 | applying the update to both bodies conserves momentum and kinetic energy, as the doc comment claims |
| `Support.PlanetAsteroid` | src/simulation_support.c:54-61 | the large body gains the small body's mass and exactly one counter, chosen by the small body's type; nothing else of it changes; the small body only becomes inactive |
| `Support.AsteroidAsteroid` | src/simulation_support.c:71-91 | a draw `% 10 == 0` deactivates both and splits; otherwise both take elastic velocities, copied into the acceleration fields too, and nothing else changes; no value exactly when the bounce is not finite |
| `Support.AsteroidBounceSimultaneous` | src/simulation_support.c:79-88 | both new velocities come from the pre-collision velocities, and the bounce conserves momentum and kinetic energy |
| `Support.AsteroidComet` | src/simulation_support.c:97-104 | the asteroid takes its elastic velocity, in the acceleration fields too, and nothing else changes; the comet only becomes inactive |
| `Support.CometComet` | src/simulation_support.c:109-112 | both comets become inactive and nothing else changes |
| `Support.Split` | src/simulation_support.c:183-201 | the parent only loses its `active` flag |
| `Support.SplitChild` | src/simulation_support.c:183-199 | the child is an active asteroid with half the mass and radius; velocity is `u` times the parent's, `u` = 2 or -1; x and y are offset by `2 u r`; name, acceleration and counters are kept from the slot |
| `Support.SplitZFollowsY` | src/simulation_support.c:200 | a child's `z` always equals its `y` |
| `Support.SplitPair` | src/simulation_support.c:183-201 | the second split of a parent sees the same radius; the two children share the mass; their momentum is `m/2` times the parent velocity |
| `Support.RandomComet` | src/simulation_support.c:117-160 | a comet appears exactly when the draw is a multiple of 3000000, active with the sampled kinematics; otherwise the slot is untouched |
| `Partition.Stride` | src/main.c:118 | the stride is `n / population` |
| `Partition.Range` | src/main.c:111-124 | definition of a rank's slice; its properties are stated in `RangeBounds`, `InRangeIffOwner`, `RangesDisjoint`, `RangesCover` and `SingleRank` |
| `Partition.RangeBounds` | src/main.c:111-124 | the slices lie in order inside `[0, n)`, from 0 to `n`, each ending where the next starts |
| `Partition.InRangeIffOwner` | src/main.c:117-124 | a slot lies in a rank's slice exactly when that rank owns it |
| `Partition.RangesDisjoint` | src/main.c:117-124 | no slot is in two slices |
| `Partition.RangesCover` | src/main.c:117-124 | every slot is in some slice |
| `Partition.SingleRank` | src/main.c:111-115 | a single rank works on and scans `[0, n)` |
| `Partition.MirrorIffReflected` | src/main.c:263-264 | a slot is in the mirrored slice exactly when its reflection `n - 1 - i` is in the slice |
| `Partition.MirrorIffOwner` | src/main.c:263-269 | the mirrored slices also partition `[0, n)`: each slot is scanned by the owner of its reflection |
| `Partition.GatherCounts` | src/main.c:127-131 | one count per rank |
| `Partition.GatherDisplacements` | src/main.c:127-131 | one displacement per rank |
| `Partition.GatherMatchesRanges` | src/main.c:126-131 | each count is the length of the rank's slice and each displacement its start; the counts sum to `n` |
| `Partition.TenOverThree` | src/main.c:117-131 | ten slots over three ranks: slices, mirrored slices and gather arrays worked out |
| `Partition.StaleMirrorGap` | src/main.c:263-264 | scanning with `n + 1` slots on rank 0 and `n` elsewhere leaves one slot the lower slot of no scanned pair |
| `Reports.Encode` | src/main.c:281 | definition of the pair code `i * max + j`; `DecodeEncode` inverts it and `PairCodeFits` bounds it |
| `Reports.Decode` | src/main.c:304-305 | definition of rank 0's decoding with C's `%` and `/`; it inverts `Encode` (`DecodeEncode`) |
| `Reports.DecodeEncode` | src/main.c:304-305 | decoding `i * max + j` gives back `(i, j)` for `i >= 0`, `0 <= j < max` |
| `Reports.PairCodeFits` | src/main.c:281 | with both slots below `max <= 46340` the code fits a 32-bit `int` |
| `Reports.RowHitsMembers` | src/main.c:269-272 | the inner loop finds exactly the colliding eligible pairs `(i, b)` with `i < b < j` |
| `Reports.ScanHitsMembers` | src/main.c:266-272 | the scan finds exactly the colliding eligible pairs with the lower slot in `[lo, hi)` |
| `Reports.Codes` | src/main.c:281 | one code per pair |
| `Reports.CodesAt` | src/main.c:281 | the k-th code encodes the k-th pair |
| `Reports.CodesAppend` | src/main.c:281-282 | the codes of two runs of pairs follow one another |
| `Reports.GrowNext` | src/main.c:276-280 | one more write doubles the buffer exactly when it was full |
| `Reports.GrowCovers` | src/main.c:276-280 | the buffer always holds every write |
| `Reports.GrowBounds` | src/main.c:276-280 | the buffer only grows; it stays its start length or is below twice the writes; it keeps the form `10 * 2^k` |
| `Reports.BufferLengthBounds` | src/main.c:251-280 | starting at 10: the length covers every write, is `10 * 2^k`, and is 10 or below twice the writes |
| `Reports.RowCodesAreCodes` | src/main.c:269-283 | the inner loop sends the codes of its row's hits, in order |
| `Reports.ScanCodesAreCodes` | src/main.c:266-287 | the nested loops send the codes of the scan's hits, in order |
| `Reports.RequestBuffer.constructor` | src/main.c:260-261 | a new buffer has sent nothing |
| `Reports.RequestBuffer.Push` | src/main.c:276-282 | the code is appended to those sent; the buffer's length stays `Grow(10, writes)` and its first entries are the codes sent, so it doubles exactly when it was full (`Reports.GrowNext`) |
| `Reports.RequestBuffer.Written` | src/main.c:310 | the requests written are the codes sent |
| `Reports.ScanRow` | src/main.c:269-286 | the inner loop appends its row's codes to the buffer |
| `Reports.ScanRows` | src/main.c:266-287 | the outer loop appends the whole scan's codes |
| `Reports.PeerReports` | src/main.c:250-287 | a peer sends exactly the codes of the colliding pairs of its slice, in order; its buffer ends at `BufferLength` of their number |
| `Reports.PeerCodesDecode` | src/main.c:281-305 | every code a peer sends decodes to a colliding eligible pair of its slice |
| `Reports.PeerStream` | src/main.c:282-312 | a peer sends one message per code and one more |
| `Reports.CountDoneAppend` | src/main.c:301-302 | done messages and reports add up over a concatenation |
| `Reports.PeerStreamShape` | src/main.c:282-312 | a peer `id >= 1` sends one done message, last; every report carries tag `id` and its code |
| `Reports.DecodeAll` | src/main.c:304-305 | every report is decoded, in order |
| `Reports.Drain` | src/main.c:299-307 | definition of rank 0's receive loop over an arrival order; its properties are stated in `DrainReadsAll`, `DrainStarves` and `PeersDrain` |
| `Reports.DrainReadsAll` | src/main.c:299-307 | with as many done messages as awaited, the last one done, the loop reads everything and decodes each report, in arrival order |
| `Reports.DrainStarves` | src/main.c:299-307 | with fewer done messages than awaited, the loop never ends |
| `Reports.MergeCounts` | src/main.c:299-307 | an interleaving of two streams has their done messages and reports combined, and ends done when both do |
| `Reports.MergeReports` | src/main.c:299-307 | an interleaving of two streams holds exactly their reports, counted with repetition |
| `Reports.PermDecoded` | src/main.c:304-305 | the same messages in any order decode to the same pairs, counted with repetition |
| `Reports.MergeDecoded` | src/main.c:299-307 | an interleaving of two streams decodes to exactly the pairs of both |
| `Reports.ArrivalCounts` | src/main.c:299-307 | any arrival order of the streams holds one done message per stream and exactly the streams' reports, counted with repetition, and ends with a done message |
| `Reports.ArrivalDecoded` | src/main.c:299-307 | any arrival order of the streams decodes to exactly the pairs of all streams |
| `Reports.MergeFromPeer` | src/main.c:299-307 | an interleaving keeps each stream's order: a tag only one stream carries is read in that stream's order |
| `Reports.ArrivalNone` | src/main.c:299-307 | a tag no stream carries never arrives |
| `Reports.ArrivalFromPeer` | src/main.c:299-307 | a tag only stream `k` carries arrives in stream `k`'s order, whatever the interleaving |
| `Reports.PeerStreams` | src/main.c:282-312 | peer `k + 1` sends `PeerStream(k + 1, codes[k])` |
| `Reports.DecodeCodes` | src/main.c:281-305 | the pairs rank 0 decodes from a peer's codes, one per code, in order |
| `Reports.PeerStreamDecoded` | src/main.c:282-305 | a peer's reports decode to the pairs of its codes, in the order sent |
| `Reports.PeerStreamFromPeer` | src/main.c:282-312 | of a peer's stream, a non-zero tag picks out its reports if the tag is its rank, and nothing otherwise |
| `Reports.StreamsDecoded` | src/main.c:282-305 | streams that decode stream by stream to the codes' pairs decode together to all the codes' pairs |
| `Reports.PeersInOrder` | src/main.c:282-307 | in any arrival order, peer `k + 1`'s reports reach rank 0 in the order it sent them |
| `Reports.PeersDrain` | src/main.c:299-312 | in any arrival order of the peers' messages, rank 0's loop ends with nothing unread; it decodes the reports in arrival order, one pair per report sent; the pairs are exactly those of all peers' codes, counted with repetition; and each peer's reports arrive in the order it sent them |
| `Resolution.SplitNames` | src/main.c:331-332 | the loop hands out four names |
| `Resolution.NameSplitSlots` | src/main.c:331-338 | naming keeps the number of slots |
| `Resolution.NamedAt` | src/main.c:331-334 | after `k` turns, slots `n .. n+k-1` carry their new names and the others are unchanged |
| `Resolution.NamedSlots` | src/main.c:331-334 | slots `n .. n+3` are named `ASTEROIDS<first + m>`; other slots are unchanged |
| `Resolution.SplitInto` | src/main.c:339-342 | one `split_asteroid` call changes exactly the parent and the slot it fills |
| `Resolution.SplitFour` | src/main.c:339-342 | the four splits keep the number of slots |
| `Resolution.Shatter` | src/main.c:329-342 | a shatter raises the count of slots in use and the asteroid count by four, keeps the comet count, and keeps the world valid |
| `Resolution.Handle` | src/main.c:321-357 | definition of handle_collision, branch by branch in the source's order; its properties are stated in `HandleGrowth`, `AbsorbedIntoSecond`, `AbsorbedIntoFirst`, `LargeFirstUnchanged`, `CometOrderMatters`, `CometsDestroyed`, `AsteroidMeetsComet`, `AsteroidsBounce`, `AsteroidsShatter` and `IgnoresActive` |
| `Resolution.AsteroidPair` | src/main.c:323-343 | definition of the asteroid-pair branch; its properties are stated in `AsteroidsBounce` and `AsteroidsShatter` |
| `Resolution.Bounced` | src/main.c:324-342 | definition of writing back a finite bounce, shattering when it says so; `Simulation.Simulation.Bounce` is proved against it |
| `Resolution.HandleGrowth` | src/main.c:321-357 | every outcome keeps the slots and validity and grows the count by 0 or by 4; 4 only when two asteroids split; the asteroid count follows the growth |
| `Resolution.AbsorbedIntoSecond` | src/main.c:344-346 | an asteroid or comet at `i` hitting a sun, planet or moon at `j` is absorbed into `j`; nothing else changes |
| `Resolution.AbsorbedIntoFirst` | src/main.c:347-349 | a large body at `i` absorbs an asteroid at `j`; nothing else changes |
| `Resolution.LargeFirstUnchanged` | src/main.c:347-348 | a large body at `i` with a comet or a large body at `j` changes nothing |
| `Resolution.CometOrderMatters` | src/main.c:344-349 | comet then large body destroys the comet; the reverse order changes nothing |
| `Resolution.CometsDestroyed` | src/main.c:350-351 | two comets both become inactive; nothing else changes |
| `Resolution.AsteroidMeetsComet` | src/main.c:352-355 | asteroid and comet, either order: the asteroid bounces and the comet is destroyed; a fault exactly when the bounce is not finite |
| `Resolution.AsteroidsBounce` | src/main.c:324-329 | two asteroids that do not split take their elastic velocities; nothing else changes |
| `Resolution.AsteroidsShatter` | src/main.c:329-342 | two asteroids that split shatter, or fault when four more slots do not fit |
| `Resolution.ShatterEffect` | src/main.c:330-342 | slots `n` and `n+1` get `i`'s children (directions true, false) and `n+2`, `n+3` get `j`'s, each named in turn; all other slots are unchanged |
| `Resolution.NamedSplitEffect` | src/main.c:330-342 | the same on the slots alone: the naming loop, then the four splits |
| `Resolution.SplitFourEffect` | src/main.c:339-342 | the four splits keep the inactive parents and fill exactly slots `n .. n+3` |
| `Resolution.IgnoresActive` | src/main.c:344-346 | an inactive asteroid is still absorbed by an inactive planet |
| `Resolution.Invade` | src/main.c:140-153 | a fault exactly when a comet arrives with no free slot; otherwise validity and the asteroid count are kept, and nothing changes without a comet |
| `Resolution.InvadeGrowth` | src/main.c:140-153 | the count rises by one exactly when the draw brings a comet; it takes the first unused slot, named `COMET <number>`; every other slot is unchanged |
| `Resolution.Grown` | src/main.c:263-287 | definition of what a scan may do: keep validity and the slots and only add asteroids; `RootScan` and `ResolveAll` establish it |
| `Resolution.RootScan` | src/main.c:266-274 | rank 0's own scan keeps the slots and validity and only adds new asteroids |
| `Resolution.RootScanQuiet` | src/main.c:266-274 | with no colliding pair the scan changes nothing |
| `Resolution.ResolveAll` | src/main.c:299-307 | resolving reports keeps validity and the slots, counts each report once, and only adds new asteroids |
| `Resolution.ResolveAllAppend` | src/main.c:299-307 | resolving two lists of reports in turn is resolving their concatenation; a fault stops it |
| `Simulation.BodySize` | src/main.c:508-516 | fewer than three arguments exit; more than four arguments also give the default size, as exactly three do |
| `Simulation.BodySizeGiven` | src/main.c:513-516 | with exactly four arguments the fourth is read back as the size; with three the default is used |
| `Simulation.Load` | src/main.c:444-455 | a loaded body is active and has its configuration's type, name and mass |
| `Simulation.Loaded` | src/main.c:438-473 | definition of the bodies initialise_bodies packs; its properties are stated in `LoadedShape`, `LoadedAt`, `LoadedStep` and `ActiveOfKindLoaded` |
| `Simulation.LoadedShape` | src/main.c:438-473 | no more bodies than configurations, all active |
| `Simulation.LoadedAt` | src/main.c:443-470 | each active configuration lands in the slot after the active ones before it |
| `Simulation.LoadedStep` | src/main.c:443-470 | one more configuration appends its body exactly when it is active |
| `Simulation.ActiveOfKindLoaded` | src/main.c:459-468 | counting active configurations of a type is counting that type among the loaded bodies |
| `Simulation.CountLoadedStep` | src/main.c:459-468 | one more configuration counts one more of its type exactly when it is active |
| `Simulation.StoresFromStart` | src/main.c:158-175 | over `calls` timesteps the history is stored `ceil(calls / frequency)` times |
| `Simulation.LargeCollisions` | src/main.c:189-201 | definition of end_simulate's totals over the suns, planets and moons; its properties are stated in `LargeCollisionsUpdate`, `AbsorptionCounted` and `Absorbed` |
| `Simulation.LargeCollisionsUpdate` | src/main.c:189-201 | changing one body changes the totals by the change in its own contribution |
| `Simulation.DrainReport` | src/main.c:299-307 | a report at the head of the arrivals is resolved first, the rest after it |
| `Simulation.AbsorptionCounted` | src/main.c:344-346 | an absorption raises exactly one total of the closing report by one, chosen by the small body's type |
| `Simulation.Absorbed` | src/simulation_support.c:54-61 | the same, over a sequence of bodies |
| `Simulation.Pack` | src/main.c:438-473 | the active configurations fill the first slots in order; the rest stay empty; the asteroid and comet counts are those of the loaded bodies |
| `Simulation.Tally` | src/main.c:459-468 | asteroids and comets are counted; other types are not |
| `Simulation.ClearRow` | src/main.c:335-337 | a new slot's history is zeroed; nothing else changes |
| `Simulation.NameSlots` | src/main.c:331-338 | the loop names slots `n .. n+3`, zeroes their histories and moves the running number on by 4 |
| `Simulation.NameOne` | src/main.c:332-337 | one turn renames one slot and zeroes its history |
| `Simulation.SplitAt` | src/main.c:339-342 | one in-place split does what `Resolution.SplitInto` says |
| `Simulation.SplitChildren` | src/main.c:339-342 | the four in-place splits do what `Resolution.SplitFour` says |
| `Simulation.ShatterSlots` | src/main.c:330-342 | naming and splitting in place give `SplitFour(NameSplitSlots(..))`, zero the four new histories, and move the number on by 4 |
| `Simulation.Simulation.constructor` | src/main.c:438-473 | the active configurations are packed into the first slots and the rest are empty; the asteroid and comet counts are those loaded; the loop index, history index, flush count, file and slice start at zero |
| `Simulation.Simulation.InitialiseBodies` | src/main.c:438-473 | the configurations are packed and the counters raised by the asteroids and comets loaded |
| `Simulation.Simulation.UpdateThread` | src/main.c:109-132 | the slice is the rank's `Partition.Range`; for several ranks the stride and the gather arrays are set, and for one rank they are left |
| `Simulation.Simulation.HandleCollision` | src/main.c:321-357 | the state becomes `Resolution.Handle` of the old one, or a fault leaves it; only the histories of new slots are zeroed |
| `Simulation.Simulation.HandleAsteroids` | src/main.c:324-343 | the two-asteroid branch, against `Resolution.Handle` |
| `Simulation.Simulation.Bounce` | src/main.c:329-342 | a finite bounce is written back, and shattered when it splits, against `Resolution.Bounced` |
| `Simulation.Simulation.Shatter` | src/main.c:330-342 | the slots become `SplitFour(NameSplitSlots(..))`; the count and asteroid number rise by 4 |
| `Simulation.Simulation.HandleMixed` | src/main.c:344-356 | the other branches, against `Resolution.Handle` |
| `Simulation.Simulation.CometInvade` | src/main.c:140-153 | the state becomes `Resolution.Invade` of the old one, or a fault leaves it |
| `Simulation.Simulation.DumpHistory` | src/main.c:421-432 | the file is started afresh on the first flush and appended to after it; each slot's entries are written in order; the flush count rises by one |
| `Simulation.Simulation.StoreHistory` | src/main.c:405-416 | every slot in use records its position at the index; the index wraps to 0 exactly at capacity, with a flush then and only then |
| `Simulation.Simulation.PrintFrequently` | src/main.c:158-176 | the history is stored exactly when `loop_index % output_frequency == 0`, progress is reported exactly on a positive multiple of `display_progess_frequency`, and `loop_index` rises by one; a zero output frequency crashes before anything changes, a zero progress frequency past timestep 0 crashes after the store and before the timestep moves on |
| `Simulation.Simulation.RootScan` | src/main.c:263-287 | rank 0's scan of its mirrored slice does what `Resolution.RootScan` says |
| `Simulation.Simulation.RootRow` | src/main.c:269-286 | one row of that scan |
| `Simulation.Simulation.RootPair` | src/main.c:270-274 | one pair of that scan: checked for a collision and, when it collides, handled |
| `Simulation.Simulation.RootDrain` | src/main.c:299-307 | the receive loop resolves the drained reports in arrival order, as `Resolution.ResolveAll` says; without a fault it reports starving exactly when `Reports.Drain` starves |
| `Simulation.Simulation.TakeMessage` | src/main.c:300-306 | one message: a done message lowers the number awaited, a report is resolved |
| `Simulation.Simulation.TakeReport` | src/main.c:303-306 | one report is resolved, and the rest of the drain follows |
| `Simulation.Simulation.PeerCheck` | src/main.c:263-313 | a peer sends the codes of its mirrored slice's hits, then its done message, with the buffer at `BufferLength` |
| `Simulation.Simulation.EndSimulate` | src/main.c:181-201 | rank 0 totals the large bodies' counters and flushes a non-empty history; other ranks write nothing; the timestep, the counts and the slice are unchanged and the state stays valid |
| `TaskQueue.Node.constructor` | src/Task-parallelism/task_queue.c:27-29 | a node holds its task and no successor |
| `TaskQueue.Queue.Create` | src/Task-parallelism/task_queue.c:8-12 | size 0, no head, no tail, no tasks |
| `TaskQueue.Queue.IsEmpty` | src/Task-parallelism/task_queue.c:17-21 | true exactly when `size <= 0`; then no task is linked; while the size counts the tasks, empty exactly when none is queued |
| `TaskQueue.Queue.Push` | src/Task-parallelism/task_queue.c:26-39 | the size rises by one and the task is the new tail; it is queued unless the head is gone while a tail dangles |
| `TaskQueue.Queue.Pop` | src/Task-parallelism/task_queue.c:44-60 | an empty queue returns nothing and keeps its size; otherwise the head task comes out and the size drops by one; the tail is never touched |
| `TaskQueue.Queue.Clear` | src/Task-parallelism/task_queue.c:65-77 | head and tail are dropped and no task remains, but the size stays |
| `TaskQueue.PushAfterDrain` | src/Task-parallelism/task_queue.c:26-60 | push, pop, push: the second task is lost and the size still says one |
| `TaskQueue.ClearKeepsSize` | src/Task-parallelism/task_queue.c:65-77 | after `clear` of one task `is_empty` is false and `pop` finds nothing |
| `Worker.StepTasks` | src/main.c:88-98 | a timestep queues 8 tasks on rank 0 and 6 elsewhere |
| `Worker.StepTasksShape` | src/main.c:88-98 | the first task gets the worker argument; the others get none; only rank 0 queues `comet_invade` and `print_frequently`; no step queues `end_simulate` |
| `Worker.StepsGrow` | src/main.c:87-99 | one more timestep appends one more round |
| `Worker.StepsLength` | src/main.c:87-99 | `timesteps` rounds of tasks, none for a non-positive count |
| `Worker.StepsAt` | src/main.c:87-99 | task `m` of timestep `t` is at `t * L + m` |
| `Worker.Schedule` | src/main.c:87-100 | definition of everything main queues; its properties are stated in `ScheduleEnds`, `StepsNeverEnd` and `RunProcess` |
| `Worker.ScheduleEnds` | src/main.c:87-100 | the closing report is the last task and the only one |
| `Worker.StepsNeverEnd` | src/main.c:87-99 | no timestep task is the closing report |
| `Worker.Worker.Initialize` | src/Task-parallelism/worker.c:8-19 | the loop index is 0 and the queue is empty |
| `Worker.Worker.UpdateWorker` | src/Task-parallelism/worker.c:27-44 | the slice is the rank's `Partition.Range` of the problem |
| `Worker.Worker.LoadTask` | src/Task-parallelism/worker.c:57-65 | the size rises by one; on a sound queue exactly one task with the routine, arguments and count is appended, and behind a dangling tail the task is lost |
| `Worker.Worker.LoadStep` | src/main.c:88-98 | one timestep appends `StepTasks(id)` |
| `Worker.Worker.LoadPhysics` | src/main.c:88-91 | the first four tasks of a timestep |
| `Worker.Worker.LoadCollisions` | src/main.c:92-98 | the rest of the timestep |
| `Worker.Worker.LoadSteps` | src/main.c:87-99 | the loop appends `Steps(id, timesteps)` |
| `Worker.Worker.LoadSchedule` | src/main.c:87-100 | main queues `Schedule(id, timesteps)` |
| `Worker.Worker.Work` | src/Task-parallelism/worker.c:70-76 | every linked task runs, in queue order, each lowering the size by one, and the list is left empty; it faults exactly when the size counts more tasks than are linked |
| `Worker.RunProcess` | src/main.c:79-104 | a process runs exactly its schedule, in order, without a fault |
| `Worker.WorkAfterDrain` | src/Task-parallelism/worker.c:70-76 | a task loaded after the queue was worked empty is lost, and the next work faults without running anything |
| `Configuration.GetBodyType` | src/simulation_configuration.c:368-375 | a known type exactly for the five names; anything else is UNKNOWN |
| `Configuration.TypeNameRoundTrip` | src/simulation_configuration.c:368-375 | every known type is read back from its name |
| `Configuration.HasValue` | src/simulation_configuration.c:354-356 | true exactly when the line has an `=` |
| `Configuration.GetIntValue` | src/simulation_configuration.c:332-338 | -1 without an `=` |
| `Configuration.IntValueRoundTrip` | src/simulation_configuration.c:332-338 | `key=<n>` is read back as `n` |
| `Configuration.GetDoubleValue` | src/simulation_configuration.c:343-349 | -1 without an `=` |
| `Configuration.GetEntityNumber` | src/simulation_configuration.c:315-327 | -1 without two `_`; otherwise `atoi` of the text between the first two |
| `Configuration.EntityMiddle` | src/simulation_configuration.c:315-327 | `<key>_<middle>_<field>` gives `atoi(middle)` |
| `Configuration.EntityNumberRoundTrip` | src/simulation_configuration.c:315-327 | `BODY_<n>_<field>` gives `n` back |
| `Configuration.NonNumericEntity` | src/simulation_configuration.c:315-327 | a non-numeric middle reads as 0 |
| `Configuration.ApplyBody` | src/simulation_configuration.c:211-239 | a body line makes its slot active |
| `Configuration.Chomp` | src/simulation_configuration.c:186 | definition: one final white-space character is dropped from a line, as the source does after `fgets` |
| `Configuration.ApplySettings` | src/simulation_configuration.c:189-200 | definition of the global keys, each applied when its name occurs; `Config.SetKeys`, `SetCountKeys` and `SetRateKeys` are proved against it |
| `Configuration.ApplyLine` | src/simulation_configuration.c:184-249 | a line keeps the number of slots |
| `Configuration.BodyLine` | src/simulation_configuration.c:201-245 | the body part of a line keeps the number of slots |
| `Configuration.SlotLine` | src/simulation_configuration.c:203-239 | so does the part for slot `n` |
| `Configuration.ApplyLines` | src/simulation_configuration.c:184-250 | so does the whole file |
| `Configuration.KuiperObject` | src/simulation_configuration.c:148-164 | a Kuiper belt object is an active asteroid with the belt velocity |
| `Configuration.BeltAsteroid` | src/simulation_configuration.c:60-124 | so is every asteroid-belt body, the four largest among them |
| `Configuration.KuiperFilled` | src/simulation_configuration.c:148-164 | the Kuiper belt keeps the number of slots |
| `Configuration.BeltFilled` | src/simulation_configuration.c:46-124 | the asteroid belt keeps the number of slots |
| `Configuration.Finished` | src/simulation_configuration.c:257-273 | the finished slots keep their number |
| `Configuration.OneLine` | src/simulation_configuration.c:184-249 | a line ends the run exactly when its body number has no slot, as `TooFewSlots(n+1)`; otherwise `index` follows its body number and only that slot changes |
| `Configuration.ReadAllIffFits` | src/simulation_configuration.c:201-210 | the file is read to the end exactly when every body number has a slot; `index` is then one past the last body number, not the largest |
| `Configuration.NumbersFitAll` | src/simulation_configuration.c:201-210 | `NumbersFit` is the pointwise bound on the body numbers |
| `Configuration.ReadAllIffNumbersFit` | src/simulation_configuration.c:184-250 | the same by induction over the lines |
| `Configuration.ActiveIffNamed` | src/simulation_configuration.c:201-211 | after reading, a slot is active exactly when it was or some body line names it |
| `Configuration.DtAnywhere` | src/simulation_configuration.c:200 | any line with a value containing `DT` sets `dt` |
| `Configuration.FinishedSlots` | src/simulation_configuration.c:257-273 | a fault exactly when the capacity check fails or a generator runs past the array; otherwise the Kuiper belt sits from `index`, the asteroid belt (only for >= 4) after it, and the rest is unchanged |
| `Configuration.NegativeBeltOverruns` | src/simulation_configuration.c:257-273 | a belt count of -1 passes the capacity check and the Kuiper belt runs past the slots |
| `Configuration.Config.Initialise` | src/simulation_configuration.c:280-298 | the defaults are `dt` 1.0, 1000 timesteps, output frequency 10, progress frequency 10000 and the default belt sizes; every slot is inactive with an empty name; `index` keeps whatever it held |
| `Configuration.Config.ParseLine` | src/simulation_configuration.c:184-249 | one line in place does what `ApplyLine` says |
| `Configuration.Config.SetBody` | src/simulation_configuration.c:201-245 | the body part in place does what `BodyLine` says |
| `Configuration.Config.SetSlot` | src/simulation_configuration.c:203-239 | slot `n`'s part in place does what `SlotLine` says |
| `Configuration.Config.SetKeys` | src/simulation_configuration.c:189-200 | the global keys in place do what `ApplySettings` says; `index` is kept |
| `Configuration.Config.SetCountKeys` | src/simulation_configuration.c:190-195 | each belt size and the timestep count is set exactly when its key occurs |
| `Configuration.Config.SetRateKeys` | src/simulation_configuration.c:196-200 | each frequency and `dt` is set exactly when its key occurs |
| `Configuration.Config.Parse` | src/simulation_configuration.c:184-250 | the loop in place does what `ApplyLines` says |
| `Configuration.Config.Place` | src/simulation_configuration.c:60-70 | a generated slot inside the array is written; outside it is a fault |
| `Configuration.Config.GenerateKuiperBelt` | src/simulation_configuration.c:138-165 | the objects fill consecutive slots from `from`, or fault at the first slot outside |
| `Configuration.Config.GenerateAsteroidBelt` | src/simulation_configuration.c:46-125 | the same for the asteroid belt |
| `Configuration.Config.Finish` | src/simulation_configuration.c:257-273 | the capacity check and the generators in place do what `Finished` says |
| `TrajectoryLog.Register` | plotter.py:36-37 | the body becomes a key and its points are kept |
| `TrajectoryLog.RegisterValid` | plotter.py:36-37 | registering keeps each key listed once, in first-seen order |
| `TrajectoryLog.SetLast` | plotter.py:44-47 | only the last point changes |
| `TrajectoryLog.LineRead` | plotter.py:35-39 | `<name>_<axis>=<v>` of plain text reads as body `name`, component `axis` and value `v` |
| `TrajectoryLog.Added` | plotter.py:40-43 | the point is appended to the body's list |
| `TrajectoryLog.AddedOf` | plotter.py:43 | every other body's list is unchanged |
| `TrajectoryLog.SetIn` | plotter.py:44-47 | the body's last point has the coordinate set |
| `TrajectoryLog.Step` | plotter.py:35-47 | definition of one line of parse_input_file; its properties are stated in `StepX`, `StepSet`, `OtherComponent`, `OrphanStep`, `NoUnderscore`, `NoEquals` and `StepValid` |
| `TrajectoryLog.StepX` | plotter.py:40-43 | an `x` line starts a new point |
| `TrajectoryLog.StepSet` | plotter.py:44-47 | a `y` or `z` line sets that coordinate of the last point |
| `TrajectoryLog.TripleRoundTrip` | plotter.py:32-48 | the three lines written for one position give exactly that point |
| `TrajectoryLog.Filled` | plotter.py:40-47 | starting with `x` and setting `y` and `z` adds the whole point |
| `TrajectoryLog.FillLast` | plotter.py:40-47 | the same on one list |
| `TrajectoryLog.ParseOne` | plotter.py:34-48 | a line that parses hands its log to the rest |
| `TrajectoryLog.StepValid` | plotter.py:34-47 | a line keeps the keys listed once, in first-seen order |
| `TrajectoryLog.ParseAllValid` | plotter.py:32-48 | so does a whole file |
| `TrajectoryLog.ParseAll` | plotter.py:32-48 | definition of parse_input_file, stopping at the first raising line; its properties are stated in `ParseAllValid`, `ParseAppend`, `WrittenRoundTrip` and `PointsCountX` |
| `TrajectoryLog.ParseFrom` | plotter.py:34 | parsing from line `i` is parsing line `i`, then the rest |
| `TrajectoryLog.ParseAppend` | plotter.py:32-48 | parsing two pieces in turn is parsing them joined |
| `TrajectoryLog.Lines` | src/main.c:424-429 | three lines per entry |
| `TrajectoryLog.Trajectory` | plotter.py:40-43 | at most one point per entry |
| `TrajectoryLog.WrittenRoundTrip` | plotter.py:32-48 | reading back a whole output file of plain names and values records every entry |
| `TrajectoryLog.RecordedTrajectory` | plotter.py:40-43 | each body gains exactly its own entries' points, in file order |
| `TrajectoryLog.RecordedOne` | plotter.py:40-43 | the induction step of that |
| `TrajectoryLog.XCount` | plotter.py:40 | at most one `x` line per line |
| `TrajectoryLog.StepCount` | plotter.py:40-47 | a line adds a point to its own body exactly when it is an `x` line, never to another |
| `TrajectoryLog.PointsCountX` | plotter.py:32-48 | every body has as many points as `x` lines |
| `TrajectoryLog.OrphanCoordinate` | plotter.py:44-47 | a `y` or `z` line for a body with no point raises |
| `TrajectoryLog.OrphanStep` | plotter.py:44-47 | the same for one line |
| `TrajectoryLog.StepFails` | plotter.py:34-48 | a line that raises ends the parse |
| `TrajectoryLog.NoUnderscore` | plotter.py:38 | a line with no `_` raises |
| `TrajectoryLog.NoEquals` | plotter.py:39 | a line with `_` but no `=` raises |
| `TrajectoryLog.OtherComponent` | plotter.py:35-47 | any other component only registers the body |
| `TrajectoryLog.Histories.constructor` | plotter.py:30 | the dictionary starts empty |
| `TrajectoryLog.Histories.ParseLine` | plotter.py:35-47 | one line in place does what `Step` says; a raising line has still registered the body |
| `TrajectoryLog.Histories.ParseInputFile` | plotter.py:32-48 | the loop in place does what `ParseAll` says and stops at the first raising line |
| `Animation.StrideTest` | plotter_anim.py:78 | `k % step == 0` is divisibility by `|step|` |
| `Animation.Kept` | plotter_anim.py:77-83 | no more kept points than points |
| `Animation.CountStep` | plotter_anim.py:77-83 | one more position adds one exactly at a multiple of the stride |
| `Animation.KeptAt` | plotter_anim.py:77-83 | the kept points are exactly those at the multiples of the stride, in order |
| `Animation.ColumnsCovered` | plotter_anim.py:74-82 | every allocated column is written |
| `Animation.Columns` | plotter_anim.py:74 | definition of the column count `int(len / step)`; `PositiveFit` and `NegativeFit` state when it suffices |
| `Animation.FrameFault` | plotter_anim.py:74-82 | definition of the exception filling one body's array raises; `FrameFaultIff` states exactly when it is none |
| `Animation.FrameFaultIff` | plotter_anim.py:74-82 | a body's array fills without raising exactly when the step divides the length (positive step) or the list is empty (negative) |
| `Animation.PositiveFit` | plotter_anim.py:74-82 | for a positive step the columns are `len / step`, enough exactly when the step divides the length |
| `Animation.NegativeFit` | plotter_anim.py:74 | a negative step works only on an empty list |
| `Animation.MaxCells` | plotter_anim.py:86 | the maximum bounds every cell and is one of them |
| `Animation.RangeBounds` | plotter_anim.py:70-87 | the axis range is at least 0 and at least every value of every body's array |
| `Animation.ColumnsBelow` | plotter_anim.py:72-87 | a bound on the bodies before the last and on the last bounds them all |
| `Animation.ColumnsRaise` | plotter_anim.py:86-87 | a bound stays a bound when it rises |
| `Animation.RangeAttained` | plotter_anim.py:70-87 | the axis range is 0 or one of the values |
| `Animation.EmptyTrajectory` | plotter_anim.py:86 | a body with no points stops the script |
| `Animation.Frames` | plotter_anim.py:74-83 | the array holds the kept points column by column, or the exception is raised exactly when `FrameFault` says |
| `Animation.OverflowAhead` | plotter_anim.py:77-82 | a kept position with no column left means an overflow |
| `Animation.ArrayMax` | plotter_anim.py:86 | `.max()` raises exactly on no columns; otherwise it bounds every cell and is one of them |
| `Animation.Range` | plotter_anim.py:63-87 | definition of `max_range` over the bodies in order; its properties are stated in `RangeBounds`, `RangeAttained`, `RangeNext` and `RangeStops` |
| `Animation.SetUpAnimation` | plotter_anim.py:63-87 | the loop over the bodies gives `Range` over the log's keys in order |
| `Animation.KeyMax` | plotter_anim.py:73-87 | definition of one body's maximum or exception; `BodyMax` is proved against it and `ArrayMax` states its cases |
| `Animation.BodyMax` | plotter_anim.py:73-87 | one body's pass gives `KeyMax` |
| `Animation.RangeNext` | plotter_anim.py:72-87 | the range after one more body |
| `Animation.MaxOfCells` | plotter_anim.py:86 | a bound that is one of the cells is the maximum |
| `Animation.RangeStops` | plotter_anim.py:72-87 | once a body raises, later bodies are never reached |

## Left out

- MPI transport: `gather_broadcast`, `broadcast`, `MPI_Init`, `wait_synchronization`, the derived datatype and the Isend/Recv/Waitall/Ssend calls are not modelled. The messages a rank receives are a parameter. The derived datatype registers the asteroid counter's address twice (src/main.c:577-578); that layout is not modelled.
- Reports.PeersDrain: assumes each report carries the code computed for its pair, as if every `MPI_Isend` copied `pair_code` when posted. The source reuses the one variable `pair_code` for all pending sends (src/main.c:281-282), changes it before they complete at `MPI_Waitall` (src/main.c:310), and MPI does not allow that, so rank 0 is not guaranteed to receive each pair's own code. `Reports.PeerStream` and `Reports.PeerStreams` make the same assumption.
- Gravitational numerics: `calculate_two_body_acceleration`, `update_body_acceleration`, `compute_velocity`, `update_locations`. They are `pow`/`sqrt` on doubles; the model has no floating point.
- Floating point throughout: the remaining physics is over exact `real`s, with no rounding, NaN or infinity. A division by zero becomes the fault `NotFinite`.
- `sqrt` in `checkForCollision`: the test is stated on squared distances.
- Randomness: `rand`, `drandom` and `auto_generate_position` are not modelled. Each draw is a parameter: an integer for `rand() % k`, and a `Draw` or `CometSample` of ready values for generated positions, masses and radii. The comet's velocity is one of these sampled values, so the model says nothing about which way it moves. In the source, `x`, `y` and `z` are drawn non-negative and `velocity_x` is a positive square root, with `velocity_y = (y / x) * velocity_x` and `velocity_z = (z / x) * velocity_x` (src/simulation_support.c:123-151). The velocity therefore has the sign of the position, and the comet flies away from the Sun, not towards the centre as the comment there says.
- Text to number: `atof` and Python's `float` are a parameter `toReal`. A `float` of unparseable text does not raise in the model.
- Animation.Columns: `int(len / step)` is modelled as an exact quotient truncated toward zero, with no floating-point rounding.
- I/O: `fopen`/`fgets`/`printf`/`fprintf` and the error on an unopenable file are not modelled. `Simulation.Simulation.DumpHistory` writes the output file as a sequence of samples rather than `%f` text. `getElapsedTime` is not modelled, nor are the progress lines apart from the time breakdown (`Clock.Pretty`).
- matplotlib: `plot_output`, `update_lines` and the figure and animation setup are not modelled.
- Function pointers: a task names its routine by an enumeration, and `Worker.Worker.Work` records the tasks it runs instead of calling them.
- Undefined behaviour and `exit` are explicit faults: a split or comet past the last slot, a zero-distance or zero-mass elastic update, a body number past the slots, a generated object past the array, `work` popping an empty list.
- Name buffers: `char name[40]`, `char buffer[5]`, `strcpy`/`strcat` overflow and truncation are not modelled; names are unbounded strings.
- `malloc` garbage: the body slots `malloc` leaves unset (src/main.c:441) are `Bodies.EmptySlot`, all zero, in the model, and a history entry is `Simulation.Blank`, zero as `calloc` leaves it. A configuration slot is different: the source sets only `name[0]` and `active` (src/simulation_configuration.c:290-297), and `Configuration.Config.Initialise` constrains only those two fields, so the others are arbitrary, as in the source.
- Simulation.Simulation.RootDrain: requires a non-empty slot array, since `max_body_size` is the divisor of the decoding.
- Integer overflow: the counters, the pair code and `loop_index * dt` are unbounded. `Reports.PairCodeFits` states when the pair code fits 32 bits. `Text.Atoi` reads a number of any size, where C's `atoi` is undefined beyond 32 bits.
- Clock.Decompose: `years * 31536000` is an `int` product in the source and overflows from 69 years (2,175,984,000 s) on, either way; the model's product is unbounded, and its contract states the range where the two agree.
- `fgets` truncation: lines longer than 127 characters, which `fgets` splits in two, are taken whole.
- The `strncpy` in `getEntityNumber` leaves `int_key` without a terminating NUL. The model reads exactly the text between the two underscores.
- The uninitialised `index` of `parseConfiguration` is a constructor parameter, `unset`, which may hold any value.
- TaskQueue.Queue.Push: after `pop` freed the last node, `push` writes `next` into that freed node (src/Task-parallelism/task_queue.c:35 and 58), a use after free. The model keeps the freed node as ordinary memory, so the write changes nothing in the list.
- TaskQueue.Queue.Pop: on an empty list the source returns an uninitialised `Task` (src/Task-parallelism/task_queue.c:45-47). The model returns `None`; `Worker.Worker.Work` turns that into its fault.
- TaskQueue.Queue.Pop: `Sound()` (head and tail agree) is not promised after popping the last task, because the tail is left dangling; `TaskQueue.PushAfterDrain` shows the consequence.
- Configuration.Config.GenerateAsteroidBelt: requires `asteroid_belt >= 4`, the guard its only caller applies (src/simulation_configuration.c:272).
- Resolution.Grown: does not state that the count grows in steps of four.
- `suicide` calls itself unconditionally and never returns; it is not modelled.
- The warning when fewer than 50 spare slots remain (src/simulation_configuration.c:262-266) is only a message; it is not modelled.
- `problem_size` is never set in the source; the worker's problem size is a `nat` field.
- TrajectoryLog.LineRead: requires names, components and values without `_` or `=`. A name with `_` is cut at its first `_`, since the line format has no escape for it; such files are outside the round-trip lemmas.
- Configuration.BeltAsteroid: the four largest asteroids, written out one by one in the source, are the first four turns of the generator loop, each with its own name, radius and mass.
