# Glam runtime: a verified model

Glam is a bootstrap runtime for a lazy language. This project models nine parts of it in
Dafny and proves what each is for.

* **The persistent list** (`ListCore`, `ListWalk`, `ListRope`, `ListCompare`, `ListTransform`,
  `ListFlatMap`). A list is a tree of byte leaves, value leaves, concatenations, finger-tree ropes
  and deferred holes. Its meaning is the flat sequence of its items, a hole being one item that is
  never forced. Every operation refines that sequence and keeps the representation invariant: no
  empty leaf, no empty chunk, no empty node below a concatenation. Complete walks from either end
  are linear, by an exact potential argument. Ropes are split, read by position and built from
  pieces; lists are compared whatever their segmentation; lazy maps and flat maps unfold to the
  ordinary ones.
* **The counted condition variable** (`CountedCondvar`). Any number of waiters and notifiers run in
  any interleaving of atomic steps. A notifier skips the wake when it counts no waiter. No wakeup
  is lost, a notification comes within the notifier's own next three steps, and a wait ends only on
  a change.
* **The collection ledger** (`GcMaintenance`, `GcOutcomes`). Leases, revisions, epochs, requests and
  dispositions, as a class and as a run of events. Outcomes, those of poisoned heaps included, may be
  published late and in any order.
* **The diagnostic bus and its ordered ingress** (`Diagnostics`). Publishers take a number under one
  lock and hand over under another; what reaches the port is a contiguous, ordered run, and it is
  complete unless a preparation fails or the port refuses an event.
* **Cycle detection on walks** (`WalkCycle`). The exact item at which Brent's detector stops.
* **Text patterns** (`TextPattern`, `TextPatternParser`, `TextPatternSyntax`). The recursive-descent
  parser and the escaping emitter undo each other, and the parser accepts exactly the texts of a
  grammar written out on its own.
* **Local-file manifests** (`Manifest`, `ManifestFile`, `ManifestSyntax`). Percent encoding in the
  style of section 2.1 of RFC 3986, hexadecimal digests and the line format, up to the whole document
  and its check: which texts are manifests of which entries, and which paths are the same path.
* **Keys and representation comparison** (`CoreValue`, `CoreKey`, `CoreAccess`). Nested lists and
  dictionaries, keys of values, values of keys.
* **Exact numbers** (`Numbers`, `NumberText`, `NumberParse`, `NumberSyntax`, `NumberGrouping`).
  Rationals in lowest terms, floored modulo, literal parsing with its two fast paths, printing; which
  texts are literals and what each denotes.

`Basics`, `Arithmetic` and `Text` hold shared vocabulary.

## How the pieces are related

Loops and in-place updates are methods and classes; each is proved equal to a recursive function, and
the theorems are about those functions. For instance `TextPatternParser.Parser` moves a cursor and is
tied to the suffix-reading functions of `TextPattern`, whose round trips are lemmas. Protocols with
several threads are state machines whose invariants hold along every run.

Three readers are also compared with what they read. `TextPatternSyntax`, `NumberSyntax` and
`ManifestSyntax` give written forms, their texts and their meaning without mentioning a reader, and
prove that a reader answers with a meaning if and only if the text is one of those texts.

Findings worth a maintainer's attention:

* The comment on `WalkCycle` promises detection after "about" `2*max(mu, lambda) + lambda` items.
  This is an upper bound, and the first rejection comes after `2^k - 2 + lambda` items for a stated
  k. The bound is reached exactly when `lambda <= mu` and `mu + 1` is a power of two
  (`WalkCycle.BoundAttained`).
* Publishing usable outcomes in two orders always leaves the same epoch, request flag and
  disposition. For the outcomes the runtime builds, which report poison only with a poisoned heap's
  snapshot, the logged failures are the same too, up to order, from any ledger
  (`GcMaintenance.LogOrderIndependent`). `GcMaintenance.LogOrderExact` gives the exact condition for
  arbitrary usable outcomes; `GcMaintenance.LogOrderFails` needs an outcome the runtime never builds.
* A manifest reads back exactly when its paths are non-empty and pairwise different *as paths*.
  The writer's map keeps its keys different as paths, so, current-directory stripping aside, what it
  writes reads back.
  Plain paths, without an empty or `.` piece, are the same path only when they are the same bytes.
  Byte-different spellings such as `a/b` and `a//b` clash (`Manifest.RespelledPathClashes`); they can
  meet only in a manifest edited by hand.
* A key is read back from its reified value exactly when it holds no bare global path outside an
  atom and its dictionaries are in key order. A keyed value is rebuilt up to comparison exactly when
  none of its lists holds packed bytes: a byte comes back as a number.

## Model

| member | source | states |
|---|---|---|
| `ListCore.BytesLeaf` | src/list.rs:333-340 | The list of the bytes, the canonical empty list for none |
| `ListCore.ValuesLeaf` | src/list.rs:342-350 | The list of the values, the canonical empty list for none |
| `ListCore.FingerLeaf` | src/list.rs:1322-1328 | A rope of non-empty chunks as a valid list with the same items |
| `ListCore.Join` | src/list.rs:508-516 | Concatenation of items; validity is kept because empty sides are dropped |
| `ListCore.KnownLenCounts` | src/list.rs:524-533 | A length is known exactly when no hole is present, and is then the number of items |
| `ListCore.EmptyIffNoItems` | src/list.rs:1313-1315 | In a valid list, being the empty node is the same as having no items |
| `ListWalk.PopFrontLeafStep` | src/list.rs:706-735 | First leaf or hole, then the rest, of the same items; the number of concatenations off the right spine drops by exactly the extra depth; the visit count is exact |
| `ListWalk.JoinSuffixShape` | src/list.rs:744-749 | Rejoined siblings keep their items and put every new concatenation on the right spine |
| `ListWalk.PopLeafFront` | src/list.rs:874-907 | First item and remainder of a strict leaf, no empty chunk left behind |
| `ListWalk.PopFrontStep` | src/list.rs:682-700 | First item or hole and the rest; the potential and visit count of the leaf step carry over |
| `ListWalk.ReattachPotential` | src/list.rs:682-700 | Putting back the rest of a leaf leaves the potential unchanged |
| `ListWalk.WalkFront` | src/list.rs:682-749 | A whole front walk yields all items in order with at most 2*items + (concatenations off the right spine) + 1 visits |
| `ListWalk.PopBackLeafStep` | src/list.rs:843-871 | The mirror of the front leaf step, potential and visits included |
| `ListWalk.JoinPrefixShape` | src/list.rs:1076-1081 | Rejoined siblings keep their items and put every new concatenation on the left spine |
| `ListWalk.PopRopeBackSplits` | src/list.rs:909-942 | The remaining rope and the last item make up the items of the rope |
| `ListWalk.PopRopeBackValid` | src/list.rs:909-942 | An emptied last chunk is dropped, so no empty chunk remains |
| `ListWalk.PopLeafBack` | src/list.rs:909-942 | Last item and remainder of a strict leaf |
| `ListWalk.PopBackStep` | src/list.rs:821-839 | Last item or hole and what precedes it, with the mirrored potential |
| `ListWalk.WalkBack` | src/list.rs:821-871 | A whole back walk yields the same items within the mirrored bound |
| `ListRope.SplitPoint` | src/list.rs:1490-1516 | The first chunk whose running measure exceeds the index, as the finger-tree split finds it |
| `ListRope.SplitPointInside` | src/list.rs:1490-1516 | For an index inside the rope that chunk starts at or before the index and ends after it |
| `ListRope.SplitFingerValid` | src/list.rs:1490-1516 | Neither side of a cut holds an empty chunk |
| `ListRope.SplitFingerItems` | src/list.rs:1490-1516 | The sides of a cut are the prefix and the suffix of the items, also through a chunk |
| `ListRope.LeafItemAt` | src/list.rs:945-966 | Indexed lookup agrees with the flat sequence |
| `ListRope.SplitLeafAt` | src/list.rs:969-991 | Both parts are valid and are the prefix and the suffix |
| `ListRope.AddShortBytes` | src/list.rs:1014-1056 | After a short byte piece at most one run is pending and no two adjacent short chunks of one kind exist |
| `ListRope.AddShortValues` | src/list.rs:1014-1056 | The same after a short value piece |
| `ListRope.AddPiece` | src/list.rs:1014-1056 | One turn of the loop appends exactly the piece's items and keeps the run invariant |
| `ListRope.BuildRope` | src/list.rs:1009-1072 | The loop yields the items of all pieces in order, no empty chunk, and no two adjacent short chunks of one kind when no piece is a rope |
| `ListRope.MergedNeighbours` | src/list.rs:993-999 | The recursive form of "merged" speaks about every adjacent pair |
| `ListRope.JoinStrictPieces` | src/list.rs:1000-1058 | The joined list has the concatenated items, is strict and valid, and is merged when no piece is a rope |
| `ListCompare.LogicalParts` | src/list.rs:1170-1220 | The parts hold the flat items in order, none is empty, each node is visited once |
| `ListCompare.ItemCursor.Current` | src/list.rs:185-199 | The first item not yet passed, or none |
| `ListCompare.ItemCursor.Advance` | src/list.rs:201-212 | Passes exactly one item, moving on at the end of a part |
| `ListCompare.SameLogicalItemsBy` | src/list.rs:1228-1255 | True exactly when the flat sequences have one length and agree item by item, whatever the segmentation |
| `ListTransform.MapStrict` | src/list.rs:387-423 | A leaf or hole is mapped completely in one root step |
| `ListTransform.MapUnfolds` | src/list.rs:387-423 | Unfolding all deferred children gives the map of the flat sequence |
| `ListFlatMap.CeilLog2Least` | src/list.rs:482-498 | The number of rounds is the least k with n <= 2^k |
| `ListFlatMap.PairUp` | src/list.rs:486-496 | One round halves the number of lists, keeps the items and adds one level |
| `ListFlatMap.ConcatBalanced` | src/list.rs:482-498 | Joining n lists keeps order and adds at most ceil(log2 n) levels |
| `ListFlatMap.CollectBytes` | src/list.rs:441-447 | The loop over a byte leaf collects the images in order, or reports exactly the first failure |
| `ListFlatMap.CollectValues` | src/list.rs:448-454 | The same for a value leaf |
| `ListFlatMap.CollectChunks` | src/list.rs:459-475 | The same for a rope, chunk by chunk |
| `ListFlatMap.FlatMapRootStep` | src/list.rs:432-480 | One step's items or first failure; the result is valid and at most ceil(log2 n) levels deeper than the deepest image |
| `ListFlatMap.FlatMapUnfolds` | src/list.rs:432-480 | Unfolding all deferred children gives the flat map of the flat sequence with the same first failure |
| `CountedCondvar.CountStep` | src/counted_condvar.rs:42-52 | Every step keeps the count equal to the number of threads inside a wait |
| `CountedCondvar.DebtStep` | src/counted_condvar.rs:81-85 | Every step wakes the sleeper or leaves the notifier's debt standing, one own step closer |
| `CountedCondvar.RunInv` | src/counted_condvar.rs:10-15 | The invariant holds at every point of every interleaving |
| `CountedCondvar.NoLostWakeup` | src/counted_condvar.rs:10-15 | A thread asleep past a change is owed a notification and the notifier's count is not zero |
| `CountedCondvar.QuiescentSleepersAreCurrent` | src/runtime.rs:744-764 | With no notifier under way, every sleeper has seen the current generation |
| `CountedCondvar.CountIsExact` | src/counted_condvar.rs:42-52 | In every run the count is exact and the mutex exclusive |
| `CountedCondvar.WokenWithinThreeSteps` | src/counted_condvar.rs:81-85 | A notifier that owes a notification wakes the sleeper within its own next three steps, however others interleave |
| `CountedCondvar.WaitEndsOnChange` | src/runtime.rs:754-764 | A thread that entered `wait_for_change(observed)` stays in it up to a point where the generation is not the observed one |
| `GcMaintenance.GcMaintenanceState.PublishOutcome` | src/runtime.rs:867-901 | The fields after publication are those of the ledger function, which the theorems below characterise for every outcome |
| `GcMaintenance.GcMaintenanceState.RecordFailure` | src/runtime.rs:903-914 | Appends one failure with the next identity |
| `GcMaintenance.GcMaintenanceState.RetireLease` | src/runtime.rs:860-865 | One lease fewer, nothing else |
| `GcMaintenance.GcMaintenanceState.AdvanceRevision` | src/runtime.rs:853-858 | One revision more, nothing else |
| `GcMaintenance.GcMaintenanceState.BeginGcActivity` | src/runtime.rs:766-774 | One lease and one revision more |
| `GcMaintenance.GcMaintenanceState.BeginGcActivityForSnapshot` | src/runtime.rs:776-792 | Begins exactly when the revision is current, no lease is active and a request or retry is due; else changes nothing |
| `GcMaintenance.GcMaintenanceState.FinishGcActivity` | src/runtime.rs:794-799 | Retires the lease and publishes its outcome |
| `GcMaintenance.GcMaintenanceState.AbandonGcActivity` | src/runtime.rs:801-806 | Retires the lease and requires a retry |
| `GcMaintenance.GcMaintenanceState.RecordGcRequest` | src/runtime.rs:808-814 | Records an explicit request as one new revision, or changes nothing when one is recorded |
| `GcMaintenance.GcMaintenanceState.PromoteGcPressureRequest` | src/runtime.rs:816-827 | Promotes pressure to a request exactly when the ledger is idle without lease or request |
| `GcMaintenance.GcMaintenanceState.RecordGcRequestFailure` | src/runtime.rs:829-834 | Sets the request and publishes the failed outcome, which may consume it |
| `GcMaintenance.PublishAllSummary` | src/runtime.rs:867-901 | After any usable outcomes the epoch is the newest seen; an outcome of that epoch with a failure or pending finalizers requires a retry, and without one a newer epoch is idle and an unchanged epoch keeps its disposition |
| `GcMaintenance.OrderIndependent` | src/runtime.rs:867-901 | Any two orders of the same usable outcomes leave one epoch, disposition and request flag |
| `GcMaintenance.LateOutcomeInert` | src/runtime.rs:867-901 | A report about an older epoch changes only the failure log |
| `GcMaintenance.LogComplete` | src/runtime.rs:867-914 | Every reported failure is logged, in order, exactly when none reports poison to a ledger still poisoned: always from an unpoisoned ledger, and from any ledger for outcomes as the runtime builds them |
| `GcMaintenance.LogExact` | src/runtime.rs:867-914 | From any ledger, any usable outcomes log their reports in order, save poison reports that come before the first outcome lifting the poison |
| `GcMaintenance.StillPoisoned` | src/runtime.rs:867-901 | Usable outcomes leave a ledger poisoned exactly when it was and none of them lifts the poison |
| `GcMaintenance.LogOrderIndependent` | src/runtime.rs:867-914 | Any two orders of the same usable outcomes log the same failures, up to order, from any ledger for outcomes as the runtime builds them and from an unpoisoned ledger for all |
| `GcMaintenance.LogOrderExact` | src/runtime.rs:867-914 | From any ledger, any number of usable outcomes log the same failures in every order if and only if none reports poison, or none lifts it, or just the reporting ones lift it and all report alike |
| `GcMaintenance.LogOrderFails` | src/runtime.rs:867-914 | A poisoned ledger and two usable outcomes, one not as the runtime builds them, whose orders log differently |
| `GcMaintenance.PublishKeeps` | src/runtime.rs:867-901 | Publication keeps leases and revision, never lowers the epoch, and consumes a request only with a newer epoch |
| `GcMaintenance.ApplyKeeps` | src/runtime.rs:766-834 | Every operation changes nothing or makes exactly one new revision, and moves the lease count by a stated amount |
| `GcMaintenance.HeldLeaseRetires` | src/runtime.rs:860-865 | At every point of every run a held lease can be retired |
| `GcMaintenance.LeasesBalance` | src/runtime.rs:613-636 | In every run active leases equal begun minus retired and equal those held or leaked; failure identities count up from one |
| `GcMaintenance.SameRevisionSameLedger` | src/runtime.rs:852-858 | Two points of a run with one revision have the same ledger |
| `GcMaintenance.SnapshotBeginsOnce` | src/runtime.rs:776-792 | At most one guarded begin succeeds for a snapshot revision |
| `GcMaintenance.SnapshotBeginsUnchanged` | src/runtime.rs:776-792 | A guarded begin succeeds only in exactly the snapshotted ledger |
| `GcMaintenance.EpochMonotone` | src/runtime.rs:867-901 | Along every run the epoch never falls and the failure log only grows |
| `GcMaintenance.RequestsAreNotLost` | src/runtime.rs:808-827 | A recorded request disappears only with a newer epoch |
| `GcOutcomes.PublishAllExact` | src/runtime.rs:867-901 | After any outcomes, poisoned heaps included, the epoch is the newest seen, a request survives unless a newer epoch appeared, and the disposition is that of the last outcome that settles it: poisoned for a poisoned heap, else a retry for a failure or pending finalizers, else idle |
| `GcOutcomes.PoisonMarks` | src/runtime.rs:867-873 | A poisoned heap marks the ledger and leaves epoch, request, leases and revision unchanged |
| `GcOutcomes.LogAfterAny` | src/runtime.rs:896-914 | After any outcomes the log holds every report in order, but for poison reported to a ledger that is poisoned at that point |
| `GcOutcomes.LeaseEffect` | src/runtime.rs:766-806 | A lease begins exactly with an unconditional begin or with a guarded one whose snapshot is current, nobody collecting and maintenance due; it ends exactly when finished or abandoned |
| `GcOutcomes.RequestEffect` | src/runtime.rs:808-834 | Exactly which operations raise a request, and from which ledgers |
| `GcOutcomes.DispositionEffect` | src/runtime.rs:794-834 | Without an outcome only abandoning a lease changes the disposition, to a required retry |
| `GcOutcomes.DueUntilSettled` | src/runtime.rs:766-901 | Along every run maintenance that is due stays due until an outcome has a poisoned heap, or a newer epoch with neither failure nor pending finalizers |
| `Diagnostics.DiagnosticBus.ValidateRuntime` | src/api/diagnostics.rs:669-685 | Admits the owner's runtime or adopts the first one; refuses others unchanged |
| `Diagnostics.DiagnosticBus.RecordEvent` | src/api/diagnostics.rs:687-708 | Returns the next sequence number and counts one severity |
| `Diagnostics.DiagnosticIngress.ReceivePrepared` | src/api/diagnostics.rs:833-875 | The drain loop equals the recursive drain, which `ReceiveExact` characterises; it reports a change exactly when something was routed |
| `Diagnostics.DiagnosticIngress.RecordFailure` | src/api/diagnostics.rs:814-831 | The ingress is failed from then on |
| `Diagnostics.DrainInv` | src/api/diagnostics.rs:833-875 | Draining keeps the routed run contiguous and stops where the next number is missing |
| `Diagnostics.DrainTakes` | src/api/diagnostics.rs:833-875 | What draining removes from the pending map is exactly what was routed, and the one that failed |
| `Diagnostics.ReceiveExact` | src/api/diagnostics.rs:833-875 | Receiving routes, in order, exactly the numbers up to the first that is missing or refused and keeps the rest pending; it fails if and only if a refused number has arrived with all numbers before it |
| `Diagnostics.HandOverStep` | src/api/diagnostics.rs:764-805 | Handing over keeps the invariant: one number leaves flight for pending or the port |
| `Diagnostics.RunInv` | src/api/diagnostics.rs:622-667 | The invariant holds at every point of every interleaving |
| `Diagnostics.RoutedInOrder` | src/api/diagnostics.rs:532-588 | The port has received exactly the recorded events from the baseline on, in order, each once, whatever failed |
| `Diagnostics.QuiescentIngressIsComplete` | src/api/diagnostics.rs:833-875 | With nothing failed and nobody in flight nothing is pending and everything since installation was routed |
| `Diagnostics.AcceptedNeverFails` | src/api/diagnostics.rs:764-875 | As long as no preparation fails and the port refuses nothing, the ingress is not failed at any point of any run, whatever the arrival order |
| `Diagnostics.AcceptedIsDelivered` | src/api/diagnostics.rs:764-875 | Then everything recorded since installation has been delivered, in order, as soon as nobody is in flight |
| `Diagnostics.FailureIsFinal` | src/api/diagnostics.rs:814-875 | After a failure the port receives nothing more, along every run |
| `Diagnostics.CountsSumToLatest` | src/api/diagnostics.rs:402-437 | Each severity count is the number of recorded events of that severity, and they sum to the last sequence number |
| `Diagnostics.OneRuntime` | src/api/diagnostics.rs:669-685 | A bus never mixes runtimes, and a prepared publication is not refused later |
| `Diagnostics.PublicationsAreRecorded` | src/api/diagnostics.rs:622-708 | At every point of every run a publication is refused, unchanged, exactly when the bus belongs to another runtime; all others are recorded, at once or with the number they take |
| `WalkCycle.WalkCycle.Advance` | src/walk_cycle.rs:30-41 | Accepts or rejects the item and updates the saved item, power and distance |
| `WalkCycle.AfterClosed` | src/walk_cycle.rs:30-41 | Closed form of the detector's state after n items |
| `WalkCycle.RejectsClosed` | src/walk_cycle.rs:30-41 | Item n is rejected exactly when it equals the one saved at the start of its era |
| `WalkCycle.RejectionIsRepeat` | src/walk_cycle.rs:8-12 | A rejection always names an earlier item of the walk |
| `WalkCycle.AcyclicNeverRejected` | src/walk_cycle.rs:8-12 | A walk without repeats is never rejected |
| `WalkCycle.DetectionExact` | src/walk_cycle.rs:8-12 | The first rejection comes after exactly 2^k - 2 + lambda items, 2^k the least power of two >= max(mu+2, lambda) |
| `WalkCycle.DetectionBounds` | src/walk_cycle.rs:74-94 | It comes no earlier than mu + lambda and no later than 2*max(mu, lambda) + lambda |
| `WalkCycle.BoundAttained` | src/walk_cycle.rs:8-12 | The upper bound is reached if and only if lambda <= mu and mu + 1 is a power of two |
| `WalkCycle.FirstRepeatCycles` | src/walk_cycle.rs:8-12 | A deterministic walk's first repeat gives its lead-in and cycle length |
| `WalkCycle.RepeatCycles` | src/walk_cycle.rs:8-12 | Any repeat in a deterministic walk gives a lead-in and a cycle length |
| `WalkCycle.DetectsExactlyRepeats` | src/walk_cycle.rs:8-12 | A deterministic walk is rejected at some point exactly when it repeats |
| `TextPattern.MembersRoundTrip` | src/text_pattern.rs:240-289 | Emitted class members are read back, whatever follows the class |
| `TextPattern.AtomRoundTrip` | src/text_pattern.rs:110-137 | An emitted atom is read back within its depth, whatever follows |
| `TextPattern.RepetitionsRoundTrip` | src/text_pattern.rs:188-207 | An emitted sequence is read back up to its end mark |
| `TextPattern.AlternativesRoundTrip` | src/text_pattern.rs:179-186 | Emitted alternatives, empty ones included, are read back |
| `TextPattern.ParseText` | src/text_pattern.rs:162-177 | Whatever is accepted satisfies the grammar's limits; `TextPatternSyntax` says exactly what is accepted |
| `TextPattern.EmitParses` | src/text_pattern.rs:78-154 | Reading an emitted tree in its own dialect gives the tree back |
| `TextPattern.BackendKeepsTree` | src/text_pattern.rs:78-154 | For every accepted source the backend text denotes the tree that was parsed |
| `TextPattern.BackendIsInjective` | src/text_pattern.rs:78-154 | Two accepted sources share a backend text only with one tree |
| `TextPatternParser.Parser.ReadEscape` | src/text_pattern.rs:304-313 | The cursor method agrees with the suffix function, error and position included |
| `TextPatternParser.Parser.ReadClassScalar` | src/text_pattern.rs:291-302 | The same for one class scalar |
| `TextPatternParser.Parser.ReadMember` | src/text_pattern.rs:251-289 | The same for one class member or range |
| `TextPatternParser.Parser.ReadClass` | src/text_pattern.rs:240-289 | The same for a class; which classes those are is part of `ParsesExactlySpellings` |
| `TextPatternParser.Parser.ReadQuantifier` | src/text_pattern.rs:195-203 | The same for a quantifier |
| `TextPatternParser.Parser.ReadAtom` | src/text_pattern.rs:209-238 | The same for an atom, groups and the depth limit included |
| `TextPatternParser.Parser.ReadSequence` | src/text_pattern.rs:188-207 | The same for a sequence |
| `TextPatternParser.Parser.ReadPattern` | src/text_pattern.rs:179-186 | The same for alternatives |
| `TextPatternParser.ParseSource` | src/text_pattern.rs:162-177 | The whole parse, byte limit and stray closing mark included |
| `TextPatternParser.WriteMembers` | src/text_pattern.rs:116-126 | Appends exactly the spelling of the class members |
| `TextPatternParser.WriteAtom` | src/text_pattern.rs:110-137 | Appends exactly the backend spelling of an atom |
| `TextPatternParser.WriteRepetition` | src/text_pattern.rs:98-107 | Appends exactly the backend spelling of a repetition |
| `TextPatternParser.WriteSequence` | src/text_pattern.rs:85-96 | Appends exactly the backend spelling of a sequence |
| `TextPatternParser.WritePattern` | src/text_pattern.rs:85-96 | Appends exactly the backend spelling of alternatives |
| `TextPatternSyntax.ParsesExactlySpellings` | src/text_pattern.rs:162-340 | A text is parsed to a tree if and only if it spells that tree in the written-out grammar: literals, escapes, groups, quantifiers, and classes with their ranges and leading or trailing dash |
| `TextPatternSyntax.AcceptsExactlySpellings` | src/text_pattern.rs:162-177 | A source is accepted if and only if it has at most 16384 bytes and spells a tree, which is then the only one |
| `TextPatternSyntax.Utf8Size` | src/text_pattern.rs:162-168 | The byte length is one per scalar and one more from each of U+0080, U+0800 and U+10000 on |
| `Manifest.HexRoundTrip` | src/source.rs:721-729 | Hexadecimal text reads back as its bytes and is twice as long |
| `Manifest.DigestRoundTrip` | src/source.rs:654-676 | A written digest is parsed back |
| `Manifest.PathRoundTrip` | src/source.rs:678-747 | A percent-encoded path is decoded back, uses only unreserved scalars, and is empty only for the empty path |
| `Manifest.EncodingInjective` | src/source.rs:731-747 | Two paths share an encoding only when equal |
| `Manifest.LineShape` | src/source.rs:484-492 | A written line has exactly its three fields, no line end and no comment mark |
| `Manifest.ParseWrittenLine` | src/source.rs:339-371 | A written line parses to its entry, or to a field error for an empty path |
| `Manifest.ManifestRoundTrip` | src/source.rs:308-393 | A written document reads back as exactly its entries in order, if and only if no path is empty and no two are the same path |
| `Manifest.RespelledPathClashes` | src/source.rs:372-378 | Whatever the path, its spelling with a doubled separator is another byte sequence that makes the document unreadable beside it |
| `Manifest.ErrorNamesLine` | src/source.rs:334-378 | The line number of an error is that of the line that could not be read |
| `Manifest.MismatchesExact` | src/source.rs:380-390 | A mismatch is listed exactly when an entry's file is unreadable or has another digest |
| `Manifest.CheckWritten` | src/source.rs:308-393 | Checking a just-written manifest finds nothing exactly when every listed file is unchanged |
| `ManifestFile.HexText` | src/source.rs:721-729 | The loop spells the bytes in hexadecimal |
| `ManifestFile.PercentEncode` | src/source.rs:737-747 | The loop spells the percent encoding |
| `ManifestFile.DecodeManifestPath` | src/source.rs:678-706 | The index-stepping loop decodes or reports the same error as the recursive decoding |
| `ManifestFile.ParseDigestHex` | src/source.rs:654-667 | The loop accepts exactly 64 hexadecimal digits and yields their bytes |
| `ManifestFile.WriteManifest` | src/source.rs:484-492 | The loop writes the document |
| `ManifestFile.CheckLocalManifest` | src/source.rs:308-393 | The line loop reports the first error or all mismatches, as reading and comparing separately would |
| `ManifestSyntax.KeyExact` | src/source.rs:372-378 | Two paths count as the same if and only if both or neither start at the root, both or neither start with a `.` piece, and their other non-empty pieces are equal in order |
| `ManifestSyntax.PlainPathsDiffer` | src/source.rs:372-378 | Paths without an empty or `.` piece are the same path only when they are the same bytes |
| `ManifestSyntax.WrittenReadsBack` | src/source.rs:308-393 | A written document reads back as its entries if and only if no path is empty and no two are the same path in that sense |
| `ManifestSyntax.PlainManifestReadsBack` | src/source.rs:308-393 | Non-empty, plain, pairwise different byte paths always read back |
| `ManifestSyntax.DigestExact` | src/source.rs:654-676 | A digest is accepted if and only if it is two hexadecimal digits of either case for each of 32 bytes |
| `ManifestSyntax.PathExact` | src/source.rs:678-719 | An encoded path is accepted, with its bytes, if and only if every scalar stands for itself or belongs to an escape with two digits of either case |
| `ManifestSyntax.EncodingIsShortest` | src/source.rs:731-747 | No text that decodes to a path is shorter than the one written for it |
| `ManifestSyntax.HexIsLower` | src/source.rs:721-729 | Digests and escapes are written in lower case |
| `ManifestSyntax.EntryExact` | src/source.rs:339-371 | A line is an entry if and only if it is a non-empty path, `sha256` and a digest, separated by single tabs |
| `ManifestSyntax.LinesExact` | src/source.rs:315-334 | The lines of a text are those ended by a line feed, with or without a return, the last one possibly unended |
| `ManifestSyntax.ManifestExact` | src/source.rs:308-393 | A text is read as a list of entries if and only if it is the header and, comments and empty lines aside, their lines in order, with no path twice |
| `ManifestSyntax.MismatchesInOrder` | src/source.rs:380-390 | Mismatches are listed in the order of their entries |
| `CoreValue.FlatSize` | src/core.rs:3011-3034 | The flat items of a list hold exactly the values its nodes hold |
| `CoreValue.SameIffForm` | src/core.rs:3080-3207 | Two values compare equal exactly when their segmentation-free forms are equal |
| `CoreValue.SameIsEquivalence` | src/core.rs:3073-3079 | Comparison is reflexive, symmetric and transitive |
| `CoreValue.SameKeys` | src/core.rs:3006-3051 | Values that compare equal have one key, or neither has one |
| `CoreKey.InsertSorted` | src/core.rs:3065-3069 | Inserting keeps a dictionary in key order |
| `CoreKey.InsertExact` | src/core.rs:3065-3069 | Inserting puts the value under its key, in place of any other, and keeps all other entries |
| `CoreKey.InsertAllInOrder` | src/core.rs:3065-3069 | Folding ordered entries into a dictionary keeps them as they are |
| `CoreKey.ReadBack` | src/core.rs:3054-3071 | A key is read back from its value if and only if it is canonical; every key's value has some key |
| `CoreKey.KeyIsCanonical` | src/core.rs:3006-3051 | The key of a well-formed value is canonical |
| `CoreKey.KeyRoundTrip` | src/core.rs:3006-3071 | Reifying the key of a value and reading it again gives the same key |
| `CoreKey.PackingKeepsKeys` | src/core.rs:3018-3020 | Unpacking the bytes of a list into number values leaves its key unchanged |
| `CoreKey.ReifiedWellFormed` | src/core.rs:3054-3071 | Every key reifies to a well-formed value |
| `CoreKey.ReifiedSame` | src/core.rs:3054-3207 | A keyed value compares equal to the value of its key if and only if no list in it holds packed bytes |
| `CoreAccess.PartKeys` | src/core.rs:3014-3032 | One visited part adds exactly the keys of its items, or none is possible |
| `CoreAccess.ListKeys` | src/core.rs:3011-3034 | The visitor collects the keys of all items, or stops at the first unkeyable one |
| `CoreAccess.EntryKeys` | src/core.rs:3035-3039 | Keys of all dictionary values, or none |
| `CoreAccess.ReadKey` | src/core.rs:3006-3051 | The traversal through the list visitor computes the key |
| `CoreAccess.SameDicts` | src/core.rs:3130-3145 | The two-iterator loop agrees with comparison of entries in order |
| `CoreAccess.SameArguments` | src/core.rs:1647-1657 | Zipped comparison of partial-call arguments |
| `CoreAccess.SameListItem` | src/core.rs:3111-3128 | Bytes and deferred edges by identity, values by the recursive comparison, unlike kinds never |
| `CoreAccess.SameCursors` | src/core.rs:3104-3129 | The two-cursor loop agrees item by item with the comparison, and in length |
| `CoreAccess.SameLists` | src/core.rs:3104-3129 | The cursor walk, descending into values and skipping shared nodes, agrees with comparison of flat items |
| `CoreAccess.SameRepresentation` | src/core.rs:3080-3207 | The recursive traversal computes the comparison at every depth |
| `Numbers.RatioDecides` | src/number.rs:15-16 | Equal ratios, however written, reduce to one number |
| `Numbers.ValueDecides` | src/number.rs:15-16 | Numbers of equal value are the same number |
| `Numbers.FromByte` | src/number.rs:23-25 | The value is the byte |
| `Numbers.Sub` | src/number.rs:132-134 | The value is the difference |
| `Numbers.Mul` | src/number.rs:136-138 | The value is the product |
| `Numbers.CheckedDiv` | src/number.rs:140-146 | Absent exactly for a zero divisor; otherwise the value times the divisor is the dividend |
| `Numbers.Floor` | src/number.rs:148-152 | The greatest integer not above the value |
| `Numbers.ModExact` | src/number.rs:154-157 | Absent exactly for a zero divisor; otherwise the one number that differs by an integer multiple of the divisor and lies between zero and it, on its side |
| `NumberText.CleanExact` | src/number.rs:299-328 | Grouped digits are accepted if and only if every underscore stands alone between two digits, and yield just the digits |
| `NumberText.CleanGroupedDigits` | src/number.rs:299-328 | The scanning loop gives that result, error kind included |
| `NumberText.MachineWordInteger` | src/number.rs:249-268 | Answers exactly for well-grouped texts of at most eighteen digits, with their value, never leaving 64 bits |
| `NumberText.RadixTextReads` | src/number.rs:184-192 | Printed digits denote the number in every radix used |
| `NumberText.HexDigitValues` | src/number.rs:357-367 | The sixteen digits in both cases have the values 0 to 15, and each radix admits just its own |
| `NumberParse.FromPartsExact` | src/number.rs:222-243 | The integer shortcut and the stepwise rational arithmetic equal one exact ratio |
| `NumberParse.DecimalRefines` | src/number.rs:194-243 | For every text, both fast paths give what the general parse gives, errors included; `LiteralMeaning` says what that is |
| `NumberParse.ExponentExact` | src/number.rs:270-287 | An exponent is accepted exactly when well grouped and at most 100000, and keeps its sign |
| `NumberParse.ScientificMeaning` | src/number.rs:194-243 | The number a literal with point and exponent denotes |
| `NumberParse.ExactValue` | src/number.rs:232-243 | That combination is the mantissa times or over the power of ten |
| `NumberParse.HexReads` | src/number.rs:77-82 | What follows a hexadecimal prefix is accepted if and only if well grouped, and denotes its digits in either case, leading zeros included |
| `NumberParse.BinaryReads` | src/number.rs:83-88 | What follows a binary prefix is accepted if and only if well grouped, and denotes its digits |
| `NumberParse.PrefixedReadsBack` | src/number.rs:77-88 | A number printed in hexadecimal or binary is read back behind its prefix |
| `NumberParse.ParseWithSign` | src/number.rs:52-59 | Either sign mark negates the rest |
| `NumberParse.ParseDisplay` | src/number.rs:184-192 | Every number is parsed back from its printed text |
| `NumberSyntax.AcceptsExactlyLiterals` | src/number.rs:52-94 | A text is accepted if and only if it spells an optionally signed ratio, hexadecimal, binary or decimal literal of well-grouped digits, with its limits |
| `NumberSyntax.LiteralMeaning` | src/number.rs:52-243 | Every such literal is accepted as the integer over the integer that it denotes, whatever parts it has; either sign mark negates it |
| `NumberSyntax.PointMeaning` | src/number.rs:206-232 | A grouped literal with a point and k fraction digits denotes its digits over 10^k, and either sign mark negates it |
| `NumberSyntax.DisplayExact` | src/number.rs:184-192 | A number is printed in lowest terms with a minus sign if negative, without superfluous zeros, over its denominator unless that is one |
| `NumberGrouping.GroupingIrrelevant` | src/number.rs:194-328 | In any text, an underscore put between two decimal digits, or between two hexadecimal digits behind a hexadecimal prefix, leaves the parse result unchanged, errors included |

## Left out

- Managed heap, garbage collection, roots, access regions and interaction nets: managed values and edges are identities.
- Evaluation, macro and module loading, assembly and the public interface around them.
- `Arc` sharing and pointer identity, including offsets of shared slices: slices are sequences, and the shared-node shortcut of list comparison is any choice that implies equal lists. Visit counts are ghost results.
- The finger-tree library: a rope is the sequence of its chunks with a total length and a split at the first chunk whose running length satisfies the predicate.
- Closures passed to list operations are pure functions; their side effects are not modelled.
- What a transformed list defers is tagged as a source child, a source hole or a hole of the produced list; an image is taken to defer only holes of its own, since source children are deferred by the step alone.
- Counters are unbounded: the checked additions of the source, which stop the program when a 64-bit counter is exhausted, and the doubling of the cycle detector's power are not modelled as failing. Only the machine-word parse is done in 64 bits.
- Timeouts and poisoned locks in the condition variable and the runtime state.
- Exclusive mutation guards around the ledger, and the wake that follows an operation on it, beyond the condition variable model.
- Diagnostic subscribers, their panics, text rendering and the port itself: which routings succeed is an arbitrary predicate.
- The regular-expression backend: only Glam's own grammar and its emission are modelled.
- Reading and writing files, atomic replacement, stripping the current directory from paths, and SHA-256: a file's observation is an arbitrary function of its path, and entries are taken in map order. Paths are those of a Unix system; the other platforms' UTF-8 check is not modelled.
- The order of keys in a dictionary is any strict total order; the red-black tree is the sequence it iterates.
- Conversion of numbers to and from machine integers, bytes aside, and floating point, and addition, which has the form of subtraction.
- Error messages: an error is its kind, with the line number, digit or path it names.
