# BEWE: verified model

BEWE is a radio monitoring system: hosts capture spectrum, a central server collects what they find.
This project models the parts of it whose correctness is hardest to see from the code, and proves
what they are for. Run `dafny verify dfyconfig.toml` to check it.

Code that changes things step by step is modelled by methods and classes that do the same, each
proved against a specification: a function of the inputs and the old state, or a declarative
description. What the code promises is then proved about that specification, over every input and
every run.

- **Numerics** (`Matrices`, `LuTheory`, `LuSubstitution`, `LuDecomposition`, `LuSolve`): LU
  decomposition with implicit partial pivoting, in place, back-substitution and inverse over exact
  reals. They succeed on exactly the invertible matrices. `JulianDates`: calendar and Julian dates both
  ways.
- **Detect mode** (`DetectBaseline`, `DetectScan`, `DetectLock`): the per-bin baseline, the one-pass
  burst search against a naive description of bursts, and the lock state machine of a channel.
- **Emitter database** (`EmitterMatch`, `EmitterSpec`, `EmitterOutcome`, `EmitterTotals`, `EmitterDb`):
  matching, and the two maps that point at each other. `JsonText`, `JsonNotation`, `JsonReader`,
  `JsonRecords`, `JsonUnknown`, `JsonFiles`, `SignalRecords`, `EmitterJson`, `SightingJson`,
  `EmitterFiles`: its hand-written printer and parser, from single characters to files.
- **HIST recordings** (`LittleEndian`, `HistFormat`, `HistCodec`, `HistLayout`, `HistCompressor`): the
  block-wise compressed container, its inverse, and what any other reader of the format finds in it.
  `HistLive`, `HistRoom`: live recording. `HistMerge`: joining a recovered segment.
- **Queues** (`UplinkSpec`, `UplinkQueue`): the host's uplink queue. `JoinSpec`, `JoinQueues`: the four
  queues towards a client.
- **Streams** (`IqRing`): the shared sample ring against the endless stream. `SquelchRecorder`: gated
  recording. `AisLog`, `AisSummary`, `AisBuilder`: the AIS log and its per-vessel summary.

Where the code does not do what it, or a comment beside it, promises, the model follows the code and
states exactly when the promise holds:

- Decompression restores a recording except for reserved header bytes and a torn last row
  (`HistCodec.HistUnchangedExactly`).
- A file can get rows of two dB ranges when its name fills the whole 64-byte field, because rotation
  then looks for a shorter name. `HistLive.EveryRun` says, for runs with any names, when this never
  happens, and `HistLive.LongNameRun` is a run in which it does. The comment at
  central/central_mission_archive.cpp:1178-1180 says why the ranges must not be mixed.
- A merge onto a raw recording with a torn last row shifts the appended rows
  (`HistMerge.RawMerge`), and a merged name that is taken by a third file replaces that file
  (`HistMerge.OthersSurviveExactly`).
- The comment at src/central_client.cpp:223 promises a heartbeat at the front of the uplink queue the
  first place in the next batch. It keeps that place exactly while no other heartbeat comes and, unless
  it is exempt from dropping, every droppable packet fits (`UplinkSpec.FrontKeptExactly`). The one
  heartbeat the host sends is exempt (src/net_server.cpp:879-881), so nothing throws it out; only
  a droppable packet with byte 0x14 in the type position would be affected, such as one forwarded
  from a client's socket (src/central_client.cpp:477-485), where nothing sends one at present.
- The comment at src/channel.hpp:302-303 says that a channel goes back to its search band when the
  signal ends. Applied after the channel was disarmed, redrawn and armed again, a release puts back
  the older band; a channel covers its search band whenever it is armed and unlocked exactly when no
  release comes that late (`DetectLock.SettledExactly`, and `DetectLock.LateReleaseUnsettles` for a
  run in which one does).
- The comment at src/cli_host.cpp:363 says that a lock widens only when a burst outside it is seen in
  consecutive rows. A burst inside starts the count of three anew, but quiet rows in between do not
  (`DetectLock.QuietRowsBetween`).
- Times beyond 2^53 and floats that are not finite do not survive the JSON files
  (`EmitterJson.EmitterSurvives`). A record is lost when an unknown key holds true, false or null;
  inside a list or an object these do no harm (`JsonUnknown.UnknownFieldsIgnored`). When only one of
  the two records of a link is lost, the loaded library is not linked any more
  (`EmitterFiles.SavedAndLoaded`).
- Moving a sighting to an unknown emitter breaks one direction of the links, and writing an unknown
  emitter that claims sightings does too; nothing else does, in any run
  (`EmitterSpec.RunKeepsLinks`).
- A Julian date split a fraction of a millisecond from midnight is read as a whole day
  (`JulianDates.Invjday`).
- An AIS record at the time of another replaces it only inside the window; the comment at
  central/central_server.cpp:2131 calls the two the same (`AisSummary.KeptAt` says which one is
  kept).

Conventions: integers are unbounded unless a width matters, and then the width is written out (the
fields of files, `int64` times, `uint32` counts, 64-byte names); floating-point numbers are exact
reals; the compressor is a pair of functions, assumed inverse where a theorem says so; clocks,
random identifiers, directory listings and file names chosen by the system are parameters; a locked
section is one step.

## Model

| member | source | states |
|---|---|---|
| `LuDecomposition.RowScales` | src/MathTimeLib.cpp:937-948 | each row gets the factor that brings its largest magnitude to exactly one; when a row has none the matrix is not invertible |
| `LuDecomposition.ReduceAbove` | src/MathTimeLib.cpp:951-957 | the entries of a column above the diagonal become entries of U: L times U agrees with the matrix there |
| `LuDecomposition.ReduceAndPivot` | src/MathTimeLib.cpp:958-971 | the rest of the column is reduced, and the row chosen has the greatest scaled entry, the last one among equals |
| `LuDecomposition.ExchangeRows` | src/MathTimeLib.cpp:974-979 | exactly two rows change places, in place |
| `LuDecomposition.BringPivot` | src/MathTimeLib.cpp:972-981 | the exchange keeps the factored part right for the exchanged matrix; a zero on the diagonal afterwards means the whole column was zero there |
| `LuDecomposition.PivotColumn` | src/MathTimeLib.cpp:951-982 | one column up to the division: reduced for the matrix with rows exchanged as recorded, earlier pivots untouched |
| `LuDecomposition.DivideColumn` | src/MathTimeLib.cpp:987-992 | dividing below the pivot completes the column: one more column of L times U equals the matrix |
| `LuDecomposition.FactorColumn` | src/MathTimeLib.cpp:949-993 | one round of the outer loop factors one more column, or the input has no inverse |
| `LuDecomposition.LuDecompose` | src/MathTimeLib.cpp:920-994 | succeeds on exactly the invertible matrices; then the packed unit-lower L and upper U multiply to the input with its rows exchanged as recorded, all pivots nonzero |
| `LuTheory.ReduceStep` | src/MathTimeLib.cpp:953-964 | subtracting the products turns one entry into an entry of U or an undivided one of L |
| `LuTheory.SwapStep` | src/MathTimeLib.cpp:974-979 | exchanging two rows at or below the pivot, multipliers included, keeps packed and original matrix related |
| `LuTheory.DivideStep` | src/MathTimeLib.cpp:990-991 | dividing an entry by the pivot makes it the multiplier of its row |
| `LuTheory.ZeroPivotSingular` | src/MathTimeLib.cpp:983-989 | a zero pivot, chosen largest, gives a nonzero vector the input sends to zero: the input has no inverse |
| `LuTheory.SolveOriginal` | src/MathTimeLib.cpp:1026-1064 | solving with L and then U for the exchanged right-hand side solves the system one started from |
| `LuTheory.FactoredInjective` | src/MathTimeLib.cpp:1026-1064 | a factored matrix sends only zero to zero, so solutions are unique |
| `LuSubstitution.Solution` | src/MathTimeLib.cpp:1026-1064 | a factored system has a solution for every right-hand side |
| `LuSolve.FetchAndReduce` | src/MathTimeLib.cpp:1043-1052 | one row of forward substitution with the permutation undone on the fly; skipping leading zeros changes nothing |
| `LuSolve.ForwardSubstitute` | src/MathTimeLib.cpp:1040-1053 | L y equals the right-hand side permuted as recorded |
| `LuSolve.BackSubstitute` | src/MathTimeLib.cpp:1055-1063 | U x equals y |
| `LuSolve.LuBackSubstitute` | src/MathTimeLib.cpp:1026-1064 | in place, b becomes x with A x = b, for every A the factors stand for |
| `LuSolve.InverseColumn` | src/MathTimeLib.cpp:1123-1136 | column j of the result is what A sends to the j-th unit vector; other columns stay |
| `LuSubstitution.FactoredInverse` | src/MathTimeLib.cpp:1096-1137 | columns that solve for the unit vectors make a two-sided inverse |
| `LuSubstitution.FactoredInvertible` | src/MathTimeLib.cpp:920-1137 | what can be factored has an inverse |
| `LuSolve.MatInverse` | src/MathTimeLib.cpp:1096-1137 | succeeds on exactly the invertible matrices, and the result times A and A times the result are the identity |
| `Matrices.RightInverseIsLeft` | src/MathTimeLib.cpp:1096-1137 | a right inverse of an injective square matrix is a left inverse |
| `JulianDates.DayFormula` | src/MathTimeLib.cpp:1905-1908 | the closed formula with its two floors counts the days of the every-fourth-year calendar, for every year and month |
| `JulianDates.JdayNumber` | src/MathTimeLib.cpp:1905-1908 | the day part computed over reals is that count, a midnight |
| `JulianDates.CarryDays` | src/MathTimeLib.cpp:1911-1917 | whole days move from the fraction to the day part; their sum stays |
| `JulianDates.Jday` | src/MathTimeLib.cpp:1899-1920 | day part plus fraction is the instant of the date, for any time of day, also past midnight or negative |
| `JulianDates.Days2Mdhms` | src/MathTimeLib.cpp:2019-2051 | the month is the one the day of the year falls in (December past the end), and hour, minute and second are in range and add up to the fraction exactly |
| `JulianDates.GuessedYear` | src/MathTimeLib.cpp:2120-2125 | division by 365.25 finds the year, or one too many on a year's last day |
| `JulianDates.Locate` | src/MathTimeLib.cpp:2119-2133 | with the correction, the day lies in the year found unless the fraction runs past the year's last day |
| `JulianDates.SettledRange` | src/MathTimeLib.cpp:2104-2117 | normalising keeps the sum; afterwards the day part is a midnight exactly when the offset was zero or large enough to be noticed |
| `JulianDates.PastYearEndMeans` | src/MathTimeLib.cpp:2119-2133 | the case is that the fraction is a whole day or more and the next day belongs to another year |
| `JulianDates.LocatedDate` | src/MathTimeLib.cpp:2119-2137 | the date found is the instant asked for, and a real date unless the fraction leaves the year |
| `JulianDates.Invjday` | src/MathTimeLib.cpp:2094-2138 | every split of an instant gives the date of that instant if and only if the day part is a midnight or over a hundred-millionth of a day away from one; the date is valid if and only if a carried fraction does not run past a year's last day, else it is 32 December |
| `JulianDates.RoundTrip` | src/MathTimeLib.cpp:1899-2138 | converting there and back is the identity on every valid date of any year and every real time of day |
| `JulianDates.Normalise` | src/MathTimeLib.cpp:1899-2138 | a time of day beyond midnight comes back as the valid date at the same instant |
| `JulianDates.JustBeforeMidnight` | src/MathTimeLib.cpp:2111-2125 | a day part one nanoday before midnight, with fraction one half, comes back a whole day early |
| `JulianDates.InstantInjective` | src/MathTimeLib.cpp:1899-2138 | no two valid dates name the same instant |
| `DetectBaseline.Baseline.AddRow` | src/detect_base.hpp:79-83 | the running sum of every bin, taken with wrap-around, gains the row |
| `DetectBaseline.Baseline.Accumulate` | src/detect_base.hpp:60-100 | ready exactly at the first row a second or more after collection began; the baseline is then the mean of the rows collected, bin by bin, and is never overwritten |
| `DetectBaseline.Baseline.Track` | src/detect_base.hpp:113-134 | frozen while locked, held or unready and on the first call; otherwise every bin moves toward the row by the elapsed share of eight seconds |
| `DetectBaseline.DrawnToward` | src/detect_base.hpp:128-133 | a tracked bin keeps exactly the remaining share of its distance and never overshoots |
| `DetectBaseline.StepExactly` | src/detect_base.hpp:120-133 | a step covers the share of the distance that the elapsed time is of eight seconds, and all of it after eight |
| `DetectBaseline.DrawnInRange` | src/detect_base.hpp:113-134 | tracking never takes a bin outside what that bin has shown since the reset |
| `DetectBaseline.MeanInRange` | src/detect_base.hpp:89-92 | nor does the mean it starts from |
| `DetectScan.ScanBand` | src/cli_host.cpp:304-343 | the one-pass scan with moving notch cursor and skip returns the strongest admissible burst of a declarative description that tests every bin against every notch, the first among equals |
| `DetectScan.CursorDecides` | src/cli_host.cpp:327-328 | with the cursor where the scan keeps it, one comparison says whether any notch, nested or overlapping, covers the bin |
| `DetectScan.SkipNotch` | src/cli_host.cpp:328-332 | jumping to the end of the notch under the cursor skips only notched bins |
| `DetectScan.GapOverflow` | src/cli_host.cpp:339-340 | a run with one cold bin too many ends at its last hot bin |
| `DetectScan.CutOff` | src/cli_host.cpp:329-343 | a run cut off by a notch or the end of the band ends at the bin before it |
| `DetectScan.BurstShape` | src/cli_host.cpp:304-343 | a burst begins and last rises at above-margin bins, holds no notched bin and carries at most the bridged gap of trailing cold bins, and those only when a notch or the band's end cut it off |
| `DetectScan.EveryHotBinInOneBurst` | src/cli_host.cpp:322-343 | every usable bin above the margin belongs to exactly one burst |
| `DetectScan.BurstUnique` | src/cli_host.cpp:322-343 | where a burst begins determines where it ends |
| `DetectScan.NotchRanges` | src/cli_host.cpp:274-295 | the sorted bin intervals are exactly the nonempty clipped ones of the notches |
| `DetectScan.NotchBinsCoverFrequencies` | src/cli_host.cpp:282-289 | a bin whose frequency is in a notch is taken out, and no bin a full bin width away from it is |
| `DetectScan.RunAvoidsNotches` | src/cli_host.cpp:274-332 | a reported run of two bins or more avoids every notch in frequency |
| `DetectScan.GapBins` | src/cli_host.cpp:269-270 | the gap bridged is the greatest number of bins that are together at most 2000 Hz wide, and at least one, with the width of a bin taken as no less than 1 Hz |
| `DetectScan.SearchLooksAt` | src/cli_host.cpp:252-295 | the search looks at exactly that |
| `DetectScan.OneBurstExactly` | src/cli_host.cpp:322-343 | two hot bins with only cold ones between them are in one burst if and only if the cold ones fit the gap |
| `DetectScan.BridgedExactly` | src/cli_host.cpp:269-340 | so a cold stretch is bridged if and only if it is one bin or at most 2000 Hz wide |
| `DetectScan.AdmissibleMeans` | src/cli_host.cpp:300-321 | a run counts if it has two bins or more and, during a lock, comes within two kilohertz of the locked band |
| `DetectScan.FindBurst` | src/cli_host.cpp:262-345 | one frame of the search returns the strongest admissible burst of the band it looks at: bins from the starting bin on around the row, each against its baseline, the margin the threshold brought into 0..40 dB, the gap 2000 Hz wide; none exactly when there is none |
| `DetectLock.StepKeeps` | src/cli_host.cpp:345-509 | each event, whatever outcome may be waiting, keeps what EveryRun says |
| `DetectLock.EveryRun` | src/cli_host.cpp:345-509 | in every run: disarmed means unlocked, a lock the user has not redrawn lies inside the search band, and the release waiting for a locked channel is for its own search band |
| `DetectLock.StepSettledExactly` | src/cli_host.cpp:412-509 | an event unsettles a channel that covers its search band while armed and unlocked if and only if it applies a release decided for another band than the one searched now |
| `DetectLock.SettledExactly` | src/cli_host.cpp:345-509 | over a whole run a channel covers its search band whenever it is armed and unlocked if and only if no release in the run is applied so late |
| `DetectLock.StepWidens` | src/cli_host.cpp:361-376 | an undisturbed step of a lock never narrows the band |
| `DetectLock.EpisodeWidens` | src/cli_host.cpp:345-440 | over a whole lock without user redraw or fixed decoder width the band only widens and stays inside the search band |
| `DetectLock.Restored` | src/cli_host.cpp:445-460 | a lock that ends, by a release or by disarming, leaves the channel on exactly its search band, in every run |
| `DetectLock.LateReleaseUnsettles` | src/cli_host.cpp:345-509 | the run that does it, for any two bands and any burst that locks: armed, locked, eighteen quiet rows, disarmed, redrawn, armed again, and only then the release; the channel ends armed over the new band and covers the old one |
| `DetectLock.ReleasedByEighteenth` | src/cli_host.cpp:346-381 | a lock survives seventeen quiet rows and is released by the eighteenth |
| `DetectLock.WidensOnThird` | src/cli_host.cpp:361-374 | only the third row in a row outside the band widens it, to cover all three with the guard |
| `DetectLock.QuietRowsBetween` | src/cli_host.cpp:361-381 | quiet rows between them do not keep three rows outside the band from widening it |
| `DetectLock.BurstOutcome` | src/cli_host.cpp:345-381 | a burst on an unlocked channel asks for a lock on it, two kilohertz wider on either side; anything else does nothing |
| `DetectLock.LockOutcome` | src/cli_host.cpp:412-441 | a lock takes the band asked for as far as the search band goes, or under a fixed width the band of that width about its middle, and does nothing when nothing is left |
| `DetectLock.ArmedLocksBurst` | src/cli_host.cpp:345-509 | armed over a band, with one burst in it and its lock, the channel covers the burst and two kilohertz on either side, as far as the band goes |
| `DetectLock.InsideOutcome` | src/cli_host.cpp:353-376 | while locked, a burst inside the band, or any under a fixed width, only starts the eighteen rows anew |
| `DetectLock.QuietOutcome` | src/cli_host.cpp:377-381 | a quiet row counts down and, at the end, asks for the release to the search band |
| `DetectLock.ReleaseOutcome` | src/cli_host.cpp:445-460 | a release puts back its band, unlocks and forgets the counts |
| `DetectLock.WidenOutcome` | src/cli_host.cpp:361-441 | three rows in a row outside the band: the lock covers all three with two kilohertz to spare, inside the search band, and what it covered before |
| `DetectLock.ArmOutcome` | src/cli_host.cpp:467-486 | arming searches the band the channel covers; arming again does nothing |
| `DetectLock.DisarmOutcome` | src/cli_host.cpp:487-509 | disarming ends a lock and puts the channel back on the band searched |
| `DetectLock.ResizeOutcome` | src/cli_host.cpp:1648-1661 | redrawing moves the channel, and what is searched only while armed without a lock |
| `DetectLock.Channel.ScanRow` | src/cli_host.cpp:345-381 | the fields change, and the outcome to apply is chosen, as one scan step of the state machine |
| `DetectLock.Channel.Narrow` | src/cli_host.cpp:416-441 | clamping and the fixed width give the band of a lock, or none |
| `DetectLock.Channel.ApplyPending` | src/cli_host.cpp:412-460 | clamping, fixed width, lock and release change the fields as one apply step |
| `DetectLock.Channel.SetChannelDetect` | src/cli_host.cpp:467-509 | arming and disarming change the fields as one step |
| `DetectLock.Channel.OnUpdateChRange` | src/cli_host.cpp:1648-1661 | redrawing moves the search band only while armed and unlocked |
| `EmitterMatch.ScoreRange` | central/emitter_db.cpp:428-471 | a score reaches the joining threshold exactly when the tolerance window covers the frequency |
| `EmitterMatch.HighScoreExactly` | central/emitter_db.cpp:428-471 | when a match counts as certain, for all combinations of given, equal and differing modulation, protocol and tags |
| `EmitterMatch.FoldedExactly` | central/emitter_db.cpp:445-464 | folding to lower case compares two texts, and looks for one in the other, without regard to the case of ASCII letters |
| `EmitterMatch.ScoreExactly` | central/emitter_db.cpp:428-471 | the score in full: zero outside the tolerance, 0.6 when only the frequency is given on both sides, otherwise the weighted share of what agrees among what is given |
| `EmitterMatch.FindBest` | central/emitter_db.cpp:545-551 | the scan returns the emitter with the greatest score, the first in key order among equals, or none |
| `EmitterMatch.BestUnique` | central/emitter_db.cpp:545-551 | there is only one such emitter |
| `EmitterSpec.RecomputedExact` | central/emitter_db.cpp:495-514 | a recomputed emitter is an exact summary: earliest positive and latest start, every nonempty station once |
| `EmitterSpec.IngestedKeeps` | central/emitter_db.cpp:516-584 | ingesting keeps both directions of the links |
| `EmitterSpec.IngestOutcome` | central/emitter_db.cpp:536-584 | a new sighting with a frequency founds an emitter exactly when no window covers it, made of its own fields, else joins one of maximal score; every other emitter is as before, and it is marked certain exactly as the score says |
| `EmitterSpec.FoundedFrom` | central/emitter_db.cpp:473-493 | a new emitter has the frequency, width, modulation and protocol of its sighting, a tolerance of 1 kHz, no tags and no notes, its reporter as creator, and totals of that one sighting |
| `EmitterSpec.MadeCovers` | central/emitter_db.cpp:428-493 | so it covers every sighting at that frequency |
| `EmitterSpec.SecondJoins` | central/emitter_db.cpp:516-584 | and a second new sighting at that frequency joins it and founds nothing |
| `EmitterSpec.IngestTouches` | central/emitter_db.cpp:516-584 | ingesting stores the sighting as it came but for its link and changes no other; a known one, or one without a frequency, changes no emitter, a new one only the emitter it is linked to |
| `EmitterSpec.UpsertedEmitter` | central/emitter_db.cpp:586-611 | a known emitter keeps its list, count, seen times, stations, creator and creation time and takes over what the operator says; an unknown one brings its own; a missing name or tolerance is filled in |
| `EmitterSpec.UpsertedMembersExactly` | central/emitter_db.cpp:586-611 | writing an emitter keeps the member direction if and only if it is known or every sighting it claims names it already, once and counted |
| `EmitterSpec.UpsertedKeepsExactly` | central/emitter_db.cpp:586-611 | writing an emitter keeps the links if and only if it is known or claims no members |
| `EmitterSpec.EmitterDeletedKeeps` | central/emitter_db.cpp:613-628 | deleting an emitter unlinks its sightings and keeps the links |
| `EmitterSpec.SightingDeletedKeeps` | central/emitter_db.cpp:630-664 | deleting a sighting, and an emitter it empties, keeps the links |
| `EmitterSpec.DeleteStep` | central/emitter_db.cpp:630-664 | deleting a file's sightings one by one is deleting them all at once |
| `EmitterSpec.SetDeletedKeeps` | central/emitter_db.cpp:630-664 | deleting a whole file keeps the links at every point |
| `EmitterSpec.RelinkedKeeps` | central/emitter_db.cpp:666-727 | confirm, reject, move and split keep the member direction always, and both when a move goes to a known emitter or none |
| `EmitterSpec.MoveKeepsExactly` | central/emitter_db.cpp:705-710 | a move keeps both directions if and only if its target is empty or known |
| `EmitterSpec.StepKeeps` | central/emitter_db.cpp:516-727 | an operation keeps the member direction if and only if it does not write an unknown emitter that claims wrongly |
| `EmitterSpec.StepKeepsExactly` | central/emitter_db.cpp:516-727 | and both directions if and only if, besides, it does not move a sighting to an unknown emitter |
| `EmitterSpec.RunKeepsMembers` | central/emitter_db.cpp:516-727 | in a run, listed sightings exist, name the emitter that lists them, are listed once and are counted, throughout, if and only if no unknown emitter is written with a wrong claim |
| `EmitterSpec.RunKeepsLinks` | central/emitter_db.cpp:516-727 | in a run, a sighting names an emitter exactly when that emitter lists it, throughout, if and only if, besides, every move goes to a known emitter or to none |
| `EmitterSpec.LinkedMeansIff` | central/emitter_db.cpp:516-727 | the invariant is that equivalence |
| `EmitterOutcome.ManualLinkSurvives` | central/emitter_db.cpp:522-534 | a link set by hand survives ingesting the sighting again, all other fields being refreshed |
| `EmitterOutcome.DeletedStaysUnlinked` | central/emitter_db.cpp:522-534 | after its emitter is deleted a sighting that comes in again stays unlinked and pending, all other fields being refreshed |
| `EmitterOutcome.IngestsKeepLink` | central/emitter_db.cpp:516-584 | however many sightings come in, known ones among them, a known sighting keeps its emitter and status |
| `EmitterOutcome.DeletedForGood` | central/emitter_db.cpp:516-628 | so after its emitter is deleted it stays unlinked and pending, however often it comes in again |
| `EmitterOutcome.ManualForGood` | central/emitter_db.cpp:516-710 | and one linked by hand stays with its emitter |
| `EmitterOutcome.SplitOutcome` | central/emitter_db.cpp:711-719 | a split takes the sighting out of the list it was in, if any, into a new emitter made of its own fields and touches nothing else |
| `EmitterOutcome.ConfirmOutcome` | central/emitter_db.cpp:691-693 | confirming marks the match confirmed and changes nothing else |
| `EmitterOutcome.RejectSplits` | central/emitter_db.cpp:694-724 | rejecting is splitting; an unknown action or sighting changes nothing |
| `EmitterOutcome.MoveOutcome` | central/emitter_db.cpp:705-710 | a move, to any target, takes the sighting out of the list it was in, if any, and to the end of the target's, if that is known, and touches nothing else |
| `EmitterOutcome.SplitThenMoveBack` | central/emitter_db.cpp:705-719 | moving back undoes a split, up to the order in the list and the empty emitter left behind |
| `EmitterTotals.StepSettles` | central/emitter_db.cpp:495-727 | whatever is done, apart from writing an emitter, leaves each emitter as it was or with totals that say exactly what its members are, and every field an operator can set as it was |
| `EmitterTotals.WithoutParts` | central/emitter_db.cpp:675-682 | taking a sighting out of a list takes out every occurrence and keeps the order of the rest |
| `EmitterTotals.ArrivesOnce` | central/emitter_db.cpp:683-689 | a sighting moved to an emitter that lists it already is not listed twice |
| `EmitterTotals.EmitterDeletedOutcome` | central/emitter_db.cpp:613-628 | deleting an emitter leaves its sightings, pending and without an emitter, and touches no others |
| `EmitterTotals.FileDeletedOutcome` | central/emitter_db.cpp:630-664 | deleting a file deletes exactly its sightings; emitters that lost none are as before, the others list what they have left, and those with nothing left are gone |
| `EmitterDb.EmitterStore.Recompute` | central/emitter_db.cpp:495-514 | one walk over the members computes the exact summary |
| `EmitterDb.EmitterStore.IngestSighting` | central/emitter_db.cpp:516-584 | the maps change in place as one ingest step, and the result reports the link made |
| `EmitterDb.EmitterStore.UpsertEmitter` | central/emitter_db.cpp:586-611 | the maps change in place as one upsert step |
| `EmitterDb.EmitterStore.DeleteEmitter` | central/emitter_db.cpp:613-628 | the maps change in place as one delete step; reports whether the emitter was known |
| `EmitterDb.EmitterStore.DeleteSightingByFilename` | central/emitter_db.cpp:630-664 | all sightings of the file go; the orphaned output names exactly the emitters this empties |
| `EmitterDb.EmitterStore.LinkSighting` | central/emitter_db.cpp:666-727 | the maps change in place as one link step; reports whether the sighting and the action are known |
| `JsonText.BodyRoundTrip` | central/emitter_db.cpp:43-93 | unescaping an escaped string gives it back for every string of bytes, whatever follows |
| `JsonText.ArrayRoundTrip` | central/emitter_db.cpp:176-200 | string lists come back element by element |
| `JsonText.NumberRoundTrip` | central/emitter_db.cpp:94-102 | a printed number text is taken whole and nothing after it |
| `JsonText.IntegerRoundTrip` | central/emitter_db.cpp:103-106 | a 64-bit integer survives printing and reading through a double if and only if it is a double |
| `JsonText.SmallIntegersSurvive` | central/emitter_db.cpp:103-106 | so every integer below 2^53 does |
| `JsonText.FirstLostInteger` | central/emitter_db.cpp:103-106 | and 2^53 + 1 does not |
| `JsonNotation.EscapesAre` | central/emitter_db.cpp:43-62 | which characters are escaped, and how, as RFC 8259 has it |
| `JsonNotation.FourDigits` | central/emitter_db.cpp:81-87 | four hexadecimal digits are read as the number they write |
| `JsonNotation.NearestDouble` | central/emitter_db.cpp:94-106 | an integer is rounded to a nearest multiple of the spacing of doubles there, between two to the even one |
| `JsonNotation.KeptIs` | central/emitter_db.cpp:94-106 | what a 64-bit integer is after printing and reading: the nearest double, cut off at 2^63 |
| `JsonReader.Reader.ReadStr` | central/emitter_db.cpp:69-93 | the cursor reads one string as the function of the text after it says, malformed text included |
| `JsonReader.Reader.ReadNum` | central/emitter_db.cpp:94-102 | the cursor takes the longest number text |
| `JsonReader.Reader.Skip` | central/emitter_db.cpp:107-132 | the cursor passes one value, nested lists and objects included |
| `JsonReader.Reader.ReadArr` | central/emitter_db.cpp:230-276 | the cursor reads a list of strings |
| `JsonUnknown.SkipValueRoundTrip` | central/emitter_db.cpp:107-132 | skipping a value, with white space anywhere between its tokens and any escapes in its strings, leaves exactly what follows it, if and only if the value is not itself true, false or null |
| `JsonUnknown.UnknownKeySkipped` | central/emitter_db.cpp:230-276 | a field under an unknown key changes nothing, whatever text its key and its value are, with any white space, unless the value is itself true, false or null: then the record is lost |
| `JsonUnknown.SkippedExactly` | central/emitter_db.cpp:230-276 | where the rest can be read, such a field is skipped if and only if its value is not itself a literal |
| `JsonUnknown.LiteralStops` | central/emitter_db.cpp:107-132 | true, false or null under an unknown key loses the record, whatever follows |
| `JsonUnknown.UnknownFieldsIgnored` | central/emitter_db.cpp:230-276 | a record to which any unknown fields have been added, anywhere, is read like the record without them, unless one of them holds a literal: then it is lost |
| `JsonUnknown.BodyReads` | central/emitter_db.cpp:69-92 | a string is read up to its closing quote as what its escapes stand for, codes beyond ASCII left out, whatever follows |
| `JsonUnknown.EscapedIsBody` | central/emitter_db.cpp:43-92 | what the writer makes of a string stands for that string |
| `JsonRecords.NonFiniteStops` | central/emitter_db.cpp:184-190 | a float printed as inf or nan loses the record on reading |
| `JsonRecords.TableRoundTrip` | central/emitter_db.cpp:176-346 | printing and reading any record agrees on every field up to rounding integers to doubles, and loses exactly records with a float that is not finite |
| `JsonRecords.RecordIsOneLine` | central/emitter_db.cpp:176-346 | a printed record holds no raw newline |
| `JsonRecords.FieldIs` | central/emitter_db.cpp:179-207 | a field is its key and its value as text: strings and lists of strings quoted and escaped |
| `JsonNotation.FieldStops` | central/emitter_db.cpp:230-236 | fields end at a closing brace; before it anything but a quoted key with a colon makes the line no record |
| `JsonNotation.LineStops` | central/emitter_db.cpp:231-232 | and so does a line that does not begin with a brace |
| `JsonFiles.JsEscape` | central/emitter_db.cpp:43-62 | the escaping loop computes the escaped string |
| `JsonFiles.ParseLine` | central/emitter_db.cpp:230-276 | the parsing loop over the cursor computes the record the text stands for, or refuses it |
| `JsonFiles.LoadSaved` | central/emitter_db.cpp:378-426 | loading a saved file is rereading its records one by one |
| `JsonFiles.FileRoundTrip` | central/emitter_db.cpp:378-426 | saving a map in any order and loading it rebuilds the map, less what cannot be reread |
| `JsonFiles.LoadRecords` | central/emitter_db.cpp:378-404 | the loading loop skips lines without a keyed record; a later record replaces an earlier one |
| `JsonFiles.SaveRecords` | central/emitter_db.cpp:406-426 | the saving loop writes one record a line |
| `EmitterJson.EmitterToJsonl` | central/emitter_db.cpp:176-228 | prints all sixteen fields in order |
| `EmitterJson.EmitterFromJsonl` | central/emitter_db.cpp:230-276 | reads them under their keys, refusing a record without a uid |
| `EmitterJson.EmitterRoundTrip` | central/emitter_db.cpp:176-276 | an emitter comes back with its times rounded to doubles, and is lost exactly when it has no uid or a float that is not finite |
| `EmitterJson.EmitterSurvives` | central/emitter_db.cpp:176-276 | it comes back as itself if and only if, besides, its three times are doubles |
| `EmitterJson.EmitterFileRoundTrip` | central/emitter_db.cpp:378-415 | a saved emitter file loads back as the same map, so far |
| `EmitterJson.EmitterLineIsOneLine` | central/emitter_db.cpp:176-228 | no printed emitter holds a raw newline |
| `EmitterJson.EmitterLineIs` | central/emitter_db.cpp:176-228 | the line of an emitter: its sixteen fields in order, each under its key |
| `EmitterJson.OnlyUid` | central/emitter_db.hpp:43-61 | an emitter of which a line says only the uid: an empty one with a tolerance of 1 kHz |
| `SightingJson.SightingToJsonl` | central/emitter_db.cpp:278-317 | prints all fifteen fields in order |
| `SightingJson.SightingFromJsonl` | central/emitter_db.cpp:319-346 | reads them under their keys, refusing a record without an id |
| `SightingJson.SightingRoundTrip` | central/emitter_db.cpp:278-346 | a sighting comes back with its start rounded to a double, and is lost exactly when it has no id or a float that is not finite |
| `SightingJson.SightingSurvives` | central/emitter_db.cpp:278-346 | it comes back as itself if and only if, besides, its start is a double |
| `SightingJson.SightingFileRoundTrip` | central/emitter_db.cpp:392-426 | a saved sighting file loads back as the same map, so far |
| `SightingJson.SightingLineIsOneLine` | central/emitter_db.cpp:278-317 | no printed sighting holds a raw newline |
| `SightingJson.SightingLineIs` | central/emitter_db.cpp:278-317 | the line of a sighting: its fifteen fields in order, each under its key |
| `SightingJson.OnlySid` | central/emitter_db.hpp:24-40 | a sighting of which a line says only the id: an empty one, pending |
| `EmitterFiles.SavedAndLoaded` | central/emitter_db.cpp:364-426 | a library whose links hold, saved to its two files and loaded again, holds exactly the records whose lines can be read again, and its links hold again if and only if of every link both records come back, or neither |
| `EmitterFiles.LinksSurvive` | central/emitter_db.cpp:364-426 | when no link loses both its records: if and only if no record taking part in a link is lost |
| `EmitterFiles.LoadedRecords` | central/emitter_db.cpp:364-426 | what is loaded is every record whose line can be read again, its floats as their text gives them and its times as doubles, everything else as it was |
| `EmitterFiles.RestoredExactly` | central/emitter_db.cpp:364-426 | an emitter comes back as it was if and only if its floats survive printing and its times are doubles |
| `EmitterFiles.LibrarySurvives` | central/emitter_db.cpp:364-426 | saving and loading changes nothing if and only if that holds of every record, and every record can be read again |
| `LittleEndian.LeRoundTrip` | src/long_waterfall.hpp:29-80 | a field written little-endian reads back when it fits its width |
| `LittleEndian.BytesOf` | src/long_waterfall.hpp:29-80 | the least significant byte comes first, in fields of one, two, four and eight bytes |
| `HistFormat.CompressedHeaderReads` | central/central_mission_archive.cpp:203-212 | the v4 header keeps the v3 fields and reads back as the extension it was given |
| `HistFormat.HeaderRoundTrip` | central/central_mission_archive.cpp:137-139 | restoring the version and clearing the reserved bytes undoes it |
| `HistFormat.DeltaRoundTrip` | central/central_mission_archive.cpp:230-236 | the running sum mod 256 undoes the column delta of a row |
| `HistFormat.RowsRoundTrip` | central/central_mission_archive.cpp:151-157 | and of any number of rows |
| `HistFormat.EntryRoundTrip` | src/long_waterfall.hpp:75-79 | an index entry reads back |
| `HistCodec.BlocksCount` | central/central_mission_archive.cpp:187 | the block split has as many blocks as the rounded-up division says |
| `HistCodec.BlocksJoin` | central/central_mission_archive.cpp:224-231 | the blocks, the short last one included, are the rows cut: nothing lost, repeated or reordered |
| `HistCodec.IndexAt` | central/central_mission_archive.cpp:240-245 | entry b of the index holds the offset, length and row count of frame b |
| `HistCodec.ContainerHeader` | central/central_mission_archive.cpp:203-263 | the header of the finished file, offset patched, says where everything is |
| `HistCodec.ContainerEntry` | central/central_mission_archive.cpp:248-263 | following the index from the header leads to exactly the frame of each block |
| `HistCodec.BlockRoundTrip` | central/central_mission_archive.cpp:142-158 | the reader gets every block back |
| `HistCodec.HistRoundTrip` | central/central_mission_archive.cpp:108-280 | decompressing a compressed recording gives the header with reserved bytes clear and exactly the whole rows, for every body, row width and block size |
| `HistCodec.HistUnchangedExactly` | central/central_mission_archive.cpp:108-280 | the file comes back unchanged if and only if its reserved bytes were clear and its last row whole |
| `HistCodec.FitsWhenSmall` | src/long_waterfall.hpp:67-80 | every recording up to one gigabyte fits the container's fields, for a compressor within its bound |
| `HistLayout.HeaderLayout` | src/long_waterfall.hpp:29-74 | where the fields of the header stand, v4 extension included, and how their bytes are read |
| `HistLayout.EntryLayout` | src/long_waterfall.hpp:75-79 | an index entry is eight bytes of offset, four of length and four of row count |
| `HistLayout.DefaultRows` | src/long_waterfall.hpp:90-96 | the block size is the greatest number of rows in two megabytes, brought into 64..1024 |
| `HistLayout.CompressibleExactly` | central/central_mission_archive.cpp:166-185 | compressed are exactly the raw recordings with at least one whole row |
| `HistLayout.WholeRowsAre` | central/central_mission_archive.cpp:181-184 | the rows taken are the whole ones, and only a part of a row is left |
| `HistLayout.DeltaBytes` | central/central_mission_archive.cpp:230-236 | a byte is stored as its difference from the one before it, modulo 256 |
| `HistLayout.CompressedHeaderKeeps` | central/central_mission_archive.cpp:203-263 | the compressed header keeps every byte but the version and 26 of the reserved ones |
| `HistLayout.ContainerShape` | central/central_mission_archive.cpp:203-263 | the header of a compressed recording has the rows, the rows per block and as many blocks as they take |
| `HistLayout.ContainerRows` | central/central_mission_archive.cpp:214-246 | entry b leads to a frame that unpacks to the rows from b times the block size on, as many as a block holds or are left, each differenced by itself |
| `HistLayout.ReadableExactly` | central/central_mission_archive.cpp:108-128 | which files are decompressed at all, byte by byte |
| `HistLayout.BlockExactly` | central/central_mission_archive.cpp:139-158 | a block is read if and only if its entry is in range and its frame unpacks to the size it says; the rows are those whose differences were unpacked, or without the delta flag the unpacked ones |
| `HistLayout.DecodedExactly` | central/central_mission_archive.cpp:139-163 | blocks are read in order, all or nothing |
| `HistLayout.DecompressedExactly` | central/central_mission_archive.cpp:108-163 | the result is the header with version 3 and the last 28 bytes clear, then the rows |
| `HistCompressor.DeltaRow` | central/central_mission_archive.cpp:230-236 | the loop over one row writes its column delta into the other buffer |
| `HistCompressor.SumRowInPlace` | central/central_mission_archive.cpp:152-156 | the loop replaces one row by its running sum and leaves the other rows |
| `HistCompressor.SumBlockInPlace` | central/central_mission_archive.cpp:151-157 | the whole block is undone in place |
| `HistCompressor.CompressBody` | central/central_mission_archive.cpp:214-246 | the block loop produces the frames in order and the index beside them |
| `HistCompressor.CompressHist` | central/central_mission_archive.cpp:166-280 | the compressor produces exactly the container of the file, or refuses what is not a raw recording with a whole row |
| `HistCompressor.DecompressBlock` | central/central_mission_archive.cpp:142-158 | one block through the buffer, or a failure when its entry or frame does not check |
| `HistCompressor.DecompressHist` | central/central_mission_archive.cpp:108-163 | the decompressor computes the decoded file, failing on the first bad block |
| `HistLive.FoldKeepsPeak` | central/central_mission_archive.cpp:1226-1238 | max-folding a padded row keeps every peak |
| `HistLive.FoldInventsNothing` | central/central_mission_archive.cpp:1226-1238 | and writes only values of the frame |
| `HistLive.FoldOne` | central/central_mission_archive.cpp:1223-1227 | an unpadded row is written as it is |
| `HistLive.RowIsFold` | central/central_mission_archive.cpp:1222-1240 | the row a stream writes is the greatest of each group of the frame, as many groups as it is wide |
| `HistLive.StopOutcome` | central/central_mission_archive.cpp:1279-1348 | closing removes a recording without rows or shorter than ninety seconds, keeps any other whole under its final name, and changes no other file |
| `HistLive.StartOutcome` | central/central_mission_archive.cpp:1024-1127 | opening makes a file with the header announced and no rows, under the name given, and changes no other |
| `HistLive.RangeOutcome` | central/central_mission_archive.cpp:1184-1210 | a first frame fixes the range of a stream, in memory and in the header; later ones leave it |
| `HistLive.FrameOutcome` | central/central_mission_archive.cpp:1136-1246 | a frame closes an open stream if and only if rotation looks for its name; any other keeps its rows, has the range of its first frame, and gets the folded row if its width divides the frame |
| `HistLive.RowsWritten` | central/central_mission_archive.cpp:1222-1240 | exactly the streams whose width divides the frame append one row to their own file: byte o is the greatest of the o-th group of the frame, the frame itself when the widths agree; nothing else changes |
| `HistLive.StartKeeps` | central/central_mission_archive.cpp:1024-1127 | opening a stream keeps the invariant |
| `HistLive.StopKeeps` | central/central_mission_archive.cpp:1279-1348 | closing, discarding or finalising one does |
| `HistLive.FrameKeeps` | central/central_mission_archive.cpp:1136-1246 | a frame, range change and rotation included, keeps the invariant if and only if no stream that has changed its range and takes the frame has a 64-byte name |
| `HistLive.EveryRun` | central/central_mission_archive.cpp:1024-1348 | in a run, every file of every state holds whole rows only, all quantised with the one range in its header, if and only if at each frame no stream that has changed its range and takes the frame has a 64-byte name; then memory counts the rows, too |
| `HistLive.ShortNamesSuffice` | central/central_mission_archive.cpp:1024-1348 | so it does in every run whose names end inside their field |
| `HistLive.EveryRunCounts` | central/central_mission_archive.cpp:1024-1348 | and in every run at all, files hold whole rows only, as many as memory counts |
| `HistLive.RotationMissesExactly` | central/central_mission_archive.cpp:1214-1218 | of the streams with a changed range, rotation leaves open exactly those whose name fills all 64 bytes |
| `HistLive.LongNameMixes` | central/central_mission_archive.cpp:1214-1246 | such a stream gets a row its header misreads |
| `HistLive.SingleRangeExactly` | central/central_mission_archive.cpp:1136-1246 | a frame leaves every file with a single range if and only if no stream that has changed its range and takes the frame has a 64-byte name |
| `HistLive.LongNameRun` | central/central_mission_archive.cpp:1136-1246 | for any 64-byte name, a start and two frames of different ranges leave a file with rows of both |
| `HistRoom.FoldRow` | central/central_mission_archive.cpp:1225-1238 | the folding loops compute a row whose byte o is the greatest of the o-th group |
| `HistRoom.Room.OnLiveStart` | central/central_mission_archive.cpp:1024-1127 | the maps of streams and files change in place as one start step |
| `HistRoom.Room.OnLiveStop` | central/central_mission_archive.cpp:1279-1348 | and as one stop step |
| `HistRoom.Room.SettleRanges` | central/central_mission_archive.cpp:1184-1210 | the first frame fixes the range in stream and header, and the streams to rotate are listed, each once |
| `HistRoom.Room.WriteRows` | central/central_mission_archive.cpp:1222-1245 | exactly the open streams whose width divides the frame's write one row |
| `HistRoom.Room.OnFft` | central/central_mission_archive.cpp:1136-1246 | the three together are one frame step, in some order of the container |
| `HistMerge.RawMerge` | central/central_mission_archive.cpp:1545-1580 | joining a segment to a raw predecessor keeps its header and start time and adds the row counts; the rows are those of both in order if and only if the predecessor ends with a whole row |
| `HistMerge.CompressedMerge` | central/central_mission_archive.cpp:1541-1580 | joining a segment to a compressed predecessor gives the predecessor's whole rows and then the segment's, under the start time and width of the predecessor, and the row counts add up |
| `HistMerge.OthersSurviveExactly` | central/central_mission_archive.cpp:1600-1608 | the inputs are replaced by the merged file, and every third file survives if and only if the merged name was free, an input's, or held the same bytes |
| `HistMerge.PrecedesExactly` | central/central_mission_archive.cpp:1470-1531 | what a predecessor is, in the bytes of the two headers: same frequency, rate, size and dB range, an earlier start, and an end within two seconds of the segment |
| `HistMerge.RateIs` | central/central_mission_archive.cpp:1527 | the rate is the one in the header above 0.5, otherwise 5 |
| `HistMerge.RowCountIs` | central/central_mission_archive.cpp:1491-1498 | the rows are those in the v4 extension, or the whole ones in a raw body |
| `HistMerge.MatchingScale` | central/central_mission_archive.cpp:1470-1479 | under matching headers every byte means the same level to within 0.01 dB |
| `HistMerge.MergedScale` | central/central_mission_archive.cpp:1501-1580 | so it does in the merged file for the rows of the segment, and centre frequency, sample rate and size are the segment's; the start time is the predecessor's |
| `HistMerge.MergedNameIs` | central/central_mission_archive.cpp:1583-1586 | the name of the merged file is made with the second in which its last row ends at the rate of the predecessor |
| `HistMerge.Archive.FindPredecessor` | central/central_mission_archive.cpp:1510-1535 | the predecessor is a recording on which the segment follows by the bytes of their headers, and started last among those |
| `HistMerge.Archive.MergeHistSegment` | central/central_mission_archive.cpp:1501-1615 | succeeds exactly when there is a predecessor that can be read and the rename works; then the merged file is in place, on the scale of the segment and from the start of the predecessor, otherwise every file is as before |
| `UplinkSpec.OnePassIsRepeated` | src/central_client.cpp:206-220 | the single-pass overflow drop leaves what repeated removal of the oldest droppable packet leaves |
| `UplinkSpec.PassDivides` | src/central_client.cpp:206-220 | the pass splits the queue into kept and dropped, all dropped ones droppable, sums added up |
| `UplinkSpec.PassFrees` | src/central_client.cpp:206-220 | it frees enough or leaves only exempt packets, and drops nothing without need |
| `UplinkSpec.PassKeepsOrder` | src/central_client.cpp:206-220 | it keeps the order |
| `UplinkSpec.QueuedSurvivesExactly` | src/central_client.cpp:204-220 | wherever it waits, a packet survives the next one if and only if one of the two is exempt, or the next one fits once everything droppable before it has gone |
| `UplinkSpec.EveryRun` | src/central_client.cpp:198-263 | in every run every accepted packet is in exactly one place, byte and drop counters are exact, nothing exempt is dropped, and non-heartbeats stay in order |
| `UplinkSpec.WithinBudget` | src/central_client.cpp:204-231 | after a droppable packet the queue is within 4 MiB unless all other queued ones are exempt |
| `UplinkSpec.AcceptedIsAccountedFor` | src/central_client.cpp:198-263 | while the link holds, accepted is exactly sent, in hand, queued and dropped |
| `UplinkSpec.ExemptSurvives` | src/central_client.cpp:198-263 | an exempt packet is sent, in hand or queued |
| `UplinkSpec.SentInOrder` | src/central_client.cpp:198-263 | non-heartbeats leave in the order accepted |
| `UplinkSpec.HeartbeatLeads` | src/central_client.cpp:223-227 | a heartbeat taken next leads the batch |
| `UplinkSpec.FrontHeartbeatSurvivesExactly` | src/central_client.cpp:223-228 | a heartbeat in front survives the next packet if and only if it is exempt, or that packet is exempt or fits |
| `UplinkSpec.FrontKeptExactly` | src/central_client.cpp:198-263 | a heartbeat in front stays in front until the next batch is taken if and only if no later heartbeat comes, and it is exempt or every later droppable packet fits |
| `UplinkSpec.LeadsNextBatchExactly` | src/central_client.cpp:198-263 | if no later heartbeat comes it leads the next batch if and only if it is exempt or every later droppable packet fits, and otherwise it is in no batch |
| `UplinkSpec.EnqueueOutcome` | src/central_client.cpp:198-232 | a packet, header before data, goes last, or first when it is a heartbeat; nothing is dropped for it if it is exempt or fits into four megabytes, otherwise it fits afterwards or only exempt ones are left |
| `UplinkSpec.TakeOutcome` | src/central_client.cpp:243-250 | a batch is the first 64 packets, or all |
| `UplinkQueue.SendQueue.MakeRoom` | src/central_client.cpp:206-220 | the erasing loop computes the single pass, in place |
| `UplinkQueue.SendQueue.EnqueueCentral` | src/central_client.cpp:198-232 | queue, bytes and counter change in place as one enqueue step, or not at all while the sender is stopped |
| `UplinkQueue.SendQueue.Take` | src/central_client.cpp:243-250 | the batch is the oldest packets, at most 64 |
| `UplinkQueue.SendAll` | src/central_client.cpp:234-263 | a batch is sent packet by packet until one fails |
| `UplinkQueue.BatchSentSplits` | src/central_client.cpp:251-261 | everything before the first failure is sent, everything from it on is lost with the link |
| `UplinkQueue.SendQueue.Reset` | src/central_client.cpp:278-300 | starting and stopping empty the queue |
| `JoinSpec.ExcessIsLeast` | central/central_server.hpp:237-240 | dropping keeps the longest run of newest packets that leaves room |
| `JoinSpec.PutKeeps` | central/central_server.hpp:233-258 | after it the counter is exact and the queue within budget or a single packet |
| `JoinSpec.TakenOf` | central/central_server.hpp:163-200 | a batch takes of each class what its rule says: all control alone, or all audio, four FFT, two file packets |
| `JoinSpec.TakenUnmixed` | central/central_server.hpp:163-200 | no batch mixes control with another class |
| `JoinSpec.EveryRun` | central/central_server.hpp:129-277 | in every interleaving counters equal queue totals, bounded queues are within budget or hold one packet, what left each queue is what was sent, lost or is in hand, and batches are unmixed |
| `JoinSpec.NeverLostNorReordered` | central/central_server.hpp:129-277 | while the link lives all accepted control and file packets are sent, in hand or queued, in order |
| `JoinSpec.OnlyOldestDropped` | central/central_server.hpp:233-258 | audio and FFT lose only from the old end |
| `JoinSpec.DropsNoMoreThanNeeded` | central/central_server.hpp:233-244 | an FFT or audio packet drops the least number of oldest packets of its queue that makes it fit into two megabytes or half a one |
| `JoinSpec.ControlGoesFirst` | central/central_server.hpp:165-169 | waiting control packets are the whole next batch |
| `JoinSpec.BatchOutcome` | central/central_server.hpp:163-200 | a batch is all control packets if there are any, else all audio, then up to four FFT, then up to two file packets, in this order |
| `JoinSpec.FileOutcome` | central/central_server.hpp:264-277 | a file packet is queued, while the client is there, as soon as it fits into sixteen megabytes or the queue is empty |
| `JoinSpec.SendOutcome` | central/central_server.hpp:133-152 | a packet in hand is sent, or lost once the connection has failed |
| `JoinQueues.JoinEntry.EnqueueData` | central/central_server.hpp:233-244 | the FFT queue and its counter change in place as one step |
| `JoinQueues.JoinEntry.EnqueueAudio` | central/central_server.hpp:248-258 | so do the audio queue and its counter |
| `JoinQueues.JoinEntry.EnqueueFile` | central/central_server.hpp:264-277 | once the wait ends a file packet is appended, or refused when the client is gone |
| `JoinQueues.JoinEntry.EnqueueCtrl` | central/central_server.hpp:220-229 | a control packet is always appended |
| `JoinQueues.JoinEntry.TakeBatch` | central/central_server.hpp:155-205 | the worker's loops compute the batch |
| `JoinQueues.MoveOut` | central/central_server.hpp:174-199 | the clamping branch is dead: the counter always covers the packet |
| `JoinQueues.DropOldest` | central/central_server.hpp:237-240 | the loop computes what stays |
| `IqRing.KeepBelowLimitExactly` | src/channel.hpp:454-467 | what the limiter keeps is at most what triggers it if and only if it fits half the ring |
| `IqRing.BurstsFit` | src/hw_config.hpp:184 | with bursts of at most 2^20 samples and rates up to 104.8576 MHz it does |
| `IqRing.LimitsAre` | src/channel.hpp:454-467 | the limit is eighty milliseconds or two bursts, at most half the ring; what is kept is twenty milliseconds or one burst |
| `IqRing.WriteHolds` | src/bladerf_io.cpp:541-551 | a chunk written with wrap keeps the last 2^22 samples of the stream in their slots |
| `IqRing.Ring.Write` | src/bladerf_io.cpp:541-551 | one or two copies write the chunk into the shared ring |
| `IqRing.MaskedLagExactly` | src/demod.cpp:78-80 | the masked lag is the true lag if and only if that is below the capacity |
| `IqRing.ResumeExactly` | src/demod.cpp:78-95 | reading steps back if and only if the limiter acts and keeps more than there is to catch up; while it keeps no more than triggers it, reading only skips forward, and skips if and only if the true lag exceeds the limit |
| `IqRing.ResumeIs` | src/demod.cpp:78-95 | reading goes on where it stopped, as far as the masks tell, or beyond the limit where as much is left as is to be kept |
| `IqRing.Ring.DemStep` | src/demod.cpp:78-191 | one round consumes the contiguous stream samples from the resume point, up to a batch, or discards the backlog while idle; with at most half the ring kept it never steps back |
| `IqRing.Ring.Consume` | src/demod.cpp:119-122 | the samples read at masked positions are those of the stream |
| `SquelchRecorder.Quantised` | src/channel.hpp:181 | a sample in range is rounded toward zero by less than one step; others are clipped |
| `SquelchRecorder.NearIsSince` | src/channel.hpp:156-180 | the two ways of saying the gate was open lately agree |
| `SquelchRecorder.GateStep` | src/channel.hpp:158-179 | the state machine writes a sample exactly when the gate was open at it or within the sr + 1 samples before |
| `SquelchRecorder.ClosedStretch` | src/channel.hpp:164-179 | after an opening, a closed stretch of n samples adds the first min(n, sr + 1) |
| `SquelchRecorder.OpenIsKept` | src/channel.hpp:156-180 | every open sample is kept |
| `SquelchRecorder.KeptCounts` | src/channel.hpp:183-189 | the frames kept are as many as the gate alone decides |
| `SquelchRecorder.KeptIqCounts` | src/channel.hpp:218-268 | the same for IQ frames |
| `SquelchRecorder.ForcedKeepsAll` | src/channel.hpp:222-226 | in force mode every sample is kept as it is |
| `SquelchRecorder.AudioRecorder.MaybeRecAudio` | src/channel.hpp:151-189 | file plus staging buffer is exactly what is to be kept, the counter counts it, and ignored calls change nothing |
| `SquelchRecorder.AudioRecorder.Drain` | src/channel.hpp:192-196 | afterwards all of it is in the file |
| `SquelchRecorder.IqRecorder.StepGate` | src/channel.hpp:226-253 | the gate part, with silence in the tail |
| `SquelchRecorder.IqRecorder.MaybeRecIq` | src/channel.hpp:218-268 | file plus staging buffer is exactly what is to be kept, and every 65536 frames the buffer is empty |
| `SquelchRecorder.IqRecorder.Drain` | src/channel.hpp:271-275 | afterwards all of it is in the file |
| `AisLog.RecordsOfStored` | central/central_server.cpp:2096-2106 | a log is read back record by record, cut or filled to the current layout, short or nameless ones left out |
| `AisLog.TornTailIgnored` | central/central_server.cpp:2098-2101 | a tail torn anywhere inside a record is ignored and nothing before it is |
| `AisLog.EmittedReadsBack` | central/central_server.cpp:2090-2106 | emitted records are read back as they were |
| `AisLog.VesselReadsBack` | central/central_server.cpp:2141-2145 | a vessel's history holds exactly its records in log order |
| `AisLog.CountOnly` | central/central_server.cpp:2134 | writing the count changes neither time nor vessel |
| `AisLog.CountBytesOnly` | central/central_server.cpp:2134 | nor any byte but the four of the count |
| `AisLog.Layout` | src/modules/ais/ais_meta.hpp:72-88 | where the fields stand behind the 24 bytes of the envelope, and how their bytes are read |
| `AisLog.ReadIs` | central/central_server.cpp:2082-2106 | a stored record of fewer than 24 bytes or without a vessel gives nothing; any other gives its bytes, at most 186, zeros behind them |
| `AisSummary.WindowOf` | central/central_server.cpp:2125 | the window holds, per recent time, the last record at it |
| `AisSummary.LatestExactly` | central/central_server.cpp:2123-2124 | the latest record of a kind is the one with the greatest time not before 1970 |
| `AisSummary.TimesExactly` | central/central_server.cpp:2128-2133 | a time is emitted if and only if it is recent or that of the first, the latest positioned or the latest named record |
| `AisSummary.KeptAt` | central/central_server.cpp:2125-2133 | of several records at one time the window keeps the last, and outside it the earliest counts, in the order first, positioned, named |
| `AisSummary.VesselSummary` | central/central_server.cpp:2109-2138 | per vessel: strictly increasing times, exactly those, and the number of records in the first entry |
| `AisSummary.EntriesChosen` | central/central_server.cpp:2125-2135 | every entry is the record chosen for its time, byte for byte, but for the count in the first |
| `AisSummary.SummaryReadsBack` | central/central_server.cpp:2109-2138 | reading the summary back gives what was emitted, and for each vessel its own summary |
| `AisSummary.SummaryAscends` | central/central_server.cpp:2127-2137 | the summary goes through the vessels in increasing order |
| `AisBuilder.BuildSummary` | central/central_server.cpp:2109-2138 | the walk and the emission loops compute the summary, with a window of ten minutes |
| `AisBuilder.BuildVessel` | central/central_server.cpp:2141-2145 | the walk computes the history |
| `AisBuilder.Gather` | central/central_server.cpp:2118-2126 | the per-vessel entries updated along the walk are those of each vessel's records |

## Left out

- Sockets, threads, condition variables, memory ordering and watchdogs: locked sections are single steps, and only safety is proved.
- Floating-point rounding, infinities and NaN: exact reals, except that the JSON files treat the printed text of a float as it is.
- Failing reads and writes of files, apart from the rename of a merge; the temporary files of compression and merge.
- ZSTD itself, FFT, demodulation arithmetic, device handling and user interfaces.
- The original decomposition goes on after a division by zero, printing a message; the model stops there and returns false. The printed warnings for pivots below 0.000001 are not modelled.
- LuSolve.LuBackSubstitute: needs an order above zero, as the code does, and the factors it is given.
- HistCodec.FitsWhenSmall: takes one gigabyte as its bound; beyond it `HistRoundTrip` asks that the counts and lengths fit their fields, and the block count is not truncated to 32 bits.
- HistLive.EveryRun: names have at most 64 bytes, the width of their field, so a name of 64 bytes or more is one of 64; takes a free name for a new or a finished file; the code tries ninety-nine suffixes and then overwrites. A name that is taken stands for a failing open or rename.
- HistRoom.Room.OnLiveStart: the guards before it (an active mission, a safe file name) are not modelled.
- Legacy live rows sent separately from FFT frames, the unpacking of six-bit frames, and the queueing of finished files for compression.
- HistMerge.Archive.FindPredecessor: which of several predecessors with the same start is taken depends on the directory order and is left open; the listing holds the finished recordings only.
- The building of HIST file names: the name of a merged file is a parameter.
- EmitterDb.EmitterStore.DeleteSightingByFilename: says which emitters the affected output must contain, not that it contains them once or no orphaned one; the code does not ensure either.
- EmitterSpec.RecomputedExact: holds after a recomputation; ingesting a known sighting again refreshes its fields without one.
- EmitterDb.EmitterStore.IngestSighting: new identifiers are parameters, assumed new; the score and the tolerance window are computed over reals. For the sums of the weights alone the thresholds are on the same side as in the code; at the edge of a tolerance window a float may decide otherwise.
- JsonText.IntegerRoundTrip: integers are printed without an exponent; an exponent in the text of an integer field is not modelled, and a value outside 64 bits reads as the smallest one.
- A numeric field whose number is missing leaves an uninitialised double in the code; the model leaves the field unchanged.
- Float fields printed with "%.6g" do not keep their value; their text is opaque.
- DetectLock.Channel.SetChannelDetect: the channel is taken to be active.
- The squelch gate, the decoder gate and the starting and stopping of demodulators around a lock.
- DetectBaseline.Baseline.Accumulate: as in the code, collection restarts only when the number of bins changes; rows collected under an earlier tuning of the same width count towards the mean.
- DetectScan.FindBurst: notch bounds are computed over reals.
- IqRing.Ring.DemStep: a round is one step between writes; a write that overtakes a reader in the middle of a round is not modelled.
- The mixing, filtering, decimation and resampling between the ring and the recorder.
- SquelchRecorder.AudioRecorder.MaybeRecAudio: the sample rate does not change during a recording; WAV headers and metadata files are not modelled.
- UplinkQueue.SendQueue.EnqueueCentral: header and data are byte sequences, never null.
- JoinQueues.JoinEntry.EnqueueFile: the wait itself is not modelled, only what follows it.
- AisSummary.VesselSummary: the count in the first entry is exact below 2^32 records and wraps beyond.
- The packet dispatch, chat, command line, status pages, database file lookup and downloads: many branches, shallow properties.
- `determinant` and `Percentile` in src/MathTimeLib.cpp, and the rest of that library.
