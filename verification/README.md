# puckview: presence engine, publish protocol, subnet sweep, MAC identities

puckview watches a LAN. It keeps the presence of every device (has it ever answered
ICMP, when was it last up, when was it last sighted) in memory, journals it to SQLite
behind its own back, and shows it to browsers over server-sent events. This project
models the parts of it that have to cooperate to be right and proves that they do. Where
the code does not meet a promise, it proves exactly when the code does.

## What is modelled

**The presence engine** (`Types`, `StateSpec`, `State`, `JournalSpec`, `Store`, `Server`).
`StateObject.State` is the server's in-memory model and `StoreObject.Store` the journal:
classes whose methods update fields in place, loop over their maps in an arbitrary order and
are each proved against a function of `StateSpec` or `JournalSpec`. `ServerObject.Server`
composes them into flush, reload, prune and the probe tick. A transaction takes effect
statement by statement on a copy and either commits or has no effect; which statement fails
is an input.

**The engine as a step system** (`Engine`). One step is one critical section of the source:
folding in a neighbour snapshot or a probe cycle, noting or forgetting an untracked host, any
administrative write, a probe tick, drain, commit, failure and restore, and a reload split
into its read and its merge. There is at most one batch in flight; any number of reloads may
have read the journal and not yet merged. A run is any sequence of enabled steps, so it
covers every interleaving of the loops and the handlers. The clock is an input. Where a
theorem needs it not to go backwards in the order in which the lock is obtained (`Timely`),
it says so.

On it are proved: write-behind refines write-through (`WriteBehind`), and what is known and
shown is exactly what was folded in (`Evidence`, `LegacyLog`); edits reach memory (`Config`);
what a kill or a clean shutdown preserves and exactly when the hazards bite (`Durability`); the
exactly-once event log and its meaning (`EventLog`); address reconciliation (`IpMoves`); the write throttle
(`Throttle`) and what is remembered of a host (`Hosts`); what deletion and retention remove
(`History`); the order of reachable scalars (`Ordering`); the activity gate (`Gate`, and
`PulseGate` for its pulses).
`Backfill` is a second step system, on the same journal, for the background collapse of the
old log. `Cadence` shows that the methods of the classes are runs of the steps.

**The publish protocol** (`HubSpec`, `Publish`, `Attach`, `Hub`). `HubObject.Hub` and
`HubObject.Publisher` are the classes; `Publish` interleaves a render (swap, client check, one send
per topic) with pages that attach, load the published frames, relay their queue and leave.
Frames are opaque apart from their event name; a frame is never empty, since it starts with its
event name, so comparing it with an absent one always says "changed".

**The cache view** (`CacheView`, `HostOrder`), **the subnet sweep** (`Ipv4`, `Scan`: byte-wise
mask, broadcast, containment and increment, for networks of four and of sixteen bytes, against
arithmetic on the 32-bit number) and **MAC
identities** (`MacText`).

## Where the code and its documentation differ

- `scan.Validate` promises containment in the box's subnet. It guarantees it exactly when the
  target's prefix is at least as long as the subnet's (`Scan.AcceptedTargets`); a larger block
  with the same first address is accepted (`Scan.ShorterPrefixEscapes`).
- An IPv4-mapped IPv6 target is accepted too, and comes with a mask of sixteen bytes, of which
  `netconf.Broadcast` reads the first four. The sweep then does not leave out the broadcast
  address: exactly for such a target with at least two addresses (`Scan.LastIsVisitedIff`). The
  largest accepted one has 1023 hosts, not 1022 (`Scan.MappedExample`).
- The loop of `enumerate` does not end for an empty prefix (`Scan.GuardFailsIff`), which
  `Validate` never accepts (`Scan.AcceptedTargets`).
- A pulse interval below the grace period is said to let one pulse be lost, and start-up warns
  only if it is not below. One lost pulse closes the gate unless the grace period covers two
  intervals (`PulseGate.DroppedPulseIff`).
- Untracking and re-tracking a device with no reload in between leaves memory ahead of the
  journal with the device not marked, exactly when memory held presence that was already
  flushed and is not in flight (`Durability.ReAddStrandsIff`). No flush or reload changes that
  (`Durability.StaysStranded`); the next fresh observation does
  (`Durability.StrandedStepIff`, `Durability.FreshIsWritten`).
- A reload that read the journal before a device was tracked and merges afterwards drops the
  device from memory with its unflushed sightings (`Durability.MergeKeepsIff`,
  `Durability.StaleReloadForgets`).
- A reload resets the address in memory while a move is outstanding
  (`IpMoves.ReloadAgreesIff`), which can leave the journal with an address the device has left
  (`IpMoves.ReloadCanStrandAMove`); the next sighting repairs that exactly when it differs
  from memory (`IpMoves.SightingRepairsIff`).
- The backfill discards look-up errors and then drops the log (`Backfill.FoldCoversIff`,
  `Backfill.FailedLookUpLosesTheLog`). A look-up that fails alone can also leave a row that no
  observation produces: an ICMP answer of a device that was never up
  (`Ordering.BackfillOrderedIff`, `Ordering.HalfReadLogShows`).
- But for that, the test of `icmpSeen` in `seenState` decides nothing in a reachable state
  (`Ordering.IcmpTestIsRedundant`).
- `applyProbes` assigns the time it is given, so memory goes forward exactly under a clock
  that does (`Durability.ProbeKeepsForwardIff`). The journal needs no such hypothesis.

## Model

| member | source | states |
|---|---|---|
| WriteBehind.RefinesWriteThrough | puckview/internal/server/state.go:75-191 | over any interleaving, failed flushes and racing reloads included, memory, flight and journal together know of a tracked device exactly what a write-through store would; each device stays dirty, in flight, or covered by the journal |
| WriteBehind.StepCoherent | puckview/internal/server/state.go:291-343 | one step of any kind keeps that invariant and joins into the joint knowledge what it observed and nothing else |
| WriteBehind.CommitCoherent | puckview/internal/store/store.go:412-434 | a commit loses and invents nothing: the joint knowledge is unchanged |
| WriteBehind.FailCoherent | puckview/internal/server/server.go:364-373 | nor does a failed commit followed by restore |
| WriteBehind.MergeCoherent | puckview/internal/server/state.go:75-105 | nor does a reload, however old its listing, if the listing has the device |
| WriteBehind.BootCoherent | puckview/internal/server/server.go:227-235 | start-up on any journal establishes the invariant and knows what the journal holds |
| WriteBehind.TrackingCoherentIff | puckview/internal/server/api.go:54-91 | tracking a new device at run time establishes it exactly when no older listing without the device is still to be merged and nothing about an earlier life of it is in flight or listed |
| Evidence.KnownIsTheEvidence | puckview/internal/server/state.go:125-191 | over any interleaving a device is known to answer ICMP exactly if it was, or some folded-in answer or log row says so, and its up and sighting times are the latest of what they were and of what was folded in |
| Evidence.SignalMeaning | puckview/internal/server/state.go:159-173 | ICMP wins over an open port; TCP is logged only if ICMP did not answer and some port is open |
| Evidence.ResultMeaning | puckview/internal/server/state.go:152-189 | what one probe result changes of its device, in terms of the answers, and that it changes nothing else |
| Evidence.RowMeaning | puckview/internal/server/state.go:180-188 | a row is logged exactly if the answer contradicts the last verdict, and it tells how the device answered |
| Evidence.RowsAreCaused | puckview/internal/server/state.go:182-188 | over any run every emitted row tells some folded-in result of its device, at its time |
| Evidence.ShownIsTheLatest | puckview/internal/server/state.go:128-157 | over any run the neighbour view of a device is what the last snapshot said, and its live results those of the last cycle that answered for it, none after a blanking |
| Evidence.ShownFromStart | puckview/internal/server/state.go:86-92 | from the start of a process nothing is shown until something is seen |
| Config.EditReaches | puckview/internal/server/state.go:72-104 | an edit and then a reload: whatever happens in between and after, short of another edit or merge, memory has the supplied settings and the stored rest |
| Config.ReloadReaches | puckview/internal/server/server.go:173-177 | from a merge on memory has the settings of the journal until the next edit or merge |
| Config.SettingsStay | puckview/internal/server/state.go:125-191 | no sensing, tick, drain, commit or failure changes the settings in memory |
| Config.RowSettingsStay | puckview/internal/store/store.go:412-443 | no flush or backfill changes them in the journal |
| Config.MergeMeaning | puckview/internal/server/state.go:75-105 | after a merge memory has exactly the listed devices, in the listed order, each with its listed row; live view, verdict and mark stay; a new one starts with the stored scalars and nothing observed |
| Config.PatchMeaning | puckview/internal/store/store.go:287-312 | an edit writes the supplied columns of one row and nothing else |
| Config.TrackMeaning | puckview/internal/store/store.go:255-275 | what tracking writes, for a new MAC, a known one and none |
| Config.ListedMeaning | puckview/internal/store/store.go:209-232 | a listing has every row, without the probes that cannot be read |
| Config.SpellingDoesNotMatter | puckview/internal/store/store.go:424-457 | a flush does not depend on how the MACs of its batch are spelled |
| Durability.JournalMonotonic | puckview/internal/store/store.go:424-434 | no run that does not untrack the device, with any clock, moves a journal scalar of it backwards |
| Durability.CommittedDrainCovers | puckview/internal/server/state.go:288-318 | a drain whose batch commits, with anything in between, puts all joint knowledge of its moment into the journal |
| Durability.BoundedLoss | puckview/internal/server/state.go:20-22 | killed at any point, the journal has every observation folded in before the last committed drain |
| Durability.CleanShutdown | puckview/internal/server/server.go:251-254 | after a successful final flush the next process starts with the join of old journal and old memory |
| Durability.ReAddStrandsIff | puckview/internal/store/store.go:314-328 | whatever is in flight: exactly when delete and re-add without a reload strand presence in memory |
| Durability.StrandedStepIff | puckview/internal/server/state.go:291-343 | exactly which step ends a stranding: a later sighting, an answered probe, a failed flush that had the device, a backfill that brings the row level |
| Durability.StaysStranded | puckview/internal/server/state.go:291-343 | over any run without such a step, whatever is flushed and reloaded, the device stays stranded |
| Durability.FreshIsWritten | puckview/internal/server/state.go:136-139 | the first fresh observation marks the device, and the next batch that commits writes all that memory holds of it |
| Durability.ReAddStrands | puckview/internal/store/store.go:255-275 | a run from start-up that strands a device, and over every later run without a healing step no flush writes it |
| Durability.MergeKeepsIff | puckview/internal/server/state.go:82-103 | exactly when merging any listing read earlier keeps what is known of a device: its scalars, if it is listed, are known already, or memory had nothing of its own |
| Durability.StaleReloadForgets | puckview/internal/server/server.go:173-177 | a run in which an overlapped reload loses a tracked device |
| Durability.ProbeKeepsForwardIff | puckview/internal/server/state.go:174-179 | exactly when a probe result moves memory forward |
| Engine.KeyedRun | puckview/internal/store/store.go:258-262 | in every reachable state each journal row, host and device record is filed under its own, canonical MAC |
| EventLog.ExactlyOnceInOrder | puckview/internal/server/state.go:316-343 | committed, in-flight and pending events stay the emitted sequence: none lost, repeated or reordered by any pattern of failures |
| EventLog.ExactlyOnceFromStart | puckview/internal/server/state.go:316-343 | the same for every run of a process from its start |
| EventLog.TableHoldsTheLog | puckview/internal/store/store.go:444-449 | until a deletion or prune, the stored table is its old contents followed by everything committed |
| History.HistoryIsKept | puckview/internal/store/store.go:314-328 | while other devices are deleted and older rows pruned, the rows of a device since a time are those the table began with and all committed since, in order |
| History.DeleteSelects | puckview/internal/store/store.go:318-326 | a deletion removes exactly the rows of its device, by position |
| History.PruneSelects | puckview/internal/store/store.go:518-523 | a prune removes exactly the rows older than its cutoff, by position |
| History.DeleteMeaning | puckview/internal/store/store.go:314-328 | probes, history, row, in this order up to the statement that fails; other devices, hosts and the old log are not touched |
| EventLog.HistoryIsTheEdges | puckview/internal/server/state.go:159-202 | over any run the rows emitted for a device are the edges of its verdict stream, and its status is the stream's last word |
| EventLog.SessionLog | puckview/internal/server/state.go:180-202 | in a running process, from a tick that finds the gate closed to the next blanking, whatever is interleaved, the rows emitted for a device are one per change of verdict, at its time, with its state and signal; none for the first verdict |
| EventLog.FirstSessionLog | puckview/internal/server/state.go:180-189 | the same for the first session after the start |
| EventLog.OneRowPerFlip | puckview/internal/server/state.go:180-189 | the edges of one session are one row per change of verdict |
| EventLog.FlipsComplete | puckview/internal/server/state.go:182-188 | and no change of verdict is left out |
| EventLog.EdgesAlternate | puckview/internal/server/state.go:174-189 | rows alternate up and down, the signal is "none" iff down, the last row is the current status |
| EventLog.CycleRows | puckview/internal/server/state.go:149-156 | a probe cycle logs for each device its own row or none, independent of the order the results are visited in |
| IpMoves.AddressReconciles | puckview/internal/server/state.go:140-143 | through any neighbour changes and failed flushes, pending over in-flight over journal addresses give the address in memory |
| IpMoves.ReconcilesFromStart | puckview/internal/server/state.go:140-143 | so it is from the start of a process to the first reconfiguration of the device |
| IpMoves.RestoreMovesAt | puckview/internal/server/state.go:337-341 | restore never overwrites a newer pending move and brings back one that has no successor |
| IpMoves.FlushConverges | puckview/internal/store/store.go:435-443 | a batch that commits, whatever happens while it is in flight, leaves the journal with the address that memory had when it drained |
| IpMoves.NothingToWrite | puckview/internal/server/server.go:364-368 | with nothing to drain the journal has that address already |
| IpMoves.ReloadAgreesIff | puckview/internal/server/state.go:95-97 | exactly when merging a listing, however old, keeps the agreement: the listed address is that of the pending move, else of the one in flight, else of the row |
| IpMoves.ReloadCanStrandAMove | puckview/internal/server/state.go:97-97 | for every device and pair of addresses, a run from start-up that ends, after a committed flush, with the address the device has left and nothing outstanding |
| IpMoves.SightingRepairsIff | puckview/internal/server/state.go:140-143 | exactly when the next sighting repairs the disagreement |
| Throttle.ThrottledBothWays | puckview/internal/server/state.go:230-242 | from start-up, any two committed writes of a host are 60 s apart, and a host neither dirty nor in flight is stored less than 60 s behind memory, failed flushes included |
| Throttle.ThrottleRun | puckview/internal/server/state.go:305-311 | the invariant behind both halves is kept by every run in which the host is not forgotten |
| Throttle.StoredSightingIsLatest | puckview/internal/store/store.go:450-460 | a stored sighting is exactly the latest of what was stored and what the batch has of the host |
| Hosts.StoredHostMeaning | puckview/internal/store/store.go:450-460 | entry by entry of a batch: the address of the last one, the name of the last one that has one or else the stored name; a host not mentioned is not touched |
| Hosts.HostIsWritten | puckview/internal/server/state.go:305-311 | the batch that carries a marked host, once it commits, leaves the journal with the address, the name and at least the sighting that memory had |
| Hosts.HostIsTheSightings | puckview/internal/server/state.go:230-242 | over any run without a drop memory shows the address and time of the last sighting of a host and the last name learned |
| Hosts.DropMeaning | puckview/internal/server/state.go:267-286 | exactly these hosts go, with their marks |
| Hosts.RetentionMeaning | puckview/internal/store/store.go:502-507 | retention keeps exactly the sightings not older than the cutoff, in memory and in the journal |
| Hosts.LoadedMeaning | puckview/internal/server/state.go:115-119 | at start-up the later sighting is taken whole, memory's if they are equally late |
| Hosts.BootHosts | puckview/internal/server/server.go:232-235 | a fresh process remembers exactly the stored hosts of the last week and owes the journal nothing |
| JournalSpec.HostRowsForward | puckview/internal/store/store.go:450-460 | a batch never moves a stored sighting backwards and never blanks a learned name |
| JournalSpec.ApplyAt | puckview/internal/store/store.go:424-443 | a committed batch joins its scalars into each row and overlays its moves, row by row |
| JournalSpec.JoinedIsLeast | puckview/internal/store/store.go:408-434 | the guarded updates give the least value above the row and every update for it |
| JournalSpec.JoinedCommutes | puckview/internal/store/store.go:408-434 | so they commute with any other join into the row |
| Ordering.ReachableOrderedIff | puckview/internal/server/state.go:97-100 | over every run from start-up with positive times: up is not after seen and an ICMP answer implies having been up, in every memory, batch, pending listing and journal row throughout, exactly if each backfill step reads enough of the log |
| Ordering.OrderedRunIff | puckview/internal/store/store.go:424-433 | the same from any ordered state |
| Ordering.BackfillOrderedIff | puckview/internal/store/store.go:613-625 | exactly when one backfill step keeps the journal ordered, in terms of the look-ups that work, the log and the row |
| Ordering.BootOrdered | puckview/internal/server/state.go:86-93 | start-up on an ordered journal is ordered |
| Ordering.NewestOrdered | puckview/internal/store/store.go:613-618 | what the backfill reads off a log of positive times is ordered |
| Ordering.HalfReadLogShows | puckview/internal/store/store.go:613-618 | a run with one failed look-up after which the test does change what is shown |
| Ordering.IcmpTestIsRedundant | puckview/internal/server/devices.go:134-158 | in a state reached from start-up with such backfill steps the icmpSeen test of seenState never changes its result |
| Devices.IcmpTestMattersIff | puckview/internal/server/devices.go:151-157 | in an arbitrary state it does exactly for an ICMP-answering device without an up time that would otherwise show a sighting |
| Devices.PresenceIsNotLiveness | puckview/internal/server/devices.go:127-158 | an ARP sighting never moves the time since up, and shows only for a never-up device of which nothing but presence is expected |
| Devices.LastUpIsShown | puckview/internal/server/devices.go:138-141 | up at one cycle and down at the next shows the first as the last sighting, whatever ARP said in between |
| Devices.PresenceShown | puckview/internal/server/devices.go:151-153 | a never-up device of which only presence is expected shows the age that the kernel gives |
| Devices.AbsenceShown | puckview/internal/server/devices.go:154-156 | and the time since it was there once it is gone |
| Devices.NothingShown | puckview/internal/server/devices.go:143-158 | one of which liveness is expected shows no sighting until it is up; what is counted is the time since it was tracked |
| Devices.SignalIsLiveness | puckview/internal/server/devices.go:115-125 | the view and the engine judge liveness alike |
| Gate.GateRun | puckview/internal/server/server.go:278-300 | every run keeps: not probed means every device is blank, and every status is the verdict on the results held |
| Gate.ClosedGateShowsNothing | puckview/internal/server/state.go:195-202 | in every run of a process, after a tick with the gate closed and whatever follows short of an open tick, no device shows liveness and the next first verdict logs nothing |
| Gate.NowIffLastVerdictUp | puckview/internal/server/devices.go:134-137 | in every state a process reaches the dashboard says "now" exactly when the last verdict was up |
| Backfill.CollapseFromStart | puckview/internal/store/store.go:551-588 | any number of attempts, interrupted or complete, any look-ups failing, interleaved with any flushes and admin: a row ends exactly as the join of what was flushed with what the look-ups that ever worked found; as soon as they all worked once, with the rows of the log themselves; a device listed by the complete attempt has been looked up; the log is gone only then |
| Backfill.CollapseExact | puckview/internal/store/store.go:609-627 | the same at every moment and from any state of the collapse |
| Backfill.FoldCoversIff | puckview/internal/store/store.go:613-626 | exactly when one backfill step gives the row all the log has |
| Backfill.FailedLookUpLosesTheLog | puckview/internal/store/store.go:613-618 | a complete attempt after which an ICMP answer on record is lost |
| LegacyLog.AggregateMeaning | puckview/internal/store/store.go:613-618 | what the look-ups return in terms of the rows: ICMP iff there is an ICMP row; the time of the newest ICMP or TCP row, and of the newest row, zero without one |
| StateObject.State.Merge | puckview/internal/server/state.go:75-105 | Load's loop builds exactly the merged records and order |
| StateObject.State.MergeObserved | puckview/internal/server/state.go:108-121 | per host, the newer of memory's and the stored sighting |
| StateObject.State.ApplyNeigh | puckview/internal/server/state.go:125-145 | every device's ARP view, sighting, dirty mark and address, and the pending moves |
| StateObject.State.ApplyProbes | puckview/internal/server/state.go:149-191 | for some order of visiting: every device's live results, scalars, status, and the events appended |
| StateObject.State.ProbeOne | puckview/internal/server/state.go:157-189 | one device's new record and its transition row, if it has one |
| StateObject.State.ClearLive | puckview/internal/server/state.go:195-202 | all results and statuses go, nothing else |
| StateObject.State.Snap | puckview/internal/server/state.go:206-216 | the records in render order |
| StateObject.State.TouchObserved | puckview/internal/server/state.go:230-242 | the host's new sighting, and its dirty mark if a minute has passed |
| StateObject.State.ObservedSince | puckview/internal/server/state.go:248-264 | the one sorted listing of the qualifying hosts, whatever order the map is visited in |
| HostOrder.SortedUnique | puckview/internal/server/state.go:257-262 | a set of hosts has at most one listing in this order |
| HostOrder.SortedMeaning | puckview/internal/server/state.go:257-262 | later sightings first, then smaller MACs |
| HostOrder.LexLessMeaning | puckview/internal/server/state.go:261-261 | a string is less if it ends or is smaller at the first difference |
| HostOrder.DisplayMeaning | puckview/internal/store/store.go:212-212 | named devices first, by name, then by address |
| StateObject.State.ForgetObserved | puckview/internal/server/state.go:267-273 | the host and both its marks go |
| StateObject.State.PruneObserved | puckview/internal/server/state.go:276-286 | exactly the hosts older than the cutoff go |
| StateObject.State.Drain | puckview/internal/server/state.go:291-318 | the batch is what was marked, in some order per map, and the marks are cleared |
| StateObject.State.Restore | puckview/internal/server/state.go:324-343 | marks come back for what still exists, moves that have no successor, events in front |
| ServerObject.RestoreUndoesDrain | puckview/internal/server/state.go:320-343 | drain then restore is the identity on everything but the throttle's record of writes |
| ServerObject.Server.Flush | puckview/internal/server/server.go:364-373 | success commits the drained batch; failure leaves the journal and restores |
| ServerObject.Server.Reload | puckview/internal/server/server.go:173-177 | memory merges the listing, without the probes that could not be read, and renders in display order; a failed listing changes nothing |
| ServerObject.Server.Prune | puckview/internal/server/server.go:375-384 | retention in memory, stored hosts and stored events, each at its own cutoff; a failed deletion leaves its table |
| ServerObject.Server.ProbeTracked | puckview/internal/server/liveness.go:40-64 | exactly the devices with an address are probed, each gets its own answer, and the others are not touched |
| ServerObject.Server.ProbeTick | puckview/internal/server/server.go:278-300 | an open tick probes and folds in exactly those answers; a closed one blanks once |
| Cadence.FlushIsRun | puckview/internal/server/server.go:364-373 | a flush is a run of the step system: drain, then commit, or failure and restore |
| Cadence.ReloadIsRun | puckview/internal/server/server.go:173-177 | so is a reload |
| Cadence.OpenTickIsRun | puckview/internal/server/server.go:296-297 | and a probe tick at an open gate |
| Cadence.ClosedTickIsRun | puckview/internal/server/server.go:287-294 | and one at a closed gate, which blanks once |
| Cadence.PruneIsRun | puckview/internal/server/server.go:375-384 | and retention |
| StoreObject.Store.List | puckview/internal/store/store.go:209-232 | every row once, in display order, without the probes that cannot be read |
| StoreObject.Store.Flush | puckview/internal/store/store.go:412-462 | all of the batch or nothing, and nothing exactly when Begin, a statement or Commit fails |
| StoreObject.Store.Add | puckview/internal/store/store.go:255-275 | a new device starts as never seen; a known one keeps its data but for address and a missing name; nothing for an empty MAC or a failed statement |
| StoreObject.Store.Patch | puckview/internal/store/store.go:287-312 | only the supplied columns change, and none if the statement fails |
| StoreObject.Store.Delete | puckview/internal/store/store.go:314-328 | probes, events and row go; if a statement fails the earlier ones stand |
| StoreObject.Store.PruneObserved | puckview/internal/store/store.go:502-507 | exactly the stored hosts older than the cutoff go |
| StoreObject.Store.PruneSeenEvents | puckview/internal/store/store.go:518-523 | exactly the events older than the cutoff go, order kept |
| StoreObject.Store.DeleteObserved | puckview/internal/store/store.go:510-515 | one stored host goes |
| StoreObject.Store.LegacyMacs | puckview/internal/store/store.go:590-607 | every MAC once |
| StoreObject.Store.ScanLog | puckview/internal/store/store.go:613-618 | what the three look-ups return |
| StoreObject.Store.BackfillDevice | puckview/internal/store/store.go:609-627 | one device's row takes what was found, or the update fails and nothing changes |
| StoreObject.Store.BackfillLegacy | puckview/internal/store/store.go:551-570 | an uninterrupted attempt folds in the listed devices up to the first failed update, no other, and drops the log iff no update and not the drop fails |
| Attach.AttachMissesNothing | puckview/internal/server/sse.go:117-139 | over every interleaving, when no render is in progress, a page's stream and queue end topic by topic with what is published, unless the latest frame of that topic was dropped |
| Publish.StepInv | puckview/internal/server/server.go:193-224 | every step keeps: after the sends still pending, each registered page shows what is published |
| Publish.AttachInv | puckview/internal/server/sse.go:117-126 | attaching mid-render: what is still to be sent is what the page will load |
| Publish.SwapInv | puckview/internal/server/server.go:204-208 | publishing before looking for clients misses no page, nor one that has attached and not loaded yet |
| Attach.StaleUntilChange | puckview/internal/server/frames.go:43-48 | the other side: while a topic does not move, what a page shows of it, stale or not, does not change |
| Attach.FanOutSafe | puckview/internal/server/sse.go:64-95 | a registered channel is open, no queue exceeds 16, a page receives an ordered part of what was sent while registered, all of it if its queue never filled |
| Attach.GreetingMeaning | puckview/internal/server/sse.go:126-138 | the identity frame alone before the first render, afterwards exactly the published frames there are |
| HubSpec.SendMeaning | puckview/internal/server/sse.go:64-76 | a registered queue takes a frame exactly if it holds fewer than sixteen |
| HubSpec.OrderMeaning | puckview/internal/server/frames.go:24-31 | identity first, then the data, and a render starts with the clock |
| HubSpec.LastOfSends | puckview/internal/server/server.go:214-223 | per topic, what a render sends: the clock always, the rest iff it moved |
| HubSpec.LastOfGreeting | puckview/internal/server/frames.go:26-31 | a greeting shows exactly what is published |
| Attach.RenderIsRun | puckview/internal/server/server.go:205-223 | an uninterrupted render is a run of the step system |
| Attach.ConnectIsRun | puckview/internal/server/sse.go:117-139 | connecting is a run: registered, open and empty channel, pulse, greeting; nobody else notices |
| Attach.RegisteredUntilDetach | puckview/internal/server/sse.go:82-95 | a page stays registered until it detaches |
| Attach.LeaveMeaning | puckview/internal/server/sse.go:90-95 | leaving unregisters first and closes then |
| HubObject.Publisher.Render | puckview/internal/server/server.go:193-224 | the hub and the published frames after a render |
| HubObject.Publisher.Connect | puckview/internal/server/sse.go:104-138 | a fresh registered channel, a pulse, and the greeting up to the first failed write, after which the channel is given up |
| HubObject.Publisher.WriteAll | puckview/internal/server/sse.go:131-138 | the frames there are, in order, up to the first failure |
| HubObject.Hub.Send | puckview/internal/server/sse.go:64-76 | every registered queue with room gets the frame, no other changes |
| HubObject.Hub.Add | puckview/internal/server/sse.go:82-88 | a new, empty, registered channel |
| HubObject.Hub.Remove | puckview/internal/server/sse.go:90-95 | unregistered, then closed |
| PulseGate.OpenThroughoutIff | puckview/internal/server/sse.go:48-60 | from the first pulse to the last the gate is open at every instant exactly when no two successive pulses are more than the grace period apart |
| PulseGate.ClosedOutside | puckview/internal/server/sse.go:54-60 | closed at every instant before the first pulse and from the grace period after the last |
| PulseGate.OpenAfterLast | puckview/internal/server/sse.go:54-60 | open until then |
| PulseGate.GateAfterRun | puckview/internal/server/sse.go:51-60 | over every run of the hub: never pulsed, never open, whoever attaches; otherwise the last pulse counts and nothing else |
| PulseGate.DroppedPulseIff | puckview/internal/server/sse.go:10-13 | a regular train of pulses that loses one keeps the gate open exactly when the grace period covers two intervals |
| CacheView.NeighSnapshot | puckview/internal/server/devices.go:58-81 | every MAC once, with an entry that is up if any is, else stale if any is, and the first in that state |
| CacheView.BuildCache | puckview/internal/server/devices.go:167-202 | a partition: on-LAN untracked neighbours, then exactly the remembered hosts not among them, though the first part updates the map the second reads; distinct MACs, none tracked, row contents |
| CacheView.PresentRows | puckview/internal/server/devices.go:173-185 | the first part: one row per MAC from its first on-LAN entry; each is remembered with the address shown, the time, and the name shown or else the one it had |
| CacheView.GoneRows | puckview/internal/server/devices.go:188-200 | the second part: every remaining host once, down, with its age and name |
| Scan.Enumerate | puckview/internal/scan/scan.go:114-129 | for every parsed network with a prefix, in either spelling, the sweep ends and yields in ascending order exactly the addresses from network+1 on: max(0, 2^(32-n) - 2) of them for a four-byte mask, 2^(32-n) - 1 for a sixteen-byte one, the top block included |
| Scan.SweepStep | puckview/internal/scan/scan.go:122-127 | each round: the guard counts, exactly the first address and the one taken for the broadcast are skipped, the increment moves on, or wraps |
| Scan.BlockFits | puckview/internal/scan/scan.go:122-122 | no block passes the end of the address space, and a proper one that ends there does not start at zero, so the wrapped cursor leaves it |
| Scan.GuardFailsIff | puckview/internal/scan/scan.go:122-122 | the loop guard can fail iff the prefix is not empty |
| Scan.Laminar | puckview/internal/scan/scan.go:34-36 | the smaller of two blocks is inside the larger or apart from it |
| Scan.NumberMasked | puckview/internal/scan/scan.go:116-120 | in either spelling the network is masked already and containment sees the mask of its prefix |
| Scan.BroadcastFound | puckview/internal/scan/scan.go:121-121 | what Broadcast returns for it: the last address for a four-byte mask, the network address for a sixteen-byte one |
| Scan.AcceptedTargets | puckview/internal/scan/scan.go:24-41 | an accepted target has a sweep that ends, of at most 1022 addresses in the IPv4 spelling and 1023 in the IPv4-mapped one, and is nested with the subnet: inside it iff its prefix is at least as long, else around it |
| Scan.ValidateMeaning | puckview/internal/scan/scan.go:26-41 | every verdict exactly by its reason, in order: text, family, subnet, size; every target of at most 1024 addresses that starts inside the subnet is accepted |
| Scan.LastIsVisitedIff | puckview/internal/scan/scan.go:121-123 | the last address of the block is swept exactly for a sixteen-byte mask and a block of at least two |
| Scan.MappedExample | puckview/internal/scan/scan.go:26-41 | ::ffff:a.b.c.d/118 is accepted and 1023 addresses are swept |
| Scan.ShorterPrefixEscapes | puckview/internal/scan/scan.go:34-39 | every larger block of at most 1024 addresses at the subnet's own first address is accepted and is not contained |
| Scan.ShorterPrefixExample | puckview/internal/scan/scan.go:34-39 | such as a.b.c.0/23 on a box in a.b.c.0/24, c even |
| Ipv4.IncInPlace | puckview/internal/scan/scan.go:132-139 | the in-place loop is the carry |
| Ipv4.IncVal | puckview/internal/scan/scan.go:132-139 | carrying byte by byte adds one modulo 2^32 (any width) |
| Ipv4.MaskedVal | puckview/internal/scan/scan.go:116-116 | masking byte by byte rounds down to a multiple of the block size |
| Ipv4.Broadcast | puckview/internal/netconf/netconf.go:119-126 | fills an address byte by byte from the first four bytes of a mask of either length |
| Ipv4.NoBroadcast | puckview/internal/netconf/netconf.go:119-126 | with the head of a sixteen-byte mask the result is the address itself |
| Ipv4.LongNetwork | puckview/internal/scan/scan.go:116-119 | a sixteen-byte network has an IPv4 form exactly if it is mapped and the prefix covers 96 bits, and then it is the short network |
| Ipv4.MappedMeaning | puckview/internal/scan/scan.go:31-31 | an address is IPv4-mapped exactly if its first 96 bits are the number 0xffff |
| Ipv4.BroadcastVal | puckview/internal/netconf/netconf.go:119-126 | with a mask of the same length it is the network plus the block size minus one |
| Ipv4.ContainsIsInterval | puckview/internal/scan/scan.go:122-122 | masked containment is membership of an interval |
| MacText.StoreNormalise | puckview/internal/store/store.go:183-196 | the store's canonicaliser |
| MacText.NeighNormalise | puckview/internal/neigh/neigh.go:25-37 | the neighbour reader's |
| MacText.CanonicalisersAgree | puckview/internal/neigh/neigh.go:23-37 | they agree on every string |
| MacText.NormIdempotent | puckview/internal/store/store.go:179-196 | a canonical MAC is a fixed point |
| MacText.NormPrintsTheOctets | puckview/internal/store/store.go:179-196 | on six octets in any spelling, canonicalising is printing what they denote |
| MacText.AnySpelling | puckview/internal/store/store.go:179-196 | whatever the separators, case, padding and spaces around, a MAC is stored as the print of its six octets |
| MacText.OtherTextStays | puckview/internal/store/store.go:187-189 | a text that is no MAC and needs no trimming, folding or colons stays |
| MacText.NormFolds | puckview/internal/store/store.go:183-196 | no identity has an upper-case letter, a dash, or white space at either end |
| MacText.PrintParse | puckview/internal/store/store.go:179-196 | printing then reading any six octets gives them back |
| MacText.SameIdentityIffSameOctets | puckview/internal/store/store.go:179-182 | two spellings have one identity iff their octets agree |
| MacText.SplitJoin | puckview/internal/store/store.go:186-195 | splitting undoes joining; JoinSplit is the converse |

## Left out

- Sockets, netlink, ICMP and TCP probing, tailscale and docker: neighbour snapshots, probe answers and the clock are inputs.
- HTTP routing, JSON encoding, request validation and the handlers as such: each handler is a sequence of the modelled operations.
- SQLite itself (WAL, VACUUM, schema changes, file sizes) and a commit that fails after taking effect: a transaction is all or nothing.
- StoreObject.Store.Add: does not model updated_at, which nothing here reads; createdAt is supplied by the caller.
- StoreObject.Store.List: a probes query that fails half way through its rows counts as one that found none.
- StateObject.State: device records are values in a map, so the source's pointer sharing between old and new map during Load is not modelled.
- MacText.CanonicalisersAgree: white space and letter case are the ASCII ones; other Unicode spaces and case folding are not modelled.
- Scan.Enumerate: does not model the dotted rendering, because an address is its four bytes.
- CacheView.BuildCache: is one uninterrupted call, because its interleavings are those of the locked sections in Engine.
- Durability.CleanShutdown: claims the scalars of tracked devices only, because a request for the cache view may note untracked hosts after the loops have stopped.
- Durability.BoundedLoss: assumes that the device is not untracked during the run.
- Throttle.ThrottledBothWays: assumes that the host is not forgotten, and its second half speaks of hosts sighted a minute or more after the last prune cutoff, because pruning compares the stored, lagging value.
- Backfill.CollapseFromStart: assumes that the device is not untracked and that its columns start at zero or above, as the schema has it.
- Attach.AttachMissesNothing: says nothing of the identity frame, which is only ever sent in a greeting.
- The wake registry, name resolution, NetBIOS parsing, magic packets, the OUI table, age strings, system statistics, service health, configuration.
- buildDevices beyond liveUp and seenState: it copies fields.
- The web assets, the Ansible roles and the shell scripts.
