# Verification of the remote workspace

Dafny models of the hardest parts of this repository, and proofs about them: the exact-framebuffer
protocol between the Mac host and the Windows viewer, the reverse-control queue, and nine
self-contained components. `dafny verify dfyconfig.toml` checks the whole project.

## What is modelled

**The exact-framebuffer protocol.** `System` joins the host (`Host`), the ordered visual channel, the
viewer's reader (`Reader`), the decoder, the compositor (`Compositor`, `Canonical`,
`FramebufferSpec`, `Pixels`) and an acknowledgement path that may lose messages into one transition
system. A run is any sequence of events of any of these threads; an event that is not enabled does
nothing. `Invariant` says what holds in every state, `Steps`, `ScreenSteps`, `HostSteps`,
`AckSteps`, `SendSteps`, `TurnSteps` and `ExactSteps` prove it for every event, and `Runs` draws the
conclusions for whole runs. `Witness` gives a complete run of a one-pixel session, so none of this is
said about nothing.

The loops and objects themselves are imperative, and each is proved to do what the protocol's
functions say: `HostLoops` (desktop-agent/main.cpp:879-982, 1004-1130, 1202-1277, 1368-1404,
1448-1482, 1577-1605, 1609-1649), `FrameReaders` (viewer/main.cpp:1578-2033), `Compositors`
(viewer/main.cpp:971-1350, 1371-1417), `Framebuffers` and `Verifier` (viewer/d3d11_renderer.cpp:222-530,
over arrays that are written in place and swapped), and `Machines` (the canonical record, the wire
drain and the rectangle guard of desktop/src/desktop.cpp:1453-1748, and the upload batching of
viewer/main.cpp:1837-1870). `CanonicalRuns` says what that record promises over whole runs of its
operations.

`MainLoops` and `ViewerLoops` put them back into the system: one iteration of the host's main loop in
the order of the source, one turn of the compositor's choice between queue, watchdog and frame, and one
message of the reader are each proved to continue a run of `System` by the events they name, with the
other threads free to act in between. So every theorem of `Runs` is about these objects
(`MainLoops.LoopIsSafe`, `ViewerLoops.ScreenIsExact`). What an iteration chooses is said a second time in
`Iterations`, by outcome: where the host is afterwards and what has been put on the wire, for every mode,
clock and selector, and `MainLoop.Iterate` promises exactly that.

`Progress` shows that the system also gets somewhere: every image of every session becomes exact in some
run, and `Updates` that every legal change of an exact image does. `LoopProgress` proves both again with
nothing chosen for the host: the loop's own iterations bring the image out, and change by change a whole
film, and write every frame of a moving screen. `Records` holds what that needs to know of the viewer's
record in every run, and `Watchdogs` what the upload watchdog ends.

`ReaderStreams` is about the viewer alone: whatever messages arrive, from whomever, the commands the
reader queues are in order, and a snapshot is acknowledged only with the hash of the image it has shown.

**The reverse-control queue.** `ControlQueue` is the bounded deque with its pointer slot, `ControlLog`
what producers have asked for, read off their actions, against what is written, `ControlReceiver` the
host's end of the wire, `ControlQueues` the object that producers and the writer change in place,
together with the pipe, as steps of the same runs.

**The rest.** `Glob` and `GlobLoops` (two wildcard matchers against one meaning), `DirectoryRules` (what
lies below a directory rule), `Sha256Spec`, `Sha256Words`, `Sha256Standard` and `Sha256` (the streaming
hash), `Sha256Roots`, `Sha256Sums` and `Sha256Bits` (its constants, functions and digest against
FIPS 180-4), `FileTransfers` (the crash-resumable transfer and its driver), `Deployments` (the deployment
saga), `AgentRuntime` (agent jobs) and `AgentOutcomes` (their runs against what was asked for and what the
tools did), `SpsProbe` and `SpsSearch` (bit reader, start codes and escapes of ITU-T H.264),
`WindowsQuoting`, `BuildEvidence` (the canonical evidence bytes), `AudioPackets`, `JitterBuffer` and
`JitterPlayout` (what it takes and plays). `BigEndian`, `Folds`, `Sets` and `Options` hold what several of
them share.

## What the proofs found

* An exact-only host ends by an exception when a recovery request is handled before the first frame
  was captured: the resync enters quiescing and the analyzer has nothing to read back
  (`Runs.RecoveryBeforeFirstFrameEndsHost`). It also ends when a selected rectangle transaction fits
  the packed-byte limit but not the digest's limit, which counts forty header bytes per rectangle;
  a change of the whole 1920 by 1080 screen is such a case, and `Progress.FullHdChangeEndsHost` gives
  the run, from the first capture on (`Progress.WholeScreenChangeEndsHost` for every such surface).
  `Runs.HostEndsExactlyWhen` shows these are the only two ways, `Runs.HybridNeverEnds` that a hybrid
  session meets neither.
* The compositor takes a decoded frame whose number is the last one shown for a repetition. An IDR that
  reopens video may be a repeat of just that frame; it then reopens nothing, and the frame behind it is
  thrown away as a transition without an IDR (`Compositor.ReopeningIsShown` has both sides).
* A rectangle command that fails asks for recovery inside its exception handler. When the control queue
  refuses that request, the exception leaves the compositor's loop and ends its thread
  (`Updates.AwaitedEndsExactlyWhen`, `Updates.NeverEnds`).
* The jitter buffer's next number is a 64 bit counter that wraps: after a packet with the largest number
  it conceals number zero and goes on from there. Played numbers follow one another modulo 2^64 in every
  run (`JitterBuffer.PlayoutIsConsecutive`), and count up exactly when the first leaves room for all
  (`JitterBuffer.OneMoreExactlyWhen`, `JitterBuffer.LargestNumberWraps`).
* A refused input edge has already taken its sequence number, and the viewer swallows the refusal.
  The next accepted edge therefore reaches the host with a gap, which ends the host's control thread.
  `ControlReceiver.HostFailsExactlyWhen` gives the exact condition, the lemmas beside it a run.
* The backtracking matcher gives up every star but the last. It is exact on all values precisely on
  the patterns `Good` accepts (`Glob.ExactOnGoodPatterns`), a slightly larger class than the patterns
  without a single star behind a double one; for every other pattern a missed value is constructed.
* An anchored ignore rule for directories looks below itself by comparing letters, so with a wildcard in it
  it hits directories but not what is inside them; the walk over the workspace does not go down there
  anyway (`DirectoryRules.AnchoredHidesContentsExactlyWhen`).
* A deployment whose rollback slot is already occupied stages nothing, and its compensation puts the
  leftover over the active file while reporting rolled_back
  (`Deployments.RolledBackIsRightExactlyWhen`, `Deployments.LeftoverSlotIsRestored`).
* A transfer whose staging file was left longer than the source can never be published; with any
  shorter leftover it always is (`FileTransfers.TransferFile`).

## How to read the models

* Epochs, frame identifiers and sequence numbers of the protocol are unbounded naturals; the code's
  checks against exhausting 64 bits are not modelled. Where a width decides a result it is written out
  (the numbers of the jitter buffer, byte counts and bit lengths of the hash, fields of datagrams and
  evidence, Exp-Golomb values).
* Digests in the protocol are terms: equal exactly when what was hashed is equal. `FileTransfers`
  takes the digest as a function and assumes freedom from collisions only where a result needs it.
* Timeouts, quiet intervals, cooldowns and the selector's decisions are choices of the environment,
  so leaving the exact path is possible in every state, and so are more runs than clocks would allow.
  The recovery request, the lost acknowledgement, the failed present and the full control queue can
  strike anywhere. An iteration of `MainLoops` is given the outcome of its clock comparisons and a
  selector, and decides the rest itself.
* The rectangle analyzer is assumed to select disjoint rectangles that fit the surface and turn the
  canonical frame into the latest one, within its limits. The encoder is assumed to be first in,
  first out. A session keeps one surface size.
* Host events run under the submission gate, so one turn of the main loop or of the encoder thread is
  one step. Closing the viewer is one step of the queue.
* A command that finds the queue at its 256 entries stops the reader for good; what the message queued
  before it stays queued.
* `Compositor.Shown` and the history fields named in comments record the past; no step depends on them.
  The tools an agent runtime has run are such a field.
* The hash accumulator is parametric in its word operations, which `Sha256Standard` supplies on 32 bit
  vectors. In `GlobLoops` the five loop variables of the matcher are one record.
* Path, identifier, syntax and authority checks made elsewhere (canonical paths, hexadecimal digests,
  capabilities) are boolean parameters; a false one takes the branch the code takes. The identifiers of
  build evidence are checked as the code does.
* A minute of the agent runtime is any number of clock ticks.
* A failing conversion of a video frame leaves the working texture as it was.

## Model

| member | source | states |
|---|---|---|
| `Runs.ExactMeansShown` | viewer/main.cpp:1057-1170 | In every reachable state whose host is in exact mode, the viewer's committed pixels are the host's canonical frame, committed under the frame id the host calls exact, with quality exact; and the viewer's reader, once it has read what is in flight, holds a valid digest equal to the host's. |
| `Runs.PromotionIsShown` | desktop-agent/main.cpp:1004-1130 | In every run, taking an acknowledgement of the host's current epoch promotes exactly the acknowledged frame and digest, with nothing queued or in flight behind it and the screen showing that frame; taking one of any other epoch changes nothing but the mailbox. No stale, late or overwritten acknowledgement promotes or cancels. |
| `Runs.MailboxNeverLosesAwaited` | desktop-agent/main.cpp:421-426 | Whenever an acknowledgement arrives in the one-slot mailbox, what it overwrites is never the acknowledgement the host waits for. |
| `Runs.EpochDiscipline` | desktop-agent/main.cpp:1574-1584 | In every run the reserved snapshot epoch is the host's epoch in quiescing, sending and awaiting_ack, the rectangle epoch is in exact and awaiting_rect_ack, and the escape for obsolete units in flight can never be taken outside video. |
| `Runs.OnlyCurrentUnits` | desktop-agent/main.cpp:1609-1612 | In every interleaving with the encoder thread an access unit is written only with the host's current epoch, in video mode with submissions enabled; a unit of a superseded epoch is dropped. |
| `Runs.EveryTraceIsAccepted` | viewer/main.cpp:1641-2033 | Every message trace any run of the host puts on the wire is accepted by the viewer's reader, in hybrid and exact-only sessions: no exception, no poisoned epoch, no recovery request. |
| `Runs.EpochsOnlyReset` | desktop-agent/main.cpp:906-934 | On the whole wire of every run an epoch changes only at a STATE_RESET, and then to a strictly larger one. |
| `Runs.NoSequenceGap` | desktop-agent/main.cpp:879-905 | The visual sequence numbers of every run's wire are 1, 2, 3 and so on without a gap. |
| `Runs.FirstUnitIsKey` | desktop-agent/main.cpp:470-487 | On every run's wire the first access unit of each epoch is a forced IDR, under any interleaving of capture, submission, completion and the main loop. |
| `Runs.NoVideoDuringUpload` | viewer/main.cpp:963-969 | Between the begin of a snapshot and its commit or cancel no decoded video frame changes the framebuffer. |
| `Runs.UploadsArePrefixes` | viewer/main.cpp:1834-1870 | While an upload is active, the uploaded bytes are a prefix of the very frame the host put in that epoch's snapshot, and a full upload is the whole frame. |
| `Runs.HostEndsExactlyWhen` | desktop-agent/main.cpp:1577-1597 | From any reachable state an event ends the host by an exception if and only if it reads a snapshot back in an exact-only session before the first capture, or selects rectangles whose digest exceeds the protocol limit. |
| `Runs.HybridNeverEnds` | desktop-agent/main.cpp:1325-1331 | A hybrid session's host never reaches either failure: its selector limits keep every transaction below the digest limit. |
| `Runs.RecoveryBeforeFirstFrameEndsHost` | desktop-agent/main.cpp:996-1003 | A concrete failing run: an exact-only session whose recovery request comes before the first captured frame ends its host. |
| `Progress.EveryImageBecomesExact` | desktop-agent/main.cpp:1182-1277 | Nothing above is said about nothing: for every session and every image of its size there is a run (captured, reserved, read back, drained burst by burst, read, uploaded, committed, acknowledged) that ends exact, with the image canonical on the host and committed on the screen. |
| `Progress.DrainsOut` | desktop-agent/main.cpp:1182-1277 | Bursts alone bring a snapshot onto the wire: every burst makes progress, and the messages make the reader queue one begin, contiguous uploads of whole rows that are the image, and the commit. |
| `Progress.Acknowledges` | viewer/main.cpp:993-1170 | A viewer without faults that reads and executes what is in flight uploads the image row by row, commits it and acknowledges exactly the frame and digest the host waits for. |
| `Updates.EveryUpdateBecomesExact` | desktop-agent/main.cpp:1354-1404 | From any reachable exact state whose viewer still works, any legal candidate within the digest limit becomes exact: a run sends it and ends with the latest frame canonical on the host and committed on the screen. |
| `Updates.EveryFilmBecomesExact` | desktop-agent/main.cpp:1314-1404 | So any sequence of changes, each a legal candidate on the image before it, is shown exactly, change by change. |
| `Updates.AwaitedIsPaintable` | viewer/main.cpp:1171-1189 | In every run the transaction the host waits for, once it is the only thing left to do, finds the exact base committed, its representation enterable and no transaction open. |
| `Updates.TransactionAnswers` | viewer/main.cpp:1171-1314 | On such a screen a transaction of disjoint rectangles that fit is acknowledged with its own epoch, frame and digest if and only if the watchdog does not give it up and neither renderer, present nor acknowledgement fails. |
| `Updates.AwaitedEndsExactlyWhen` | viewer/main.cpp:1326-1343 | The awaited transaction ends the compositor thread if and only if it fails by such a fault and the handler's recovery request is refused too. |
| `Updates.NeverEnds` | viewer/main.cpp:1333-1343 | A viewer whose control queue always takes the handler's request never loses its compositor thread. |
| `Records.RunRecord` | desktop/src/desktop.cpp:1453-1538 | In every run the viewer's record has no transaction left open between commands, its epoch is one its representation can have, and the rectangle epoch belongs to no snapshot. |
| `Progress.WholeScreenChangeEndsHost` | desktop/src/desktop.cpp:689-711 | A failing run for every exact-only session whose surface fills the packed limit but for less than a header: after any first image has become exact, a captured change of the whole screen is a legal candidate, and sending it ends the host. |
| `Progress.FullHdChangeEndsHost` | desktop/src/desktop.cpp:704-711 | In particular 1920 by 1080, for any two images. |
| `ExactSteps.StartInv` | desktop-agent/main.cpp:983-992 | The protocol invariant holds when a session starts. |
| `ExactSteps.NextKeeps` | desktop-agent/main.cpp:990-1130 | Every event of either side, enabled in any order, keeps the protocol invariant. |
| `ExactSteps.RunInv` | desktop-agent/main.cpp:990-1130 | The protocol invariant (host, wire, reader, command queue, screen and acknowledgements tell one story) holds after every finite run. |
| `ExactSteps.SendRectsKeeps` | desktop-agent/main.cpp:1354-1404 | Sending a selected rectangle transaction from a reachable exact state keeps the invariant. |
| `ExactSteps.DrainKeeps` | desktop-agent/main.cpp:1202-1277 | Every burst of a snapshot, the last one with its commit included, keeps the invariant. |
| `AckSteps.TakeAckKeeps` | desktop-agent/main.cpp:1009-1130 | Taking any acknowledgement out of the mailbox, promoting, giving up or ignoring it, keeps the invariant. |
| `AckSteps.MatchedIsShown` | desktop/src/desktop.cpp:793-806 | An acknowledgement that matches what the host waits for is the last one on its way, nothing is left to execute, and the screen shows its frame. |
| `HostSteps.ResumeKeeps` | desktop-agent/main.cpp:906-982 | Leaving the exact path at any time, for whatever reason, keeps the invariant. |
| `HostSteps.EnterQuiescingKeeps` | desktop-agent/main.cpp:1442-1482 | Stopping video and reserving the snapshot epoch keeps the invariant. |
| `TurnSteps.WriteVideoKeeps` | desktop-agent/main.cpp:1609-1656 | Writing or dropping the next encoded unit keeps the invariant. |
| `TurnSteps.SubmitKeeps` | desktop-agent/main.cpp:470-487 | A submission of the encoder thread under the gate keeps the invariant. |
| `TurnSteps.TakeSnapshotKeeps` | desktop-agent/main.cpp:1577-1605 | Reading the latest frame back once the encoder is drained keeps the invariant, and so does the exception it may throw. |
| `Steps.ReadKeeps` | viewer/main.cpp:1641-2033 | Reading any one message off the wire keeps the invariant. |
| `ScreenSteps.ComposeKeeps` | viewer/main.cpp:993-1345 | Executing any queued compositor command, with any fault on the way, keeps the invariant. |
| `ScreenSteps.ShowKeeps` | viewer/main.cpp:1367-1417 | Rendering, rejecting or merely presenting again a decoded video frame keeps the invariant, wherever rendering fails. |
| `Compositor.ReopeningIsShown` | viewer/main.cpp:1371-1417 | When video reopens, the IDR and the frame behind it are both shown, except when the IDR has the frame number shown last: then it is taken for a repetition, reopens nothing, and the frame behind it is thrown away. |
| `ScreenSteps.WatchdogKeeps` | viewer/main.cpp:971-992 | Cancelling an expired upload at any time keeps the invariant. |
| `Watchdogs.EveryUploadIsWatched` | viewer/main.cpp:971-992 | In every run the watchdog's clock runs exactly while the framebuffer has a snapshot open. |
| `Watchdogs.ExpiredUploadIsEnded` | viewer/main.cpp:971-992 | Whatever state it strikes in, the watchdog leaves no upload open and neither the committed image nor the record of it changed. |
| `Watchdogs.NothingOfItIsShown` | viewer/main.cpp:1031-1170 | After that, until another upload begins and whatever else happens, executing what is left of the expired one, its bytes or its commit, changes nothing that is shown and acknowledges nothing. |
| `Watchdogs.BeginIsTakenExactlyWhen` | viewer/main.cpp:993-1030 | In every run a begin opens an upload from its first byte if and only if its epoch can be entered, the renderer works, and no upload is open or the open one has just expired and its recovery request found room; the image shown never changes. |
| `Reader.RebatchKeepsBytes` | viewer/main.cpp:1840-1870 | Re-batching one wire chunk into uploads neither loses nor reorders a byte: released batches and the held rest are the held bytes followed by the chunk. |
| `Reader.RebatchKeepsOffsets` | viewer/main.cpp:1842-1856 | Released batches are contiguous at the stream offsets of their bytes, less than one batch is held back, and nothing once the snapshot is whole. |
| `ReaderStreams.EveryCommandIsProper` | viewer/main.cpp:1700-2000 | Whatever the reader is sent, in any order and from any sender, each command it queues fits those before it: a begin opens an epoch beyond the last commit's, an upload goes on where the one before stopped and stays within the surface, a snapshot is committed only when its surface is full and under the hash of exactly the uploaded bytes, and rectangles only on top of the last committed frame, towards a later one, disjoint, within the limits and under the digest advanced from the last. |
| `ReaderStreams.SnapshotAckIsOfTheImage` | viewer/main.cpp:1031-1170 | And whatever it is sent and whatever fails on the way, a snapshot the compositor acknowledges is acknowledged with the hash of the image that is then committed, as long as no video comes in between. |
| `Host.BurstAbuts` | desktop/src/desktop.cpp:1659-1677 | The ranges of a burst follow one another without gap or overlap, stay within chunk size and surface, and a burst with bytes left is never empty. |
| `FramebufferSpec.SnapshotCommits` | viewer/d3d11_renderer.cpp:331-412 | A snapshot transaction leaves the committed buffer alone until its commit, commits exactly when it is complete and the frame is not zero, then shows the concatenation of the received chunks, and a cancel shows what was there before. |
| `FramebufferSpec.PatchAllPaints` | viewer/d3d11_renderer.cpp:251-272 | A run of patches succeeds if and only if every rectangle is acceptable, and then has painted them, in order, on a copy of the committed image. |
| `FramebufferSpec.RectTransactionCommits` | viewer/d3d11_renderer.cpp:245-329 | A rectangle transaction commits exactly the old frame with each rectangle painted; until then and after a cancel the committed frame is the old one; pairwise disjoint rectangles always verify. |
| `Pixels.PaintAllAt` | viewer/d3d11_renderer.cpp:251-272 | After painting several rectangles each byte is the one of the last rectangle covering it, and every uncovered byte is unchanged. |
| `Pixels.DisjointPaintAgrees` | viewer/d3d11_renderer.cpp:443-518 | After painting pairwise disjoint rectangles the image agrees with every one of them. |
| `Framebuffers.CopyBox` | viewer/d3d11_renderer.cpp:261-271 | Writing a pitched source box row by row into a texture in place is painting the gathered rectangle: rows land in their places and nothing else changes. |
| `Framebuffers.CopyRegion` | viewer/d3d11_renderer.cpp:289-302 | Copying a region between two textures paints exactly the source region at the destination. |
| `Framebuffers.MovedAt` | viewer/d3d11_renderer.cpp:274-303 | Moving a region is a simultaneous copy: every destination byte is the old source byte, every other byte is unchanged, overlap or not. |
| `Framebuffers.RegionPainted` | viewer/d3d11_renderer.cpp:289-302 | A region painted into an image and cut out again is itself, so the detour through the scratch texture is lossless. |
| `Framebuffers.Framebuffer.constructor` | viewer/d3d11_renderer.cpp:331-353 | A new renderer holds no image and no transaction. |
| `Framebuffers.Framebuffer.EnsureSurface` | viewer/d3d11_renderer.cpp:345-349 | Resources are kept when the surface is the same and otherwise replaced by blank ones, which forgets every transaction. |
| `Framebuffers.Framebuffer.RenderVideo` | viewer/d3d11_renderer.cpp:222-235 | A converted video frame becomes the committed image, the frame before it the working copy, and an open update is dropped. |
| `Framebuffers.Framebuffer.BeginUpdate` | viewer/d3d11_renderer.cpp:245-249 | An update starts from a copy of the committed image, and an open one is left alone. |
| `Framebuffers.Framebuffer.Patch` | viewer/d3d11_renderer.cpp:251-272 | A patch is refused exactly for a rectangle outside the surface or a payload of the wrong size, changing nothing; otherwise it paints the rows it carries on the working copy only. |
| `Framebuffers.Framebuffer.CopyRect` | viewer/d3d11_renderer.cpp:274-303 | A copy within the image is refused exactly when a region does not fit, changing nothing; otherwise the working copy is the simultaneous move, whatever the overlap. |
| `Framebuffers.Framebuffer.CommitUpdate` | viewer/d3d11_renderer.cpp:305-325 | A commit needs an open update and a frame; it swaps the two textures and closes the update. |
| `Framebuffers.Framebuffer.CancelUpdate` | viewer/d3d11_renderer.cpp:327-329 | A cancelled update leaves both images as they are. |
| `Framebuffers.Framebuffer.BeginSnapshot` | viewer/d3d11_renderer.cpp:331-353 | A snapshot is refused for empty or oversized surfaces, without a device or swap chain, inside another transaction, or for another surface than the one shown; otherwise it starts at byte zero. |
| `Framebuffers.Framebuffer.WriteChunk` | viewer/d3d11_renderer.cpp:355-381 | A chunk is taken exactly when it is contiguous, row aligned and within the surface, and replaces precisely its bytes of the working copy. |
| `Framebuffers.Framebuffer.CommitSnapshot` | viewer/d3d11_renderer.cpp:383-406 | A snapshot commits exactly when it is complete and names a frame; the textures are swapped. |
| `Framebuffers.Framebuffer.CancelSnapshot` | viewer/d3d11_renderer.cpp:408-412 | A cancelled snapshot leaves the committed image as it was. |
| `Verifier.CompareRow` | viewer/d3d11_renderer.cpp:497-511 | Comparing two rows counts no mismatch if and only if they are equal, and the three error sums vanish together. |
| `Verifier.CompareRect` | viewer/d3d11_renderer.cpp:491-514 | A rectangle compared row by row counts no mismatch if and only if the image agrees with it everywhere it covers. |
| `Verifier.BoxAround` | viewer/d3d11_renderer.cpp:452-473 | The staged box lies on the surface and contains every rectangle. |
| `Verifier.StagedAgrees` | viewer/d3d11_renderer.cpp:474-484 | Comparing against the staged box decides the same as comparing against the working copy itself. |
| `Verifier.CompareAll` | viewer/d3d11_renderer.cpp:491-514 | Over all rectangles the verified byte count is their total and zero mismatches means every rectangle agrees. |
| `Verifier.Verify` | viewer/d3d11_renderer.cpp:443-518 | The verifier refuses exactly what the renderer refuses, changes no image, and reports zero mismatches if and only if the working copy agrees with every rectangle. |
| `Machines.CanonicalState.Enter` | desktop/src/desktop.cpp:1453-1465 | A representation is entered with a larger epoch, or again with the same one; otherwise nothing changes. Entering drops the pending transaction and acknowledgement. |
| `Machines.CanonicalState.CommitVideo` | desktop/src/desktop.cpp:1467-1480 | A video commit needs the current video epoch and a frame that does not go back; it makes the frame lossy and drops any acknowledgement. |
| `CanonicalRuns.AcksAnswerCommits` | desktop/src/desktop.cpp:1482-1560 | Over every run of operations on the canonical record, the acknowledgements handed out answer exact commits, in the order of the commits and each at most once. |
| `CanonicalRuns.CommitsNeverGoBack` | desktop/src/desktop.cpp:1482-1531 | Epochs and frames of exact commits never go back. |
| `CanonicalRuns.CommitIsAcknowledgedOnce` | desktop/src/desktop.cpp:1482-1498 | A snapshot that commits is owed one acknowledgement: the next one taken names its epoch and frame, and another finds nothing. |
| `CanonicalRuns.UpdatesMoveForward` | desktop/src/desktop.cpp:1500-1531 | A rectangle transaction commits only from the very frame it began on to a later one. |
| `Machines.CanonicalState.BeginRects` | desktop/src/desktop.cpp:1500-1513 | A rectangle transaction starts only from the exact committed base towards a later target, one at a time. |
| `Machines.CanonicalState.CommitRects` | desktop/src/desktop.cpp:1515-1531 | It commits only with the base and target it began with, and then owes one acknowledgement. |
| `Machines.CanonicalState.CancelRects` | desktop/src/desktop.cpp:1533-1538 | A cancel of the current epoch drops the pending transaction and acknowledgement, one of another epoch nothing. |
| `Machines.CanonicalState.TakeAck` | desktop/src/desktop.cpp:1548-1560 | The one pending acknowledgement names the current epoch and frame and is handed out once. |
| `Machines.DrainPlan.Begin` | desktop/src/desktop.cpp:1633-1657 | A plan is accepted exactly for a whole number of rows within the limits, one at a time, and then starts at zero with whole-row chunks. |
| `Machines.DrainPlan.TakeBurst` | desktop/src/desktop.cpp:1659-1677 | A burst hands out the ranges of the protocol model and moves the plan past exactly them. |
| `Machines.CutBurst` | desktop/src/desktop.cpp:1662-1676 | The loop that cuts one burst computes the recursive burst of the model and its end. |
| `Machines.Feed` | viewer/main.cpp:1840-1870 | The loop that fills and releases upload batches computes the recursive re-batching of the model. |
| `Machines.FeedTurn` | viewer/main.cpp:1841-1869 | One turn of that loop takes at least one byte and leaves the rest of the work unchanged. |
| `Machines.RectGuard.Accept` | desktop/src/desktop.cpp:1690-1737 | The guard admits a rectangle exactly when the transaction of the model can take it: same header, within the count and byte limits, overlapping no earlier one; a refused rectangle changes nothing. |
| `ControlReceiver.HostFailsExactlyWhen` | desktop-agent/main.cpp:297-308 | For every interleaving of producers and the writer, the host reading the wire fails if and only if an edge behind a refused one was written; otherwise it applies every input on the wire, in order, and its wire-gap check never trips. |
| `ControlReceiver.HostAppliesEverything` | desktop/src/desktop.cpp:1331-1393 | As long as no edge is refused, the host fails at nothing and applies every input the wire carries. |
| `ControlLog.WrittenIsCoalesced` | viewer/main.cpp:598-657 | In every epoch, what has been written followed by what is still queued is what was asked for, with only superseded pointer moves left out. What was asked for is read off the actions: every move, edge and release with its own content, except an edge that found no room, and one release for closing. |
| `ControlLog.EdgesSeeTheirPosition` | viewer/main.cpp:623-652 | In every epoch each edge is sent right after exactly the last position asked for before it: edges and positions on the wire begin those asked for, and in the current epoch the queue holds the rest. |
| `ControlLog.EverythingIsWritten` | viewer/main.cpp:1466-1493 | Writing as often as messages wait empties the queue; the wire then carries everything asked for in the epoch but superseded moves, up to the very last input. |
| `ControlLog.MoveIsWritten` | viewer/main.cpp:617-624 | A move asked for while the queue is open is the last input on the wire once the queue has been emptied. |
| `ControlLog.OthersAreWritten` | viewer/main.cpp:629-657 | Messages that are no inputs keep their order: of every epoch a beginning of those that found a place is on the wire, and of the current epoch the deque holds the rest. |
| `ControlLog.QueuedIsCompact` | viewer/main.cpp:617-652 | In every run no superseded move waits: what is queued has no two moves in a row. |
| `ControlReceiver.ReliableIsBounded` | viewer/main.cpp:629-634 | The reliable deque never exceeds 256 entries, plus the one release closing adds. |
| `ControlReceiver.RefusalChangesNeither` | viewer/main.cpp:630-634 | A refusal happens exactly for a full deque and a message other than a release, and changes neither queue nor epoch. |
| `ControlReceiver.OverflowReleaseStartsEpoch` | viewer/main.cpp:635-645 | A release that finds the deque full opens the next epoch with nothing in front of it, nothing older behind it, and itself the only input of that epoch. |
| `ControlReceiver.RefusedEdgeBreaksLater` | viewer/main.cpp:685-690 | A refused edge has already used up its sequence number: after it and one write, the next edge is queued with a gap. |
| `ControlReceiver.RefusedEdgeFailsHost` | viewer/main.cpp:2546-2553 | After any run that ends with a full deque holding an edge, a refused edge, one write and another edge make the host give up once everything is written. |
| `ControlReceiver.FullDequeIsReachable` | viewer/main.cpp:629-634 | Such a run exists: one edge and messages that arrive while the writer gets no turn. |
| `ControlReceiver.WireNumbers` | viewer/main.cpp:1482-1493 | The numbers on the wire are consecutive from one. |
| `ControlQueue.CoalescingKeepsSights` | viewer/main.cpp:623-628 | Leaving out superseded moves loses no edge and changes for no edge which position it follows. |
| `ControlQueue.RunOk` | viewer/main.cpp:598-657 | In every run the queue keeps its order: everything ahead of the pending move is older than it, epochs agree, and every epoch's log coalesces to what was sent. |
| `ControlQueues.Pending.constructor` | viewer/main.cpp:598-603 | A queue starts empty in its first epoch. |
| `ControlQueues.Pending.Enqueue` | viewer/main.cpp:598-657 | Enqueueing into the deque and the pointer slot does what the queue of the model does, refusal and epoch change included. |
| `ControlQueues.EnqueueEnters` | viewer/main.cpp:598-657 | That is: a move takes the pointer slot, over any move that waits there; anything else goes to the end of the deque with its own content and number, with the waiting move frozen ahead of an input; a full deque refuses it and stays, except for a release, which empties it and opens an epoch; a closed queue takes nothing. |
| `ControlQueues.Pending.EnqueueInput` | viewer/main.cpp:685-712 | An input takes the next number of its kind before it is known whether there is room, and with that number it enters, is refused or finds the queue closed. |
| `ControlQueues.Pending.Stop` | viewer/main.cpp:875-890 | Closing appends one release behind everything, whatever the bound. |
| `ControlQueues.Pending.TakeNext` | viewer/main.cpp:1466-1482 | The writer takes the older of the pending move and the front of the deque, and numbers it next; an empty queue gives nothing. |
| `ControlQueues.ControlThreads.Perform` | viewer/main.cpp:598-657 | Whatever any producer or the writer does to the queue is one action of the run; queue and pipe stay those of the run. |
| `ControlQueues.PipeFailsExactlyWhen` | desktop-agent/main.cpp:297-308 | So what the pipe holds makes the host fail if and only if an edge was written behind a refused one, and otherwise the host applies every input in it. |
| `ControlQueues.PipeCarriesTheLog` | viewer/main.cpp:1466-1493 | And what the pipe and the queue of these threads hold is, epoch by epoch, what was asked for with only superseded moves left out. |
| `Glob.AcceptsOnlyMatches` | core/src/ignore_rules.cpp:24-57 | The backtracking matcher never accepts a value the pattern does not mean. |
| `Glob.ExactOnGoodPatterns` | core/src/ignore_rules.cpp:24-57 | The matcher is exact on every value if and only if the pattern is good: no `*` whose last star before it was a `**`, unless the tokens behind it let it stop at the first separator. |
| `Glob.ExactOnOneKindOfStar` | core/src/ignore_rules.cpp:35-48 | In particular it is exact on every value when the pattern has no `**` or no single `*`. |
| `Glob.GreedyIsSound` | core/src/ignore_rules.cpp:30-56 | Whatever the matcher has matched and wherever it would resume, it accepts only what is still possible. |
| `Glob.GreedyIsComplete` | core/src/ignore_rules.cpp:45-48 | On good patterns giving up every star but the last loses no match. |
| `Glob.CounterexampleMatches` | core/src/ignore_rules.cpp:35-48 | For a pattern that is not good the constructed value is one the pattern means. |
| `Glob.CounterexampleRefused` | core/src/ignore_rules.cpp:35-48 | And the matcher refuses that value. |
| `GlobLoops.GlobMatch` | core/src/ignore_rules.cpp:24-57 | The loop over indices terminates and answers as the recursive matcher. |
| `GlobLoops.Turn` | core/src/ignore_rules.cpp:31-51 | One turn of the loop keeps the answer and makes lexicographic progress: the last star, then what it has taken, then the value. |
| `GlobLoops.SkipStars` | core/src/ignore_rules.cpp:53-56 | The final loop ends at the end of the pattern exactly when only stars are left. |
| `GlobLoops.GlobMatches` | core/src/build_config.cpp:289-310 | The two-row table decides the declarative meaning with every `*` on its own. |
| `GlobLoops.MatchersAgree` | core/src/build_config.cpp:289-310 | On every pattern without adjacent stars the two matchers agree with each other and with the declarative meaning. |
| `GlobLoops.MatchesUnanchored` | core/src/ignore_rules.cpp:59-72 | An unanchored pattern is tried at the whole path and behind every separator, and nowhere else. |
| `GlobLoops.Ignores` | core/src/ignore_rules.cpp:131-160 | A path is ignored if and only if some rule hits it: itself, unless the rule is for directories and the path is none, or below a directory rule; a non-canonical path is refused. |
| `GlobLoops.UnanchoredRuleIsExact` | core/src/ignore_rules.cpp:59-72 | On good patterns an unanchored rule hits exactly the paths it means at some component, and exactly what lies below those. |
| `DirectoryRules.UnanchoredHidesContents` | core/src/ignore_rules.cpp:131-160 | A rule without an anchor whose pattern is good hits, besides what it hits itself, exactly what is inside a directory it hits, at any depth. |
| `DirectoryRules.AnchoredHidesContentsExactlyWhen` | core/src/ignore_rules.cpp:131-160 | An anchored rule does so if and only if its pattern has no wildcard, because what is below it is found by comparing letters. |
| `DirectoryRules.AnchoredIsLiteralBelow` | core/src/ignore_rules.cpp:137-141 | What an anchored rule hits below is its pattern letter by letter, a separator and anything. |
| `DirectoryRules.DirectoryRuleHitsExactlyWhen` | core/src/ignore_rules.cpp:131-160 | Where that holds, a rule for directories hits a path if and only if it hits a directory on the way, or the path itself and that is a directory. |
| `DirectoryRules.HitIsInherited` | core/src/workspace_manifest.cpp:51-61 | So whatever lies below a path hit as a directory is hit too, and a walk that does not go down there misses nothing. |
| `Sha256.HashPieces` | core/src/content_hash.cpp:47-95 | Feeding a message in any split and finishing gives the iterated compression of the padded whole message, whatever the split. |
| `Sha256.Accumulator.constructor` | core/src/content_hash.cpp:158-160 | A new accumulator has absorbed nothing and holds the initial hash value. |
| `Sha256.Accumulator.Update` | core/src/content_hash.cpp:47-63 | An update is refused exactly when the accumulator is finished or the byte count would overflow 64 bits; otherwise the message grows by exactly the input. |
| `Sha256.Accumulator.Finish` | core/src/content_hash.cpp:65-95 | Finishing works once and gives the hash of the message padded with its bit length modulo 2^64, in one block or two. |
| `Sha256.Accumulator.Transform` | core/src/content_hash.cpp:101-156 | The in-place rounds over schedule and working words are the compression of the buffered block (section 6.2.2 of FIPS 180-4). |
| `Sha256.Expand` | core/src/content_hash.cpp:102-119 | The schedule array holds the message schedule of the block. |
| `Sha256.Mix` | core/src/content_hash.cpp:121-147 | The loop over eight mutable words computes the recursive rounds. |
| `Sha256Spec.PaddingIsInjective` | core/src/content_hash.cpp:70-85 | Padding (section 5.1.1 of FIPS 180-4) determines the message, so padded messages are equal only for equal messages. |
| `Sha256Standard.ScheduleIsStandard` | core/src/content_hash.cpp:102-119 | The schedule the code expands is the standard's (step 1 of section 6.2.2 of FIPS 180-4): the block's words, then the sums of earlier words, which the code adds in the opposite order. |
| `Sha256Words.WordRoundTrip` | core/src/content_hash.cpp:87-93 | Taking a word apart into big-endian bytes loses nothing. |
| `Sha256Standard.StandardIsValid` | core/src/content_hash.cpp:158-162 | The initial hash value, the sixty-four constants and the compression of the standard meet what the accumulator needs. |
| `Sha256Standard.Sha256Of` | core/src/content_hash.cpp:158-162 | The one-shot hash of any message below 2^61 bytes is the digest the theorems below pin down. |
| `Sha256Bits.DigestIsStandard` | core/src/content_hash.cpp:65-95 | The digest of a message is made of the eight words of the last hash value of the chain over its padded blocks, each as four bytes, the most significant first. |
| `Sha256Bits.HashIsChained` | core/src/content_hash.cpp:101-156 | Hashing whole blocks goes from the initial value through the compression of one block after the other. |
| `Sha256Bits.CompressionRecurs` | core/src/content_hash.cpp:121-156 | The rounds over eight variables are two recurrences (section 6.2.2 of FIPS 180-4): each new value is the standard's sum of earlier ones, round constant and schedule word, and the last four of both are added to the hash value. |
| `Sha256Bits.WordsAreStandard` | core/src/content_hash.cpp:121-147 | The functions and constants the digest is computed with are those characterised here. |
| `Sha256Bits.PaddedBytes` | core/src/content_hash.cpp:65-95 | The padded message is the message, a set bit, the fewest zeros that fill a block, and the length in bits as a big-endian number (section 5.1.1). |
| `Sha256Bits.ChooseBits` | core/src/content_hash.cpp:132-132 | Bit by bit, choice takes the second word where the first is set and the third elsewhere (section 4.1.2). |
| `Sha256Bits.MajorityBits` | core/src/content_hash.cpp:137-137 | Bit by bit, majority is set where two of the three words are. |
| `Sha256Bits.JoinBytes` | core/src/content_hash.cpp:102-110 | A word joined from four bytes has the first as its highest byte and the last as its lowest. |
| `Sha256Sums.OneBit` | core/src/content_hash.cpp:111-117 | A single bit of a word is either set or clear, so what follows determines every bit. |
| `Sha256Sums.Sum0Bits` | core/src/content_hash.cpp:135-136 | Each bit of the first sum is the parity of the bits two, thirteen and twenty-two places higher, going round. |
| `Sha256Sums.Sum1Bits` | core/src/content_hash.cpp:130-131 | The second sum: six, eleven and twenty-five places. |
| `Sha256Sums.Sigma0Bits` | core/src/content_hash.cpp:111-113 | The first sum of the schedule: seven and eighteen places going round, and three places with zeros from above. |
| `Sha256Sums.Sigma1Bits` | core/src/content_hash.cpp:114-116 | The second: seventeen and nineteen places going round, and ten with zeros from above. |
| `Sha256Roots.NthPrime` | core/src/content_hash.cpp:14-31 | The table of primes holds the first sixty-four: each is prime, larger than the one before, and none between them is. |
| `Sha256Roots.RoundConstantsAreRoots` | core/src/content_hash.cpp:14-31 | The round constants are the first thirty-two bits of the fractional parts of the cube roots of these primes (section 4.2.2). |
| `Sha256Roots.InitialHashIsRoots` | core/include/rwn/core/content_hash.hpp:24-27 | The initial hash value is made of those of the square roots of the first eight (section 5.3.3). |
| `FileTransfers.ConfirmedChunksMatch` | core/src/file_transfer.cpp:100-158 | For any order, repetition and crash or reopen, every confirmed chunk's staged range matches its descriptor. |
| `FileTransfers.PublishedIsSource` | core/src/file_transfer.cpp:174-184 | With a collision-free hash only the exact source is ever published. |
| `FileTransfers.CompleteIsAll` | core/src/file_transfer.cpp:170-172 | Comparing counts is enough: as many confirmed chunks as planned ones are all of them. |
| `FileTransfers.CompleteHoldsSource` | core/src/file_transfer.cpp:170-184 | Once complete, the staging file begins with the whole source. |
| `FileTransfers.CompletePublishesWhen` | core/src/file_transfer.cpp:174-181 | A complete transfer can be published if and only if the staging file is not longer than the source. |
| `FileTransfers.PlanFile` | core/src/artifact_store.cpp:153-193 | A plan is refused exactly for an empty file or a bad chunk size; otherwise it describes the source chunk by chunk and always passes the transfer's validation. |
| `FileTransfers.FileTransfer.constructor` | core/src/file_transfer.cpp:64-117 | Opening confirms exactly the chunks an earlier process left staged that still match. |
| `FileTransfers.FileTransfer.AcceptChunk` | core/src/file_transfer.cpp:126-158 | A chunk is accepted exactly when index, size and digest are the planned ones; it is then written in place and confirmed, and otherwise nothing changes. |
| `FileTransfers.FileTransfer.MissingChunks` | core/src/file_transfer.cpp:160-168 | The missing list holds exactly the unconfirmed indices. |
| `FileTransfers.FileTransfer.Finalize` | core/src/file_transfer.cpp:174-184 | Publishing happens exactly for a complete staging file of the planned size and digest and moves it to the destination; otherwise nothing changes. |
| `FileTransfers.TransferFile` | core/src/artifact_store.cpp:195-215 | Driving a transfer ends with the destination equal to the source if and only if whatever was left in the staging file is no longer than the source; otherwise the destination is untouched. |
| `SpsProbe.GolombRoundTrip` | viewer/sps_probe.hpp:27-31 | Reading undoes writing for every list of Exp-Golomb values up to 2^31-2, whatever follows (section 9.1 of ITU-T H.264). |
| `SpsProbe.PackedRoundTrip` | viewer/sps_probe.hpp:95-111 | The same through bytes: values encoded, padded, packed and read back are the values. |
| `SpsProbe.GolombIsRead` | viewer/sps_probe.hpp:27-31 | Reading a code gives the number it was written for and takes exactly its bits. |
| `SpsProbe.SpelledIsRead` | viewer/sps_probe.hpp:97-99 | A number spelled with enough bits is read back as itself. |
| `SpsProbe.Bits.Read` | viewer/sps_probe.hpp:18-26 | Reading up to 32 bits gives the number they spell and moves past them, or refuses and moves nowhere. |
| `SpsProbe.Bits.Ue` | viewer/sps_probe.hpp:27-31 | Reading a code answers as the recursive reader, refusing after more than thirty zeros or at the end. |
| `SpsProbe.Put` | viewer/sps_probe.hpp:97-99 | Writing appends the low bits of the value, highest first. |
| `SpsProbe.PutUe` | viewer/sps_probe.hpp:100-103 | Writing a code appends one zero less than the bits of the value plus one, then those bits. |
| `SpsSearch.EscapeRoundTrip` | viewer/sps_probe.hpp:42-51 | Removing escapes recovers every payload from its escaped form (section 7.4.1 of ITU-T H.264). |
| `SpsSearch.EscapedHasNoStartCode` | viewer/sps_probe.hpp:44-50 | An escaped payload contains no start code, so it cannot end its own search. |
| `SpsSearch.FramedIsExtracted` | viewer/sps_probe.hpp:33-51 | Search and escape removal recover exactly the framed payload: any first parameter set of at most 4096 escaped bytes that is followed by a three-byte start code or the end of the stream (Annex B of ITU-T H.264). |
| `SpsSearch.FindSps` | viewer/sps_probe.hpp:35-40 | The search loop finds the first parameter set and the first start code behind it. |
| `SpsSearch.RemoveEscapes` | viewer/sps_probe.hpp:42-51 | The escape loop computes the recursive removal, refusing an escape at the end or before a byte above three. |
| `SpsSearch.ExtractSps` | viewer/sps_probe.hpp:35-51 | Search, size limit and escape removal together. |
| `WindowsQuoting.QuoteArgument` | viewer/main.cpp:361-382 | The loop with its backslash counter computes the recursive quoting. |
| `WindowsQuoting.QuotedIsParsed` | viewer/main.cpp:361-382 | Parsing a quoted argument by the Microsoft C runtime rules returns exactly the original string, whatever backslashes, quotes and blanks it holds. |
| `WindowsQuoting.LineIsParsed` | viewer/main.cpp:361-382 | A line of quoted arguments and bare words without blanks and quotes parses to exactly those arguments. |
| `WindowsQuoting.ProgramIsNamedExactlyWhen` | viewer/main.cpp:2416-2417 | The quoted program name, which is parsed by other rules, names the program if and only if it holds no quote and does not end in a backslash. |
| `WindowsQuoting.SshCommandIsParsed` | viewer/main.cpp:2416-2440 | The line the viewer starts its tunnel with parses to the program, the fixed switches, the identity file whatever it holds, and the remaining words. |
| `BuildEvidence.IsValidId` | core/src/build.cpp:15-21 | The loop decides whether an identifier is valid: one to 64 characters, each a letter, a digit, a dash or an underscore. |
| `BuildEvidence.CanonicalBytes` | core/src/build.cpp:105-134 | The canonical bytes are built exactly when the three identifiers are valid, the revision is not zero and the elapsed time not negative, and are the specified encoding of request and evidence. |
| `BuildEvidence.CanonicalRoundTrip` | core/src/build.cpp:112-133 | A parser gives request and evidence back from the canonical bytes. |
| `BuildEvidence.CanonicalIsInjective` | core/src/build.cpp:105-134 | Equal canonical bytes mean equal arguments, environment, directory, timeout and identity, and equal evidence. |
| `BuildEvidence.AppendU64` | core/src/build.cpp:34-38 | Appending eight shifted bytes appends the big-endian number. |
| `BuildEvidence.AppendString` | core/src/build.cpp:40-45 | A string is appended behind its length. |
| `AudioPackets.PacketRoundTrip` | audio/src/audio.cpp:108-154 | Decoding undoes encoding for every packet the encoder accepts, which is every valid one. |
| `AudioPackets.OnlyEncodingsDecode` | audio/src/audio.cpp:128-154 | And the decoder accepts nothing but encodings: a decoded packet encodes to the very bytes it came from. |
| `AudioPackets.DecodePacket` | audio/src/audio.cpp:128-154 | The field-by-field decoder accepts and returns what the specification of the datagram says. |
| `AudioPackets.FieldReader.Take` | audio/src/audio.cpp:128-147 | The reader hands out the next bytes or, when too few are left, refuses and stays. |
| `AudioPackets.FieldReader.Number` | audio/src/audio.cpp:133-143 | The reader hands out the next big-endian number or refuses and stays. |
| `JitterBuffer.PlayoutIsConsecutive` | audio/src/audio.cpp:185-217 | Between resets each sequence number played is the one after the number before, modulo 2^64, losses included. |
| `JitterBuffer.OneMoreExactlyWhen` | audio/src/audio.cpp:193-212 | The numbers played count up without a wrap if and only if the first of them leaves room for all below 2^64. |
| `JitterBuffer.RoomIsEnough` | audio/src/audio.cpp:165-217 | It is enough, and can be checked beforehand, that no packet arrives whose number is within as many of 2^64 as there are pops. |
| `JitterBuffer.LargestNumberWraps` | audio/src/audio.cpp:185-217 | A failing run: one packet with the largest number is played, and the next pop conceals number zero. |
| `JitterBuffer.AcceptedIsPlayedPlusDepth` | audio/src/audio.cpp:165-217 | Accepted packets are the real packets played, plus those held, plus those accepted before the last reset; never more than the maximum are held. |
| `JitterBuffer.PlayedWasTaken` | audio/src/audio.cpp:193-204 | A real packet is played under its own number and is one that was accepted. |
| `JitterBuffer.StartedWaitsOnlyWhenEmpty` | audio/src/audio.cpp:205-208 | Once playout has started, a pop before its deadline waits if and only if the buffer is empty. |
| `JitterPlayout.TakenExactlyWhen` | audio/src/audio.cpp:165-183 | In every run a valid packet is taken if and only if its number is still to be played, no packet of that number is held and fewer than the maximum are. |
| `JitterPlayout.CountedExactlyWhen` | audio/src/audio.cpp:165-183 | In every run a valid packet raises exactly one counter: late when its number has had its turn, else duplicate when its number is held, else overflow when the buffer is full, else accepted. |
| `JitterPlayout.EveryArrivalIsCounted` | audio/src/audio.cpp:165-229 | So the counters add up to the valid packets that have arrived, in every run and across resets. |
| `JitterPlayout.ConcealedExactlyWhen` | audio/src/audio.cpp:205-217 | A concealment is counted if and only if a number was played without its packet. |
| `JitterPlayout.PlaysExactlyWhen` | audio/src/audio.cpp:185-217 | Nothing is played before the target number of packets is held; then the packet with the smallest number is. Afterwards the due number is played with its packet when it is held, and concealed exactly when its deadline has passed or a later packet is there. |
| `JitterPlayout.HeldIsPlayed` | audio/src/audio.cpp:193-217 | Every packet held once playout has started is played as soon as its number is due, whatever is missing before it. |
| `JitterBuffer.RunOk` | audio/src/audio.cpp:165-229 | In every run every buffered number is at least the expected one, every held packet is one that was accepted, numbers follow one another modulo 2^64, and the counts agree. |
| `JitterBuffer.AudioJitterBuffer.constructor` | audio/src/audio.cpp:156-163 | A buffer with admissible bounds starts empty. |
| `JitterBuffer.AudioJitterBuffer.PushPacket` | audio/src/audio.cpp:165-183 | A push throws exactly for an invalid packet, changing nothing, and otherwise accepts or counts it late, duplicate or overflowing. |
| `JitterBuffer.AudioJitterBuffer.PopPacket` | audio/src/audio.cpp:185-217 | A pop plays, conceals or waits as specified, starting at the smallest number held and going on modulo 2^64. |
| `JitterBuffer.AudioJitterBuffer.Restart` | audio/src/audio.cpp:225-229 | A reset forgets packets and position and keeps the counts. |
| `Deployments.DeployConserves` | core/src/deployment.cpp:175-336 | A deployment loses no content of active, rollback or failed places, and adds the artifact exactly when its install step succeeded, whatever moves, commands and checks fail. |
| `Deployments.RunConserves` | core/src/deployment.cpp:175-411 | Over any run of deployments and rollbacks no content is lost, and each completed install adds exactly one artifact. |
| `Deployments.RolledBackRestores` | core/src/deployment.cpp:295-314 | What a rolled back deployment leaves active is what its rollback slot held before, or, with a free slot, the content that was active before. |
| `Deployments.RolledBackIsRightExactlyWhen` | core/src/deployment.cpp:295-314 | So rolled_back means the pre-deployment content if and only if the slot was free or held that same content. |
| `Deployments.LeftoverSlotIsRestored` | core/src/deployment.cpp:107-117 | A concrete failing case: with a leftover slot staging refuses, and the compensation restores the leftover and reports rolled_back. |
| `Deployments.EveryRolledBackRestores` | core/src/deployment.cpp:175-336 | From a start without leftovers, every deployment of every run that reports rolled_back restored what was active before it. |
| `Deployments.ReverseRollbacksRestore` | core/src/deployment.cpp:339-411 | Any number of successful deployments undone by successful rollbacks in reverse order restore the active file and every slot. |
| `Deployments.EvidenceTellsStatus` | core/src/deployment.cpp:231-279 | The recorded steps are a beginning of the five forward steps and then of the four compensating ones, each ending with the only step that fails; active means all forward steps, rolled back all compensating ones, and the reason is the forward step that failed. |
| `Deployments.RollbackEvidenceTellsStatus` | core/src/deployment.cpp:368-393 | A manual rollback records the steps of the compensation, except that a step that throws is missing; the record is complete exactly when the rollback succeeded. |
| `Deployments.ActiveExactlyWhen` | core/src/deployment.cpp:231-294 | A deployment is active if and only if the stop succeeded, an active file was there and its slot free and the move happened, artifact and copy verified, no staging copy was in the way, the install moved, and start and health check succeeded; the artifact is then active and the previous file in its slot. |
| `Deployments.RolledBackExactlyWhen` | core/src/deployment.cpp:295-320 | It is rolled back if and only if one of these failed and the compensation succeeded: the second stop, a slot to put back, a free quarantine for whatever is active, both moves, start and health check. |
| `Deployments.RollbackSucceedsExactlyWhen` | core/src/deployment.cpp:368-411 | A manual rollback succeeds if and only if all of that does, and the previous file is then active again. |
| `Deployments.EvidenceIsTheCommands` | core/src/deployment.cpp:231-313 | Every recorded step of a deployment, forward or compensating, succeeded if and only if its command or its move did. |
| `Deployments.RollbackEvidenceIsTheCommands` | core/src/deployment.cpp:368-393 | So did every recorded step of a manual rollback. |
| `Deployments.RecordChangesExactlyWhen` | core/src/deployment.cpp:340-411 | A record changes only by an authorised rollback of an active deployment, to rolled back exactly when the rollback succeeds and to failed otherwise. |
| `Deployments.RecordedExactlyWhen` | core/src/deployment.cpp:175-230 | In every run a deployment has a record if and only if it was once asked for with authority. |
| `Deployments.DeploymentService.constructor` | core/src/deployment.cpp:175-180 | A service starts without records. |
| `Deployments.DeploymentService.Forwards` | core/src/deployment.cpp:281-294 | The forward steps run in order until the first that throws, recording each; none throws exactly when stop, staging, verification, copy, install, start and health check all succeeded. |
| `Deployments.DeploymentService.Backwards` | core/src/deployment.cpp:297-313 | The compensating steps do the same, and tell whether the deployment was rolled back or failed. |
| `Deployments.DeploymentService.Manually` | core/src/deployment.cpp:368-393 | A manual rollback takes the same steps, recording a failed exit but not an exception. |
| `Deployments.DeploymentService.DeployArtifact` | core/src/deployment.cpp:175-336 | A request is refused, changing nothing, exactly for a used identifier or missing authority; otherwise the record says active exactly when every command and move succeeded, and files and record are those of the specified deployment. |
| `Deployments.DeploymentService.RollbackDeployment` | core/src/deployment.cpp:339-411 | A rollback is refused, changing nothing, unless the deployment is active and the authority reaches; otherwise it compensates and closes the record. |
| `AgentRuntime.JobAccounts` | core/src/agent_runtime.cpp:318-422 | In every run each job's approvals are its patch attempts plus one if a grant is pending, its tool calls are its evidence and within the limit, and success rests on nonempty evidence that all succeeded. |
| `AgentRuntime.ParallelLimit` | core/src/agent_runtime.cpp:195-200 | In every run the active jobs never exceed the parallel limit. |
| `AgentRuntime.EvidenceIsNeverDiscarded` | core/src/agent_runtime.cpp:417-419 | In every run the next evidence identifier of every job is new, across jobs, so emplacing it never discards anything. |
| `AgentRuntime.IdDetermines` | core/src/agent_runtime.cpp:328-329 | An evidence identifier determines its job and call, whatever the job is called. |
| `AgentRuntime.FinishedIsFinal` | core/src/agent_runtime.cpp:254-263 | No operation changes a finished job, and no operation changes evidence. |
| `AgentRuntime.MinuteHoldsAtMostTheLimit` | core/src/agent_runtime.cpp:189-200 | With times that never go back, on a clock of any resolution, any window of a minute over the whole run holds at most the configured number of starts. |
| `AgentRuntime.RunOk` | core/src/agent_runtime.cpp:153-422 | The job, evidence and limit accounts hold after every run. |
| `AgentOutcomes.EvidenceTellsOutcomes` | core/src/agent_runtime.cpp:374-419 | In every run, read off the actions: the evidence of a job's k-th recorded call says succeeded if and only if that call was permitted and its tool succeeded. |
| `AgentOutcomes.ToolsRunExactlyWhen` | core/src/agent_runtime.cpp:340-416 | In every run the tools that have run are exactly those of the recorded calls that were permitted: without the capability, a grant that is needed or a call left, none runs. |
| `AgentOutcomes.StateMovesExactly` | core/src/agent_runtime.cpp:254-422 | Every action but a creation moves its job exactly to the state that follows from the calls before: overdue jobs time out, a patch without a grant waits for review, a review lets it run, and completing succeeds exactly when all calls did. |
| `AgentOutcomes.SuccessTellsOutcomes` | core/src/agent_runtime.cpp:706-732 | In every run a completed job has made calls, and is succeeded if and only if every one of them was permitted and its tool succeeded. |
| `AgentOutcomes.CreatedExactlyWhen` | core/src/agent_runtime.cpp:153-245 | With times that do not go back, a job is created if and only if the request is in order and new, no active job has a later event, and neither the jobs still in time nor the starts of the last minute have reached their limits. |
| `AgentRuntime.Jobs.constructor` | core/src/agent_runtime.cpp:153-160 | A runtime starts with no jobs, starts or evidence. |
| `AgentRuntime.Jobs.ExpireOverdue` | core/src/agent_runtime.cpp:160-188 | The loop over active jobs times out exactly the overdue ones it has visited and stops with an exception at one with a later event. |
| `AgentRuntime.Jobs.CreateJob` | core/src/agent_runtime.cpp:153-245 | Creating a job expires, prunes, checks limits, identifier and capability in that order, keeping what was done before a refusal. |
| `AgentRuntime.Jobs.ActiveJob` | core/src/agent_runtime.cpp:254-287 | An operation reaches only an active job with a time that does not go back, and times an overdue one out. |
| `AgentRuntime.Jobs.ApprovePatch` | core/src/agent_runtime.cpp:289-316 | An approval needs a waiting job and a valid human grant and allows one patch. |
| `AgentRuntime.Jobs.AddEvidence` | core/src/agent_runtime.cpp:417-419 | Evidence is stored under the next identifier, without replacing a stored one, and counted. |
| `AgentRuntime.Jobs.ExecuteTool` | core/src/agent_runtime.cpp:318-422 | A tool call checks state, limit, capability and grant in that order, uses a grant up once, runs the tool only for a permitted call, and records evidence that says whether the call was permitted and its tool succeeded. |
| `AgentRuntime.Jobs.CompleteJob` | core/src/agent_runtime.cpp:706-732 | A running job with evidence completes, as succeeded exactly when all its evidence succeeded. |
| `AgentRuntime.Jobs.CancelJob` | core/src/agent_runtime.cpp:734-753 | An active job is cancelled. |
| `MainLoops.MainLoop.Iterate` | desktop-agent/main.cpp:990-1656 | One iteration of the main loop (recovery request, mailbox, the turn of the mode, cursor, encoded unit or readback, and where it starts over early) ends where the mode it found, the clock and the selector say, and has written what that needs, said of the object's fields and the wire alone: selected rectangles and their commit are out and their acknowledgement is awaited; a late acknowledgement or too much change gives the exact path up in a larger epoch; a quiet screen stops video and is read back once the encoder is drained; a snapshot moves on by a burst; an encoded unit is written or dropped by its epoch; a matching acknowledgement makes the host exact. It is also a continuation of the run, whose host the object stays. |
| `MainLoops.MainLoop.Represent` | desktop-agent/main.cpp:1165-1494 | The turn of the mode and the stages behind it in the order of the source, as events of the run; what they lead to is proved about these events. |
| `Iterations.TurnedIterates` | desktop-agent/main.cpp:990-1656 | For every mode, clock and selector, in every reachable state: what an iteration chooses to do ends in the place, and puts on the wire the messages, that its specification by outcomes demands. |
| `Iterations.RepresentedReaches` | desktop-agent/main.cpp:1165-1656 | The same behind request and mail, mode by mode: awaiting_ack and awaiting_rect_ack wait or start over, sending goes on by a burst, exact follows the selector, video stops when the screen has been quiet and has cooled down, quiescing is read back when drained. |
| `Iterations.RunOrders` | platform/macos/src/desktop_runtime.mm:1085-1198 | In every run the canonical and the pending texture are no newer than the latest captured one, and are that one when they are as new. |
| `MainLoops.MainLoop.Acknowledge` | desktop-agent/main.cpp:1004-1130 | The mailbox is emptied as one event of the run. |
| `Iterations.TurnFacts` | desktop-agent/main.cpp:1011-1022 | In every run a matching acknowledgement can be promoted and a snapshot being sent is there, so the loop's branches for a failed promotion and a missing snapshot are never taken. |
| `MainLoops.MainLoop.constructor` | desktop-agent/main.cpp:983-989 | A loop starts as the host of the empty run. |
| `MainLoops.MainLoop.Captured` | platform/macos/src/desktop_runtime.mm:1090-1096 | A frame the analysis thread captures between any two stages is an event of the run. |
| `MainLoops.MainLoop.Submitted` | desktop-agent/main.cpp:470-487 | So is a submission of the encoder thread under the gate. |
| `MainLoops.MainLoop.Completed` | platform/macos/src/desktop_runtime.mm:1779-1801 | So is a unit the encoder has finished. |
| `MainLoops.MainLoop.Received` | desktop-agent/main.cpp:421-426 | So is an acknowledgement that arrives in the mailbox. |
| `MainLoops.ViewerKeepsTrack` | viewer/main.cpp:946-969 | And so is whatever the viewer does or an acknowledgement's loss, which leave the host alone. |
| `MainLoops.LoopIsSafe` | desktop-agent/main.cpp:990-1656 | Whatever loop and threads have done: an exact loop's canonical frame is on the screen, everything written is numbered 1, 2, 3 and so on, and all of it is accepted by the viewer's reader. |
| `LoopProgress.LoopMakesExact` | desktop-agent/main.cpp:1165-1277 | The loop's own iterations get there: once the screen is quiet any image of any session is read back, sent burst by burst, acknowledged and promoted, and is canonical on the host and committed on the screen, without any event of the host being chosen by hand. |
| `LoopProgress.LoopUpdates` | desktop-agent/main.cpp:1314-1404 | From any exact state the loop has brought about, newer content for which the selector selects rectangles within the digest limit is exact after two more iterations, with the viewer at work between them. |
| `LoopProgress.LoopPlays` | desktop-agent/main.cpp:1314-1404 | So every sequence of changes the selector finds is shown exactly, change by change, by the loop's own choices. |
| `LoopProgress.LoopShowsEveryFilm` | desktop-agent/main.cpp:1165-1404 | From the start of a session the loop makes any image exact and then shows every change of it. |
| `LoopProgress.LoopShowsVideo` | desktop-agent/main.cpp:1609-1656 | While the screen keeps moving, a hybrid session's loop writes every submitted frame, and after all of them the viewer has shown the last and nothing is left on the way. |
| `ViewerLoops.ScreenThread.Turn` | viewer/main.cpp:950-1448 | One turn of the compositor thread. With a command queued the front one is executed, watchdog first, and leaves the queue; with none, an expired upload is cancelled and then the newest frame is shown, once for every revision and not after an abandoned turn. Record, acknowledgement, queue and the thread's end are stated outright, and are those of the run it goes on with. |
| `ViewerLoops.ScreenThread.constructor` | viewer/main.cpp:946-949 | A compositor thread starts as the compositor of the empty run. |
| `ViewerLoops.ReaderThread.Turn` | viewer/main.cpp:1641-2033 | The next message of the channel is one event of the run: reader, command queue, decoder and slot change as the run says. Commands that do not fit stop the reader; exactly those before the first refused one are queued, and a reset has flushed decoder and slot by then. |
| `ViewerLoops.ReaderThread.constructor` | viewer/main.cpp:1578-1608 | A reader thread starts as the reader of the empty run. |
| `ViewerLoops.ScreenIsExact` | viewer/main.cpp:1057-1170 | While the host's loop is exact, the committed texture of the compositor thread is the host's canonical image, under its frame number, for any run both are part of. |
| `HostLoops.HostLoop.constructor` | desktop-agent/main.cpp:983-989 | A session starts in video mode, in epoch one, with nothing written. |
| `HostLoops.HostLoop.ResumeForcedIdr` | desktop-agent/main.cpp:906-982 | Leaving the exact path enters the next epoch, drops older units and the exact base, writes one reset that names the latest frame known, and goes back to forced video or, exact-only, to quiescing. |
| `HostLoops.HostLoop.AcceptAck` | desktop-agent/main.cpp:1004-1130 | The mailbox is emptied; the awaited acknowledgement promotes, one for the awaited frame with another digest gives the exact path up, any other is ignored. |
| `HostLoops.HostLoop.WriteChunks` | desktop-agent/main.cpp:1203-1232 | The loop over a burst writes exactly its chunks, numbered in order. |
| `HostLoops.HostLoop.DrainBurst` | desktop-agent/main.cpp:1171-1277 | One turn writes one burst, and the commit once every byte is out; without a pending snapshot it gives up. |
| `HostLoops.HostLoop.SendCandidate` | desktop-agent/main.cpp:1354-1404 | A selected candidate is written rectangle by rectangle with its commit and awaited under the advanced digest, unless the digest refuses it. |
| `HostLoops.HostLoop.SubmitLatest` | desktop-agent/main.cpp:470-487 | Under the gate a frame is submitted with the current epoch, forced to an IDR when one is owed, and not at all once submissions are disabled. |
| `HostLoops.HostLoop.WriteEncoded` | desktop-agent/main.cpp:1609-1649 | The next encoded unit is written if its epoch is still current and dropped otherwise. |
| `FrameReaders.FrameReader.constructor` | viewer/main.cpp:1578-1608 | A reader starts with no transaction, no representation and nothing queued. |
| `FrameReaders.FrameReader.ReceiveMessage` | viewer/main.cpp:1641-2033 | One message changes the transaction state and queues exactly the commands the reader of the protocol model says, failures, recoveries and poisoned epochs included. |
| `FrameReaders.FrameReader.ReadStream` | viewer/main.cpp:1633-2033 | Reading any stream of messages one by one ends in the state, and queues the commands, of the model's reading of the whole stream. |
| `Compositors.CompositorLoop.constructor` | viewer/main.cpp:947-949 | A compositor starts with an empty renderer and an unavailable canonical frame. |
| `Compositors.CompositorLoop.ExecuteCommand` | viewer/main.cpp:971-1351 | Running one command on renderer and canonical record, watchdog and exception handler included, leaves screen and acknowledgement as in the protocol model, whatever fails on the way: a renderer that is not ready or cannot map its texture, a failed present, a rejected acknowledgement. It tells when the handler's own recovery request throws and ends the thread. |
| `Compositors.CompositorLoop.CommitUpload` | viewer/main.cpp:1057-1170 | A commit swaps the complete snapshot in, records it as exact and produces its acknowledgement; failures before and after the swap are told apart. |
| `Compositors.CompositorLoop.PatchEach` | viewer/main.cpp:1183-1189 | Rectangles are patched one by one until the first that is refused. |
| `Compositors.CompositorLoop.CommitRects` | viewer/main.cpp:1171-1314 | A transaction patches, verifies and swaps, then records the target as exact and produces its acknowledgement; whatever throws leaves the committed image of before or of the swap. |
| `Compositors.CompositorLoop.ShowFrame` | viewer/main.cpp:1371-1417 | The frame shown last is only presented again; any other is rendered into a video representation it may enter, a transition only by an IDR, and is recorded as shown once nothing has failed before, at or after the swap. |
| `Compositors.RefusedEnds` | viewer/main.cpp:1183-1189 | Once a rectangle is refused, the rectangles after it change nothing. |
| `Witness.ExactIsReachable` | desktop-agent/main.cpp:1011-1103 | For any two one-pixel images a concrete run takes a hybrid session from its start through a promoted snapshot of the first to a promoted rectangle, with the screen showing the second. |

## Left out

* Direct3D, Media Foundation, VideoToolbox, ScreenCaptureKit, Metal, windows, cursors, TLS, SSH and
  sockets: foreign calls, kept only as buffers, flags and one ordered channel.
* The byte layout of visual messages, reverse-control messages and acknowledgements: messages are
  values, with the size checks of their decoders.
* Session generations: one session is modelled, so every message carries the same one.
* Traces, metrics, percentiles, titles and audit records: they decide nothing.
* The lossy-quality comparison against an H.264 reference: evidence only, it changes no pixels.
* The end of a session by a closed pipe and the input release that follows it.
* Holding keys: what the operating system does with an applied input.
* `IgnoreRules::parse`, `merge` and `load_optional`: rules are given as parsed.
* `ArtifactStore` records and metadata, `BuildQueue` and `BuildRunner`: small state tables that would
  only add easy members.
* The field-by-field parse of a parameter set in `print_sps`: a fixed list of reads.
* `verify_claim`, `required_capability` and the tools of the agent runtime: case analysis and foreign calls.
* The content a job's tool produces: only whether it succeeded is kept.
* `client/src/artifact_client.cpp`: nothing is assumed of its exchange.
- Runs.ExactMeansShown: the converse, that an exact screen makes the host exact, is not promised by the code, because acknowledgements may be lost.
- Progress.EveryImageBecomesExact: as for Updates.EveryUpdateBecomesExact and LoopProgress.LoopMakesExact, a run exists in which nothing fails; that every fair run gets there is not promised, because acknowledgements may be lost and newer content may supersede a snapshot.
- ReaderStreams.SnapshotAckIsOfTheImage: video frames between the commands, and what acknowledged rectangles show, are left to the theorems about runs, whose host numbers its frames once.
- DirectoryRules.UnanchoredHidesContents: on a pattern that is not good both the rule and what it is tried below are matched inexactly, and nothing is said.
- MainLoops.MainLoop.Iterate: how many cursor messages an iteration sends is said by the events of the run it goes on with, not by the outcome.
- ViewerLoops.ReaderThread.Turn: the cancel a stopped reader tries to queue as its last act is refused by the same full queue; that the compositor may have made room for it in the meantime is not modelled.
- ControlQueues.Pending.Stop: closing is one step, so a producer that has passed the test for stopping and enqueues behind the final release is not modelled.
- Compositors.CompositorLoop.ExecuteCommand: a renderer that fails inside a begin leaves its textures as they were; one that fails while it replaces them is not modelled.
- Runs.EveryTraceIsAccepted: says nothing about a reader stopped by a full command queue, which takes no more messages.
- AgentRuntime.Jobs.CreateJob: which overdue jobs are expired before an exception depends on the order the jobs are visited in, which is left open.
- SpsSearch.FramedIsExtracted: a stream whose parameter set is followed by a four-byte start code yields one zero byte more, as the code does; the lemma covers three-byte delimiters.
- Deployments.RunConserves: staging copies left behind by a failed install are tracked as present or absent, not by content.
