# x11-web: verified model

A Dafny model of the parts of x11-web where a mistake would be silent: the media
frame transport from the backend's chunker to the browser's reassembler, the
workspace document both sides edit, and four small loops of the frontend.
`dafny verify dfyconfig.toml` checks everything.

## The media transport

`Wire` is the 8-byte chunk header. `Chunking` splits a frame into chunks
(`chunking.rs`). `DriverQueue` is the latest-frame-wins queue of `rtc.rs`, and `QueueRuns`
says what each of its operations does and what its runs never lose. `Reassembly` is
`onChunk` as a function on arbitrary bytes, and `ReassemblerObject` the object that fills
slots in place and equals it.

The end-to-end theorem goes through three refinements:

1. `SerialRefinement`: the 32-bit reassembler behaves, chunk by chunk, like one with
   unbounded message numbers and plain `<`, as long as every chunk's number is comparable
   with the newest one seen: equal, or at a distance that modulo 2^32 is in 1..2^31-1. The
   lemma `SerialExact` says that these are exactly the numbers on which serial order and
   true order agree; `HalfWindow`, that numbers less than 2^31 apart are among them.
2. `FrameCollector`: on chunks of real frames, that unbounded reassembler behaves like a
   set of collected indices.
3. `DeliveryLog`: what that set surfaces is stated on the log of delivered chunks alone.
   A chunk surfaces its frame exactly when nothing newer came before and the chunks
   delivered since that frame last surfaced are all of them; without repeats, exactly when
   it completes the frame.

`Transport` is a step system (driver operation, lose, duplicate or deliver a chunk in
flight) whose runs are arbitrary lists of steps. Its two hypotheses are predicates of the
step relation: frames are at most 65535 * 16376 bytes, and each delivered number is
comparable with the newest one delivered. Frame numbers, the delivery log and the surfaced
list are histories that the driver and the receiver do not read. `Completeness` is the
converse direction for the receiver by itself, with arbitrary stale traffic, and the exact
payload bound.

## The workspace document

`Ocif` holds the nodes, the resources and what each operation does to them.
`WorkspaceEntryObject` (backend) and `WorkspaceSyncObject` (frontend) are the two
implementations that edit the maps in place, each proved to do it. `NodeFields` says field
by field what an operation changes and what it leaves alone. `DocumentRuns`,
`Stacking` and `SharedText` state what whole runs and single operations keep.
`Stacking` also models the canvas's high-water mark of z, which never goes down.

A string in the document is stored either as a scalar or as a text object, and the model
keeps the two apart (`Stored`), because the backend's `read_string` sees only scalars
(`crates/backend/src/workspace_doc.rs:530-538`) while the frontend reads both as strings.
Which of the two the frontend's writes produce is the Automerge library's choice
(`frontend/package.json:15`), so both are allowed everywhere.

## The small loops

`FontSearch` (ternary search, for any distance function), `FontFit` (the distance it really
searches, from the measured corner to the cursor), `FontMiss` (a drag it gets wrong),
`Wheel` (threshold accumulator, over reals), `Mirror` (rows of all workspaces in one
collection) and `Buttons` (X11 button state; a bit field is the set of the positions of its
bits).

## Where the code and its comments disagree

The model follows the code.

- `frontend/src/rtcReassembler.ts:8-16` says a stale frame is never surfaced and
  wraparound is benign. A chunk exactly 2^31 behind is neither older nor newer and is
  accepted: `WindowIsTight`, `TwoPartials`.
- `crates/backend/src/chunking.rs:47-50` does not bound the payload, but the header's
  count saturates at 65535 while the loop goes on. Beyond 1,073,201,160 bytes the
  receiver surfaces a truncated frame: `SurfacesWholeFrameIffFits`.
- `crates/backend/src/workspace_doc.rs:366-368` says the detach sweep leaves no dangling
  edge. An edge whose endpoint is a text object is left: `DetachExact`,
  `TextEndpointSurvivesDetach`.
- `frontend/src/workspaceSync.ts:153-160` calls the distance unimodal and promises half a
  pixel. The loop does stop after exactly 15 rounds with a bracket under half a pixel, but
  the bounds of any non-empty text are whole pixels (`:237-240`), so its distance is a step
  function: it always has plateaus, and it can zigzag when the cursor is off the corner's line.
  `MissesByFive` is such a drag (one line, cursor at (116, 32) from the anchor) on which the
  answer is more than five pixels from every nearest size. `AnswerNearest` bounds that error
  for every text with at least one line, every grip and cursor, and `WithinHalfPixel` says
  when the promise is kept: when the squared speed of the corner per pixel of font size
  exceeds 64 * (6 * h + 9), with h the cursor's distance from the corner's line.
  `EmptyAnswerFits` keeps it for the empty text, whose height is not rounded, and
  `WithinQuarterPixel` covers any valley-shaped distance, with the length of its longest tie
  as the only loss.
- `frontend/src/db.ts:319` says other workspaces' rows are untouched. That holds for two
  workspaces if and only if neither id continues the other with a colon, as "a:b" continues
  "a": `ColonCollides`.
- `frontend/src/inputProtocol.ts:228-231` and `:286-289` contradict each other on whether
  `buttons` at a mouseup is from before or after the release. `ReplayAgrees` holds either
  way.

## Model

| member | source | states |
|---|---|---|
| Wire.DecodeEncode | frontend/src/rtcReassembler.ts:34-40 | the receiver's header decode inverts the sender's encode, for every chunk |
| Wire.EncodeDecode | crates/backend/src/chunking.rs:76-83 | every buffer of at least 8 bytes is the encoding of the one chunk it decodes to |
| Wire.HeaderLayout | crates/backend/src/chunking.rs:76-83 | bytes 0-3 are the id, 4-5 the index and 6-7 the total, low byte first, then the body |
| Chunking.SliceAt | crates/backend/src/chunking.rs:69-71 | slice i is the window of payload bytes from i * 16376, cut at the end |
| Chunking.SliceCount | crates/backend/src/chunking.rs:55-67 | the number of slices is the rounded-up quotient, one for the empty payload |
| Chunking.ConcatSlices | crates/backend/src/chunking.rs:47-73 | the slices concatenate to the payload |
| Chunking.WireTotalExact | crates/backend/src/chunking.rs:55-62 | the saturating u16 total is the true chunk count exactly up to 65535 * 16376 bytes |
| Chunking.ChunkRoundTrip | crates/backend/src/chunking.rs:47-83 | up to that bound: indices 0..total-1, chunks of 16384 bytes but for the last, headers decode to what was sent, bodies concatenate to the payload |
| Chunking.ChunkHeader | crates/backend/src/chunking.rs:55-71 | every chunk of every payload, fitting or not: its index wraps at 65536 and its total stays at 65535 |
| Chunking.Chunker.constructor | crates/backend/src/chunking.rs:43-45 | the first id is 0 |
| Chunking.Chunker.MakeChunk | crates/backend/src/chunking.rs:76-83 | the built buffer is the header and body encoding |
| Chunking.Chunker.Split | crates/backend/src/chunking.rs:51-73 | the loop emits exactly the specified chunks with the old id, and the id wraps by one |
| DriverQueue.MediaDriver.ChannelOpen | crates/backend/src/rtc.rs:222-243 | "control" opens the control channel, any other label the media channel; the queue is untouched |
| DriverQueue.MediaDriver.ChannelClose | crates/backend/src/rtc.rs:244-255 | closing the media channel empties the queue; closing another id does not |
| DriverQueue.MediaDriver.ReceiveFrame | crates/backend/src/rtc.rs:322-344 | only the last waiting frame is chunked, and it replaces the queue, when the media channel is open |
| DriverQueue.MediaDriver.DrainPending | crates/backend/src/rtc.rs:380-402 | chunks leave the front until full or gone; an accepted one is written, a failed one is dropped |
| DriverQueue.QueueDiscipline | crates/backend/src/rtc.rs:195-208 | over every run: pending is a suffix of the last frame's chunks and empty without a media channel; genuine chunks are written at most once, in frame order and increasing index |
| QueueRuns.ReceiveExact | crates/backend/src/rtc.rs:322-344 | latest frame wins: of a frame and those queued behind it exactly the last one is chunked, under the next id, and replaces the queue; without a media channel nothing happens |
| QueueRuns.OpenExact | crates/backend/src/rtc.rs:222-243 | which channel a label opens, and that nothing else changes |
| QueueRuns.CloseExact | crates/backend/src/rtc.rs:244-255 | which ids close what, that only the media channel takes the queue with it, and that nothing else changes |
| QueueRuns.DrainExact | crates/backend/src/rtc.rs:386-401 | exactly the chunks up to the first full or missing channel leave the queue, and exactly the accepted ones among them are written, in order |
| QueueRuns.DrainPoint | crates/backend/src/rtc.rs:387-401 | every drain stops at such a point |
| QueueRuns.AllAccepted | crates/backend/src/rtc.rs:391-393 | when all are accepted the chunks written are the front of the queue |
| QueueRuns.DrainWithoutChannel | crates/backend/src/rtc.rs:386 | without a media channel a drain changes nothing |
| QueueRuns.NothingLost | crates/backend/src/rtc.rs:380-402 | over every run without a failed write or a close of the media channel, the chunks written of the last frame followed by those pending are all its chunks, in order |
| Reassembly.MissingChunkExitUnreachable | frontend/src/rtcReassembler.ts:66-79 | when the count reaches the total every slot is filled, so the missing-chunk exit is dead |
| Reassembly.MalformedExactly | frontend/src/rtcReassembler.ts:34-39 | which buffers are ignored at once, by their bytes, and that they change nothing |
| Reassembly.ConflictDrops | frontend/src/rtcReassembler.ts:61-65 | a chunk that contradicts its message's total drops that message and no other |
| Reassembly.InvAlways | frontend/src/rtcReassembler.ts:26-82 | after any run of arbitrary buffers: each partial has total slots, counts its filled slots, 0 < received < total, and is not older than the newest seen |
| Reassembly.SingleExact | frontend/src/rtcReassembler.ts:42-60 | a step leaves at most one partial, keyed by the newest message, if and only if it is not a chunk of a multi-chunk message exactly 2^31 away |
| Reassembly.SingleAlways | frontend/src/rtcReassembler.ts:46-51 | over every run: at every point at most one partial exists, keyed by the newest message, if and only if no chunk of a multi-chunk message arrives exactly 2^31 away |
| Reassembly.TwoPartials | frontend/src/rtcReassembler.ts:88-92 | two chunks 2^31 apart leave two partials |
| Reassembly.NoTombstone | frontend/src/rtcReassembler.ts:80-81 | a finished message delivered again is surfaced again |
| ReassemblerObject.Assemble | frontend/src/rtcReassembler.ts:72-81 | the copy loop produces the slots' bytes in order, or nothing if a slot is empty |
| ReassemblerObject.Reassembler.Evict | frontend/src/rtcReassembler.ts:48-50 | exactly the partials strictly older than the new id are deleted |
| ReassemblerObject.Reassembler.Receive | frontend/src/rtcReassembler.ts:33-82 | the in-place object computes the specified step on arbitrary bytes and keeps its invariant |
| SerialRefinement.SerialExact | frontend/src/rtcReassembler.ts:85-95 | wrapped order agrees with true order if and only if the numbers are equal or their distance modulo 2^32 is in 1..2^31-1 |
| SerialRefinement.HalfWindow | frontend/src/rtcReassembler.ts:85-95 | numbers less than 2^31 apart are comparable, so everything below holds for them |
| SerialRefinement.WrapStep | frontend/src/rtcReassembler.ts:42-81 | one chunk, malformed or not, whose number is comparable with the newest: the 32-bit step is the unbounded step, wrapped |
| SerialRefinement.SerialRefines | frontend/src/rtcReassembler.ts:15-16 | over every run of such chunks, across any number of wraparounds, both give the same output on every chunk |
| SerialRefinement.WindowExact | frontend/src/rtcReassembler.ts:88-92 | on a whole message both give the same output if and only if, when stale, its distance modulo 2^32 is in 1..2^31-1, and otherwise at most 2^31 |
| SerialRefinement.WindowIsTight | frontend/src/rtcReassembler.ts:88-92 | at distance exactly 2^31 the 32-bit reassembler surfaces a stale message |
| FrameCollector.CollectStep | frontend/src/rtcReassembler.ts:53-81 | on chunks of real frames the unbounded reassembler is a set of collected indices, and what it surfaces is the frame |
| DeliveryLog.SurfacesOnlyComplete | frontend/src/rtcReassembler.ts:70-81 | even with duplicates, a surfaced frame is the newest delivered and fully delivered |
| DeliveryLog.SurfacesExactly | frontend/src/rtcReassembler.ts:53-81 | on every log, repeats included, a chunk surfaces its frame if and only if nothing newer came before and the chunks delivered since that frame last surfaced are all of them |
| DeliveryLog.CompleteHasSurfaced | frontend/src/rtcReassembler.ts:70-81 | on every log, a frame that is fully delivered with nothing newer has surfaced |
| DeliveryLog.LastSurfacedIsLast | frontend/src/rtcReassembler.ts:80-81 | the point since which chunks count is the last one at which the frame surfaced, or the start |
| DeliveryLog.SurfacesWhenComplete | frontend/src/rtcReassembler.ts:8-13 | without duplicates, a chunk surfaces its frame if and only if it completes it and nothing newer came before |
| Transport.SurfacedIsSent | frontend/src/rtcReassembler.ts:42-81 | over every run on a lossy, reordering, duplicating network: payloads are sent frames byte for byte, in nondecreasing order, each the newest and complete at its point |
| Transport.NothingMissed | frontend/src/rtcReassembler.ts:42-81 | over every run on such a network: frames surface exactly at the chunks that complete what came since they last surfaced, unsuperseded, and every frame complete with nothing newer delivered has surfaced |
| Transport.EndToEnd | crates/backend/src/rtc.rs:332-343 | over every run without duplication: frames surface byte for byte, in strictly increasing send order, exactly where the delivery log completes them unsuperseded |
| Completeness.Completes | frontend/src/rtcReassembler.ts:42-81 | if every chunk of a message arrives once, in any order and mixed with any stale or malformed buffers, it surfaces exactly at its last chunk |
| Completeness.SurfacesWholeFrameIffFits | crates/backend/src/chunking.rs:55-71 | a new receiver fed all chunks of a payload in order first surfaces its first 65535 * 16376 bytes, and surfaces the payload and nothing else if and only if it has at most that many |
| WorkspaceEntryObject.WorkspaceEntry.AttachWindowNode | crates/backend/src/workspace_doc.rs:325-364 | creates the window node, or returns false and changes nothing when the id is taken |
| WorkspaceEntryObject.WorkspaceEntry.DetachWindowNode | crates/backend/src/workspace_doc.rs:369-400 | the collect-then-delete sweep removes the node and every edge naming it by scalar, or returns false and changes nothing |
| WorkspaceEntryObject.WorkspaceEntry.SetWindowNodePosition | crates/backend/src/workspace_doc.rs:410-428 | moves window nodes only, never changes the id set, and returns whether anything changed |
| WorkspaceEntryObject.WorkspaceEntry.SetWindowNodeSize | crates/backend/src/workspace_doc.rs:435-453 | resizes window nodes only, never changes the id set, and returns whether anything changed |
| WorkspaceEntryObject.WorkspaceEntry.NodeStats | crates/backend/src/workspace_doc.rs:460-477 | the node count and the largest z, at least 0 |
| WorkspaceEntryObject.WorkspaceEntry.WindowNodeIds | crates/backend/src/workspace_doc.rs:482-494 | exactly the ids of the window nodes |
| WorkspaceSyncObject.WorkspaceSync.InsertOcifNode | frontend/src/workspaceSync.ts:644-734 | the node, its auto-fitted bounds and its seeded resource |
| WorkspaceSyncObject.WorkspaceSync.AttachWindow | frontend/src/workspaceSync.ts:537-560 | a new window enters one above the largest z; a taken id changes nothing |
| WorkspaceSyncObject.WorkspaceSync.RaiseOcifNode | frontend/src/workspaceSync.ts:741-754 | the node's z becomes one above the largest |
| WorkspaceSyncObject.WorkspaceSync.SetOcifArrowAnchor | frontend/src/workspaceSync.ts:1069-1106 | anchors or frees one end, drops an edge with no end, and refreshes the bounding box |
| WorkspaceSyncObject.WorkspaceSync.DeleteOcifNode | frontend/src/workspaceSync.ts:1111-1125 | deleting while walking the entries removes the node and exactly the edges naming it |
| WorkspaceSyncObject.WorkspaceSync.WriteText | frontend/src/workspaceSync.ts:901-952 | text lands in the first representation of the node's resource, created where missing |
| WorkspaceSyncObject.WorkspaceSync.SetOcifNodeText | frontend/src/workspaceSync.ts:825-839 | the text write, and new bounds for plain text-only nodes |
| NodeFields.InsertFields | frontend/src/workspaceSync.ts:650-732 | the inserted node field by field: which nodes take the measured size, which resource it gets, everything else the caller's; no other node changes |
| NodeFields.InsertResources | frontend/src/workspaceSync.ts:672-699 | the resource table gains at most the node's resource, seeded with the caller's text and mime type or their defaults |
| NodeFields.AttachFields | frontend/src/workspaceSync.ts:537-560 | a new window has the given place, size and ids and nothing else, and stands one above the largest z, or at the given z on the backend |
| NodeFields.RaiseFields | frontend/src/workspaceSync.ts:741-754 | raising changes only z, to one above the largest |
| NodeFields.WindowGeometry | crates/backend/src/workspace_doc.rs:410-453 | a live window takes the new position or size and keeps the rest; any other node is left alone |
| NodeFields.BoundsFields | frontend/src/workspaceSync.ts:796-815 | new bounds change x, y, width and height only |
| NodeFields.FreeFields | frontend/src/workspaceSync.ts:1083-1103 | a freed end lands at the given point, the other end and every other field stay, the edge loses that end or is dropped, and the box is the smallest around both points |
| NodeFields.AnchorFields | frontend/src/workspaceSync.ts:1080-1082 | an anchored end names the target, a new edge is directed, and the arrow's points and every other field stay |
| NodeFields.AnchorsArrowsOnly | frontend/src/workspaceSync.ts:1076-1079 | nothing happens to a node that is not an arrow |
| NodeFields.SweepFields | frontend/src/workspaceSync.ts:1113-1122 | which nodes each of the two deletes removes, edge end by edge end, and that the others stay |
| NodeFields.SweepsLiveOnly | crates/backend/src/workspace_doc.rs:373-375 | deleting an id that is not there changes nothing |
| NodeFields.SetTextFields | frontend/src/workspaceSync.ts:825-839 | the node's resource, its first and other representations, and which nodes are resized and to what; no other node or field changes |
| NodeFields.SetTextOfNone | frontend/src/workspaceSync.ts:827 | setting the text of an id that is not there changes nothing |
| DocumentRuns.AnchorEffect | frontend/src/workspaceSync.ts:1056-1103 | the chosen end is set or cleared, the other end and every other node stay, the edge exists exactly while it has an end, the box spans the arrow's two points |
| DocumentRuns.AnchorExact | frontend/src/workspaceSync.ts:1080-1082 | anchoring keeps edge integrity if and only if the target is a live node that is not an arrow |
| DocumentRuns.DeleteIntegral | frontend/src/workspaceSync.ts:1108-1125 | under edge integrity a one-level sweep leaves no dangling edge |
| DocumentRuns.DetachExact | crates/backend/src/workspace_doc.rs:366-400 | the backend's detach keeps edge integrity if and only if every edge on the node names it by a scalar |
| DocumentRuns.EdgeIntegrity | frontend/src/workspaceSync.ts:1020-1125 | over every legal run of both sides' operations: each edge sits on an arrow, has an end, and its ends are live nodes that are not arrows |
| DocumentRuns.DeleteExact | frontend/src/workspaceSync.ts:1111-1125 | on a map without dangling edges no delete leaves one if and only if whatever names a node that names a third also names the third |
| DocumentRuns.IntegralIsOneLevel | frontend/src/workspaceSync.ts:1108-1110 | edge integrity implies that condition |
| DocumentRuns.ArrowOnArrowDangles | frontend/src/workspaceSync.ts:1116-1122 | with an arrow anchored on an arrow the one-level sweep leaves a dangling edge |
| DocumentRuns.DeletesAgreeExactly | crates/backend/src/workspace_doc.rs:379-398 | the two delete implementations leave the same map if and only if every edge on the node names it by a scalar |
| DocumentRuns.TextEndpointSurvivesDetach | crates/backend/src/workspace_doc.rs:530-538 | an edge naming the node by a text object survives the backend's sweep |
| DocumentRuns.AttachDetachRestores | crates/backend/src/workspace_doc.rs:325-400 | attach then detach restores the map if and only if no edge already named the id by a scalar |
| DocumentRuns.WindowsAreTheAttached | crates/backend/src/workspace_doc.rs:482-494 | over whole runs the window ids are those attached and not since detached or deleted |
| Stacking.StackingRefines | frontend/src/workspaceSync.ts:537-560 | over every run whose nodes enter above every z, at a whole z, order by z is a list under append, move to end and removal, swept arrows included |
| Stacking.CanvasEntersOnTop | frontend/src/App.tsx:303-309 | over every run whose inserts take one more than the high-water mark, which deletes and workspace switches leave above every z, nodes enter on top |
| Stacking.StackingOrder | frontend/src/App.tsx:1238 | over every run of attach, raise and delete from empty, order by rounded z is the move-to-top list |
| Stacking.RoundedIsNearest | frontend/src/App.tsx:1238 | the z-index is the nearest whole number, the upper one of two |
| SharedText.InsertShowsSeed | frontend/src/workspaceSync.ts:668-699 | an inserted node shows its seed if its resource, random or named by the caller, is new, and so do nodes that already referenced it; an existing resource keeps its text; a window gets none; no other text or mime type changes |
| SharedText.TextReachesExactlyTheSharers | frontend/src/workspaceSync.ts:995-1018 | after setting text, in all four resource states: the node and its sharers show it, every other text and every mime type is unchanged |
| SharedText.LastWriteShows | frontend/src/workspaceSync.ts:901-1018 | over every run of edits each node shows the last text written to it or to an initial sharer of its resource, and keeps its mime type |
| FontSearch.SolveFontSize | frontend/src/workspaceSync.ts:186-198 | the loop ends by width after exactly 15 rounds, for every distance function |
| FontSearch.BracketHolds | frontend/src/workspaceSync.ts:190-196 | for every distance that falls to its minimiser and rises after it, at every round the bracket contains the minimiser or ends within three times the longest tie after it |
| FontSearch.AnswerNear | frontend/src/workspaceSync.ts:188-198 | for every distance, if sizes on one side of a point whose comparison points away from it lie within a span, the answer is within 0.25 or three spans of the point |
| FontSearch.WithinQuarterPixel | frontend/src/workspaceSync.ts:148-160 | for every such valley the answer is within 0.25 of the minimiser, or after it by at most three times the longest tie; without ties always within 0.25 |
| FontFit.RoundingMoves | frontend/src/workspaceSync.ts:237-240 | rounding the bounds up to whole pixels moves the corner's distance to the cursor by at most 1.5 pixels |
| FontFit.BoundsExact | frontend/src/workspaceSync.ts:204-241 | the measured bounds in pixels, for empty and other texts, with paddings and line height as numbers |
| FontFit.FitIsNearest | frontend/src/workspaceSync.ts:174-184 | the fitting size is the one whose unrounded corner is nearest the cursor, among the sizes searched |
| FontFit.AnswerFits | frontend/src/workspaceSync.ts:161-199 | for every text with a line, grip and cursor the answer is within 0.25, or within 3w, of the fitting size, where w * w times the squared speed of the corner is at least 6 times the cursor's distance from the corner's line, plus 9 |
| FontFit.NearestNearFit | frontend/src/workspaceSync.ts:174-185 | every size nearest the cursor as measured is within w of the fitting size |
| FontFit.AnswerNearest | frontend/src/workspaceSync.ts:148-160 | so the answer is within 0.25 + w, or within 4w, of every size nearest the cursor as measured |
| FontFit.WithinHalfPixel | frontend/src/workspaceSync.ts:158-160 | if the squared speed of the corner exceeds 64 times (6 times the cursor's distance from the corner's line, plus 9), the answer is less than half a pixel from every such size |
| FontFit.EmptyAnswerFits | frontend/src/workspaceSync.ts:212-217 | for the empty text, every grip and cursor, the answer is within 0.25 of the size that fits |
| FontMiss.MissesByFive | frontend/src/workspaceSync.ts:158-160 | on one real drag the answer is below 30 while every size up to 35 is farther from the cursor than 36.1 is, so every nearest size is more than five away |
| Wheel.DrainAxis | frontend/src/canvasInputHooks.ts:57-68 | the threshold loop terminates, emits one press and release per crossing, and leaves the remainder |
| Wheel.WheelInput.OnWheel | frontend/src/canvasInputHooks.ts:41-105 | one wheel event: the motion, the clicks of both axes, the new accumulator |
| Wheel.EventsExact | frontend/src/canvasInputHooks.ts:51-69 | the events of one wheel event one by one: position first, then vertical, then horizontal clicks with their buttons, all at its place and state; none below the threshold |
| Wheel.DefaultThreshold | frontend/src/canvasInputHooks.ts:30 | with the default threshold a scroll from rest emits nothing exactly below 15 on both axes |
| Wheel.Conservation | frontend/src/canvasInputHooks.ts:51-69 | over every run and on each axis, threshold times net emitted clicks plus remainder is the total delta |
| Wheel.ResidualsStaySmall | frontend/src/canvasInputHooks.ts:57-63 | over every run the remainder stays below one threshold |
| Wheel.SplittingDoesNotMatter | frontend/src/canvasInputHooks.ts:24-29 | a one-directional scroll from rest gives floor(total / threshold) clicks of its button and none of the other, however it is split |
| Wheel.RunPaired | frontend/src/canvasInputHooks.ts:58-67 | over every run each press is followed at once by its release, and there is no other release |
| Mirror.Collection.ApplySnapshot | frontend/src/db.ts:324-367 | the transaction replaces exactly the workspace's rows, although the store ignores inserts of present keys and updates of absent ones |
| Mirror.RowExact | frontend/src/db.ts:340-360 | the row of each node of the snapshot, field by field, with "" for no text |
| Mirror.OtherRowsExact | frontend/src/db.ts:331-339 | besides those exactly the other workspaces' rows are there, unchanged |
| Mirror.StoreIgnores | frontend/src/db.ts:320-323 | the store's two no-ops |
| Mirror.OthersUntouchedExactly | frontend/src/db.ts:331-339 | another workspace's snapshot leaves these rows alone if and only if the two share no key |
| Mirror.MirrorAgreement | frontend/src/db.ts:318-323 | after any interleaving of snapshots, a workspace's rows are the projection of its latest snapshot if no other workspace's id and its own continue each other with ':' |
| Mirror.NoColonSeparate | frontend/src/db.ts:326-328 | ids without ':' never do |
| Mirror.KeysCollideExactly | frontend/src/db.ts:326-328 | two workspaces can share a key if and only if one id continues the other with ':' |
| Mirror.CollisionLoses | frontend/src/db.ts:340-364 | a row whose key both snapshots claim is lost to the first workspace |
| Mirror.ColonCollides | frontend/src/db.ts:341 | the snapshots of one workspace never disturb the rows of another, whatever they hold, if and only if neither id continues the other with ':' |
| Buttons.NoInterference | frontend/src/inputProtocol.ts:170-188 | modifier and button bits are disjoint and each can be read back |
| Buttons.PressExact | frontend/src/inputProtocol.ts:274-284 | a press: its button for every button number, and its state bit by bit, without the button just pressed |
| Buttons.ReleaseExact | frontend/src/inputProtocol.ts:290-300 | a release: its button, and its state bit by bit, with the button just released |
| Buttons.MoveExact | frontend/src/inputProtocol.ts:260-268 | a move: the main buttons and no modifiers |
| Buttons.StateBeforeEvent | frontend/src/inputProtocol.ts:274-300 | each press or release of any button, and each move, carries exactly the main buttons held before it |
| Buttons.ReplayFromRest | frontend/src/inputProtocol.ts:178-180 | the same from the start, with no button held |
| Buttons.ReplayAgrees | frontend/src/inputProtocol.ts:153-188 | over every possible sequence, the 0x700 bits of each event equal what an X client derives from the events before it |

## Left out

- str0m, UDP, ICE, SDP and timers in `rtc.rs`: the channel is a sequence of write results given to `DrainPending`, and the network is a bag of chunks.
- A second media channel while the first receiver still has chunks in flight: one receiver serves the whole run, as the browser creates one reassembler per connection.
- Automerge merge and sync: every statement is about one replica.
- Character-level edits: writing text replaces the content; `updateText` and `splice` are taken by their result. Representations always carry inline content, since what `updateText` does to one without is the library's business.
- Node entries that are not maps, and fields of the wrong type, which the backend's readers skip.
- Setters that touch only geometry, styles or path points (`setOcifNodeFontSize`, `appendOcifNodePathPoint`, `setOcifArrowEndpoints`): they change neither edges, nor z, nor resources.
- Stroke and marker fields of arrows, and colour and alignment of text styles.
- Text measurement: measured bounds are parameters of insert and of setting text. `FontSearch` takes an arbitrary distance function; `FontFit` takes line widths proportional to the font size and heights of 1.3 times it per line, before rounding, and `Math.hypot` as any function with its defining property.
- WithinHalfPixel: does not state the converse, because beyond its condition the error depends on where whole pixels fall at the 30 sizes probed; `MissesByFive` shows that some condition is needed.
- Random ids: parameters; `TextReachesExactlyTheSharers` assumes the id it is given is unused.
- Floating point: coordinates, z and wheel deltas are reals.
- Wheel thresholds of zero or less, for which the source loops do not terminate; its only caller uses 15.
- The commit of the row store: writes take effect in order when the transaction commits.
- The Cap'n Proto codecs, the user interface, authentication, telemetry and the X server are not part of this model.
