# OpenVX sample: scheduler, log, requirement tags, pixel access and platform list

This project models parts of an OpenVX API repository in Dafny and proves what its code promises.

- **The graph of the C++ sample** (`sample-c++`). `verify` turns the node list into epochs of nodes that
  can run, `process` runs them, setters make nodes dirty.
  `Scheduler.dfy` is the epoch loop on values with its theorems: every node once, inputs from strictly
  earlier epochs, success exactly when a legal layering fits, least depth, cycles.
  `Dataflow.dfy` says what running the list computes, `Orders.dfy` when its order matters.
  `Machine.dfy` is the graph as a state machine with its whole-run invariants, and `Reverify.dfy` says
  exactly when processing after a verification leaves the producers-first store.
  `MachineLaws.dfy` says what the steps mean for ports, values and refusals.
  `Graph.dfy` holds the classes `Parameter`, `Node` and `Graph`, updated in place, each method proved to
  take the abstract state to the state its step prescribes.
- **The helper log** (`Log.dfy`, `LogLaws.dfy`): a ring of entries with active flags. It behaves as a queue exactly on
  the runs that never fill it.
- **Requirement tags** (`Tags.dfy`, `TagLaws.dfy`, `TagFiles.dfy`, `TagHistory.dfy`, `TagScripts.dfy`,
  `TagNumbering.dfy`, `TagRuns.dfy`): the split/join loops of the two scripts, the laws between numbering, reverting and
  removing over all texts, and the freshness of ids over whole histories of runs.
- **Pixel access**: the four ways to address a mapped patch (`Addressing.dfy`), the window copy with
  borders (`Window.dfy`, `WindowLaws.dfy`), the tiling kernels (`Tiling.dfy`).
- **The platform list** of the installable client driver (`Platforms.dfy`, `PlatformLaws.dfy`) and **`math_gcd`** (`Gcd.dfy`).

`Sequences.dfy`, `Division.dfy`, `Values.dfy` and `VxStatus.dfy` hold what several of these share.

## Results about the code

Some expected properties are not properties of the code. The code is modelled as it is; each item names
an input that shows the failure and the condition under which the property holds.

- `verify` never takes validity back, so verifying a verified graph again puts all nodes into one epoch
  in list order (`Machine.ReverifyFlattens`), and `process` may then compute something else: a consumer
  listed before its producer reads the stale value (`Machine.ReverifyChangesResult`). It computes the same
  for all kernels and values exactly when no node with an output is listed before a producer of what it
  reads (`Reverify.ReverifyMatchesIff`). After any successful verification, whatever was valid on entry,
  the condition is that every consumer finds the producers it did not have to wait for in an earlier
  place of the run list (`Reverify.ProcessMatchesIff`).
- A verification that fails on a verified graph, after a client marked a parameter invalid, leaves the
  graph verified with part of a run list, and `process` then reports success without running the rest
  (`Machine.FailedReverifyRunsNothing`). In every reachable state the run list of a verified graph is
  complete exactly if the last verification succeeded (`Machine.VerifiedMeansCurrent`).
- A full log window is never read again: the reader's loop starts where it ends, and a later write keeps
  the window full (`HelperLog.FullForever`; a run that shows it is `HelperLog.FilledLog`). The log is a
  queue exactly on the runs that never fill it (`HelperLog.QueueIffNeverFull`).
- A read of an entry that is not the oldest leaves its slot in the window, and the window starts with it once
  the older ones are read; from then on no read makes room, and the log fills for good
  (`LogLaws.OutOfOrderBlocks`, `LogLaws.BlockedFillsUp`). A client that reads for the context never fills
  the window exactly when its unread records stay fewer than the slots (`LogLaws.NeverFullIffShortQueue`).
- `vxClearLog` leaves active entries behind when one of them but the last carries a success status, or the
  window is full (`HelperLog.ClearIff`; `HelperLog.ClearStopsEarly` is a window of two entries).
- Reverting undoes numbering exactly when every `[*R` of the text begins a `[*REQ*]`
  (`TagLaws.RoundTripIff`); the text `[*R` alone is not restored (`TagLaws.BareMarkIsNotUndone`).
- Removing can uncover a numbered tag, whose id the restarted count then issues a second time
  (`TagScripts.RemoveUncoversTag`, `TagRuns.RemoveReissues`). After any history the ids are fresh exactly
  if none was left where the count last started again (`TagScripts.HistoryIsFreshIff`); over histories of
  updates, whole-list reverts and removes this is decided by the erasing runs alone
  (`TagRuns.AlwaysFreshIff`). That no tag hangs on a bracket is enough (`TagScripts.IdsStayFresh`), not
  necessary; for a single tag `TagScripts.RemovingIsSafeIff` gives the exact condition on the text before it.
- Reverting only some files, or resetting the count, loses the count while ids remain; it is safe exactly if
  no other file, or no file, has ids (`TagScripts.PartialRevertIsFreshIff`, `TagScripts.RestartIsFreshIff`).
- Away from the step grid the client's addressing formula and the library's may differ, since one divides
  after and the other before multiplying by the stride (`Addressing.DirectAgreesIff`;
  `Addressing.DirectDiffersOffGrid` is a half-scaled plane).
- The 16x16 tiling kernel stores whole blocks; it makes the stores of the flexible kernel exactly for tiles
  of whole blocks (`Tiling.FastIsFlexibleIff`; `Tiling.RaggedTile` is a tile 17 pixels wide).

## Model

| member | source | states |
|---|---|---|
| Scheduler.PlacedOnce | sample-c++/Graph.cpp:92-134 | no node occurs twice in the run list, and after success the run list is a permutation of the node list |
| Scheduler.LoopHead | sample-c++/Graph.cpp:92-133 | at every loop head the scheduled nodes are those of the rows so far, their number is the sum of the row lengths, and a turn that goes on schedules at least one more |
| Scheduler.VerdictIsWhy | sample-c++/Graph.cpp:92-121 | the loop ends with everything scheduled, or out of epochs, or because no node is runnable, and the state it ends in shows which |
| Scheduler.Sound | sample-c++/Graph.cpp:100-130 | every input of a node in epoch e was valid on entry or is an output of a node in a strictly earlier epoch |
| Scheduler.Tight | sample-c++/Graph.cpp:100-133 | every node after epoch 0 waits for an input that a node of the epoch just before it makes valid first |
| Scheduler.ValidWhenProduced | sample-c++/Graph.cpp:123-130 | a parameter is valid at epoch e exactly when it was valid on entry or a node of an earlier epoch outputs it |
| Scheduler.EpochsAreLegal | sample-c++/Graph.cpp:92-134 | the epochs of a successful run are themselves a legal layering within the bound |
| Scheduler.Complete | sample-c++/Graph.cpp:92-121 | the loop succeeds exactly when a legal layering with that many layers exists, and gets stuck only when no legal layering of any depth exists |
| Scheduler.MinimalDepth | sample-c++/Graph.cpp:100-133 | no legal layering puts a node earlier than its epoch |
| Scheduler.FailsOnlyOnLongChain | sample-c++/Graph.cpp:94-98 | when every input is supplied and outputs start invalid, the loop fails exactly when a chain of dependent nodes is longer than the number of epochs |
| Scheduler.DecidesAcyclicity | include/VX/vx_api.h:944-947 | with no more nodes than epochs, the loop fails exactly when the dependencies form a cycle |
| Machine.VerifyDecides | sample-c++/Graph.cpp:73-134 | invalid node exactly when an init fails; otherwise success exactly when a legal layering of at most 20 layers exists, and invalid graph exactly when none does |
| Machine.VerifySuccess | sample-c++/Graph.cpp:65-135 | after success all nodes are clean, all their inputs and outputs valid, and the run list holds each node once |
| Machine.VerifyKeepsInv | sample-c++/Graph.cpp:65-135 | a verification, successful or not, keeps the graph's invariant |
| Machine.RunKeepsInv | sample-c++/Graph.cpp:40-163 | every sequence of additions, setters, verifications and processings in which no client clears validity keeps the whole invariant, input validity included |
| Machine.VerifyOnVerified | sample-c++/Graph.cpp:65-135 | a verification of a verified graph leaves it verified whatever it returns, and leaves every node once on the run list exactly if it succeeds |
| Machine.VerifiedMeansCurrent | sample-c++/Graph.cpp:138-148 | after every run, also of clients that clear validity, the verified flag means that no listed node is dirty, ports are what the setters asked for and no node is twice on the run list; all nodes are on it exactly if the last verification succeeded |
| Machine.VerifiedMeansReady | sample-c++/Graph.cpp:138-148 | after every run in which no client clears validity, the verified flag also means that all inputs are valid and the run list is a permutation of the node list |
| Machine.FailedReverifyRunsNothing | sample-c++/Graph.cpp:117-134 | a concrete run: a failing second verification leaves the graph verified, and process reports success without running its node |
| Machine.SmallGraphFits | sample-c++/Graph.hpp:30-48 | on a graph of at most ten nodes no row of the run list overflows |
| MachineLaws.AdditionsFill | sample-c++/Graph.cpp:40-57 | of any number of additions to a new graph the first hundred are taken, in order, and the others dropped |
| MachineLaws.PickedIff | sample-c++/Node.cpp:85-99 | a parameter is in a table exactly if a port of the wanted direction has it |
| MachineLaws.PickedInOrder | sample-c++/Node.cpp:85-99 | the tables keep the order of the ports |
| MachineLaws.OnePort | sample-c++/Node.cpp:85-99 | In ports are inputs, Out ports outputs, and all but Out ports are read |
| MachineLaws.OutputsGetValues | sample-c++/Node.cpp:105-117 | the k-th output gets the kernel's k-th value and no other parameter changes |
| MachineLaws.VerifyMarks | sample-c++/Graph.cpp:122-130 | a verification whose inits succeed, whatever it returns, makes valid exactly the outputs of the nodes it placed |
| MachineLaws.VerifyStopsAtBadNode | sample-c++/Graph.cpp:72-79 | a failing init ends the verification: the nodes before it have taken over their definitions and nothing else has changed |
| MachineLaws.ProcessRunsWhileSuccessful | sample-c++/Graph.cpp:146-160 | as long as the kernels succeed on the values they find, all nodes run in order |
| MachineLaws.RefusedUntilVerified | sample-c++/Graph.cpp:142-144 | after an addition that is taken or a setter, until a verification succeeds, process reports an invalid graph and leaves every value alone |
| MachineLaws.NewGraphRefuses | sample-c++/Graph.cpp:142-144 | so it does on a graph that was never verified with success |
| MachineLaws.ProcessedMeansCurrent | sample-c++/Graph.cpp:138-163 | after every run, if process reports success or changes a value, every listed node is clean and has the ports its setters asked for |
| Machine.ReverifyFlattens | sample-c++/Graph.cpp:123-130 | verifying a verified graph succeeds, changes no validity and leaves one epoch in list order |
| Machine.ReverifyChangesResult | sample-c++/Graph.cpp:92-163 | a concrete graph on which a second verification makes process leave another store |
| Machine.ProcessIsOrderIndependent | sample-c++/Graph.cpp:92-162 | after a verification that found no output valid, process leaves the store of any other producers-first order of the nodes |
| Orders.OrderMattersIff | sample-c++/Graph.cpp:146-160 | an order of single-writer nodes leaves the producers-first store for all kernels and values exactly when no node with outputs stands before a producer of what it reads |
| Orders.RunListInOrderIff | sample-c++/Graph.cpp:92-134 | whatever was valid on entry, the run list is such an order exactly when every consumer has the producer of each parameter it did not have to wait for in an earlier epoch, or earlier in the same one |
| Reverify.VerifyIgnoresKernels | sample-c++/Graph.cpp:65-135 | verification gives the same schedule and status whatever kernels the nodes have |
| Reverify.ProcessMatchesIff | sample-c++/Graph.cpp:92-162 | after any successful verification, process leaves the producers-first store for all kernels and values exactly when the consumers that did not have to wait are in order all the same |
| Reverify.NothingValidIsInOrder | sample-c++/Graph.cpp:92-162 | a verification that finds no output valid meets that condition |
| Reverify.ReverifyMatchesIff | sample-c++/Graph.cpp:123-130 | after verifying a verified graph again, process leaves the producers-first store for all kernels and values exactly when no node with an output is listed before a producer of what it reads |
| Machine.ExampleQualifies | sample-c++/Graph.cpp:92-162 | a concrete graph that meets the conditions of order independence at its first verification and not at its second |
| Dataflow.ProcessIsExec | sample-c++/Graph.cpp:146-160 | with kernels that succeed, process runs the whole list in order |
| Dataflow.ProcessStops | sample-c++/Graph.cpp:149-156 | the first kernel that fails ends processing: its status is returned and no later node runs |
| Dataflow.ExecSolves | sample-c++/Parameter.hpp:31-33 | running producers first leaves a store in which every output is what its kernel computes from that store |
| Dataflow.OrdersAgree | sample-c++/Parameter.hpp:31-33 | any two producers-first orders of single-writer nodes leave the same store |
| Dataflow.RunListPutsProducersFirst | sample-c++/Graph.cpp:92-133 | the run list of a successful verification is a permutation that puts every producer before its consumers |
| Dataflow.OrderIndependent | sample-c++/Graph.cpp:92-162 | processing the verified run list succeeds and leaves the store of any other producers-first order |
| Graphs.Parameter.constructor | sample-c++/Parameter.hpp:37-119 | a parameter starts invalid unless it is a border mode or a string |
| Graphs.Parameter.SetValid | sample-c++/Parameter.hpp:41 | the flag is the argument |
| Graphs.Parameter.MarkValid | sample-c++/Parameter.hpp:42 | the parameter is valid afterwards |
| Graphs.Parameter.MarkInvalid | sample-c++/Parameter.hpp:43 | the parameter is invalid afterwards |
| Graphs.Node.constructor | sample-c++/Node.cpp:38-55 | a node starts dirty, with empty tables |
| Graphs.Node.Create | sample-c++/Node.cpp:38-60 | the new node is on the graph's list exactly if the graph is unverified and has room; its addition is the abstract step |
| Graphs.Node.SortPorts | sample-c++/Node.cpp:85-99 | the tables hold the In, the Out and all parameters of the ports, in port order |
| Graphs.Node.Init | sample-c++/Node.cpp:71-103 | a clean node is untouched; a dirty one takes over its definition and becomes clean, or fails and stays as it was |
| Graphs.Node.Execute | sample-c++/Node.cpp:105-117 | runs the first kernel for the target on the node's parameters and returns its status; without one it reports an invalid node and changes nothing |
| Graphs.Node.SetDefinition | sample-c++/Node.cpp:119-123 | a setter is the abstract step: it makes the node dirty and the graph unverified and touches nothing else |
| Graphs.Node.SetDirty | sample-c++/Node.cpp:119-123 | the node is dirty and its graph unverified |
| Graphs.Graph.AddNode | sample-c++/Graph.cpp:40-57 | a verified or full graph refuses the node and is unchanged; otherwise the node is appended |
| Graphs.Graph.SetDirty | sample-c++/Graph.cpp:59-62 | the graph is unverified |
| Graphs.Graph.InitNodes | sample-c++/Graph.cpp:72-79 | the nodes before the first failing init are initialized, the others untouched |
| Graphs.Graph.ClearScheduled | sample-c++/Graph.cpp:81-85 | no listed node is flagged scheduled |
| Graphs.Graph.ScanEpoch | sample-c++/Graph.cpp:100-115 | the epoch's row becomes exactly the unscheduled nodes whose inputs are valid, in list order, and exactly these become flagged |
| Graphs.Graph.MarkEpoch | sample-c++/Graph.cpp:122-129 | exactly the outputs of the epoch's nodes become valid |
| Graphs.Graph.BuildRunList | sample-c++/Graph.cpp:87-134 | the loop over arrays, flags and counters builds the rows of the schedule and terminates; the scheduled count is the number of flagged nodes at every loop head |
| Graphs.Graph.Verify | sample-c++/Graph.cpp:65-135 | takes the abstract state to the verified state and returns its status |
| Graphs.Graph.Process | sample-c++/Graph.cpp:138-163 | an unverified graph is refused and every value stays; otherwise leaves the store and returns the status that the run list, run in order up to the first failure, gives |
| HelperLog.Log.Init | helper/vx_helper.c:58-63 | the window is empty |
| HelperLog.Log.Write | helper/vx_helper.c:106-121 | appends an active entry to the window; a full window loses its oldest entry |
| HelperLog.Log.Read | helper/vx_helper.c:65-104 | returns and deactivates the oldest active entry that matches, and drops it from the window if it is the first; finds nothing in a full window |
| HelperLog.Log.Clear | helper/vx_helper.c:295-302 | terminates, in the state that repeated reads up to the first success status give |
| HelperLog.ReadRefinesQueue | helper/vx_helper.c:81-102 | on a window that is not full, a read takes from the queue of active records the oldest matching one and leaves the rest in order |
| HelperLog.ReadFindsIff | helper/vx_helper.c:81-102 | a read returns an entry exactly when the window is not full and holds an active matching one |
| LogLaws.ReadReturnsOldest | helper/vx_helper.c:81-102 | what a read returns is the oldest active entry of the reference, or of any reference for a context; it finds nothing only if there is none or the window is full |
| LogLaws.ReadShortensIff | helper/vx_helper.c:89-99 | a read takes an entry out of the window, the first, exactly when that is the one it returns; otherwise it takes one active flag at most |
| LogLaws.WindowIsQueue | helper/vx_helper.c:89-99 | while the unread records are fewer than the slots, the window of a client that reads for the context is exactly the queue |
| LogLaws.NeverFullIffShortQueue | helper/vx_helper.c:65-121 | such a client never fills the window exactly when the unread records are always fewer than the slots |
| LogLaws.BlockedFillsUp | helper/vx_helper.c:89-99 | once the first entry of the window was read out of order, reads make no room: every write lengthens the window until it is full and no read returns anything |
| LogLaws.OutOfOrderBlocks | helper/vx_helper.c:89-99 | a concrete run of two writes and two reads that leaves nothing unread and the window so blocked |
| HelperLog.WriteRefinesQueue | helper/vx_helper.c:111-120 | a write enqueues; only a full window loses a record, the oldest |
| HelperLog.WindowIsLatestHistory | helper/vx_helper.c:58-121 | in every reachable state the window holds the latest records written, in order, at most as many as there are slots |
| HelperLog.FullForever | helper/vx_helper.c:81 | a window that has been full once stays full, and no read returns anything from then on |
| HelperLog.FilledLog | helper/vx_helper.c:81 | a concrete run of as many writes as there are slots, after which the queue has a matching record and the read finds nothing |
| HelperLog.QueueIffNeverFull | helper/vx_helper.c:65-121 | every read a run could make answers like an unbounded queue exactly when the run never fills the window |
| HelperLog.ClearIff | helper/vx_helper.c:295-302 | clearing keeps every other active entry, and leaves none for the reference exactly when there was none or the window is not full and only the last matching entry may carry a success status |
| HelperLog.ClearStopsEarly | helper/vx_helper.c:295-302 | a concrete window of two matching entries, the first with a success status, of which clearing leaves the second |
| Tags.PaddedInjective | scripts/openvx-sc-req-update.py:73 | zero-padded printing of different counts gives different ids |
| TagNumbering.PaddedWidth | scripts/openvx-sc-req-update.py:73 | ids have five digits up to 99999 and as many as the number from then on |
| Tags.JoinSplit | scripts/openvx-sc-req-update.py:54-60 | joining the pieces of a split with the separator gives the text back |
| Tags.UpdateLine | scripts/openvx-sc-req-update.py:66-74 | the split loop replaces each `[*REQ*]`, left to right, by a tag with the next number and counts them |
| Tags.RevertLine | scripts/openvx-sc-req-update.py:54-60 | the split loop replaces each `[*R` and what follows up to the next `]` or mark by `[*REQ*]` |
| Tags.RemoveLine | scripts/openvx-sc-req-remove.py:36-49 | the two split loops erase first the marks after a blank, then all others, each up to the next `]` or mark |
| TagLaws.RevertIgnoresUpdate | scripts/openvx-sc-req-update.py:53-75 | revert makes the same of a text before and after numbering, for every text and count |
| TagLaws.RemoveIgnoresUpdate | scripts/openvx-sc-req-remove.py:35-50 | remove makes the same of a text before and after numbering, for every text and count |
| TagLaws.RevertFixesIff | scripts/openvx-sc-req-update.py:53-61 | revert leaves a text alone exactly when every `[*R` in it begins a `[*REQ*]` |
| TagLaws.RoundTripIff | scripts/openvx-sc-req-update.py:53-75 | reverting undoes numbering exactly on those texts |
| TagLaws.BareMarkIsNotUndone | scripts/openvx-sc-req-update.py:53-75 | the text `[*R` becomes `[*REQ*]` |
| TagFiles.ReadLines | scripts/openvx-sc-req-update.py:47-49 | only an empty file has no lines |
| TagFiles.LinesConcat | scripts/openvx-sc-req-update.py:78-79 | writing the lines read gives the file back |
| TagFiles.UpdateFile | scripts/openvx-sc-req-update.py:64-80 | the line loop numbers the whole text, the count running on from line to line |
| TagFiles.RevertFile | scripts/openvx-sc-req-update.py:51-61 | the line loop reverts the whole text, skipping no further than the end of a line |
| TagFiles.RemoveFile | scripts/openvx-sc-req-remove.py:29-55 | the line loop removes the tags of every line |
| TagFiles.RevertTextIgnoresUpdate | scripts/openvx-sc-req-update.py:46-80 | revert makes the same of a file before and after numbering |
| TagFiles.RemoveTextIgnoresUpdate | scripts/openvx-sc-req-remove.py:29-55 | remove makes the same of a file before and after numbering |
| TagHistory.UpdateIssues | scripts/openvx-sc-req-update.py:64-75 | numbering keeps all ids of a text and adds exactly the next ones, one for each `[*REQ*]` |
| TagHistory.IssuingKeepsFresh | scripts/openvx-sc-req-update.py:64-75 | the new ids differ from all ids up to the count and from each other |
| TagHistory.RevertLeavesNoLabel | scripts/openvx-sc-req-update.py:53-61 | no numbered tag is left after reverting, whatever the text |
| TagHistory.RemoveTextClean | scripts/openvx-sc-req-remove.py:35-50 | no mark is left after removing from a tidy text |
| TagHistory.TidyIff | scripts/openvx-sc-req-remove.py:35-50 | a text is tidy exactly when no `[*R` in it directly follows `[` or `[*`, with or without a blank in between |
| TagHistory.UpdateKeepsTidy | scripts/openvx-sc-req-update.py:64-75 | numbering makes no text tidy or untidy |
| TagHistory.RevertKeepsTidy | scripts/openvx-sc-req-update.py:53-61 | reverting keeps a text tidy |
| TagScripts.Disk.RunUpdate | scripts/openvx-sc-req-update.py:26-85 | numbers the named files in order, the count running on from the saved one, or from 0 if it is reset, and saves it |
| TagNumbering.EveryNamedFileIsNumbered | scripts/openvx-sc-req-update.py:46-80 | every named file is numbered, starting from the count that the files named before it leave, no `[*REQ*]` stays in it, other files are as they were, and the count grows by the tags of all named files |
| TagNumbering.UpdateRun | scripts/openvx-sc-req-update.py:26-85 | the same for a run and the saved count |
| TagNumbering.UpdateLeavesNoReq | scripts/openvx-sc-req-update.py:64-75 | no `[*REQ*]` is left in a text after numbering it |
| TagScripts.Disk.RunRevert | scripts/openvx-sc-req-update.py:38-62 | reverts the named files in order and saves a count of 0 |
| TagNumbering.EveryNamedFileIsReverted | scripts/openvx-sc-req-update.py:46-62 | every named file is reverted, however often it is named, and no other |
| TagNumbering.RevertsByLine | scripts/openvx-sc-req-update.py:53-61 | reverting a file is reverting each of its lines |
| TagScripts.Disk.RunRemove | scripts/openvx-sc-req-remove.py:26-55 | removes the tags of every file of the list and deletes the count |
| TagScripts.HistoryIsFreshIff | scripts/openvx-sc-req-update.py:26-85 | after any history of updates, with or without a reset count, reverts of any files and removes, the ids are distinct and at most the saved count exactly if no id was left where the count last started again |
| TagScripts.PartialRevertIsFreshIff | scripts/openvx-sc-req-update.py:38-62 | reverting the named files keeps ids fresh exactly if the other files have no ids |
| TagScripts.RestartIsFreshIff | scripts/openvx-sc-req-update.py:35-37 | numbering from a reset count keeps ids fresh exactly if there are no ids yet |
| TagScripts.IdsStayFresh | scripts/openvx-sc-req-update.py:26-85 | over every history of updates that go on counting, reverts of all files and removes, the ids stay distinct and at most the saved count, provided the files are tidy if something is removed |
| TagRuns.WordsDecideFreshness | scripts/openvx-sc-req-update.py:26-85 | whether the ids are fresh after such a history is decided by its reverts and removes applied to the original files, whatever was numbered in between |
| TagRuns.AlwaysFreshIff | scripts/openvx-sc-req-remove.py:26-55 | the ids stay fresh over all such histories exactly when no word of reverts and removes that ends with a remove leaves an id in the original files |
| TagRuns.RemoveReissues | scripts/openvx-sc-req-remove.py:26-55 | a concrete file without ids that holds the id 00001 twice after removing and numbering |
| TagScripts.RemovingIsSafeIff | scripts/openvx-sc-req-remove.py:35-50 | removing a tag uncovers a numbered one for some text after it exactly when the text before it ends with `[` or `[*`, or with two of these in a row and a blank |
| TagScripts.RemoveAround | scripts/openvx-sc-req-remove.py:35-50 | removing a single tag leaves the text around it, without the blank before the tag |
| TagScripts.RemoveUncoversTag | scripts/openvx-sc-req-remove.py:26-55 | a concrete file without ids on which removing leaves a numbered tag beyond the restarted count |
| Addressing.PlainOffsets | vx_khr_icd/vx_dispatch.c:1988-1992 | without 32-bit overflow the wrapping formulas are the plain ones |
| Addressing.DirectAgreesIff | examples/vx_imagepatch.c:67-79 | without overflow the client's formula gives the library's offset exactly when on both axes the stride times the scaling remainder is less than the unit |
| Addressing.DirectDiffersOffGrid | examples/vx_imagepatch.c:67-79 | a concrete half-scaled plane on which the client's formula is one byte further on |
| Addressing.AddressingsAgree | vx_khr_icd/vx_dispatch.c:1988-2018 | on the step grid, with the unit dividing scale times step, the 1d form, the 2d form and the client's formula give the same offset |
| Addressing.FormatsCoverPatch | vx_khr_icd/vx_dispatch.c:1994-2018 | the 2d form gives an offset exactly for the pixels of the patch, and the 1d form is the 2d form row by row |
| Addressing.GridPointsApart | include/VX/vx_api.h:520-521 | with scale times step equal to the unit and row-major strides, different grid points are at least a pixel stride apart |
| Addressing.PaintLinear | examples/vx_imagepatch.c:51-56 | stores the pixel at the offsets of all pixels and nowhere else |
| Addressing.Paint2d | examples/vx_imagepatch.c:58-65 | stores the pixel at the offsets of all grid points and nowhere else |
| Addressing.PaintDirect | examples/vx_imagepatch.c:67-79 | leaves the buffer the 2d traversal leaves |
| Addressing.PaintHoisted | examples/vx_imagepatch.c:81-92 | leaves the buffer the 2d traversal leaves |
| Addressing.TraversalsTouchSameBytes | include/VX/vx_types.h:1379-1384 | with scale times step equal to the unit, all pixels have the offsets of grid points, so the four traversals touch the same bytes |
| Window.Clamp | helper/vx_helper.c:504-509 | the clamped coordinate is the nearest one inside the plane |
| Window.OffsetInPatch | helper/vx_helper.c:513-524 | every pixel read lies inside the memory of the patch |
| Window.RegionAt | helper/vx_helper.c:502-507 | slot kx, ky of the window is at its row-major position and holds the sample for its coordinates |
| Window.Fetch | helper/vx_helper.c:511-528 | loads as many bytes as the format has, or the constant's first bytes; only an unknown format is refused |
| Window.ReplicateRow | helper/vx_helper.c:502-529 | fills one row of the window with clamped pixels, each slot once |
| Window.ConstantRow | helper/vx_helper.c:535-580 | fills one row of the window with pixels inside and the constant outside, each slot once |
| Window.ReadRectangle | helper/vx_helper.c:490-585 | stores the window, each slot exactly once and in row-major order, and nothing else; for an unknown mode or format it refuses and stores nothing |
| WindowLaws.StoreShows | helper/vx_helper.c:511-524 | a byte stored where the library's addressing puts a pixel changes exactly the samples taken from that pixel, clamped or not, and these in exactly that byte, for formats of 1, 2 and 4 bytes |
| WindowLaws.SampleIs | helper/vx_helper.c:511-524 | a sample is the bytes at the library's offset of its pixel |
| WindowLaws.OutsideIsConstant | helper/vx_helper.c:543-573 | outside the patch, in constant mode, a sample is the first bytes of the constant |
| Window.InsideNeedsNoBorder | helper/vx_helper.c:498-585 | a window inside the patch is the same in every border mode |
| Window.WindowsOverlap | helper/vx_helper.c:498-585 | windows of neighbouring centres share all columns but one, also outside the patch |
| Tiling.Added | examples/vx_tiling_add.c:54-59 | the clamp never fires for 8-bit pixels: the result is their sum |
| Tiling.AddBlocks | examples/vx_tiling_add.c:41-61 | stores the sum at one pixel per block, row by row, and nothing else |
| Tiling.AddFast | examples/vx_tiling_add.c:76-102 | the four loops store the sums of whole 16x16 blocks pixel by pixel in row-major order, and nothing else |
| Tiling.AddFlexible | examples/vx_tiling_add.c:115-136 | stores the sum at every pixel of the tile, row by row, and nothing else |
| Tiling.InGrid | examples/vx_tiling_add.c:50-60 | the pixels stored are those of the tile on the block grid |
| Tiling.StoredOnce | examples/vx_tiling_add.c:85-101 | no pixel is stored twice |
| Tiling.StoredInRowMajorOrder | examples/vx_tiling_add.c:50-60 | the stores are made row by row, from left to right |
| Tiling.SumsWhereStored | examples/vx_tiling_add.c:54-59 | where a kernel stores it leaves the plain sum, elsewhere what was there |
| Tiling.FastIsFlexibleIff | examples/vx_tiling_add.c:76-136 | the fast kernel makes the same stores in the same order as the flexible one exactly when the tile is empty or of whole blocks |
| Tiling.RaggedTile | examples/vx_tiling_add.c:85-101 | on a tile 17 pixels wide the fast kernel stores a pixel that is not of the tile |
| Tiling.FastIsFlexibleInside | examples/vx_tiling_add.c:76-136 | both kernels leave the plain sum at every pixel of the tile |
| Tiling.BlocksCoverIff | examples/vx_tiling_add.c:41-61 | one store per block covers a tile exactly when the block is one pixel long wherever the tile is longer |
| Platforms.Strlen | vx_khr_icd/vx_khr_icd.c:40 | the length of the text before the first NUL |
| Platforms.EndFirstPath | vx_khr_icd/vx_khr_icd.c:47-55 | after writing the NUL the buffer holds the two paths around the first separator |
| Platforms.RejoinIsLine | vx_khr_icd/vx_khr_icd.c:47-82 | the paths rejoined at the separator give the line back |
| Platforms.EntryIsUnique | vx_khr_icd/vx_khr_icd.c:47-82 | no other pair of paths does |
| Platforms.Registry.WalkThrough | vx_khr_icd/vx_khr_icd.c:67-73 | following the links from the head reaches every platform in order and then ends: the list is acyclic |
| Platforms.Registry.Append | vx_khr_icd/vx_khr_icd.c:67-73 | the walk to the last element and the link append the platform |
| Platforms.Registry.AddPlatform | vx_khr_icd/vx_khr_icd.c:38-85 | a line of more than four characters without its newline adds one platform with its two paths at the end; other lines change nothing |
| PlatformLaws.NewlineGoes | vx_khr_icd/vx_khr_icd.c:40-42 | the newline that ends a text is not part of the line |
| PlatformLaws.BareIsLine | vx_khr_icd/vx_khr_icd.c:40-42 | a text without it is the line as it is |
| PlatformLaws.LineIsKeptIff | vx_khr_icd/vx_khr_icd.c:43 | a line, with or without its newline, becomes a platform exactly if it has at least five characters |
| PlatformLaws.KeptInOrder | vx_khr_icd/vx_khr_icd.c:121-137 | texts are taken one by one, in order |
| PlatformLaws.NewlinesDoNotMatter | vx_khr_icd/vx_khr_icd.c:40-42 | scans of the same lines with and without newlines find the same platforms |
| PlatformLaws.NoPathHoldsNewline | vx_khr_icd/vx_khr_icd.c:40-55 | no path of a scanned line holds a newline |
| Platforms.Registry.Scan | vx_khr_icd/vx_khr_icd.c:121-137 | after any sequence of files the platforms added are those of the lines that are long enough, in order |
| Platforms.Registry.GetPlatforms | vx_khr_icd/vx_khr_icd.c:87-154 | scans only an empty list, then copies out exactly the first platforms up to the capacity; without platforms it stores no number of items |
| Platforms.RejoinedLines | vx_khr_icd/vx_khr_icd.c:38-85 | the entries of a list of lines are the only ones that rejoin to these lines |
| Gcd.MathGcd | helper/vx_helper.c:44-53 | the countdown ends with Euclid's greatest common divisor, or 0 if an argument is 0 |
| Gcd.GreatestInDivisibility | helper/vx_helper.c:44-53 | the common divisors of two positive numbers are exactly the divisors of the result |
| Gcd.GreatestIsUnique | helper/vx_helper.c:44-53 | no other number has that property |

## Left out

- Graphs.Graph.Verify: requires that every ready set fits the ten slots of a run-list row, because the source writes rows without a bounds check.
- Graphs.Graph.AddNode: a node that is already on the list is not added again, because the node's constructor is the only caller.
- Graphs.Node.SetDefinition: stands for all setters of derived nodes; a setter changes what the node's definition function would report.
- Graphs.Node.Init: a definition function that fails leaves the node's properties as they were, although a derived node may write some of them before failing; the next successful call rewrites them.
- Graphs.Node.Execute: kernels are functions from the values of the node's parameters that are not outputs to values of its outputs; accumulator nodes, which read what they declare as output, and nodes that are graphs themselves are not modelled.
- Graphs.Node.SortPorts: the port objects are values of the definition, and the node's three parameter tables, which are arrays inside the node, are sequences.
- Machine.ProcessIsOrderIndependent: is stated for verifications that find no output valid; the exact condition for all others is `Reverify.ProcessMatchesIff`.
- TagScripts.IdsStayFresh: tidy files are a sufficient condition when something is removed; the exact conditions are `TagScripts.HistoryIsFreshIff` and `TagRuns.AlwaysFreshIff`, which speak of the erased texts.
- Addressing.PaintLinear: the base pointer is the start of the buffer and not null; traversals are stated for layouts in which no offset overflows and every pixel lies in the buffer.
- Machine.RunKeepsInv: input validity is claimed only for clients that never clear it; `Machine.VerifiedMeansCurrent` is what the others get.
- TagRuns.AlwaysFreshIff: is about reverts of the whole list and counts that go on; other reverts and resets are covered by `TagScripts.HistoryIsFreshIff`.
- Window.ReadRectangle: reads a patch that does not change during the copy, and aborting is a false result.
- Tiling.AddFast: on a tile that is not of whole blocks the memory must hold the whole blocks it stores.
- Platforms.Registry.AddPlatform: allocation succeeds; vendor, version and extension attributes are not modelled.
- Platforms.Registry.Scan: directory and registry access is replaced by the sequence of first lines read, each as the reading call returns it.
- The log's message text is an opaque value; truncation to the message length is not modelled.
- Printed output of the scripts and their argument parsing, apart from which files a run takes.
- The derived nodes of the C++ sample, which fill a port table each and forward to kernels that are not part of this model.
- The generated forwarding functions, the loading of shared libraries and the other wrappers of the sample.
- Floating-point helpers, rectangle helpers and the box and Gaussian tiling examples.
