# Verified models of the ZMUX core

This project models the parts of ZMUX that keep state and are easy to get subtly wrong, and proves what
they promise. `dafny verify dfyconfig.toml` checks all of it.

| files | what they model |
|---|---|
| Prelude, PythonText, Search | bytes, `str.strip`, and Python's leftmost `find`, `count`, `replace` |
| ControlFilter, PtyOutput | the private OSC control removed from a chunked PTY stream; bounded scrollback |
| SessionModel, SessionProofs, SessionScreens, SessionMarks, SessionTabs, SessionEffects, SessionManager | the session manager, what every client is sent, and the objects that refine it |
| Frames, WebSocket | RFC 6455 framing (sections 5.2 and 5.3): two encoders, three decoders, the header split and the incremental reader |
| TallocPatch, ElfReader, ElfLayout, ElfBounds, ElfSections, ElfImage, ElfPatch, ElfSoname | the length-preserving patch of `libtalloc.so.2` and the ELF readers |
| PackageNames, PackageStore, CommitProofs, StoreProofs, Archive, Dependencies, Respelling, Zpip | the transactional package manager |
| TreeMerge | the no-overwrite merge of two directory trees |
| LineEndings, Streams | the streaming CRLF writer |
| RecursiveListing | `ls -R` with an explicit stack |
| History, TypeAhead, Interrupts | line recall, type-ahead, and Ctrl+C against the start of a command |

Code that changes state is modelled by classes and loops (`Manager`, `PtySession`, `Reader`,
`PackageManager`, `StreamingWriter`, `Console`, `LineEditor`), each method proved equal to a function on
values; the theorems are about these functions and about whole runs of them. The outside world
(network, archives, failing system calls, how TCP cuts a stream, who runs next) is a parameter that may
answer anything.

## Where the code keeps less than it says

Each of these is a lemma with a concrete input beside a theorem that says exactly when the promise holds.

- `sessions.py:88-96` promises that a new tab wipes the old screen. Closing the last tab creates the
  replacement after the active id was dropped, so no reset is sent and the dead session's output stays
  (`LastTabLeavesItsScreen`; exact condition: `StepPurity`, over whole runs `RunPurity`). What holds on
  every run is `SinceActivation`.
- `zpip.py:326-331` compares member names, not the files they denote. An archive with two spellings of
  one file (`a.py`, `./a.py`) always fails its commit, and its rollback leaves the new file in place of the
  old one (`TwoSpellingsAreNotUndone`; exact condition: `RollbackRestores`).
- `zpip.py:705-714` and `zpip.py:738-741`: the ownership check and the sweep compare spellings too. A package
  can take another one's file, and a package can lose its own (`RespellingTakesAFile`,
  `RespellingSweepsItsOwnFile`; exact condition: `InstallKeepsInv`, over whole runs `RunKeepsInv`).
- `streams.py:72-77`: a flush between CR and LF makes the streamed text differ from the one-shot
  conversion by one CR (`FlushBetweenCrAndLf`; exact condition: `StreamingRefinesOneShot`).
- `streams.py:28-31` promises that a long unfinished line is flushed. The threshold is only looked at when a
  write brings no line feed, so the rest behind one may be of any length (`LongTailStays`; exact condition:
  `LongPendingExactly`).
- `pty_session.py:719-723` clears the busy flag before an unfinished block has finished, so a line typed
  in that window overtakes older type-ahead (`AWindowCanReorder`; exact condition: `StepInOrder`).
- `python_shell.py:152-159`: the comparison and the clear are two accesses; an interrupt between them is
  lost (`SplitClearCanLose`; exact condition: `StepSurvives`).
- `protocol_check.py:94-98` decodes only after a read: frames that came with the HTTP head wait for the
  next one (`FrameBehindTheHeadWaits`; exact condition: `PumpDecodesAll`).
- `elfscan.py:33-39` promises ElfError for anything malformed; short files, bad offsets and unterminated
  names raise what `struct`, indexing and `bytes.index` raise (`MalformedWithoutElfError`; exact condition:
  `ForeignErrorsExactly`).

## Model

| member | source | states |
|---|---|---|
| Prelude.LastNIncremental | experimental/zmux-kotlin/app/src/main/python/zmux/pty_session.py:353-356 | keeping only the last n bytes may be done after every append; what was cut before never matters |
| Prelude.LastNIs | experimental/zmux-kotlin/app/src/main/python/zmux/pty_session.py:353-356 | it is the end of the buffer that is kept, all of it while it is short |
| ControlFilter.ControlAsText | experimental/zmux-kotlin/app/src/main/python/zmux/pty_session.py:71 | the private control, as text |
| ControlFilter.HeldLength | experimental/zmux-kotlin/app/src/main/python/zmux/pty_session.py:294-301 | the longest suffix of the data that is a proper prefix of the control, and no longer one |
| ControlFilter.FilterPendingStandsFor | experimental/zmux-kotlin/app/src/main/python/zmux/pty_session.py:303-323 | one filter call: whatever follows, output and held tail stand for the input, occurrences counted |
| ControlFilter.ChunkingIsInvisible | experimental/zmux-kotlin/app/src/main/python/zmux/pty_session.py:303-323 | for every cutting into chunks, outputs plus tail are the stream without its leftmost non-overlapping controls; the count is their number; the tail is a proper prefix of the control |
| ControlFilter.OutputIsAsEagerAsPossible | experimental/zmux-kotlin/app/src/main/python/zmux/pty_session.py:190-192 | what was sent begins the filtered form of every continuation, and is the longest such: only a possible prefix is ever held |
| PtyOutput.PtySession.PossibleControlPrefix | experimental/zmux-kotlin/app/src/main/python/zmux/pty_session.py:294-301 | the downward loop finds exactly the length to hold |
| PtyOutput.PtySession.FilterPtyControls | experimental/zmux-kotlin/app/src/main/python/zmux/pty_session.py:303-323 | the loop over pending bytes computes the filter and stores the new tail |
| PtyOutput.PtySession.Emit | experimental/zmux-kotlin/app/src/main/python/zmux/pty_session.py:345-368 | what passes the filter is recorded, trimmed to 1 MiB and handed on, with one storage request per removed control; the line-start flag follows what was written |
| PtyOutput.LineStartExactly | experimental/zmux-kotlin/app/src/main/python/zmux/pty_session.py:357-367 | when the cursor counts as standing at the start of a line: after a line feed, a cleared screen or a cursor home, and still after a carriage return |
| PtyOutput.PtySession.GetScrollback | experimental/zmux-kotlin/app/src/main/python/zmux/pty_session.py:290-292 | returns the recorded scrollback |
| PtyOutput.PtySession.Resize | experimental/zmux-kotlin/app/src/main/python/zmux/pty_session.py:274-287 | positive dimensions are taken over, others ignored |
| PtyOutput.ResizeViewExactly | experimental/zmux-kotlin/app/src/main/python/zmux/pty_session.py:274-280 | each positive value is taken over, the others and the rest of the session stay |
| PtyOutput.ScrollbackIsLastOfStream | experimental/zmux-kotlin/app/src/main/python/zmux/pty_session.py:345-356 | over any chunks, scrollback and tail are those of one filter pass, cut to the last MiB once |
| PtyOutput.ScrollbackOfFreshSession | experimental/zmux-kotlin/app/src/main/python/zmux/pty_session.py:290-292 | the scrollback of a session is the last MiB of its stream without controls and held tail |
| SessionProofs.EmitKeepsInv | experimental/zmux-kotlin/app/src/main/python/zmux/sessions.py:64-73 | an emit, shown or in the background, keeps every client in step with the active scrollback |
| SessionProofs.CreateKeepsInv | experimental/zmux-kotlin/app/src/main/python/zmux/sessions.py:76-99 | create keeps tab bookkeeping, geometry, the cap of 8 and synchrony, including all output of the start |
| SessionProofs.RepaintEstablishesInv | experimental/zmux-kotlin/app/src/main/python/zmux/sessions.py:123-135 | switching establishes synchrony from any bookkeeping state: reset and replay suffice |
| SessionProofs.CloseKeepsInv | experimental/zmux-kotlin/app/src/main/python/zmux/sessions.py:137-164 | close keeps the invariant in all three cases |
| SessionProofs.ResizeKeepsInv | experimental/zmux-kotlin/app/src/main/python/zmux/sessions.py:172-185 | resize keeps the active geometry equal to the manager's |
| SessionProofs.ConnectKeepsInv | experimental/zmux-kotlin/app/src/main/python/zmux/ws_server.py:191-207 | a client that joins at any time is in step through the connect replay |
| SessionProofs.RunKeepsInv | experimental/zmux-kotlin/app/src/main/python/zmux/sessions.py:59-164 | every run keeps: ids strictly increasing and equal to the keys, at most 8, active session present whenever one exists, its geometry the manager's, synchrony |
| SessionScreens.StepPurity | experimental/zmux-kotlin/app/src/main/python/zmux/sessions.py:88-96 | after a step clients still see only the active session since their last reset, if and only if the step does not take the only session off a screen that shows something |
| SessionMarks.StepSends | experimental/zmux-kotlin/app/src/main/python/zmux/sessions.py:64-164 | whatever the step, all clients are sent the same frames: at most a reset, then only output of the session active afterwards; the reset goes out exactly when another session takes over from one that is not the last to go |
| SessionMarks.StepKeepsMarked | experimental/zmux-kotlin/app/src/main/python/zmux/sessions.py:64-164 | one step, the closing of the last tab included: each client was sent only the active session since that became active or the client joined |
| SessionMarks.SinceActivation | experimental/zmux-kotlin/app/src/main/python/zmux/sessions.py:118-135 | in every reachable state and for every client: since the active session became active, or the client joined, it was sent nothing but that session behind at most one reset, and the last MiB of it is the scrollback |
| SessionScreens.RunPurity | experimental/zmux-kotlin/app/src/main/python/zmux/sessions.py:76-164 | since the last reset, over whole runs: clients see one session in every state if and only if no step takes the only session off a screen that shows something |
| SessionScreens.ScreenSinceReset | experimental/zmux-kotlin/app/src/main/python/zmux/sessions.py:128-135 | on such runs everything since the last reset, cut to 1 MiB, is the active scrollback |
| SessionScreens.LastTabLeavesItsScreen | experimental/zmux-kotlin/app/src/main/python/zmux/sessions.py:156-159 | a concrete run in which closing the last tab leaves its byte on screen under the new session |
| SessionEffects.SwitchShows | experimental/zmux-kotlin/app/src/main/python/zmux/sessions.py:118-135 | switch to another session makes it active at the current geometry and sends every client a reset and then exactly its scrollback; tabs, ids and other sessions stay |
| SessionEffects.SwitchIsIdle | experimental/zmux-kotlin/app/src/main/python/zmux/sessions.py:121-123 | to the active or to an unknown session nothing happens |
| SessionEffects.EmitShows | experimental/zmux-kotlin/app/src/main/python/zmux/sessions.py:64-73 | an emit is recorded in any case, and its passing bytes go to every client exactly if the session is shown |
| SessionEffects.CreateShows | experimental/zmux-kotlin/app/src/main/python/zmux/sessions.py:76-99 | the new session holds all that its start wrote, at the current geometry; the others are untouched |
| SessionEffects.CreateIsSeen | experimental/zmux-kotlin/app/src/main/python/zmux/sessions.py:88-99 | clients see the whole start of a shown session, behind a reset if it replaces another, and nothing of one in the background |
| SessionEffects.CreateIsIdle | experimental/zmux-kotlin/app/src/main/python/zmux/sessions.py:81-82 | at the cap of 8 nothing happens |
| SessionEffects.CloseBehind | experimental/zmux-kotlin/app/src/main/python/zmux/sessions.py:137-164 | closing a tab in the background removes it and changes nothing else |
| SessionEffects.CloseShown | experimental/zmux-kotlin/app/src/main/python/zmux/sessions.py:137-164 | closing the tab on screen shows the neighbour: geometry, reset, its scrollback, and no other change |
| SessionEffects.CloseOnly | experimental/zmux-kotlin/app/src/main/python/zmux/sessions.py:156-159 | closing the only tab leaves exactly a fresh session, whose start the clients see without a reset |
| SessionEffects.CloseIsIdle | experimental/zmux-kotlin/app/src/main/python/zmux/sessions.py:140-142 | closing an unknown session changes nothing |
| SessionEffects.ResizeShows | experimental/zmux-kotlin/app/src/main/python/zmux/sessions.py:172-185 | resize changes the geometry of the manager and of the visible session, or nothing at all for values that are not positive |
| SessionEffects.ConnectShows | experimental/zmux-kotlin/app/src/main/python/zmux/ws_server.py:191-207 | a joining client gets a reset and the active scrollback; nobody else notices |
| SessionEffects.DisconnectShows | experimental/zmux-kotlin/app/src/main/python/zmux/ws_server.py:109-116 | a client that leaves takes only its own log along |
| SessionTabs.CreateTabs | experimental/zmux-kotlin/app/src/main/python/zmux/sessions.py:84-89 | a new session takes the next id at the end of the list and becomes active if asked or alone |
| SessionTabs.CloseSuccession | experimental/zmux-kotlin/app/src/main/python/zmux/sessions.py:139-164 | close removes exactly that tab, never leaves zero, and goes to the right neighbour, to the left one at the end, or to a fresh session |
| SessionTabs.IdsAreNeverReused | experimental/zmux-kotlin/app/src/main/python/zmux/sessions.py:60-62 | over every run an id whose session is gone never names a session again |
| SessionTabs.ResizeReachesVisibleOnly | experimental/zmux-kotlin/app/src/main/python/zmux/sessions.py:172-185 | only the visible session is resized; a hidden one catches up when shown |
| SessionTabs.OnlyOwnOutput | experimental/zmux-kotlin/app/src/main/python/zmux/sessions.py:9-17 | isolation: over every run, what a session has recorded is the result of its own emits alone |
| SessionManager.WsServer.BroadcastFrame | experimental/zmux-kotlin/app/src/main/python/zmux/ws_server.py:87-107 | the frame is appended to every connected client |
| SessionManager.WsServer.Connect | experimental/zmux-kotlin/app/src/main/python/zmux/ws_server.py:191-207 | a new client gets the reset and then the active scrollback, if any |
| SessionManager.Manager.Emit | experimental/zmux-kotlin/app/src/main/python/zmux/sessions.py:64-73 | the emit callback: recorded always, broadcast only while active |
| SessionManager.Manager.Create | experimental/zmux-kotlin/app/src/main/python/zmux/sessions.py:76-99 | refines create, nothing happens at the cap |
| SessionManager.Manager.Switch | experimental/zmux-kotlin/app/src/main/python/zmux/sessions.py:118-135 | refines switch; tells whether the id is known |
| SessionManager.Manager.Close | experimental/zmux-kotlin/app/src/main/python/zmux/sessions.py:137-164 | refines close, with its calls of create and switch |
| SessionManager.Manager.Resize | experimental/zmux-kotlin/app/src/main/python/zmux/sessions.py:172-185 | refines resize |
| SessionManager.Manager.StopAll | experimental/zmux-kotlin/app/src/main/python/zmux/sessions.py:199-204 | empties the manager but keeps the id counter |
| SessionEffects.StopShows | experimental/zmux-kotlin/app/src/main/python/zmux/sessions.py:199-204 | the whole state after stop_all |
| Frames.MaskedTwice | experimental/zmux-kotlin/app/src/main/python/zmux/ws_server.py:366-367 | masking is its own inverse, for every payload and mask (RFC 6455, section 5.3) |
| Frames.MaskedDigits | experimental/zmux-kotlin/app/src/main/python/zmux/ws_server.py:366-367 | every binary digit of a masked byte is the sum modulo 2 of the digits of the payload byte and of the mask byte at its index modulo 4 |
| Frames.BigRoundTrip | experimental/zmux-kotlin/app/src/main/python/zmux/ws_server.py:352-357 | extended lengths read back as written |
| Frames.BigDigits | experimental/zmux-kotlin/app/src/main/python/zmux/ws_server.py:352-357 | lengths are read most significant byte first |
| Frames.LengthForms | experimental/zmux-kotlin/tools/protocol_check.py:58-68 | seven bits below 126, else the shorter extended form that fits |
| Frames.WireForms | experimental/zmux-kotlin/app/src/main/python/zmux/ws_server.py:392-406 | both encodings part by part: final fragment, mask flag on the client's side only, shortest length, mask, masked payload |
| Frames.DecodeOfParts | experimental/zmux-kotlin/app/src/main/python/zmux/ws_server.py:343-369 | the first frame of any stream, whatever its first byte, length form and mask flag, is taken apart exactly |
| Frames.DecodeNeedsAll | experimental/zmux-kotlin/tools/protocol_check.py:109-126 | and is not found exactly while one of its parts is incomplete |
| Frames.HelloExamples | experimental/zmux-kotlin/app/src/main/python/zmux/ws_server.py:343-369 | the two single-frame text messages of RFC 6455, section 5.7 |
| Frames.HeaderRoundTrip | experimental/zmux-kotlin/tools/protocol_check.py:58-71 | both header forms read back: opcode, mask flag, length, and where the body starts |
| Frames.ClientToServer | experimental/zmux-kotlin/tools/protocol_check.py:58-71 | for every opcode below 16, payload shorter than 2^64, mask and trailing data, decoding the masked encoding returns the frame and consumes exactly its bytes |
| Frames.ServerToClient | experimental/zmux-kotlin/app/src/main/python/zmux/ws_server.py:392-406 | the same for the server's encoding, read by the client or by a server |
| Frames.DecodeStable | experimental/zmux-kotlin/tools/protocol_check.py:109-129 | a decoded frame stays decoded when more bytes follow |
| Frames.PartialIsIncomplete | experimental/zmux-kotlin/tools/protocol_check.py:109-126 | a proper beginning of a frame is never taken for a frame |
| Frames.DrainIncremental | experimental/zmux-kotlin/tools/protocol_check.py:94-107 | on arbitrary bytes, draining early and again later is draining once: TCP cuts make no difference |
| Frames.DrainBeginning | experimental/zmux-kotlin/tools/protocol_check.py:99-129 | from any beginning of a frame sequence exactly the complete frames are decoded, in order; the rest is a proper beginning of the next |
| WebSocket.RecvExact | experimental/zmux-kotlin/app/src/main/python/zmux/ws_server.py:334-341 | exactly the next bytes for every schedule of short reads, or an error at the end of the stream |
| WebSocket.ReadFrame | experimental/zmux-kotlin/app/src/main/python/zmux/ws_server.py:343-369 | the blocking decoder returns what Decode finds and consumes exactly that |
| WebSocket.UnmaskInPlace | experimental/zmux-kotlin/tools/mock_pty_ws_server.py:112-114 | the in-place loop masks the whole buffer |
| WebSocket.MockReadFrame | experimental/zmux-kotlin/tools/mock_pty_ws_server.py:102-115 | agrees with the server's decoder on every stream |
| WebSocket.SendFrame | experimental/zmux-kotlin/app/src/main/python/zmux/ws_server.py:392-406 | builds the unmasked frame |
| WebSocket.Send | experimental/zmux-kotlin/tools/protocol_check.py:58-71 | builds the masked frame |
| WebSocket.ReadHead | experimental/zmux-kotlin/tools/protocol_check.py:47-55 | for every cutting, what is kept plus what is still to come is what follows the first blank line |
| WebSocket.Reader.Take | experimental/zmux-kotlin/tools/protocol_check.py:109-129 | takes the next complete frame or leaves the buffer alone |
| WebSocket.Reader.TakeAll | experimental/zmux-kotlin/tools/protocol_check.py:99-107 | takes all complete frames and sorts them into binary bytes and texts |
| WebSocket.Reader.Pump | experimental/zmux-kotlin/tools/protocol_check.py:94-107 | if any read brought data, all that was buffered or received is decoded as if it had come in one piece; otherwise nothing changes |
| WebSocket.OpenAndPump | experimental/zmux-kotlin/tools/protocol_check.py:166-172 | the client's start: head, reader on what came with it, one pump; what it has decoded, for every cutting and all timeouts |
| WebSocket.PumpDecodesAll | experimental/zmux-kotlin/tools/protocol_check.py:94-107 | after a pump everything that is there has been decoded if and only if a read brought data or nothing complete came with the head |
| WebSocket.FrameBehindTheHeadWaits | experimental/zmux-kotlin/tools/protocol_check.py:47-55 | a frame in one piece with the head stays in the buffer through a pump whose reads all time out |
| WebSocket.ClientSeesWire | experimental/zmux-kotlin/tools/protocol_check.py:47-55 | head split plus reader: the frames after the blank line that are complete, in order, and all of them at the end |
| TallocPatch.NeedlesAreApart | experimental/zmux-kotlin/scripts/build_proot_android.py:80-81 | occurrences of the needle never overlap |
| TallocPatch.NamesAsText | experimental/zmux-kotlin/scripts/build_proot_android.py:80-81 | the needle and its replacement, as text |
| Search.ReplaceJoins | experimental/zmux-kotlin/scripts/build_proot_android.py:322 | bytes.replace and bytes.count without recursion: the parts between the leftmost non-overlapping occurrences, joined with the replacement |
| TallocPatch.PatchIsPointwise | experimental/zmux-kotlin/scripts/build_proot_android.py:318-322 | the patch does nothing but put NUL over the last two bytes of every occurrence; the length is kept |
| TallocPatch.PatchKeepsTheRest | experimental/zmux-kotlin/scripts/build_proot_android.py:309-312 | every byte outside an occurrence is unchanged |
| TallocPatch.PatchLeavesNoNeedle | experimental/zmux-kotlin/scripts/build_proot_android.py:318-330 | no occurrence is left or newly formed |
| TallocPatch.PatchIsIdempotent | experimental/zmux-kotlin/scripts/build_proot_android.py:318-330 | patching again changes nothing |
| TallocPatch.PatchTallocNames | experimental/zmux-kotlin/scripts/build_proot_android.py:314-332 | exactly the two libraries that are there are patched; the size check never fires |
| ElfReader.ElfDynamicNeeded | experimental/zmux-kotlin/app/src/main/python/zmux/elfscan.py:33-123 | the reader's loops compute Needed, with every way to fail |
| ElfReader.ScanSections | experimental/zmux-kotlin/app/src/main/python/zmux/elfscan.py:91-100 | the section loop: first .dynamic, last .dynstr, names in between checked |
| ElfReader.WalkDynamic | experimental/zmux-kotlin/app/src/main/python/zmux/elfscan.py:105-123 | the .dynamic loop up to DT_NULL |
| ElfReader.WalkNames | experimental/zmux-kotlin/app/src/main/python/zmux/elfscan.py:118-122 | a successful walk decodes one name per listed offset, in order |
| ElfLayout.HeaderFollowsStandard | experimental/zmux-kotlin/app/src/main/python/zmux/elfscan.py:52-61 | the section table is found through the header fields of the System V gABI, in both classes |
| ElfLayout.SectionFollowsStandard | experimental/zmux-kotlin/app/src/main/python/zmux/elfscan.py:66-79 | so are name, type, offset and size of a section |
| ElfLayout.IntegersReadBack | experimental/zmux-kotlin/app/src/main/python/zmux/elfscan.py:28-30 | integers of any size read back in either byte order, wherever they stand |
| ElfLayout.IntegerDigits | experimental/zmux-kotlin/app/src/main/python/zmux/elfscan.py:28-30 | which byte of an integer counts how much, in either byte order |
| ElfSections.HeaderExactly | experimental/zmux-kotlin/app/src/main/python/zmux/elfscan.py:47-64 | what each of the reader's own header errors means, and which class and byte order are taken |
| ElfSections.NamesAsText | experimental/zmux-kotlin/app/src/main/python/zmux/elfscan.py:47 | the magic number, the section name and the SONAME tag |
| ElfSections.TablesExactly | experimental/zmux-kotlin/app/src/main/python/zmux/elfscan.py:81-103 | the reader goes by the first section of type 6 and the last of type 3 whose name is .dynstr, both other than the one that holds section names |
| ElfSections.NoDynamicExactly | experimental/zmux-kotlin/app/src/main/python/zmux/elfscan.py:102-103 | the error for missing sections means that there is no such section |
| ElfSections.NeededExactly | experimental/zmux-kotlin/app/src/main/python/zmux/elfscan.py:105-123 | the result is, in order, the strings that exactly the DT_NEEDED entries in front of DT_NULL name in .dynstr |
| ElfImage.ImageReadsBack | experimental/zmux-kotlin/app/src/main/python/zmux/elfscan.py:33-123 | round trip: an image built from a list of names, in both classes and byte orders, with any other string table behind .dynstr, reads back as that list |
| ElfPatch.NameOutside | experimental/zmux-kotlin/scripts/build_proot_android.py:322 | a name not starting strictly inside an occurrence reads back cut behind libtalloc.so |
| ElfPatch.NameInside | experimental/zmux-kotlin/scripts/build_proot_android.py:322 | one that does is cut too early |
| ElfPatch.PatchCommutesWithReading | experimental/zmux-kotlin/app/src/main/python/zmux/elfscan.py:33-123 | if the reader succeeds and no occurrence touches its tables, it succeeds after the patch with as many names, and each is the renamed old one if and only if its offset is not strictly inside an occurrence |
| ElfPatch.RenamedNames | experimental/zmux-kotlin/scripts/build_proot_android.py:80-81 | libtalloc.so.2 is renamed to libtalloc.so, names without the needle stay |
| ElfPatch.DynstrKeepsTablesClear | experimental/zmux-kotlin/scripts/build_proot_android.py:303-307 | it is enough that all occurrences lie in .dynstr and .dynstr is apart from what is read of the tables |
| ElfBounds.ForeignErrorsExactly | experimental/zmux-kotlin/app/src/main/python/zmux/elfscan.py:33-123 | the reader raises something else than its own error if and only if something it reads is not there: header fields, a section header, the end of a section name, a .dynamic entry up to DT_NULL, or the end of a needed name |
| ElfBounds.MalformedWithoutElfError | experimental/zmux-kotlin/app/src/main/python/zmux/elfscan.py:33-39 | three concrete files: the magic number alone, a header cut short, a section name without an end |
| ElfSoname.ElfDynamicString | experimental/zmux-kotlin/app/src/main/python/zmux/elfscan.py:134-197 | the single-string reader, loop by loop |
| ElfSoname.ElfSoname | experimental/zmux-kotlin/app/src/main/python/zmux/elfscan.py:126-131 | the SONAME; only the reader's own error means none |
| ElfSections.LaxTablesExactly | experimental/zmux-kotlin/app/src/main/python/zmux/elfscan.py:134-178 | the single-string reader goes by the same sections |
| ElfSections.HeadersAgree | experimental/zmux-kotlin/app/src/main/python/zmux/elfscan.py:134-152 | where both readers accept a header they read it alike |
| ElfSections.OneStringExactly | experimental/zmux-kotlin/app/src/main/python/zmux/elfscan.py:179-197 | it returns the string of the first entry with the tag in front of DT_NULL, or none if there is no such entry |
| ElfSoname.PatchCommutesWithOneString | experimental/zmux-kotlin/app/src/main/python/zmux/elfscan.py:134-197 | the same commutation for one string, such as the SONAME |
| PackageNames.CanonicalizeIsCanonical | experimental/zmux-kotlin/app/src/main/python/zmux/zpip.py:112-115 | the result is lower case, without repeated, underscored or dotted separators |
| PackageNames.CanonicalizeIsIdempotent | experimental/zmux-kotlin/app/src/main/python/zmux/zpip.py:112-115 | canonicalising twice is canonicalising once; the fixed points are the canonical names |
| PackageNames.CanonicalizeWords | experimental/zmux-kotlin/app/src/main/python/zmux/zpip.py:112-115 | a name in any spelling becomes its words in lower case joined by single hyphens |
| PackageNames.CanonicalizeAccepts | experimental/zmux-kotlin/app/src/main/python/zmux/zpip.py:112-115 | names are exactly up to 128 letters, digits and separators that start with a letter or digit, white space around them ignored |
| PackageNames.NameCharacters | experimental/zmux-kotlin/app/src/main/python/zmux/zpip.py:65 | letters, digits and the three separators |
| PackageNames.LowerLetters | experimental/zmux-kotlin/app/src/main/python/zmux/zpip.py:112-115 | which lower case letter stands for which upper case one |
| PythonText.StripIs | experimental/zmux-kotlin/app/src/main/python/zmux/zpip.py:113-115 | what strip does: white space on both sides goes, the rest stays |
| PythonText.SpacesAndOthers | experimental/zmux-kotlin/app/src/main/python/zmux/zpip.py:113-115 | tabs, line ends and blanks are white space, the characters of names are not |
| PackageNames.StackGrowsTowardsEnd | experimental/zmux-kotlin/app/src/main/python/zmux/zpip.py:647-649 | every nested call takes a name off a finite universe, so resolution ends, cycles included |
| Archive.SafeMembers | experimental/zmux-kotlin/app/src/main/python/zmux/zpip.py:321-343 | accepts exactly the archives without unsafe paths, repeated files or excess sizes that hold both metadata files; returns the files in order |
| Archive.AcceptedExactly | experimental/zmux-kotlin/app/src/main/python/zmux/zpip.py:321-343 | the accepted archives, entry by entry: no absolute or climbing name, different file names, sizes within the limits, both metadata files |
| Archive.IsDirExactly | experimental/zmux-kotlin/app/src/main/python/zmux/zpip.py:332 | a directory entry is one whose name ends in a slash |
| Archive.Extract | experimental/zmux-kotlin/app/src/main/python/zmux/zpip.py:346-357 | succeeds exactly if no member denotes the staging directory or a directory another member lies in; then exactly the members are staged, each with its own content |
| Archive.ExtractedContent | experimental/zmux-kotlin/app/src/main/python/zmux/zpip.py:350-356 | a staged file holds the content of the last member that denotes it |
| Archive.ExtractedIsStaged | experimental/zmux-kotlin/app/src/main/python/zmux/zpip.py:350-357 | after extraction every member has a staged file |
| CommitProofs.CommitForm | experimental/zmux-kotlin/app/src/main/python/zmux/zpip.py:716-737 | the commit succeeds exactly without fault and with members denoting different files; the disk then is the old one with the staged files over it |
| CommitProofs.RollbackForm | experimental/zmux-kotlin/app/src/main/python/zmux/zpip.py:779-785 | the reverse loop gives each committed file its backup back or removes it |
| CommitProofs.FailedCommitForm | experimental/zmux-kotlin/app/src/main/python/zmux/zpip.py:778-785 | a failure at any point: everything as before, except a file backed up a second time |
| CommitProofs.RollbackRestores | experimental/zmux-kotlin/app/src/main/python/zmux/zpip.py:778-788 | the disk is restored if and only if no file was backed up twice or its content did not change; the database always is |
| CommitProofs.DistinctMembersRestored | experimental/zmux-kotlin/app/src/main/python/zmux/zpip.py:778-788 | members that denote different files are always undone completely |
| Respelling.TwoSpellingsAreNotUndone | experimental/zmux-kotlin/app/src/main/python/zmux/zpip.py:321-343 | an archive with two spellings of one file passes every check, fails its commit and is not undone |
| Respelling.RespellingTakesAFile | experimental/zmux-kotlin/app/src/main/python/zmux/zpip.py:705-714 | another package takes a recorded file under another spelling, and its uninstall deletes the file of the first |
| Respelling.RespellingSweepsItsOwnFile | experimental/zmux-kotlin/app/src/main/python/zmux/zpip.py:738-741 | a package reinstalled under another spelling loses the file to its own sweep |
| StoreProofs.InstallKeepsInv | experimental/zmux-kotlin/app/src/main/python/zmux/zpip.py:702-762 | a failed install keeps every recorded file present and unshared; a successful one does if and only if no member respells a recorded file |
| StoreProofs.SucceedsExactly | experimental/zmux-kotlin/app/src/main/python/zmux/zpip.py:702-737 | an install succeeds exactly when no member is recorded for another package, no fault occurs and all members denote different files |
| StoreProofs.InstalledDisk | experimental/zmux-kotlin/app/src/main/python/zmux/zpip.py:715-741 | the package directory after a success, path by path: members hold their staged bytes, what is no longer shipped is gone, the rest is as it was |
| StoreProofs.InstalledRecord | experimental/zmux-kotlin/app/src/main/python/zmux/zpip.py:742-762 | the record after a success: its files, the version, the explicit mark; no other record changes |
| StoreProofs.InstalledContent | experimental/zmux-kotlin/app/src/main/python/zmux/zpip.py:716-724 | after success every member holds its new content, sweep included |
| StoreProofs.InstallIsolates | experimental/zmux-kotlin/app/src/main/python/zmux/zpip.py:705-741 | whatever the outcome, other packages keep record and bytes |
| StoreProofs.RemoveKeepsInv | experimental/zmux-kotlin/app/src/main/python/zmux/zpip.py:795-817 | uninstall keeps the invariant |
| StoreProofs.RemoveExactly | experimental/zmux-kotlin/app/src/main/python/zmux/zpip.py:795-817 | uninstall, path by path: the recorded files and the record are gone, the rest is as it was |
| StoreProofs.RemoveIsolates | experimental/zmux-kotlin/app/src/main/python/zmux/zpip.py:802-807 | uninstall leaves other packages' record and bytes alone |
| StoreProofs.UninstallUndoesInstall | experimental/zmux-kotlin/app/src/main/python/zmux/zpip.py:795-817 | uninstalling undoes a first install whose files were not there before |
| StoreProofs.RunKeepsInv | experimental/zmux-kotlin/app/src/main/python/zmux/zpip.py:702-762 | over every run of installs and uninstalls, failing anywhere or not: recorded files exist and none is shared, in every state, if and only if no successful install respells a recorded file |
| StoreProofs.RunKeepsNamesApart | experimental/zmux-kotlin/app/src/main/python/zmux/zpip.py:705-714 | over every run, whatever the archives hold, no name is ever recorded for two packages |
| StoreProofs.PlainRunIsTidy | experimental/zmux-kotlin/app/src/main/python/zmux/zpip.py:702-762 | runs of plainly spelled archives respell nothing |
| StoreProofs.FailedInstallSpares | experimental/zmux-kotlin/app/src/main/python/zmux/zpip.py:778-788 | a failed install that respells nothing leaves every package alone, the one it was for included |
| StoreProofs.RunLeavesNoOrphans | experimental/zmux-kotlin/app/src/main/python/zmux/zpip.py:738-741 | started empty, no run of archives that spell each file once leaves a file that is not recorded |
| StoreProofs.RunSpares | experimental/zmux-kotlin/app/src/main/python/zmux/zpip.py:778-788 | a run that respells nothing and names a package at most in failing installs leaves its record and bytes alone |
| StoreProofs.ExplicitIsKept | experimental/zmux-kotlin/app/src/main/python/zmux/zpip.py:742-747 | once installed by name, a package stays marked so until it is uninstalled |
| Zpip.PackageManager.CommitWheel | experimental/zmux-kotlin/app/src/main/python/zmux/zpip.py:702-762 | ownership check, commit, rollback, sweep and record refine Apply |
| Zpip.PackageManager.CommitFiles | experimental/zmux-kotlin/app/src/main/python/zmux/zpip.py:716-737 | the commit loop with its fault points |
| Zpip.PackageManager.UndoFiles | experimental/zmux-kotlin/app/src/main/python/zmux/zpip.py:779-785 | the rollback loop |
| Zpip.PackageManager.Sweep | experimental/zmux-kotlin/app/src/main/python/zmux/zpip.py:738-741 | unlinks exactly the named files, in any order |
| Zpip.PackageManager.Uninstall | experimental/zmux-kotlin/app/src/main/python/zmux/zpip.py:795-817 | removes the package's files and record; under the invariant it counts every one of them |
| Zpip.PackageManager.Verify | experimental/zmux-kotlin/app/src/main/python/zmux/zpip.py:820-825 | the missing files; none under the invariant |
| Zpip.PackageManager.UndoDependencies | experimental/zmux-kotlin/app/src/main/python/zmux/zpip.py:786-787 | uninstalls the added dependencies, last first; none is left |
| Zpip.PackageManager.InstallDependencies | experimental/zmux-kotlin/app/src/main/python/zmux/zpip.py:660-690 | on success every requirement is recorded with an accepted version or has been installed by a committed step in one, with its own requirements in turn; on failure some requirement really cannot be met; only packages neither recorded nor under way are installed |
| Zpip.PackageManager.Prepare | experimental/zmux-kotlin/app/src/main/python/zmux/zpip.py:691-700 | exactly when download, checks, extraction and smoke import succeed, the request holds the archive's files |
| Zpip.PackageManager.InstallManifest | experimental/zmux-kotlin/app/src/main/python/zmux/zpip.py:657-792 | dependencies, archive, commit and clean-up of one package: success commits the archive offered for the manifest, failure has a cause in the requirements, the archive or the commit |
| Zpip.PackageManager.Install | experimental/zmux-kotlin/app/src/main/python/zmux/zpip.py:637-792 | terminates for every world; succeeds by installing what the manifest resolved for the name requires and then its archive; fails only with a justified cause, leaving its record as it was and none of the dependencies committed directly below it |
| Zpip.PackageManager.InstallByName | experimental/zmux-kotlin/app/src/main/python/zmux/zpip.py:637-649 | a user's call in any world: on success all requirements of the manifest are available and the archive's files hold its bytes; on failure there is a justified cause; the invariant holds throughout exactly if no successful commit respells a recorded file; when nothing is respelled all earlier packages keep record and bytes |
| Zpip.InstallSparesOthers | experimental/zmux-kotlin/app/src/main/python/zmux/zpip.py:778-788 | the same read off the trace of one call |
| Dependencies.DoneMeansAvailable | experimental/zmux-kotlin/app/src/main/python/zmux/zpip.py:660-690 | a successful install in plain words: every requirement of its manifest was recorded with an accepted version, or a step of the trace installs it successfully in one |
| Dependencies.DoneLeaves | experimental/zmux-kotlin/app/src/main/python/zmux/zpip.py:715-762 | and it leaves every file of its archive on disk with the archive's bytes, recorded under the manifest's version |
| TreeMerge.MergeConserves | experimental/zmux-kotlin/app/src/main/python/zmux/linuxenv.py:355-387 | for any two trees and any failing calls: destination files unchanged, each other source file in exactly one of the two trees at its path, nothing else appears |
| TreeMerge.MovesWhatIsTaken | experimental/zmux-kotlin/app/src/main/python/zmux/linuxenv.py:368-386 | for any failing calls a source file moves if and only if its path is free in the destination and none of the calls it takes fails |
| TreeMerge.WithoutFaultsMovesWhatLands | experimental/zmux-kotlin/app/src/main/python/zmux/linuxenv.py:373-384 | without failing calls: if and only if its path is free |
| TreeMerge.MergeMakesDirs | experimental/zmux-kotlin/app/src/main/python/zmux/linuxenv.py:372-384 | directories of the destination afterwards, empty ones included: its own and those of the source that were renamed into it |
| TreeMerge.MovesExactly | experimental/zmux-kotlin/app/src/main/python/zmux/linuxenv.py:368-386 | which entries are renamed: those the destination lacks, below directories that both have and that can be listed, unless their own rename fails |
| TreeMerge.MergeAgain | experimental/zmux-kotlin/app/src/main/python/zmux/linuxenv.py:355-387 | without failing calls a second merge renames nothing |
| TreeMerge.MergeTree | experimental/zmux-kotlin/app/src/main/python/zmux/linuxenv.py:355-387 | the loop computes the merge and the number of renames |
| LineEndings.ToCrlfIsDirect | experimental/zmux-kotlin/app/src/main/python/zmux/streams.py:66 | the two replacements read character by character |
| LineEndings.DirectSplit | experimental/zmux-kotlin/app/src/main/python/zmux/streams.py:66 | converting two parts apart is converting the whole, but for one extra CR when the cut is between CR and LF |
| LineEndings.PiecewiseLength | experimental/zmux-kotlin/app/src/main/python/zmux/streams.py:63-77 | piecewise conversion gains one CR per torn line end and is exact without any |
| Streams.StreamingRefinesOneShot | experimental/zmux-kotlin/app/src/main/python/zmux/streams.py:56-77 | for all writes and flushes: emitted text plus the converted rest is the one-shot conversion if and only if no flush tore a line end |
| Streams.CarefulStreamingIsExact | experimental/zmux-kotlin/app/src/main/python/zmux/streams.py:68-77 | no flush after a CR is enough |
| Streams.FlushBetweenCrAndLf | experimental/zmux-kotlin/app/src/main/python/zmux/streams.py:72-77 | a concrete run that differs |
| Streams.WriteExactly | experimental/zmux-kotlin/app/src/main/python/zmux/streams.py:56-70 | a write emits everything through the last line feed, or without one flushes from 256 characters on, and keeps the rest |
| Streams.LongPendingExactly | experimental/zmux-kotlin/app/src/main/python/zmux/streams.py:62-69 | a write leaves 256 or more characters unemitted exactly when it holds a line feed followed by that many |
| Streams.LongTailStays | experimental/zmux-kotlin/app/src/main/python/zmux/streams.py:28-31 | a concrete write that does |
| Streams.FlushLeavesNothing | experimental/zmux-kotlin/app/src/main/python/zmux/streams.py:72-77 | an explicit flush leaves nothing unemitted |
| Streams.StreamingWriter.Write | experimental/zmux-kotlin/app/src/main/python/zmux/streams.py:56-70 | emits through the last line feed, or flushes at 256 characters; nothing emitted is taken back |
| Streams.StreamingWriter.Flush | experimental/zmux-kotlin/app/src/main/python/zmux/streams.py:72-77 | emits the unfinished line |
| Streams.StreamingWriter.GetValue | experimental/zmux-kotlin/app/src/main/python/zmux/streams.py:80-82 | everything written, verbatim |
| RecursiveListing.PushSubDirs | experimental/zmux-kotlin/app/src/main/python/zmux/python_shell.py:415-417 | pushing in reverse leaves the sub-directories in listing order on the stack |
| RecursiveListing.LsRecursive | experimental/zmux-kotlin/app/src/main/python/zmux/python_shell.py:397-417 | the stack loop yields exactly the sections of the recursive pre-order walk |
| RecursiveListing.ListingOfOne | experimental/zmux-kotlin/app/src/main/python/zmux/python_shell.py:404-408 | one target: its walk, or its bare name if it is no real directory |
| RecursiveListing.ListingJoins | experimental/zmux-kotlin/app/src/main/python/zmux/python_shell.py:404-408 | targets are listed one after another |
| RecursiveListing.WalkVisits | experimental/zmux-kotlin/app/src/main/python/zmux/python_shell.py:412-417 | the headers are exactly the shown real directories; no symlink is followed |
| RecursiveListing.WalkOnce | experimental/zmux-kotlin/app/src/main/python/zmux/python_shell.py:412-417 | each of them once |
| RecursiveListing.WalkDescribes | experimental/zmux-kotlin/app/src/main/python/zmux/python_shell.py:397-414 | every section is headed by a shown real directory and names exactly its shown entries, in listing order |
| RecursiveListing.WalkIsPreOrder | experimental/zmux-kotlin/app/src/main/python/zmux/python_shell.py:397-417 | the sections stand in pre-order: a directory before what lies below it, siblings in listing order |
| History.LineEditor.HistoryStep | experimental/zmux-kotlin/app/src/main/python/zmux/pty_session.py:452-466 | one arrow key |
| History.LineEditor.HistoryRecord | experimental/zmux-kotlin/app/src/main/python/zmux/pty_session.py:472-476 | recording a line |
| History.RunKeepsSound | experimental/zmux-kotlin/app/src/main/python/zmux/pty_session.py:452-476 | over every run: at most 500 lines, none empty, no equal neighbours, a valid index |
| History.RunKeepsLastLines | experimental/zmux-kotlin/app/src/main/python/zmux/pty_session.py:472-476 | over every run the history is the last 500 of the submitted lines without blank ones and repetitions of their predecessor |
| History.UpThenDownRestores | experimental/zmux-kotlin/app/src/main/python/zmux/pty_session.py:452-466 | k times Up and k times Down restore the typed line, for every k |
| History.UpThenDownWhileBrowsing | experimental/zmux-kotlin/app/src/main/python/zmux/pty_session.py:452-466 | from inside the history they end at entry max(i, k) or the typed line; back at the start if and only if k does not pass the oldest entry |
| History.DownOnTypedLine | experimental/zmux-kotlin/app/src/main/python/zmux/pty_session.py:455-457 | Down on a line that is being typed does nothing |
| History.SubmittedLineIsRecalled | experimental/zmux-kotlin/app/src/main/python/zmux/pty_session.py:472-476 | the submitted line is the first one recalled |
| TypeAhead.EveryLineHasOneFate | experimental/zmux-kotlin/app/src/main/python/zmux/pty_session.py:479-510 | in every reachable state each line is exactly one of run, queued, typed ahead, read, discarded, handled in place |
| TypeAhead.SubmitRoutes | experimental/zmux-kotlin/app/src/main/python/zmux/pty_session.py:479-510 | where a line goes, case by case |
| TypeAhead.FinishResubmits | experimental/zmux-kotlin/app/src/main/python/zmux/pty_session.py:772-779 | after a command that was not interrupted, the lines typed ahead become the next commands in order; only blank lines and words acted on in place may be missing |
| TypeAhead.FinishDiscards | experimental/zmux-kotlin/app/src/main/python/zmux/pty_session.py:765-771 | after an interrupted one all of them are dropped and the interrupt is over |
| TypeAhead.OtherSteps | experimental/zmux-kotlin/app/src/main/python/zmux/pty_session.py:667-684 | the oldest command starts without an interrupt from before, the oldest line is read, Ctrl+C interrupts what is busy |
| TypeAhead.RunReadsInOrder | experimental/zmux-kotlin/app/src/main/python/zmux/pty_session.py:480-483 | over every run commands read the lines typed for them in submission order |
| TypeAhead.StepInOrder | experimental/zmux-kotlin/app/src/main/python/zmux/pty_session.py:719-723 | a step keeps submission order if and only if it is not a worker line entered after an early clearing of busy while older lines wait |
| TypeAhead.LinesRunInOrder | experimental/zmux-kotlin/app/src/main/python/zmux/pty_session.py:667-701 | without such a step the lines that ran are submitted ones in submission order |
| TypeAhead.OneStepCompletion | experimental/zmux-kotlin/app/src/main/python/zmux/pty_session.py:764-779 | with completion as one step there is none |
| TypeAhead.AWindowCanReorder | experimental/zmux-kotlin/app/src/main/python/zmux/pty_session.py:719-723 | a concrete run in which a line overtakes |
| TypeAhead.InterruptDropsTypeAhead | experimental/zmux-kotlin/app/src/main/python/zmux/pty_session.py:765-771 | after Ctrl+C what was typed ahead never runs |
| TypeAhead.CtrlCDropsTypeAhead | experimental/zmux-kotlin/app/src/main/python/zmux/pty_session.py:764-771 | after Ctrl+C under a busy command, whatever happens until it ends, what is typed ahead by then never runs |
| TypeAhead.Console.SubmitLine | experimental/zmux-kotlin/app/src/main/python/zmux/pty_session.py:479-510 | where a line goes |
| TypeAhead.Console.TakeCommand | experimental/zmux-kotlin/app/src/main/python/zmux/pty_session.py:667-684 | the worker takes the oldest command |
| TypeAhead.Console.FinishCommand | experimental/zmux-kotlin/app/src/main/python/zmux/pty_session.py:764-779 | discards or resubmits the type-ahead |
| TypeAhead.Console.Drain | experimental/zmux-kotlin/app/src/main/python/zmux/pty_session.py:782-788 | returns the queue in order and leaves it empty |
| Interrupts.StepSurvives | experimental/zmux-kotlin/app/src/main/python/zmux/python_shell.py:152-159 | one shared access keeps every late interrupt if and only if it is not a clear decided before the interrupt came |
| Interrupts.AtomicClearSurvives | experimental/zmux-kotlin/app/src/main/python/zmux/pty_session.py:678-684 | with clear_interrupt as one step, an interrupt after the snapshot is flagged when the command starts and until it finishes, in every interleaving |
| Interrupts.OldInterruptIsCleared | experimental/zmux-kotlin/app/src/main/python/zmux/pty_session.py:678-684 | an interrupt from before the snapshot is no longer flagged when the command starts, in either form of the clear, nor after it has finished |
| Interrupts.ClearedExactly | experimental/zmux-kotlin/app/src/main/python/zmux/python_shell.py:152-159 | a clear takes the flag down unless it is tagged with another epoch than the current one |
| Interrupts.SplitClearCanLose | experimental/zmux-kotlin/app/src/main/python/zmux/python_shell.py:158-159 | taken apart it can lose one |
| Interrupts.Shell.Interrupt | experimental/zmux-kotlin/app/src/main/python/zmux/python_shell.py:112-121 | bumps the epoch and raises the flag |
| Interrupts.Shell.ClearInterrupt | experimental/zmux-kotlin/app/src/main/python/zmux/python_shell.py:152-159 | clears unless a newer interrupt came |

## Left out

- Network, TLS, hashing, zip decoding, manifests and the smoke import: answers of `World`, which may be anything and may change over time.
- Failures of `zpip` after the obsolete-file sweep has begun, failures inside the rollback itself, and the return of transitive dependencies: the code does not provide for them.
- Directories as such in the package directory: the disk maps paths of files to contents; a file in the way of a directory is one of the faults a commit may meet.
- Reinstalled dependencies: a dependency that an earlier requirement has brought along is installed again by the code, and by the model; that all requirements hold on success is not claimed, because the code does not make sure of it.
- The legacy fields of a database record (runtime id, hash, size, modules) and records that are no objects.
- A filter output never containing the control: removal can join its neighbours into a new occurrence, so only leftmost removal is stated.
- Interleavings of session threads finer than one manager call, one emit or one connect; the notice broadcast when the session cap is hit; decoding of client messages.
- The prompts of `pty_session.py`, the storage request thread, escape-sequence parsing, and the Alpine child process itself; entering it is an in-place action of TypeAhead.
- PtyOutput.PtySession.Resize: does not forward the size to the child terminal or set the shell's width.
- SessionManager.WsServer.BroadcastFrame: a client whose send fails is removed by a separate disconnect, not within the broadcast.
- WebSocket.ReadHead: does not parse the status code out of the head.
- Zpip.PackageManager.Uninstall: does not remove emptied directories, since the disk knows files only.
- TypeAhead.Console.SubmitLine: does not model the setup gate, which is off, and leaves the history record to History.
- TypeAhead.Console.FinishCommand: does not start Alpine after linux-setup, which belongs to the setup gate.
- Interrupts.Shell.Interrupt: does not signal running processes.
- `stop` of a session in TypeAhead.
- WebSocket fragmentation, the handshake and token check, and UTF-8 decoding of text frames and ELF names, which stay bytes.
- Exclusive or is written out bit by bit on numbers below 256; the header bits 0x80, 0x7F and 0x0F are written as 128 and remainders.
- ElfPatch.PatchCommutesWithReading: is stated for images the reader accepts; an image it rejects only for a missing terminator may be accepted after the patch, since the patch adds NUL bytes.
- Sort order of directory listings and the formatting of entries and headers: children stand in listing order.
- TreeMerge.MergeTree: works on tree values instead of a mutable file system, so symbolic links to directories and aliasing between the trees are not captured; a leaf stands for any entry that is no real directory.
- Signals, subprocess escalation and asynchronous exceptions around Ctrl+C.
- Kotlin and Java user interface, storage links, PRoot launching, key store, path and port selection.
