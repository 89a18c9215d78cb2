# idevice: a verified model of the C boundary

The library is used from C and C++ through a layer of Rust functions (`ffi/src`), C++ wrappers
around them (`cpp/src`) and programs that drive those (`cpp/examples`). This project models the
parts of that layer that carry state, and proves what they keep.

| files | what they model |
|---|---|
| `Ledger.dfy`, `Wrappers.dfy` | who owns a raw handle: wrapper objects that are moved, copied, closed and destroyed, and the two conventions by which a handle is passed to a Rust function that consumes it |
| `CHeap.dfy`, `Owned.dfy` | one allocator for both sides, and which of its blocks a list of raw pointers owns |
| `AfcListing.dfy`, `Misagent.dfy`, `Cryptexd.dfy`, `DebugCommands.dfy`, `Notifications.dfy` | lists and strings crossing the boundary in five layouts, with the loops that build, copy and release them |
| `BackupSession.dfy`, `BackupDelegate.dfy` | a backup session: the delegate that polls for cancellation, the file writers, and the host program with its buffering file streams |
| `BackupFiles.dfy`, `BackupContents.dfy`, `BackupReports.dfy`, `BackupRuns.dfy` | what a session leaves in the host's files, what the library may rely on, and runs in which it may not |
| `BootTrace.dfy`, `BootCourse.dfy`, `BootDriver.dfy`, `RecoveryScan.dfy`, `ComponentNames.dfy`, `Ecid.dfy` | placing a device into restore mode, the USB scan, the component list and the identifier parser |
| `Plist.dfy` | the conversion of plist trees to XPC objects with unsigned integers |
| `RunSync.dfy` | blocking calls on a shared runtime, under every interleaving |
| `AdapterStream.dfy` | receiving from a stream through a buffer of the caller's size |

Where the code changes something in place the model does too: wrappers, the host program's file
table, the delegate, the boot driver, the USB bus and the stream are classes whose methods are
proved to take the steps of a specification on values; the loops are loops. What the specification
guarantees over whole runs is then proved about it.

Device answers, host callbacks, USB results, reads and cancellation polls are arbitrary, given
either as parameters or as unconstrained results. Where a theorem assumes something of the
environment or of the caller, its statement names it: `Fits` and `WellPaired` (hand-overs are paired
as their convention is made for), `Honest` (host callbacks do not throw and closes succeed) and
`Disciplined` (one live writer per path; no create or copy onto a file, and no copy from one, that a
stream has open; no write through a stream whose file was taken from its name) for
BackupReports.FilesHoldTheChunksWritten, `ProperDisk` (no two names for one file when the session
starts), `Latched` (a cancellation is not taken back) for
BackupSession.CancellationSilencesTheHost, and `ClockAdvances` for the USB scan.

Facts about the code that differ from what one might expect, each proved below:

* The counted encoding of notification names refuses the empty list, which the NULL-terminated one
  accepts.
* A NUL inside one boot component name loses the whole component list, since the joined text then
  falls back to the empty string.
* A write that the backup library sees succeed reaches its file exactly when the C++ callback did not
  throw (the trampoline catches the exception and reports success), the host's last effective create
  or close of that path was a create, and the stream's position is the file's end. So it is lost with
  two writers on one path, once the first of them is closed; it lands in whatever is created under
  the new name when its file was renamed; and it overwrites a file that was copied onto meanwhile.
* What a file stream still holds back is missing from a file read or copied before the stream is
  closed, and the copy goes on missing it.
* Releasing a wrapper first is sound only with a callee that always consumes. Some callees refuse
  before they take the handle, which is then lost (the second half of Ledger.ShareAfterTransfer):
  `remote_pairing_lockdown_new` on a host name that is not UTF-8
  (cpp/src/remote_pairing_lockdown.cpp:19-23, ffi/src/remote_pairing_lockdown.rs:95-98),
  `cryptexd_uninstall` on an identifier or version that is not (cpp/src/cryptexd.cpp:148-156,
  ffi/src/cryptexd.rs:461-472), `cryptexd_install` on a missing payload or properties that are no
  dictionary (cpp/src/cryptexd.cpp:177, ffi/src/cryptexd.rs:509-525), and
  `file_service_retrieve_file_with_stream` on a path that is not UTF-8
  (cpp/src/file_service.cpp:117-121, ffi/src/core_device/file_service.rs:386-389).

## Model

| member | source | states |
|---|---|---|
| Ledger.EveryHandleInExactlyOnePlace | cpp/src/afc.cpp:154-186 | after every run of adopt, move, copy, close, destroy and convert steps in which every hand-over of a live handle is paired as its convention is made for (`Fits`), each allocated handle is held by one live wrapper, or was consumed by one client, or was released once, and nothing else holds or released it |
| Ledger.NoWrapperDangles | cpp/src/restore.cpp:387-411 | after every such run (hand-overs paired, `Fits`) no existing wrapper holds a released or consumed handle and no two wrappers hold the same |
| Ledger.StepKeepsLaw | cpp/src/rsd.cpp:69-85 | every step, self-assignment and copy-and-swap included and hand-overs paired, keeps one share per allocated handle and the record of clients |
| Ledger.BothConventionsRefineTheLinearTransfer | cpp/src/core_device.cpp:18-30 | under either convention and every outcome of its callee, the wrapper keeps its live handle with nothing changed, or is empty and the handle is in exactly one client or released once; no other wrapper is touched |
| Ledger.ConventionsExactly | ffi/src/core_device_proxy.rs:73-91 | pairing a convention with a callee keeps the conservation law exactly when the wrapper is empty or the callee's way of failing is the one the convention is made for |
| Ledger.ShareAfterTransfer | ffi/src/afc.rs:152-164 | a mismatched pairing leaves the handed-over handle with two owners or with none, and touches no other handle |
| Ledger.HeldHandle | cpp/src/afc.cpp:161-174 | a handle in a wrapper has been allocated, was neither released nor consumed, and is in no other wrapper |
| Wrappers.Wrapper.MoveAssign | cpp/src/afc.cpp:165-174 | afterwards the target has the source's handle, the source is empty and the target's old handle was released once; assigning to itself changes nothing; no other wrapper changes; together the ledger's step |
| Wrappers.Wrapper.MoveFrom | cpp/src/afc.cpp:161-163 | the new wrapper has its source's handle and the source is empty; nothing is released and no other wrapper changes |
| Wrappers.Wrapper.Close | cpp/src/afc.cpp:176-186 | afterwards the wrapper is empty and the handle it held, if any, was released once; nothing else happened on the Rust side and no other wrapper changes |
| Wrappers.Wrapper.Destroy | cpp/src/afc.cpp:154-159 | the wrapper is gone and the handle it held, if any, was released once; no other wrapper changes |
| Wrappers.Wrapper.CopyFrom | cpp/src/rsd.cpp:69-75 | the new wrapper has a handle never allocated before, or none when its source is empty; the source and every other wrapper stay as they were |
| Wrappers.Wrapper.CopyAssign | cpp/src/rsd.cpp:77-85 | afterwards the target has a handle never allocated before, or none for an empty source, and its old handle was released once; the source and every other wrapper stay as they were; assigning to itself changes nothing |
| Wrappers.Wrapper.ConvertReleasingOnSuccess | cpp/src/afc.cpp:42-50 | on success a new wrapper has the client's handle, the old one is empty and its handle is in that client; on failure the wrapper keeps its handle, which was dropped exactly when the callee drops it |
| Wrappers.Wrapper.ConvertReleasingFirst | cpp/src/core_device.cpp:107-118 | on success a new wrapper has the client's handle, which took the old one over; on failure the wrapper is empty and its handle was dropped exactly when the callee drops it |
| Wrappers.Program.Run | cpp/src/afc.cpp:42-186 | for every script of constructions, moves, copies, closes, destructions and paired hand-overs on any number of wrapper objects: each action whose wrappers are there takes exactly the ledger step it means, the others take none, these steps are a run of the ledger from the books before to the books after, and each handle has its one share afterwards |
| Wrappers.Program.Do | cpp/src/afc.cpp:154-186 | one operation on the objects, aliased operands included, is the ledger step it means, and the program knows exactly the wrappers that step leaves it |
| Wrappers.Library.Consume | ffi/src/mobilebackup2.rs:469-487 | a consuming constructor refuses null untouched; a live handle it takes over into a new client, drops, or leaves alone, and nothing else changes |
| AfcListing.AfcListDirectory | ffi/src/afc.rs:217-251 | the array is written in every slot, only the slot after the last name is null, each slot leads to its own string, and the strings are the device's NUL-free names in order |
| AfcListing.ListDirectory | cpp/src/afc.cpp:54-76 | the caller gets the NUL-free names in order, every string and the array are released once and the memory is as before |
| AfcListing.ListingIsCompleteExactly | ffi/src/afc.rs:220-223 | nothing is filtered out exactly when no name holds a NUL |
| Misagent.MisagentCopyAll | ffi/src/misagent.rs:192-219 | pointers and lengths are parallel, each pointer leads to its own profile, and empty profiles and an empty list own no memory |
| Misagent.BoxProfiles | ffi/src/misagent.rs:194-205 | the loop pushes one pointer and one length per profile, in order, and allocates nothing else |
| Misagent.CopyProfiles | cpp/src/misagent.cpp:58-64 | the copying loop reads back every profile, taking an empty one for a slot of length 0 |
| Misagent.MisagentFreeProfiles | ffi/src/misagent.rs:232-252 | every profile is released with the length it was allocated with, then both arrays, and the memory is as it was before they were made |
| Misagent.CopyAll | cpp/src/misagent.cpp:45-69 | the caller gets the device's answer itself, empty profiles and empty list included, and the memory is as before |
| Cryptexd.InstalledToC | ffi/src/cryptexd.rs:107-115 | both strings are made or neither, the latter exactly when one of them holds a NUL |
| Cryptexd.ConvertAll | ffi/src/cryptexd.rs:286-292 | the loop converts exactly the entries before the first unconvertible one and adds exactly their strings to the memory |
| Cryptexd.CryptexdCopyInstalled | ffi/src/cryptexd.rs:270-301 | succeeds exactly when the device answered and no string holds a NUL; then the array leads to the device's list; on a string with a NUL the memory has grown by exactly the strings of the entries before the first unconvertible one |
| Cryptexd.TakeInstalled | cpp/src/cryptexd.cpp:15-24 | an entry's strings are copied, a null one becoming the empty string |
| Cryptexd.FreeInstalled | ffi/src/cryptexd.rs:309-326 | every string and the array are released once |
| Cryptexd.CopyInstalled | cpp/src/cryptexd.cpp:106-120 | on success the C++ list equals the device's list and the memory is as before; on a list with a NUL the strings before the offending entry, and nothing else, stay allocated |
| Cryptexd.WriteData | ffi/src/cryptexd.rs:139-146 | the buffer is handed out with its length; nothing is allocated for an empty one |
| Cryptexd.TakeData | cpp/src/cryptexd.cpp:26-33 | the bytes are copied and the buffer is released in every case |
| Cryptexd.DataFree | ffi/src/lib.rs:484-488 | null and empty buffers are ignored, any other is released with its own length |
| Cryptexd.DataCrossing | cpp/src/cryptexd.cpp:26-33 | a byte buffer of any length, the empty one included, arrives unchanged and leaves nothing behind |
| DebugCommands.CommandNew | ffi/src/debug_proxy.rs:32-87 | no command comes about exactly for a null or non-UTF-8 name; otherwise the command in memory has the name and the valid arguments in order |
| DebugCommands.CollectArguments | ffi/src/debug_proxy.rs:47-59 | the loop keeps the arguments that are neither null nor invalid UTF-8, in order |
| DebugCommands.ArgumentsKept | ffi/src/debug_proxy.rs:47-59 | the arguments kept are exactly those that are not null and are UTF-8, each the text behind its pointer, in the order of the pointers |
| DebugCommands.ValidArgumentsUnchanged | ffi/src/debug_proxy.rs:47-59 | arguments that are all valid come through unchanged, place by place |
| DebugCommands.OneMoreArgument | ffi/src/debug_proxy.rs:51-58 | one more argument adds its text at the end when it is valid and nothing otherwise |
| DebugCommands.ReadBack | ffi/src/debug_proxy.rs:228-245 | reading a command back gives its name and arguments through lossy decoding |
| DebugCommands.CommandFree | ffi/src/debug_proxy.rs:94-117 | releasing a command restores the memory from before it was made |
| DebugCommands.RoundTrip | ffi/src/debug_proxy.rs:219-245 | what is read back is the given name and the in-order subsequence of arguments that are neither null nor invalid, and the memory is as before |
| Notifications.DecodeTerminated | ffi/src/notification_proxy.rs:215-235 | the loop stops at the sentinel, reads no slot behind it, and yields the names or the first decoding error |
| Notifications.DecodeCounted | ffi/src/notification_proxy.rs:524-543 | the counted loop yields the names or the first decoding error, and refuses a null array |
| Notifications.ObserveTerminated | cpp/src/notification_proxy.cpp:55-67 | encoding with a closing null and decoding yields the terminated result and leaves the memory as before |
| Notifications.ObserveCounted | cpp/src/notification_proxy.cpp:129-143 | encoding with a count and decoding yields the counted result and leaves the memory as before |
| Notifications.DeliveredUnchangedExactly | cpp/src/notification_proxy.cpp:129-138 | the two encodings agree on exactly the non-empty lists, and each delivers its list unchanged exactly when all names are NUL-free UTF-8 |
| Notifications.FailsExactly | ffi/src/notification_proxy.rs:215-235 | a name that is not UTF-8 fails either encoding as an invalid string, an empty list fails the counted one as an invalid argument, nothing else fails, and what arrives otherwise is each name up to its first NUL |
| BackupSession.EveryWriterClosedExactlyOnce | ffi/src/mobilebackup2.rs:152-157 | in every run, for every poll and every host answer, and read off the trace alone: each writer handed out was created once, no close is made for it while it lives and exactly one once it is dropped, under the path it was created on; nothing else is closed |
| BackupSession.EveryCreateIsClosed | ffi/src/mobilebackup2.rs:226-246 | in every run, for every path, the trace holds as many closes as successful creates but for the writers still live, so once all are dropped each successful create was closed once |
| BackupSession.CancellationSilencesTheHost | ffi/src/mobilebackup2.rs:131-246 | in every run with a latching cancellation callback: from the first poll answered with true on, no host callback but a close is made, every fallible operation is answered with a failure and every query with 0 or false, so that no writer is handed out |
| BackupSession.EveryOperationMakesItsCallback | ffi/src/mobilebackup2.rs:131-394 | in every run each operation polls when there is a callback for it (a drop never), and unless cancelled makes the callback of its own kind with its own arguments, and no other: the same path, or the empty one for a path with a NUL, a writer's under the path it was created on; and it replies with success, failure or an answer accordingly |
| BackupContents.FilesHoldWhatTheTraceTells | cpp/examples/mobilebackup2.cpp:26-100 | after every run, of any library, any host and whenever the streams write their buffers out: trace and starting disk tell exactly which names there are and which files streams have open; a file whose content they tell has exactly that content on disk when no stream has it open, and a beginning of it otherwise |
| BackupContents.EventKeepsReading | cpp/examples/mobilebackup2.cpp:42-100 | every event, whatever its callback and however that ends, keeps the reading of the trace true of the host; nothing is read of a file created or copied onto while a stream has it open, nor of a copy made while one has the source open |
| BackupContents.ReadingBackIsExact | ffi/src/mobilebackup2.rs:201-224 | in every run, reading a file back replies with a beginning of its content, and with all of it exactly when nothing of it is pending in a stream, so whenever no stream has it open; it fails when cancelled or when the callback fails or throws |
| BackupContents.CopyingIsExact | cpp/examples/mobilebackup2.cpp:90-100 | in every run, a copy to a name no stream has open comes to a beginning of the source's content for good, and to all of it exactly when nothing of the source was pending, so whenever no stream had the source open |
| BackupFiles.OverlayAt | cpp/examples/mobilebackup2.cpp:46-51 | bytes written at a position replace what is there, a gap before them is filled with zeros, and everything else stays, place by place |
| BackupFiles.WritingKeeps | cpp/examples/mobilebackup2.cpp:46-51 | a write adds the chunk to what the file its stream has open comes to, and to nothing else, however much of it is written out at once |
| BackupFiles.ClosingKeeps | cpp/examples/mobilebackup2.cpp:53-59 | closing a stream leaves what every file comes to as it was |
| BackupFiles.CreatingGives | cpp/examples/mobilebackup2.cpp:42-44 | creating a file no stream has open leaves it empty with a stream at its end |
| BackupReports.SuccessfulWriteReachesTheFileExactly | cpp/examples/mobilebackup2.cpp:42-59 | after every run from the start, of any library and any host: a non-empty write reported as successful makes its stream's file longer by the chunk exactly when the callback did not throw, of the creates and closes of that path that did their work the last was a create, and the file is, or will be, as long as what was written on the path since |
| BackupReports.UndisturbedStreamIsAtItsEnd | cpp/examples/mobilebackup2.cpp:42-51 | that last condition holds whenever the trace tells the content of the stream's file, which it does unless the file was created afresh or copied onto while a stream had it open |
| BackupRuns.DisturbedStreamMayBeAtItsEnd | cpp/examples/mobilebackup2.cpp:90-100 | a run in which an empty file is copied onto one just created and the next write still extends it, so that being disturbed does not decide whether a stream is at its file's end |
| BackupReports.FilesHoldTheChunksWritten | cpp/examples/mobilebackup2.cpp:40-59 | for every interleaving of writers with a host that does not throw and a disciplined library, every path comes to hold exactly the chunks whose write on it was reported as successful, in order, since it was created in the session, through renames and copies: all of it on disk when no stream has the file open, so for every path once all writers are dropped, and a beginning of it otherwise; the open-file map has exactly the live writers' paths |
| BackupReports.WriteKeepsReportExactly | cpp/examples/mobilebackup2.cpp:46-51 | in every run, a successful write keeps a true account of the files true exactly when, of the files anything was reported of, the writer's stream has open the one of its path and no other |
| BackupRuns.SecondWriterLosesItsData | cpp/examples/mobilebackup2.cpp:53-59 | a run with two writers on one path in which a successful write is lost although no callback throws |
| BackupRuns.RenamedWriterSpoilsTheNewFile | cpp/examples/mobilebackup2.cpp:86-88 | a run in which a file is renamed while written and its new name created afresh, and a successful write through the old writer lands in the new file |
| BackupRuns.CopyUnderAStreamIsOverwritten | cpp/examples/mobilebackup2.cpp:90-100 | a run in which a file is copied onto while its writer has it open, and the next successful write overwrites its beginning instead of extending it |
| BackupRuns.CopyOfAnOpenFileStaysShort | cpp/examples/mobilebackup2.cpp:90-100 | a run in which a file is copied while its last chunk is pending, and the copy lacks the chunk for good |
| BackupDelegates.HostFiles.FsCreateFileWrite | cpp/examples/mobilebackup2.cpp:42-44 | afterwards the path names a file, empty unless the path's old stream wrote its remaining bytes into that very file, and has a stream at its start; no other name or stream, and no file but this and the old stream's, has changed |
| BackupDelegates.HostFiles.FsWriteChunk | cpp/examples/mobilebackup2.cpp:46-51 | the path's stream, if there is one, has been given the chunk and has written some beginning of what it had not written into its file at its own position; no other file or stream, and no name, has changed |
| BackupDelegates.HostFiles.FsCloseFile | cpp/examples/mobilebackup2.cpp:53-59 | the path's stream has written all it was given into its file and is gone; every other stream, name and file is as before |
| BackupDelegates.HostFiles.FsRemove | cpp/examples/mobilebackup2.cpp:73-84 | the name is gone, a stream that has the file open keeps it, and every other name is as before |
| BackupDelegates.HostFiles.FsRename | cpp/examples/mobilebackup2.cpp:86-88 | the new name leads to the file the old one led to and the old one is gone, unless there was none; no other name, and no stream or content, has changed |
| BackupDelegates.HostFiles.FsCopy | cpp/examples/mobilebackup2.cpp:90-100 | the destination has the source's bytes, if there is a source; no other name or file, and no stream, has changed |
| BackupDelegates.Delegate.IsCancelled | ffi/src/mobilebackup2.rs:185-190 | an absent callback never cancels; a present one is asked once and its answer returned |
| BackupDelegates.Delegate.Invoke | cpp/src/mobilebackup2.cpp:31-84 | a trampoline returns an error only when the callback does, or when open_file_read throws |
| BackupDelegates.Delegate.CreateFileWrite | ffi/src/mobilebackup2.rs:226-246 | polls, asks the host, and hands out a writer exactly when neither refuses |
| BackupDelegates.Delegate.Fallible | ffi/src/mobilebackup2.rs:248-326 | when not cancelled and the callback does its work: create_dir_all changes no file, remove leaves no file of the name, rename makes the new name lead to the old one's file, copy makes the destination hold what is on disk of the source, no stream is touched and no other name; otherwise no file changes; it fails exactly when cancelled or refused |
| BackupDelegates.Delegate.ReadFile | ffi/src/mobilebackup2.rs:201-224 | replies with the whole content of the file the path names, or fails when cancelled, refused, thrown or missing |
| BackupDelegates.Delegate.ListDirectory | ffi/src/mobilebackup2.rs:348-377 | fails exactly when cancelled, when the directory cannot be read or when one entry cannot; otherwise replies with every entry in its place; makes no host callback |
| BackupDelegates.Delegate.Gather | ffi/src/mobilebackup2.rs:361-375 | the push loop yields every entry in order exactly when each of them could be read |
| BackupDelegates.Delegate.OnProgressReport | ffi/src/mobilebackup2.rs:379-393 | reports progress only when not cancelled and when the optional callback is there |
| BackupDelegates.Delegate.Query | ffi/src/mobilebackup2.rs:328-346 | answers with the callback's value, or with 0 or false when cancelled, and changes no file |
| BackupDelegates.FfiFileWriter.Write | ffi/src/mobilebackup2.rs:131-146 | a write takes the session's step, all of the buffer or an error |
| BackupDelegates.FfiFileWriter.Drop | ffi/src/mobilebackup2.rs:152-157 | dropping a writer closes its path without polling |
| BackupDelegates.Library.Do | ffi/src/mobilebackup2.rs:131-394 | one operation on the object it belongs to, delegate or writer, is one turn of the session and returns its reply |
| BackupDelegates.Library.Run | ffi/src/mobilebackup2.rs:131-394 | for every script of operations on the delegate and on the writers it handed out: what the objects go through is a run of the session, it leaves out only turns whose writer is not there, and the replies are those of the trace |
| BackupDelegates.Backup | cpp/examples/mobilebackup2.cpp:26-100 | a whole backup over fresh objects is a run from the start, so each file has on disk what the trace tells of it, each writer is created and closed once, and every operation made its own callback |
| BootDriver.Session.BootToRestore | cpp/examples/restore.cpp:347-422 | whatever fails, every step is in order and what was done to the device is a beginning of the one course there is (through iBEC exactly when it started in recovery mode); the driver ends normally exactly when no step failed that must not, and then the course is complete, every component was tried in its place, and after iBEC the device behind the open handle is the one with the given identifier; no USB handle is left open but the caller's |
| BootDriver.Session.SendComponent | cpp/examples/restore.cpp:306-345 | a component is read, stitched with the ticket and uploaded, or nothing of it counts as uploaded, which is fatal exactly when it is required |
| BootDriver.Session.EnterIbec | cpp/examples/restore.cpp:360-377 | from recovery mode iBEC is uploaded, started with request 1 and its upload closed, in this order, and the device that is then open is the first qualifying one with the given identifier of a list the bus gave |
| BootDriver.Session.DisableAutoboot | cpp/examples/restore.cpp:381-390 | one to thirty looks at the build version are made, fewer than thirty only when the last one found it, then auto-boot is off or the driver fails; nothing else changes |
| BootDriver.Session.ShowLogo | cpp/examples/restore.cpp:392-396 | the logo is tried and may be missing without stopping the boot; when it went up, the two commands that show it follow |
| BootDriver.Session.LoadListed | cpp/examples/restore.cpp:398-403 | on success the listed components were tried, uploaded and loaded in order; on failure the uploads are a beginning of the plan |
| BootDriver.Session.LoadRamdiskAndTree | cpp/examples/restore.cpp:405-410 | ramdisk, then device tree, each loaded after its own upload |
| BootDriver.Session.LoadSep | cpp/examples/restore.cpp:412-415 | the SEP image is tried exactly when the build identity has one, and may fail; when it went up, its command follows |
| BootDriver.Session.BootKernel | cpp/examples/restore.cpp:417-420 | the device is told to boot exactly when the step succeeds, and then the whole plan has been uploaded, the kernel cache last and its transfer finished, everything is loaded and the boot arguments are set |
| BootTrace.BootxComesLast | cpp/examples/restore.cpp:398-420 | in an orderly trace `bootx` is the last step and before it stand successful uploads of every listed component, the ramdisk, the device tree and the kernel cache, each holding the archive's bytes, the one ticket and the component's override |
| BootTrace.FailureIsLast | cpp/examples/restore.cpp:347-422 | in an orderly trace nothing follows the failure of a step that must not fail: opening the device, finding it again, a required component's reading, stitching or upload, the component list, a load command, the boot arguments, auto-boot |
| BootTrace.FailedSomewhere | cpp/examples/restore.cpp:347-422 | a trace counts as failed exactly when one of its steps is such a failure |
| BootTrace.FatalExactly | cpp/examples/restore.cpp:354-420 | which failures the driver cannot go on after, kind of step by kind of step |
| BootTrace.AutobootAfterLooking | cpp/examples/restore.cpp:381-390 | in an orderly trace auto-boot is set after one to thirty looks at the build version, after fewer than thirty only when one found it, and no look follows one that did |
| BootCourse.IbecIsStarted | cpp/examples/restore.cpp:360-370 | a complete course through iBEC has `go` with request 1 after the iBEC upload and before the device is found again |
| BootCourse.IbecIsStartedOnce | cpp/examples/restore.cpp:360-364 | a complete course has no `go` unless it goes through iBEC, and never two |
| BootCourse.OptionalUploadsAreUsed | cpp/examples/restore.cpp:392-415 | in a complete course, whenever the logo or the SEP image went up as one that may be missing, the next thing done to the device is `setpicture 4` or `rsepfirmware` |
| BootCourse.BootxEndsTheCourse | cpp/examples/restore.cpp:420 | the last thing done in a complete course is `bootx` with request 1 |
| BootCourse.CourseOpens | cpp/examples/restore.cpp:360-396 | what a course begins with, place by place |
| BootCourse.CourseLists | cpp/examples/restore.cpp:398-403 | each listed component in its place, followed by its `firmware` command |
| BootCourse.CourseCloses | cpp/examples/restore.cpp:405-420 | what a course ends with, place by place, the boot arguments spelled out |
| BootCourse.DeedsInPlace | cpp/examples/restore.cpp:347-422 | the deeds of a trace are exactly its successful uploads, its commands, upload closings, reconnections and auto-boot settings, in order |
| BootTrace.LoadFollowsItsUpload | cpp/examples/restore.cpp:400-415 | in an orderly trace the last upload before a load command succeeded and is of the component the command is about |
| BootTrace.UploadedSomewhere | cpp/examples/restore.cpp:326-329 | the names counted as uploaded are exactly those with a successful upload in the trace |
| RecoveryScan.Bus.FindRecovery | cpp/examples/restore.cpp:180-221 | the scan ends, frees every list once, and opens the first qualifying device of the first list that has one, or none with nothing left open, no list having had one and the deadline passed |
| RecoveryScan.ChosenIsTheDevice | cpp/examples/restore.cpp:186-214 | the device behind the handle is an Apple device in one of the six modes, readable and openable, with the identifier asked for, and no device listed before it was that |
| RecoveryScan.Bus.Examine | cpp/examples/restore.cpp:186-214 | one pass opens the first qualifying device and closes every handle opened on the way |
| RecoveryScan.Bus.ScanOnce | cpp/examples/restore.cpp:184-215 | one scan fetches a list, examines it and frees it |
| ComponentNames.SplitLoop | cpp/src/restore.cpp:294-305 | the field loop computes the fields |
| ComponentNames.SplitJoinExact | cpp/src/restore.cpp:284-306 | splitting inverts joining for exactly the newline-free lists whose last name is not empty |
| ComponentNames.RejoinRestores | cpp/src/restore.cpp:296-304 | rejoining the fields of any string gives it back up to exactly one trailing newline |
| ComponentNames.FieldsHoldNoNewline | cpp/src/restore.cpp:297-303 | no field of any string holds a newline |
| ComponentNames.BootComponentNames | cpp/src/restore.cpp:284-306 | the joined string is copied and released, and the caller gets its fields |
| ComponentNames.JoinedNames | ffi/src/restore.rs:1191-1206 | fails exactly when the build identity is no dictionary; otherwise one new string holds the joined names, or nothing when they hold a NUL |
| ComponentNames.ArrivesIntactExactly | ffi/src/restore.rs:1203-1204 | the list arrives unchanged exactly when no name holds a newline or a NUL and the last name is not empty |
| ComponentNames.OneNulLosesTheList | ffi/src/restore.rs:1204 | one name with a NUL makes the received list empty |
| Ecid.ParsingInvertsPrinting | cpp/examples/restore.cpp:148-161 | for every 64-bit value printed in hex with any zero padding after the first `ECID:` the parser returns the value |
| Ecid.PlaceValue | cpp/examples/restore.cpp:155-157 | the sixteen digits in either case have their values, and each place counts sixteen times the next |
| Ecid.FieldOfDigits | cpp/examples/restore.cpp:153-160 | a field of hex digits parses to its value, or to 0 when it exceeds 64 bits |
| Ecid.MissingOrEmptyField | cpp/examples/restore.cpp:149-152 | a missing or empty field gives 0 |
| Ecid.FieldIsExtracted | cpp/examples/restore.cpp:149-155 | what is parsed is the text between the first `ECID:` and the next space or the end |
| Plist.RoundTrip | ffi/src/cryptexd.rs:119-137 | the normalisation panics exactly on trees with dates or UIDs; its result converts back to the same tree and carries no non-negative int64 |
| Plist.NormalisedExactly | ffi/src/cryptexd.rs:119-137 | the normalisation yields exactly the object that says what the tree says, node by node: strings as strings, booleans, data and reals as such, an integer as uint64 exactly when it is not negative, arrays item by item, dictionaries key by key |
| Plist.PlainExactly | idevice/src/xpc/format.rs:128-151 | the plain conversion yields exactly the object that says what the tree says with every integer as int64 |
| Plist.MatchesOnlyPlistKinds | idevice/src/xpc/format.rs:128-151 | no null, UUID, date or file transfer occurs anywhere in such an object |
| Plist.Injective | ffi/src/cryptexd.rs:119-129 | different plist trees never become the same XPC object |
| Plist.FallbackNeverUsed | ffi/src/cryptexd.rs:121-124 | an integer that is not unsigned is signed, so the default is never used |
| Plist.PlainConversion | idevice/src/xpc/format.rs:128-151 | the plain conversion additionally panics on every integer above the i64 range, and where it succeeds it converts back too |
| Plist.NormalisationMatters | ffi/src/cryptexd.rs:117-128 | normalised and plain result are the same object exactly when the plain one has no non-negative int64 |
| Plist.ToXpcDictionary | ffi/src/cryptexd.rs:131-137 | inserting the converted values one by one gives the entries in their order |
| Plist.Insert | ffi/src/cryptexd.rs:134 | a new key goes to the end, a known one keeps its place and takes the new value |
| RunSync.EveryCallerGetsItsOwnResult | ffi/src/lib.rs:126-140 | under every interleaving of any number of callers, a caller that returned has its own future's result and one that panicked had its own future panic |
| RunSync.EveryOutcomeHasItsCause | ffi/src/lib.rs:131-139 | counted over the whole schedule: a caller's future was spawned once; it returned only after its future completed, once and without a panic, and panicked only after its future did, once and without having completed |
| RunSync.SendNeverBlocksAndDeliversOnce | ffi/src/lib.rs:131-139 | a task about to send never finds the buffer full; counted over the whole schedule a task sends at most once, and its caller receives once if it returned, never otherwise, and never without that send |
| RunSync.BlockedOnlyByItsOwnFuture | ffi/src/lib.rs:139 | a blocked caller always has an enabled step of its own or of its task |
| RunSync.EveryScheduleIsBounded | ffi/src/lib.rs:126-140 | no schedule of any number of callers is longer than six steps per caller |
| RunSync.StuckScheduleLeavesNobodyWaiting | ffi/src/lib.rs:131-139 | in a schedule that cannot be continued every caller has left run_sync, with its own future's result exactly when that future completed in the schedule, and with a panic exactly when it panicked |
| RunSync.StepKeepsInv | ffi/src/lib.rs:131-139 | every step of every caller and task keeps the tie between channels, tasks and callers |
| AdapterStreams.ReceivedExactly | ffi/src/adapter.rs:229-254 | a read takes at most 2048 bytes and at most what there is; it is delivered exactly when the hint is 0 or at least its length, as that very stretch of the connection, and otherwise reported with its length and the hint |
| AdapterStreams.NothingElseIsLost | ffi/src/adapter.rs:229-254 | over any run of calls the successful results interleaved with the lost segments are the stretch of the stream that was read |
| AdapterStreams.LossesAreReported | ffi/src/adapter.rs:239-241 | only a too small buffer loses bytes, as many as its error reports |
| AdapterStreams.SafeHintExactly | cpp/src/adapter_stream.cpp:38-42 | a size hint is safe for every stream and read exactly when it is 0 or at least 2048 |
| AdapterStreams.SafeHintsLoseNothing | cpp/src/adapter_stream.cpp:33-52 | with safe hints the delivered bytes alone are the stretch that was read and no call reports a too small buffer |
| AdapterStreams.AdapterStreamHandle.AdapterRecv | ffi/src/adapter.rs:219-254 | the segment leaves the stream before its length is compared with the room; on success it is in the buffer |
| AdapterStreams.AdapterStream.Recv | cpp/src/adapter_stream.cpp:33-52 | a detached stream reports not connected; otherwise the caller gets what the read comes to under the effective hint |
| AdapterStreams.AdapterStream.RecvAll | cpp/src/adapter_stream.cpp:33-52 | any sequence of calls on an attached stream object gives the results of the run, and interleaved with the lost segments they are exactly what was read of the connection |
| AdapterStreams.AdapterStream.Close | cpp/src/adapter_stream.cpp:8-20 | close detaches the stream and shuts its connection down, leaves what was received alone, and does nothing on a detached one; it cannot fail, since the Rust side has no failure on a handle that is there |

## Left out

- Connecting and one-call requests: null checks around calls into parts that are not modelled; they would add only easy members.
- Provider handles around the C++ `connect` functions: the wrappers do not agree on one convention.
- Ledger.EveryHandleInExactlyOnePlace: speaks of runs whose hand-overs are paired; the code also has unpaired ones, of which those listed above lose their handle, as Ledger.ShareAfterTransfer states.
- Ledger.NoWrapperDangles: the same.
- Failure of the allocator itself, and which allocator releases a block: there is one abstract allocator that always finds room.
- The blocks of error objects and their messages: an error is a value.
- UTF-8 decoding: a validity predicate and a lossy decoder are parameters, the latter the identity on valid text.
- Floating-point numbers in plists: modelled as real numbers, so NaN and rounding do not occur; no conversion computes with them.
- Dates and UIDs in plists: converting them is a panic, as in the code.
- BackupReports.FilesHoldTheChunksWritten: needs `Honest` and `Disciplined`; what is lost without them is stated exactly by BackupReports.SuccessfulWriteReachesTheFileExactly, BackupReports.WriteKeepsReportExactly and BackupContents.CopyingIsExact.
- BackupContents.FilesHoldWhatTheTraceTells: tells no content of a file created or copied onto while a stream had it open, nor of a copy made while one had its source open, until it is created or replaced again.
- When `std::ofstream` writes its buffer out: at any write as many bytes as it likes, and all at its close; never between.
- Host directories and failing disk writes; several names for one file.
- BackupDelegates.Delegate.Invoke: a throw from `exists`, `is_dir`, `get_free_disk_space`, `is_cancelled` or `on_progress` would leave an `extern "C"` function and is not modelled.
- RunSync.EveryScheduleIsBounded: counts a future's evaluation as one step, so it speaks of futures that finish or panic.
- Ownership of the recovery-device handle in the boot driver: the USB handle beneath it is tracked, the recovery handle is not.
- RecoveryScan.Bus.FindRecovery: needs a clock that does not go back and passes every time; without one the scan need not end.
- The numbers in a progress report, which are copied field by field.
- Sleeps, timeouts, log and console output, USB transfers, sockets and real files.
- The RSD service lists (cpp/src/rsd.cpp:8-67): the same copying loops as in the listings modelled here.
- `run_sync_local`, which evaluates the future on the calling thread.
