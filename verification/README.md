# Verified model of msOpCom's data engines

msOpCom sits between an application and the Ascend runtime. Most of it forwards calls; this project
models, in Dafny 4.11, the engines inside it that rewrite data or coordinate threads, and proves what
they promise. `dafny verify dfyconfig.toml` checks everything.

| engine | files | main results |
|---|---|---|
| kernel arguments as one raw buffer | `ArgsRawContext.dfy`, `ArgsRawProperties.dfy` | an expansion keeps what the kernel reaches through every pointer slot, and the tiling data |
| kernel arguments as recorded calls | `ArgsHandleContext.dfy`, `ReplayProperties.dfy` | the replayed handle shows the kernel the same arguments as the recorded one, exactly when no parameter was above the limit |
| dynamic shapes | `ArgsManager.dfy` | the counting scan is the plain search; the word decoder inverts its encoding |
| child processes | `PipeCall.dfy`, `PipeProtocol.dfy` | in all interleavings no child keeps a sibling's pipe end |
| messages over a socket | `Transport.dfy`, `LocalProcessWait.dfy`, `ServerDelivery.dfy` | prefixes under partial writes, end to end from a client thread to the server's handler; exact reassembly |
| simulator log queue | `LogQueue.dfy`, `LogFlush.dfy` | conservation, framing with sends that fail half-way, and what a flush guarantees |
| control file | `ControlFile.dfy`, `ControlFileProperties.dfy` | interning and the exact round trip of the binary file |
| paths | `Path.dfy`, `PathProperties.dfy` | in-place normalisation is a stack fold; exact parse/print round trip |
| ELF images | `ElfLoader.dfy`, `ElfProperties.dfy`, `ElfImage.dfy` | last-wins section map; loading and reading undo writing |
| shared | `Bytes.dfy`, `AclTypes.dfy`, `Options.dfy`, `Ustring.dfy` | little-endian words, fixed widths, split and join |

Objects that the program updates in place are classes, and their methods keep the program's loops; each
method is tied to a function on values, and the results are lemmas about those functions. Threads are
modelled as state machines whose steps are the critical sections of the program's locks; results over
threads speak about every run, that is every interleaving. Widths of 16, 32 and 64 bits, with their
wrap-around, are written out.

System calls appear as parameters that say how they turn out, or as arbitrary choices: memory allocation
and the copy back to the device, `pipe`, `fork`, `accept`, partial socket writes and reads, the current
directory, and the runtime's argument handle, which is reduced to a list of slots. `fork` copies the
descriptor table and the global list, and nothing of the sibling threads, as POSIX.1-2017 (System
Interfaces) says. A socket takes between 1 and all of the bytes it is given, or fails. Section headers,
the file header and string tables follow the System V ABI, chapter 4, sections "ELF Header", "Sections"
and "String Table".

## Where the code does less than one might expect

Each of these is proved, with the exact condition under which the expectation holds.

- A tiling lookup whose placeholders all have address offset 0 answers with data offset 0, not with that
  of the first placeholder (`ArgsRawProperties.TilingInfoExact`).
- Expanding a context whose arguments already lie in its own buffer loses them, unless they are zeros
  (`ArgsRawProperties.ExpansionKeepsArgumentsExactly`; `ExpandTwice` builds such a context). The
  profiling hooks expand a clone and are safe (`ExpandClone`;
  csrc/acl_rt_impl/HijackedFuncOfAclrtLaunchKernelImpl.cpp:101 and 212); the sanitizer hooks expand the launch's own context (line 177 of the same file, and
  csrc/acl_rt_impl/HijackedFuncOfAclrtLaunchKernelWithHostArgsImpl.cpp:130), which therefore must not have
  been expanded before.
- Tiling data may change under an expansion when it starts before the insertion point
  (`ArgsRawProperties.TilingDataSurvivesExactly`).
- Updates above 4096 bytes and buffer requests above 1 GiB are not recorded, so the replayed handle shows
  older contents (`ReplayProperties.ReplayFaithfulExactly`, `OversizedUpdateIsNotRecorded`).
- `ArgsHandleContext::ExpandArgs` answers true even when the parameter was too long to be recorded
  (`ReplayProperties.ExpansionAddsLastSlot`).
- A parent that starts without one of its three standard descriptors hands that number out as a pipe end,
  which the child closes after redirecting (`PipeProtocol.ChildrenReadyExactly`,
  `MissingNumberBreaksChild`).
- The socket lock covers one write call, so concurrent messages of two bytes or more may be torn apart,
  unless both callers hold a common lock (`Transport.TornExactly`, `InOnePieceExactly`). `ProfConfig` holds
  such a lock in `SendMsg` and its other requests, and these keep their order and their wholeness among
  themselves (`Transport.LockedMessagesInOrder`), but `ProfConfig::InitProfConfig`, `BBCountDumper` and
  `LocalProcess::Log` write to the same client without it and can tear them. `Notify` answers 0 after a
  partial send, although the comment in csrc/core/LocalProcess.cpp:83 says that the sent bytes are returned.
- A log packet that is sent only in part makes the rest of the stream undecodable; the consumer logs the
  failure and goes on (`LogQueue.DecodesExactly`, `TornFrameIsUnreadable`).
- A message whose length is a multiple of 1024 is joined with what follows at once
  (`LocalProcessWait.ReassemblyExact`).
- A flush that finds the queue empty returns at once, although the consumer may still have the last
  message in hand; one that finds messages queued and is woken up only by notifications has them all sent
  when it returns (`LogFlush.FlushCompleteExactly`). Spurious wake-ups take that guarantee away, too
  (`LogFlush.FlushCompleteDespiteSpuriousWakeUps`), and a flush that meets a stopping consumer hangs
  (`LogFlush.FlushReturnsExactly`).
- The 16-bit split offset truncates from 65536 bytes of records on
  (`ControlFileProperties.RoundTripExactly`), an empty name interned last is not read back, a name with
  the separator is split, and the name list is written four bytes too long.
- Printing a path may produce a text whose outer blank is stripped on reading
  (`PathProperties.ParsedMayLoseBlank`).
- A trailing empty string of a string table is not returned (`ElfProperties.StringTableExactly`).

## Model

| member | source | states |
|---|---|---|
| `Bytes.CeilByAlign8Exact` | csrc/utils/Numeric.h:22-27 | rounding up to 8 in 32 bits gives the least multiple of 8 not below v exactly for v <= 2^32 - 8; above that it falls to 0 |
| `ArgsRawContexts.ArgsRawContext.GetTilingData` | csrc/runtime/inject_helpers/ArgsRawContext.cpp:23-42 | succeeds exactly for a non-empty placeholder list and a non-empty request, with the bytes at the data offset of the record the search ends with |
| `ArgsRawContexts.ArgsRawContext.GetLastParamOffset` | csrc/runtime/inject_helpers/ArgsRawContext.cpp:97-114 | 0 above 1 GiB, otherwise the insertion offset that an expansion uses |
| `ArgsRawContexts.ArgsRawContext.BuildBuffer` | csrc/runtime/inject_helpers/ArgsRawContext.cpp:52-77 | the new buffer is the zero-padded source with the parameter inserted after the last slot; every data offset moved, no slot moved |
| `ArgsRawContexts.ArgsRawContext.ExpandArgs` | csrc/runtime/inject_helpers/ArgsRawContext.cpp:44-95 | whole effect on all fields: size guard, host and device branch, failed allocation and failed copy |
| `ArgsRawContexts.ArgsRawContext.FreeArgs` | csrc/runtime/inject_helpers/ArgsRawContext.cpp:155-162 | an owned device pointer is dropped once; anything else stays |
| `ArgsRawContexts.ArgsRawContext.Clone` | csrc/runtime/inject_helpers/ArgsRawContext.cpp:150-153 | equal fields, shared arguments, own copy of the working buffer |
| `ArgsRawContexts.ArgsRawContext.ExpandClone` | csrc/acl_rt_impl/HijackedFuncOfAclrtLaunchKernelImpl.cpp:101-105 | expanding a clone leaves the original's fields and bytes unchanged; the offset written equals the original's GetLastParamOffset; the clone holds the padded original with the parameter inserted |
| `ArgsRawContexts.ArgsRawContext.ExpandAgain` | csrc/runtime/inject_helpers/ArgsRawContext.cpp:46-59 | expanding an expanded host context in place loses all arguments: zeros around the second parameter |
| `ArgsRawProperties.ExpansionKeepsArgumentsExactly` | csrc/runtime/inject_helpers/ArgsRawContext.cpp:46-59 | an expansion works on the context's arguments if and only if these do not lie in the context's own buffer, or are all zero |
| `ArgsRawProperties.ExpandTwice` | csrc/runtime/inject_helpers/ArgsRawContext.cpp:44-81 | a new host context expanded twice in place: the second expansion finds zeros, and the arguments survive if and only if they and the first parameter are zeros |
| `ArgsRawProperties.MaxAddrOffsetIsMaximum` | csrc/runtime/inject_helpers/ArgsRawContext.cpp:65-68 | the loop's value bounds every slot offset and is one of them |
| `ArgsRawProperties.InsertOffsetFollowsSlots` | csrc/runtime/inject_helpers/ArgsRawContext.cpp:69-70 | under the 1 GiB bound the insertion offset does not wrap and lies behind every slot |
| `ArgsRawProperties.PlainExpansionAppends` | csrc/runtime/inject_helpers/ArgsRawContext.cpp:61-77 | without placeholders the new buffer is the old arguments, fewer than 8 zeros up to a multiple of 8, then the parameter, and the offset is the padded length |
| `ArgsRawProperties.ExpandPlain` | csrc/runtime/inject_helpers/ArgsRawContext.cpp:44-114 | the same on a host context without placeholders: every old byte keeps its offset, and ExpandArgs and GetLastParamOffset both report the padded length |
| `ArgsRawProperties.ExpansionKeepsMeaning` | csrc/runtime/inject_helpers/ArgsRawContext.cpp:60-77 | deleting the inserted window gives back the padded original, the window is the parameter, every slot stays with its bytes, and the bytes from each relocated data offset equal those from the old one, for any number of placeholders |
| `ArgsRawProperties.RelocationExact` | csrc/runtime/inject_helpers/ArgsRawContext.cpp:71-76 | for a non-empty parameter, relocation keeps the data for every buffer if and only if the data does not start before the insertion point |
| `ArgsRawProperties.LaunchSeesSameData` | csrc/include/thirdparty/acl.h:136-139 | after the launch has written the data addresses into the slots, following the pointer in any slot reaches the same bytes with and without the expansion, wherever the buffers lie |
| `ArgsRawProperties.TilingInfoIsFirstMaximum` | csrc/runtime/inject_helpers/ArgsRawContext.cpp:30-37 | the search ends with the first placeholder of largest address offset, or with (0, 0) when all offsets are 0 |
| `ArgsRawProperties.TilingInfoExact` | csrc/runtime/inject_helpers/ArgsRawContext.cpp:30-37 | it gives the data offset of that placeholder if and only if some address offset is above 0 or the first data offset is 0 |
| `ArgsRawProperties.TilingDataSurvivesExactly` | csrc/runtime/inject_helpers/ArgsRawContext.cpp:23-77 | GetTilingData's bytes are the same before and after an expansion, whatever buffer and parameter hold, if and only if either some slot is not at offset 0 and the data found does not start before the insertion point, or all slots are at offset 0 and the bytes asked for end before it |
| `ArgsRawProperties.TwoExpansionsAreOne` | csrc/runtime/inject_helpers/ArgsRawContext.cpp:60-77 | expanding a clone of an expanded context inserts at the same offset and is one expansion by both parameters, bytes and placeholders alike |
| `ArgsHandleContexts.ArgsHandleContext.CacheArgsAppendOp` | csrc/runtime/inject_helpers/ArgsHandleContext.cpp:89-106 | appends a normal record, unless the parameter exceeds 4096 bytes |
| `ArgsHandleContexts.ArgsHandleContext.CacheArgsParaUpdateOp` | csrc/runtime/inject_helpers/ArgsHandleContext.cpp:116-126 | replaces the bytes of the first record with the handle, if there is one, and nothing else |
| `ArgsHandleContexts.ArgsHandleContext.CacheArgsGetPlaceholderBufferOp` | csrc/runtime/inject_helpers/ArgsHandleContext.cpp:169-179 | records buffer and size in the first record with the handle, if there is one |
| `ArgsHandleContexts.ArgsHandleContext.Finalize` | csrc/runtime/inject_helpers/ArgsHandleContext.cpp:181-190 | every placeholder record takes the bytes of its buffer; the others stay |
| `ArgsHandleContexts.ArgsHandleContext.ReplayArgs` | csrc/runtime/inject_helpers/ArgsHandleContext.cpp:201-245 | true exactly when no runtime call fails; then the new handle, all of whose appends precede all buffer fills, has the recorded slots in order with the recorded bytes |
| `ArgsHandleContexts.ArgsHandleContext.UpdateNormalTaskArgsAddr` | csrc/runtime/inject_helpers/ArgsHandleContext.cpp:247-264 | succeeds exactly when there are enough entries and the first n are 8 bytes; then the little-endian bytes of address i are the bytes of entry i; on failure exactly the addresses in front of the offending entry are written |
| `ArgsHandleContexts.AddressInIsLittleEndian` | csrc/runtime/inject_helpers/ArgsHandleContext.cpp:261-262 | the address read from an 8-byte parameter is the one whose little-endian bytes it holds |
| `ReplayProperties.RunInvariant` | csrc/runtime/inject_helpers/ArgsHandleContext.cpp:89-179 | over every run of calls: records belong to slots of their kind, handles are distinct, records plus oversized appends are the slots, and without oversized appends record k describes slot k |
| `ReplayProperties.ReplayFaithfulExactly` | csrc/runtime/inject_helpers/ArgsHandleContext.cpp:89-190 | after any run of append, placeholder, get-buffer, update and buffer writes, the finalized records show the kernel the same slots and bytes as the application's handle if and only if no append exceeded 4096 bytes, and in the end no normal slot exceeds 4096 bytes and no placeholder 1 GiB |
| `ReplayProperties.OversizedUpdateIsNotRecorded` | csrc/acl_rt_impl/HijackedFuncOfAclrtKernelArgsParaUpdateImpl.cpp:37-54 | a run without an oversized append whose record is stale: an update above the limit is not passed on |
| `ReplayProperties.RecordAll` | csrc/runtime/inject_helpers/ArgsHandleContext.cpp:89-179 | driving the recording context with any run of calls leaves in it the records of that run |
| `ReplayProperties.RecordAndReplay` | csrc/runtime/inject_helpers/ArgsHandleContext.cpp:49-245 | the whole simulation on the classes: record, Finalize, ExpandArgs or not, ReplayArgs; when no runtime call fails, the new handle shows what the application's handle shows, and the extra parameter last, if and only if the run is recordable and the extra parameter within the limit |
| `ReplayProperties.ExpandedShowsExactly` | csrc/runtime/inject_helpers/ArgsHandleContext.cpp:49-55 | the same condition on the recorded values, with and without an extra parameter |
| `ReplayProperties.ExpansionAddsLastSlot` | csrc/runtime/inject_helpers/ArgsHandleContext.cpp:49-55 | an expansion adds exactly one last slot if and only if the parameter is within the limit, else nothing |
| `ArgsHandleContexts.ArgsHandleContext.CalcUserArgsSize` | csrc/runtime/inject_helpers/ArgsHandleContext.cpp:192-199 | the loop sums the sizes of all recorded parameters |
| `ReplayProperties.UserArgsSizeIsReplayedSize` | csrc/runtime/inject_helpers/ArgsHandleContext.cpp:192-199 | the announced size is the number of bytes the replay hands over |
| `ReplayProperties.FlatteningKeepsBytesExactly` | csrc/runtime/inject_helpers/ArgsHandleContext.cpp:29-47 | flattening keeps the concatenation of bytes if and only if every normal parameter is a whole number of pointers long |
| `ReplayProperties.FlattenedPieces` | csrc/runtime/inject_helpers/ArgsHandleContext.cpp:29-47 | every flattened entry is a normal one of 8 bytes or a recorded placeholder |
| `ArgsHandleContexts.ArgsHandleContext.GetFlattenedParams` | csrc/runtime/inject_helpers/ArgsHandleContext.cpp:29-47 | yields the pointer-sized pieces of normal records and the placeholder records, in order |
| `ArgsManagers.ArgsManager.AddAdumpInfo` | csrc/runtime/inject_helpers/ArgsManager.cpp:186-191 | the entry is set, and the latest index is always a key of the map |
| `ArgsManagers.ArgsManager.ScanForMagicWord` | csrc/runtime/inject_helpers/ArgsManager.cpp:48-71 | the scan with the running counter and its decrement after a miss equals the plain search for the first registered word with the four-byte magic prefix |
| `ArgsManagers.ArgsManager.GetAdumpInfoFromTilingData` | csrc/runtime/inject_helpers/ArgsManager.cpp:31-72 | for other than tik operators the last word comes first, then the plain search; too short data gives nothing |
| `ArgsManagers.MagicWord` | csrc/runtime/inject_helpers/ArgsManager.cpp:62-63 | magic prefix combined with the 32-bit value is the 64-bit little-endian word at that place |
| `ArgsManagers.NaiveSearchSkips` | csrc/runtime/inject_helpers/ArgsManager.cpp:50-69 | the plain search may be resumed behind any stretch without a hit |
| `ArgsManagers.NaiveSearchFindsFirst` | csrc/runtime/inject_helpers/ArgsManager.cpp:47-71 | the answer is the entry of the first place with four 0xA5 bytes whose prefixed key is registered, and the null entry when there is none |
| `ArgsManagers.ArgsManager.ParseSecondPtrAddrs` | csrc/runtime/inject_helpers/ArgsManager.cpp:206-256 | appends the decoded entries of all matching placeholders in order to the one record of the index, nothing otherwise |
| `ArgsManagers.ArgsManager.ParseHostInputs` | csrc/runtime/inject_helpers/ArgsManager.cpp:224-254 | the running dimension and pointer indices decode exactly the tensors laid out |
| `ArgsManagers.HostTensorsInvertsEncoding` | csrc/runtime/inject_helpers/ArgsManager.cpp:224-254 | decoding inverts the layout offset word, records, pointers for any list of shapes and addresses, reads stay in the buffer, and the dimension index lands exactly on the pointer area |
| `ArgsManagers.TensorInfoIsByteLength` | csrc/runtime/inject_helpers/ArgsManager.cpp:239-250 | the recorded length is the product of the dimensions times the element size, modulo 2^64 |
| `ArgsManagers.ParsedInvertsEncoding` | csrc/runtime/inject_helpers/ArgsManager.cpp:219-255 | for any placeholders and any words: those whose slot is the indexed word contribute, in order, exactly the list encoded from their data offset on, as addresses and true byte lengths; the others nothing |
| `PipeTables.Process.Create` | csrc/utils/PipeCall.cpp:60-70 | both ends enter the table and the list, or nothing changes |
| `PipeTables.Process.Close` | csrc/utils/PipeCall.cpp:75-83 | closes the descriptor and erases its own list entry only |
| `PipeTables.Process.CloseAll` | csrc/utils/PipeCall.cpp:88-95 | all listed descriptors are closed, the list is empty |
| `PipeTables.Process.PrepareChild` | csrc/utils/PipeCall.cpp:177-190 | the child's statements before exec; its standard descriptors are the call's own ends and no other pipe end is left, if and only if no listed descriptor has a standard number |
| `PipeTables.ChildClosesFindEntries` | csrc/utils/PipeCall.cpp:184-187 | each Close of the child finds its entry in the copied list |
| `PipeTables.ChildReadyExactly` | csrc/utils/PipeCall.cpp:177-190 | exact condition for the child's descriptors at exec |
| `PipeProtocol.StepKeepsInv` | csrc/utils/PipeCall.cpp:37-211 | each of 18 kinds of steps keeps: list exact and without duplicates, arrays and table in correspondence, every child forked from a good state |
| `PipeProtocol.RunKeepsInv` | csrc/utils/PipeCall.cpp:37-211 | the invariant in every state of every interleaving |
| `PipeProtocol.ListIsExact` | csrc/utils/PipeCall.cpp:60-95 | the global list holds exactly the parent's open pipe ends, each once, and these are the ends the running calls hold |
| `PipeProtocol.CloseFindsEntry` | csrc/utils/PipeCall.cpp:75-83 | whenever any call closes an end, destructors included, the end is open and its entry is found |
| `PipeProtocol.ChildReadyInRunExactly` | csrc/utils/PipeCall.cpp:172-190 | in every run, a child that reaches exec has its own input and output and no end of a sibling if and only if no pipe end had a standard number when it was forked |
| `PipeProtocol.ChildReachesExecReady` | csrc/utils/PipeCall.cpp:101-119 | with a parent that starts with its standard descriptors, and code that keeps them, every child that reaches exec is ready |
| `PipeProtocol.MissingNumberBreaksChild` | csrc/utils/PipeCall.cpp:63-67 | for every parent that starts without a standard descriptor, a run whose first child starts its program without that number, the lowest free numbers being handed out |
| `PipeProtocol.ChildrenReadyExactly` | csrc/utils/PipeCall.cpp:156-190 | every child of every run is ready at exec if and only if the parent started with its three standard descriptors |
| `PipeProtocol.HoldersAreExact` | csrc/utils/PipeCall.cpp:101-119 | an end of a pipe is held by the parent exactly while its call holds it, and by a child past exec, forked without pipe ends at standard numbers, exactly when it is the child's own; so closing the writer delivers end of file |
| `PipeProtocol.NothingLeaks` | csrc/utils/PipeCall.cpp:37-45 | when all calls have returned the list is empty and no pipe end is open, failed calls included |
| `Transport.SocketClient.SocketWrite` | csrc/core/DomainSocket.cpp:275-307 | with arbitrary partial writes the wire grows by the first sentBytes bytes of the message; true exactly when that is all |
| `Transport.SocketClient.Write` | csrc/core/Communication.cpp:260-268 | the wire grows by a prefix; the length when all was sent, otherwise -1 |
| `Transport.SocketClient.Notify` | csrc/core/LocalProcess.cpp:77-90 | the wire grows by a prefix; the full length exactly when the whole message is on the wire, otherwise 0 |
| `Transport.StepKeepsInv` | csrc/core/DomainSocket.cpp:290-304 | every interleaved step keeps the prefix invariant of all calls |
| `Transport.WireOfCallIsPrefix` | csrc/core/DomainSocket.cpp:275-307 | in every interleaving the wire restricted to one call is a prefix of its message, and the result of a finished call tells exactly whether it is all of it |
| `Transport.TornExactly` | csrc/core/DomainSocket.cpp:290-304 | there is a run in which a chunk of one call lies between two chunks of another if and only if the torn message has two bytes or more, the other is not empty, and not both callers hold the outer lock |
| `Transport.InOnePieceExactly` | csrc/core/DomainSocket.cpp:290-304 | a message stays in one piece in every run if and only if it has at most one byte |
| `Transport.LockedMessagesInOrder` | csrc/runtime/inject_helpers/ProfConfig.cpp:270-277 | whatever calls without the outer lock do, the wire restricted to the calls under it is what they sent, one after the other, in the order in which they began |
| `LocalProcessWait.Wait` | csrc/core/LocalProcess.cpp:92-115 | returns the concatenation of the chunks read and stops at the first point where the stop rule holds; not returned means no such point yet |
| `LocalProcessWait.FailuresBounded` | csrc/core/LocalProcess.cpp:106-112 | with a time-out, at most timeOut + 1 failed reads in any run |
| `LocalProcessWait.MessageReceived` | csrc/core/LocalProcess.cpp:97-105 | after its chunks the message is complete, and reading stops there exactly when the last chunk is short |
| `LocalProcessWait.ReassemblyExact` | csrc/core/LocalProcess.cpp:97-114 | a message in 1024-byte chunks is returned if and only if its last chunk is short or the next read fails |
| `ServerDelivery.DomainSocketServer.Accept` | csrc/core/DomainSocket.cpp:99-139 | true exactly below the maximum and when every system call succeeds; the id is the next number, earlier ids keep their descriptors |
| `ServerDelivery.DomainSocketServer.Lookup` | csrc/core/DomainSocket.cpp:173-181 | an id is found exactly when it was given out |
| `ServerDelivery.Listen` | csrc/core/Communication.cpp:168-192 | the loop hands on exactly the non-empty reads, in order; a failed or empty read never hands on an old message again |
| `ServerDelivery.ListenHandsOnPrefix` | csrc/core/Communication.cpp:168-192 | reads that each take the next bytes of a stream make the handler's chunks a prefix of it, whatever reads fail in between |
| `ServerDelivery.RunKeepsInv` | csrc/core/Communication.cpp:149-192 | in every run of clients and server, what was delivered is what was consumed of each wire |
| `ServerDelivery.IdsAreStable` | csrc/core/DomainSocket.cpp:131-137 | over any run ids are dense, stable, and never exceed the maximum |
| `ServerDelivery.DeliveredIsPrefix` | csrc/core/Communication.cpp:168-192 | the chunks handed to the handler of an id concatenate to a prefix of what that client wrote, each of 1 to 1024 bytes |
| `ServerDelivery.CallReachesHandlerAsPrefix` | csrc/core/Communication.cpp:168-192 | end to end: the delivered bytes of any Notify call of any client are a prefix of its message |
| `LogQueue.CamodelHelper.SendCaLog` | csrc/camodel/CamodelHelper.cpp:24-29 | the message enters the queue at its end |
| `LogQueue.CamodelHelper.PopMessage` | csrc/camodel/CamodelHelper.cpp:31-62 | the consumer alone takes the oldest messages in order and puts a beginning of each frame on the wire, all of it or less |
| `LogQueue.CamodelHelper.Packet` | csrc/camodel/CamodelHelper.cpp:46-59 | the frame of each of the four log types, and an empty packet for any other |
| `LogQueue.DecodeInvertsFrames` | csrc/utils/Serialize.h:31-72 | the concatenated type, length, payload frames decode to the framed messages, in order |
| `LogQueue.PayloadSizesOfStructures` | csrc/camodel/Camodel.h:24-50 | the announced sizes are those of the C structures, member by member with their alignment |
| `LogQueue.LogsDecodeBack` | csrc/camodel/CamodelHelper.cpp:46-60 | any list of logs of kinds 20 to 23 with those payloads decodes back from its packets |
| `LogQueue.SendableExact` | csrc/camodel/CamodelHelper.cpp:46-60 | no message is lost in framing if and only if all are of a log type |
| `LogQueue.DecodesExactly` | csrc/runtime/inject_helpers/ProfConfig.cpp:270-277 | when any send may be cut short, the wire decodes to the framed messages if and only if none was |
| `LogQueue.DecodedUpToFirstFailure` | csrc/runtime/inject_helpers/ProfConfig.cpp:270-277 | in every run the messages before the first send that was cut short are received, in front of whatever the rest decodes to |
| `LogQueue.TornFrameIsUnreadable` | csrc/runtime/inject_helpers/ProfConfig.cpp:270-277 | for every framed message a run in which its send fails after one byte and the receiver cannot decode |
| `LogQueue.RunKeepsInv` | csrc/camodel/CamodelHelper.cpp:24-62 | conservation, wire contents and the flush bound hold in every reachable state |
| `LogQueue.NothingLostOrReordered` | csrc/camodel/CamodelHelper.cpp:24-62 | sent, then in flight, then queued is everything enqueued, in order, whether or not sends are cut short; the wire decodes to the framed messages sent if and only if no send was |
| `LogQueue.FlushLeavesAtMostOne` | csrc/camodel/CamodelHelper.h:66-73 | once a flush has returned, of all messages enqueued before it at most the last one is unsent |
| `LogFlush.FlushCompleteExactly` | csrc/camodel/CamodelHelper.h:66-73 | with wake-ups by notification only, a flush guarantees in every continuation that all earlier messages are sent if and only if it finds the queue not empty or nothing is unsent |
| `LogFlush.FlushCompleteDespiteSpuriousWakeUps` | csrc/camodel/CamodelHelper.h:66-73 | with spurious wake-ups, as condition variables allow, it guarantees this if and only if nothing is unsent, or it can never return because the consumer stops first |
| `LogFlush.FlushReturnsExactly` | csrc/camodel/CamodelHelper.h:66-87 | a flush can return by notifications alone if and only if it finds the queue empty or the consumer has not been told to stop |
| `LogQueue.FlushMayReturnEarly` | csrc/camodel/CamodelHelper.h:69-71 | a run in which a flush returns while its only message is unsent |
| `ControlFile.InjectBindHelper.Reset` | csrc/kernel_injection/MSBit.cpp:79-84 | all three tables are empty again |
| `ControlFile.InjectBindHelper.Bind` | csrc/kernel_injection/MSBit.cpp:86-98 | interns the name and appends the record |
| `ControlFile.InjectBindHelper.Serialize` | csrc/kernel_injection/MSBit.cpp:100-123 | the bytes of the whole file, for any four bytes that follow the joined names in memory |
| `ControlFile.BoundAllOk` | csrc/kernel_injection/MSBit.cpp:86-98 | after any sequence of Bind calls names are distinct, the map knows exactly them, and record i describes call i |
| `ControlFile.TablesInverseExactly` | csrc/kernel_injection/MSBit.cpp:88-91 | name table and id map are mutually inverse if and only if there are at most 65536 names |
| `ControlFileProperties.SizeFieldIsFileLength` | csrc/kernel_injection/MSBit.cpp:115-122 | the size field equals the file length; version and reserved fields are zero |
| `ControlFileProperties.RecordsRead` | csrc/kernel_injection/MSBit.cpp:67-72 | reading inverts writing for any list of variable-length records |
| `ControlFileProperties.ReadRecordsFillRegion` | csrc/kernel_injection/MSBit.cpp:50-57 | whatever is read accounts for every byte of the record region |
| `ControlFileProperties.NamesSplitBack` | csrc/kernel_injection/MSBit.cpp:109-114 | the joined names split back into the name table if and only if the last name is not empty; otherwise exactly that name is missing |
| `ControlFileProperties.RoundTripExactly` | csrc/kernel_injection/MSBit.cpp:67-123 | for any Bind calls and any trailing bytes, decoding the file gives the same (instruction, name, mask) list if and only if no name holds the separator, the untruncated records take less than 65536 bytes, and the name interned last is not empty |
| `Ustring.SplitString` | csrc/utils/Ustring.cpp:63-71 | the repeated getline loop delivers the tokens of the recursive definition |
| `Ustring.SplitOfJoin` | csrc/utils/Ustring.cpp:63-71 | splitting a joined list loses a trailing empty token and nothing else |
| `Ustring.SplitInvertsJoinIff` | csrc/utils/Ustring.h:155-168 | splitting inverts joining if and only if the list does not end in an empty token |
| `Ustring.JoinStrings` | csrc/utils/Ustring.h:155-168 | the appending loop computes the joined list |
| `Paths.Path.ParseComponents` | csrc/utils/Path.cpp:49-62 | the two-index loop yields the split components that are neither empty nor the current directory |
| `Paths.Path.Compact` | csrc/utils/Path.cpp:123-132 | in-place compaction with two pointers equals the stack fold over the components |
| `Paths.Path.Resolve` | csrc/utils/Path.cpp:120-134 | the path made absolute, then folded |
| `Paths.Path.Append` | csrc/utils/Path.cpp:141-151 | an absolute right-hand side replaces, a relative one is appended |
| `Paths.Path.ToString` | csrc/utils/Path.cpp:65-77 | prints root, current directory and joined components |
| `PathProperties.FoldedFixed` | csrc/utils/Path.cpp:123-132 | a component list is left as it is if and only if it has no parent segment |
| `PathProperties.FoldedConcat` | csrc/utils/Path.cpp:123-132 | folding a front part first makes no difference |
| `PathProperties.FoldedPops` | csrc/utils/Path.cpp:126-131 | a parent segment removes the component in front of it, wherever the two stand |
| `PathProperties.FoldedAtRoot` | csrc/utils/Path.cpp:128-130 | a parent segment at the front goes nowhere |
| `PathProperties.ResolvedPops` | csrc/utils/Path.cpp:120-134 | both for resolved absolute paths: /a/c/../b is /a/b and /../b is /b |
| `PathProperties.ResolvedHasNoParents` | csrc/utils/Path.cpp:120-134 | a resolved path has no parent segment |
| `PathProperties.ResolvedIdempotent` | csrc/utils/Path.cpp:120-134 | resolving twice is resolving once |
| `PathProperties.ResolvedPrefix` | csrc/utils/Path.cpp:120-151 | resolving a first does not change the resolution of a/b for relative b |
| `PathProperties.ResolvedAbsolute` | csrc/utils/Path.cpp:105-134 | an absolute path without parent segments resolves to itself, whatever the current directory |
| `PathProperties.ResolvedBelow` | csrc/utils/Path.cpp:105-134 | in the text, a relative path resolves to the current directory, a separator and the path |
| `PathProperties.ComponentsConcat` | csrc/utils/Path.cpp:49-62 | a separator divides any path text: the components in front of it, then those behind |
| `PathProperties.StripExact` | csrc/utils/Ustring.h:170-175 | stripping changes, and then shortens, exactly the strings with an outer blank |
| `PathProperties.StripRemovesBlanks` | csrc/utils/Ustring.h:170-175 | stripping takes any blanks around a text without outer blanks away, and nothing else |
| `PathProperties.RoundTripExactly` | csrc/utils/Path.cpp:38-77 | parse after print is the identity if and only if the components are non-empty, free of the separator, not the current directory, and no blank stands where it would be stripped |
| `PathProperties.ParsedMayLoseBlank` | csrc/utils/Path.cpp:40-61 | a path text whose parse does not survive printing |
| `ElfLoaders.ElfLoader.FromBuffer` | csrc/utils/ElfLoader.cpp:166-214 | true exactly for a loadable image; then the sections were entered in table order; an unreadable section leaves exactly those in front of it; before the section loop the map stays |
| `ElfLoaders.ElfLoader.ReadSections` | csrc/utils/ElfLoader.cpp:198-213 | enters every section under its NUL-terminated name, or stops at the first unreadable one |
| `ElfProperties.HeadersInside` | csrc/utils/ElfLoader.cpp:58-76 | in a loadable image e_shnum - 1 does not underflow and every section header lies inside the buffer |
| `ElfProperties.EnteredIsLastWins` | csrc/utils/ElfLoader.cpp:211-212 | a map entered in order maps exactly the names that occur, each to its last entry |
| `ElfProperties.LoadedSections` | csrc/utils/ElfLoader.cpp:198-213 | entering the sections of a loadable image gives the last-wins map from names to headers, with all headers inside |
| `ElfProperties.LoadFresh` | csrc/utils/ElfLoader.cpp:166-214 | a fresh loader succeeds exactly for a loadable image and then holds the last-wins map from section names to headers, all of which lie inside the image |
| `ElfImages.HeaderParsed` | csrc/utils/ElfLoader.cpp:187-211 | name, offset and size of a section are read from where a header written field by field has them |
| `ElfImages.NameRead` | csrc/utils/ElfLoader.cpp:211-211 | a name without a NUL that is followed by one at its offset is read as it is |
| `ElfImages.ImageLoadsExactly` | csrc/utils/ElfLoader.cpp:30-113 | an image written from any identification, header fields, gap, header stride, sections and contents is accepted if and only if its first six bytes say 64-bit little-endian ELF, the sizes in the file header do not exceed it, and the section of the names exists and lies inside it |
| `ElfImages.LoadInvertsWrite` | csrc/utils/ElfLoader.cpp:166-214 | loading undoes writing: exactly the written section headers, in order, each under the NUL-terminated name its offset leads to |
| `ElfImages.LoadWritten` | csrc/utils/ElfLoader.cpp:166-214 | a fresh loader, given a written image, knows exactly the written names, each with its last header |
| `ElfLoaders.Elf.ReadStringTable` | csrc/utils/ElfLoader.cpp:135-159 | the strings of the named section, with the checks on the first byte and the sizes; nothing for an unknown name |
| `ElfProperties.StringTableExactly` | csrc/utils/ElfLoader.cpp:135-159 | reading undoes the string-table layout of any list of NUL-free strings if and only if the list is empty or does not end in an empty string |
| `ElfProperties.StringTableNonEmptyExactly` | csrc/utils/ElfLoader.cpp:143-152 | strings come out if and only if the section begins with a NUL and has a third byte, by its size and inside the buffer |
| `ElfProperties.StringTableCutOff` | csrc/utils/ElfLoader.cpp:154-157 | a section that claims to go beyond the buffer reads as if it ended there |

## Left out

- ArgsRawContexts.ArgsRawContext.ExpandArgs: a context whose arguments already are its own buffer is covered only when its size is a multiple of 8, where clearing and resizing reuse the storage (every expansion by a pointer leaves such a size; for other sizes the code may read storage it has just released); the copy into the buffer is taken to succeed, as the code ignores its result; the insertion point must lie inside the padded buffer.
- ArgsRawContexts.ArgsRawContext.ExpandClone: contexts that own device memory are not covered, because the clone and the original would both free it; the destructor is not part of this model.
- ArgsHandleContexts.ArgsHandleContext.ReplayArgs: GenerateArgsHandle's sizing and initialising calls into the runtime are not part of this model; the new handle starts empty.
- ReplayProperties.ReplayFaithfulExactly: the runtime is assumed to give new handles and new memory per requested buffer, and to accept updates of normal parameters only; appends whose caller passes no place for the new handle are taken not to occur (the hooks do not record them, csrc/acl_rt_impl/HijackedFuncOfAclrtKernelArgsAppendImpl.cpp:38 and csrc/acl_rt_impl/HijackedFuncOfAclrtKernelArgsAppendPlaceHolderImpl.cpp:35).
- ArgsManagers.ArgsManager.ParseSecondPtrAddrs: the host buffer is a list of 64-bit words, and all words the decoder visits must exist, as the code checks no bounds.
- ArgsManagers.ArgsManager.GetAdumpInfoFromTilingData: the tiling size must not exceed the data, which its caller checks.
- UpdateInputSizeWithTilingData copies lengths from the record that the scan found into the input list, or clears the list; the search itself is modelled, this copy is not.
- PipeProtocol.ChildrenReadyExactly: unrelated code that closes a standard descriptor during the run is excluded here, not from the other results; a lock is an atomic step, and unrelated code may open and close other descriptors at any time.
- PipeCall's data loops, execvp, waitpid and the exit status: the model ends where the new program starts, and waking up of blocked reads is not modelled beyond who holds which end.
- Transport.SocketClient.SocketWrite: a write call takes at most 2^31 - 4096 bytes, as the Linux kernel does, so the cast of its result to 32 bits is exact; it never takes 0 bytes.
- Transport.TornExactly: LocalProcess::Log calls the client's Write once instead of Notify's loop; on the wire that is an unlocked call like any other.
- LocalProcessWait.Wait: the reads to come are a given list of outcomes; whether a read ever succeeds is open, so the call is allowed not to return.
- ServerDelivery.DeliveredIsPrefix: the handler thread of a client is started for every accepted client, and a delivery step is one round of Listen that read something; shutting the server down, the connect hook, the server's Write loop, socket setup, credentials and time-outs are parameters or left out.
- LocalComm's in-process queues: they replace the socket when tool and application share a process; only the socket path is modelled.
- LogQueue.NothingLostOrReordered: a message still queued when the consumer stops is never sent, and scheduling is not modelled, so no claim says that a step is ever taken; other senders on the same socket are in the transport model, not in this one.
- LogQueue.CamodelHelper.PopMessage: one thread only, for a given number of rounds; the interleaving with producers and flushes is in the state machine.
- ControlFile.InjectBindHelper.Serialize: the four bytes read behind the joined names are a parameter, and the name list must stay below 2^32 bytes.
- ElfLoaders.ElfLoader.FromBuffer: offset sums must not reach 2^64, and every section name that is read must end inside the name table; without that the code reads outside its buffers.
- ElfLoaders.Elf.ReadStringTable: the section must not start behind the buffer, where the code's subtraction underflows.
- PathProperties.ResolvedIdempotent: the current directory is absolute, or empty as after a failing getcwd.
- GetValidLength, ToSafeString, RemoveSuffix, ToRawCArgv and ExtractObjName of the string helpers, and Path's Name and Parent: bounded string scans, character filtering and list ends that no modelled engine relies on.
- Elf::ReadRawData, the other users of the ELF reader, and 32-bit or big-endian images, which the validator refuses.
- The launch hooks, library loading, dumps to files, external tools and platform tables sequence calls into the runtime and the file system, which are not part of this model; the memory and counter records copy fields into packets.
- Logging.
