# Verification of the multi-string, list, LPC, registry and command line cores

A Dafny 4.11 model of five parts of the repository, with proofs of what they keep over all inputs,
all runs and all interleavings. `dafny verify dfyconfig.toml` checks everything.

**Multi-strings** (`MultiStringSpec`, `MultiString`). A multi-string is a list of NUL-terminated
strings in one buffer, closed by one more NUL. `Parse` is what the parse loop reads, `Encode` is the
layout; they are inverse to each other. The loop, its three callbacks and the two copying operations
work on arrays with raw cursors and are proved against operations on sequences of strings.
`_wcsicmp` is equality under a fold of each character that is left open. Lengths are 32-bit, so
buffers are below 2^31 cells, where `size * 2` does not wrap.

**A multi-string in the registry** (`RegValue`). Adding and removing strings in a stored value, as a
refinement of an abstract list, over any history and with any failures of the registry.

**Deleting a key tree** (`RegTree`). The recursive delete whose index is decremented inside the loop:
an exact characterisation of the trees on which it ends, and of what it leaves.

**The linked list and its lock** (`ListMemory`, `LinkList`, `CriticalSection`, `SharedList`,
`SharedListRuns`). The circular list over the heap refines a sequence, and entries that left it, whose
links stay, are never taken for members. The two-level lock is a protocol of kernel calls by any
number of threads. The list under the lock is proved statement by statement: every call, in every
interleaving, is one atomic operation on the sequence.

**The LPC server and client** (`LpcProtocol`, `LpcServer`, `LpcShutdown`, `LpcHandshake`,
`LpcClient`). The message loop over the table of ten clients with arbitrary failures of every OS call,
Start and Stop beside the loop thread, and the handshake between any number of clients and the server.

**The command line generator and runtime** (`CliTable`, `CliRuntime`, `CliArgs`). The tables that one
program emits and the other interprets agree, down to the bytes of each field in a 64-bit build, and
nested command lines keep the argument stack.

Threads that block have no form as a sequential method. The lock, Start, Stop and the composed
handshake are therefore state machines whose steps are single calls or single accesses; `LpcServer`
and `LinkList` have the same operations as methods on objects.

Where the code does not do what its comments or names say, the model follows the code:

- `IMultiStringUtils.h` lines 11-12 call the check undefined only when the limit exceeds the
  allocation. The code reads past the allocation with a limit inside it
  (`MultiStringSpec.ParseLimitExact`).
- An add at the end of a list that has no other string leaves an empty string in front
  (`RegValue.AddAtEndExact`).
- After that, an add at the start hides every other string behind the empty one
  (`RegValue.InsertedShows`).
- Removing the only string without delete-if-empty leaves a value that no later call accepts when it
  can read it; this is the only case in which a remove does so (`RegValue.RemoveUsableExactly`, `RegValue.NulIsStuck`).
- An add loses the other strings when a registry read fails: it takes a first read that fails for any
  reason as an absent value, and does not notice that its second read has failed, so that it works on a
  buffer that was never filled. `RegValue.AddKeepsExactly` and `RegValue.AddKeepsOnAnyBuffer` say exactly
  when they are kept, `RegValue.StepUniqueExactly` when duplicates come in; `RegValue.UnfilledIsUsed` and
  `RegValue.ZeroBufferDropsList` show the failure.
- A key that opens but does not delete keeps the tree delete busy for ever
  (`RegTree.RefusedDeleteNeverEnds`), and a long name ends it early with success
  (`RegTree.LongNameStops`). It ends exactly on the trees of `RegTree.Deletable`
  (`RegTree.EndsExactly`).
- A shared body that moves the IRQL across DISPATCH_LEVEL makes the destructor release the wrong lock
  (`CriticalSection.DestructExact`, both directions).
- INT8 is a type of the runtime that the generator refuses (`CliTable.Int8Refused`), and a parameter
  list of blanks makes it read a word that is not there (`CliTable.BlankParameterBreaks`).

## Model

| member | source | states |
|---|---|---|
| `MultiStringSpec.ParseEncode` | `KernelUserCommon/Libs/UserKernelUtils/UserKernelUtilsK/MultiStringUtils.cpp:22-58` | parsing undoes encoding: on every list a parse can deliver, the encoded buffer is accepted and its strings come back in order |
| `MultiStringSpec.EncodeParse` | `KernelUserCommon/Libs/UserKernelUtils/UserKernelUtilsK/MultiStringUtils.cpp:22-58` | encoding undoes parsing: what a parse accepts is exactly the encoding of its strings at the start of the buffer, and inside the limit |
| `MultiStringSpec.ParseLayout` | `KernelUserCommon/Libs/UserKernelUtils/UserKernelUtilsK/MultiStringUtils.cpp:22-58` | on any laid out list, also one with empty strings inside, a parse delivers exactly the strings in front of the first inner empty one |
| `MultiStringSpec.ParseLimitExact` | `KernelUserCommon/Libs/UserKernelUtils/UserKernelUtilsK/MultiStringUtils.cpp:22-77` | a limited parse accepts exactly when some double NUL ends within the limit, and reads past the allocation exactly when there is none and no NUL stands at or behind the last admitted cell |
| `MultiStringSpec.LimitDoesNotBoundReads` | `KernelUserCommon/Libs/UserKernelUtils/UserKernelUtilsK/MultiStringUtils.cpp:68-77` | a limit equal to the allocation does not keep the check inside it: one cell that is not NUL is enough |
| `MultiStringSpec.WithoutExact` | `KernelUserCommon/Libs/UserKernelUtils/UserKernelUtilsK/MultiStringUtils.cpp:107-131` | the filter keeps exactly the strings that do not match case-insensitively, and changes nothing when there is no match |
| `MultiStringSpec.InsertAfterExact` | `KernelUserCommon/Libs/UserKernelUtils/UserKernelUtilsK/MultiStringUtils.cpp:202-225` | an insertion after a string lands directly behind its first match and nowhere else |
| `MultiStringSpec.MatchFolded` | `KernelUserCommon/Libs/UserKernelUtils/UserKernelUtilsK/MultiStringUtils.cpp:116` | two strings match exactly when folding every character makes them the same string |
| `MultiStringSpec.WithoutByFold` | `KernelUserCommon/Libs/UserKernelUtils/UserKernelUtilsK/MultiStringUtils.cpp:107-131` | wherever a string stands in a list, the filter drops it exactly when it folds to the same as the one to delete, and keeps all others in order and number |
| `MultiStringSpec.InsertByFold` | `KernelUserCommon/Libs/UserKernelUtils/UserKernelUtilsK/MultiStringUtils.cpp:202-225` | an After string is found exactly when some string folds to the same, and the new one goes directly behind the first of them |
| `MultiStringSpec.CanonicalAdd` | `KernelUserCommon/Libs/UserKernelUtils/UserKernelUtilsK/MultiStringUtils.cpp:233-355` | for a canonical list and non-empty strings, an add shows the filtered list with the string inserted; only an add at the end of nothing shows an empty string in front; an After string is found exactly when it survives the filter |
| `MultiString.CallBackData.Invoke` | `KernelUserCommon/Libs/UserKernelUtils/UserKernelUtilsK/MultiStringUtils.cpp:60-66` | each callback's writes are the step of its specification (size 60-66, delete 107-131, add 202-225) and stay inside the target |
| `MultiString.EndRun` | `KernelUserCommon/Libs/UserKernelUtils/UserKernelUtilsK/MultiStringUtils.cpp:22-58` | a callback that never refuses is called on exactly the strings the parse delivers, in order, and the verdict is that of the parse |
| `MultiString.HeardExact` | `KernelUserCommon/Libs/UserKernelUtils/UserKernelUtilsK/MultiStringUtils.cpp:41-47` | a callback from outside is given the list, or the shortest start of it whose last string it refuses |
| `MultiString.EndHeard` | `KernelUserCommon/Libs/UserKernelUtils/UserKernelUtilsK/MultiStringUtils.cpp:22-58` | with a callback from outside, which may decide on all it has been given, the parse hands over the strings up to the first refusal and returns TRUE exactly when the parse accepts and nothing is refused |
| `MultiString.ParseOne` | `KernelUserCommon/Libs/UserKernelUtils/UserKernelUtilsK/MultiStringUtils.cpp:34-53` | one turn on the array: the length test, the callback and the next cell decide as specified whether the parse goes on, and with which state and verdict it ends |
| `MultiString.ParseMultiStringInternal` | `KernelUserCommon/Libs/UserKernelUtils/UserKernelUtilsK/MultiStringUtils.cpp:22-58` | the loop with its raw cursor ends with the callback state and the verdict of the specified parse, for every callback, also one that refuses a string |
| `MultiString.ParseMultiString` | `KernelUserCommon/Libs/UserKernelUtils/UserKernelUtilsK/MultiStringUtils.cpp:93-96` | the same without a limit |
| `MultiString.SizeRun` | `KernelUserCommon/Libs/UserKernelUtils/UserKernelUtilsK/MultiStringUtils.cpp:60-66` | the size callback over a list counts exactly the cells of the list |
| `MultiString.CallsFit` | `KernelUserCommon/Libs/UserKernelUtils/UserKernelUtilsK/MultiStringUtils.cpp:22-58` | the strings of a limited parse, accepted or not, never have more cells than the buffer |
| `MultiString.CheckMultiString` | `KernelUserCommon/Libs/UserKernelUtils/UserKernelUtilsK/MultiStringUtils.cpp:68-77` | TRUE exactly when some double NUL ends within the limit |
| `MultiString.GetMultiStringSize` | `KernelUserCommon/Libs/UserKernelUtils/UserKernelUtilsK/MultiStringUtils.cpp:79-91` | the length of the encoding of the buffer's strings, which is a prefix of the buffer |
| `MultiString.DeleteRun` | `KernelUserCommon/Libs/UserKernelUtils/UserKernelUtilsK/MultiStringUtils.cpp:107-131` | the delete callback over a list writes the filtered list from the cursor on, zero behind it, stays inside the target, and records whether there was a match |
| `MultiString.CopyDeleteStringFromMultiString` | `KernelUserCommon/Libs/UserKernelUtils/UserKernelUtilsK/MultiStringUtils.cpp:133-192` | fails exactly when a given string has no match; otherwise a fresh buffer of the old encoding's size that decodes to the filtered list (the empty list as one empty string); with NULL an exact copy |
| `MultiString.AddRun` | `KernelUserCommon/Libs/UserKernelUtils/UserKernelUtilsK/MultiStringUtils.cpp:202-225` | the add callback over a list writes the list with the string behind the first match of After, inside a target with room for exactly that |
| `MultiString.CopyWithout` | `KernelUserCommon/Libs/UserKernelUtils/UserKernelUtilsK/MultiStringUtils.cpp:244-259` | the intermediate copy is the list without the string to add, whether or not the string was there |
| `MultiString.FillTarget` | `KernelUserCommon/Libs/UserKernelUtils/UserKernelUtilsK/MultiStringUtils.cpp:279-314` | the new buffer holds the string at the head or behind After, and reports exactly whether After was found |
| `MultiString.AppendAtEnd` | `KernelUserCommon/Libs/UserKernelUtils/UserKernelUtilsK/MultiStringUtils.cpp:324-328` | the copy to the place before the end puts the string behind the list already there |
| `MultiString.CopyAddStringToMultiString` | `KernelUserCommon/Libs/UserKernelUtils/UserKernelUtilsK/MultiStringUtils.cpp:233-355` | FALSE exactly when After has no match left after the removal; otherwise exactly the encoding of the filtered list with the string inserted, every cell accounted for |
| `RegValue.Value.Set` | `KernelUserCommon/Libs/UserKernelUtils/UserKernelUtilsK/RegUtils.cpp:183-220` | the value is replaced, or untouched when the write fails |
| `RegValue.Value.AddMultiStringToKey` | `KernelUserCommon/Libs/UserKernelUtils/UserKernelUtilsK/RegUtils.cpp:462-576` | the stored value and the status are those of the specified add, for every answer of the registry to each of its calls: a first read that fails for any reason replaces the value by the single string, and after a second read that fails, which the code does not notice, the unfilled buffer is used |
| `RegValue.Value.RemoveMultiStringFromKeyEx` | `KernelUserCommon/Libs/UserKernelUtils/UserKernelUtilsK/RegUtils.cpp:578-721` | the stored value and the status are those of the specified remove, with both treatments of the empty list |
| `RegValue.ChecksWellFormed` | `KernelUserCommon/Libs/UserKernelUtils/UserKernelUtilsK/RegUtils.cpp:541-544` | a stored value that the length check accepts parses without a limit, and its encoding is a prefix of it |
| `RegValue.EncodeChecks` | `KernelUserCommon/Libs/UserKernelUtils/UserKernelUtilsK/RegUtils.cpp:541-544` | the encoding of any list passes the length check with its own size |
| `RegValue.StoredLength` | `KernelUserCommon/Libs/UserKernelUtils/UserKernelUtilsK/RegUtils.cpp:539-564` | the buffer that an add writes back is at most as long as the old one and the string with its NUL |
| `RegValue.EmptyBySize` | `KernelUserCommon/Libs/UserKernelUtils/UserKernelUtilsK/RegUtils.cpp:648-655` | the size test recognises exactly the empty list |
| `RegValue.WithoutNoDuplicates` | `KernelUserCommon/Libs/UserKernelUtils/UserKernelUtilsK/MultiStringUtils.cpp:107-131` | filtering keeps a list free of case-insensitive duplicates |
| `RegValue.InsertedOnce` | `KernelUserCommon/Libs/UserKernelUtils/UserKernelUtilsK/MultiStringUtils.cpp:233-355` | after the removal the string stands in the result exactly once, at the head, at the end, or behind the first match of After; the rest is the old list in order |
| `RegValue.PlacedParsable` | `KernelUserCommon/Libs/UserKernelUtils/UserKernelUtilsK/MultiStringUtils.cpp:233-355` | the result of an add is a list that a parse delivers, and not the empty one |
| `RegValue.InsertedShows` | `KernelUserCommon/Libs/UserKernelUtils/UserKernelUtilsK/MultiStringUtils.cpp:233-355` | on any list that a parse can deliver, an add shows the filtered list with the string at its place, apart from two exact cases: an empty string in front at the end of nothing, and everything hidden behind an empty first string |
| `RegValue.AddRefines` | `KernelUserCommon/Libs/UserKernelUtils/UserKernelUtilsK/RegUtils.cpp:462-576` | one add, whatever the registry answers, takes the encoding of a list to the encoding of the abstract add's list; a failed After or a failed write leaves it unchanged |
| `RegValue.RemoveRefines` | `KernelUserCommon/Libs/UserKernelUtils/UserKernelUtilsK/RegUtils.cpp:578-721` | one remove, whatever the registry answers, takes the encoding of a list to the encoding of the list without the string, to no value, to one NUL, or leaves it unchanged, as the abstract remove says |
| `RegValue.StepRefines` | `KernelUserCommon/Libs/UserKernelUtils/UserKernelUtilsK/RegUtils.cpp:462-721` | the same for one call of either kind |
| `RegValue.StepUniqueExactly` | `KernelUserCommon/Libs/UserKernelUtils/UserKernelUtilsK/RegUtils.cpp:462-721` | a call on a list without case-insensitive duplicates leaves such a list if and only if it is not an add that writes a list with duplicates found in a buffer that was not filled |
| `RegValue.StepKeepsNonEmpty` | `KernelUserCommon/Libs/UserKernelUtils/UserKernelUtilsK/RegUtils.cpp:462-721` | no call brings an empty string into the list, unless an add at the end meets no other string or an add works on a buffer that was not filled |
| `RegValue.HistoryRefines` | `KernelUserCommon/Libs/UserKernelUtils/UserKernelUtilsK/RegUtils.cpp:462-721` | over any history of calls with any answers of the registry the stored value is what the abstract list says (a buffer that was not filled counts as refused when the length check would read past its end) |
| `RegValue.HistoryUniqueExactly` | `KernelUserCommon/Libs/UserKernelUtils/UserKernelUtilsK/RegUtils.cpp:462-721` | no list in a history has duplicates if and only if none of its adds takes over the duplicates of a buffer that was not filled |
| `RegValue.FilledBringsNone` | `KernelUserCommon/Libs/UserKernelUtils/UserKernelUtilsK/RegUtils.cpp:503-510` | no add does so when every second read succeeds |
| `RegValue.HistoryNonEmpty` | `KernelUserCommon/Libs/UserKernelUtils/UserKernelUtilsK/RegUtils.cpp:462-721` | the list stays free of empty strings when moreover every add at the end meets another string |
| `RegValue.HistoryFromAbsent` | `KernelUserCommon/Libs/UserKernelUtils/UserKernelUtilsK/RegUtils.cpp:462-757` | from an absent value, after any history of adds and of removes of both kinds, with any failures: the value is absent, one NUL, or the exact encoding of the abstract list, accepted by the length check; without duplicates unless an add took them from a buffer that was not filled, so none when every second read succeeded; canonical when moreover no add at the end met a list without another string (a buffer that was not filled counts as refused when the length check would read past its end) |
| `RegValue.AddAtEndExact` | `KernelUserCommon/Libs/UserKernelUtils/UserKernelUtilsK/MultiStringUtils.cpp:324-337` | an add at the end leaves a canonical list exactly when a real string remains before it; otherwise an empty string comes first; the result is given exactly |
| `RegValue.UnfilledIsUsed` | `KernelUserCommon/Libs/UserKernelUtils/UserKernelUtilsK/RegUtils.cpp:503-564` | an add whose second read fails has the result it would have on whatever list stands in the buffer |
| `RegValue.ZeroBufferDropsList` | `KernelUserCommon/Libs/UserKernelUtils/UserKernelUtilsK/RegUtils.cpp:503-564` | when that buffer is all zero an add at the start drops every other string and reports success |
| `RegValue.AddKeepsExactly` | `KernelUserCommon/Libs/UserKernelUtils/UserKernelUtilsK/RegUtils.cpp:486-564` | a successful add on a filled buffer, or without a first read, still holds every other string if and only if there is none, or the first read succeeded and the string was not put in front of an empty one: a first read that fails drops the list |
| `RegValue.AddKeepsOnAnyBuffer` | `KernelUserCommon/Libs/UserKernelUtils/UserKernelUtilsK/RegUtils.cpp:486-564` | the same for every buffer: the other strings must stand in the buffer the add works on, and must not be hidden |
| `RegValue.AddSucceedsExactly` | `KernelUserCommon/Libs/UserKernelUtils/UserKernelUtilsK/RegUtils.cpp:478-564` | the status of an add, exactly: success when it could write and either took the value for absent or found in a valid buffer a predecessor that is not the string itself; without success nothing changes |
| `RegValue.RemoveSucceedsExactly` | `KernelUserCommon/Libs/UserKernelUtils/UserKernelUtilsK/RegUtils.cpp:594-709` | the status of a remove, exactly, for both treatments of the empty list: success when it could read, found the string, could write, and could open the key to delete an empty value; then the value is gone exactly when it asked for that and nothing else was left; without success nothing changes |
| `RegValue.AddAfterItself` | `KernelUserCommon/Libs/UserKernelUtils/UserKernelUtilsK/MultiStringUtils.cpp:244-314` | adding a string after itself fails and leaves the value as it is |
| `RegValue.RemoveUsableExactly` | `KernelUserCommon/Libs/UserKernelUtils/UserKernelUtilsK/RegUtils.cpp:639-709` | a remove without delete-if-empty leaves a value that the length check accepts if and only if a real string remains or a registry call fails; then it is the encoding of the remaining (or old) list, otherwise one NUL; it succeeds exactly when the string was there and every call worked |
| `RegValue.NulIsStuck` | `KernelUserCommon/Libs/UserKernelUtils/UserKernelUtilsK/RegUtils.cpp:634-637` | a value of one NUL stays: every later add or remove that can read it fails and changes nothing |
| `RegTree.RegDeleteAllSubKeys` | `KernelUserCommon/Libs/UserKernelUtils/UserKernelUtilsK/RegUtils.cpp:44-155` | on every deletable forest the loop, with its index wrapping at 32 bits and its bound of 2^32 - 1, ends and leaves exactly the specified leftover |
| `RegTree.RegDeleteAllKeys` | `KernelUserCommon/Libs/UserKernelUtils/UserKernelUtilsK/RegUtils.cpp:158-181` | the parent goes exactly when it deletes and its sub keys clear completely; otherwise it keeps the leftover |
| `RegTree.EndsExactly` | `KernelUserCommon/Libs/UserKernelUtils/UserKernelUtilsK/RegUtils.cpp:44-155` | the loop with its 32-bit index and bound, on any tree in which opens and deletes may fail anywhere, ends if and only if the forest is deletable, and whenever it ends it leaves the leftover |
| `RegTree.LoopEnds` | `KernelUserCommon/Libs/UserKernelUtils/UserKernelUtilsK/RegUtils.cpp:62-150` | from any index: enough turns for a deletable rest, with its result |
| `RegTree.LoopSound` | `KernelUserCommon/Libs/UserKernelUtils/UserKernelUtilsK/RegUtils.cpp:62-150` | from any index: whatever the loop returns is the leftover, and it returns only for a deletable rest |
| `RegTree.ClearsExact` | `KernelUserCommon/Libs/UserKernelUtils/UserKernelUtilsK/RegUtils.cpp:44-155` | a forest disappears completely exactly when every key in it can be enumerated, opened and deleted |
| `RegTree.LeftoverIsUnopened` | `KernelUserCommon/Libs/UserKernelUtils/UserKernelUtilsK/RegUtils.cpp:62-121` | when only direct sub keys refuse to open, fewer than the bound of the loop, exactly those remain, in order and with their own sub keys |
| `RegTree.LeftoverStable` | `KernelUserCommon/Libs/UserKernelUtils/UserKernelUtilsK/RegUtils.cpp:62-150` | what is left is left by a second delete as well |
| `RegTree.StuckNeverStands` | `KernelUserCommon/Libs/UserKernelUtils/UserKernelUtilsK/RegUtils.cpp:117-149` | a key that was opened and is still there cannot be passed |
| `RegTree.DecInc` | `KernelUserCommon/Libs/UserKernelUtils/UserKernelUtilsK/RegUtils.cpp:62-150` | decrement and increment modulo 2^32 lead back to the same index, also at 0 |
| `RegTree.RefusedDeleteNeverEnds` | `KernelUserCommon/Libs/UserKernelUtils/UserKernelUtilsK/RegUtils.cpp:136-149` | one key that opens but does not delete keeps the loop busy for ever |
| `RegTree.NestedUnopenedNeverEnds` | `KernelUserCommon/Libs/UserKernelUtils/UserKernelUtilsK/RegUtils.cpp:117-149` | so does a sub key two levels down that does not open |
| `RegTree.LongNameStops` | `KernelUserCommon/Libs/UserKernelUtils/UserKernelUtilsK/RegUtils.cpp:64-100` | a name of more than 496 bytes ends the loop at once: it and all keys behind it stay |
| `ListMemory.InsertSound` | `KernelUserCommon/Libs/UserKernelUtils/UserKernelUtilsK/LinkListLib.cpp:80-148` | the link writes of an insertion at any place keep the ring, and every entry that had left stays recognisable |
| `ListMemory.DropSound` | `KernelUserCommon/Libs/UserKernelUtils/UserKernelUtilsK/LinkListLib.cpp:56-124` | the link writes of a removal keep the ring, and the entry that leaves becomes recognisable as departed although its links stay |
| `ListMemory.MemberExact` | `KernelUserCommon/Libs/UserKernelUtils/UserKernelUtilsK/LinkListLib.cpp:273-298` | the test on the neighbours' links holds exactly for the members, among all entries that ever were in the list |
| `ListMemory.WalkRing` | `KernelUserCommon/Libs/UserKernelUtils/UserKernelUtilsK/LinkListLib.cpp:35-148` | from the sentinel, Flink visits the sequence in order and Blink in reverse |
| `ListMemory.RemoveFacts` | `KernelUserCommon/Libs/UserKernelUtils/UserKernelUtilsK/LinkListLib.cpp:56-124` | at a member the corruption checks pass and the two link writes leave the ring without it |
| `ListMemory.PushHeadFacts` | `KernelUserCommon/Libs/UserKernelUtils/UserKernelUtilsK/LinkListLib.cpp:80-101` | at the head the corruption check passes and the four link writes put the entry in front |
| `ListMemory.PushTailFacts` | `KernelUserCommon/Libs/UserKernelUtils/UserKernelUtilsK/LinkListLib.cpp:126-148` | at the tail the corruption check passes and the four link writes put the entry last |
| `ListMemory.EmptySound` | `KernelUserCommon/Libs/UserKernelUtils/UserKernelUtilsK/LinkListLib.cpp:35-45` | the sentinel linked to itself is the empty ring |
| `ListMemory.WrapExact` | `KernelUserCommon/Libs/UserKernelUtils/UserKernelUtilsK/LinkListLib.cpp:56-148` | the 32-bit counter is the number of elements below 2^32, and off by multiples of 2^32 beyond |
| `LinkList.CLinkListLib.constructor` | `KernelUserCommon/Libs/UserKernelUtils/UserKernelUtilsK/LinkListLib.cpp:177-194` | Start leaves an empty list |
| `LinkList.CLinkListLib.Shows` | `KernelUserCommon/Libs/UserKernelUtils/UserKernelUtilsK/LinkListLib.cpp:35-148` | of a valid list: the counter is its length below 2^32, and walking the links of the heap from the sentinel visits the elements in order by Flink and in reverse by Blink, and then the sentinel |
| `LinkList.CLinkListLib.ListIsListEmpty` | `KernelUserCommon/Libs/UserKernelUtils/UserKernelUtilsK/LinkListLib.cpp:47-54` | TRUE exactly for the empty sequence |
| `LinkList.CLinkListLib.ListInsertHeadList` | `KernelUserCommon/Libs/UserKernelUtils/UserKernelUtilsK/LinkListLib.cpp:80-101` | the corruption check passes and the four link writes are exactly those of an insertion behind the sentinel; the counter goes up by one in 32 bits |
| `LinkList.CLinkListLib.ListInsertTailList` | `KernelUserCommon/Libs/UserKernelUtils/UserKernelUtilsK/LinkListLib.cpp:126-148` | the same before the sentinel |
| `LinkList.CLinkListLib.DoRemove` | `KernelUserCommon/Libs/UserKernelUtils/UserKernelUtilsK/LinkListLib.cpp:281-298` | FALSE exactly when a neighbour does not point back, and then nothing changes; otherwise exactly the two link writes and the counter |
| `LinkList.CLinkListLib.PushItemHead` | `KernelUserCommon/Libs/UserKernelUtils/UserKernelUtilsK/LinkListLib.cpp:215-219` | the sequence gets the entry in front; counter and links agree with it |
| `LinkList.CLinkListLib.PushItemTail` | `KernelUserCommon/Libs/UserKernelUtils/UserKernelUtilsK/LinkListLib.cpp:244-248` | the sequence gets the entry at the end; counter and links agree with it |
| `LinkList.CLinkListLib.ListRemoveHeadList` | `KernelUserCommon/Libs/UserKernelUtils/UserKernelUtilsK/LinkListLib.cpp:56-78` | the first entry is taken out, and the corruption check never fires |
| `LinkList.CLinkListLib.ListRemoveTailList` | `KernelUserCommon/Libs/UserKernelUtils/UserKernelUtilsK/LinkListLib.cpp:103-124` | the last entry is taken out, and the corruption check never fires |
| `LinkList.CLinkListLib.PopItemHead` | `KernelUserCommon/Libs/UserKernelUtils/UserKernelUtilsK/LinkListLib.cpp:221-242` | NULL exactly for the empty list, otherwise the first entry |
| `LinkList.CLinkListLib.PopItemTail` | `KernelUserCommon/Libs/UserKernelUtils/UserKernelUtilsK/LinkListLib.cpp:250-271` | NULL exactly for the empty list, otherwise the last entry |
| `LinkList.CLinkListLib.RemoveElement` | `KernelUserCommon/Libs/UserKernelUtils/UserKernelUtilsK/LinkListLib.cpp:273-310` | TRUE exactly for a member, which is taken out; for an entry that left earlier, FALSE and nothing changes; a NULL link is followed exactly for an element that was never in a list |
| `LinkList.CLinkListLib.GetElementCommon` | `KernelUserCommon/Libs/UserKernelUtils/UserKernelUtilsK/LinkListLib.cpp:312-355` | NULL exactly when no element is accepted; otherwise the first accepted one, taken out exactly on demand |
| `CriticalSection.Keeps` | `KernelUserCommon/Libs/UserKernelUtils/UserKernelUtilsK/CriticalSection.cpp:17-81` | every step of every thread keeps the agreement between the lock's owners and the threads' places |
| `CriticalSection.DestructExact` | `KernelUserCommon/Libs/UserKernelUtils/UserKernelUtilsK/CriticalSection.cpp:55-81` | a destructor releases what its constructor took exactly when a shared body ends on the side of DISPATCH_LEVEL where it began; otherwise it releases something it does not hold; with the spin lock it gives back the IRQL of the entry, also in the exclusive case, and without it leaves the IRQL alone |
| `CriticalSection.ExclusiveRestoresIrql` | `KernelUserCommon/Libs/UserKernelUtils/UserKernelUtilsK/CriticalSection.cpp:17-81` | over any run of any threads, an exclusive call that is over has left its thread at the IRQL at which it began and out of the critical region, whatever the body did to the IRQL |
| `CriticalSection.SpinRaises` | `KernelUserCommon/Libs/UserKernelUtils/UserKernelUtilsK/CriticalSection.cpp:31-47` | a body under the spin lock begins at DISPATCH_LEVEL, and the lock has kept the IRQL of the entry |
| `CriticalSection.CallRestores` | `KernelUserCommon/Libs/UserKernelUtils/UserKernelUtilsK/CriticalSection.cpp:17-81` | on a free lock a whole call is possible, shared at every IRQL and exclusive below DISPATCH_LEVEL, and leaves the thread and the lock exactly as they were |
| `CriticalSection.ReadersOverlap` | `KernelUserCommon/Libs/UserKernelUtils/UserKernelUtilsK/CriticalSection.cpp:26-40` | shared bodies overlap: beside one below DISPATCH_LEVEL another can begin, by the ERESOURCE or by a free spin lock |
| `CriticalSection.ExclusiveIsAlone` | `KernelUserCommon/Libs/UserKernelUtils/UserKernelUtilsK/CriticalSection.cpp:17-53` | beside an exclusive body there is no other body at any IRQL |
| `CriticalSection.RunSafe` | `KernelUserCommon/Libs/UserKernelUtils/UserKernelUtilsK/CriticalSection.cpp:17-81` | over every run whose bodies restore the IRQL: nothing is released that is not held, and no exclusive body overlaps another body |
| `CriticalSection.Unblocked` | `KernelUserCommon/Libs/UserKernelUtils/UserKernelUtilsK/CriticalSection.cpp:17-53` | no deadlock: behind every waiting thread there is one that can go on, also while shared bodies have moved the IRQL |
| `CriticalSection.OwnLowersRank` | `KernelUserCommon/Libs/UserKernelUtils/UserKernelUtilsK/CriticalSection.cpp:17-81` | a thread that goes on brings the end nearer |
| `CriticalSection.Drains` | `KernelUserCommon/Libs/UserKernelUtils/UserKernelUtilsK/CriticalSection.cpp:17-81` | from every state that is reached without a faulting destructor, also one in which bodies have moved the IRQL, all threads can leave without any new call |
| `CriticalSection.RaisedBodyFaults` | `KernelUserCommon/Libs/UserKernelUtils/UserKernelUtilsK/CriticalSection.cpp:61-71` | a run in which a shared body raises the IRQL and the destructor releases a spin lock that was never taken |
| `SharedList.MicroPush` | `KernelUserCommon/Libs/UserKernelUtils/UserKernelUtilsK/LinkListLib.cpp:80-148` | every statement of a push keeps its intermediate assertion; no NULL link is read |
| `SharedList.MicroPop` | `KernelUserCommon/Libs/UserKernelUtils/UserKernelUtilsK/LinkListLib.cpp:56-124` | the same for a pop |
| `SharedList.MicroGet` | `KernelUserCommon/Libs/UserKernelUtils/UserKernelUtilsK/LinkListLib.cpp:312-355` | the same for a search; a search without removal writes nothing |
| `SharedList.MicroRemove` | `KernelUserCommon/Libs/UserKernelUtils/UserKernelUtilsK/LinkListLib.cpp:273-310` | the same for RemoveElement with the lock |
| `SharedList.MicroKeeps` | `KernelUserCommon/Libs/UserKernelUtils/UserKernelUtilsK/LinkListLib.cpp:35-355` | the same for every routine: only routines under the exclusive lock write |
| `SharedList.DonePush` | `KernelUserCommon/Libs/UserKernelUtils/UserKernelUtilsK/LinkListLib.cpp:215-219` | a finished push has put the entry into the sequence |
| `SharedList.DonePop` | `KernelUserCommon/Libs/UserKernelUtils/UserKernelUtilsK/LinkListLib.cpp:221-271` | a finished pop has taken the first or last entry and returns it |
| `SharedList.DoneGet` | `KernelUserCommon/Libs/UserKernelUtils/UserKernelUtilsK/LinkListLib.cpp:312-355` | a finished search has visited exactly the list up to the first match and returns it |
| `SharedList.DoneRemove` | `KernelUserCommon/Libs/UserKernelUtils/UserKernelUtilsK/LinkListLib.cpp:273-310` | a finished RemoveElement has taken out the entry if it was a member and otherwise changed nothing |
| `SharedList.PointDone` | `KernelUserCommon/Libs/UserKernelUtils/UserKernelUtilsK/LinkListLib.cpp:215-355` | a finished routine has done exactly its operation on the sequence |
| `SharedList.MicroEnds` | `KernelUserCommon/Libs/UserKernelUtils/UserKernelUtilsK/LinkListLib.cpp:35-355` | every statement brings the end of its routine nearer |
| `SharedList.DequeExact` | `KernelUserCommon/Libs/UserKernelUtils/UserKernelUtilsK/LinkListLib.cpp:215-271` | place by place, the push and pop operations of the sequence are those of a deque, with their results |
| `SharedList.SearchExact` | `KernelUserCommon/Libs/UserKernelUtils/UserKernelUtilsK/LinkListLib.cpp:312-355` | the search returns the first element the callback accepts, given the number of elements, and none exactly when there is none; on demand the list loses exactly that place |
| `SharedList.RemovalExact` | `KernelUserCommon/Libs/UserKernelUtils/UserKernelUtilsK/LinkListLib.cpp:273-310` | removal of an entry takes out its place exactly when it is a member |
| `SharedListRuns.StatementKeeps` | `KernelUserCommon/Libs/UserKernelUtils/UserKernelUtilsK/LinkListLib.cpp:35-355` | a statement of one thread, beside any other threads, keeps the system's invariant |
| `SharedListRuns.NobodyWrites` | `KernelUserCommon/Libs/UserKernelUtils/UserKernelUtilsK/CriticalSection.cpp:17-53` | when a thread enters the body nobody writes, so the memory it finds is the abstract list |
| `SharedListRuns.AcquireKeeps` | `KernelUserCommon/Libs/UserKernelUtils/UserKernelUtilsK/CriticalSection.cpp:17-53` | entering the body keeps the system's invariant |
| `SharedListRuns.DestructKeeps` | `KernelUserCommon/Libs/UserKernelUtils/UserKernelUtilsK/CriticalSection.cpp:55-81` | leaving the body: the operation takes effect at once for all threads |
| `SharedListRuns.RunKeeps` | `KernelUserCommon/Libs/UserKernelUtils/UserKernelUtilsK/LinkListLib.cpp:215-355` | the invariant over every interleaving |
| `SharedListRuns.Linearizable` | `KernelUserCommon/Libs/UserKernelUtils/UserKernelUtilsK/LinkListLib.cpp:215-355` | over every interleaving of any number of threads, the calls in the order they took effect are a sequential history of the deque; a call that returns does so with the result of the last event of its thread there; and the memory is the list of that history whenever nobody writes |
| `SharedListRuns.OneEventPerCall` | `KernelUserCommon/Libs/UserKernelUtils/UserKernelUtilsK/LinkListLib.cpp:215-355` | each call takes effect exactly once, between its begin and its return, and the log only grows |
| `SharedListRuns.RealTimeOrder` | `KernelUserCommon/Libs/UserKernelUtils/UserKernelUtilsK/LinkListLib.cpp:215-355` | a call that returned before another thread began its next one stands in front of it in the log: its event keeps its place, and all calls begun later take effect behind it |
| `SharedListRuns.TraversalSeesPrefix` | `KernelUserCommon/Libs/UserKernelUtils/UserKernelUtilsK/LinkListLib.cpp:312-355` | a traversal in progress has visited a prefix of the list as it was when the lock was taken, and no NULL link was read |
| `SharedListRuns.CanGoOn` | `KernelUserCommon/Libs/UserKernelUtils/UserKernelUtilsK/CriticalSection.cpp:17-81` | while a call is under way some thread has a step that brings the end nearer |
| `SharedListRuns.EveryCallReturns` | `KernelUserCommon/Libs/UserKernelUtils/UserKernelUtilsK/LinkListLib.cpp:215-355` | every call that its IRQL allows can be made from every state of every run; it takes effect once, as the operation that was asked for, and returns |
| `SharedListRuns.SearchesOverlap` | `KernelUserCommon/Libs/UserKernelUtils/UserKernelUtilsK/LinkListLib.cpp:317-320` | beside a search without removal another one can begin to walk |
| `SharedListRuns.TwoSearches` | `KernelUserCommon/Libs/UserKernelUtils/UserKernelUtilsK/LinkListLib.cpp:317-320` | from rest, any two threads below DISPATCH_LEVEL can be walking the list at the same time |
| `SharedListRuns.Drains` | `KernelUserCommon/Libs/UserKernelUtils/UserKernelUtilsK/LinkListLib.cpp:215-355` | from every state of every run, also one in which bodies have moved the IRQL, all calls can return |
| `LpcProtocol.StepKeeps` | `KernelUserCommon/Libs/LpcServer/LpcServerU/LpcServLib.cpp:266-398` | one message, with any outcome of every OS call, keeps: each allocated context and each open port belongs to exactly one slot |
| `LpcProtocol.RunKeeps` | `KernelUserCommon/Libs/LpcServer/LpcServerU/LpcServLib.cpp:209-399` | the same over any sequence of messages |
| `LpcProtocol.RunFromEmpty` | `KernelUserCommon/Libs/LpcServer/LpcServerU/LpcServLib.cpp:48-54` | the same from the empty table |
| `LpcProtocol.RequestExactly` | `KernelUserCommon/Libs/LpcServer/LpcServerU/LpcServLib.cpp:268-359` | slot by slot: a request fills the first free slot exactly when there is one, the callback agrees, told whether the process is connected, the number is 0xDEADBEEF and no call fails, and otherwise changes nothing |
| `LpcProtocol.CloseExactly` | `KernelUserCommon/Libs/LpcServer/LpcServerU/LpcServLib.cpp:360-379` | slot by slot: a close empties exactly the slot of its context and closes exactly its port |
| `LpcProtocol.TenProcesses` | `UserCommon/Apps/SecLabServ/LpcServer.cpp:107-127` | from the empty table the service lets in any ten different processes, each into its own slot |
| `LpcProtocol.UniqueSlot` | `KernelUserCommon/Libs/LpcServer/LpcServerU/LpcServLib.cpp:430-441` | a context sits in one slot only, allocated and with its port open |
| `LpcProtocol.SlotOf` | `KernelUserCommon/Libs/LpcServer/LpcServerU/LpcServLib.cpp:380-397` | a connected client has a slot with an allocated context and an open port |
| `LpcProtocol.PidsStayDistinct` | `UserCommon/Apps/SecLabServ/LpcServer.cpp:107-127` | under the service's policy no two slots ever hold the same process id, over any messages; a release build excepts ids whose low 32 bits are 4 |
| `LpcProtocol.ExemptPidTwice` | `UserCommon/Apps/SecLabServ/LpcServer.cpp:113-125` | the exception is real: such a process connects twice |
| `LpcServer.CLpcServLibU.constructor` | `KernelUserCommon/Libs/LpcServer/LpcServerU/LpcServLib.cpp:48-54` | an empty table |
| `LpcServer.CLpcServLibU.FindFreeClientSlot` | `KernelUserCommon/Libs/LpcServer/LpcServerU/LpcServLib.cpp:417-428` | the first free slot, or -1 exactly when there is none |
| `LpcServer.CLpcServLibU.FindClientSlot` | `KernelUserCommon/Libs/LpcServer/LpcServerU/LpcServLib.cpp:430-441` | the slot of the context, or negative exactly when no slot holds it |
| `LpcServer.CLpcServLibU.FindClientSlotByPid` | `KernelUserCommon/Libs/LpcServer/LpcServerU/LpcServLib.cpp:443-455` | a slot of the process, and not negative exactly when there is one |
| `LpcServer.CLpcServLibU.Decide` | `KernelUserCommon/Libs/LpcServer/LpcServerU/LpcServLib.cpp:286-310` | accepted exactly when a slot is free, the callback agrees and the magic number is right |
| `LpcServer.CLpcServLibU.HandleConnectionRequest` | `KernelUserCommon/Libs/LpcServer/LpcServerU/LpcServLib.cpp:268-359` | every exit, with its clean-up, is the protocol's step; the index -1 is never stored to |
| `LpcServer.CLpcServLibU.StoreClient` | `KernelUserCommon/Libs/LpcServer/LpcServerU/LpcServLib.cpp:357` | the new context goes to its slot and no other slot changes |
| `LpcServer.CLpcServLibU.CloseClient` | `KernelUserCommon/Libs/LpcServer/LpcServerU/LpcServLib.cpp:362-377` | the known context's port is closed and the context deleted, once; its slot alone is emptied |
| `LpcServer.CLpcServLibU.HandlePortClosed` | `KernelUserCommon/Libs/LpcServer/LpcServerU/LpcServLib.cpp:360-379` | the close of any context, known or not, or of none, is the protocol's step |
| `LpcServer.CLpcServLibU.HandleDataRequest` | `KernelUserCommon/Libs/LpcServer/LpcServerU/LpcServLib.cpp:380-397` | a request is answered through the open port of the one slot of its context |
| `LpcServer.CLpcServLibU.HandleMessage` | `KernelUserCommon/Libs/LpcServer/LpcServerU/LpcServLib.cpp:266-398` | one turn of the loop on the array is one step of the protocol for what arrived, keeps the ownership invariant, and leaves no slot for a closed context |
| `LpcServer.ClosedIsGone` | `KernelUserCommon/Libs/LpcServer/LpcServerU/LpcServLib.cpp:360-379` | after a close no slot holds the context |
| `LpcShutdown.SlotKeeps` | `KernelUserCommon/Libs/LpcServer/LpcServerU/LpcServLib.cpp:121-129` | the tear-down of a slot closes once, deletes once, then forgets |
| `LpcShutdown.HandleKeeps` | `KernelUserCommon/Libs/LpcServer/LpcServerU/LpcServLib.cpp:104-119` | the steps that handle the thread and the port keep: the open handles are exactly those the fields stand for, and nothing is closed twice |
| `LpcShutdown.CallerKeeps` | `KernelUserCommon/Libs/LpcServer/LpcServerU/LpcServLib.cpp:104-166` | the same for every step of Start and Stop |
| `LpcShutdown.LoopKeeps` | `KernelUserCommon/Libs/LpcServer/LpcServerU/LpcServLib.cpp:209-415` | the same for the loop thread |
| `LpcShutdown.RunKeeps` | `KernelUserCommon/Libs/LpcServer/LpcServerU/LpcServLib.cpp:104-415` | the same over every interleaving |
| `LpcShutdown.ReleasedExactlyOnce` | `KernelUserCommon/Libs/LpcServer/LpcServerU/LpcServLib.cpp:104-166` | over any starts and stops, failed or not: no double release; clients are torn down only without a thread; when the caller rests without a thread nothing is left open or allocated and Start can be called again |
| `LpcShutdown.StartSucceeds` | `KernelUserCommon/Libs/LpcServer/LpcServerU/LpcServLib.cpp:132-158` | when no call fails, Start ends with the loop thread at work on the new port and the exit flag clear |
| `LpcShutdown.StartExactly` | `KernelUserCommon/Libs/LpcServer/LpcServerU/LpcServLib.cpp:132-166` | in every interleaving with the loop, Start returns beside a running thread exactly when the port was created under a new name and the thread began, and otherwise with everything released |
| `LpcShutdown.StopReleases` | `KernelUserCommon/Libs/LpcServer/LpcServerU/LpcServLib.cpp:104-130` | Stop ends with no thread, no port, no client and every slot empty, whatever was going on |
| `LpcShutdown.ServesMessages` | `KernelUserCommon/Libs/LpcServer/LpcServerU/LpcServLib.cpp:209-399` | between Start and Stop the loop can take any messages, and the table is then what the protocol makes of them, one after the other |
| `LpcShutdown.EveryStepCounts` | `KernelUserCommon/Libs/LpcServer/LpcServerU/LpcServLib.cpp:104-130` | once the exit flag is set, every step of either thread brings the return of Stop nearer |
| `LpcShutdown.CanGoOn` | `KernelUserCommon/Libs/LpcServer/LpcServerU/LpcServLib.cpp:104-166` | while Start or Stop is under way some step is possible |
| `LpcShutdown.Returns` | `KernelUserCommon/Libs/LpcServer/LpcServerU/LpcServLib.cpp:104-166` | from every reachable state Start and Stop can return |
| `LpcHandshake.PeerKeeps` | `KernelUserCommon/Libs/LpcClient/LpcClientU/LpcClientLib.cpp:50-109` | the client's steps keep the invariant of the handshake |
| `LpcHandshake.RefuseKeeps` | `KernelUserCommon/Libs/LpcServer/LpcServerU/LpcServLib.cpp:321-356` | every exit of the server that turns a client away keeps it |
| `LpcHandshake.CompleteKeeps` | `KernelUserCommon/Libs/LpcServer/LpcServerU/LpcServLib.cpp:349-356` | so does the completion, after which the client runs on by itself |
| `LpcHandshake.StoreKeeps` | `KernelUserCommon/Libs/LpcServer/LpcServerU/LpcServLib.cpp:357-358` | so does the store, which still finds the slot free that was found before |
| `LpcHandshake.ClosedKeeps` | `KernelUserCommon/Libs/LpcServer/LpcServerU/LpcServLib.cpp:360-379` | so does a close, which touches no other client's slot |
| `LpcHandshake.RunKeeps` | `KernelUserCommon/Libs/LpcServer/LpcServerU/LpcServLib.cpp:209-399` | the invariant over every interleaving of clients and server |
| `LpcHandshake.Agreement` | `KernelUserCommon/Libs/LpcServer/LpcServerU/LpcServLib.cpp:268-379` | at each loop head every connection whose Start returned TRUE and whose close the server has not processed, also when its client has already stopped, owns exactly one slot, with its process id; every slot comes from an accepted request with 0xDEADBEEF; a slot without a client has its close under way |
| `LpcHandshake.Connects` | `KernelUserCommon/Libs/LpcClient/LpcClientU/LpcClientLib.cpp:50-109` | when a slot is free, the callback agrees and no call fails, a program that uses the client library gets TRUE from Start and a slot with its process id, and no other slot or client changes |
| `LpcHandshake.Disconnects` | `KernelUserCommon/Libs/LpcClient/LpcClientU/LpcClientLib.cpp:160-167` | when a started client stops and the server gets to its close, exactly its slot is free again and it can start anew |
| `LpcHandshake.AtMostTen` | `KernelUserCommon/Libs/LpcServer/LpcServerU/LpcServLib.cpp:286-291` | at each loop head at most ten clients are connected, and at most ten started connections are not yet closed by the server, those of stopped clients included |
| `LpcHandshake.OneSlotPerPid` | `UserCommon/Apps/SecLabServ/LpcServer.cpp:107-127` | over every such interleaving, at most one slot for each process id under the service's policy |
| `LpcClient.CLpcClientLibU.constructor` | `KernelUserCommon/Libs/LpcClient/LpcClientU/LpcClientLib.cpp:37-43` | no port is open |
| `LpcClient.CLpcClientLibU.Start` | `KernelUserCommon/Libs/LpcClient/LpcClientU/LpcClientLib.cpp:50-109` | TRUE exactly when the kernel accepts and the answer carries 0xCAFEDEAD; otherwise nothing stays open and the other fields are unchanged |
| `LpcClient.CLpcClientLibU.Stop` | `KernelUserCommon/Libs/LpcClient/LpcClientU/LpcClientLib.cpp:160-167` | the port is closed once, however often Stop is called |
| `CliTable.TokensJoined` | `UserCommon/Apps/CliTableGen/CliTableGen.cpp:182-194` | splitting undoes joining with the separator, for any list of tokens |
| `CliTable.TokensAreTokens` | `UserCommon/Apps/CliTableGen/CliTableGen.cpp:182-194` | no token is empty or contains the separator |
| `CliTable.TokensTake` | `UserCommon/Apps/CliTableGen/CliTableGen.cpp:187-192` | a run up to the next separator is the first token |
| `CliTable.SplitStep` | `UserCommon/Apps/CliTableGen/CliTableGen.cpp:187-192` | one turn of the loop takes exactly the next token |
| `CliTable.Split` | `UserCommon/Apps/CliTableGen/CliTableGen.cpp:182-194` | the loop returns exactly the maximal runs without the separator |
| `CliTable.GetNumOfVars` | `UserCommon/Apps/CliTableGen/CliTableGen.cpp:311-321` | the index of the type, and 0 for an unknown type as well as for the first |
| `CliTable.CreateParamsVarTypeTableArray` | `UserCommon/Apps/CliTableGen/CliTableGen.cpp:323-372` | accepts exactly the lists of two-word parameters of known types other than INT8, with CMD_LINE only alone; the codes are one more than the indices of the types |
| `CliTable.AcceptedExactly` | `UserCommon/Apps/CliTableGen/CliTableGen.cpp:336-358` | the accepted lists, type by type: every parameter is two words, the first of them one of the eight types other than INT8, or CMD_LINE alone |
| `CliTable.CreateFunctiosWrappersVars` | `UserCommon/Apps/CliTableGen/CliTableGen.cpp:196-237` | the fields are the types and names of the parameters; it fails only on a parameter that is not two words, and reads a missing first word exactly for a blank first parameter |
| `CliTable.CreateParserEntry` | `UserCommon/Apps/CliTableGen/CliTableGen.cpp:433-446` | for an accepted list the struct and the codes belong to the same parameters |
| `CliTable.TablesAgree` | `UserCommon/Libs/CliRuntimeLib/CliRuntimeLib.cpp:65-77` | the generator's and the runtime's tables name the same types at the same places, with the sizes of the fields, and no type twice |
| `CliTable.KindOfField` | `UserCommon/Libs/CliRuntimeLib/CliRuntimeLib.cpp:285` | the code of a parameter picks the runtime's entry of the same name and size |
| `CliTable.OffsetsAgree` | `UserCommon/Libs/CliRuntimeLib/CliRuntimeLib.cpp:267-314` | the runtime's write offset of every parameter is the offset of its field in the packed struct, and the last write ends with the struct |
| `CliTable.Int8Refused` | `UserCommon/Apps/CliTableGen/CliTableGen.cpp:345-350` | the runtime knows INT8, but the generator accepts no parameter of that type |
| `CliTable.BlankParameterBreaks` | `UserCommon/Apps/CliTableGen/CliTableGen.cpp:206-211` | a list of blanks has one parameter without words, so its first word is missing |
| `CliRuntime.ValuesSize` | `UserCommon/Libs/CliRuntimeLib/CliRuntimeLib.cpp:267-314` | the values of the first parameters fill the struct up to the next write offset |
| `CliRuntime.WriteParameter` | `UserCommon/Libs/CliRuntimeLib/CliRuntimeLib.cpp:285-313` | succeeds exactly when the argument is read completely; then the value stands at the cursor and what is before it is unchanged |
| `CliRuntime.WriteNext` | `UserCommon/Libs/CliRuntimeLib/CliRuntimeLib.cpp:285-313` | one turn of the loop extends the part of the struct that is written by the next value, and fails exactly when that argument does not parse |
| `CliRuntime.WriteParameters` | `UserCommon/Libs/CliRuntimeLib/CliRuntimeLib.cpp:267-314` | succeeds exactly when every argument parses, and then the struct is the values one behind the other |
| `CliRuntime.ParsesExactly` | `UserCommon/Libs/CliRuntimeLib/CliRuntimeLib.cpp:285-313` | all parameters are read exactly when each is a pointer, or the scan reads one value from all characters, at least one, of its argument |
| `CliRuntime.ProcessParameters` | `UserCommon/Libs/CliRuntimeLib/CliRuntimeLib.cpp:228-317` | for a void command TRUE exactly without arguments, for CMD_LINE always; otherwise exactly when the count matches, or exceeds it with hasExtraParams, and of every argument that is not a char* the scan reads one value and all characters; the struct then holds exactly the values |
| `CliRuntime.AcceptedIsGenerated` | `UserCommon/Apps/CliTableGen/CliTableGen.cpp:345-367` | every table row the generator emits is one the runtime can interpret, with the void and CMD_LINE rows exactly for those lists |
| `CliRuntime.ValueAt` | `UserCommon/Libs/CliRuntimeLib/CliRuntimeLib.cpp:267-314` | each value stands at its own write offset |
| `CliRuntime.FieldsHoldArguments` | `UserCommon/Libs/CliRuntimeLib/CliRuntimeLib.cpp:267-314` | across the two programs: after the runtime has filled the struct, each field of the generated struct holds the value of its own argument, and the fields are the whole struct |
| `CliArgs.HiddenOnlyNested` | `UserCommon/Libs/CliRuntimeLib/CliRuntimeLib.cpp:103-129` | a line that is not nested finds exactly the command it would find if the hidden ones were not there |
| `CliArgs.SameNameExactly` | `UserCommon/Libs/CliRuntimeLib/CliRuntimeLib.cpp:87-95` | two names are the same exactly when their upper-case forms are |
| `CliArgs.FindExactly` | `UserCommon/Libs/CliRuntimeLib/CliRuntimeLib.cpp:103-129` | a line finds the first command of its name, "?" standing for "-help", and a hidden one exactly when it is nested |
| `CliArgs.ExtraArgs` | `UserCommon/Libs/CliRuntimeLib/CliRuntimeLib.cpp:399-452` | the extra arguments are exactly those behind the parameters, one by one, behind the dummy and the given name; there are none exactly when the frame has fewer arguments than parameters, or none are known |
| `CliArgs.ChainBound` | `UserCommon/Libs/CliRuntimeLib/CliRuntimeLib.cpp:399-452` | a chain of lines, each the extra arguments of the one before, is shorter than the first line's argument count |
| `CliArgs.ChainArguments` | `UserCommon/Libs/CliRuntimeLib/CliRuntimeLib.cpp:399-452` | along a chain, the arguments of each line are those of the first line behind the parameters of all commands in between |
| `CliArgs.Parser.constructor` | `UserCommon/Libs/CliRuntimeLib/CliRuntimeLib.cpp:97-101` | no frame is on the stack |
| `CliArgs.Parser.ParserFindCommand` | `UserCommon/Libs/CliRuntimeLib/CliRuntimeLib.cpp:103-129` | the first command that the name resolves to |
| `CliArgs.Parser.PushCurrentArgsForExtraArgs` | `UserCommon/Libs/CliRuntimeLib/CliRuntimeLib.cpp:358-370` | one more frame, or the fatal error exactly at sixteen |
| `CliArgs.Parser.PopCurrentArgsForExtraArgs` | `UserCommon/Libs/CliRuntimeLib/CliRuntimeLib.cpp:372-384` | one frame less, never below none |
| `CliArgs.Parser.SetCurrentArgsNumParams` | `UserCommon/Libs/CliRuntimeLib/CliRuntimeLib.cpp:386-397` | only the top frame's number changes |
| `CliArgs.Parser.GetExtraArgs` | `UserCommon/Libs/CliRuntimeLib/CliRuntimeLib.cpp:399-452` | "dummy", the given name, and then exactly the arguments behind the parameters of the command on top, one by one; nothing exactly when there is no command on top, its parameters are not known, or it has fewer arguments |
| `CliArgs.Parser.ParserProcessLine` | `UserCommon/Libs/CliRuntimeLib/CliRuntimeLib.cpp:322-351` | a line that returns restores the whole stack, however its commands nest; its code is the command's exactly when the command is found and the arguments fit; a chain of extra arguments no longer than the stack never overflows it |
| `CliArgs.Parser.CallCommand` | `UserCommon/Apps/CliTableGen/CliTableGen.cpp:278-306` | the generated wrapper runs the command exactly when the parameters fit, leaves all lower frames unchanged, and a line it runs on its extra arguments has exactly those behind its own parameters |
| `CliArgs.Parser.RunActions` | `UserCommon/Libs/CliRuntimeLib/CliRuntimeLib.cpp:322-351` | any sequence of nested lines leaves the frames as they were, and each line on extra arguments has those of the frame on top |
| `CliArgs.Parser.RunAction` | `UserCommon/Libs/CliRuntimeLib/CliRuntimeLib.cpp:399-452` | a nested line leaves the caller's frames, so its extra arguments are the same before and after |

## Left out

- The device and minifilter drivers, `FileUtils`, `MapFile`, `RegistryUtil`, `ServiceLib` and
  `SendToService`: plumbing around kernel calls whose behaviour is not in the repository.
- Registry handles and the change of the registry in place: a key tree and a stored value are values
  or one field, and the answers of the registry are parameters.
- Key trees that change while they are deleted, and keys whose answer changes between two calls.
- Stored values, and unfilled buffers, that make the length check read past the buffer: excluded from
  the methods of `RegValue` by the exact condition of `MultiStringSpec.ParseLimitExact`. An empty stored
  value is one of them in an add. Another writer that changes the value between the two reads.
- Buffers of 2^31 cells and more, whose byte counts wrap in 32 bits.
- Allocation failure: `new` succeeds.
- The callbacks as function pointers with untyped contexts: they are cases of one type, and their
  context structs are one class. A callback from outside answers by what it has been given, and changes
  nothing that the parse reads. Callbacks of the list search are pure predicates.
- The user-mode branch of the lock (a plain CRITICAL_SECTION), and the creation and deletion of the
  lock object.
- Exclusive construction at DISPATCH_LEVEL, which the kernel forbids, and taking the lock twice by one
  thread. The order in which the kernel serves waiting threads is left open: any order is allowed.
- RemoveElement on an element of another list, which it would take out of that list. In the shared list
  also RemoveElement without the lock and on an element that was never in a list; a push of an entry that is in the list, and two
  pushes of one entry at once, which the callers have to avoid.
- Concurrent callers of the server's Start and Stop, and Start on a running server, which would lose
  the old handles. The same for Start on a connected client.
- The LPC kernel: assumed are fresh contexts and handles, no port from a failed accept, requests only
  from connected clients, and at most one close for a connection.
- The data of a request (`HandleDataRequest`, `FindBytes`), and the layout of the 32-bit and 64-bit
  messages.
- `sscanf_s` is a function from the kind and the argument to the values read, the characters read and
  the bytes; the pointer stored for a `char*` is a parameter.
- 32-bit builds, in which a `char*` field has four bytes.
- The emitted C++ text, the regular expressions that find functions, help texts and console output.
- CliArgs.Parser.ParserProcessLine: what a command does is a list of nested lines that depends on the
  command and its arguments only, and `FatalError` is an outcome instead of the end of the process.
