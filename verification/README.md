# Commotion daemon: verified cores

This project models the data structures and algorithms beneath the Commotion mesh daemon and
proves what they are for.

| part | files | what is modelled |
|---|---|---|
| Ternary search tree | `TernaryTree`, `TreeObject`, `CoTree`, `TreeRuns` | the tree as a value and as linked nodes updated in place, its refinement of a finite map, its counter |
| Tree iterator | `TreeWalk`, `WalkOrder`, `WalkRuns`, `TreeIterator` | the stateless walker that resumes from a key and compares pointers to know where it came from, and what it enumerates after any run |
| Object codec | `Bytes`, `Values`, `Decoder`, `RoundTrip`, `Counters`, `Meanings`, `Emission`, `Buffers` | the byte form of nested lists and trees, encoder and decoder, what the encoder leaves when room is short, and the buffer loops |
| Requests | `Packing`, `Demand`, `Commands`, `Rpc`, `Requests` | the request and response protocol from the caller to the dispatcher and back, and what becomes of messages that lost values |
| MD5 | `Words`, `Md5Spec`, `Md5Block`, `Md5` | the streaming implementation against RFC 1321 |
| JSON tokenizer | `JsonScan`, `JsonForest`, `JsonParse`, `JsonText`, `JsonSizes`, `Jsmn` | the resumable tokenizer whose token array doubles as a bracket stack |
| Profiles | `JsonWalk`, `Profile`, `ProfileExport`, `ProfileRoundTrip` | the importer's token walk, the exporter, and the round trip |
| Timers | `Deadlines`, `Timers`, `EventLoop`, `Alarms` | the timer queue ordered by a truncating difference, its dispatch pass, and the plugin's alarm table |
| Lists | `Sequences`, `ObjectList` | the doubly linked object list |
| Allocator | `Descent`, `Allocator` | the hierarchical allocator on weakly linked lists |

Code that updates objects or buffers in place is modelled by classes, arrays and methods, each
proved against a specification function; the laws are lemmas about those functions. Where the C
code assumes something of its callers, so do the methods: `co_tree_delete` follows NULL pointers
when the path is missing, `co_list_element` follows one for index 0 of an empty list, `hattach`
asserts that the new parent is not below the block.

## What the code does that its description does not say

* `co_tree_insert` refuses every key that is already a path, not only bound keys: a proper prefix
  of a stored key, or the path a deletion left behind (`TernaryTree.RefusedExactlyPrefixes`,
  `TernaryTree.DeletedKeyMayBeRefused`). `TernaryTree.RefusalsExactIffTight` says for which trees
  the refusals are exact.
* A forced insertion counts an overwrite as a new element
  (`TreeRuns.CounterCountsOverwritesToo`), and a tree with such a counter does not survive export
  and import (`Counters.RunComesBackIff`).
* The walker stops at the root's direct children. Enumeration is complete if and only if no key is
  there, except one that comes last anyway (`WalkOrder.EnumeratesExactly`). It also returns deleted
  keys whose nodes are still in use (`WalkRuns.DeletedKeyIsListed`, `WalkRuns.RunLists`).
* The encoder of a tree counts a key twice when it checks the room for a simple value, drops the
  value when that check fails, and reports success. So a message shorter than the buffer can be
  sent without some of its values (`Packing.PackedExactly`, `Packing.ReplyLosesItsValue`). Such a
  message announces more objects than it holds. The decoder refuses it, and the caller returns 0
  without a tree (`Demand.CutMessageIsRefused`, `Rpc.CallThroughBuffers`), unless what lies behind it
  in the buffer begins like a key, a list or a tree: the length is not checked before these are read.
  With an empty list there, the caller returns 1 without a tree (`Rpc.BareReplyIsMisread`).
* Integers of 64 bits are cut to 32 bits by their constructors. Strings and binaries whose length is
  the largest of the type are refused on import, and so are an empty string and, since the size of an
  object is computed in an `int`, everything longer than 2147483623 bytes
  (`RoundTrip.SimpleRoundTrip`). A parameter of such a length is appended as NULL
  (`Requests.StringsAppended`).
* A text the tokenizer rejects makes the importer follow a NULL token pointer; the model gives
  this ending a name of its own, `NoTokens`, and says exactly when it happens.
* `co_loop_set_timer` with a negative delay can leave negative microseconds, and such a deadline can
  stay in the queue, overdue, behind one that is not due. `Deadlines.OverlookedIffHidden` and
  `Deadlines.DelaysThatCanHide` say exactly when, `Timers.PassLeavesOverdue` is such a pass. It
  takes a delay counted from a clock reading after the one the pass works with
  (`Deadlines.OverlookedNeedsEarlierNow`).

## Model

| member | source | states |
|---|---|---|
| `TernaryTree.StoredKey` | src/obj.c:164-199 | The key object kept in a node has the length of the key and ends in NUL; it is the key itself exactly when the key ends in NUL. |
| `TernaryTree.LookupInsert` | src/tree.c:248-300 | After an insertion a search finds the new value under the inserted key and the old answer under every other key, in a tree of any shape. |
| `TernaryTree.LookupDelete` | src/tree.c:186-224 | After a deletion, with its pruning, exactly the deleted key is unbound. |
| `TernaryTree.PathInsert` | src/tree.c:248-300 | The paths after an insertion are the old ones and the prefixes of the new key. |
| `TernaryTree.InsertKeepsOrder` | src/tree.c:248-300 | Insertion keeps low < splitchar < high at every node. |
| `TernaryTree.DeleteKeepsInvariants` | src/tree.c:186-224 | Deletion keeps the order, leaves no node without both children and a value, and keeps the spelling of stored keys. |
| `TernaryTree.InsertKeepsWellFormed` | src/tree.c:302-326 | Insertion keeps all tree invariants together. |
| `TernaryTree.SetAtKeepsWellFormed` | src/tree.c:404-416 | Overwriting a bound value keeps them too, and is a map update. |
| `TernaryTree.MapIsLookup` | src/tree.c:172-184 | The finite map a tree abstracts to holds exactly what the search finds. |
| `TernaryTree.InsertIsMapUpdate` | src/tree.c:348-352 | A forced insertion is a map update. |
| `TernaryTree.DeleteIsMapRemoval` | src/tree.c:226-246 | A deletion removes one key from the map. |
| `TernaryTree.RefusedExactlyPrefixes` | src/tree.c:328-336 | In a tree nothing was deleted from, a key is refused exactly when it is a bound key or a prefix of one. |
| `TernaryTree.RefusalsExactIffTight` | src/tree.c:186-224 | The refused keys are exactly the prefixes of bound keys if and only if every node without a value has an equal child, in every ordered tree. |
| `TernaryTree.DeletedKeyMayBeRefused` | src/tree.c:186-224 | An input that shows the condition at work: after one deletion a key that is bound nowhere, and a prefix of no bound key, is refused. |
| `TreeObject.FindNodeFrom` | src/tree.c:139-170 | The cursor loop ends at the node the recursive search ends at. |
| `TreeObject.InsertR` | src/tree.c:248-300 | The in-place insertion keeps parent links and sharing-free structure, and turns the heap tree into the inserted tree value. |
| `TreeObject.DeleteR` | src/tree.c:186-224 | The in-place deletion does the same for deletion and returns the value that was bound. |
| `TreeObject.ValueWritten` | src/tree.c:360-402 | Writing one value field changes the tree value at one key only. |
| `CoTree.CoTree.Find` | src/tree.c:172-184 | co_tree_find returns the binding of the abstract map, or nothing. |
| `CoTree.CoTree.InsertForce` | src/tree.c:302-326 | A forced insertion updates the map and always moves the counter. |
| `CoTree.CoTree.InsertNew` | src/tree.c:328-336 | An insertion succeeds exactly when no node is found for the key; otherwise nothing changes. |
| `CoTree.CoTree.Delete` | src/tree.c:226-246 | A deletion of an existing path returns the value and removes only that key. |
| `CoTree.CoTree.SetValue` | src/tree.c:404-416 | The part the setters share: it succeeds exactly for bound keys and changes the value of no other key. |
| `TreeRuns.RunRefinesMap` | src/tree.c:226-358 | Over every run of insertions, forced insertions and deletions the tree is a refinement of a finite map. |
| `TreeRuns.CounterCountsOverwritesToo` | src/tree.c:106-136 | The counter minus the size of the map is the number of overwrites, less the wraps of the field, over every run. |
| `TreeRuns.CounterIsExactWithoutOverwrites` | src/tree.c:318-324 | Below the capacity the counter is the size of the map exactly when no forced insertion overwrote. |
| `TreeRuns.PathsComeFromInsertions` | src/tree.c:328-336 | Every path after a run was there before or is a prefix of an inserted key. |
| `TreeRuns.RefusalWithoutDeletions` | src/tree.c:328-336 | Over runs without deletions the refused keys are exactly the prefixes of bound keys. |
| `TreeWalk.Descend` | src/tree.c:871-893 | A step down shortens the rest of the Euler tour, so the walk ends. |
| `TreeWalk.Ascend` | src/tree.c:871-893 | A step up shortens the rest of the Euler tour, so the walk ends. |
| `WalkOrder.InsertKeepsNulShape` | src/tree.c:248-300 | Inserting NUL-terminated keys keeps the nodes that hold a key at NUL characters, with nothing low of them. |
| `WalkOrder.WalkFindsNext` | src/tree.c:871-893 | From any node the walk finds the first key ahead of it in traversal order. |
| `WalkOrder.KeysAreSorted` | src/tree.c:871-893 | Traversal order is strictly increasing lexicographic order. |
| `WalkOrder.SearchFindsKey` | src/tree.c:895-921 | The search from which a walk resumes ends at the node of its key. |
| `WalkOrder.EnumeratesExactly` | src/tree.c:871-921 | Repeated co_tree_next from NULL yields every key once, in order, and then NULL, if and only if a key on the root is alone and a key on a child of the root is the last one. |
| `WalkOrder.KeysAreListed` | src/tree.c:895-921 | The enumerated keys are those whose search ends at a node that holds a key; every bound key is among them. |
| `WalkRuns.ListedAfterDelete` | src/tree.c:186-224 | A deletion takes a key off the enumeration only together with its node. |
| `WalkRuns.DeletedKeyIsListed` | src/tree.c:208-216 | co_tree_next still returns a key that was just deleted if and only if its node has an equal or a high child. |
| `WalkRuns.RunEnumerates` | src/tree.c:871-921 | After any run of insertions, forced insertions and deletions of C strings from the empty tree: the enumeration is in order, it is complete exactly for enumerable trees, and it always is when all inserted keys have three bytes or more. |
| `WalkRuns.RunLists` | src/tree.c:871-921 | After any such run every bound key is enumerated, and besides only keys that were inserted and deleted again and whose node has an equal or a high child. |
| `TreeIterator.NextR` | src/tree.c:871-893 | Comparing the pointer the walk came from computes the same walk as remembering the direction. |
| `TreeIterator.NextKey` | src/tree.c:895-921 | co_tree_next on the heap is the successor function. |
| `TreeIterator.AllKeys` | src/tree.c:895-921 | The loop over co_tree_next visits the listed keys in increasing order, each once, and all bound keys among them. |
| `Bytes.BytesRoundTrip` | src/obj.c:369-461 | A number that fits a field is read back from its bytes. |
| `Bytes.NumberRoundTrip` | src/obj.c:527-638 | Different field contents are different numbers. |
| `Values.FirstByte` | src/obj.h:40-72 | The first byte of an encoding is the type byte of the kind of object. |
| `Values.KeyFirstByte` | src/tree.c:579-596 | A key is written as a str8. |
| `Decoder.SizeTWraps` | src/tree.c:598-613 | A size_t difference that would be negative becomes a number near 2^64. |
| `Bytes.CapacityIsExact` | src/tree.c:106-136 | A number comes back from the length field of a list or tree if and only if it is below its capacity. |
| `RoundTrip.UIntComesBack` | src/obj.c:208-237 | An unsigned integer comes back exactly when it survives the cast through 32 bits. |
| `RoundTrip.IntComesBack` | src/obj.c:208-237 | A signed integer of 64 bits comes back exactly from 0 to 2^32 - 1, narrower ones always. |
| `RoundTrip.StrComesBack` | src/obj.c:164-203 | A string comes back exactly when it is not empty, ends in NUL and is no longer than its constructor takes: 254, 65534 or 2147483623 bytes. |
| `RoundTrip.BinComesBack` | src/obj.c:45-81 | A binary comes back exactly when it is no longer than its constructor takes. |
| `RoundTrip.SimpleRoundTrip` | src/obj.c:527-638 | A simple object comes back, with any bytes behind it, if and only if it is in the domain. |
| `RoundTrip.PairsPutPrefixesFirst` | src/tree.c:579-617 | Pre-order emission lists every key before the keys it is a proper prefix of, so none is a path when its turn comes. |
| `RoundTrip.PairsComeBack` | src/tree.c:682-722 | Importing the emitted pairs is never refused and builds the tree of these insertions. |
| `RoundTrip.ListComesBack` | src/list.c:562-609 | A list of values that come back comes back element by element. |
| `RoundTrip.DictComesBack` | src/tree.c:655-729 | A tree of values that come back is imported whole, and the final count check holds. |
| `RoundTrip.EncodedComesBack` | src/obj.c:527-638 | The round trip, for every nested value of the domain, with exactly the encoded length consumed. |
| `Counters.CountTooHigh` | src/tree.c:682-722 | A tree whose counter is above the number of its bound nodes is refused by the import when nothing follows it. |
| `Counters.CountTooLow` | src/tree.c:682-722 | One whose counter is below that number is imported with its first pairs only, and fewer bytes are reported than were written. |
| `Counters.ComesBackIffCounted` | src/tree.c:682-722 | A tree comes back if and only if its counter is the number of its bound nodes. |
| `Counters.BoundIsSize` | src/tree.c:579-617 | The number of bound nodes is the size of the map. |
| `Counters.RunComesBackIff` | src/tree.c:318-324 | A tree reached from the empty one by any run short of the capacity comes back if and only if no forced insertion overwrote a bound key. |
| `Meanings.RebuiltMeansTheSame` | src/tree.c:682-722 | The rebuilt trees may have another shape but are equal as maps, at every level of nesting. |
| `Meanings.CodecRoundTrip` | src/obj.c:527-638 | Importing raw(v) followed by any bytes gives a value with the same meaning and returns the length of raw(v). |
| `Buffers.SimpleRaw` | src/obj.c:369-461 | co_obj_raw and the copy of its callers: the encoding of a simple object is put at the cursor exactly when it is shorter than the room told of, and nothing else is written. |
| `Buffers.ListRaw` | src/list.c:502-559 | co_list_raw leaves in the buffer, and returns, exactly what Emission.Emitted says for the room it is told of; nothing outside the encoding is touched. |
| `Buffers.TreeRaw` | src/tree.c:619-653 | co_tree_raw does the same for a tree, an entry without room being skipped with all that is below its node. |
| `Emission.EmittedExactly` | src/list.c:502-559 | What the encoders emit for a value in a given room is the whole encoding exactly when Fits holds, and otherwise nothing or fewer bytes. |
| `Emission.ClearIsFit` | src/tree.c:598-613 | For an encoding shorter than the room, Fits says this of the tree entries only: a simple value needs its own end and the length of its key once more below the end of the buffer. |
| `Emission.TreeFreeIsClear` | src/list.c:525-551 | Values without trees lose nothing: for them the length alone decides. |
| `Emission.AmpleRoom` | src/tree.c:598-613 | With 257 bytes to spare nothing is lost in any tree. |
| `Packing.PackedExactly` | src/msg.c:63-228 | A message is packed whole if and only if it is shorter than the buffer and no tree in it loses a value; otherwise -1 or fewer bytes. |
| `Packing.TreeFreeMessageFits` | src/msg.c:63-228 | A message without trees is packed whole if and only if it is shorter than the buffer and the buffer has the least length the code asks for. |
| `Packing.ReplyLosesItsValue` | src/tree.c:598-613 | A reply of one entry that is shorter than the buffer by less than the length of its encoded key is sent as a header, a count of 1 and the bare key; with that much to spare it is sent whole. |
| `Demand.ItemStays` | src/obj.c:527-638 | When bytes announce more objects than they hold, the decoders, told their length, go on behind an object at one of those announced and never beyond the bytes, whatever lies behind, unless a key or the head of a list or tree begins there. |
| `Demand.EmittedNeeds` | src/tree.c:579-653 | Whatever the encoders emit for a value in a given room announces m objects more than it holds, and m is 0 only for the whole encoding. |
| `Demand.CutMessageIsRefused` | src/list.c:561-609 | What is packed of a message that does not fit is refused by co_list_import, with anything behind it that does not begin like a key, a list or a tree. |
| `Rpc.BareReplyIsRefused` | src/commotion.c:205-229 | Such a reply is refused by the caller: the nil behind the bare key is taken for its value, the message ends too early, and co_call returns 0 without a tree. What lies behind it in the receive buffer is arbitrary but for its first byte, which is none of d9 and dc to df. |
| `Rpc.BareReplyIsMisread` | src/commotion.c:205-229 | With the bytes dc 00 00 behind it, and any others after them, the empty list there is read as the fourth part although the length is used up, and co_call returns 1 without a tree. |
| `Buffers.ImportList` | src/list.c:561-609 | The import loop with its cursor computes the decoder function. |
| `Buffers.ImportTree` | src/tree.c:655-729 | The import loop over key-value pairs computes the decoder function. |
| `Buffers.ImportItem` | src/obj.c:527-638 | The dispatch on the type byte computes the decoder function. |
| `Packing.MessageLayout` | src/msg.c:63-228 | The hand-written message bytes are the codec's encoding of a list of four. |
| `Rpc.RequestIds.RequestAlloc` | src/msg.c:63-142 | Leaves in the buffer, and returns, exactly what Packing.Packed says; that is the whole request if and only if it fits; the id counter moves once. |
| `Rpc.ResponseAlloc` | src/msg.c:144-228 | The same for the response, with the id given. |
| `Commands.DataIsEncoded` | src/obj.c:462-525 | The data of an object is what its byte form ends with, behind the type byte and the length; nil, booleans, lists and trees have none. |
| `Commands.NamedCommandRuns` | src/cmd.c:109-121 | A request names a command by a C string; it runs the command bound to the string without its NUL, or fails if none is. |
| `Commands.NamelessFails` | src/cmd.c:109-121 | An object without data, or with empty data, names no command. |
| `Commands.InsertedCommandRuns` | src/cmd.c:98-121 | A command inserted under a name is run by requests for that name, and requests for other names do what they did. |
| `Commands.FirstRegistrationRuns` | src/cmd.c:98-121 | After any registrations a request runs the first command registered under its name, whatever was registered later, if no name registered before begins with it. |
| `Commands.UnregisteredFails` | src/cmd.c:109-121 | A request for a name that was never registered fails without an output. |
| `Rpc.MessageComesBack` | src/msg.c:63-228 | A packed message is imported as a list of four with the same id and parts. |
| `Rpc.RequestIsServed` | src/daemon.c:725-759 | Dispatching a packed request runs the command that is bound to the name in it, on parameters of the same meaning; for a name that is bound to none the call fails. |
| `Rpc.OddMessagesAreDropped` | src/daemon.c:741-744 | Lists of another length than four are dropped by the daemon and refused by the caller; messages of another kind and ids of another width are dropped by the daemon. |
| `Rpc.IncorrectCommandSays` | src/daemon.c:752-756 | The reply to a failure without an output is a tree16 that binds "error" to "Incorrect command.", both with their NUL. |
| `Rpc.ReplyIsReceived` | src/commotion.c:205-229 | A reply makes co_call return 1 with the result tree or 0 with the error tree. |
| `Rpc.CallEndToEnd` | src/commotion.c:185-236 | From call to answer on the bytes of whole messages, with what the command bound to the name returns for parameters of the same meaning: 1 with its output when it succeeds, 0 with its error tree otherwise, and with the tree for an incorrect command when it left none or there is no such command; the reply carries the request's id and exactly one nil. |
| `Rpc.CallThroughBuffers` | src/daemon.c:709-773 | The same through the buffers of both ends, 65536 bytes at the caller and 4096 at the daemon, with any bytes behind both messages: the daemon sends the whole reply if and only if the reply fits, and then co_call returns it. If it does not fit, co_call returns 0 without a tree, whenever the first byte behind the answer is none of d9 and dc to df. |
| `Rpc.CutRequestIsRefused` | src/daemon.c:727-743 | A request that loses values in the buffer of the caller is not dispatched and gets no answer, and co_call returns 0 without a tree; behind the request lie such bytes, as zeros are, with which the daemon fills its buffer. |
| `Rpc.LongMessageIsCut` | src/daemon.c:713-727 | Of a message longer than 4096 bytes the daemon sees the first 4096. |
| `Rpc.DispatcherCb` | src/daemon.c:709-773 | The dispatcher with its buffer of 4096 bytes: what it sends is what is packed of the response the specification asks for, which is the whole response if and only if it fits. |
| `Rpc.CoCall` | src/commotion.c:185-236 | co_call with its buffers of 65536 bytes: what it sends, which is the whole request if and only if that fits, and that it returns what the specification makes of the peer's bytes with anything behind them. |
| `Requests.StringsAppended` | src/commotion.c:129-141 | The narrowest string type is chosen and its value is encodable, except for the lengths 0, 255, 65535 and those from 2147483624 on, which append NULL, and those refused. |
| `Requests.BinariesAppended` | src/commotion.c:143-155 | The same for binaries, with the lengths 255, 65535 and those from 2147483624 on. |
| `Requests.IntegersAppended` | src/commotion.c:157-169 | Every int becomes an encodable integer of the narrowest type that holds it. |
| `Requests.UnsignedAppended` | src/commotion.c:171-183 | Every unsigned int becomes an encodable integer of the narrowest type that holds it. |
| `Words.SameBits` | src/extern/md5.c:51-63 | Words with the same 32 bits are equal. |
| `Md5Block.FastFIsF` | src/extern/md5.c:51-51 | The optimised F is the F of section 3.4 of RFC 1321. |
| `Md5Block.FastGIsG` | src/extern/md5.c:52-52 | The optimised G is the G of section 3.4 of RFC 1321. |
| `Md5Spec.RoundFunctionBits` | src/extern/md5.c:43-55 | What F, G, H and I do to each bit: F selects by x, G by z, H is parity, I is y against x or not z. |
| `Md5Spec.WordHolds` | src/extern/md5.c:68-87 | Word k of a block holds its bytes 4k to 4k + 3, the low-order byte first. |
| `Md5Spec.WordsAreTheBlock` | src/extern/md5.c:68-87 | Blocks with the same sixteen words are the same. |
| `Md5Spec.DigestHolds` | src/extern/md5.c:276-291 | The sixteen bytes of the result are those of a, b, c and d in this order, the low-order byte first. |
| `Md5Block.H2IsH` | src/extern/md5.c:53-54 | Both groupings of H agree. |
| `Md5Block.TurnedIsRotate` | src/extern/md5.c:60-63 | The two masked shifts are a circular shift. |
| `Md5Block.StepIsTurn` | src/extern/md5.c:60-63 | The STEP macro computes b + ((a + f + x + t) <<< s). |
| `Md5Block.Round1` | src/extern/md5.c:113-129 | The sixteen written-out steps are round 1 of the RFC, constants, word indices and shifts included. |
| `Md5Block.Round2` | src/extern/md5.c:131-147 | The sixteen written-out steps are round 2 of the RFC. |
| `Md5Block.Round3` | src/extern/md5.c:149-165 | The sixteen written-out steps are round 3 of the RFC. |
| `Md5Block.Round4` | src/extern/md5.c:167-183 | The sixteen written-out steps are round 4 of the RFC. |
| `Md5.Md5Ctx.Body` | src/extern/md5.c:93-198 | The block loop chains the block function over all blocks. |
| `Md5.CarryTest` | src/extern/md5.c:216-219 | The masked sum is below the old counter exactly when it wrapped. |
| `Md5.CounterMoves` | src/extern/md5.c:216-219 | After an update hi * 2^29 + lo is the total length modulo 2^61. |
| `Md5.Md5Ctx.Update` | src/extern/md5.c:211-243 | An update appends to the message: whole blocks are absorbed, the rest waits in the buffer, the counter agrees. |
| `Md5.CounterBytes` | src/extern/md5.c:264-272 | The eight bytes stored last are the length in bits modulo 2^64, low byte first. |
| `Md5.ShortOfRoom` | src/extern/md5.c:255-262 | When fewer than eight bytes are left the padding goes on through one more block. |
| `Md5.PaddedSplit` | src/extern/md5.c:247-262 | The bytes in the buffer and the padding are the end of the padded message. |
| `Md5.Md5Ctx.Final` | src/extern/md5.c:245-294 | The result is the digest of everything added, by sections 3.1 to 3.5 of RFC 1321, and the context is cleared. |
| `Md5.DigestOfPieces` | src/extern/md5.c:200-294 | For every way of cutting a message into pieces the digest is that of the whole. |
| `JsonScan.ScanFindsClosingQuote` | src/extern/jsmn.c:82-129 | The string scanner stops at a quote exactly when the text before it is quotable. |
| `JsonForest.FeedAppends` | src/extern/jsmn.c:140-228 | Every lexeme the parser takes extends what the open forest is written with by that lexeme. |
| `JsonForest.CountsChild` | src/extern/jsmn.c:144-151 | Counting a child changes the size of the superior token only. |
| `JsonForest.ClosesBranch` | src/extern/jsmn.c:176-200 | Closing a container sets the end of the innermost open token, and the superior becomes the one around it. |
| `JsonForest.LastOpen` | src/extern/jsmn.c:176-200 | The superior token is the last open one, or -1. |
| `JsonParse.ReadAcceptsForests` | src/extern/jsmn.c:134-244 | Parsing succeeds with a forest if and only if there is no lexical error and the lexemes are what the forest is written with. |
| `JsonParse.SucceedsIffBalanced` | src/extern/jsmn.c:134-244 | Success exactly when scanning finds no error and the brackets balance with matching kinds. |
| `JsonParse.TokensAreLaminar` | src/extern/jsmn.c:140-243 | On success starts strictly increase and the intervals are nested or disjoint and inside the text. |
| `JsonParse.TokensFitCharacters` | src/profile.c:212-220 | There are never more tokens than characters. |
| `JsonSizes.SizesCountChildren` | src/extern/jsmn.c:150-151 | On success the size of every token is the number of tokens whose innermost container it is. |
| `JsonText.AcceptsWhatIsSpelled` | src/extern/jsmn.c:37-244 | Which texts are accepted, and as which forest, said of their characters alone: strings between quotes, primitives up to a blank or a closing bracket, containers between brackets of one kind, and blanks between them. Parsing succeeds with a forest if and only if the text is written like this. |
| `JsonText.TokensHoldTheText` | src/extern/jsmn.c:37-244 | On success every object token starts at an opening and ends behind a closing brace, every array token so at brackets, every string token lies between quotes, every primitive token holds no blank and no closing bracket and ends before one or at the end of the text; every other character is a bracket, a quote or a blank. |
| `Jsmn.Parser.ParseString` | src/extern/jsmn.c:82-129 | In place: one filled token, or everything as before on a fault or when tokens run out. |
| `Jsmn.Parser.ParsePrimitive` | src/extern/jsmn.c:37-77 | In place: one filled token, or everything as before. |
| `Jsmn.Parser.OpenBranch` | src/extern/jsmn.c:144-158 | In place: a new open token, counted by its parent. |
| `Jsmn.Parser.CloseBranch` | src/extern/jsmn.c:159-206 | The two backward scans close the innermost open container if its kind matches and find the next one. |
| `Jsmn.Parser.Parse` | src/extern/jsmn.c:134-244 | The token array is the layout of the forest read so far; out of tokens, the call stops where a later call goes on as if it had not stopped. |
| `Jsmn.Tokenize` | src/profile.c:203-229 | Growing and calling again terminates and gives the code, tokens and sizes of a single run with enough tokens. |
| `JsonWalk.CountdownSeesForest` | src/profile.c:271-279 | The countdown over the tokens of any forest uses up exactly its tokens. |
| `JsonWalk.CountdownSeesFirstTree` | src/profile.c:271-279 | Started at 1 it sees exactly the tokens of the first tree. |
| `Profile.SetStr` | src/profile.c:482-493 | Sets exactly the bound string settings the text fits, and creates no key. |
| `Profile.Stringify` | src/profile.c:231-235 | Cutting a string off with a NUL leaves everything behind it in the buffer as it was. |
| `Profile.ImportTokens` | src/profile.c:271-334 | The token walk stays within the tokens, ends, and does to the profile what the children of the root object say. The states it sees its tokens in are START, then KEY and VALUE in turn, never STOP; a walk that succeeds sees exactly the tokens the countdown from 1 sees, those of the root object. |
| `Profile.ImportText` | src/profile.c:260-346 | The import of a text: which texts are rejected, and the profile afterwards. |
| `Profile.SettleNeedsStringPairs` | src/profile.c:284-334 | A page is imported whole exactly when the children of its object are strings and come in pairs. |
| `Profile.SettleMakesAssignments` | src/profile.c:296-320 | It makes the assignments of the page in order, up to a fault if there is one. |
| `Profile.LongTextIsRefused` | src/tree.c:366-402 | A text is stored in a string setting exactly when it is shorter than 256, 65536 or 4294967296 bytes, by the width of its length field. |
| `Profile.ImportKeepsTextsFit` | src/tree.c:366-402 | So after any import every string setting is no longer than its type allows. |
| `Profile.ImportKeepsSchema` | src/profile.c:303-309 | An import keeps the keys of the profile and the types of its values. |
| `Profile.LastDuplicateWins` | src/profile.c:303-309 | A setting ends up with the last text that fits it, or with what it held. |
| `ProfileExport.VisitWritesLines` | src/profile.c:648-676 | The recursive export writes the settings line by line in visiting order. |
| `ProfileExport.Export` | src/profile.c:678-695 | The file is the object with these lines. |
| `ProfileRoundTrip.LineIsRead` | src/extern/jsmn.c:82-129 | A line is read as a key string and a value string at their places. |
| `ProfileRoundTrip.ExportIsRead` | src/profile.c:678-695 | The exported text is accepted as one object, whatever the comma count says. |
| `ProfileRoundTrip.PlainIsPrintedWhole` | src/profile.c:648-676 | The C strings that end at their first NUL are exactly the texts that are printed whole. |
| `ProfileRoundTrip.ProfileComesBack` | src/profile.c:648-695 | Exporting and importing into a profile of the same schema gives the same map if the string scanner takes every key and text whole, and if the profile differs in every setting, only then. |
| `ProfileRoundTrip.ProfileComesBackIffQuotable` | src/profile.c:648-695 | It gives the same map over every profile of the schema if and only if the scanner takes every key and text whole: the exporter escapes nothing, and an import stores only what the scanner took. |
| `Deadlines.EqualIsNotTransitive` | src/loop.c:127-132 | The truncating difference is not a total order: "equal" is not transitive. |
| `Deadlines.StrictlyBeforeIsEnough` | src/loop.c:127-132 | What the queue relies on instead: diff(x, n) >= 1 implies diff(n, y) <= diff(x, y). |
| `Deadlines.OverlookedIffHidden` | src/loop.c:209-222 | A deadline can be overdue behind one that is not due if and only if both are in the same second, it has negative microseconds and the other has less than 1000 more. |
| `Deadlines.HiddenBehindDeadlines` | src/loop.c:456-474 | Behind a deadline that a delay of at least zero gives, that takes microseconds between -1000 and 0, both excluded. |
| `Deadlines.HiddenBehindAny` | src/loop.c:456-474 | Behind any deadline that can be set, it takes negative microseconds. |
| `Deadlines.DelaysThatCanHide` | src/loop.c:456-474 | The same for the caller: which clock reading and delay give such a deadline. |
| `Deadlines.OverlookedNeedsEarlierNow` | src/loop.c:209-222 | And then only a pass whose now was read before the delay was counted from overlooks it. |
| `Deadlines.NotEarly` | src/loop.c:209-222 | A timer found due is less than 1000 microseconds early. |
| `Deadlines.AfterIsExact` | src/loop.c:456-474 | co_loop_set_timer computes the exact deadline, and which delays leave the microseconds in range. |
| `Deadlines.SettableIsReachable` | src/loop.c:456-474 | Exactly the deadlines with microseconds from -999000 to 1000000 can be set, and exactly those from 0 on with a delay that is not negative. |
| `Timers.EffectIs` | src/loop.c:397-474 | What an action of a callback does: when the timer is queued afterwards, with which deadline, and that no other timer is touched. |
| `Timers.EarlierIsFirstLater` | src/loop.c:413-418 | The place of a new timer is before the first one that is later. |
| `Timers.LastSetIsQueued` | src/loop.c:209-222 | A timer set by the last action of the last callback of a pass has its new deadline at the end, and is queued exactly when co_loop_set_timer accepts it. |
| `Timers.PeriodicTimerStays` | src/loop.c:209-222 | A timer that is alone in the queue and sets itself again is there with its new deadline after the pass. |
| `Timers.PassLeavesOverdue` | src/loop.c:456-474 | A pass that ends with an overdue timer in the queue, set a millisecond back by the callback it fired. |
| `EventLoop.InsertKeepsOrder` | src/loop.c:397-427 | Inserting before the first later deadline keeps all pairs ordered and all pointers distinct. |
| `EventLoop.Loop.AddTimer` | src/loop.c:397-427 | When a timer is queued, before the first one that is later, and that nothing changes otherwise. |
| `EventLoop.Loop.RemoveTimer` | src/loop.c:429-446 | Removes exactly that timer, exactly when it is pending. |
| `EventLoop.Loop.SetTimer` | src/loop.c:456-474 | The state afterwards is what Timers.Effect says: the timer is taken out if it is there and queued again at the place of its new deadline if it is accepted. |
| `EventLoop.Loop.ProcessTimers` | src/loop.c:209-222 | For any callbacks, with any delays: at the end no queued deadline is at or before now but those hidden behind the first one, and none at all if no delay was counted from a clock reading after now; none fired 1000 microseconds early, every firing uses up one scheduling; with callbacks that queue only later deadlines there are no more firings than due timers. What is queued at the end, all deadlines and what was fired are what Timers.Pass says of any script of callbacks: turn by turn the first timer is taken out and every action of its callback carried out. |
| `EventLoop.LeftOver` | src/loop.c:209-222 | What a sorted queue whose first deadline is not due can hold that is due, in exact microseconds. |
| `Alarms.MomentIsExact` | plugins/serval-dna/serval-dna.c:196-203 | The deadline of an alarm is its time in milliseconds, to the microsecond and with microseconds from 0 to 999999; for times at or before the epoch it is zero. |
| `Alarms.Plugin.Schedule` | plugins/serval-dna/serval-dna.c:161-216 | When an alarm is scheduled, that table and queue change together or not at all, and that the new timer goes off at the time of the alarm. |
| `Alarms.Plugin.Unschedule` | plugins/serval-dna/serval-dna.c:219-237 | Removes the alarm and its timer, exactly when it is in the table. |
| `Alarms.Plugin.TimerCallback` | plugins/serval-dna/serval-dna.c:138-158 | Finds its alarm and restores the agreement of table and queue. |
| `Alarms.Plugin.Dispatch` | src/loop.c:209-222 | One firing keeps the table equal to the pointers of the plugin's pending timers. |
| `Alarms.Plugin.Run` | plugins/serval-dna/serval-dna.c:138-237 | Over every sequence of these steps the alarms are exactly those pointers, each once, and each step does to table and queue what Alarms.Stepped says, with the moment each alarm asks for. |
| `ObjectList.ObjList.FindNode` | src/list.c:219-270 | Finds the node of an object exactly when the sequence holds it. |
| `ObjectList.ObjList.Parse` | src/list.c:232-247 | The first result of the iterator that is not NULL. |
| `ObjectList.ObjList.Element` | src/list.c:482-500 | The element at an index, or NULL behind the end. |
| `ObjectList.ObjList.InsertBefore` | src/list.c:272-300 | Inserts before the given object, exactly when that is there and the new one is not. |
| `ObjectList.ObjList.InsertAfter` | src/list.c:332-360 | Inserts after the given object, under the same condition. |
| `ObjectList.ObjList.Prepend` | src/list.c:392-406 | Puts an object in front. |
| `ObjectList.ObjList.Append` | src/list.c:424-438 | Puts an object at the end. |
| `ObjectList.ObjList.Delete` | src/list.c:456-480 | Removes an object and returns it, or NULL. |
| `ObjectList.InsertedIsChained` | src/list.c:281-295 | The pointers around a new node form one chain in both directions. |
| `ObjectList.RemovedIsChained` | src/list.c:463-471 | So do the pointers around a removed node. |
| `Sequences.InsertionAndRemoval` | src/list.c:272-480 | Deleting what was inserted gives the old list back, and the reverse. |
| `Descent.AttachIsAcyclic` | src/extern/halloc.c:103-138 | Attaching closes no cycle if and only if the new parent is neither the block nor below it. |
| `Descent.SiblingsAreApart` | src/extern/halloc.c:235-253 | The subtrees of siblings have nothing in common. |
| `Descent.ChildrenSweepAll` | src/extern/halloc.c:235-253 | The children and what is below them are all descendants. |
| `Allocator.Heap.Alloc` | src/extern/halloc.c:71-90 | A new block is in no list and has no children. |
| `Allocator.Heap.HlistDel` | src/extern/hlist.h:110-120 | Unlinks a block from any list, or from none, and keeps every other link consistent. |
| `Allocator.Heap.HlistAdd` | src/extern/hlist.h:99-108 | Makes a block the first child and keeps every other link consistent. |
| `Allocator.Heap.Relink` | src/extern/hlist.h:122-133 | When reallocation has moved an attached block, the links in its list and in that of its children are consistent again, at its new place, and its old place is not touched. |
| `Allocator.Heap.Attach` | src/extern/halloc.c:111-139 | hattach keeps an acyclic forest with consistent back pointers, changes one parent only, and makes the block the first child. |
| `Allocator.Heap.Relate` | src/extern/halloc.c:214-233 | Decides proper descent. |
| `Allocator.Heap.FreeChildren` | src/extern/halloc.c:235-253 | Gives back all descendants once each; it reads pointers only through HeadOf and NextOf, which demand that the block is still held. |
| `Allocator.Heap.Free` | src/extern/halloc.c:58-109 | Releases the block and its descendants and leaves the rest of the forest as it was. |
| `Allocator.AgreePruned` | src/extern/halloc.c:235-253 | What remains after a subtree is gone is a hierarchy again. |

## Left out

- Sockets, epoll, signals, processes, files and the clock: file contents are character sequences, messages arrive whole, and clock readings are parameters.
- Reference counts, and the attachment of values to tree nodes and list nodes: trees and lists own plain values here, and the allocator is modelled by itself.
- Key objects: `co_tree_next` takes the contents of a key where the C code takes the object.
- Character signedness and byte order: nothing in the tree depends on whether `char` is signed; the codec takes it as unsigned and the host as little-endian.
- Malformed input: the decoder fails where the C code would read past its input.
- Fixed integers, ext objects and floating-point arithmetic: floats are kept as their bytes.
- NULL elements of lists and requests: they have no encoding; `Requests` says when one is appended.
- Parameters of a request that are not a list: `src/msg.c` packs them in another way.
- Out-of-memory endings: allocation succeeds.
- Reallocation but for the links of an attached block, which are in Allocator.Heap.Relink: the forest with the moved block in it, and blocks in no list.
- The 16-bit length of a list beyond its limit: insertion into a full list, after which the length reads 0, is excluded by a precondition.
- Iterators that delete from the list they are walking.
- Integer settings of profiles, profile lookup by name, printing and the olsrd output.
- The characters behind the first NUL of a file, and texts of 2^31 characters or more: a text ends at its NUL, and token positions do not overflow.
- CoTree.CoTree.SetValue: the refusals of the setters for another type or a value that does not fit are not in it; those of the string setter are in Profile.SetStr.
- Buffers.ListRaw: the destination is assumed to have room for the whole encoding unless the list holds simple objects only, since headers of inner lists and keys of trees are written unchecked; the length given by the caller may be smaller.
- Buffers.TreeRaw: the destination is assumed to have room for the whole encoding, for the same reason.
- Rpc.ResponseAlloc: a response longer than the buffer is not covered, since the code writes it past the end before it looks; one that just fits is.
- Rpc.DispatcherCb: a response longer than the 4096 bytes of the buffer is not covered, for the same reason.
- Rpc.RequestIds.RequestAlloc: a request longer than the buffer is covered when its parameters are simple objects, for the same reason.
- Rpc.CoCall: the same; and the transport is taken to refuse the length (size_t)-1.
- Overflow of the microseconds and seconds of a deadline.
- EventLoop.Loop.ProcessTimers: callbacks act through a script fixed in advance, one entry a firing; it is arbitrary but finite.
- Alarms.Plugin.TimerCallback: the alarm's own function is not called; what it does to the table is part of the following steps of a run.
- Profile.ImportText: the two importers are one, on the profile they are given; adding a new profile to the list of profiles is not part of it.
- ProfileRoundTrip.ProfileComesBack: keys and values are C strings that end at their first NUL, and keys are not empty.
- Rpc.CutRequestIsRefused: requests longer than the 4096 bytes of the daemon's buffer, of which it imports the first 4096, are not in it.
