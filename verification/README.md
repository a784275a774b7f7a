# rz: a model of the tracker, the clients' piece exchange and their containers

This project models the core of a small peer-to-peer file sharing system and
proves what it keeps. The system has a C tracker (a poll thread and detached
request handlers over hand-written containers), a Java client that exchanges
file pieces with other clients, and a second tracker in C++ whose buffered
sockets are modelled here.

| file | what it models |
|---|---|
| UtHash, StableSort, Bits | the intrusive hash index: bucket chains and application order over the same nodes, doubling in place, merge sort in place |
| HashTable | the string-keyed table over the index |
| CursorList, Reversal | the singly linked list with a cached cursor |
| Protocol, ProtocolInvariants, KeyReuse, Network | the tracker's poll and handler protocol as a step relation, its invariants over every run, what the reuse of a connection key leads to, and the arrays and counts updated in place |
| BitSet, PieceFile, Wire, Peer | the client's bitmap, piece file, character framing and messages |
| RingBuffer, ClientSocket | the ring buffer and the one-shot socket writer of the C++ tracker |
| StringSplit, LookQuery, LookProcessor, SeedText, Decimal | text protocols: splitting, look queries, announcements and list replies |
| YamlEvents, YamlParser | the YAML tree builder over parser events, and its bounded stack |

Code that changes objects step by step is modelled by classes and methods in
the same form; the functions they are proved against carry the theorems.

## What the code does not do

Some properties one would expect are false of the code. For each the model
keeps the code as it is, and the contract says exactly when the property holds.

- A connection whose `address:port` key belongs to a client that is still held
  attaches to that old client, whose old socket is listened to again. Two
  handlers can come to read one socket from there if and only if that client
  still has a handler that reads or a slot without a pending hang-up
  (AcceptLeadsToTwoReadersIff, HarmlessRunsHaveOneReader, ReuseGivesTwoReaders).
- `list_remove_value` does not look at the element after one it removed
  (RemoveSkipIsFilterIff).
- `getPieceCount` casts before it divides, and is wrong once length plus piece
  size exceeds 31 bits (PieceCountRightIff).
- `writeToFd` forgets the first segment of a wrapped buffer when that goes out
  whole and the second does not: those bytes are sent twice (WriteToFd, Serve,
  ShortFlushRepeats).
- `contains` finds nothing in a full buffer whose positions coincide, and
  `readUntil` jumps to the start of the array after a delimiter found before
  the wrap (Contains, ReadUntil).
- Growing by a half leaves a capacity of 0 or 1 as it is, so the growth loops
  would not end there (GrowsByHalf).
- A writer whose flush fails with EAGAIN is not armed again until the next
  write (Serve, StalledIff).
- Criteria with a negative size compare as huge unsigned numbers under the
  order operators, and a criterion text may contain an operator with a quote
  (SizeMeansIff, HonouredIff).
- Key criteria filter nothing: a request finds what it asks for if and only if
  the files that satisfy its other criteria all have the keys it names
  (KeyMeansIff, LookIsMeantIff).
- File sizes of 4 GiB and more are truncated in an announcement, and a size that
  is no Java int spoils a whole list reply (SeedRoundTripIff, ReplyRoundTripIff).
- The YAML builder does not clear its key flag after a sequence that is a
  mapping value, and a push on its full stack, scalars included, is ignored
  (ParseIff, SequenceAsValueFails).

## Model

| member | source | states |
|---|---|---|
| UtHash.Index.AddKeyptr | cutil/uthash.h:185-208 | adding an item keeps every chain and the application list linked both ways, every item in the bucket its masked hash names, counts and bucket numbers right, and appends the item; the first item makes 32 buckets, and afterwards they double exactly when growth has not stopped and the item's chain reaches ten times its multiplier plus one; otherwise one count is raised and nothing else of the table changes |
| UtHash.Index.NoExpandIff | cutil/uthash.h:718-727 | through any history of a table, growth has stopped if and only if two doublings in a row left more than half of the items past the ideal length, and there are 32 buckets doubled once for each recorded growth |
| UtHash.Index.Delete | cutil/uthash.h:227-260 | deleting an item keeps the same invariant and removes exactly that item from the order; the buckets, their multipliers and what is known about growth stay, one count is lowered; deleting the last item empties the index; the item may be added again |
| UtHash.Index.Find | cutil/uthash.h:106-117 | finds an item with the key if and only if one is in the index |
| UtHash.Index.LinkLast | cutil/uthash.h:188-201 | links the item behind the last one, or makes the table for the first; the buckets still hold the other items |
| UtHash.Index.MakeTable | cutil/uthash.h:153-170 | a table of 32 empty buckets |
| UtHash.Index.Fsck | cutil/uthash.h:290-340 | the header's own integrity check, on any index whose forward links end, accepts exactly those where all back pointers of the chains and of the application order are right, every bucket's count is the length of its chain, and both totals are num_items |
| UtHash.Index.ValidIsConsistent | cutil/uthash.h:290-340 | every index that meets the invariant is accepted by that check |
| UtHash.Index.CountsAgree | cutil/uthash.h:296-338 | the chains together have as many nodes as the application order and num_items |
| UtHash.Index.AddToBkt | cutil/uthash.h:628-639 | pushes the item on its chain; the number of buckets doubles exactly when the chain reaches its threshold and growth is allowed, and then the statistics of the new distribution are right |
| UtHash.Index.Expand | cutil/uthash.h:683-729 | redistributes every node in place into twice as many buckets; the ideal length is the ceiling of items over buckets, nonideal_items the excess over it summed over buckets, each overfull bucket's expand_mult its count divided by the ideal, and noexpand is set after two ineffective doublings |
| UtHash.Index.Redistribute | cutil/uthash.h:698-717 | the two loops move every node out of the old chains into the bucket of its hash under the new mask, keeping the statistics after each move |
| UtHash.Index.IdealLength | cutil/uthash.h:694-696 | the shift and mask compute the ceiling of items over the doubled bucket count, which is at least one, so the later division never has a zero divisor |
| UtHash.DelInBkt | cutil/uthash.h:642-652 | unlinking a node from its chain leaves the buckets holding exactly the other items |
| UtHash.MergeRuns | cutil/uthash.h:762-806 | the inner loop emits the merge of two neighbouring runs, relinking next and prev of every node it emits |
| UtHash.SortPass | cutil/uthash.h:746-811 | one pass merges every pair of neighbouring runs, relinking the whole list both ways, and counts its merges |
| UtHash.Index.Sort | cutil/uthash.h:736-821 | sorts the application order in place, all links, head and tail right and the buckets untouched; for a total preorder the result is sorted, a permutation, and keeps the order of ties |
| StableSort.BottomUpIsStable | cutil/uthash.h:736-821 | merging runs of doubling length, starting from single elements, gives a sorted permutation in which equal elements keep their order, for every total preorder |
| StableSort.MergeTies | cutil/uthash.h:777-794 | preferring the left run on ties keeps equal elements in order across a merge |
| StableSort.OneMerge | cutil/uthash.h:812-817 | a pass does at most one merge exactly when two runs cover the list, so the last pass leaves one run |
| Bits.MaskIsMod | cutil/uthash.h:210-213 | the mask by a power of two less one, bit by bit, is the remainder |
| HashTable.HistoryIsMap | cutil/hash_table.c:36-82 | through any history of unique adds and removals the entries have unique keys and are the finite map the same history builds |
| HashTable.Table.Replay | cutil/hash_table.c:48-82 | replaying any history on the table in place, through any number of bucket doublings, leaves exactly that map |
| HashTable.Table.AddEntry | cutil/hash_table.c:36-46 | appends the pair whether or not the key is there |
| HashTable.Table.AddUniqueEntry | cutil/hash_table.c:48-64 | appends the pair and returns 0 only if the key is new; otherwise nothing changes and the result is -1 |
| HashTable.Table.RemoveEntry | cutil/hash_table.c:66-82 | removes one entry with the key, the only one while keys are unique; -1 and no change if there is none |
| HashTable.Table.HasEntry | cutil/hash_table.c:84-94 | true exactly for the keys of the finite map |
| HashTable.Table.GetEntry | cutil/hash_table.c:96-109 | with unique keys, the lookup of the finite map, a miss included |
| HashTable.Table.ToList | cutil/hash_table.c:135-146 | the data in reverse order of insertion |
| CursorList.List.GetNode | cutil/list.c:39-57 | the node a walk from the front sentinel reaches, wherever the cursor was; the cursor moves there, and the links followed are counted |
| CursorList.List.Get | cutil/list.c:112-115 | the element at the position, or NULL at a sentinel, as a walk without the cursor gives it |
| CursorList.List.Append | cutil/list.c:129-133 | puts the element last; from a cursor at the end this follows at most one link |
| CursorList.List.Copy | cutil/list.c:180-185 | a new list with the same elements, from at most size links |
| CursorList.List.Add | cutil/list.c:117-127 | puts the element in front and keeps the cursor on its node |
| CursorList.List.Insert | cutil/list.c:160-167 | the new element gets the given position, all others keep their order |
| CursorList.List.Remove | cutil/list.c:169-178 | removes exactly the element at the position |
| CursorList.List.RemoveValue | cutil/list.c:141-158 | leaves what the recursive skip-one description says |
| CursorList.RemoveSkipIsFilterIff | cutil/list.c:148-156 | that removes every occurrence if and only if no two occurrences are neighbours; otherwise one survives |
| CursorList.RemoveSkipParts | cutil/list.c:148-156 | every element that is not removed stays, and parts the list in two that do not affect each other |
| CursorList.RemoveSkipRun | cutil/list.c:148-156 | of a run of occurrences every second one survives |
| CursorList.List.AppendList | cutil/list.c:135-139 | appends the other list, following at most one link per element on the source, and linearly many on the target, from any starting cursors |
| CursorList.List.MapR | cutil/list.c:222-230 | the images in order, with at most size links on the source and one per append on the result |
| CursorList.List.EachR | cutil/list.c:232-237 | the callback sees every element in order, with at most size links |
| ProtocolInvariants.ReferencesExact | tracker/client.c:83-135 | in every reachable interleaving a client is live exactly while something holds it, ref_count is the number of slots and unfinished handlers holding it, and no step dereferences a deleted client |
| ProtocolInvariants.DeletedAtLastRelease | tracker/client.c:118-135 | a step deletes a client exactly when it drops the last reference |
| ProtocolInvariants.InvStep | tracker/network.c:197-237 | every step of the poll thread and of the handlers keeps the invariant behind both results |
| ProtocolInvariants.OneReaderPerSocket | tracker/network.c:127-156 | in every run without reuse of a live connection key, each slotted client has exactly one of: a listening slot, can_rehear, a handler still reading; so no two handlers read one socket at once |
| ProtocolInvariants.TokenStep | tracker/protocol.c:142-158 | every step but an unguarded accept keeps one token per client, a handler's re-arming between the two halves of a slot's treatment included |
| ProtocolInvariants.AcceptKeepsTokensIff | tracker/client.c:83-102 | accepting a connection keeps one token per client if and only if its key is new or its client has neither slot nor token left |
| ProtocolInvariants.ReuseGivesTwoReaders | tracker/network.c:117-156 | a concrete run with a reused key after which two handlers may read one socket |
| KeyReuse.AcceptLeadsToTwoReadersIff | tracker/network.c:117-156 | from every reachable state with one token per client, an accepted connection leads to two handlers that may read one socket, without another such accept, if and only if its key is known and the client with that key has a handler that reads or a slot without a pending hang-up |
| KeyReuse.HarmlessRunsHaveOneReader | tracker/network.c:127-156 | in every run without such an accept no two handlers ever read one socket at once, although a client may hold two permissions for the rest of a scan |
| Protocol.CleanKeeps | tracker/network.c:181-195 | compacting leaves exactly the multiset of slots whose descriptor is not -1, each with its own client |
| Network.Server.AddNewClientToFds | tracker/network.c:97-115 | appends the slot and the reference; the arrays are doubled when full, so nfds never exceeds the allocated size |
| Network.Server.HandleNewConnection | tracker/network.c:117-125 | does the accept step of the protocol on the arrays and tables |
| Network.Server.HandleIncomingSlot | tracker/network.c:129-155 | does the two steps of a slot's treatment: allow listening again, then answer its events |
| Network.Server.RehearSlot | tracker/network.c:133-136 | clears can_rehear and listens for input again, or changes nothing |
| Network.Server.DispatchSlot | tracker/network.c:138-154 | frees the slot and its reference on a hang-up, else starts a handler with its own reference and stops listening |
| Network.Server.StartRequestHandler | tracker/network.c:70-78 | takes a reference for the new handler |
| Network.Server.ClientDecRef | tracker/client.c:130-135 | drops a reference, and the client with its table entry when none is left |
| Network.Server.ClientIncRef | tracker/client.c:125-128 | takes a reference and changes nothing else |
| Network.Server.CleanFds | tracker/network.c:181-195 | terminates, with the arrays compacted as the specified compaction |
| Network.Server.FillSlot | tracker/network.c:184-193 | a free slot takes the last slot's descriptor and client together, or is dropped if it is the last |
| Network.Server.SetCanRehear | tracker/protocol.c:154-154 | does the protocol's re-arm step |
| Network.Server.FinishRequest | tracker/protocol.c:154-155 | does the protocol's release step |
| PieceFile.Reassembled | client_java/rz/File.java:94-123 | once every piece has been written at least once, in any order and with repeats, the file is the source byte for byte, whatever was on disk before |
| PieceFile.WriteOnePiece | client_java/rz/File.java:108-123 | writing a piece puts it in place, disturbs no other piece in place, and truncates only on the last index |
| PieceFile.PieceCountRightIff | client_java/rz/File.java:139-141 | the piece count is right if and only if length plus piece size less one fits in an int |
| PieceFile.Wrap32Is | client_java/rz/File.java:95-95 | the offset is the int with the same low 32 bits as the product |
| PieceFile.File.ReadPiece | client_java/rz/File.java:94-106 | the bytes of an owned piece as they lie in the file, zeros behind its end; the error for an index the bitmap does not have, and the failures for an index out of reach or a negative offset |
| PieceFile.File.WritePiece | client_java/rz/File.java:108-123 | every byte of the new content: the data in place, a gap filled with zeros, the rest as it was, truncated only on the last index; and the bitmap with exactly the written index added; fails exactly for a negative offset or an index past the bitmap |
| BitSets.BitSet.Set | client_java/rz/BitSet.java:18-20 | adds exactly that index to the marked pieces |
| BitSets.BitSet.Clear | client_java/rz/BitSet.java:22-24 | removes exactly that index |
| BitSets.BitSet.Test | client_java/rz/BitSet.java:40-42 | whether the index is marked; a small negative index tests the sign bit of byte 0 |
| BitSets.BitSet.SetAll | client_java/rz/BitSet.java:26-29 | marks all indices the bytes have room for |
| BitSets.BitSet.ToByteArray | client_java/rz/BitSet.java:44-49 | a fresh copy of the bytes |
| BitSets.BitSet.Transfer | client_java/rz/BitSet.java:44-53 | the bitmap rebuilt from the bytes sent marks the same pieces |
| BitSets.MaskIsShift | client_java/rz/BitSet.java:18-24 | piece i of a byte is its bit of weight two to the i, as it goes over the wire |
| Peers.ExchangeIsExact | client_java/rz/Peer.java:87-158 | what sendData prints for owned pieces that cover the file makes receiveData read the whole message, accept every write, mark every piece and end with the sender's content |
| Peers.Peer.SendData | client_java/rz/Peer.java:87-101 | the exact message for any list of indices: pieces, error lines for unowned ones, and the point where another failure ends it |
| Peers.Peer.SendPiece | client_java/rz/Peer.java:89-98 | the text of one piece, the error line of an unowned one, or the number alone before another failure |
| Peers.Peer.ReceiveData | client_java/rz/Peer.java:147-158 | for any input, the writes it decodes are applied in order; it ends normally exactly when the list is closed and every write is accepted; otherwise the writes up to the first refused one are on disk, and those before it are marked |
| Peers.Peer.ReceiveRound | client_java/rz/Peer.java:150-157 | one round decodes one write and applies it, or ends as the whole does |
| Peers.Peer.SendGetpieces | client_java/rz/Peer.java:82-85 | the getpieces message for any list of indices |
| Peers.Peer.ReceiveGetpieces | client_java/rz/Peer.java:133-145 | answers with exactly the pieces of the index list it decodes |
| Decimal.ParseIntIff | client_java/rz/Peer.java:154-154 | a number is read from an optional sign and digits, at least one and nothing else, if its value is an int |
| Decimal.PrintNatIff | client_java/rz/Peer.java:90-90 | the text of a number is the only one of its value without leading zeros |
| Wire.PiecesRoundTrip | client_java/rz/Peer.java:150-157 | decoding an encoded list of writes gives the same writes in order and consumes the list, whatever bytes the pieces hold |
| Wire.DecodeIff | client_java/rz/Peer.java:147-158 | of any input receiveData makes exactly the pieces it spells: number, stop character and bytes, up to a bracket, or up to the first number that is none |
| Wire.IndicesRoundTrip | client_java/rz/Peer.java:105-111 | a printed index list is read back in order |
| Wire.DecodeIndicesIff | client_java/rz/Peer.java:133-145 | receiveGetpieces accepts exactly the inputs that list numbers up to a bracket |
| Wire.OwnedAreServed | client_java/rz/Peer.java:89-98 | for owned indices the message is the encoding of the file's pieces |
| Wire.MessageIff | client_java/rz/Peer.java:87-101 | for any list of indices within the bitmap's reach the message is, in order, each number with its bytes as they lie in the file if it is owned, and with an error line if it is not |
| Wire.MessageBreaks | client_java/rz/Peer.java:87-101 | an index out of reach or at a negative offset ends the message behind its number |
| Wire.WordRoundTripIff | client_java/rz/Socket.java:105-132 | a word is read back if and only if it is shorter than the 256 characters of the buffer |
| Wire.HeadIs | client_java/rz/Socket.java:105-121 | on any stream receiveUntil reads the longest text free of stop characters that its buffer holds, and drops the stop character |
| Wire.BytesThroughChars | client_java/rz/Socket.java:72-86 | every byte, negative ones included, survives the cast to char and back |
| Wire.CastsKeepBits | client_java/rz/Socket.java:72-86 | the cast to a char keeps the value modulo 2^16, the cast back modulo 2^8 |
| Wire.Socket.ReceiveUntil | client_java/rz/Socket.java:105-121 | the loop returns the text before the first stop character, eats that, and leaves the rest of the stream |
| Wire.Socket.ReceiveByte | client_java/rz/Socket.java:88-98 | the next characters as bytes, zero where the stream ends |
| Wire.Socket.SendByte | client_java/rz/Socket.java:51-56 | the bytes as characters behind what was sent |
| RingBuffers.CircularBuffer.Write | tracker_cpp/common/containers/CircularBuffer.cpp:23-41 | appends the bytes to the queue if there is room, for every position of the read and write indices up to the capacity |
| RingBuffers.CircularBuffer.Read | tracker_cpp/common/containers/CircularBuffer.cpp:48-66 | takes exactly the first bytes of the queue |
| RingBuffers.CircularBuffer.Peek | tracker_cpp/common/containers/CircularBuffer.cpp:73-86 | the first bytes, at most the whole queue, which is left alone |
| RingBuffers.CircularBuffer.Resize | tracker_cpp/common/containers/CircularBuffer.cpp:103-122 | the new capacity is the product in single precision, truncated; the queue is unrolled to the front and kept if it fits |
| RingBuffers.CircularBuffer.GrowFor | tracker_cpp/common/network/ClientSocket.cpp:71-72 | the growth loop ends with room for the bytes and the queue as it was, for any capacity of at least 2 |
| RingBuffers.GrownForIs | tracker_cpp/common/network/ClientSocket.cpp:71-72 | the growth loop stops at the first capacity with room |
| RingBuffers.GrowsByHalf | tracker_cpp/common/containers/CircularBuffer.cpp:109-109 | with both roundings of the single-precision product, growing by a half makes the buffer larger if and only if its capacity is at least 2, and adds exactly a half while the result is below 2^23 |
| RingBuffers.SingleIs | tracker_cpp/common/containers/CircularBuffer.cpp:109-109 | rounding to single precision takes the nearest 24-bit number, ties to even |
| RingBuffers.CircularBuffer.Absorb | tracker_cpp/common/network/ClientSocket.cpp:52-56 | every chunk read from the socket is appended in order |
| RingBuffers.CircularBuffer.Contains | tracker_cpp/common/containers/CircularBuffer.cpp:169-186 | whether the byte is in the queue, except that a full buffer whose positions coincide always answers no |
| RingBuffers.CircularBuffer.WriteToFd | tracker_cpp/common/containers/CircularBuffer.cpp:129-161 | what was delivered followed by what is still buffered is the old queue, if and only if it was not a wrapped flush that sent the first segment whole and the second not; the result and all new positions are given by the old positions and what the two writes return |
| RingBuffers.CircularBuffer.ReadUntil | tracker_cpp/common/containers/CircularBuffer.cpp:198-218 | returns the bytes up to the first delimiter before the wrap and up to the first behind it, with the positions it leaves; that is the split of the queue at its first delimiter if and only if no delimiter lies before the wrap (and, for a full buffer whose positions coincide, the first byte is the delimiter) |
| ClientSockets.ClientSocket.Serve | tracker_cpp/common/network/ClientSocket.cpp:66-82 | over any run of writes and writable events, delivered then buffered bytes are all bytes written, in order, if and only if no prefix of the run meets a flush that sends the first segment of a wrapped buffer whole and the second not; and bytes are left to an unarmed writer if and only if the run, or its start, met EAGAIN and nothing was written afterwards |
| ClientSockets.UnwrappedRunIsExact | tracker_cpp/common/network/ClientSocket.cpp:66-82 | a run whose bytes all fit behind those already queued meets no such flush |
| ClientSockets.ShortFlushRepeats | tracker_cpp/common/containers/CircularBuffer.cpp:141-155 | a concrete run on a new socket that meets one |
| ClientSockets.StalledIff | tracker_cpp/common/network/SocketWriter.cpp:24-43 | when a run leaves bytes to send and a registered writer that no event will reach |
| ClientSockets.DroppedIff | tracker_cpp/common/network/SocketWriter.cpp:34-42 | over any run on a new socket, a writer is dropped if and only if the last write call of some flush returned 0 or an error other than EAGAIN |
| ClientSockets.ArmedIff | tracker_cpp/common/network/SocketWriter.cpp:24-33 | a writer is armed if and only if bytes were queued, or a flush was short, after the last event that reached it |
| ClientSockets.QueuedIsServed | tracker_cpp/common/network/ClientSocket.cpp:66-82 | a run in which no flush fails leaves queued bytes only to a writer that the next event reaches, unless EAGAIN was met and nothing written since |
| ClientSockets.ClientSocket.Write | tracker_cpp/common/network/ClientSocket.cpp:66-82 | queues all bytes whatever the room, keeps what was exact exact, and registers the writer if there is none or else arms it again |
| ClientSockets.ClientSocket.HandleEvent | tracker_cpp/common/network/SocketWriter.cpp:24-43 | delivers what the descriptor takes, in order and once unless the flush is miscounted; keeps the writer exactly if nothing was queued, or the last write call sent something or met EAGAIN; arms it again only after a short write |
| StringSplit.SplitIff | cutil/string2.c:98-127 | the pieces are the only cut of the text at leftmost separators, and joining them restores the text |
| StringSplit.TokensIff | cutil/string2.c:68-95 | the tokens are the one and only way to cut a text into words with nothing but separators between, in front of and behind them |
| StringSplit.JoinedTokensIff | cutil/string2.c:68-95 | tokenising joined strings gives them back if and only if each is non-empty and free of separators |
| StringSplit.TokensKeep | cutil/string2.c:68-95 | tokenising loses nothing but separators, and every token is a word |
| StringSplit.Split | cutil/string2.c:68-95 | the strtok loop, its reversed list and the backward copy give the tokens in order; none for NULL |
| StringSplit.Split2 | cutil/string2.c:98-127 | the strstr loop, its reversed list and the backward copy give the pieces in order |
| LookQuery.HonouredIff | tracker/protocol.c:297-382 | a printed criterion, passed through all six processors, has on every list exactly the effect of the one processor it is meant for, a key criterion none, if and only if its text is clear: "=" with its quote does not recur, and no other operator with its quote stands only at the very end |
| LookQuery.ProcessorIs | tracker/protocol.c:297-332 | on any text a processor acts if its separator occurs exactly once, by the field in front of it and the value behind it less a closing quote, and does nothing otherwise |
| LookQuery.OtherNameIff | tracker/protocol.c:342-348 | the criterion for other names keeps of every list exactly the files with another name, reversed, if and only if its text is clear |
| LookQuery.KeyMeansIff | tracker/protocol.c:334-340 | a clear key criterion keeps exactly the files with that key, each as often as it is listed, if and only if all files of the list have it |
| LookQuery.PlainTextIsClear | client_java/rz/Criterion.java:28-30 | texts without quotes and operator characters are clear |
| LookQuery.SizeMeansIff | tracker/protocol.c:339-371 | the comparison of an unsigned length with a size is the intended one for all files if and only if the size is not negative or the operator is = or != |
| LookQuery.SaturatingIs | tracker/protocol.c:339-339 | a size is read from blanks, a sign and digits, whatever follows, and limited to the range of a long |
| LookQuery.LookIsExact | tracker/protocol.c:384-396 | a request printed by the client selects exactly the registered files that satisfy all its criteria other than keys, in table order or its reverse |
| LookQuery.LookIsMeantIff | tracker/protocol.c:384-396 | a request finds each file that satisfies all its criteria, keys included, as often as it is registered and no other, if and only if every file that satisfies the others has the keys asked for |
| LookQuery.LookInAnyOrder | tracker/protocol.c:374-396 | whatever the order of the criteria, each file is found as often as it is registered if it satisfies all criteria other than keys, and not otherwise |
| LookProcessor.ProcessCriterions | tracker/protocol.c:384-396 | the processors run in place on lists do what the query semantics says, an out-of-bounds strip reported as such |
| LookProcessor.ProcessCriterion | tracker/protocol.c:374-382 | the six processors in their order |
| LookProcessor.RunProcessor | tracker/protocol.c:297-332 | one processor: nothing unless its separator splits the criterion in two and the field is its own, else the filtered list |
| LookProcessor.ProcessList | tracker/protocol.c:284-294 | the new list holds the files that pass, reversed |
| LookProcessor.LookRequest.ToString | client_java/rz/LookRequest.java:40-51 | the printed criteria joined by blanks |
| LookProcessor.LookRequest.AddSizeCriterion | client_java/rz/LookRequest.java:21-23 | adds the criterion behind the others |
| SeedText.SeedRoundTripIff | client_java/rz/Tracker.java:73-80 | the tracker reads an announcement as it was meant if and only if all sizes fit in 32 bits |
| SeedText.ReadSeedIs | tracker/protocol.c:160-188 | of any announcement the words make files in groups of four, with the low 32 bits of both numbers; none if the words do not come out even |
| SeedText.ReplyRoundTripIff | client_java/rz/Tracker.java:106-148 | the client reads a list reply back if and only if all sizes are ints; one that is not loses the whole reply, and an empty list is its own error |
| SeedText.ClientFilesIs | client_java/rz/Tracker.java:136-148 | of any reply the words make records in groups of four, if all their numbers are ints |
| SeedText.AnnouncedIsListed | tracker/protocol.c:160-188 | files announced for the first time are registered under their keys as they are, next to exactly what was registered before, and a reply that lists them is read back as them if their sizes are ints |
| SeedText.IngestKeeps | tracker/file.c:90-98 | no registered file is lost or replaced, and every announced key is answered with the file registered under it |
| SeedText.IngestCrashIff | tracker/file.c:90-98 | an announcement crashes the tracker exactly on a file with a new key and a piece size of zero |
| SeedText.FileTable.GetSeedFileList | tracker/protocol.c:160-188 | the loop over groups of four does exactly that; a wrong number of words gives an empty list, a zero piece size of a new file crashes |
| SeedText.BuildFileList | tracker/protocol.c:398-414 | the printing loop gives the text the round trip is about |
| SeedText.SeedString | client_java/rz/Tracker.java:73-80 | prints the announcements of the complete files only |
| SeedText.ParseLookFiles | client_java/rz/Tracker.java:136-148 | the loop over groups of four reads the records, or fails at the first number that is no int |
| YamlEvents.ParseIff | cutil/yaml2.c:87-153 | for every document tree, behind any number of stream and document starts, the event loop returns the root node, holding exactly that tree, with an empty stack, if and only if every key comes while the key flag is clear and at most a hundred levels are open, scalars counted |
| YamlEvents.CrashIff | cutil/yaml2.c:87-153 | a document of at most a hundred levels makes the parser crash if and only if some key comes while the key flag is set |
| YamlEvents.EmptyStream | cutil/yaml2.c:87-153 | a stream that ends without a document leaves nothing and is no error |
| YamlEvents.PlainTreesParse | cutil/yaml2.c:102-146 | trees of at most a hundred levels with no sequence directly as a mapping value are always returned |
| YamlEvents.SequenceAsValueFails | cutil/yaml2.c:120-134 | a concrete document, a mapping with a sequence as its first value, that is not returned |
| YamlEvents.HoldsUnique | cutil/yaml2.c:42-61 | a node holds at most one tree, so the result determines the document |
| YamlParser.Parser.ParseFile | cutil/yaml2.c:63-159 | over any event sequence, the loop returns 0 with what the run up to the first end of a document or of the stream leaves, -1 if there is no such end and the run does not crash, and crashes where the run does |
| YamlParser.Parser.ParserStackPush | cutil/yaml2.c:42-61 | links the new node into the open container before pushing it, and crashes on a mapping entry without a name |
| YamlParser.Parser.HandleScalar | cutil/yaml2.c:120-146 | a scalar is a key, a value, an item or the whole document, by the open container and the key flag |
| YamlParser.Parser.Handle | cutil/yaml2.c:94-149 | one round of the event loop is one step of the machine |
| YamlParser.Stack.Push | cutil/stack.c:25-31 | pushes, unless the stack is full: then nothing happens |
| YamlParser.Stack.Pop | cutil/stack.c:38-46 | takes the last element, or NULL from an empty stack |

## Left out

- Counts and sizes of the hash index wrap at 32 bits in the source and are unbounded here; allocation never fails.
- The hash function is any function from keys to unsigned numbers; the other hash functions, the Bloom filter, HASH_SELECT and non-default compile options are not modelled.
- The table record of the index (UT_hash_table) is one object with the pointer to the first item, and keys, data and hash values of an entry are set when it is made.
- Locks of the list and the hash table: every operation is taken to run alone.
- list_to_array and list_to_hashtable, which index from 0 in a list numbered from 1, and list_each/list_map, which only wrap the modelled loops.
- The tracker's atomic steps: a change of a reference count with its zero test, accept with the table lookup and the first reference, and the test and clearing of can_rehear are one step each, although the C code uses plain ints.
- accept and getpeername succeed, and accept never returns a descriptor of a live client; POLLNVAL, POLLERR and the two hang-up bits are one flag.
- The SIGUSR1 wake-up and liveness: the signal may arrive before poll blocks, so only safety is stated.
- Peer tables of files across repeated announce and update requests, and the parsing of leech lists.
- Sockets, signals, thread creation, MD5, regular expressions and reading of request lines: the text between the brackets is the input of the models.
- Java streams: reads of pieces are complete unless the stream ends, and the character encoding of the connection is the identity.
- The Java file map (FileManager) and getFileWithReception: a peer object serves one file, and another key is an unknown file.
- The int results of read and write calls are unbounded, and abort is a result.
- Decimal.Atol: text that begins with a sign or digits; LookQuery adds the leading blanks and the saturation of atol, and the wrap of atoi is part of the 32-bit truncation.
- YamlEvents.ParseIff: the returned pointer must be that of the root node; that no other node of an overfull parse holds an equal tree is not stated. Nodes are positions in a sequence, so freeing and aliasing of nodes are not modelled, and a name that would be used after it was freed counts as a crash.
- The hash table and list a YAML container is built on are sequences of children here; their own models are the ones above.
- The C++ criterion table, its update handler, and the C++ copies of the C containers.
- Prompts, logging, configuration, colours, strategies, the graphical interface, scripts and serialisation.
