# Verified cores of the dedicated server

This project models the parts of the server whose correctness is least obvious from reading them, and
proves what they promise. `dafny verify dfyconfig.toml` checks everything.

* **Reliable channel** (`Netchan`, `NetchanProtocol`). One endpoint is a class over the fields of
  `netchan_t`, with the packets as bytes. Two endpoints and the set of all packets ever sent form a
  state machine: the network may drop, duplicate, delay and reorder, but not forge. A data packet says
  that it carries a reliable message but not which one; safety rests on the sequence check, the
  retransmission guard and the exact record of the sequence number of the last reliable packet.
* **Red-black tree** (`RedBlackShape` to `RedBlackTree`, `FileCache`). Real nodes with `left`, `right`,
  `up`, colour and a shared sentinel that deletion writes to, held together by a tree value and a path
  value that say what the memory contains. Rotations, both fix-up loops, insertion, deletion,
  neighbours, all lookup modes, the in-order cursor, and the purge that deletes under an open cursor.
  Keys are integers: the rank of a key in the order that the tree's comparison function defines.
* **MaxMind DB** (`SearchTree`, `DataSection`, `DataTree`, `DataPath`, `DataPool`, `DataReader`). The
  binary trie in its three record layouts with the cached IPv4 start node, the self-describing data
  section, and its three walkers, which are shown to agree: skipping, path lookup, and flattening into
  pooled cells. The formats are those of the MaxMind DB File Format Specification 2.0.
* **Collision** (`Geometry`, `Clip`, `Leafs`, `AreaPortals`). The swept box against a convex brush over
  the reals, the leafs that a box and a point reach, and the flood fill over area portals.
* **Wildcards** (`Wildcard`, `Glob`). Both matchers against one language.
* **MD4** (`Md4`). The incremental digest against the one-shot definition of RFC 1320, compression
  function included.
* **Zone allocator** (`Zone`, `GameZone`). The ring of all blocks and the list of the game's blocks.
* **Info strings** (`Info`). Lookup, removal and setting on arbitrary and on well-formed strings.

Code that changes state is modelled by classes and loops whose contracts tie the new state to functions
of the old; the lemmas are about those functions.

Where the code does not do what its comments or names suggest, the model follows the code:

* setting an info value of 64 characters or more leaves the old value in place, although a value that
  merely does not fit into the string removes it (`Info.LongValueKeepsOld`);
* a box that touches an axial plane with its maximal face counts as wholly behind it
  (`Leafs.ClosedBoxLosesCorner`, `Leafs.ClosedBoxCoverage`);
* the netmask of an IPv4 lookup that ends at the start node differs from that of the 128-bit walk
  (`SearchTree.StartNodeAgrees`, `SearchTree.StumpNetmasks`), and when a record on the run to the start
  node is zero, the lookup may find data where the walk ends in an error (`SearchTree.AgreementExact`,
  `SearchTree.RingDisagrees`);
* an array index in a lookup path is cut to 32 bits before the test for negative numbers, so that some
  numbers too large and some negative ones select an element, and an empty path element selects the
  first (`DataPath.DigitsSelect`, `DataPath.IndexSurprises`);
* a block's tag is cut to 16 bits, so freeing by a tag that does not fit finds nothing
  (`Zone.AllocateAndFreeTags`, `Zone.WideTagStays`);
* a game allocation of -4 to -1 bytes passes the size test, and the block is cleared with a negative
  length (`GameZone.GameHeap.TagMallocGame`, `GameZone.NegativeRequest`);
* an area number equal to the number of areas passes the check of `CM_AreasConnected`, and the answer
  depends on the map loaded before (`AreaPortals.PhantomArea`);
* setting an info value looks for backslashes before it strips the high bit, so that a value may end its
  pair and set another key (`Info.HighBackslashExample`, `Info.OtherKeysStay`);
* the block loop of `MD4_Update` never ends when an input and the bytes buffered before it reach 2^32
  (`Md4.CounterExact`);
* after the packet numbered 2^31 - 1 a channel delivers nothing any more (`NetchanProtocol.WrapStalls`,
  `NetchanProtocol.WrapReached`).

## Model

| member | source | states |
|---|---|---|
| Bytes.LittleEndianRoundTrip | qcommon/net_chan.c:294-295 | a 32-bit word written byte by byte, least significant first, reads back |
| Bytes.ReadBack | qcommon/net_chan.c:385-386 | a word reads back from where it stands among other bytes |
| Bytes.LittleEndianNumber | qcommon/common.c:1153-1156 | of the four bytes of a word the last weighs most |
| Netchan.HeaderRoundTrip | qcommon/net_chan.c:288-295 | sequence, reliable flag, acknowledgement and parity survive packing into two words and parsing, for all values below 2^31 |
| Netchan.WireRoundTrip | qcommon/net_chan.c:288-326 | the receiver parses from the datagram the header the sender meant, and is left with the reliable part followed by the unreliable part |
| Netchan.WireLayout | qcommon/net_chan.c:288-326 | the two words at the front of a datagram, with their top bits, and everything else behind them |
| Netchan.ShortDatagram | qcommon/common.c:1146-1161 | a word that a datagram is too short for reads as all ones |
| Netchan.PreparedIsPacket | qcommon/net_chan.c:260-317 | the packet that Netchan_Transmit builds, with the state it leaves, is the abstract next packet |
| Netchan.Channel.constructor | qcommon/net_chan.c:196-234 | Netchan_Setup: empty channel, first sequence 1 |
| Netchan.Channel.Stage | qcommon/net_chan.c:220-227 | appending to the staging buffer; overflow clears it and is remembered |
| Netchan.Channel.Transmit | qcommon/net_chan.c:243-363 | return value, datagrams sent and whole new state, exactly when staging overflowed, the message is too large, a copy is refused by the socket, or all are sent |
| Netchan.Channel.Prepare | qcommon/net_chan.c:260-331 | staging to reliable buffer, parity flip, header words, retransmission record |
| Netchan.Channel.SendCopies | qcommon/net_chan.c:334-344 | how many copies of the datagram go out, and exactly when sending fails |
| Netchan.Channel.Process | qcommon/net_chan.c:373-509 | Netchan_Process: accepted or not, payload left to read, and the whole new state |
| Netchan.Channel.Acknowledge | qcommon/net_chan.c:486-500 | clearing of the reliable buffer, and the parity flip on a flagged packet |
| Netchan.Channel.CountLoss | qcommon/net_chan.c:454-480 | the loss counters become those of `Measured`, before the new sequence is stored, and exactly when an acknowledgement is timely |
| Netchan.MeasuredSane | qcommon/net_chan.c:454-480 | the lost packets counted never outnumber all that are counted, through every measurement and decay |
| Netchan.MeasuredCounts | qcommon/net_chan.c:451-480 | the totals grow by the numbers passed; received ones by one for each packet and each timely acknowledgement; what counts without being timely; when all are halved |
| Netchan.InOrderCountsNoLoss | qcommon/net_chan.c:460-465 | acknowledged number by number, a channel counts no outgoing loss, so that nothing is duplicated |
| NetchanProtocol.MissedHasBuffer | qcommon/net_chan.c:260-277 | in every reachable state a flagged retransmission has something to send: the "send_reliable with empty buffer" branch is dead |
| NetchanProtocol.TransmitKeepsSender | qcommon/net_chan.c:260-317 | sending keeps the sender's half of the invariant |
| NetchanProtocol.TransmitKeepsReceiver | qcommon/net_chan.c:281-292 | sending keeps what the peer may conclude from acknowledgements |
| NetchanProtocol.ReceiveKeepsReceiver | qcommon/net_chan.c:431-500 | accepting any packet ever sent keeps the receiver's half of the invariant |
| NetchanProtocol.ReceiveKeepsSender | qcommon/net_chan.c:482-494 | accepting an acknowledgement keeps the sender's half of the invariant |
| NetchanProtocol.StepKeeps | qcommon/net_chan.c:243-510 | every step of either end, with packets dropped, duplicated, delayed and reordered, keeps the invariant |
| NetchanProtocol.StepConserves | qcommon/net_chan.c:267-277 | a step neither loses nor makes up a reliable byte: what was sent, what is in the buffer and what is staged add up |
| NetchanProtocol.RunKeeps | qcommon/net_chan.c:243-510 | the invariant holds after every run |
| NetchanProtocol.ReliableDelivery | qcommon/net_chan.c:260-317 | in every run each end has accepted exactly a prefix of the reliable messages the other committed, in order, each once, at most one behind |
| NetchanProtocol.ByteStreamDelivery | qcommon/net_chan.c:267-277 | the same for the bytes the application staged: they arrive as a prefix of the stream |
| NetchanProtocol.DeliveredOnce | qcommon/net_chan.c:431-439 | once a packet has been handed to an end, that packet and every one numbered before it change nothing when they are delivered again, however the run goes on |
| NetchanProtocol.RetransmitIsNeeded | qcommon/net_chan.c:260-265 | a retransmission is never spurious, at either end: the receiver has not accepted the message, and no packet already sent with it can still be accepted |
| NetchanProtocol.HopKeeps | qcommon/net_chan.c:243-510 | sending one packet, with any unreliable data that fits, and delivering it keeps the invariant |
| NetchanProtocol.ReplyReveals | qcommon/net_chan.c:460-494 | a packet there and one back tell the sender whether the message arrived |
| NetchanProtocol.ForwardDelivers | qcommon/net_chan.c:260-317 | the next packet then delivers an undelivered message |
| NetchanProtocol.ReplyClears | qcommon/net_chan.c:482-483 | the next reply empties the reliable buffer |
| NetchanProtocol.Recovery | qcommon/net_chan.c:260-277 | from every healthy state one packet forward, one back and one forward deliver all that was committed, and one more back clears the buffer, whatever unreliable data they carry |
| NetchanProtocol.ReachableIsHealthy | qcommon/net_chan.c:243-510 | every state of a run in which no staging buffer overflowed is healthy |
| NetchanProtocol.HopIsTwoActions | qcommon/net_chan.c:243-510 | a hop is a transmit and a receive of the run |
| NetchanProtocol.LaterAccepted | qcommon/net_chan.c:288-291 | numbers count modulo 2^31: a sender has a packet still to come that its peer accepts exactly if the peer has not seen 2^31 - 1 |
| NetchanProtocol.WrapStalls | qcommon/net_chan.c:431-439 | once an end of a run has seen 2^31 - 1, it never accepts anything again, however the run goes on; its last acknowledgement stays, and it commits at most one more message |
| NetchanProtocol.WrapReached | qcommon/net_chan.c:288-291 | a run of 2^31 actions that leads there, and a message committed after it that never arrives |
| RedBlackShape.RotateInOrder | qcommon/redblack.c:601-694 | a rotation does not change the ordering |
| RedBlackShape.PlugInOrder | qcommon/redblack.c:696-725 | a subtree takes one stretch of the tree's order; what lies before and after it is read off the way up to the root |
| RedBlackShape.PlugBalanced | qcommon/redblack.c:141-150 | a balanced tree of the right black height completes a balanced context |
| RedBlackShape.UnplugBalanced | qcommon/redblack.c:141-150 | the parts of a balanced tree are balanced and their black heights fit |
| RedBlackShape.LongestTwiceShortest | qcommon/redblack.c:152-155 | of any two ways from the root to a leaf, one is at most twice as long as the other |
| RedBlackShape.HeightBound | qcommon/redblack.c:145-155 | 2^height <= (size + 1)^2, that is height <= 2 log2(n + 1) |
| RedBlackShape.EveryWayBalanced | qcommon/redblack.c:149-150 | the black count is the same on every way down, whichever turns are taken |
| RedBlackMemory.RotateStep | qcommon/redblack.c:612-694 | the pointer assignments of a rotation turn a memory that holds a tree into one that holds the rotated tree, parent pointers included |
| RedBlackMemory.AttachStep | qcommon/redblack.c:386-408 | hanging a new node below a leaf place in memory |
| RedBlackMemory.SpliceStep | qcommon/redblack.c:771-788 | splicing out a node with at most one child, with the sentinel's up field written |
| RedBlackMemory.RecolourStep | qcommon/redblack.c:423-428 | painting one node |
| RedBlackMemory.EntryStep | qcommon/redblack.c:790-794 | copying key and data into a node |
| RedBlackFixup.RecolouredUncleKeeps | qcommon/redblack.c:422-434 | red uncle: recolouring keeps order and black heights and moves the violation up |
| RedBlackFixup.TurnedOutKeeps | qcommon/redblack.c:438-446 | inner grandchild: the rotation keeps order and pending violation |
| RedBlackFixup.LiftedKeeps | qcommon/redblack.c:448-454 | outer grandchild: recolour and rotation end the violation |
| RedBlackFixup.InsertDone | qcommon/redblack.c:487-489 | painting the root black completes a red-black tree |
| RedBlackFixup.BlackSiblingKeeps | qcommon/redblack.c:812-819 | red sibling of the short side: rotation gives it a black one |
| RedBlackFixup.RedSiblingKeeps | qcommon/redblack.c:821-825 | black sibling with black children: painting it red moves the shortage up |
| RedBlackFixup.OuterRedKeeps | qcommon/redblack.c:828-834 | red inner nephew is turned outside |
| RedBlackFixup.FilledKeeps | qcommon/redblack.c:837-841 | red outer nephew: the rotation fills the shortage |
| RedBlackFixup.DeleteDone | qcommon/redblack.c:879 | painting the last node black completes a red-black tree |
| RedBlackOrder.RankFinds | qcommon/redblack.c:333-354 | the rank of a key tells where it stands in an ascending list |
| RedBlackOrder.ContentsInserted | qcommon/redblack.c:356-405 | an entry put at its rank adds exactly that key to the map |
| RedBlackOrder.ContentsRemoved | qcommon/redblack.c:761-800 | an entry taken out removes exactly that key |
| RedBlackOrder.DescentEnd | qcommon/redblack.c:332-355 | a descent guided by comparisons ends at the key or where it belongs |
| RedBlackDelete.SpliceInOrder | qcommon/redblack.c:771-788 | the in-order lists lose exactly the spliced node |
| RedBlackDelete.SpliceBalance | qcommon/redblack.c:771-797 | splicing a black node leaves one place short by one, splicing a red one leaves the tree red-black |
| RedBlackDelete.ReplaceInOrder | qcommon/redblack.c:766-794 | deleting through the successor loses exactly the deleted entry |
| RedBlackTree.OtherTreeStays | qcommon/redblack.c:71-80 | the sentinel is one object for all trees: whatever is done to one tree, another stays valid |
| RedBlackTree.DeleteBeside | qcommon/redblack.c:71-80 | a deletion in one of two trees leaves the other as it was |
| RedBlackTree.StoreBeside | qcommon/redblack.c:71-80 | an insertion in one of two trees leaves the other as it was |
| RedBlackTree.InsertedMeans | qcommon/redblack.c:386-408 | an insertion adds exactly its key and its node |
| RedBlackTree.RemovedMeans | qcommon/redblack.c:757-805 | a removal takes away exactly its key and one node |
| RedBlackTree.PlaceMeaning | qcommon/redblack.c:496-579 | what the nine lookup modes ask for, as a place in the sorted list |
| RedBlackTree.RbTree.constructor | qcommon/redblack.c:165-200 | rbinit: an empty tree with a black sentinel |
| RedBlackTree.RbTree.LeftRotate | qcommon/redblack.c:612-652 | rb_left_rotate on the real nodes |
| RedBlackTree.RbTree.RightRotate | qcommon/redblack.c:654-694 | rb_right_rotate on the real nodes |
| RedBlackTree.RbTree.Descend | qcommon/redblack.c:331-355 | the walk down to the key or to the parent of its place |
| RedBlackTree.RbTree.InsertFixRound | qcommon/redblack.c:414-484 | one round of the insertion fix-up, both sides |
| RedBlackTree.RbTree.InsertFix | qcommon/redblack.c:412-486 | the loop of the fix-up |
| RedBlackTree.RbTree.Insert | qcommon/redblack.c:363-491 | adds exactly the new key to the ordered entries and keeps all red-black properties and parent pointers |
| RedBlackTree.RbTree.Search | qcommon/redblack.c:225-236 | rbsearch: the existing node, tree unchanged, or a new node with no data |
| RedBlackTree.RbTree.Store | qcommon/files.c:424-425 | finding or inserting a key and storing through the address: the map gains or changes exactly that key |
| RedBlackTree.RbTree.Find | qcommon/redblack.c:240-252 | rbfind: the node with the key, or none |
| RedBlackTree.RbTree.DeleteFixRound | qcommon/redblack.c:808-877 | one round of the deletion fix-up, both sides |
| RedBlackTree.RbTree.DeleteFix | qcommon/redblack.c:803-880 | the whole fix-up |
| RedBlackTree.RbTree.Splice | qcommon/redblack.c:771-788 | the pointer surgery of rb_delete |
| RedBlackTree.RbTree.DeleteNode | qcommon/redblack.c:761-800 | deleting a node with at most one child |
| RedBlackTree.RbTree.DeleteSuccessor | qcommon/redblack.c:766-800 | deleting a node with two children through its successor |
| RedBlackTree.RbTree.Delete | qcommon/redblack.c:256-273 | exactly the key goes, every other key keeps its data, and the tree stays red-black with consistent parent pointers; an absent key changes nothing |
| RedBlackTree.RbTree.Successor | qcommon/redblack.c:698-725 | the next node in order, or the sentinel |
| RedBlackTree.RbTree.Predecessor | qcommon/redblack.c:729-756 | the previous node in order, or the sentinel |
| RedBlackTree.RbTree.Lookup | qcommon/redblack.c:496-579 | rblookup in every mode: the equal, neighbouring, first or last key of the sorted keys, or none |
| FileCache.OpenList | qcommon/redblack.c:911-927 | the cursor starts at the smallest key |
| FileCache.ReadList | qcommon/redblack.c:931-944 | reading returns the cursor's key and moves it to the successor |
| FileCache.ReadAll | qcommon/redblack.c:911-944 | opening and reading the list yields all keys once, in ascending order |
| FileCache.PurgeOne | qcommon/files.c:314-323 | the node deleted is the smallest, so the node under the cursor is never the one spliced out |
| FileCache.Purge | qcommon/files.c:305-329 | every entry is visited once in order, exactly the non-null data pointers are freed, each once, and the tree ends empty |
| SearchTree.RecordRoundTrip | geoip/maxminddb.c:977-999 | in the 24-, 28- and 32-bit layouts the getters read back the two records written |
| SearchTree.RecordIs | geoip/maxminddb.c:977-999 | which bytes make up the two records of a node, in all three layouts |
| SearchTree.RecordReadable | geoip/maxminddb.c:947-950 | which nodes lie before the data section; all nodes of the tree, if the tree does and is smaller than 2^32 bytes |
| SearchTree.BigEndianNumber | geoip/maxminddb.c:1814-1817 | three bytes with the highest first |
| SearchTree.BitsMakeByte | geoip/maxminddb.c:938-940 | the bit the code tests at position k is the k-th binary digit of the address |
| SearchTree.NetworkUnique | geoip/maxminddb.c:934-967 | an address lies in at most one network of the tree |
| SearchTree.WalkMeaning | geoip/maxminddb.c:934-967 | the netmask is the prefix length of the network that the address lies in; it is found unless its record is the number of nodes, and the offset is the record less that number and 16 |
| SearchTree.WalkFindsNetwork | geoip/maxminddb.c:934-973 | the walk succeeds only if the address lies in a network |
| SearchTree.StartNodeAgrees | geoip/maxminddb.c:911-932 | an IPv4 lookup from the start node gives found flag and offset of the 128-bit walk when no record on the run of left records is zero; the netmask agrees exactly when the start node is a search node |
| SearchTree.ShortLookupIs | geoip/maxminddb.c:911-932 | the IPv4 lookup by the record that ends the run of left records: walked on from, the result for every address, or an error |
| SearchTree.ZeroOnRunFails | geoip/maxminddb.c:1062-1068 | a zero record on that run makes the 128-bit walk fail |
| SearchTree.ShortLookupSucceeds | geoip/maxminddb.c:911-973 | the lookup from the start node succeeds exactly if the run of left records ends in a network or at a node with a network of the address below it |
| SearchTree.AgreementExact | geoip/maxminddb.c:911-932 | the two lookups agree in success, found flag and offset exactly if no record on the run is zero, or the run leads to no network of the address |
| SearchTree.RingExists | geoip/maxminddb.c:977-999 | bytes of a tree whose left records run in a ring through the root |
| SearchTree.RingDisagrees | geoip/maxminddb.c:1012-1031 | in that tree the two lookups of 128.0.0.0 differ: one finds data, the other is an error |
| SearchTree.StumpExists | geoip/maxminddb.c:977-999 | bytes of a tree of one node whose left record is data |
| SearchTree.StumpNetmasks | geoip/maxminddb.c:919-931 | in that tree the two lookups of every IPv4 address report the netmasks 128 and 1 |
| SearchTree.NoZeroRecords | geoip/maxminddb.c:1012-1031 | a tree without zero records has none on the run |
| SearchTree.Reader.FindIpv4StartNode | geoip/maxminddb.c:1001-1033 | the cached start node is that of the run of left records |
| SearchTree.Reader.FindAddress | geoip/maxminddb.c:893-975 | the result does not depend on what the cache holds |
| SearchTree.Reader.LookupAddress | geoip/maxminddb.c:858-891 | which address families are looked up how |
| DataSection.Decode | geoip/maxminddb.c:1394-1594 | on any bytes, a decoded entry ends strictly after its start and inside the section |
| DataSection.KindIs | geoip/maxminddb.c:1413-1437 | where the type, and the width of a pointer, stand in the control byte |
| DataSection.SizeIs | geoip/maxminddb.c:1456-1491 | the size in its four widths, each of which counts on from the one below |
| DataSection.PointerIs | geoip/maxminddb.c:1601-1634 | the pointer in its four widths, likewise |
| DataSection.EntryRoundTrip | geoip/maxminddb.c:1394-1594 | decode_one reads back every entry that is no pointer, in all size widths and extended types, for the sizes of the format |
| DataSection.DecodedExactly | geoip/maxminddb.c:1508-1576 | an entry that is no pointer is decoded if and only if it is a map, an array or a boolean, or its payload lies in the section and its size is one of the type, in numbers |
| DataSection.PointerRoundTrip | geoip/maxminddb.c:1430-1452 | decode_one reads back pointers in all four widths |
| DataSection.GetUintX | geoip/maxminddb.c:1824-1832 | the loop of get_uintX computes the big-endian number |
| DataSection.NumberFits | geoip/maxminddb.c:1518-1546 | numbers fit their bytes, so the casts lose nothing |
| DataTree.DenotesOne | geoip/maxminddb.c:1394-1594 | the bytes at an offset hold one value tree at most |
| DataTree.EndWithin | geoip/maxminddb.c:1394-1594 | a value ends inside the section |
| DataTree.SkipIsEnd | geoip/maxminddb.c:1327-1351 | skipping a value ends where its tree ends |
| DataTree.SkipExactly | geoip/maxminddb.c:1327-1351 | on any bytes, skipping succeeds exactly if what it decodes forms a tree of the right numbers of elements, and ends where that ends |
| DataTree.FlatIsPreOrder | geoip/maxminddb.c:1662-1770 | flattening yields the pre-order with pointers resolved, exactly if the value is not nested deeper than the limit |
| DataTree.FlatHasTree | geoip/maxminddb.c:1662-1770 | on any bytes, if flattening succeeds the bytes hold a value tree |
| DataTree.FlatAgreesWithSkip | geoip/maxminddb.c:1662-1770 | if flattening succeeds and no inline map has a container as a key, skipping ends at the same offset |
| DataPath.DigitsSelect | geoip/maxminddb.c:1250-1267 | which element a number with or without a sign selects: it is refused exactly outside 64 bits or if it is 2^31 or more modulo 2^32, nothing may stand behind it, and otherwise the element is the number modulo 2^32 |
| DataPath.DecimalStep | geoip/maxminddb.c:1258 | digits are the characters 48 to 57, and each is worth a tenth of the one before |
| DataPath.OneBehind | geoip/maxminddb.c:1258 | which characters are skipped in front of a number |
| DataPath.IndexSurprises | geoip/maxminddb.c:1258-1260 | 4294967296 selects the first element, -4294967295 the second, and an empty path element the first |
| DataPath.FirstMatchMeaning | geoip/maxminddb.c:1286-1325 | the value of the first matching key; a key that is no string is an error |
| DataPath.FollowExactly | geoip/maxminddb.c:1353-1380 | on any bytes: what a pointer leads to, and which pointers are errors |
| DataPath.ElementOnBytes | geoip/maxminddb.c:1269-1284 | on any bytes: the n-th element of an array lies behind n skipped ones, or what cannot be skipped is the error |
| DataPath.MapOnBytes | geoip/maxminddb.c:1292-1325 | on any bytes: a map search is decided by the first key that is no other name; the error when there is none, when one is no string and when something cannot be skipped |
| DataPath.StepMeaning | geoip/maxminddb.c:1212-1248 | one path element on a tree, with its errors |
| DataPath.WalkInParts | geoip/maxminddb.c:1207-1248 | a path is taken element by element from the front |
| DataPath.ElementIsNth | geoip/maxminddb.c:1269-1284 | the n-th element is found by skipping n elements |
| DataPath.MapIsFirst | geoip/maxminddb.c:1292-1325 | the map search finds the first match |
| DataPath.GetValueIsWalk | geoip/maxminddb.c:1193-1248 | MMDB_aget_value returns the node that walking the value tree reaches, and fails exactly when that walk fails, with the same error |
| DataPool.CanMultiplyMeaning | geoip/data-pool.c:43-50 | can_multiply tells exactly whether the product of a positive count stays below the limit |
| DataPool.HandedDistinct | geoip/data-pool.c:66-108 | cells handed out lie in the pool and are handed out once |
| DataPool.NextInOrder | geoip/data-pool.c:124-145 | which cell follows which, across blocks of doubling size |
| DataPool.ChainIsOrder | geoip/data-pool.c:124-148 | following the links yields the entries in the order of handing out |
| DataPool.Pool.New | geoip/data-pool.c:12-37 | which pools are refused |
| DataPool.Pool.Alloc | geoip/data-pool.c:66-108 | the next cell in order, from a new block of twice the size when the last is full, or none exactly when no block can be had |
| DataPool.CapacityDoubles | geoip/data-pool.c:87-104 | what blocks of doubling size hold together |
| DataPool.HandedCount | geoip/data-pool.c:66-108 | how many cells have been handed out |
| DataPool.Pool.ToList | geoip/data-pool.c:113-148 | all cells linked in order, entries unchanged; nothing for an empty pool |
| DataReader.SkipMapOrArray | geoip/maxminddb.c:1327-1351 | terminates on any bytes and stops where the specification does |
| DataReader.LookupPathInArray | geoip/maxminddb.c:1250-1284 | the loop delivers the element that lies behind as many skipped ones as the index says, on any bytes |
| DataReader.LookupPathInMap | geoip/maxminddb.c:1286-1325 | the loop delivers the value behind the first matching key, on any bytes |
| DataReader.AGetValue | geoip/maxminddb.c:1193-1248 | on any bytes: the entry found by taking the path element by element, or the error of the first that fails |
| DataReader.AppendItem | geoip/maxminddb.c:1708-1722 | a cell is taken from the pool and filled with one flattened item |
| DataReader.GetEntryDataList | geoip/maxminddb.c:1662-1770 | on success the last cell and the cells behind it hold the flattened value |
| DataReader.GetEntryDataListOf | geoip/maxminddb.c:1636-1660 | on success the returned list is the flattened value and ends with it; after an error it is null or names all cells handed out, in order; which errors there are |
| Geometry.CornersBound | qcommon/cmodel.c:1257-1265 | every point of a box lies between its two extreme corners |
| Geometry.DotUnits | qcommon/cmodel.c:1268-1272 | the product with a vector along an axis |
| Clip.GapMeaning | qcommon/cmodel.c:1251-1273 | pushing the plane out by the box's offset is testing the whole box |
| Clip.TraceState.ClipBoxToBrush | qcommon/cmodel.c:1216-1330 | the trace after the brush, from latest entry and earliest exit; the missing-leadside error is dead |
| Clip.ScanSides | qcommon/cmodel.c:1244-1305 | the loop over the sides: early return, inside flags, latest entry with its first side, earliest exit |
| Clip.StopsInTime | qcommon/cmodel.c:1289-1329 | if the brush takes over the hit with fraction f, the reported plane is its own and separates the box from it for all t in [0,f], at f > 0 the box is exactly an epsilon in front, and the fraction does not grow; otherwise fraction and hit stay |
| Clip.ClipsExactly | qcommon/cmodel.c:1299-1316 | the brush takes over the hit if and only if no side is passed by, some side is approached from more than an epsilon away, and at some time before the fraction so far the box has come within an epsilon of all sides that it starts in front of and has left none |
| Clip.HitTouches | qcommon/cmodel.c:1299-1329 | a hit is a hit: where the trace then ends, within [0,1), the box is within an epsilon of being behind every side |
| Clip.CatchesDeepHits | qcommon/cmodel.c:1289-1329 | if the start is outside and at some t the box is an epsilon behind every side, the fraction ends below t |
| Clip.SolidMeaning | qcommon/cmodel.c:1307-1313 | startsolid and allsolid mean starting in, and staying in, the brush |
| Leafs.HeightIs | qcommon/cmodel.c:1037-1041 | the distance of a point from a plane, by its coordinate for axial planes |
| Leafs.PointStep | qcommon/cmodel.c:1042-1045 | the point goes to the front child unless it lies behind the plane |
| Leafs.GeneralSideExact | game/q_shared.c:439-503 | for planes that are not axial a box is given to a side exactly if one of its points lies there |
| Leafs.AxialSideExact | game/q_shared.h:441-455 | for axial planes that holds for the box without its maximal faces |
| Leafs.BoxHasPointLeaf | qcommon/cmodel.c:1079-1114 | every point that grazes no plane has its leaf in the list |
| Leafs.ClosedBoxCoverage | game/q_shared.h:448 | on the closed box grazing is exactly what loses a point's leaf |
| Leafs.ClosedBoxLosesCorner | game/q_shared.h:448 | a box whose corner loses its leaf |
| Leafs.TopNodeMeaning | qcommon/cmodel.c:1105-1110 | all listed leafs lie under the top node; without one there is a single leaf |
| Leafs.ListCoversBox | qcommon/cmodel.c:1079-1132 | the coverage theorem, from a node number of the map: in a list that is not filled up stands the leaf that the point walk finds for a point of the box, unless the point grazes a plane on its way, which no point with mins <= p < maxs does |
| Leafs.ClampedIs | qcommon/cmodel.c:1088-1093 | the list holds as many leafs as it has room for |
| Leafs.CollisionMap.PointLeafnumR | qcommon/cmodel.c:1030-1056 | the loop finds the leaf of the point |
| Leafs.CollisionMap.PointLeafnum | qcommon/cmodel.c:1058-1063 | leaf 0 without a map, otherwise the leaf of the point |
| Leafs.CollisionMap.BoxLeafnumsR | qcommon/cmodel.c:1079-1114 | the list grows by the box's leafs in order, cut at its capacity; the first split node is kept |
| Leafs.CollisionMap.BoxLeafnumsHeadnode | qcommon/cmodel.c:1116-1132 | list, count and top node delivered |
| AreaPortals.ConnectedEquivalence | qcommon/cmodel.c:49 | being connected through open portals is an equivalence when the portal list is symmetric |
| AreaPortals.FloodMeaning | qcommon/cmodel.c:49 | equal flood numbers mean connected |
| AreaPortals.NeverReflooded | qcommon/cmodel.c:1866-1872 | the flood never reaches an area with another number |
| AreaPortals.RoundAdded | qcommon/cmodel.c:1902-1909 | a flood with a new number keeps groups closed and apart |
| AreaPortals.AreaMap.FloodAreaR | qcommon/cmodel.c:1862-1882 | floods exactly areas connected to the start, terminates, and never meets the reflooded error |
| AreaPortals.AreaMap.FloodAreaConnections | qcommon/cmodel.c:1891-1911 | all used areas are flooded, equal numbers exactly for connected areas |
| AreaPortals.AreaMap.SetAreaPortalState | qcommon/cmodel.c:1913-1920 | after every portal change the numbers fit the new state; a portal number too large is refused, a negative one is not |
| AreaPortals.AreaMap.AreasConnected | qcommon/cmodel.c:1922-1936 | yes exactly for connected areas; for an area equal to the number of areas the unused entry decides, or what lies behind the array; the error cases |
| AreaPortals.PhantomArea | qcommon/cmodel.c:1927-1935 | the answer for an area equal to the number of areas depends on the map loaded before |
| AreaPortals.OneDoor | qcommon/cmodel.c:1913-1936 | an instance: two areas are connected exactly while the portal between them is open |
| AreaPortals.BitAtIs | qcommon/cmodel.c:1969 | which bit of which byte stands for an area |
| AreaPortals.AreaMap.WriteAreaBits | qcommon/cmodel.c:1949-1974 | exactly the connected areas get their bit; area 0 and map_noareas get all |
| AreaPortals.AreaMap.NumbersMeanConnected | qcommon/cmodel.c:1933 | reading two numbers answers the question |
| Wildcard.MatchWildcard | game/q_shared.c:1672-1717 | 1 exactly when the text is in the pattern's language |
| Wildcard.WildcardFit | game/q_shared.c:1672-1717 | the same from any pair of pointers, across its recursion through the star |
| Wildcard.Set | game/q_shared.c:1719-1761 | a terminated set accepts exactly its members, with ranges and negation, and steps past its bracket |
| Wildcard.MembersAccepted | game/q_shared.c:1719-1761 | a set of single members accepts them, and with ! all others |
| Wildcard.RangeAccepted | game/q_shared.c:1735-1747 | what [x-y] and [!x-y] accept |
| Wildcard.PartsAccepted | game/q_shared.c:1731-1757 | a set accepts what its parts accept |
| Wildcard.OneSign | game/q_shared.c:1679-1711 | what a star, a question mark and any other character stand for |
| Wildcard.Asterisk | game/q_shared.c:1763-1811 | the star commits to the first place where the rest fits, without losing a match |
| Wildcard.StarSkips | game/q_shared.c:1763-1811 | what a star stands for: any skipped prefix |
| Wildcard.StarSkipsOnly | game/q_shared.c:1763-1811 | a star stands for nothing but a skipped prefix |
| Glob.GlobMatch | linux/glob.c:80-165 | on plain patterns glob_match decides the same language |
| Glob.GlobMatchAfterStar | linux/glob.c:6-29 | the rest of the pattern against every final segment of the text, with further stars and question marks swallowed |
| Glob.Agree | linux/glob.c:80-165 | on patterns without sets and escapes the two matchers always agree |
| Glob.StarFree | linux/glob.c:80-165 | the language of a plain pattern without stars, read off character by character |
| Md4.StartBytes | qcommon/md4.c:65-68 | the initial words as the bytes of section 3.3 of RFC 1320 |
| Md4.FChooses | qcommon/md4.c:43 | F chooses, bit by bit, as section 3.4 says |
| Md4.GIsMajority | qcommon/md4.c:44 | G is the bitwise majority |
| Md4.HIsParity | qcommon/md4.c:45 | H is the bitwise parity |
| Md4.OperationFF | qcommon/md4.c:52 | the operation of round 1, which has no constant |
| Md4.OperationGG | qcommon/md4.c:54 | the operation of round 2 with its constant |
| Md4.OperationHH | qcommon/md4.c:56 | the operation of round 3 with its constant |
| Md4.Roots | qcommon/md4.c:54-56 | the constants are the square roots of 2 and 3 times 2^30 |
| Md4Suite.AbcDigest | qcommon/md4.c:60-128 | the digest of "abc" is that of section A.5 of RFC 1320 |
| Md4.Transform | qcommon/md4.c:132-197 | the 48 operations written out are the three rounds of section 3.4 of RFC 1320 |
| Md4.CountCarries | qcommon/md4.c:79-83 | the carry between the two count words keeps the number of bits modulo 2^64 |
| Md4.PadLengthOfIndex | qcommon/md4.c:116-117 | the two-way padding length is that of section 3.1 |
| Md4.CounterExact | qcommon/md4.c:85-94 | the block counter, which counts modulo 2^32, stays within the input exactly if nothing is buffered or input and buffer together are shorter than 2^32; otherwise the loop reads behind the input and starts over |
| Md4.Context.Update | qcommon/md4.c:72-103 | after any input for which its loop ends the context is that of the message so far followed by the input |
| Md4.Context.Final | qcommon/md4.c:107-128 | the digest of everything fed, by the one-shot definition; the context is cleared |
| Md4.DigestOfChunks | qcommon/md4.c:72-128 | feeding a message in any split gives the digest of the whole |
| Md4.BlockChecksum | qcommon/md4.c:225-238 | the exclusive or of the digest's four words |
| Zone.WithoutMeaning | qcommon/common.c:1812-1817 | free-by-tag leaves exactly the blocks that are not to go |
| Zone.TaggedGone | qcommon/common.c:1812-1817 | free-by-tag leaves exactly the blocks with another tag |
| Zone.TagFound | qcommon/common.c:1806-1820 | free-by-tag finds a block by the tag it was allocated with exactly if that fits 16 bits; a tag that does not fit finds no block |
| Zone.AllocateAndFreeTags | qcommon/common.c:1806-1820 | on the heap: allocating with a tag and freeing by it removes the block if and only if the tag fits, and otherwise nothing |
| Zone.WideTagStays | qcommon/common.c:1988 | the block allocated with tag 0x10000 is stored with tag 0 and stays |
| Zone.Heap.TagMalloc | qcommon/common.c:1941-1997 | the new block heads the ring; count and bytes grow by it |
| Zone.Heap.Free | qcommon/common.c:1678-1693 | exactly that block leaves the ring; count and bytes shrink by it |
| Zone.Heap.Realloc | qcommon/common.c:2149-2192 | the block keeps its place in the ring, also when moved; bytes follow its size |
| Zone.Heap.FreeTags | qcommon/common.c:1806-1820 | exactly the blocks with the tag are freed, the others stay in order |
| GameZone.GameHeap.TagMallocGame | qcommon/common.c:1999-2056 | block and list entry are added together; sizes under the buggy-game setting; which requests are refused, and which overrun: from -4 to -1 bytes |
| GameZone.GameHeap.FreeGame | qcommon/common.c:2058-2105 | a listed block leaves zone and list; another is an error or ignored |
| GameZone.GameHeap.FreeTagsGame | qcommon/common.c:2107-2134 | exactly the game's blocks with the tag go; it fails exactly for a tagged block that is not the game's |
| GameZone.GameTaggedGone | qcommon/common.c:2113-2130 | which blocks go with a tag of the game |
| GameZone.NegativeRequest | qcommon/common.c:2032-2034 | a request of -2 bytes gets a block, is reported as overrunning it, and the block is in the game's list |
| GameZone.EngineMalloc | qcommon/common.c:1941-1997 | the engine allocating for itself leaves the game list right |
| GameZone.EngineFree | qcommon/common.c:1678-1693 | the engine freeing its own blocks leaves the game list right |
| GameZone.EngineRealloc | qcommon/common.c:2149-2192 | the engine reallocating its own blocks leaves the game list right |
| GameZone.EngineFreeTags | qcommon/common.c:1806-1820 | the engine freeing by a tag that no game block has leaves the game list right |
| Info.ValueForKey | game/q_shared.c:1358-1398 | on any string: the run of characters behind the first key run that matches, or nothing |
| Info.KeyExists | game/q_shared.c:1400-1430 | on any string: whether some key run matches |
| Info.Buffer.RemoveKey | game/q_shared.c:1432-1485 | on any string: the first segment whose key matches is cut out; a key with a backslash changes nothing |
| Info.Buffer.SetValueForKey | game/q_shared.c:1519-1573 | on any string: refused keys and values change nothing; otherwise the key is removed and a value that is not empty and fits is appended as printable ASCII |
| Info.ValueOfPairs | game/q_shared.c:1358-1398 | on a well-formed string, the value of the first pair with the key |
| Info.RemovedPairs | game/q_shared.c:1432-1485 | on a well-formed string, the first pair with the key is gone and the rest unchanged |
| Info.DroppedMeaning | game/q_shared.c:1432-1485 | with distinct keys exactly the other pairs remain |
| Info.RemovedReads | game/q_shared.c:1432-1485 | on any string, lookup reads after a removal what it read before, without the first pair of the key |
| Info.AllowedExactly | game/q_shared.c:1524-1546 | which keys and values are refused, and that then nothing changes |
| Info.AsciiOne | game/q_shared.c:1567-1570 | a character loses its high bit and is kept if it is printable |
| Info.AsciiBoth | game/q_shared.c:1564-1571 | characters are stripped one by one |
| Info.PairsLaws | game/q_shared.c:1358-1398 | on any string, what is read as keys and values: runs between backslashes in turn, and nothing for a key without a value |
| Info.LookupReads | game/q_shared.c:1358-1430 | on any string, lookup sees the pairs that a reader from left to right sees |
| Info.SetThenLookup | game/q_shared.c:1519-1573 | for every key and value that is not refused: lookup returns the value exactly if it is empty, or fits and nothing is stripped; what it returns otherwise; another key is found as before, or in what the stripped text reads as |
| Info.OtherKeysStay | game/q_shared.c:1562-1572 | the other keys stay exactly if the stripped text names none that was not set |
| Info.SpelledOne | game/q_shared.c:1521-1572 | the stripped text reads as one pair exactly if there was no backslash with the high bit |
| Info.SetKeepsForm | game/q_shared.c:1519-1573 | without such a backslash the string stays well-formed, and its keys stay distinct unless the stripped key is another one that was set |
| Info.HighBackslashExample | game/q_shared.c:1521-1571 | an instance with two such backslashes: the key that was set reads as empty, and one that was not set has a value |
| Info.LongValueKeepsOld | game/q_shared.c:1542-1548 | a value of 64 characters or more is refused before removal, so the old value stays |
| Info.LongValueExample | game/q_shared.c:1542-1548 | an instance: the value of a key survives setting it to 64 characters |
| Info.LengthBound | game/q_shared.c:1555-1560 | the string never exceeds 511 characters |

## Left out

- Sockets, files, clocks, printing and memory exhaustion: what they deliver is a parameter, or absent.
- The Kingpin dedicated-server build is modelled: buffers of 1390 and 1400 bytes, no R1Q2 protocol, two bytes of qport from clients. Out-of-band packets are not.
- NetchanProtocol.RunKeeps: runs of fewer than 2^31 actions, so that sequence numbers do not wrap; `WrapReached` is a longer run that loses a message.
- NetchanProtocol.ReachableIsHealthy: states in which a staging buffer overflowed are left out, because the channel then refuses to send for good.
- The calls that end in Com_Error with a long jump return an error value in the model, and the state at the jump is the state the method leaves.
- Red-black trees built with preallocation, which never free nodes, and the recursive walk and destroy.
- RedBlackTree.RbTree.DeleteFixRound: the two mirrored halves of the loop body are one method over a side; so are those of `InsertFixRound`.
- SearchTree.Reader.FindAddress: the file's metadata parsing and MMDB_read_node are not part of this model; a record length other than 6, 7 or 8 is refused when the file is opened.
- DataSection.Decode: floating-point values stay the bytes they are read from, and fields that decode_one leaves unwritten are zero instead of stale.
- DataReader.AGetValue: path elements are byte strings without a terminator; strtol is written out for base 10 and a 64-bit long.
- DataReader.GetEntryDataListOf: after an error, which part of the value the cells of the returned list hold.
- DataPool.Pool: blocks are sequences of cells, and a pointer to a cell is its block and place.
- Collision uses reals instead of floats, so rounding is not modelled. The BSP nodes are taken to form a tree, as the map compiler writes them. CM_RecursiveHullCheck, the test against a single position, box hulls and visibility are not modelled.
- AreaPortals: maps whose portal lists are not symmetric, or lead to area 0 or past the last area.
- AreaPortals.AreaMap.AreasConnected: what lies behind the array of areas, which the code reads when all areas are in use.
- AreaPortals.AreaMap.SetAreaPortalState: the write in front of the array of portals, which a negative number leads to.
- Glob.GlobMatch: sets and escapes of `glob_match` are not modelled.
- Md4.Context.Update: inputs for which the block loop does not end, as `CounterExact` states them.
- Md4.DigestOfChunks: the same, for each of the chunks.
- Zone: the debug allocator, magic numbers, the contents of blocks, allocation statistics, and sizes near the limit of an int, whose sum with the header overflows.
- Zone.Heap.Realloc: whether the block moves is a parameter.
- Info.SetThenLookup: from strings that are well-formed with distinct keys; what setting does to the characters of any other string is `Info.Buffer.SetValueForKey`.
- Info: the fixed buffers for one key and one value, which hold every run of an info string of legal length; Info_Validate and Info_CheckBytes.
- Command aliases, user-command deltas, movement physics and the other tables and helpers.
