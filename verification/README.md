# doomMC: the wire and map codec, verified

doomMC is a Minecraft server that turns Doom and Minecraft maps into blocks and
serves them to ordinary clients. This project models the part of it where bytes must
mean the same at both ends, and proves that they do:

- **Numbers and packed data** (`Words`, `Bytes`, `VarInt`, `Packed`, `Strings`,
  `Positions`): bit operations on machine words, VarInts, fields packed into longs,
  strings, block positions.
- **Chunk format** (`Container`, `Sections`): paletted containers in their three
  layouts and the stream of sections of a chunk, writer and reader.
- **Map** (`MapStore`, `Region`, `Chunks`): loading a region file, merging its
  palettes, serving sections, sending all chunks; from the file to what the client
  decodes.
- **Packets** (`Framing`, `Login`, `Connections`): framing with and without compression
  over a socket that delivers bytes in arbitrary pieces, the client state machine that
  switches layout in mid-stream, and both ends of a connection over time.
- **NBT and slots** (`Nbt`, `Slots`): the measuring functions against a tree, the
  hand-written NBT of a weapon, and the inventory packet.
- **Doom maps** (`Udmf`): normalisation to a grid and Bresenham's line loop.
- **Slot tables** (`Tables`, `Lobbies`): players of a lobby and clients of a server
  over every run of joins and leaves, and who a broadcast reaches.

Code that stores into buffers, fields or tables is a method on arrays and classes,
proved against a function that says what the bytes or the table are; the theorems are
about those functions. A parser function is written on the bytes from the cursor on:
`Got(value, rest)` is the value and the bytes the cursor stands before afterwards, and
`Undefined` is an input on which the C code has no meaning because it would read past
its buffer. Bitwise operators are defined bit by bit (`Words.BitAnd`, `BitOr`,
`BitNot`) and proved equal to the arithmetic the properties are stated in.

## Model

| member | source | states |
|---|---|---|
| Words.AndLowMask | src/C/mcTypes.c:75-89 | masking with 2^k-1 is the value mod 2^k, at any width |
| Words.AndFieldMask | src/C/mcTypes.h:111 | masking with a shifted mask isolates exactly that field, in place |
| Words.AndNot | src/C/mcTypes.c:465 | `x & ~m` removes exactly the bits of `x & m` |
| Words.OrAbove | src/C/mcTypes.c:343 | or-ing in `hi << offset` adds when lo lies below the offset |
| Words.AndClearedField | src/C/mcTypes.c:463-465 | a word with an empty field has no bit in common with a value put there |
| Bytes.BigEndianAt | src/C/mcTypes.c:357-361 | byte i of a big-endian integer is the one at bit 8 * (width - 1 - i), most significant first |
| VarInt.WriteVarInt | src/C/mcTypes.c:68-79 | the loop stores exactly the encoding at the offset, changes no other byte and returns its length |
| VarInt.ReadVarInt | src/C/mcTypes.c:81-102 | the loop returns what the format says of the bytes at the cursor, overlong input included, and moves the cursor past at most five bytes |
| VarInt.ReadVarLong | src/C/mcTypes.c:335-355 | the same for 64 bits and ten bytes |
| VarInt.RoundTrip | src/C/mcTypes.c:68-102 | every int32 is read back, whatever bytes follow, with the cursor at those bytes |
| VarInt.RoundTripLong | src/C/mcTypes.c:335-355 | the 64-bit reader sees the value mod 2^32 |
| VarInt.GroupsLength | src/C/mcTypes.c:68-79 | n bytes suffice if and only if the value is below 128^n |
| VarInt.EncodeLength | src/C/mcTypes.c:68-79 | one to five bytes, with the bounds for values that need fewer |
| VarInt.Shortest | src/C/mcTypes.c:68-102 | no byte string that decodes to the value, overlong ones included, is shorter than its encoding |
| VarInt.PrefixFree | src/C/mcTypes.c:68-79 | no encoding is a proper prefix of another |
| VarInt.DecodeConsumes | src/C/mcTypes.c:81-102 | on every input the reader consumes between one and five bytes |
| Packed.WriteIntToPackedArray | src/C/mcTypes.c:462-467 | the field reads back as the value's low bits and every other field, of any width, is as before |
| Packed.MaskedStore | src/C/mcTypes.c:463-465 | the mask, shift and or of the source replace exactly one field of the word |
| Packed.SetFieldIsolated | src/C/mcTypes.c:462-467 | the new field reads back; disjoint fields are unchanged |
| Packed.WritePackedLong | src/C/mcTypes.c:469-475 | a full long is the sum of (val mod 2^bpe) * 2^(n*bpe) over its own group of values |
| Packed.WritePackedArray | src/C/mcTypes.c:477-496 | the buffer holds the optional count, then every long big-endian, the last one partly filled |
| Packed.PackLongsAt | src/C/mcTypes.c:485-492 | long i is that sum over values i*perLong up to the next group or the end |
| Packed.PackLongsCount | src/C/mcTypes.c:480 | exactly ceil(len / perLong) longs |
| Packed.PackedSizeInBytes | src/C/mcTypes.c:481-494 | exactly eight bytes for each long; with the length asked for, its VarInt in front of them and nothing else |
| Packed.RoundedCount | src/C/mcTypes.c:480 | for fewer than 2^24 values the count computed with one rounded float division is that integer ceiling |
| Packed.PackLongField | src/C/mcTypes.c:439-492 | field n of a packed long is the n-th value mod 2^bpe; fields past the last value are 0 |
| Packed.UnpackOfPack | src/C/mcTypes.c:427-496 | values below 2^bpe come back in order, followed only by zeros |
| Container.CeilLog2Bound | src/C/mcTypes.c:512 | the field width is the least b with 2^b at least the palette size |
| Container.PaletteBitsLeast | src/C/mcTypes.c:512-515 | the field width of a palette is the least one of at least four bits that all its indices fit in |
| Container.WidthOnTheWire | src/C/mcTypes.c:512-517 | and the first byte the writer puts out |
| Container.MaskedLoad | src/C/mcTypes.c:439 | the reader's mask and shift is the field of the long |
| Container.WritePalettedContainer | src/C/mcTypes.c:498-544 | the buffer holds the encoding, in each of the three layouts, and every store fits the allocation |
| Container.ReadPalettedContainer | src/C/mcTypes.c:391-453 | the reader returns what the format says, rejections included, and leaves the cursor where it says, for all limits and inputs it has a meaning on |
| Container.PaletteRoundTrip | src/C/mcTypes.c:414-424 | a palette of ids up to the reader's global size comes back |
| Container.StatesRoundTrip | src/C/mcTypes.c:432-450 | longs whose fields pass the limit come back as their fields |
| Container.CountedStatesRoundTrip | src/C/mcTypes.c:427-450 | the first 4096 states come back, then zeros, and the cursor stops behind the last long |
| Container.WrappedAt | src/C/mcTypes.c:428-448 | with more than 65536 states the 16-bit index wraps: of the fields with the same index the last one stays, and cells past the range stay 0 |
| Container.ContainerRoundTrip | src/C/mcTypes.c:391-544 | whatever follows, reading a written container gives the same palette and states (none and raw states in the direct layout) and ends exactly at its end |
| Container.IdsSurvive | src/C/mcTypes.c:498-544 | where the layout is defined, every cell keeps its id if and only if the palette has at most 255 entries or the indices already are the ids |
| Container.LargePaletteLosesIds | src/C/mcTypes.c:529-541 | a container of 256 entries that does not keep them |
| Container.PaletteFitsIff | src/C/mcTypes.c:511-521 | the palette fits its buffer if and only if the ids leave over one of their five bytes each, or two from 128 entries on |
| Container.OneSmallIdHasRoom | src/C/mcTypes.c:511-521 | so 2 to 127 entries fit if and only if at least one id lies in [0, 2^28) |
| Container.SmallIdsHaveRoom | src/C/mcTypes.c:511 | ids that all lie there always fit |
| Container.NegativeIdsHaveNoRoom | src/C/mcTypes.c:511 | two negative ids overflow it |
| Sections.CountBlocks | src/C/mcTypes.c:619-629 | the loop computes the number the format puts in front of a section |
| Sections.WriteSection | src/C/mcTypes.c:619-639 | one round appends exactly one record and keeps two bytes free for the next count |
| Sections.WriteSections | src/C/mcTypes.c:608-642 | the grown buffer holds the records of all sections in order |
| Sections.SectionsRoundTrip | src/C/mcTypes.c:608-642 | reading n records in turn recovers every section and ends where the stream ends |
| Sections.UniqueSplit | src/C/mcTypes.c:608-642 | two section streams that start the same bytes carry the same sections and leave the same rest |
| Sections.BlockCountIsNonAir | src/C/mcTypes.c:619-629 | the count is never the number of non-air cells for a single-valued section; for any other it is if and only if as many cells with index 0 are not air as cells with another index are |
| Sections.AirFirstIsCounted | src/C/mcTypes.c:624-628 | so it is with air first in a palette of several entries |
| Sections.FullSectionCountedEmpty | src/C/mcTypes.c:624-628 | a section full of one block, listed before air, is announced as empty |
| MapStore.StateIndexOrder | src/C/mcTypes.h:50 | cells are numbered along x, then z, then y |
| MapStore.StateIndexOfCell | src/C/mcTypes.h:50 | every index below 4096 is that of exactly one cell |
| MapStore.Map.CopyCells | src/map/map.cpp:51-62 | the triple loop puts every cell at its index |
| MapStore.Map.GetSection | src/map/map.cpp:40-64 | none past the guard, air above the map, else the map's palette and the states of exactly that section |
| MapStore.GuardAdmitsOneChunkMore | src/map/map.cpp:41 | of what the guard admits, exactly the row and column one past the last whole chunk stick out of the map |
| Region.UnpackStates | src/C/regionParser.c:218-237 | the loop leaves the first 4096 fields of the longs in order, then zeros |
| Region.UnpackInvertsPack | src/C/regionParser.c:218-237 | states packed at the least width of at least four bits that the palette needs come out of the unpack loop as they were |
| Region.UnpackedSame | src/C/regionParser.c:213-243 | a section stored at that width comes out of the file with the same palette and the same index in every cell |
| Region.UnpackedAt | src/C/regionParser.c:95-247 | and so does every section of a file, in its place |
| Region.UnpackChunk | src/C/regionParser.c:112-243 | the loop unpacks all the sections of a chunk |
| Region.MergePalette | src/map/mcr.cpp:51-66 | earlier entries never move, no duplicates, the ids are exactly the union, and each local entry points at its original id |
| Region.PlaceBlocks | src/map/mcr.cpp:67-78 | exactly the cells of the section with a nonzero local index get their rewritten index; all others are unchanged; all that is needed is that no such cell lies above the map |
| Region.LoadSection | src/map/mcr.cpp:49-78 | one section extends what is loaded by itself and nothing else |
| Region.LoadChunk | src/map/mcr.cpp:39-83 | the rows of a chunk are filled from its sections, four rows up |
| Region.StoresInsideIff | src/map/mcr.cpp:48-73 | whatever the number of sections, every store is inside the map if and only if no section destined for a row from 20 on has a cell with a nonzero local index |
| Region.FullChunks | src/map/mcr.cpp:48-73 | a full chunk of 24 air sections meets that, one of 24 solid sections does not |
| Region.LoadRegion | src/map/mcr.cpp:15-88 | under that condition, cell (x, y, z) of the map has the id that section y/16 - 4 of entry x/16 + 32 (z/16) of the file gives it there, cells of local index 0 or without a section are empty, and the palette is exactly the set of ids seen, those above the map included |
| Region.LoadedCellDenotes | src/map/mcr.cpp:48-81 | a loaded cell denotes its original id if and only if its local index is nonzero or its section's first id is the map's first |
| Chunks.SendChunk | src/player.cpp:286-289 | the packet carries all 24 sections of its chunk |
| Chunks.SendChunks | src/player.cpp:278-300 | one packet for every whole chunk, in order |
| Chunks.EachChunkOnce | src/player.cpp:284-289 | every packet is for a whole chunk, and its place among the packets is determined by that chunk, so none is sent twice |
| Chunks.WritableWithoutGlobal | src/C/mcTypes.c:500-541 | with the global size 0 the sender passes, a container has a layout if and only if its palette has 1 to 255 entries |
| Chunks.MapWritable | src/player.cpp:493 | so the sections inside a map can be sent if and only if its palette has 1 to 255 entries |
| Chunks.SectionSurvives | src/map/map.cpp:40-64 | every cell of a section denotes the same id after writing and reading |
| Chunks.ChunkShowsMap | src/player.cpp:493 | a client decodes all 24 sections of the packet with nothing left over, and every cell shows the map's id, air above the map |
| Chunks.MapIdIsBlock | src/map/map.cpp:9-14 | the id of a cell of a section is the palette entry of the block getBlock returns there |
| Chunks.ClientSeesMap | src/player.cpp:278-300 | end to end: in every whole chunk the client's cell is palette[getBlock(x, y, z)] |
| Chunks.RegionReachesClient | src/map/mcr.cpp:37-85 | from the sections of a region to the client: in packet (x/16, z/16), section y/16, a cell with nonzero local index shows the id that section y/16 - 4 of entry x/16 + 32 (z/16) gives it |
| Chunks.FileReachesClient | src/map/mcr.cpp:35-85 | the same from the packed file on, the unpacking included |
| Chunks.ServeRegion | src/map/mcr.cpp:35-85 | unpacking a file, loading it and sending its map meets everything that theorem asks for, once the palette can be sent |
| Framing.SendPacket | src/C/networkingMc.c:111-158 | in each layout exactly the frame of the packet goes out; the result is that of the last write, or as the source has it without data |
| Framing.ReadSize | src/C/networkingMc.c:18-30 | the prefix loop succeeds if and only if every byte of the prefix arrives at once, and then yields its value and consumes only the prefix |
| Framing.ReadBody | src/C/networkingMc.c:36-54 | the body arrives if and only if enough bytes are delivered before the connection ends, in whatever pieces and with whatever waiting; then it is the next bytes of the stream and nothing behind it is consumed |
| Framing.ReadSocket | src/C/networkingMc.c:18-55 | some result is the content of the frame, independent of the schedule, and comes if and only if the schedule delivers the frame |
| Framing.EnoughReadsDeliver | src/C/networkingMc.c:39-52 | the loop gets its bytes if and only if some prefix of the reads without an end of the connection delivers enough |
| Framing.DeliversIff | src/C/networkingMc.c:18-55 | a frame arrives if and only if every byte of its prefix arrives at once and enough for its body follows |
| Framing.ReadsDeliverStream | src/C/networkingMc.c:18-55 | as many non-empty reads as the stream has bytes let all its frames through, however much each delivers |
| Framing.ParsePacket | src/C/networkingMc.c:57-99 | on exactly the contents on which it stays inside its buffers, the parser computes what the layout says, zeros behind inflated data included |
| Framing.ParseBodyInside | src/C/networkingMc.c:83-94 | the copy stays inside a buffer if and only if the id is rejected as too large, or the bytes it takes behind its first one fit in the room behind the body |
| Framing.FullBuffer | src/C/networkingMc.c:83-94 | without such room, if and only if the id takes one byte or is rejected |
| Framing.ParseInside | src/C/networkingMc.c:57-94 | that condition lifted to all three layouts, the zero-filled buffer of the announced length included, in terms a receiver can check before parsing |
| Framing.TwoByteIdOverreads | src/C/networkingMc.c:92-94 | a content in each layout that fails it, the first one in a frame of three bytes |
| Framing.RoomForLongId | src/C/networkingMc.c:65-74 | the compressed one is parsed, with a zero for data, once it announces more room than it needs |
| Framing.ParseRoundTrip | src/C/networkingMc.c:57-99 | in each layout a packet comes back if its id is at most 127, and is read past its end otherwise |
| Framing.UnframeRoundTrip | src/C/networkingMc.c:18-55 | a frame of 1 to 2097151 bytes yields its content, with the rest untouched |
| Framing.ReadPacket | src/C/networkingMc.c:101-109 | the packet at the front of the stream, if and only if the schedule delivers its frame |
| Framing.StreamRoundTrip | src/C/networkingMc.c:57-158 | packets sent back to back come back as the same packets in order with nothing left if and only if all ids are at most 127 |
| Framing.ReadPackets | src/C/networkingMc.c:101-109 | repeated reading gets all packets of a stream under exactly the schedules that let its frames through, and then they are the packets sent |
| Login.HandshakeFields | src/client.cpp:113-117 | past any address and port, a handshake gives the handler its protocol and its next state |
| Login.HandshakeHandled | src/client.cpp:109-119 | and the client ends in exactly these |
| Login.StartFields | src/client.cpp:150-152 | a login start gives it the name and the sixteen bytes of the id |
| Login.StartHandled | src/client.cpp:142-162 | the layout goes out in the old one, then, in the new one, the id and the name: the offline id if the client has only zeros |
| Login.Client.Send | src/client.cpp:85-101 | the frame goes out in the layout in force |
| Login.Client.HandlePacket | src/client.cpp:103-191 | fields and answers in every state, username and uuid included, each answer framed in the layout in force when it is sent |
| Login.Client.HandleLoginStart | src/client.cpp:141-167 | SET_COMPRESSION goes out in the old layout, everything after it in the new one |
| Login.FollowedDecodes | src/client.cpp:85-101 | a peer that reads each packet in the layout it was sent in decodes all of them |
| Login.LoginFollowed | src/client.cpp:141-167 | a peer that switches after decoding SET_COMPRESSION reads the rest of the login answer in the right layout |
| Login.ExchangeFollowed | src/client.cpp:103-186 | whatever the request, the peer can follow the answer and both ends agree on state, protocol and layout afterwards |
| Connections.StaysAfterReading | src/client.cpp:103-186 | a request that leaves the peer in its phase still does once the peer has read more answers |
| Connections.TakeKeeps | src/client.cpp:68-101 | in either direction, a packet read in the layout it was sent in is the oldest one under way |
| Connections.IdleKnowsLayout | src/client.cpp:68-101 | a peer that has waited for all its answers writes in the layout the server will read in |
| Connections.SwitchedKnowsLayout | src/client.cpp:141-150 | and so does one that has read SET_COMPRESSION, for good |
| Connections.AskKeeps | src/client.cpp:103-186 | asking without waiting keeps both ends coherent, as long as the peer knows the layout, and waits before a request that changes its phase |
| Connections.AnswerKeeps | src/client.cpp:68-186 | the server reads the oldest request as it was sent, and handling it keeps both ends coherent |
| Connections.ReadKeeps | src/client.cpp:85-101 | the peer reads the oldest answer as it was sent, and that keeps both ends coherent |
| Connections.RunStaysInStep | src/client.cpp:68-186 | however requests, answers and reads interleave on one continuous stream in each direction, repeated LOGIN_START included, neither end ever fails to decode |
| Connections.ConnectionStaysInStep | src/client.cpp:68-186 | at every moment of every run of a connection, in both directions, what was read and what decodes from the rest of the stream are together exactly the packets put on it, in order |
| Connections.AcknowledgedTooSoon | src/client.cpp:141-172 | a peer that acknowledges the login before reading SET_COMPRESSION can no longer follow |
| Connections.SecondStartMisread | src/client.cpp:141-167 | a second LOGIN_START sent before the answer to the first is read as a packet whose id is the first byte of its data |
| Nbt.NbtSize | src/C/mcTypes.c:220-234 | the exact length of the serialised tag in front of the cursor, 0 at the end of a compound, for every well-formed tree |
| Nbt.TagSize | src/C/mcTypes.c:236-304 | the exact length of the payload, for every tag type |
| Nbt.ListSize | src/C/mcTypes.c:262-281 | the element loop walks the whole list |
| Nbt.CompoundSize | src/C/mcTypes.c:282-295 | the field loop stops behind the end byte of its own compound |
| Nbt.NameLengthReadBack | src/C/mcTypes.c:229 | a name length survives the signed short if and only if it is below 32768 |
| Slots.GetNbt | src/weapons.cpp:40-72 | with any buffer that has room for them, the emitter writes exactly the emitted bytes of the name |
| Slots.EmittedIsTree | src/weapons.cpp:40-72 | those bytes are the serialisation of a compound with damage, name and lore, for every name |
| Slots.EmittedLength | src/weapons.cpp:40-72 | 91 bytes and the name |
| Slots.BufferSuffices | src/weapons.cpp:43 | the 100-byte buffer suffices if and only if the name has at most nine bytes |
| Slots.SuperShotgunDoesNotFit | src/doom.hpp:16 | a weapon of the game it does not suffice for |
| Slots.WriteSlot | src/C/mcTypes.c:572-590 | the buffer holds the slot, in all three shapes |
| Slots.ReadSlot | src/C/mcTypes.c:306-326 | the written slot comes back and the cursor ends behind it, except one byte short for a present slot without NBT |
| Slots.SetWeapons | src/player.cpp:34-66 | whenever the emitted NBT and the packet fit their buffers, exactly the inventory packet is written |
| Slots.InventoryFits | src/player.cpp:40 | the packet fits for all names of up to 79 bytes |
| Slots.InventoryWalkable | src/player.cpp:47-63 | for every weapon name an NBT string can hold, every slot of the packet is one the reader steps over exactly |
| Slots.WalkSlots | src/C/mcTypes.c:306-326 | the walk over a list of such slots reads them all and ends at its end |
| Slots.WalkInventory | src/player.cpp:40-65 | read back, that packet has 36 empty slots, then each weapon with its item id, its ammunition and its NBT, or an empty slot, then the first of them as the carried one, and ends exactly there |
| Strings.TrimmedLength | src/C/mcTypes.c:105-109 | the length less the number of terminators |
| Strings.WriteString | src/C/mcTypes.c:104-113 | the buffer holds the length and that many bytes from the front |
| Strings.ReadString | src/C/mcTypes.c:115-122 | the bytes behind the length, cursor behind them |
| Strings.StringRoundTrip | src/C/mcTypes.c:104-122 | a string comes back whole if and only if it has no terminator in it |
| Positions.PositionRoundTrip | src/C/mcTypes.h:38-48 | each coordinate comes back if and only if it is in the range of its field, whatever the other two are |
| Udmf.AddSector | src/map/udmf.cpp:303-308 | the parsed sector is appended with its heights in order |
| Udmf.MoveVertices | src/map/udmf.cpp:321-355 | there is one shift for all x and one for all y, zero or just enough for the lowest vertex, after which every vertex is its own block; the grid is one larger than the largest coordinates |
| Udmf.MovedInGrid | src/map/udmf.cpp:337-355 | moved vertices lie in [0, width) x [0, length) |
| Udmf.MoveSectors | src/map/udmf.cpp:356-377 | there is one such shift for all floors and ceilings; the height is one more than the highest ceiling |
| Udmf.MovedHeightsInGrid | src/map/udmf.cpp:368-377 | 0 <= floor <= ceiling < height afterwards |
| Udmf.PlotsNext | src/map/udmf.cpp:418-427 | the closed form of D is an invariant and picks the row the next column needs |
| Udmf.DecisionFits | src/map/udmf.cpp:415-427 | D stays an int all the way if it does behind the last column, and within twice the run in a line that is not steep |
| Udmf.StepsFitIff | src/map/udmf.cpp:415-427 | for a steep line that condition is exact: every value of D fits an int; for the others it is a run below 2^30 |
| Udmf.SteepLineOverflows | src/map/udmf.cpp:427 | a line of a large map that fails it |
| Udmf.PlotsOneRow | src/map/udmf.cpp:418-427 | the error bound admits one row a column |
| Udmf.PlotsRises | src/map/udmf.cpp:418-427 | rows never fall and rise by at most one a column |
| Udmf.PlotsInside | src/map/udmf.cpp:414-427 | rows stay between the start and min(dx, dy) |
| Udmf.LastRow | src/map/udmf.cpp:414-427 | and reach that in the last column |
| Udmf.EndIsPlotted | src/map/udmf.cpp:414-427 | the last point is the end vertex if and only if 0 <= rise <= run |
| Udmf.DrawLine | src/map/udmf.cpp:413-428 | afterwards exactly the cells within -dx < 2*(dy*k - dx*j) <= dx, wall rows included, are set, all stores inside the grid |
| Udmf.DrawWalls | src/map/udmf.cpp:394-429 | exactly the cells some linedef covers, from the lower floor to the higher ceiling |
| Udmf.SpanOfBothSides | src/map/udmf.cpp:398-412 | a wall reaches from the lower floor to the higher ceiling of the sectors on its sides |
| Udmf.FirstOctantStaysInside | src/map/udmf.cpp:414-427 | a first-octant line between vertices of the grid stays in it |
| Udmf.MovedIsSmall | src/map/udmf.cpp:345-355 | no map is wider than 2^26 blocks once it is moved |
| Udmf.FirstOctantMaps | src/map/udmf.cpp:394-429 | maps with all lines in the first octant stay inside their grid, and D an int |
| Udmf.BuildGrid | src/map/udmf.cpp:320-429 | from raw vertices and sectors to the grid with every wall and nothing else, for all maps whose moved lines stay inside it and overflow nothing |
| Tables.FreeSlotExists | src/lobby.cpp:130-136 | the check for a full table passes if and only if the search finds a slot |
| Tables.InsertConsistent | src/lobby.cpp:129-147 | a join keeps the invariant: count = occupants, index = slot, epoll = occupants' sockets |
| Tables.RemoveConsistent | src/lobby.cpp:175-188 | so does a leave, after which its socket is no longer registered |
| Tables.RemoveUndoesInsert | src/lobby.cpp:148-156 | a failed start leaves the table as it was |
| Tables.RunConsistent | src/lobby.cpp:129-188 | the invariant holds over every run of joins and leaves and the count stays within the table |
| Tables.BroadcastCoverage | src/lobby.cpp:206-249 | never the sender; all others if and only if no other occupant sits at or past the count |
| Tables.EveryoneReachesAllIff | src/lobby.cpp:206-249 | all occupants reach each other if and only if the occupied slots are the first ones or there is at most one occupant |
| Tables.PrefixReachesAll | src/lobby.cpp:206-249 | all others while the occupied slots are the first ones |
| Tables.JoinsKeepPrefix | src/lobby.cpp:129-160 | joins keep that shape |
| Tables.JoinOnlyRunsReachAll | src/lobby.cpp:129-249 | so every broadcast of a run without leaves reaches all others |
| Tables.HoleIsMissed | src/lobby.cpp:207 | a run with one leave after which a broadcast misses a player |
| Lobbies.Lobby.AddPlayer | src/lobby.cpp:129-160 | the table takes the join or, full or with a failed start, stays as it was; index and entity id are the slot |
| Lobbies.Lobby.RemovePlayer | src/lobby.cpp:175-188 | the table takes the leave; a second removal fails at epoll with nothing changed |
| Lobbies.Lobby.PlayerList | src/player.cpp:232-261 | the announced count is the number of entries that follow, one for each player in the order of their slots |
| Lobbies.Lobby.Broadcast | src/lobby.cpp:206-249 | the loop sends to exactly the players at the slots the table says are reached, in order |
| Lobbies.Server.CreateClient | src/server.cpp:259-278 | the client table takes the join or, full, stays as it was |
| Lobbies.Server.RemoveClient | src/server.cpp:280-292 | the client table takes the leave; an empty slot changes nothing |
| Lobbies.AddToLobby | src/server.cpp:305-315 | the first lobby with space takes the player, all others stay as they are |

## Where the code and its documentation differ

The model follows the code; the lemma named says exactly when the two agree.

- The count in front of a section is 4096 for a section of air only and 0 for one full
  of a single block, and with several ids it counts indices other than 0, whatever id
  index 0 stands for (`Sections.BlockCountIsNonAir`, `FullSectionCountedEmpty`).
- A packet id is taken for one byte wherever it was read from, so the parser reads past
  the end of contents with a longer one unless their buffer has room to spare
  (`Framing.ParseInside`, `TwoByteIdOverreads`, `RoomForLongId`).
- The buffer of a palette has no room of its own for the entry count
  (`Container.PaletteFitsIff`, `OneSmallIdHasRoom`).
- The guard of `getSection` admits chunks that stick out of the map
  (`MapStore.GuardAdmitsOneChunkMore`); the chunk loop never asks for them.
- `writePalletedContainer` sends palettes above 255 entries as bare indices
  (`Container.IdsSurvive`, `LargePaletteLosesIds`). The chunk sender passes 0 for the
  global size, and with that such a palette, or an empty one, has no layout at all
  (`Chunks.WritableWithoutGlobal`).
- The reader does not step over the end byte of a slot without NBT (`Slots.ReadSlot`).
- The emitter's buffer is too small for longer weapon names (`Slots.BufferSuffices`).
- Broadcast loops stop at the player count (`Tables.EveryoneReachesAllIff`).
- Local index 0 of a region section is not copied (`Region.LoadedCellDenotes`), and the
  rows above the map are not dropped but stored outside it unless they hold nothing else
  (`Region.StoresInsideIff`).
- A peer that acknowledges a login, or starts a second one, before it has read the answer
  loses the layout (`Connections.AcknowledgedTooSoon`, `SecondStartMisread`).

## Left out

- Foreign code: zlib is a pair of functions of which only "uncompress inverts compress"
  is assumed, in any buffer large enough, epoll a set of registered sockets, a socket the bytes still to come and a
  list of outcomes for the reads on it. Writes are whole and succeed, and so does
  compression. curl, cJSON, cNBT, MD5, logging, threads, the epoll pipe and the
  server's master socket are not part of this model.
- Floats: angles, positions and rotations of entities. `ceilf(log2f(n))` is the least b
  with 2^b >= n, for n up to 2^20 (a little above 2^21 a float logarithm rounds down to
  the exponent below); the game has fewer than 2^15 block states.
- Memory that cannot be allocated, and `free`.
- `nbtSize` reads `res += read(buff, &res)` as header plus value read, as the comment at
  src/C/mcTypes.c:229 means it, although C leaves the order open.
- The other packets of startPlay, keep-alive, disconnects, failures of a
  send, heightmaps (src/player.cpp:449-475), biomes other than NULL, byte arrays, bit sets
  and getters: independent of the properties here or easy.
- UDMF text, sector fill and spawns (src/map/udmf.cpp:430 on) and the parsing of region
  chunks before their states: only their results enter, as arrays and section lists.
- VarInt.ReadVarInt: requires the bytes the value needs to be there; the C reader has no
  length and reads on.
- Packed.WritePackedArray: field widths 1 to 30 and fewer than 2^24 values, since a mask
  `1 << bpe` of an int and a length held in a float are exact only there.
- Container.WritePalettedContainer: palettes that overflow the buffer the source allocates
  are excluded, by the condition PaletteFitsIff proves exact.
- Container.ReadPalettedContainer: containers of more than 2^24 states are excluded, since
  the reader computes their number in floats; negative counts are excluded.
- Container.ContainerRoundTrip: both ends must pick the same width in the direct layout,
  which needs a global palette of more than 256 ids, since the width is not on the wire
  in a form the reader uses.
- Region.LoadRegion: files whose cells would be stored outside the map are excluded, as
  Region.StoresInsideIff says exactly; at most 132 sections a chunk, which is what a signed
  byte can number from -4 on, and at most 4096 palette entries a section, one a cell.
- Framing.ReadSocket: length prefixes of more than five bytes are excluded, since the
  source then shifts past the width of an int; a negative length counts as a failed
  allocation.
- Framing.ParsePacket: contents on which the parser would read behind its buffer are
  excluded, by the condition Framing.ParseInside proves exact. A negative announced length
  gives the null packet: no buffer of that size can be allocated, and zlib refuses to
  inflate without one.
- Connections.RunStaysInStep: either end puts packets on the stream as a whole and reads
  whole frames; the pieces they arrive in are the business of Framing.ReadSocket. A peer
  that asks while it does not know the layout is excluded, as SecondStartMisread shows why.
- Login.Client.HandlePacket: requests too short for the fields the handler reads are
  excluded, and answers must fit a frame; what a player goes on to send is a parameter.
- Nbt.NbtSize: tags below 2^31 bytes with names shorter than 32768 bytes, since sizes are
  ints and name lengths signed shorts.
- Slots.GetNbt: the room of its buffer is a parameter, 100 bytes in the source; names that
  do not fit are excluded, and BufferSuffices says which these are.
- Slots.WalkInventory: names of up to 65535 bytes, the most an NBT string can hold.
- Slots.ReadSlot: the NBT is returned as the bytes it was measured to have; parsing and
  dumping it again is cNBT's.
- Udmf.DrawLine: requires the line to stay inside the grid; lines outside the first octant
  that leave it are excluded because the source stores outside its arrays, and steep ones
  on which the int D overflows, by the condition StepsFitIff proves exact.
- Lobbies.Lobby.AddPlayer: a socket already registered, for which epoll would fail, is
  excluded; whether startPlay succeeds is a parameter. A player that comes from another
  lobby keeps the entity id it has.
- Lobbies.Lobby.Broadcast: returns the players reached instead of sending to them.
- Positions.PositionRoundTrip: `>>` of a negative word is the arithmetic shift and `<<`
  drops the high bits, as compilers do it; the macros are applied to values, not to
  unparenthesised expressions.
