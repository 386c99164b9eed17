# Lichtenstein server: model and proofs

Lichtenstein is a server that draws effects into a framebuffer and sends the pixels over UDP to nodes
that drive LED strips. This project models the parts of it in which an error would be hard to see, in
the form the code has (loops over buffers, objects that change in place, a state that is carried from
call to call), and proves what they are for.

- `Crc.dfy`, `Crc32.dfy`, `CrcBurst.dfy`, `CrcValues.dfy`: the checksum. One bit step of the shift
  register, the table generator, and the bit-wise, byte-wise, slicing-by-16 and prefetching routines, all
  proved equal to one reference. Then what the checksum detects, and the reference in literal constants.
- `PacketFields.dfy`, `Packet.dfy`, `PacketBranches.dfy`, `PacketChecksum.dfy`: packets. Byte order
  conversion in place, each of its branches at literal offsets, filling in headers, checksumming and
  validating, and the way of a packet from sender to receiver.
- `Base64.dfy`, `Base64Encoder.dfy`, `Base64Layout.dfy`, `Base64Decoder.dfy`, `Base64RoundTrip.dfy`:
  the resumable base64 encoder and decoder, against the encoding of section 4 of RFC 4648 with line
  breaks as in section 6.8 of RFC 2045.
- `OutputGroups.dfy`, `OutputMapper.dfy`: groups, ubergroups and the map from them to routines.
- `Framebuffer.dfy`, `Layers.dfy`, `EffectRunner.dfy`: one frame, from the map to the framebuffer.
- `Server.dfy`, `Requests.dfy`: adding mappings, removing them and drawing frames in any order, when a
  frame is safe, and which requests leave the next one unsafe.
- `DeltaSender.dfy`, `ChannelOutput.dfy`: which part of a channel is sent, and what a node then shows.
- `SendBookkeeping.dfy`, `ProtocolHandler.dfy`, `PacketWire.dfy`: back-off, pending writes, timers, and
  the framebuffer packet down to its bytes on the wire.

The host is little-endian. Numbers that the code keeps in 8, 16 or 32 bits are bit-vectors; sizes and
counters are unbounded except where the text below says otherwise.

## What the proofs found

- The checksum is not the CRC-32 of section 8 of RFC 1952. The constant is spelled unreflected but the
  register runs towards bit 0, so the feedback polynomial has degree 27: after one byte the register
  holds 27 bits, and every checksum of a non-empty message has its top five bits set. Damage inside 27
  consecutive bits is always noticed. Of all damage inside 28 consecutive bits exactly one pattern
  passes, in every message and at every place (`CrcBurst.BurstOf28`, `CrcBurst.BlindSpot`).
- A comment in `src/LichtensteinUtils.cpp` suspects the lookup table to be wrong. A table built by
  `tools/crctabgen.c` is right: every entry is what the bit-wise form computes, so all forms agree.
- The prefetching form adds its block size to the prefetch distance in a `size_t`. It reads past its
  data exactly when that sum wraps to no more than the data's remainder modulo 64.
- The protocol's documentation says that multi-byte values go out in network order. Two fields do not:
  a server announcement's status and a reconfiguration's host name length. They are right only when
  their two bytes happen to agree (`Packet.ForgottenFieldOrder`); `Packet.StatusIsMisread` is a packet in
  which they do not. This is about the conversion function alone, for nothing in the repository builds
  one of these two packets. The version field is converted, but validation neither checksums nor compares
  it (`PacketChecksum.DamagedHeader`).
- The delta sender sends the pixels before the last one that changed and so never that pixel itself. A
  node that was in sync stays in sync through a frame exactly when the frame changed nothing
  (`DeltaSender.InSyncOnlyIfUnchanged`).
- A comment says that ten failed packets start the back-off. The code compares before it counts, so it
  takes sixteen.
- No transaction number ever has more pending writes than live timers, even when numbers collide, with
  one exception: an acknowledgement cancels the timer its write remembers, and if that id was meanwhile
  given to another number that has no timer to spare, this is broken
  (`SendBookkeeping.EventKeepsConsistent`, `SendBookkeeping.RunsAreConsistent`). A write can then stay
  pending for ever (`SendBookkeeping.ReusedTimerForgets`). It cannot happen if no new timer's id is
  remembered by a pending write with another number, nor if no send reuses a pending number
  (`SendBookkeeping.SafeTimersSuffice`, `SendBookkeeping.NoCollisionsAreSafe`).
- The encoder's buffer of 2N characters for blocks of N bytes is enough for every stream from N = 2 on.
  For N = 1 it is enough exactly for streams of whole three-byte groups shorter than a line of 54 bytes:
  otherwise the last byte of a line, or the padding at the end, overflows it
  (`Base64Layout.StreamFitsExactly`). The decoder's buffer of N bytes is enough for every text exactly
  from N = 4 on (`Base64Decoder.StreamFitsExactly`).
- The early exits in removing a mapping are right because no two keys of the map ever cover the same
  group id, which every operation keeps. But a removal that ends at its first hit also skips dropping
  the ubergroup it may just have emptied, although the command server's comment promises that.
- Such an emptied ubergroup is not marked as changed, so the next frame may draw into the buffer that was
  freed. A frame is safe exactly when no mapped empty ubergroup is still bound, with nothing due to be
  attached, to a routine that has a buffer (`Server.SafeExactly`). `Requests.RemoveMapping` says for every
  request, from every state, whether it leaves the next frame unsafe. Two groups mapped together, drawn,
  and removed one by one with a frame in between are enough (`Requests.RemovedOneByOne`); removed in one
  request they do no harm (`Requests.RemovedTogether`).
- Frames do not depend on the order of the map's pointers exactly when layers that meet in the framebuffer
  show the same pixels there (`Layers.OrdersAgreeExactly`).
- A framebuffer of the summed group lengths is large enough if the groups leave no gap. For groups
  that do not overlap it is large enough exactly then (`Framebuffer.FitsExactlyWhenGapless`).

## Model

| member | source | states |
|---|---|---|
| `Crc.BranchFree` | src/crc32/crc32.cpp:72 | the branch-free line of the bit loop is the bit step of the reference: feed the constant back exactly when the low bit is set |
| `Crc.Multiplied` | tools/crctabgen.c:21 | the generator's multiplying line is the same bit step |
| `Crc.ShiftSum` | src/crc32/crc32.cpp:40-78 | one bit step is linear for XOR |
| `Crc.ShiftsSum` | src/crc32/crc32.cpp:69-79 | so is any number of steps |
| `Crc.ShiftsCompose` | src/crc32/crc32.cpp:69-79 | j steps and then k steps are j + k steps |
| `Crc.AbsorbConcat` | src/crc32/crc32.cpp:65-80 | the register after a message in two parts is the second part's, started from the first part's |
| `Crc.ChecksumConcat` | src/crc32/crc32.cpp:61-83 | the previousCrc32 parameter does what it is for: the checksum of a + b is that of b continued from that of a |
| `Crc.AbsorbWord` | src/crc32/crc32.cpp:121-124 | four bytes may enter the register as one little-endian word and be worked off in 32 steps |
| `Crc.AbsorbFourWords` | src/crc32/crc32.cpp:121-140 | sixteen bytes are four words that take 128, 96, 64 and 32 steps, summed by XOR |
| `Crc.SixteenRows` | src/crc32/crc32.cpp:121-140 | sixteen table lookups, with one row per byte position, absorb sixteen bytes |
| `Crc.EightSteps` | src/crc32/crc32.cpp:238 | eight steps split into moving three bytes down and looking one up |
| `Crc.OneRow` | src/crc32/crc32.cpp:237-238 | the classical table step absorbs one byte |
| `Crc32.GenerateTable` | tools/crctabgen.c:18-30 | after both loops entry [s][i] is 8 * (s + 1) bit steps applied to i |
| `Crc32.ExtendColumn` | tools/crctabgen.c:27-29 | the inner loop carries one column through the other fifteen rows and changes nothing else |
| `Crc32.EightBits` | tools/crctabgen.c:19-22 | an entry of the first row is eight bit steps applied to its index |
| `Crc32.NextRow` | tools/crctabgen.c:28 | a row is one table step over a zero byte from the row below |
| `Crc32.RowsAreLinear` | tools/crctabgen.c:25-30 | every row of a generated table maps the XOR of two indices to the XOR of the entries |
| `Crc32.Bitwise` | src/crc32/crc32.cpp:61-83 | the bit-wise routine returns the reference checksum of every message for every previous checksum |
| `Crc32.OneByte` | src/crc32/crc32.cpp:232-241 | so does the one-table routine |
| `Crc32.ByteLoop` | src/crc32/crc32.cpp:149-150 | the byte loop carries the register from a prefix of the message to the whole message |
| `Crc32.TableStep` | src/crc32/crc32.cpp:238 | one lookup in a generated table absorbs one byte |
| `Crc32.SixteenBytes` | src/crc32/crc32.cpp:86-153 | the slicing routine returns the reference checksum, for every length |
| `Crc32.Slices` | src/crc32/crc32.cpp:97-142 | the unrolled loop absorbs 64 bytes |
| `Crc32.SixteenBytesPrefetch` | src/crc32/crc32.cpp:157-229 | the prefetching routine returns the reference checksum whenever it does not run past its data |
| `Crc32.PrefetchFitsExactly` | src/crc32/crc32.cpp:166-169 | it runs past its data exactly when the 64-bit sum of block size and distance wraps to at most the length modulo 64 |
| `Crc32.Fast` | src/crc32/crc32.cpp:245-249 | the routine that packets use returns the reference checksum |
| `CrcBurst.NarrowSurvives` | src/crc32/crc32.cpp:40 | on 27-bit registers no number of steps loses a non-zero register |
| `CrcBurst.AbsorbIsNarrow` | src/crc32/crc32.cpp:40-80 | after a non-empty message the register has at most 27 bits, wherever it started |
| `CrcBurst.ChecksumTopBits` | src/crc32/crc32.cpp:61-83 | every checksum of a non-empty message has its top five bits set |
| `CrcBurst.AbsorbAsBits` | src/crc32/crc32.cpp:65-80 | the byte-wise register is the bit-serial one over the message's bits, lowest bit of a byte first |
| `CrcBurst.AbsorbDifference` | src/crc32/crc32.cpp:65-80 | what two runs differ by depends only on the bits they differ by |
| `CrcBurst.BlindOnly` | src/crc32/crc32.cpp:40-78 | of all non-zero 28-bit differences exactly one is forgotten, by the first step |
| `CrcBurst.BurstOf28` | src/crc32/crc32.cpp:61-83 | messages that differ only inside 28 consecutive bits have equal checksums exactly when they are equal or differ by the one blind pattern |
| `CrcBurst.BurstOf27` | src/crc32/crc32.cpp:61-83 | messages that differ only inside 27 consecutive bits have equal checksums exactly when they are equal |
| `CrcBurst.ThreeBytes` | src/crc32/crc32.cpp:61-83 | different messages that differ only inside three consecutive bytes have different checksums |
| `CrcBurst.BlindSpot` | src/crc32/crc32.cpp:40-83 | the limit is sharp: four concrete bytes can replace four zero bytes anywhere in any message unnoticed |
| `CrcValues.ChecksumIs` | src/crc32/crc32.cpp:61-83 | the checksum is the bit-serial register over the message's bits, started from previous ^ 0xFFFFFFFF and inverted by ^ 0xFFFFFFFF at the end |
| `CrcValues.BitStepIs` | src/crc32/crc32.cpp:72 | one bit enters at the low end, the register moves down by one, and 0x04C11DB7 is fed back exactly if a one falls out |
| `CrcValues.BitsAre` | src/crc32/crc32.cpp:67-79 | the bits of a message are those of its bytes from the first to the last, each from mask 1 to mask 128 |
| `CrcValues.KnownChecksums` | src/crc32/crc32.cpp:61-83 | the checksums of a zero byte and of the text 12, as numbers |
| `CrcValues.KnownEntries` | tools/crctabgen.c:18-30 | entries [0][1], [0][255] and [1][1] of every generated table, as numbers |
| `PacketFields.SwapAllTwice` | src/LichtensteinUtils.cpp:100-118 | swapping the same fields again restores every byte |
| `PacketFields.SwappedField` | src/LichtensteinUtils.cpp:100-118 | a swapped field reads in the other byte order as it read before in this one |
| `Packet.Reverse16` | src/LichtensteinUtils.cpp:112-115 | a 16-bit swap in the buffer trades the field's two bytes and keeps all others |
| `Packet.Reverse32` | src/LichtensteinUtils.cpp:100-102 | a 32-bit swap mirrors the field's four bytes and keeps all others |
| `Packet.SwapHeader` | src/LichtensteinUtils.cpp:98-118 | the nine header fields are swapped and the opcode is known in host order in either direction |
| `Packet.SwapNodeAnnouncement` | src/LichtensteinUtils.cpp:139-153 | the announcement's fields are swapped, the IP address is not |
| `Packet.SwapServerAnnouncement` | src/LichtensteinUtils.cpp:168-172 | four fields are swapped; IP address and status are not |
| `Packet.SwapNodeStatus` | src/LichtensteinUtils.cpp:189-211 | all fifteen status fields are swapped |
| `Packet.SwapChannelCount` | src/LichtensteinUtils.cpp:266-272 | the channel count is swapped and known in host order in either direction |
| `Packet.SwapNodeAdoption` | src/LichtensteinUtils.cpp:263-277 | the fixed fields and as many array entries as the host-order channel count says are swapped |
| `Packet.ConvertPacketByteOrder` | src/LichtensteinUtils.cpp:94-305 | a conversion swaps exactly the fields of the opcode's branch, or only the header's when it is a request, too short or unknown, and returns 0 or -1 accordingly |
| `Packet.FieldsAreLaid` | src/lichtenstein_proto.h:63-250 | the fields of every branch lie inside the packet and do not overlap |
| `Packet.ConvertedLooksSame` | src/LichtensteinUtils.cpp:104-126 | after a conversion the other direction sees the same opcode, channel count, payload flag and fields |
| `Packet.RoundTrip` | src/LichtensteinUtils.cpp:94-305 | converting there and back restores every byte, through the same branch with the same return code, for every opcode |
| `Packet.NetworkOrder` | src/LichtensteinUtils.cpp:94-305 | on the way out every listed field becomes big-endian and every other byte is kept |
| `Packet.ForgottenFieldOrder` | src/LichtensteinUtils.cpp:157-175 | a server announcement's status and a reconfiguration's host name length go out in network order exactly when their two bytes agree |
| `Packet.StatusIsMisread` | src/LichtensteinUtils.cpp:157-175 | a server announcement with status 1 whose status a node reads as another number |
| `PacketBranches.ReturnCodeIs` | src/LichtensteinUtils.cpp:94-305 | the return code is 0 exactly for a request, or an opcode 0, 1, 2, 3, 4, 6 or 12 whose literal minimum length is met, and -1 otherwise |
| `PacketBranches.HoldsExactly` | src/LichtensteinUtils.cpp:94-280 | what a conversion asks of its buffer is room for the header, for the length given and, in an adoption long enough to be converted, for four bytes a channel behind offset 40, and nothing more |
| `PacketBranches.HeaderOnly` | src/LichtensteinUtils.cpp:98-126 | a request, a short packet or an unknown opcode has its nine header fields mirrored at literal offsets and every other byte kept |
| `PacketBranches.NodeAnnouncement` | src/LichtensteinUtils.cpp:128-155 | in an announcement just the versions, the port and the three numbers behind the host name change; the MAC and IP addresses and all else stay |
| `PacketBranches.ServerAnnouncement` | src/LichtensteinUtils.cpp:157-175 | in a server announcement four fields at literal offsets are mirrored; IP address, status and all else stay |
| `PacketBranches.NodeStatus` | src/LichtensteinUtils.cpp:178-214 | in a node status the fifteen fields are mirrored at literal offsets, and all else stays |
| `PacketBranches.FramebufferData` | src/LichtensteinUtils.cpp:218-233 | in framebuffer data channel, format and count are mirrored and every pixel byte stays |
| `PacketBranches.SyncOutput` | src/LichtensteinUtils.cpp:235-247 | in a sync the channel mask is mirrored and all else stays |
| `PacketBranches.NodeReconfig` | src/LichtensteinUtils.cpp:283-294 | in a reconfiguration nothing behind the header changes |
| `PacketBranches.NodeAdoption` | src/LichtensteinUtils.cpp:250-280 | in an adoption three fixed fields and one four-byte entry for each channel from offset 40 are mirrored and all else stays |
| `PacketChecksum.ValidatePacket` | src/LichtensteinUtils.cpp:18-53 | too small, wrong checksum if flagged, wrong magic, fine: tested in this order and reported so |
| `PacketWire.ValidityIs` | src/LichtensteinUtils.cpp:18-53 | the verdict on every packet in literal bytes: size 28, flag bit 1 at offset 15, checksum of the bytes from offset 12 at 8..12, magic 4C 49 43 48 |
| `PacketChecksum.ApplyChecksum` | src/LichtensteinUtils.cpp:62-81 | a packet smaller than the header is refused untouched; otherwise the checksum field and nothing else changes |
| `PacketWire.SummedIs` | src/LichtensteinUtils.cpp:62-81 | the checksum is stored high byte first at 8..12 and covers the bytes from offset 12 on |
| `PacketChecksum.SummedValidates` | src/LichtensteinUtils.cpp:18-81 | a checksummed packet is accepted if its magic is right and otherwise rejected for its magic only |
| `PacketChecksum.PopulateHeader` | src/LichtensteinUtils.cpp:314-332 | whatever order the fields are stored in, the header ends up as the protocol lays it out; flags keep their other bits, and payload length and payload stay |
| `PacketChecksum.PopulatedParts` | src/lichtenstein_proto.h:63-76 | each header field reads back, at its offset, as what it was filled with |
| `PacketChecksum.PopulatedIsPrepared` | src/LichtensteinUtils.cpp:314-332 | populating prepares a packet for sending, whatever else is filled in afterwards |
| `PacketChecksum.PreparedValidates` | src/LichtensteinUtils.cpp:18-81 | every prepared packet, converted to network order and checksummed, is accepted, with its checksum looked at |
| `PacketChecksum.DamagedPayload` | src/LichtensteinUtils.cpp:28-43 | damage inside 28 consecutive bits behind the checksum field is rejected exactly unless it cleared the flag, changed nothing or is the blind pattern |
| `PacketChecksum.DamagedThreeBytes` | src/LichtensteinUtils.cpp:28-43 | damage inside three consecutive bytes at offset 12 or later is rejected with an invalid checksum exactly when the flag is still set |
| `PacketChecksum.DamagedHeader` | src/LichtensteinUtils.cpp:28-52 | damage before the opcode is reported as checksum or magic according to the bytes it hit, and the version's bytes are not protected |
| `PacketChecksum.DamagedAnywhere` | src/LichtensteinUtils.cpp:28-52 | any damage, across the checksum field's border too: a flagged copy passes the check exactly when the damage disturbs the register by what it changed in the carried checksum |
| `PacketChecksum.EndToEnd` | src/LichtensteinUtils.cpp:18-332 | what the server builds is accepted, and a copy damaged inside three consecutive bytes with the flag still set is rejected with an invalid checksum |
| `PacketChecksum.Delivered` | src/LichtensteinUtils.cpp:94-305 | the receiver's conversion of what was sent gives back every byte the sender filled in except the checksum field |
| `Base64.LetterDecodes` | src/libb64/cdecode.c:10-17 | the decoder's table undoes the encoder's on all 64 values, and no letter is padding or a newline |
| `Base64.AlphabetIs` | src/libb64/cencode.c:19-24 | the encoder's letters for all 64 values, one by one |
| `Base64.DecodesExactly` | src/libb64/cdecode.c:10-17 | the decoder's table knows exactly these letters: every other character decodes as negative |
| `Base64Encoder.BlocksCompose` | src/libb64/cencode.c:26-85 | encoding a and then b through the carried state is encoding a + b, in output and state, from any reachable state |
| `Base64Encoder.BlocksDoNotMatter` | src/libb64/cencode.c:26-85 | any cut of the input into blocks gives the same text and state |
| `Base64Encoder.Encoder.EncodeByte` | src/libb64/cencode.c:40-80 | one turn of the resumable switch writes the characters of one byte behind those written and moves the state on |
| `Base64Encoder.Encoder.EncodeBlock` | src/libb64/cencode.c:26-85 | a block appends its characters to the buffer, and leaves the state for the next block |
| `Base64Encoder.Encoder.EncodeBlockEnd` | src/libb64/cencode.c:87-108 | the end writes the bits held back, padding and a newline, and nothing else |
| `Base64Layout.OutputIsLines` | src/libb64/cencode.c:26-108 | from any group boundary the text is the standard encoding, broken after every eighteenth group of the line |
| `Base64Layout.TextIsLines` | src/libb64/cencode.c:26-108 | the whole text is the standard encoding of section 4 of RFC 4648 in lines of 54 bytes, each ended by a newline |
| `Base64Layout.FullLine` | src/libb64/cencode.c:10 | a full line has exactly 72 characters |
| `Base64Layout.NoNewlineInside` | src/libb64/cencode.c:19-24 | lines are ended by nothing but the line breaks |
| `Base64Layout.TextLength` | src/libb64/cencode.c:26-108 | n bytes give exactly 4 * ceil(n / 3) + floor(n / 54) + 1 characters |
| `Base64Layout.LineBreak` | src/libb64/cencode.c:75-80 | the text has its line breaks behind every 72 characters |
| `Base64Layout.Vectors` | src/libb64/cencode.c:26-108 | the standard encodings of f, fo, foo and foobar are those of section 10 of RFC 4648, character by character |
| `Base64Layout.OutputLength` | src/libb64/cencode.c:26-85 | the exact number of characters one block writes from any reachable state |
| `Base64Layout.BlockFits` | src/libb64/encode.h:48-65 | from any reachable state a block of at most N >= 2 bytes, and the end, fit the 2N characters of the stream wrapper |
| `Base64Layout.ByteFits` | src/libb64/encode.h:48-60 | a block of one byte fits two characters exactly when it does not end a line |
| `Base64Layout.StreamFitsExactly` | src/libb64/encode.h:44-65 | over a whole stream, every block and the end fit the 2N characters exactly when N is at least 2, or N is 1 and the stream is whole groups shorter than a line |
| `Base64Decoder.BlocksCompose` | src/libb64/cdecode.c:25-87 | decoding a and then b through the carried state is decoding a + b, in output and live state |
| `Base64Decoder.BlocksDoNotMatter` | src/libb64/cdecode.c:25-87 | any cut of the text into blocks gives the same bytes |
| `Base64Decoder.ForeignCharactersDoNotMatter` | src/libb64/cdecode.c:38-46 | characters outside the alphabet, padding included, can be left out anywhere |
| `Base64Decoder.BitsReceived` | src/libb64/cdecode.c:47-82 | bytes written and bits in progress never exceed six bits for every character read |
| `Base64Decoder.BlockFits` | src/libb64/decode.h:43-54 | a buffer of the block's size holds the output and the byte in progress from N = 4 on |
| `Base64Decoder.StreamFitsExactly` | src/libb64/decode.h:39-56 | every text can be decoded through a buffer of N bytes, the byte in progress included, exactly when N is at least 4 |
| `Base64Decoder.Decoder.DecodeCharacter` | src/libb64/cdecode.c:37-82 | one turn of the resumable switch, with the byte in progress kept in the output buffer |
| `Base64Decoder.Decoder.DecodeBlock` | src/libb64/cdecode.c:25-87 | a block writes its bytes, keeps the rest of the buffer, and leaves the state for the next block; the carried byte matters only outside the first step |
| `Base64RoundTrip.Simulation` | src/libb64/cdecode.c:25-87 | a decoder that reads what the encoder has written so far is in step with it, at every byte and in all three steps |
| `Base64RoundTrip.TextDecodes` | src/libb64/cencode.c:26-108 | decoding the text of any bytes gives the bytes |
| `Base64RoundTrip.RoundTrip` | src/libb64/cdecode.c:25-87 | encoding any sequence of blocks, ending, and decoding the text in any other sequence of blocks gives the original bytes |
| `OutputGroups.TotalCovers` | src/OutputMapper.cpp:528-535 | a member's own pixels are never more than the ubergroup's buffer holds |
| `OutputGroups.TotalWithout` | src/OutputMapper.cpp:540-552 | the sum of the members' lengths may take any member first |
| `OutputGroups.Routine.Execute` | src/Routine.cpp:273-281 | a frame fills the attached buffer to its bound length |
| `OutputGroups.OutputGroup.BindBufferToRoutine` | src/OutputMapper.cpp:352-360 | afterwards the routine counts as attached; what it draws into is its old buffer if it was the last one bound and nothing changed since, and otherwise the group's |
| `OutputGroups.OutputUberGroup.BindBufferToRoutine` | src/OutputMapper.cpp:352-360 | the same for an ubergroup, with or without a buffer |
| `OutputGroups.OutputUberGroup.CountPixels` | src/OutputMapper.cpp:540-552 | the sum of the members' lengths, in whatever order the set is walked |
| `OutputGroups.OutputUberGroup.ResizeBuffer` | src/OutputMapper.cpp:317-339 | the old buffer is freed; the new one is as long as the members together and marked as changed, or there is none and the mark stays as it was |
| `OutputGroups.OutputUberGroup.ContainsMember` | src/OutputMapper.cpp:506-519 | membership by group id |
| `OutputGroups.OutputUberGroup.RemoveMember` | src/OutputMapper.cpp:481-501 | every member with the id is gone, all others stay, the buffer's length follows, and losing the last member leaves the mark as it was |
| `OutputGroups.OutputUberGroup.KeptAttached` | src/OutputMapper.cpp:317-360 | whatever number of members went, a routine for which no attach is due has the current buffer, or one freed when the last member went |
| `OutputMapper.DropIds` | src/OutputMapper.cpp:89-153 | if no two keys share an id, taking ids away from every key and dropping keys left empty takes exactly these ids away from what the map shows |
| `OutputMapper.InsertKey` | src/OutputMapper.cpp:81 | a new key over ids not shown yet shows them and keeps every other id's routine |
| `OutputMapper.OutputMapper.CoveredOnce` | src/OutputMapper.cpp:129-142 | in every valid state an id is covered by one key at most |
| `OutputMapper.OutputMapper.ViewIs` | src/OutputMapper.cpp:49-153 | in every valid state an id shows a routine exactly when that routine is mapped to the group with the id or to an ubergroup with such a member, and there is one such key at most |
| `OutputMapper.OutputMapper.Dropped` | src/OutputMapper.cpp:89-256 | the step all removals share, on the objects |
| `OutputMapper.OutputMapper.EraseEmpties` | src/OutputMapper.cpp:163-178 | erasing while iterating drops exactly the keys of empty ubergroups |
| `OutputMapper.OutputMapper.RemoveEmptyUbergroups` | src/OutputMapper.cpp:158-179 | no empty ubergroup is left, and no id loses its routine |
| `OutputMapper.OutputMapper.EraseSingles` | src/OutputMapper.cpp:105-124 | erasing while iterating drops exactly the keys equal to the group, and reports whether there was one |
| `OutputMapper.OutputMapper.RemoveSingles` | src/OutputMapper.cpp:102-124 | if a key was dropped the id is gone from the whole map, so the search through the ubergroups may be skipped |
| `OutputMapper.OutputMapper.FindUbergroup` | src/OutputMapper.cpp:131-142 | the search finds an ubergroup with the id if and only if there is one |
| `OutputMapper.OutputMapper.RemoveFrom` | src/OutputMapper.cpp:136-139 | taking the member out of the first ubergroup found takes the id out of the whole map, so the early return is right |
| `OutputMapper.OutputMapper.RemoveFromUbergroup` | src/OutputMapper.cpp:129-147 | an ubergroup with the id is found if and only if there is one, it loses exactly the members with the id, and no other is touched; the id is gone in either case |
| `OutputMapper.OutputMapper.RemoveMappingForGroup` | src/OutputMapper.cpp:89-153 | exactly the group's id is dropped, every other id keeps its routine, an ubergroup argument drops no id; if and only if the id was found in an ubergroup, the map keeps all its keys, that ubergroup even when it is now empty, and otherwise no empty ubergroup stays mapped |
| `OutputMapper.OutputMapper.Strip` | src/OutputMapper.cpp:226-238 | an ubergroup loses exactly the members that have an id of the new one, and stays sized |
| `OutputMapper.OutputMapper.StripAll` | src/OutputMapper.cpp:221-240 | so does every mapped ubergroup |
| `OutputMapper.OutputMapper.EraseEqual` | src/OutputMapper.cpp:197-212 | exactly the ubergroups with the very same members are dropped |
| `OutputMapper.OutputMapper.EraseMembers` | src/OutputMapper.cpp:243-255 | exactly the groups whose id is in the new ubergroup are dropped |
| `OutputMapper.OutputMapper.RemoveMappingsInUbergroup` | src/OutputMapper.cpp:184-256 | exactly the ubergroup's ids are dropped from the map, and the ubergroup itself is unchanged |
| `OutputMapper.OutputMapper.AddMapping` | src/OutputMapper.cpp:49-84 | adding a mapping overrides exactly the key's ids with the routine; null arguments and an empty ubergroup change nothing, the latter is an error; afterwards no mapped ubergroup is empty |
| `OutputMapper.OutputMapper.GetAllGroups` | src/OutputMapper.cpp:263-283 | lists exactly the mapped groups, members of ubergroups included, and none twice |
| `OutputMapper.OutputMapper.AllShown` | src/OutputMapper.cpp:263-283 | the listed groups have exactly the mapped ids |
| `Framebuffer.Framebuffer.Resize` | src/Framebuffer.cpp:66-72 | resizing keeps the pixels that fit and fills up with black |
| `Framebuffer.Framebuffer.RecalculateMinSize` | src/Framebuffer.cpp:33-51 | the framebuffer gets as many pixels as the groups have together |
| `Framebuffer.GaplessFits` | src/Framebuffer.cpp:33-51 | if the groups leave no gap below the highest end, however they overlap, every group ends inside the framebuffer |
| `Framebuffer.FitsExactlyWhenGapless` | src/Framebuffer.cpp:33-51 | for groups that do not overlap, every group ends inside exactly when there is no gap |
| `Layers.RenderedIsUnique` | src/EffectRunner.cpp:399-404 | what a frame should look like, given without any order, leaves no pixel open |
| `Layers.CopyPaints` | src/OutputMapper.cpp:382-389 | copying one more layer leaves every pixel showing a layer that covers it, or as it was |
| `Layers.CopyAllPaints` | src/EffectRunner.cpp:399-404 | so do any layers copied one after the other, however they overlap |
| `Layers.PaintedIsRendered` | src/EffectRunner.cpp:399-404 | such a frame is the order-free one exactly when layers that meet show the same pixels |
| `Layers.OrderDoesNotMatter` | src/EffectRunner.cpp:399-404 | two iteration orders of layers that show the same pixels where they meet give the same frame |
| `Layers.OrdersAgreeExactly` | src/EffectRunner.cpp:399-404 | all orders of a finite set of layers give the same frame exactly when any two that meet in the framebuffer show the same pixels there |
| `EffectRunner.CopyIntoFramebuffer` | src/OutputMapper.cpp:366-392 | pixel start + j becomes buffer pixel j scaled by the group's brightness, and every other pixel is untouched |
| `EffectRunner.CopiedPixels` | src/OutputMapper.cpp:382-389 | in literal pixels: place start + j has hue and saturation of buffer pixel j and its intensity times the brightness, for all j from 0 to end - start; every other place is kept |
| `EffectRunner.CopyUbergroup` | src/OutputMapper.cpp:528-535 | every member shows the ubergroup's buffer from index 0, scaled by its own brightness, and every read is inside the buffer |
| `EffectRunner.RunSingle` | src/EffectRunner.cpp:426-431 | one group's turn paints its layer over whatever is there and leaves nothing to attach |
| `EffectRunner.RunUber` | src/EffectRunner.cpp:426-431 | one ubergroup's turn, empty or not, paints its members' layers and leaves nothing to attach |
| `EffectRunner.RunEffect` | src/EffectRunner.cpp:426-440 | one key's turn leaves every other key's contribution to this frame as it was |
| `EffectRunner.CoordinatorRunEffects` | src/EffectRunner.cpp:394-421 | whatever the map's order and however groups overlap, every pixel shows a layer that covers it or is untouched; if layers that meet show the same pixels the frame is exactly the layers of all keys over the old framebuffer; the frame counter advances |
| `EffectRunner.FrameShows` | src/OutputMapper.cpp:366-389 | in a frame made of all layers every mapped group shows, from its first pixel on, what its key's routine draws from index 0 on at its own brightness, and pixels of no mapped group stay |
| `EffectRunner.ApartRangesAreCompatible` | src/EffectRunner.cpp:399-404 | mapped groups whose ranges do not overlap give layers that never meet |
| `EffectRunner.RowsFit` | src/OutputMapper.cpp:375-385 | if every row of the group table ends inside the framebuffer, so does every layer |
| `EffectRunner.MappedGroupsFit` | src/EffectRunner.cpp:394-421 | in a group table without gaps, overlaps allowed, every layer lies inside a framebuffer of the summed size |
| `EffectRunner.MappedGroupsAgree` | src/EffectRunner.cpp:394-421 | the map's invariant and a group table without overlaps give layers that show the same pixels where they meet |
| `Server.SafeExactly` | src/OutputMapper.cpp:317-360 | in every state the server gets into, no turn of the next frame draws into a freed buffer exactly when no mapped empty ubergroup is bound, with no attach due, to a routine that has a buffer; and exactly then every key is bound to its own buffer |
| `Server.MembersStayBound` | src/OutputMapper.cpp:352-360 | in every state the server gets into, an ubergroup that has members is bound to its own buffer |
| `Server.StaysWired` | src/OutputMapper.cpp:89-256 | removing mappings and resizing ubergroups, in any number, keeps all this |
| `Server.SafeIsReady` | src/EffectRunner.cpp:394-421 | a safe map meets what a frame asks for |
| `Server.Server.Removed` | src/OutputMapper.cpp:129-149 | a removal that finds the id in no ubergroup leaves nothing dangling; otherwise the ubergroup hit dangles exactly when it was attached and is now empty, and any other does if it did before |
| `Server.Server.AddMapping` | src/CommandServer.cpp:1173-1199 | a request maps exactly its groups' ids to a new routine, keeps every other id's, leaves no ubergroup dangling and the server valid; no groups at all is an error |
| `Server.Server.RemoveMappingForGroup` | src/OutputMapper.cpp:89-153 | from every valid state exactly one id goes, the server stays valid, and the next frame is safe exactly as Removed says |
| `Server.Server.DrawFrame` | src/EffectRunner.cpp:394-421 | from every valid state in which nothing dangles and every layer fits, overlapping or not, a frame paints the mapped layers, keeps the map and leaves nothing to attach and nothing dangling; layers that agree are shown exactly |
| `Server.Server.CoordinatorRunEffects` | src/EffectRunner.cpp:394-421 | the same from a group table without gaps; if its rows do not overlap and repeated members are equally bright the frame is exactly the mapped layers, and each mapped group's place j has hue, saturation and scaled intensity of what its key's routine draws at j |
| `Requests.WhatIsHit` | src/OutputMapper.cpp:129-142 | during a request a removal hits exactly when its id was in an ubergroup and was not removed yet, and empties an attached ubergroup exactly when the id was all that ubergroup had at the start and nothing was due for it |
| `Requests.RemoveMapping` | src/CommandServer.cpp:1209-1241 | a request drops exactly its groups' ids, keeps the server valid, and leaves the next frame unsafe exactly when something dangled and every removal hit, or one emptied an attached ubergroup at a stroke and every later one hit |
| `Requests.NoLoneIdIsSafe` | src/CommandServer.cpp:1231-1237 | where nothing dangles, a request that names no id that is all there is in an attached ubergroup is harmless |
| `Requests.RemovedOneByOne` | src/CommandServer.cpp:1204-1237 | a run of one request to map two groups, two frames and two removals after which an empty ubergroup is mapped and the next frame would draw into a freed buffer |
| `Requests.RemovedTogether` | src/CommandServer.cpp:1209-1241 | the same two groups removed in one request leave the next frame safe |
| `DeltaSender.ConvertPixels` | src/EffectRunner.cpp:505-547 | the old frame is kept and channel pixel i is the converted framebuffer pixel fbOffset + i |
| `DeltaSender.ConvertedByte` | src/EffectRunner.cpp:505-547 | byte b of converted pixel p lies at p times the stride plus b, in the order the conversion gives |
| `DeltaSender.LastChangedIs` | src/EffectRunner.cpp:618-630 | no pixel behind the index differs, and the pixel at a non-zero index does |
| `DeltaSender.ComparePixel` | src/EffectRunner.cpp:623-629 | the byte loop with its break tells exactly whether the pixels differ |
| `DeltaSender.Scan` | src/EffectRunner.cpp:605-631 | the scan gives the greatest differing index, 0 if there is none, and all pixels if there is no older frame |
| `DeltaSender.Refreshed` | src/EffectRunner.cpp:505-637 | the last frame that was sent beyond a pixel: it was, and no later one was |
| `DeltaSender.NodePixel` | src/EffectRunner.cpp:590-637 | over every run, a node that starts in sync and receives every send shows at each pixel the last frame sent beyond it |
| `DeltaSender.StalePixel` | src/EffectRunner.cpp:590-637 | over every run, a stale pixel was the last changed one of some frame, and no later frame was sent beyond it |
| `DeltaSender.StaleExactly` | src/EffectRunner.cpp:590-637 | a pixel is stale exactly when the last frame differs there from the last frame sent beyond it |
| `DeltaSender.InSyncExactly` | src/EffectRunner.cpp:590-637 | at the end of every run the whole node is in sync exactly when each pixel that was ever the last changed one is in the last frame what it was in the last frame sent beyond it |
| `DeltaSender.InSyncOnlyIfUnchanged` | src/EffectRunner.cpp:604-637 | a node in sync stays in sync through a frame exactly when nothing changed in it |
| `ChannelOutput.OutputPixelData` | src/EffectRunner.cpp:590-637 | without a node, or with nothing changed beyond pixel 0, nothing is sent and nothing changes; otherwise exactly the pixels before the last changed one are handed to the protocol handler |
| `ChannelOutput.DatagramRefreshesNode` | src/EffectRunner.cpp:590-637 | the datagram of a frame is accepted, and a node that overwrites the front of what it shows with the received pixels shows what the run predicts |
| `SendBookkeeping.WaitsOnlyAfterFailures` | src/ProtocolHandler.cpp:438-496 | over every mix of outcomes the counter is the number of consecutive failed attempts, the wait never exceeds 60, and a wait means at least 16 failures in a row |
| `SendBookkeeping.WaitsItOut` | src/ProtocolHandler.cpp:438-442 | from any state, as many calls as the wait is long attempt nothing, whatever the network would have done, and each takes exactly one off the wait |
| `SendBookkeeping.NextCall` | src/ProtocolHandler.cpp:438-496 | after every mix of outcomes: a wait goes down by one, a success clears both numbers, and the sixteenth failure in a row and every later one starts a wait of exactly 60 |
| `SendBookkeeping.AttemptsWhenAllFail` | src/ProtocolHandler.cpp:438-492 | with every send failing, N calls make N attempts up to 16 and 16 + floor((N - 16) / 61) beyond |
| `SendBookkeeping.FirstWith` | src/ProtocolHandler.cpp:323-328 | the position of the first write with a transaction number |
| `SendBookkeeping.FirstGoes` | src/ProtocolHandler.cpp:319-542 | the first write with the number goes and the others keep their order; an acknowledgement cancels the timer of that write, a timer only itself |
| `SendBookkeeping.Counted` | src/ProtocolHandler.cpp:319-542 | the totals count sends, acknowledgements of pending writes, and timers that fired for one |
| `SendBookkeeping.EventKeepsConsistent` | src/ProtocolHandler.cpp:319-542 | counter = list length, sends = acknowledged + timed out + pending, and for each transaction number no more pending writes than live timers: every event keeps this exactly unless it is an acknowledgement that cancels the last timer another number has for its writes |
| `SendBookkeeping.RunsAreConsistent` | src/ProtocolHandler.cpp:319-542 | it holds in every state of a run exactly when no acknowledgement of the run does that |
| `SendBookkeeping.NothingIsForgotten` | src/ProtocolHandler.cpp:319-542 | in such a run, once no timer is live nothing is pending, even if transaction numbers collided |
| `SendBookkeeping.SafeTimersSuffice` | src/ProtocolHandler.cpp:504-510 | no acknowledgement does that if no new timer's id is remembered by a pending write with another number |
| `SendBookkeeping.EventKeepsPaired` | src/ProtocolHandler.cpp:319-542 | as long as no send reuses a pending transaction number, pending writes and live timers belong together one to one |
| `SendBookkeeping.NoCollisionsAreSafe` | src/ProtocolHandler.cpp:319-542 | so in such a run every id that is not live is safe |
| `SendBookkeeping.ReusedTimerForgets` | src/ProtocolHandler.cpp:338-349 | a run in which a reused timer id leaves a write pending for ever |
| `ProtocolHandler.FramebufferFields` | src/lichtenstein_proto.h:214-223 | each part of a framebuffer packet lies at its offset: header, payload length, channel, format, count, pixels |
| `ProtocolHandler.FramebufferIsPrepared` | src/ProtocolHandler.cpp:454-475 | every framebuffer packet is ready to be sent, takes the framebuffer branch and converts without error, so the two checks cannot fail |
| `ProtocolHandler.StoredCount` | src/ProtocolHandler.cpp:458-465 | a stored count or length reads back as that number modulo 2^32 |
| `ProtocolHandler.PayloadIsConverted` | src/ProtocolHandler.cpp:458 | its payload fields go out in network order exactly when the payload length does not wrap to zero in 32 bits |
| `ProtocolHandler.PixelsArrive` | src/ProtocolHandler.cpp:444-475 | for every channel, format and pixels: the datagram is accepted, and the receiver reads back transaction number, channel, format 0 or 1, the payload length and pixel count as numbers modulo 2^32, and every pixel byte |
| `PacketWire.DatagramIs` | src/ProtocolHandler.cpp:444-475 | every byte that goes out: magic, version, checksum, opcode 4, flags, length, channel, format 0 or 1 and count as literals or numbers, high byte first, then the pixels |
| `ProtocolHandler.ProtocolHandler.HandleFramebufferAck` | src/ProtocolHandler.cpp:319-354 | an acknowledgement cancels the timer of the first write with its number and forgets that write, or changes nothing |
| `ProtocolHandler.ProtocolHandler.TimerExpired` | src/ProtocolHandler.cpp:504-506 | a timer that fires is spent and settles the first write with its number, if there still is one |
| `ProtocolHandler.ProtocolHandler.FbSendTimeoutExpired` | src/ProtocolHandler.cpp:523-542 | the first write with the number is forgotten, and no other |
| `ProtocolHandler.ProtocolHandler.SendDataToNode` | src/ProtocolHandler.cpp:433-518 | a running wait is counted down and nothing sent; otherwise the datagram goes out, and its outcome moves the back-off and, if it went through, the pending writes and timers |
| `ProtocolHandler.ProtocolHandler.FillFramebufferPacket` | src/ProtocolHandler.cpp:450-468 | the stores into the cleared buffer give that layout |
| `ProtocolHandler.ProtocolHandler.BuildFramebufferPacket` | src/ProtocolHandler.cpp:444-475 | filling in, converting and checksumming the buffer in place makes the datagram that arrives |

## Left out

- HSI to RGB and RGBW conversion (`src/HSIPixel.cpp`): trigonometry in floating point; a conversion is any function from a pixel to three or four bytes.
- Rounding: HSI components and brightness are real numbers, because rounding is not the point of copying and scaling.
- AngelScript (`src/Routine.cpp`, scripts): a routine draws any function of frame, buffer length and index; scripts that keep state between frames are not modelled.
- Threads, locks and atomics: every operation and every protocol event is one step; the work pool's calls are commented out in the source.
- SQLite storage, the command server but for adding and removing mappings, configuration, logging, discovery and start-up: input, output and plumbing.
- Sockets, clocks and random numbers: whether a send goes through, the transaction number and the timer id are parameters; the time stamp of a pending write is only logged.
- The timer library is not part of this model: a live timer fires or is removed, and new ids are given to no live timer.
- Parsing of control messages in `handlePacket`, adoption packets and their acknowledgements, and the stubs that only return.
- Literal contents of `crclut.h`: the table is built by the generator's loops; output of the generator is not modelled.
- The branches for big-endian machines.
- Freeing memory, and leaks, except that an ubergroup remembers the buffers it gave back.
- `addMember` of an ubergroup: nothing in the source calls it, and calling it on a mapped ubergroup would go around the map's invariant.
- `routineForMapping`: it inserts a null routine on lookup and is not part of the map's state machine.
- Ubergroups inside ubergroups: an ubergroup's members are single groups, which is all the server creates.
- Group rows whose end lies before their start: every group has at least one pixel.
- Loops over the output map and over an ubergroup's members take them in any order, so pointer order is not modelled.
- Integer widths of counters: errorPackets, stepcount, frame counters and sizes do not wrap in the model.
- Base64Decoder.Decoder.DecodeCharacter: excludes the character '{', as DecodeBlock does.
- Base64Decoder.Decoder.DecodeBlock: excludes the character '{', because the guard in `src/libb64/cdecode.c` line 15 then reads one past its table.
- Base64Encoder.Encoder.EncodeBlock: asks for a buffer that has room; `Base64Layout.StreamFitsExactly` says when the stream wrapper's has.
- EffectRunner.CoordinatorRunEffects: asks that no routine serves two keys, every routine is bound to its key's buffer and every layer fits; `Server.SafeExactly` and `EffectRunner.MappedGroupsFit` say when that is so.
- EffectRunner.MappedGroupsAgree: asks that members of one ubergroup with the same row have the same brightness; the command server lets a row be named twice and then sets the brightness of the first only.
- Server.Server.DrawFrame: asks that nothing dangles and every layer lies inside the framebuffer, because what drawing into a freed buffer or past the end does is undefined; `Server.SafeExactly`, `Requests.RemoveMapping` and `EffectRunner.MappedGroupsFit` say when that is so.
- SendBookkeeping.NothingIsForgotten: asks for a run without the acknowledgements that `SendBookkeeping.RunsAreConsistent` excludes; `SendBookkeeping.ReusedTimerForgets` is a run with one.
- Setting a group's brightness: brightness is a field that frames read.
