# Verified model of the BBS: SSH transport and board data structures

This project models, in Dafny, the parts of the BBS whose correctness is hard to see from one
function: the SSH-2 channel and packet layer of the vendored libssh, and the data structures
behind the boards. Everything is proved by the Dafny verifier; `dafny verify dfyconfig.toml`
checks the whole project.

## What is modelled

**SSH channels.** Two peers run the code of `libssh/channels.c` against each other. A peer is one
thread that is inside at most one call at a time; packets of one direction arrive in order.
`ChannelFlow` is the transition system, `ChannelSafety` its invariant, `ChannelTheorems` what holds
of every run: window credit is conserved, no byte is lost or reordered, a read returns 0 exactly at
the end of the stream, and a reader and a writer never wait for each other. `ChannelLimits` has the
exact conditions: how large reads may be, how long a stream, and when two writes block each other.
`ChannelCode` has the write and read calls as methods with their loops, each proved to be a run of
that system.
`ChannelRing` is the circular doubly linked list of a session's channels, on the heap.

**SSH packets.** `Cbc` is cipher-block chaining over an abstract block cipher, `Packet` describes
framing and parsing in one shot, and `PacketStream` has the sender and the resumable receiver as
classes: whatever way the network fragments the octets, and however often a poll finds nothing, the
receiver returns the payloads that were sent, in order, as long as they make no more than 2^30 octets.

**Key agreement.** `Mpint` is the encoding of numbers, `KeyAgreement` a key exchange between a
client and a server object, from the two KEXINIT messages to the twelve derived values.

**Buffers and codecs.** `Fields` is the field codec of the wire format, `Buffer` the growable
buffer, `Base64` the encoder and decoder, `Glob` the wildcard matcher.

**Board data structures.** `HashTable` is the chained hash table with its rehash, its list of
recycled entries and its iterator, on the heap; it refines a map. `ReadList` is the bounded list of
read posts of one board and `RecordFile` the packed file that keeps every board's list. `DocPage`
is one page of a board's index, selected in one pass through a ring; `ThreadView` is reading a
thread page by page and post by post. `Bytes` has octets and fixed-width integers.

## Where the code falls short of its promise

These are results of the model: each names the inputs, and states exactly when the code is right.

- `TwoWritesBlock`: from an idle channel two writes block each other for good if and only if each is
  longer than the window of its writer; `TwoWritersCanStop` is such a run.
- `DataPacketsAreAccepted`: the writer never looks at the packet limit, so the receiver takes every
  data packet of every run if and only if read counts are at most 131063;
  `LargeReadsMakeOversizedPackets` is the run that breaks it.
- `OneStreamLimit`: a channel's buffer goes back to its start only when a read drains it, and its
  allocation does not end above 2^30 octets. So a stream can stop with data on its way if and only if
  it is longer than that and counts of 2 or more are used; `SmallReadsStall` is such a run, with
  packets of two octets.
- `EndToEnd`: the socket's buffer is like that too. Streams of up to 2^30 octets arrive in whatever
  fragments; every longer encrypted stream has fragments with which it never arrives as a whole.
- `EveryPacketIsSealed`: the sender checks the frame against the block size of the incoming cipher.
  Every packet is encrypted and has its MAC if and only if the outgoing block size is a multiple of
  the incoming one; `TenOctetsInTheClear` is a packet that is not.
- `GrowCoversRead`: a read count that lacks 2^31 or more octets of window is granted too little.
- `ExactUnlessTwoStarsEnd`: the matcher demands one more character of a pattern that ends in `**`.
- `LongElementEndsSearch`: a list element of 1023 characters or more discards earlier positive
  matches; `RightDespiteLongElement` says when the verdict is right all the same.
- `AddKeepsRead`: marking an old post read can un-read others, unless the list is full or empty or
  ends no more than 1 above the new time.
- `ThreadPageIsPlainPage`: when `start + count` overflows an int and there is a post to show, the copy
  loop reads through a null pointer; in all other cases the thread page is right.
- `OpenedThreadIsWhole`: a thread request for post 0 shows nothing.
- `WhoLosesRecords`: a save drops the records of a file above 49739 octets that begin at octet 49479
  or behind, and there always is one (`LongFilesLoseRecords`).
- `PendingListOfAnotherBoard`: saving one board's list while opening another drops the other's record.
- `PassBytes` and `PassBytesEnd` do their check on a wrapped sum; `GetData` does not.
- `PostSearch`: when no post has the id the search reports success and writes nothing.
- The comment at `www/bbstcon.c:11-13` promises NULL when nothing is found; the code returns an
  array of which no post counts (`ThreadSearch`). The comments at `libssh/buffer.c:317` and `:337`
  promise the new size; the code returns the length skipped or 0 (`PassBytes`, `PassBytesEnd`).

## Model

| member | source | states |
|---|---|---|
| ChannelTheorems.CreditIsConserved | libssh/channels.c:263-415 | In every reachable state a writer's window plus the data on its way plus the window grants on their way is exactly the reader's window; no window wraps and no data packet exceeds what was granted, so the clamp for a buggy remote is not taken. |
| ChannelTheorems.NoByteIsLost | libssh/channels.c:618-657 | In every reachable state, whatever the read counts, and both directions: bytes read, then buffered, then on their way, then not yet sent are the bytes written, in order. |
| ChannelTheorems.ZeroMeansEndOfStream | libssh/channels.c:1790-1840 | A read returns 0 only when all the peer ever wrote has been read and the peer has sent its end of file. |
| ChannelTheorems.EofIsNotLost | libssh/channels.c:417-437 | In every reachable state and both directions: a peer has sent its end of file if and only if the other has noticed it or it is on its way. |
| ChannelTheorems.ReadsEndAtEof | libssh/channels.c:1790-1799 | With no packet on its way a read returns 0 if and only if the other side is at its end of file and all it wrote has been read; at that end of file no read waits. |
| ChannelTheorems.NothingWrittenAfterEof | libssh/channels.c:893-900 | Once a run has a peer at its end of file, however it goes on: what that peer has written never changes, nothing of it is unsent, and no data follows the end of file on the way. |
| ChannelTheorems.OnlyStoppedStops | libssh/channels.c:916-935 | A run of two peers can go on if and only if some thread is not waiting or finds a packet that its buffer can hold; octets read but not yet drained count. |
| ChannelTheorems.NoReaderWriterDeadlock | libssh/channels.c:1782-1818 | In every reachable state where both threads wait and nothing is on its way, either both are blocked writing, or both wait for data with less in the buffer than the read asks for, have received all the other has written, and neither has sent its end of file. |
| ChannelTheorems.OneStreamNeverStalls | libssh/channels.c:1782-1818 | A channel on which one side has written nothing and the other at most 2^30 octets, or any number if read counts are at most 1, can stop only with nothing on its way, both sides reading with too little in the buffer, everything received and no end of file sent. |
| ChannelTheorems.TwoWritersCanStop | libssh/channels.c:916-935 | A run from the start in which both peers block writing for good. |
| ChannelTheorems.GrowCoversRead | libssh/channels.c:263-295 | The window opened before a read covers its count if and only if the missing part fits an int or the default grant happens to be enough without wrapping. |
| ChannelLimits.TwoWritesBlock | libssh/channels.c:916-957 | Two idle peers with nothing on its way begin to write: every way the run goes on is over after four moves with both writes unfinished, if and only if each write is longer than the window of its writer. |
| ChannelLimits.SmallWriteNeverWaits | libssh/channels.c:917-935 | A write that fits the remote window never waits, at any point of the call. |
| ChannelLimits.DataPacketsAreAccepted | libssh/packet.c:107-111 | All data packets of all runs are short enough for the receiver, for either block size, if and only if read counts are at most 131063. |
| ChannelLimits.LargeReadsMakeOversizedPackets | libssh/channels.c:1782-1787 | From a count of 131064 on a run sends a data packet that is too long. |
| ChannelLimits.DataPacketIsTaken | libssh/packet.c:107-111 | Too long is what the receiver says: it parses the sealed data packet to its payload or gives up, by that measure. |
| ChannelLimits.TakenUpTo | libssh/packet.c:486-489 | The longest data packet the receiver takes carries 262126 octets, for both block sizes. |
| ChannelLimits.Burst | libssh/channels.c:1782-1818 | Two reads of a count from 128000 on leave twice the count less one granted, and a write uses all of it in one packet. |
| ChannelLimits.DataPayloadIsRead | libssh/channels.c:936-944 | The payload of a data packet reads as the message number 94, the other side's channel and the data as a string. |
| ChannelLimits.OneStreamLimit | libssh/buffer.c:102-158 | A channel on which one side writes stops with nothing on its way in every run with at most n octets written, if and only if read counts are at most 1 or n is at most 2^30. |
| ChannelLimits.SmallReadsStall | libssh/buffer.c:319-331 | A run of exact reads of 2 that leave one octet each time stops with 2^30 - 2 octets read, 1 unread and 2 on their way. |
| ChannelLimits.Drip | libssh/buffer.c:319-331 | One round of that run: two octets are read, one stays, and the buffer uses two more. |
| ChannelTheorems.Opened | libssh/channels.c:117-192 | The opening handshake is a run, with windows 64000 and 32000 as the two sides set them. |
| ChannelTheorems.HeadIsTaken | libssh/messages.c:458-507 | A waiting thread can take the packet at the head of its queue exactly when what its buffer uses, read or not, and the packet are at most 2^30 octets; no data arrives before the confirmation of the channel. |
| ChannelSafety.RunKeepsInvariant | libssh/channels.c:317-348 | Conservation, stream integrity, end-of-file order and the handshake order hold after every run. |
| ChannelSafety.RunKeepsOrder | libssh/channels.c:618-657 | Stream integrity and the handshake order hold after every run, also with read counts for which the windows wrap. |
| ChannelSafety.StepKeepsInvariant | libssh/channels.c:916-957 | One turn of either thread keeps that invariant. |
| ChannelCode.TurnsAreARun | libssh/channels.c:885-966 | Whatever one thread does in several turns, from any reachable state, is part of a run of both peers. |
| ChannelCode.Channel.GrowWindow | libssh/channels.c:263-295 | Sends the grant and adds the same amount to the window, with 32-bit wrap. |
| ChannelCode.Channel.ParsePacket | libssh/channels.c:351-437 | Taking one packet off the wire is the receiving turn of the transition system; an end of file is noticed and nothing else counts as one. |
| ChannelCode.Channel.SendData | libssh/channels.c:932-956 | One packet of a write is the sending turn: never empty, never above the remote window. |
| ChannelCode.Channel.Write | libssh/channels.c:885-966 | The write loop is a run of turns; if it returns, all the data was sent in order; if it blocks, it waits with nothing left to parse or with a packet the buffer cannot hold; it is denied exactly after the end of file. |
| ChannelCode.Channel.BeginRead | libssh/channels.c:1782-1787 | The window is widened before the wait exactly as the turn that starts a read says. |
| ChannelCode.Channel.AwaitBytes | libssh/channels.c:1790-1812 | The read loop ends when the condition of the transition system says, or waits with nothing left to parse or with a packet the buffer cannot hold. |
| ChannelCode.Channel.FinishRead | libssh/channels.c:1813-1840 | The read hands over the front of the buffer, at most the count, and keeps the rest: nothing if it is short of the count; position and length go back to 0 only when that drains it. |
| ChannelCode.Channel.Read | libssh/channels.c:1863-1939 | Both read calls are runs of turns; a short result leaves nothing buffered, and of an exact read it comes only at the end of the stream; a call blocks only without an end of file parsed and with too little in the buffer. |
| ChannelCode.Channel.SendEndOfFile | libssh/channels.c:803-830 | Sending the end of file is the corresponding turn. |
| ChannelRing.Session.ChannelNew | libssh/channels.c:91-101 | The ring stays one cycle in both directions, with the new channel last. |
| ChannelRing.Session.ChannelFree | libssh/channels.c:767-778 | The ring stays one cycle, without the freed channel, wherever it was. |
| ChannelRing.SkippedIsRemoved | libssh/channels.c:776-777 | Links that pass over one member make a cycle of the others. |
| ChannelRing.Session.Number | libssh/channels.c:123-127 | The channel gets the next id and nothing else in the ring changes. |
| ChannelRing.FreshUntilWrap | libssh/channels.c:113-115 | A new id is fresh and keeps ids unique exactly until the counter wraps. |
| ChannelRing.IdsStayUnique | libssh/session.c:83 | In any order of creating, numbering and freeing channels no two numbered members share an id while fewer than 2^32 - 42 events have passed. |
| ChannelRing.Session.FromLocal | libssh/channels.c:244-261 | Terminates; returns the first member with the id, the only one when ids are unique, and null exactly when the ring has none. |
| Cbc.DecryptEncrypt | libssh/crypt.c:97-170 | Decryption undoes encryption for every block cipher, chaining value and whole number of blocks. |
| Cbc.DecryptInTwo | libssh/crypt.c:61-95 | Decrypting the first part and then the rest gives what one decryption gives. |
| Cbc.BlocksAreChained | libssh/crypt.c:97-170 | Every block of the ciphertext is the encryption of its plaintext block combined with the ciphertext block before it, the first with the chaining value. |
| Cbc.XorBits | libssh/crypt.c:97-170 | Combining two octets sets exactly the bits that one of them has. |
| Packet.FrameLayout | libssh/packet.c:486-510 | A frame is the length of what follows in network order, the length of the padding, the payload and the padding. |
| Packet.UnframeMeaning | libssh/packet.c:203-229 | A payload is found if and only if the frame is the head, the payload and as much padding as the head says. |
| Packet.PaddingAligns | libssh/packet.c:486-489 | The padding is at least 4 and makes the packet a whole number of blocks. |
| Packet.OpenSealed | libssh/crypt.c:43-59 | A sealed packet opens again, and so does its first block alone, which gives the length. |
| Packet.ParseSealed | libssh/packet.c:58-241 | What one end sends the other parses back, whatever follows, and both ends advance to the same chaining value and sequence number. |
| Packet.ParseExtends | libssh/packet.c:94-130 | A packet or an error that is decided stays the same however many octets follow. |
| Packet.AcceptedIsAuthentic | libssh/packet.c:124-241 | Whatever is taken as a packet has, behind as many octets as its length field says, the MAC of the sequence number and the plain octets, and its payload is that frame's. |
| Packet.OversizedIsRefused | libssh/packet.c:107-111 | One octet beyond the limit and the receiver gives up, although the sender lets it pass. |
| PacketStream.RoundTrip | libssh/packet.c:462-535 | Every list of payloads under the limit comes back in order from their sealed packets, with nothing left over and both ends in step. |
| PacketStream.SequenceCounts | libssh/packet.c:527 | Sealing a list of packets moves the sequence number on by their number, modulo 2^32. |
| PacketStream.Sender.BuildFrame | libssh/packet.c:486-510 | The octets before encryption are the frame of the payload with the chosen padding. |
| PacketStream.PaddingOctets | libssh/packet.c:491-496 | The padding is random octets with keys and zeros without. |
| PacketStream.Sender.Encrypt | libssh/crypt.c:97-170 | Encrypts in place and returns the MAC over sequence number and plain packet, exactly when there are keys and the length is a multiple of the incoming cipher's block size; else returns NULL and changes nothing. |
| PacketStream.Sender.Send | libssh/packet.c:462-535 | The wire gets the sealed packet, or the bare frame when the encryption declined though there are keys; the sequence number goes up by one. |
| PacketStream.EveryPacketIsSealed | libssh/crypt.c:107-110 | Every packet is encrypted and has its MAC if and only if the outgoing block size is a multiple of the incoming one. |
| PacketStream.TenOctetsInTheClear | libssh/crypt.c:107-110 | With block sizes 8 out and 16 in, a payload of 10 octets makes a frame of 24 that the encryption declines. |
| PacketStream.SendAll | libssh/packet.c:462-535 | Sending payloads one after the other, the wire gets their sealed packets in order, when each frame passes the encryption's test. |
| PacketStream.FittingSizesSeal | libssh/crypt.c:107-110 | Block sizes that fit make every frame pass. |
| PacketStream.Receiver.WaitForData | libssh/socket.c:430-468 | Buffers octets in the order they arrive and succeeds exactly when enough are there; it can hang only when more than 2^30 octets are used or still coming. |
| PacketStream.Receiver.SocketRead | libssh/socket.c:328-346 | Takes octets off the front; position and length of the buffer go back to 0 only when that drains it. |
| PacketStream.Receiver.ReadFirst | libssh/packet.c:79-123 | From the initial state: waits, fails or knows the length, as the one-shot parser decides on what was received. |
| PacketStream.Receiver.TakeRest | libssh/packet.c:140-161 | The second decryption call leaves in the buffer what one decryption of the whole packet gives. |
| PacketStream.Receiver.CheckMac | libssh/crypt.c:184-212 | The MAC is accepted exactly when it is that of the sequence number and the plain packet. |
| PacketStream.Receiver.ReadRest | libssh/packet.c:124-241 | From the second state: the packet, the error or the wait that the one-shot parser decides. |
| PacketStream.Receiver.PacketRead2 | libssh/packet.c:58-241 | One call, from wherever the last one stopped, is the one-shot parser on everything received so far. |
| PacketStream.NextPacket | libssh/packet.c:58-241 | Each call takes the next packet of the whole octet stream, or makes progress, or needs more. |
| PacketStream.PacketOfStream | libssh/packet.c:58-241 | A packet decided on part of a stream is the first packet of the whole stream. |
| PacketStream.ReceiveAll | libssh/packet.c:58-241 | Reading to the end of the network gives exactly the packets of the octet stream, or its first ones when a call hangs, which takes more than 2^30 octets. |
| PacketStream.Transfer | libssh/socket.c:384-468 | For every fragmentation of sealed packets and every pause there is no MAC failure and the receiver returns exactly the payloads with nothing left over, unless there are more than 2^30 octets and a call hangs; then the first payloads have arrived. |
| PacketStream.SealedSplitsBadly | libssh/socket.c:441-464 | Encrypted packets have an even number of octets: cut into one and then two at a time, they end with a single one. Every read takes an even number, so it leaves an octet over. |
| PacketStream.EndToEnd | libssh/packet.c:58-535 | Sender and receiver against each other, when each frame passes the encryption's test: whatever way the network splits at most 2^30 octets, the payloads arrive; a longer encrypted stream hangs in some fragments, after its first payloads. |
| Mpint.DecodeEncode | libssh/dh.c:335-385 | Reading a written number gives the number, for every natural number. |
| Mpint.EncodeIsCanonical | libssh/dh.c:335-367 | The encoding has a clear high bit, a leading 0 only where needed, and no octets for zero. |
| Mpint.EncodeDecode | libssh/dh.c:369-385 | The octet strings that survive reading and writing are exactly the canonical ones. |
| Mpint.DistinctNumbersEncodeDifferently | libssh/dh.c:335-367 | Two numbers have the same encoding if and only if they are equal. |
| Mpint.PadTest | libssh/dh.c:338-345 | The code's bit-count test asks exactly whether the top octet has its high bit set. |
| Mpint.NetworkOrder | libssh/dh.c:369-385 | Of two octet strings of one length the smaller number is the one that is smaller at the first octet in which they differ. |
| Mpint.NumBytesIsLength | libssh/dh.c:338-340 | The octet count allocated is the number of octets written. |
| KeyAgreement.SharedSecret | libssh/dh.c:427-473 | For all g, p > 0, x and y both sides' reduced powers are g^(xy) mod p. |
| KeyAgreement.ModExpLaw | libssh/dh.c:427-473 | The first power is the remainder of the base, and the power of a sum of exponents is the reduced product of the powers. |
| KeyAgreement.HashInputIsRead | libssh/dh.c:496-599 | The exchange hash covers eight strings that read back as version strings, KEXINIT messages, host key, e, f and K, the client's before the server's. |
| KeyAgreement.DeriveLayout | libssh/dh.c:676-694 | What a key is derived from begins with K as a string; the session id, the letter and the session id again follow. |
| KeyAgreement.KexLayout | libssh/kex.c:382-427 | A KEXINIT payload is the number 20, the cookie, ten strings, a flag and a word, both zero. |
| KeyAgreement.HashInputIsUnambiguous | libssh/dh.c:496-599 | Different exchanges never feed the same octets to the exchange hash. |
| KeyAgreement.KexIsRead | libssh/kex.c:248-284 | What the receiver of a KEXINIT message keeps for the hash is the message itself, but for five zero octets. |
| KeyAgreement.Session.SendKex | libssh/kex.c:382-427 | The message sent and the copy kept for the hash agree but for the last five octets. |
| KeyAgreement.Session.GetKex | libssh/kex.c:248-315 | Up to ten strings are kept and added to the hash copy; the peer's cookie goes into server_kex in both roles. |
| KeyAgreement.Session.ImportE | libssh/dh.c:414-425 | The number the client encoded is the number the server reads. |
| KeyAgreement.Session.ImportF | libssh/dh.c:400-411 | The number the server encoded is the number the client reads. |
| KeyAgreement.Session.BuildK | libssh/dh.c:427-473 | When the other side's number is g to some power modulo p, the secret is g to the product of that power and the own one; for an own exponent of 1 it is the other side's number modulo p. |
| KeyAgreement.Session.MakeSessionId | libssh/dh.c:484-628 | In both roles the session id is the hash of version strings, client's and server's KEXINIT, host key, e, f and K in that order. |
| KeyAgreement.Session.GenerateOneKey | libssh/dh.c:676-694 | The first 20 octets of the buffer become the derived digest and the rest stays. |
| KeyAgreement.Session.ExtendKey | libssh/dh.c:746-767 | A key of more than 160 bits is continued over the first digest. |
| KeyAgreement.Session.GenerateSessionKeys | libssh/dh.c:696-805 | The encrypt buffers get the letters of the own direction, the decrypt buffers those of the other: a client encrypts with A, C and E, a server with B, D and F. |
| KeyAgreement.DifferentLetters | libssh/dh.c:686-690 | The derived values come from different hash inputs exactly when their letters differ. |
| KeyAgreement.ExchangeKexInit | libssh/kex.c:382-427 | After the two messages each side's out copy is the other side's in copy. |
| KeyAgreement.Handshake | libssh/dh.c:484-805 | For all g, p > 1, x and y client and server end with the same secret and session id, and each encrypt IV, key (also an extended one) and MAC key is the other's decrypt one. |
| KeyAgreement.Connect | libssh/dh.c:427-805 | The same for two sessions made anew, from the version strings, the KEXINIT contents and the key sizes alone. |
| Fields.TakeMeaning | libssh/buffer.c:375-429 | A field is read if and only if its encoding stands at the front. |
| Fields.TakeAllMeaning | libssh/buffer.c:375-429 | A list of fields is read if and only if their encodings stand one after the other at the front. |
| Fields.TakeAllEncoded | libssh/buffer.c:166-231 | Any list of fields is read back in order, whatever is behind it. |
| Fields.NetworkOrder | libssh/packet.c:497 | Of two 32-bit numbers the smaller is the one whose octets are smaller at the first difference: the most significant octet comes first. |
| Fields.NetworkOrder64 | libssh/buffer.c:212-219 | The same for 64 bits. |
| Fields.U32IsNumber | libssh/crypt.c:43-59 | Four octets read as the number that the bignum library reads of them. |
| Fields.U64IsNumber | libssh/buffer.c:389-398 | Eight octets read as the number that the bignum library reads of them. |
| Fields.StringLayout | libssh/string.c:44-54 | A string is its length in network order and then its octets. |
| Fields.EncodingIsUnique | libssh/string.c:44-54 | Two field lists of the same kinds have the same octets if and only if they are the same. |
| Buffer.Buffer.Realloc | libssh/buffer.c:102-119 | The new size is the least power of two that is enough, and contents are kept. |
| Buffer.Buffer.Reinit | libssh/buffer.c:126-138 | Empties the buffer, clears what was used and shrinks a large block to 128. |
| Buffer.Buffer.AddData | libssh/buffer.c:146-158 | Contents and unread octets get the data at their end, through any growth. |
| Buffer.Buffer.PrependData | libssh/buffer.c:240-253 | Contents get the data in front and the position stays; unread octets do so only when none was read before. |
| Buffer.Buffer.PassBytes | libssh/buffer.c:319-331 | Skips octets exactly when they are there, unless position and length wrap, and then goes back. |
| Buffer.Buffer.PassBytesEnd | libssh/buffer.c:339-346 | Drops octets from the end exactly when they are there, unless position and length wrap, and then claims more. |
| Buffer.Buffer.GetData | libssh/buffer.c:356-367 | Reads exactly the next octets if they are there and nothing otherwise, for every length. |
| Buffer.Buffer.GetSshString | libssh/buffer.c:405-429 | Returns a string exactly when it is all there; a length without its octets is consumed. |
| Buffer.GetFields | libssh/buffer.c:375-429 | Reading fields one after the other is the codec on the unread octets. |
| Buffer.RoundTrip | libssh/buffer.c:146-176 | Any list of fields appended to a buffer read to its end comes back and leaves nothing, however often the buffer grows. |
| Base64.DecodeEncode | libssh/base64.c:59-285 | Every string of octets but the empty one comes back; the text of the empty one is refused. |
| Base64.EncodedLength | libssh/base64.c:264-285 | The text has 4 * ceil(n / 3) characters. |
| Base64.SextetsAreBits | libssh/base64.c:233-255 | In every group the four sextets and the three octets are one number of 24 bits, most significant first and with zero bits for what is missing. |
| Base64.DigitTable | libssh/base64.c:32-34 | The 64 digits are the capital letters, the small letters, the digits, plus and slash, by their character numbers. |
| Base64.EncodeDecode | libssh/base64.c:59-167 | An accepted text is the encoding of what it decodes to if and only if nothing but the padding follows the digits and the spare bits are zero. |
| Base64.PaddingDecides | libssh/base64.c:59-167 | Characters followed by k equals signs are taken if and only if they are digits, at least one, k is at most 2 and all together are a multiple of four. |
| Base64.Lookup | libssh/base64.c:169-174 | Looking a character up in the alphabet gives its value exactly when it is a digit. |
| Base64.BinToBase64 | libssh/base64.c:264-285 | The text and its NUL fit the block allocated, and are the encoding. |
| Base64.PutGroup | libssh/base64.c:233-255 | One group of one to three octets becomes its four characters. |
| Base64.GetEquals | libssh/base64.c:218-229 | Counts the equals signs and overwrites each with a NUL, and changes nothing else. |
| Base64.ToBlock4 | libssh/base64.c:176-201 | Fails exactly on a character outside the alphabet; else the sextets side by side. |
| Base64.ToBin | libssh/base64.c:204-215 | The octets of the next two to four digits. |
| Base64.DecodeDigits | libssh/base64.c:86-160 | The loop and the last group take exactly digits of a possible length with the equals signs that length asks for. |
| Base64.Base64ToBin | libssh/base64.c:59-167 | The decoder takes exactly the accepted texts and gives their octets. |
| Base64.RoundTrip | libssh/base64.c:59-285 | Encoder and decoder together give every string of octets but the empty one back. |
| Glob.MatchPattern | libssh/match.c:48-108 | Terminates and accepts exactly the strings of the pattern in which a trailing run of stars demands one character. |
| Glob.OneCharacter | libssh/match.c:48-108 | A star matches any string, a question mark any one character, any other character itself. |
| Glob.MatchesBoth | libssh/match.c:48-108 | Two patterns one after the other match exactly the strings in two parts that each match. |
| Glob.TightMatchIsMatch | libssh/match.c:48-108 | Sound: what is accepted matches the pattern. |
| Glob.TightenIsIdentity | libssh/match.c:48-108 | Complete for every pattern that does not end in two stars. |
| Glob.ExactUnlessTwoStarsEnd | libssh/match.c:81-87 | The matcher decides the meaning of a pattern for every string if and only if the pattern does not end in two stars. |
| Glob.ExtractSub | libssh/match.c:137-142 | Copies the element up to its comma as far as the 1023 characters go. |
| Glob.SubsOfJoined | libssh/match.c:116-172 | The elements of a list are those it was put together from, in order, negated or not. |
| Glob.LowerMeaning | libssh/match.c:137-142 | The capital letters of ASCII become the small ones and nothing else changes. |
| Glob.MatchPatternList | libssh/match.c:116-172 | The loop over the list gives the verdict of its elements. |
| Glob.VerdictMeaning | libssh/match.c:116-172 | -1 if and only if some negated element matches, else 1 if and only if some positive one does. |
| Glob.OrderDoesNotMatter | libssh/match.c:116-172 | Lists with the same short elements in another order give the same verdict. |
| Glob.LongElementEndsSearch | libssh/match.c:144-147 | An element of 1023 characters or more hides itself, everything behind it and the positive matches before it. |
| Glob.RightDespiteLongElement | libssh/match.c:144-147 | With a first element that is too long the verdict is still that of the whole list if and only if a negated element before it matches, or no element of the list does. |
| HashTable.Table.Search | lib/hash.c:100-111 | Finds the entry of a key exactly when the map has it, and the pointer that leads there. |
| HashTable.AndBits | lib/hash.c:104 | The slot has exactly the bits that both the hash and the mask have. |
| HashTable.Table.Get | lib/hash.c:167-173 | The value the map has for the key, or nothing. |
| HashTable.Table.Insert | lib/hash.c:113-126 | A key not in the map is added through a recycled or new entry; all chains stay distinct, acyclic and in their slots. |
| HashTable.Table.Expand | lib/hash.c:63-87 | Doubling the slots relinks every entry into its new chain and changes no lookup. |
| HashTable.Table.MoveChain | lib/hash.c:74-82 | Relinking one chain leaves every entry in exactly one place. |
| HashTable.Table.Delete | lib/hash.c:148-155 | Exactly the entry of the key leaves its chain for the free list. |
| HashTable.Table.Set | lib/hash.c:137-158 | The map afterwards is the map with the key set, overwritten or removed; the count is its size and at most max. |
| HashTable.Enumerate | lib/hash.c:200-224 | An iteration runs through all chains in order. |
| HashTable.EveryPairOnce | lib/hash.c:200-224 | An iteration meets every stored pair exactly once and nothing else. |
| ReadList.Marks.AddList | lib/boardrc.c:114-146 | The array afterwards is the bounded sorted insertion; the change flag is set exactly when the list changed. |
| ReadList.Marks.InsertAt | lib/boardrc.c:132-139 | Shifts the tail up by one, dropping the last entry of a full list. |
| ReadList.Marks.IsUnread | lib/boardrc.c:148-165 | The scan's answer on the list. |
| ReadList.Marks.Clear | lib/boardrc.c:181-204 | Clearing adds the 60 times that end with the post's. |
| ReadList.AddAllIsTop | lib/boardrc.c:114-146 | After any run of additions the list is strictly descending and holds the 60 largest times ever added. |
| ReadList.TopIsUnique | lib/boardrc.c:114-146 | There is only one such list for a set of times. |
| ReadList.OrderOfAddingDoesNotMatter | lib/boardrc.c:114-146 | The list does not depend on the order or repetition of additions. |
| ReadList.UnreadMeaning | lib/boardrc.c:148-165 | A post is unread if and only if the list is empty, or lacks it and ends before it. |
| ReadList.ClearLeavesLaterUnread | lib/boardrc.c:181-204 | With no entry beyond t, clearing at t leaves unread exactly the posts later than t. |
| ReadList.ClearWithLaterEntries | lib/boardrc.c:181-204 | Clearing makes all posts up to t read; the later posts not listed stay unread unless the list is full of entries beyond t + 1. |
| ReadList.AddKeepsRead | lib/boardrc.c:142-145 | Adding a time un-reads no post if and only if the list is empty or full or ends at most 1 above the time. |
| ReadList.ReadForEver | lib/boardrc.c:108-111 | From the list of a board never visited, with positive times, a post once read stays read along any run. |
| ReadList.FullOrFromOne | lib/boardrc.c:108-111 | Along such a run the list is full or still ends with 1. |
| RecordFile.GetRecord | lib/boardrc.c:15-28 | Reads at most 60 times but steps over all that are counted; a well-formed record is read as it stands. |
| RecordFile.PutRecord | lib/boardrc.c:30-42 | Writes one record that reads back as the name and times, or nothing for an empty list. |
| RecordFile.RecordLaidOut | lib/boardrc.c:30-42 | A record reads back whatever octets follow the name's NUL. |
| RecordFile.RecordsAppend | lib/boardrc.c:70-75 | The records of two well-formed files put together are the records of both. |
| RecordFile.TimesRoundTrip | lib/boardrc.c:38-39 | Times copied out and in are the same. |
| RecordFile.CopyOthers | lib/boardrc.c:69-75 | The loop keeps exactly the records of other boards that the scan meets, within 50000 octets. |
| RecordFile.Store.Rebuild | lib/boardrc.c:54-76 | The rebuilt buffer is well-formed, never exceeds 50000 octets whether or not the file was cut, and has the own record first. |
| RecordFile.Store.Update | lib/boardrc.c:44-84 | A pending list is saved and the flag cleared; without one nothing changes. |
| RecordFile.Store.Find | lib/boardrc.c:101-107 | Finds the board's record exactly when there is one. |
| RecordFile.Store.Initial | lib/boardrc.c:86-112 | Loads the board's list, after saving a pending one; a board without a record gets the list of 1. |
| RecordFile.FirstVisit | lib/boardrc.c:108-111 | On a board without a record exactly the posts later than time 1 are unread. |
| RecordFile.Store.FcgiInit | lib/boardrc.c:212-216 | Loads from the file whatever the buffer held; a pending list is saved first. |
| RecordFile.Store.SaveThenLoad | lib/boardrc.c:44-112 | Saving and loading gives this board's list back, and every other board's when the file is read to its end. |
| RecordFile.OwnListIsSaved | lib/boardrc.c:54-57 | The saved file has the pending list for its board. |
| RecordFile.OtherListsAreKept | lib/boardrc.c:69-75 | When the file is short enough to be read to its end no other board's list changes. |
| RecordFile.WhoLosesRecords | lib/boardrc.c:62-75 | For files of any size no other board loses its record if and only if each record that begins behind the part looked at is the board's own or repeats a name met before. |
| RecordFile.LongFilesLoseRecords | lib/boardrc.c:62-63 | Some record begins behind the part looked at if and only if the file has more than 49739 octets. |
| RecordFile.PendingListOfAnotherBoard | lib/boardrc.c:72 | Saving while another board is opened drops that board's record. |
| DocPage.GetBbsdoc | www/bbsdoc.c:88-145 | Total and start are those of the filtered index, and the page is its slice, unless the mode is threads, start + count overflows an int and there is a post to show: then the program reads through a null pointer. |
| DocPage.PageMeaning | www/bbsdoc.c:120-138 | A page has count posts or all there are; one that lies in the list begins where it was asked for, any other is the last page. |
| ThreadView.ThreadListMeaning | www/bbsdoc.c:54-63 | The thread list has exactly the posts that name their thread, in index order: each is the first post of its thread, and no thread is listed twice. |
| DocPage.ThreadPage | www/bbsdoc.c:107-134 | One pass through a ring of count slots, with the number of posts unknown, gives that slice, or meets an unfilled slot in exactly that case. |
| DocPage.CopyOut | www/bbsdoc.c:130-134 | The copy loop gives the posts the slots lead to, and fails exactly when one of them is null. |
| DocPage.RingStep | www/bbsdoc.c:114-116 | Storing one more post keeps in the ring the last posts stored. |
| DocPage.FullRing | www/bbsdoc.c:130-134 | Read around from the next slot the ring is the last count posts stored. |
| DocPage.NextSlot | www/bbsdoc.c:120-127 | After the range check the next slot is where the page begins. |
| DocPage.ThreadPageIsPlainPage | www/bbsdoc.c:102-138 | The thread page comes out as normal mode gives it on the filtered index, if and only if start + count fits an int or nothing is selected. |
| ThreadView.Bsearch | www/bbscon.c:15-31 | The first post whose id is not below the one sought. |
| ThreadView.Forward | www/bbstcon.c:41-47 | The first count posts of the thread from there. |
| ThreadView.Backward | www/bbstcon.c:50-59 | The last count posts of the thread before there, at the end of the array in order; stopping below the thread's first id loses none. |
| ThreadView.ThreadSearch | www/bbstcon.c:14-62 | 'n' gives the first count posts of the thread after the id, anything else the last count before it. |
| ThreadView.NextPagesEnumerate | www/bbstcon.c:38-48 | Going on from the last post of each page shows the rest of the thread once, without gap or repeat. |
| ThreadView.PreviousPagesEnumerate | www/bbstcon.c:49-59 | Going back from the first post of each page shows what was before once. |
| ThreadView.OpenedThreadIsWhole | www/bbstcon.c:82-86 | A thread opened by its first post is shown from that post to its end, if and only if its number is not 0 or the index has nothing of it. |
| ThreadView.RequestMeaning | www/bbstcon.c:82-86 | A request that names a thread is left as it is; one that does not asks for what follows the number before the post's, where 0 is preceded by 2^32 - 1. |
| ThreadView.PostSearch | www/bbscon.c:33-74 | The neighbour asked for, in the board or in the thread; with no post of that id the code says true and writes nothing. |
| ThreadView.NearestInBoard | www/bbscon.c:50-55 | 'n' is the post with the least id above, 'p' the one with the greatest below, none exactly when there is none; an unknown action gives the post itself. |
| ThreadView.NextInThread | www/bbscon.c:60-63 | 'a' is the post of the thread with the least id above, none exactly when there is none. |
| ThreadView.PreviousInThread | www/bbscon.c:56-59 | 'b' is the post of the thread with the greatest id below, none exactly when there is none. |
| ThreadView.NextThenPrevious | www/bbscon.c:56-63 | One post is the next of another in their thread if and only if the other is its previous. |

## Left out

- Sockets, poll and select, files, mmap, shared memory, clocks: octet sequences and parameters stand for them. A connection that closes in the middle of a read is not modelled.
- Channel close, delayed close, requests and the stderr stream: stdout data, window and end-of-file messages only.
- The peer's packet limit: the code never consults it; what follows is stated in ChannelLimits.DataPacketsAreAccepted.
- Packets that a channel takes in while the application is inside a call of another channel or of the session: a thread handles packets in its own reads and blocked writes, and between calls.
- Real ciphers, hashes, random numbers, bignum and compression libraries: an invertible block function, any 20-octet hash and natural numbers stand for them. RSA and DSA signatures are not modelled.
- Counter-mode ciphers (aes128-ctr, aes192-ctr, aes256-ctr), which the default cipher list prefers where the library has them: the chaining modelled is that of the CBC ciphers.
- KeyAgreement.Handshake: does not model the negotiation of algorithms; both sides are taken to have settled on the same key size for each direction.
- SSH-1 (packet_read1, packet_send1, channels1, auth1): a smaller version of the same framing.
- poll.c, sftp, scp, authentication, options and key files: request plumbing on top of the buffer codec, or a back-pointer property the code does not keep.
- Out-of-memory branches: allocation succeeds.
- Buffer.Buffer.AddData: buffers stay within 2^30 octets, and so for the other methods that grow one; beyond that realloc_buffer doubles an int past its range and would not end.
- Base64.BinToBase64: does not model inputs so long that four times their length overflows an int.
- hash_func_default, the strlen of string keys, and hash_destroy, which only frees: keys are values with any 32-bit hash function.
- HashTable.Table.Set: requires a table of fewer than 2^31 slots, so that the doubled size fits.
- The number text in file names (atoi, sprintf): a post's time is a parameter.
- ReadList.Marks.Clear: times within 60 of the ends of an int, where the sum would wrap, are excluded.
- Record files that were not written by this code (records with no times or more than 60, names that do not start with a readable character, files above 50000 octets) and board names of 20 characters or more.
- Channel data and the octets of the socket are copied into sequences rather than into Buffer: the unread octets, the position in front of them and the 2^30 octets at which the buffer stops growing are modelled, its blocks are not. Of the hash copies of KeyAgreement only the octets are.
- The socket's buffer of octets to send: the wire takes what a packet puts there.
- The blocking branch of ssh_socket_wait_for_data, which reads just the octets that are missing.
- Printing, permissions, mail and the other pages of www: user interface.
