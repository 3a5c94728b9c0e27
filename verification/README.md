# Verified models of shuttle

This project models, in Dafny, the parts of shuttle whose correctness depends on state and arithmetic that interact,
and proves what those parts promise. Objects that the Go code updates in place are classes with the same fields and
loops. Each method is specified by functions and predicates on values, and the lemmas are about those.

`dafny verify dfyconfig.toml` checks the whole project.

## What is modelled

- **Stream reassembly** (`Tiling`, `FrameSorting`, `Fragments`, `Reassembly`). The frame sorter of the QUIC fork keeps a list of
  gaps and a map of fragments in step. Every push keeps the fragments an exact tiling of what is outside the gaps, and
  every run refines an ordered byte stream in which each byte is delivered once (section 2.2 of RFC 9000).
- **Reading a stream** (`ReceiveStreams`, `StreamTransfer`). Frames arrive in any order while the application reads and
  peeks. Every call gets the answer that an ideal stream would give, and the end of the stream is reported if and only
  if every byte and the end mark came.
- **ClientHello scrambling** (`Sni`, `CryptoStreams`, `ClientHello`, `CryptoReceiving`, `HelloPasses`,
  `HelloTransfer`). The sender holds back two pieces of the ClientHello and sends them last, so that, with one
  exception, no frame shows the host name. The frames carry every byte written, and the peer puts them together again.
- **Connection IDs** (`ConnIdManagement`, `ConnIdGeneration`, `ConnIdProtocol`). Both ends, and the two of them together
  over a channel that reorders frames (sections 5.1.1, 5.1.2, 19.15 and 19.16 of RFC 9000).
- **Path MTU discovery** (`MtuDiscovery`). A binary search that survives spurious losses, with its accuracy and a
  logarithmic bound on the number of probes (section 5.3 of RFC 8899).
- **Replay protection** (`CuckooFiltering`, `ReplayFiltering`). The cuckoo filter conserves what is stored in it, and two
  generations of it recognise every nonce for half a window, unless it was crowded out.
- **Outbound groups** (`GroupDag`), **TUN packets** (`Checksums`, `TunPackets`), **mesh addresses** (`IpAllocation`).

## Where the code does less than one expects

Each of these has a concrete case and the exact condition; the last one is a comment that disagrees with the code.

- The sorter panics if and only if a frame with data ends at or beyond the largest offset
  (`FrameSorting.FrameSorter.Push`). A stream passes such a frame on if its flow control windows reach that far, which
  the configuration allows (`ReceiveStreams.ReceiveStream.HandleStreamFrame`, `ReceiveStreams.LargestOffsetPanics`). A
  stream reports its end only if its final size is below the largest offset, since that number stands for an unknown
  end (`ReceiveStreams.NothingBehindEnd`, `ReceiveStreams.LargestFinalSize`).
- Scrambling ends, and data written behind the ClientHello is sent, if and only if the search result is sendable
  (`ClientHello.SendHello`). With an empty host name the ClientHello itself goes out, unless an ECH extension follows the
  name, but nothing written behind it (`ClientHello.EmptyNameRun`). With ECH and without SNI nothing is ever sent
  (`ClientHello.EchOnlyRun`), and nothing either for a ClientHello that the search rejects
  (`ClientHello.EmptyBodyRun`). A blocked stream stays blocked whatever is written and popped
  (`ClientHello.BlockedForever`).
- A host name that ends within 17 bytes from the beginning of an ECH extension can be sent in one frame
  (`ClientHello.ShortNameRun`). With a server name that is no host name, both bytes of the ECH type can be
  (`ClientHello.NoHostNameRun`). `HelloPasses.PassesSplit` and `ClientHello.LargeFrames` say exactly when.
- A NEW_CONNECTION_ID frame that arrives twice can put one sequence number in two places
  (`ConnIdProtocol.RepeatedFrameExample`). `ConnIdProtocol.DeliverAgain` says for every frame exactly when it does not.
- A second stateless reset token for the first connection ID leaves the first one registered
  (`ConnIdManagement.ConnIdManager.SetStatelessResetToken`, `ConnIdManagement.SecondToken`).
- A crypto stream can be finished after an empty frame with a high offset, and then drops data that was never read
  (`CryptoReceiving.EmptyFrameFirst`, `CryptoReceiving.IgnoredWasRead`).
- An IPv4 pool to which the network address or the gateway is given back hands it out next
  (`IpAllocation.ReleaseReserved`); `IpAllocation.RunPool` and `IpAllocation.IdealPool` cover every other run.
- A CRYPTO frame with 16384 or more bytes of data can be longer than the limit it was made for
  (`CryptoStreams.MaxDataLenFits`, `CryptoStreams.LongFrame`). The packet packer never asks for
  frames of that size: its limits are at most the size of a packet buffer.
- The comment on `maxMTUDiff` speaks of 10 bytes, the constant is 20. The accuracy theorem uses the constant.

## Model

| member | source | states |
|---|---|---|
| `FrameSorting.FrameSorter.constructor` | quicfork/frame_sorter.go:36-43 | a new sorter is one gap up to the largest offset |
| `FrameSorting.FrameSorter.FindStartGap` | quicfork/frame_sorter.go:180-190 | the first gap that ends at or behind the offset, and whether the offset is inside it |
| `FrameSorting.FrameSorter.FindEndGap` | quicfork/frame_sorter.go:192-202 | the last gap that starts at or in front of the offset, or none from the given gap on; beyond the last gap only at the largest offset |
| `FrameSorting.FrameSorter.DeleteConsecutive` | quicfork/frame_sorter.go:205-218 | removes exactly the entries of one stretch and calls each callback once |
| `FrameSorting.FrameSorter.Locate` | quicfork/frame_sorter.go:56-76 | finds both ends of a frame among the gaps; "nothing new" only if no gap meets the frame; beyond the last gap only at the largest offset |
| `FrameSorting.FrameSorter.ReplaceFrom` | quicfork/frame_sorter.go:85-112 | the replacement loop removes exactly the entries that the frame covers completely, and says whether the frame is a duplicate or has to be cut in front of a longer entry |
| `FrameSorting.FrameSorter.CutFrame` | quicfork/frame_sorter.go:105-147 | the stored part is the matching slice of the frame |
| `FrameSorting.FrameSorter.SpliceGaps` | quicfork/frame_sorter.go:120-160 | the new gap list is the old one with exactly the stored range taken out, and the entries in that range are gone |
| `FrameSorting.FrameSorter.PushAt` | quicfork/frame_sorter.go:78-178 | replacing, cutting, gap updates and storing together keep the tiling, take exactly the range out of the gaps and account for every callback; a duplicate is reported if and only if nothing in the frame is new, unless it begins right behind a gap with a shorter entry |
| `FrameSorting.FrameSorter.Insert` | quicfork/frame_sorter.go:114-178 | which part of the frame takes the place of which entries, and that exactly the frame is taken out of the gaps |
| `FrameSorting.FrameSorter.Store` | quicfork/frame_sorter.go:162-177 | the stored entry is the frame's slice at its place; its callback is called at once if and only if the slice is short and was copied; nothing is stored beyond the gap limit |
| `FrameSorting.FrameSorter.TryPush` | quicfork/frame_sorter.go:56-178 | invariant, gaps, provenance and callbacks of one push, with the exact conditions of duplicates, the gap limit and the panic; otherwise exactly one part of the frame is stored |
| `FrameSorting.FrameSorter.Push` | quicfork/frame_sorter.go:45-54 | keeps the tiling; coverage grows by exactly the pushed range at or behind the read position; every stored byte is an old byte or the frame's byte at its offset; each callback is accounted for; panics if and only if the frame has data and ends at or beyond the largest offset; a frame without anything new is dropped and its callback called; otherwise one part of it is stored, without its callback if and only if that part is shorter than 128 bytes and either less than the frame or all of it, nothing new, with an entry right behind; a frame that is all new is stored as it is, and no callback is called |
| `FrameSorting.FrameSorter.Pop` | quicfork/frame_sorter.go:220-232 | takes the entry at the read position off the readable bytes, nothing if and only if the read position is at a gap |
| `FrameSorting.FrameSorter.HasMoreData` | quicfork/frame_sorter.go:235-237 | true if and only if some byte is buffered |
| `FrameSorting.FrameSorter.Peek` | quicfork/frame_sorter.go:245-274 | succeeds if and only if enough consecutive bytes are there, then copies exactly those and nothing else |
| `FrameSorting.PushConsistent` | quicfork/frame_sorter.go:56-178 | pushing fragments of one stream, with any overlap, keeps every entry a piece of that stream |
| `FrameSorting.RunConsistent` | quicfork/frame_sorter.go:245-274 | the consecutive bytes from an offset on are the stream's bytes from there on |
| `FrameSorting.PunchAcross` | quicfork/frame_sorter.go:120-160 | adjusting the first gap, deleting the gaps between and adjusting the last gap takes exactly the range out of the gap list |
| `FrameSorting.PlacementExtent` | quicfork/frame_sorter.go:85-147 | where the stored part begins and ends, in terms of the gaps and entries before, and when it counts as cut |
| `FrameSorting.NewIsStored` | quicfork/frame_sorter.go:56-178 | a frame that lies in gaps is stored as a whole with its callback, and nothing is replaced |
| `FrameSorting.ReplacingFrame` | quicfork/frame_sorter.go:85-112 | a run: a short frame that replaces an entry and goes on in a gap keeps its callback until it is popped |
| `FrameSorting.SameGaps` | quicfork/frame_sorter.go:28-32 | a gap list is determined by the bytes in its gaps |
| `FrameSorting.LimitReached` | quicfork/frame_sorter.go:172-174 | for every gap list that the received fragments leave: it is full and the next fragment splits a gap, if and only if the fragments, taken as bytes, leave 1000 gaps one of which it splits |
| `FrameSorting.NextFragmentFits` | quicfork/frame_sorter.go:172-174 | a fragment that does not begin behind the first missing byte never meets the gap limit |
| `Tiling.TilesCover` | quicfork/frame_sorter.go:28-32 | the entries cover exactly what is at or behind the read position and in no gap |
| `Tiling.PunchGapsOk` | quicfork/frame_sorter.go:120-160 | the gap list stays sorted, non-empty, without touching gaps and open to the largest offset |
| `Tiling.InsertTiles` | quicfork/frame_sorter.go:56-178 | storing a fragment in place of what it covers turns the old tiling into a tiling of the new gaps |
| `Reassembly.PushStep` | quicfork/frame_sorter.go:45-54 | a fragment of the stream never panics, and fails if and only if what came before leaves 1000 gaps one of which it splits |
| `Reassembly.PopStep` | quicfork/frame_sorter.go:220-232 | delivers the next bytes of the stream, none if and only if the next byte was not pushed |
| `Reassembly.RunOps` | quicfork/frame_sorter.go:45-232 | in every run of pushes and pops each pop returns the next bytes of the stream, none if and only if the next one was not pushed, and each callback is queued, called or handed out exactly as often as it came; the run fails if and only if a fragment meets the gap limit, and at that fragment; as long as fragments do not overlap, each pop returns one of them as it was pushed, with its callback |
| `Reassembly.Reassemble` | quicfork/frame_sorter.go:45-232 | after any run and a final drain exactly the bytes in front of the first byte never pushed were delivered, so all of the stream once all was pushed; it fails if and only if a fragment meets the gap limit |
| `Reassembly.OrderedIsWithinLimit` | quicfork/frame_sorter.go:172-174 | fragments that leave no byte out on their way, however many, never meet the gap limit |
| `ReceiveStreams.FinalOffsetIsFixed` | quicfork/internal/flowcontrol/stream_flow_controller.go:48-99 | the final size is rejected if and only if a frame goes beyond it or ends the stream in front of received bytes; otherwise it never changes |
| `ReceiveStreams.ReceiveStream.constructor` | quicfork/receive_stream.go:60-74 | a new stream has nothing to read and no final offset |
| `ReceiveStreams.ReceiveStream.DequeueNextFrame` | quicfork/receive_stream.go:356-365 | the readable bytes stay the same, a frame comes if and only if there is one, without one the last flag tells whether everything was read, and no callback is lost or called twice |
| `ReceiveStreams.ReceiveStream.PushFrame` | quicfork/receive_stream.go:424-432 | the sorter's answer to the frame; a frame that is all new is queued as it is, with its callback |
| `ReceiveStreams.ReceiveStream.HandleStreamFrame` | quicfork/receive_stream.go:416-432 | exact conditions of every error and of the panic; an accepted frame fills exactly its range of the gaps, keeps the invariant and never makes fewer bytes readable |
| `ReceiveStreams.LargestOffsetPanics` | quicfork/receive_stream.go:416-432 | one byte in front of the largest offset, within the windows, panics on a new stream |
| `ReceiveStreams.LargestFinalSize` | quicfork/receive_stream.go:416-432 | a new stream that is told to end at the largest offset accepts that, and a read waits |
| `ReceiveStreams.ReceiveStream.ReadStep` | quicfork/receive_stream.go:144-227 | one round of the read loop, with the exact reason when it is the last: EOF comes with bytes if and only if they are the last ones and the frame they come from is known to be the last |
| `ReceiveStreams.ReceiveStream.ReadImpl` | quicfork/receive_stream.go:129-233 | the loop over frames puts the readable bytes into the buffer one by one and touches nothing behind them |
| `ReceiveStreams.ReceiveStream.Read` | quicfork/receive_stream.go:84-233 | copies the readable bytes as far as they fit, leaves the rest readable, and waits if and only if nothing can be read before the end; EOF comes with bytes if and only if all that is left up to the final offset fits, and the frame with the last byte was, or is now, taken out of the queue when the end was known |
| `ReceiveStreams.ReceiveStream.Peek` | quicfork/receive_stream.go:246-354 | shows the next bytes and consumes none; the result is success, EOF or waiting according to how many bytes are there and where the stream ends |
| `ReceiveStreams.NothingBehindEnd` | quicfork/receive_stream.go:356-365 | nothing is readable behind the highest received offset, and no stream is at an end at the largest offset or behind it |
| `StreamTransfer.FrameStep` | quicfork/receive_stream.go:416-432 | a frame cut from the stream is never a final size error and never panics; it is a flow control error if and only if it ends above the window and above everything before, a sorter error if and only if it meets the gap limit, and otherwise keeps the run in step |
| `StreamTransfer.ReadOnce` | quicfork/receive_stream.go:129-233 | the answer of an ideal stream: the next bytes as far as they came and fit, waiting or EOF exactly when it should; EOF comes with the last bytes, unless they were taken out of the queue before the end was known |
| `StreamTransfer.PeekOnce` | quicfork/receive_stream.go:246-354 | the answer of an ideal stream: all that was asked for, or the rest of the stream with EOF, or waiting |
| `StreamTransfer.RunOps` | quicfork/receive_stream.go:129-432 | in every run of frames, reads and peeks each call gets the answer of an ideal stream that knows only which bytes came; the run ends early if and only if a frame is not accepted, at that frame and with its verdict; a read that delivers the last bytes says EOF, if no read or peek was made between the last byte and the end mark |
| `StreamTransfer.ReadsArePrefix` | quicfork/receive_stream.go:129-233 | the results of Read, put together, are the beginning of the stream, and all of it at EOF |
| `StreamTransfer.Transfer` | quicfork/receive_stream.go:129-432 | after any run, reading the rest gives exactly the bytes in front of the first one that never came; EOF if and only if all bytes and the end mark came; then every frame buffer was given back as often as it came; it ends early if and only if a frame is not accepted |
| `StreamTransfer.BuffersInUse` | quicfork/receive_stream.go:356-365 | in every run of frames that do not overlap, no buffer is given back before its last byte was read |
| `StreamTransfer.PeekThenRead` | quicfork/receive_stream.go:246-256 | a read after a peek returns the peeked bytes |
| `Sni.FindHostName` | quicfork/sni.go:105-123 | the loop over the name list computes the search function |
| `Sni.FindInExtensions` | quicfork/sni.go:85-136 | the loop over the extensions computes the search function |
| `Sni.FindSniAndEch` | quicfork/sni.go:19-136 | the whole parser computes the search function on every input, including truncated ones |
| `Sni.SearchSound` | quicfork/sni.go:19-136 | positions that are found lie inside the message, which is a whole ClientHello |
| `Sni.SearchApart` | quicfork/sni.go:85-136 | the host name that is found does not overlap the header of the ECH extension |
| `Sni.ExtensionsOfMessage` | quicfork/sni.go:33-83 | in a message of header, version, random and four vectors (section 4.1.2 of RFC 8446) the extensions are what is in the last vector |
| `Sni.SearchOfMessage` | quicfork/sni.go:19-136 | such a message is searched from its extensions to its end |
| `Sni.NameSearchFinds` | quicfork/sni.go:105-123 | in a well-formed name list the first host name is found, wherever it is |
| `Sni.ExtSearchFinds` | quicfork/sni.go:85-136 | in a well-formed extension list the host name is found at its bytes, and ECH if and only if it is there |
| `CryptoStreams.MaxDataLenFits` | quicfork/internal/wire/crypto_frame.go:54-66 | a frame with the largest data length fits the limit if and only if the limit is at most 16386 bytes more than the length of the offset field, which is if and only if the data length is below 16384 |
| `CryptoStreams.MaxDataLenIsLargest` | quicfork/internal/wire/crypto_frame.go:54-66 | no frame with more data fits the limit |
| `CryptoStreams.VarintLenIsShortest` | quicfork/quicvarint/varint.go:164-180 | the shortest of the four lengths of section 16 of RFC 9000 that holds the number |
| `CryptoStreams.LongFrame` | quicfork/internal/wire/crypto_frame.go:54-66 | with a limit of 16388 bytes the frame takes 16390 |
| `CryptoStreams.RoomForOne` | quicfork/internal/wire/crypto_frame.go:54-66 | with 11 bytes or more there is room for data at any offset |
| `CryptoStreams.CutTableOk` | quicfork/crypto_stream.go:159-177 | the cuts lie inside the ClientHello; both are usable if and only if the search result is scramblable; an empty cut in front of another one is what keeps the ClientHello from going out; one cut begins inside the host name behind its first byte and ends with it, and one begins between the two bytes of the ECH type |
| `CryptoStreams.LongerIsNoHello` | quicfork/crypto_stream.go:140-180 | a whole ClientHello with more behind it is not searched as one |
| `CryptoStreams.InitialCryptoStream.constructor` | quicfork/crypto_stream.go:114-129 | starts waiting for the ClientHello, or plain when scrambling is off |
| `CryptoStreams.InitialCryptoStream.Write` | quicfork/crypto_stream.go:140-180 | appends the data; scrambling begins exactly when the ClientHello is complete and has something to cut, and blocks if and only if the result is not scramblable |
| `CryptoStreams.InitialCryptoStream.PopInOrder` | quicfork/crypto_stream.go:85-95 | the next bytes in order, as many as there are or as the limit allows; nothing only if there is no data or no room |
| `CryptoStreams.InitialCryptoStream.PopFirstPass` | quicfork/crypto_stream.go:221-248 | the next bytes that are not held back, as many as the limit, the next cut or the ClientHello allows; a cut that is reached is skipped |
| `CryptoStreams.InitialCryptoStream.PopCut` | quicfork/crypto_stream.go:187-219 | bytes of the first held back piece that is left, as many as the limit allows; when the last piece is gone the stream goes on in order |
| `CryptoStreams.InitialCryptoStream.PopCryptoFrame` | quicfork/crypto_stream.go:182-249 | every frame carries the right bytes at its offset and makes the work left smaller; with room and data there is a frame, unless the stream is stuck at an empty cut; after scrambling the stream goes on at its end |
| `CryptoStreams.StuckHasSent` | quicfork/crypto_stream.go:187-219 | a stream that is stuck at an empty cut has sent all of the ClientHello if and only if no other cut comes behind it |
| `HelloPasses.FirstPassStep` | quicfork/crypto_stream.go:221-248 | one more frame of the first pass: the frames carry, in order, exactly what lies in front of the write offset and is not skipped |
| `HelloPasses.CutFrameInSecondPass` | quicfork/crypto_stream.go:187-219 | a frame of the second pass lies in one cut |
| `HelloPasses.PassesSplit` | quicfork/crypto_stream.go:159-249 | no frame carries the first and the last byte of a host name of two or more bytes, unless the cut for ECH covers the name; no frame carries both bytes of the ECH type, unless it lies in what is taken for a name |
| `HelloPasses.SecondHalfLater` | quicfork/crypto_stream.go:221-248 | no byte of the second half of the host name is sent in the first pass, unless the cut for ECH reaches its beginning |
| `HelloPasses.EchInNoHostName` | quicfork/sni.go:85-136 | the ECH type lies in what is taken for a name only if no host name was found |
| `ClientHello.PopRest` | quicfork/crypto_stream.go:182-249 | popping ends; then every byte written was carried, or the stream is stuck at an empty cut, or it never started |
| `ClientHello.SendHello` | quicfork/crypto_stream.go:140-249 | for every whole ClientHello, also one that the search rejects, with any pieces, later writes and size limits: the frames carry what was written; all of it if and only if the search result is sendable, the ClientHello if and only if it can go out, and nothing at all if it was rejected or there is no first cut; the frames are a complete first pass over everything but the cuts, in order, and then the cuts; no frame shows the whole host name or the whole ECH type, with the exceptions of `HelloPasses.PassesSplit` |
| `ClientHello.WaitSteps` | quicfork/crypto_stream.go:140-180 | behind a whole ClientHello that the search rejects nothing is ever popped, whatever is written |
| `ClientHello.LargeFrames` | quicfork/crypto_stream.go:187-219 | the exceptions are exact: with room for the first cut in one frame, a name that the cut for ECH covers is in one frame, and so is an ECH type inside a name |
| `ClientHello.ShortNameRun` | quicfork/crypto_stream.go:159-177 | a concrete ClientHello with an empty ECH extension in front of the name "ab", which is sent in one frame |
| `ClientHello.NoHostNameRun` | quicfork/crypto_stream.go:159-177 | a concrete ClientHello with ECH and a server name that is no host name: the ECH type is sent in one frame |
| `ClientHello.BlockedForever` | quicfork/crypto_stream.go:131-249 | whatever is written and popped, a blocked stream sends nothing behind the ClientHello; it says that it has data forever, or never if nothing was started |
| `ClientHello.EmptyNameRun` | quicfork/crypto_stream.go:159-168 | a concrete ClientHello with an empty host name: over any run its 53 bytes are sent, and no byte behind them |
| `ClientHello.EchOnlyRun` | quicfork/crypto_stream.go:131-138 | a concrete ClientHello with ECH and without SNI: over any run nothing is sent, and the stream says that it has no data |
| `ClientHello.EmptyBodyRun` | quicfork/crypto_stream.go:145-150 | a ClientHello without a body is whole, the search rejects it, and over any run no frame is ever popped |
| `CryptoReceiving.CryptoReceiver.constructor` | quicfork/crypto_stream.go:30-32 | a new stream has received nothing |
| `CryptoReceiving.CryptoReceiver.HandleCryptoFrame` | quicfork/crypto_stream.go:34-56 | exact error conditions; before the end the frame's range is received, after it nothing changes |
| `CryptoReceiving.CryptoReceiver.GetCryptoData` | quicfork/crypto_stream.go:59-62 | the next bytes, none if and only if the next byte was not received |
| `CryptoReceiving.CryptoReceiver.Finish` | quicfork/crypto_stream.go:64-73 | succeeds if and only if all received bytes were read |
| `CryptoReceiving.IgnoredWasRead` | quicfork/crypto_stream.go:42-53 | what a finished stream ignores was read, if and only if its highest offset is the end of received data |
| `CryptoReceiving.EmptyFrameFirst` | quicfork/crypto_stream.go:34-73 | for any data: an empty frame behind it, then Finish, and the data is accepted but never delivered |
| `HelloTransfer.Accept` | quicfork/crypto_stream.go:34-56 | a frame of the message is refused if and only if it ends above the size limit of crypto streams, or meets the gap limit |
| `HelloTransfer.ReadAll` | quicfork/crypto_stream.go:59-62 | reading goes on to the first byte that did not come |
| `HelloTransfer.FittingIsShort` | quicfork/crypto_stream.go:34-41 | all frames are accepted if and only if the message keeps to the size limit and every frame to the gap limit |
| `HelloTransfer.Deliver` | quicfork/crypto_stream.go:34-62 | frames that carry a message, in any order with any repetition, are put together to it by the crypto stream of the peer, if and only if the message is at most 16384 bytes and no frame meets the gap limit |
| `HelloTransfer.ScrambledTransfer` | quicfork/crypto_stream.go:140-249 | the round trip: what was written is what the peer reads, if and only if it is at most 16384 bytes and no frame meets the gap limit; the host name and the ECH type are split as `HelloPasses.PassesSplit` says |
| `HelloTransfer.HostNameIsSendable` | quicfork/sni.go:19-136 | in a well-formed message with a host name that is not empty the search finds the name at its bytes, and ECH if and only if it is there, and the message can be sent |
| `HelloTransfer.HostNameTransfer` | quicfork/crypto_stream.go:140-249 | the round trip for every well-formed ClientHello with a host name that is not empty, under the same condition; without ECH no frame shows a host name of two or more bytes |
| `ConnIdManagement.ConnIdManager.constructor` | quicfork/conn_id_manager.go:45-58 | starts with the initial connection ID as number 0 |
| `ConnIdManagement.ConnIdManager.AddConnectionId` | quicfork/conn_id_manager.go:132-166 | inserts in order, ignores an equal entry, and fails only on a different entry with the same number |
| `ConnIdManagement.ConnIdManager.UpdateConnectionId` | quicfork/conn_id_manager.go:168-186 | retires the active number, activates the front of a queue that is not empty, and keeps order, tokens and the count of every number |
| `ConnIdManagement.ConnIdManager.RetireBelow` | quicfork/conn_id_manager.go:90-114 | retires exactly the queued and probing numbers below the bound, conserving every number |
| `ConnIdManagement.ConnIdManager.Enqueue` | quicfork/conn_id_manager.go:116-129 | queues the new entry, activates the front when the active one is below the bound, fails if and only if a different entry has the number |
| `ConnIdManagement.ConnIdManager.AddNew` | quicfork/conn_id_manager.go:90-129 | after a frame that is not stale nothing active, queued or probing is below its bound, and every other entry is kept with its ID and token |
| `ConnIdManagement.ConnIdManager.Add` | quicfork/conn_id_manager.go:64-130 | the invariant, the exact result and the new entries, and that every number is active, queued, probing or retired exactly once more if it was new |
| `ConnIdManagement.ConnIdManager.Get` | quicfork/conn_id_manager.go:223-244 | rotates once if and only if a change is due, returns the active ID and conserves every number; `ConnIdProtocol.RunChangesOnTime` says when that is |
| `ConnIdManagement.ConnIdManager.GetConnIdForPath` | quicfork/conn_id_manager.go:254-277 | a path keeps its ID; a new path takes the front of the queue |
| `ConnIdManagement.ConnIdManager.RetireConnIdForPath` | quicfork/conn_id_manager.go:279-295 | retires exactly the number that the path held |
| `ConnIdManagement.ConnIdManager.SetStatelessResetToken` | quicfork/conn_id_manager.go:210-217 | registers the token; the tokens stay in step if and only if none was set before |
| `ConnIdManagement.SecondToken` | quicfork/conn_id_manager.go:210-217 | a run on a new manager: the second token is active, and both are registered |
| `ConnIdManagement.ConnIdManager.Close` | quicfork/conn_id_manager.go:188-198 | no reset token stays registered |
| `ConnIdManagement.FrontOrder` | quicfork/conn_id_manager.go:168-186 | rotation keeps the queue above the active, probing and retired numbers |
| `ConnIdManagement.SwitchTokens` | quicfork/conn_id_manager.go:168-186 | rotation keeps the registered tokens equal to the active one and those of the paths |
| `ConnIdGeneration.ConnIdGenerator.constructor` | quicfork/conn_id_generator.go:60-79 | starts with number 0 active |
| `ConnIdGeneration.ConnIdGenerator.IssueNewConnId` | quicfork/conn_id_generator.go:137-151 | issues the next number with the generated ID and its token in the frame, or changes nothing; fails if and only if there is no ID |
| `ConnIdGeneration.ConnIdGenerator.SetMaxActiveConnIds` | quicfork/conn_id_generator.go:81-97 | fills up to the limit and never beyond the larger of it and what was active |
| `ConnIdGeneration.ConnIdGenerator.RetirePosition` | quicfork/conn_id_generator.go:127-135 | the place that keeps the list sorted by time |
| `ConnIdGeneration.ConnIdGenerator.Retire` | quicfork/conn_id_generator.go:99-135 | a violation if and only if the number was never issued or the packet used that ID; otherwise the number is replaced by a new one, and number 0 is not |
| `ConnIdGeneration.ConnIdGenerator.SetHandshakeComplete` | quicfork/conn_id_generator.go:153-158 | the initial ID waits for its removal, in order of time |
| `ConnIdGeneration.ConnIdGenerator.RemoveRetiredConnIds` | quicfork/conn_id_generator.go:160-171 | removes exactly the entries whose time has come |
| `ConnIdGeneration.ConnIdGenerator.RemoveAll` | quicfork/conn_id_generator.go:173-183 | unregisters every ID |
| `ConnIdGeneration.QueueRegistered` | quicfork/conn_id_generator.go:99-135 | moving an ID to the retire list keeps the registered IDs equal to the active, waiting and initial ones |
| `ConnIdProtocol.QueueBelowLimit` | quicfork/conn_id_manager.go:64-72 | the queue of a manager that agrees with the generator is below the limit |
| `ConnIdProtocol.DeliverNewStep` | quicfork/conn_id_manager.go:64-130 | the first delivery of any issued frame, in any order, succeeds and keeps both ends in agreement |
| `ConnIdProtocol.DeliverRetireStep` | quicfork/conn_id_generator.go:99-125 | delivering a retirement, once or again, keeps both ends in agreement |
| `ConnIdProtocol.SetLimitStep` | quicfork/conn_id_generator.go:81-97 | a limit that the peer may announce keeps both ends in agreement |
| `ConnIdProtocol.RotateStep` | quicfork/conn_id_manager.go:223-244 | a rotation happens exactly when it is due and keeps both ends in agreement |
| `ConnIdProtocol.PathStep` | quicfork/conn_id_manager.go:254-295 | probing a path and giving it up keep both ends in agreement |
| `ConnIdProtocol.LocalStep` | quicfork/conn_id_manager.go:219-248 | sending, the handshake and cleanup keep both ends in agreement |
| `ConnIdProtocol.AgreedIsPartitioned` | quicfork/conn_id_manager.go:64-186 | every issued number is in exactly one of in flight, queued, active, held by one path, or retired |
| `ConnIdProtocol.RunProtocol` | quicfork/conn_id_generator.go:81-151 | every run, as a trace of snapshots that are related step by step: a frame that arrives for the first time is never refused, and is retired at once if and only if a later ID is active or was given to a path; IDs change on time; at the end every issued number is in exactly one place |
| `ConnIdProtocol.RunChangesOnTime` | quicfork/conn_id_manager.go:219-244 | in terms of the calls: only a rotation changes the active ID; the first change is the first rotation behind the handshake with an ID in the queue; any other rotation changes it if and only if two IDs are queued and 5000 packets plus the jitter of the last change were sent since |
| `ConnIdProtocol.DeliverAgain` | quicfork/conn_id_manager.go:74-130 | a frame that is delivered again leaves its number in one place if and only if it is stale and already retired, or still active or queued |
| `ConnIdProtocol.RepeatedFrameExample` | quicfork/conn_id_manager.go:83-88 | a run in which a repeated frame puts number 1 in two places |
| `MtuDiscovery.MtuFinder.constructor` | quicfork/mtu_discoverer.go:112-135 | the search starts between start and the maximum |
| `MtuDiscovery.MtuFinder.MaxSize` | quicfork/mtu_discoverer.go:141-148 | the last valid entry of the table of lost sizes |
| `MtuDiscovery.MtuFinder.GetPing` | quicfork/mtu_discoverer.go:164-177 | the probe is at least the size known to work and below the smallest size believed lost |
| `MtuDiscovery.MtuFinder.Reset` | quicfork/mtu_discoverer.go:183-189 | a new generation with a new search |
| `MtuDiscovery.MtuFinder.OnAcked` | quicfork/mtu_discoverer.go:198-233 | the array loops compute the acknowledged search; probes of older generations change nothing |
| `MtuDiscovery.MtuFinder.OnLost` | quicfork/mtu_discoverer.go:235-253 | the array loops compute the lost search; probes of older generations change nothing |
| `MtuDiscovery.ProbeInRange` | quicfork/mtu_discoverer.go:164-177 | probes are at least the minimum and below the maximum |
| `MtuDiscovery.ProbeAfterLoss` | quicfork/mtu_discoverer.go:164-177 | after a loss the next probe lies below it, halfway between the minimum and the smallest size that was lost |
| `MtuDiscovery.ProbeAfterAck` | quicfork/mtu_discoverer.go:164-177 | after an acknowledgement the next probe lies above it, halfway to the maximum |
| `MtuDiscovery.AckedCloser` | quicfork/mtu_discoverer.go:198-233 | an acknowledged probe strictly decreases the measure of the search |
| `MtuDiscovery.LostCloser` | quicfork/mtu_discoverer.go:235-253 | a lost probe strictly decreases the measure of the search |
| `MtuDiscovery.AckedRank` | quicfork/mtu_discoverer.go:198-233 | an acknowledged probe halves the width of the search, or there are fewer probes to go until it is halved |
| `MtuDiscovery.LostRank` | quicfork/mtu_discoverer.go:235-253 | the same for a lost probe, whatever was lost before |
| `MtuDiscovery.ProbeCosts` | quicfork/mtu_discoverer.go:164-253 | every probe takes one from a budget of 18 per halving that is left |
| `MtuDiscovery.HalvingsLogarithmic` | quicfork/mtu_discoverer.go:137-139 | the number of halvings is a logarithm of the width |
| `MtuDiscovery.ProbeStep` | quicfork/mtu_discoverer.go:164-253 | one probe makes the search the acknowledged or the lost one, as the path decides, and keeps the path MTU bracketed |
| `MtuDiscovery.AckedBrackets` | quicfork/mtu_discoverer.go:198-233 | after an acknowledged probe the path MTU is still between minimum and maximum |
| `MtuDiscovery.LostBrackets` | quicfork/mtu_discoverer.go:235-253 | after a lost probe the path MTU is still between minimum and maximum, with fewer than three spurious losses |
| `MtuDiscovery.DoneIsAccurate` | quicfork/mtu_discoverer.go:137-148 | at the end the size is at most 20 bytes below the path MTU and never above it |
| `MtuDiscovery.Discover` | quicfork/mtu_discoverer.go:137-253 | the search ends for every pattern of losses, after at most 18 probes per halving of its width; it never finds more than the path carries, and is accurate with fewer than three spurious losses |
| `CuckooFiltering.NextPow2Smallest` | crypto/replay.go:37-46 | the bit tricks give the smallest power of two that is large enough |
| `CuckooFiltering.Fingerprint` | crypto/replay.go:48-54 | is never zero, the mark of an empty slot |
| `CuckooFiltering.FingerprintChanges` | crypto/replay.go:48-54 | nonces that differ in one of the five low bytes have different fingerprints, except that 0 counts as 1 |
| `CuckooFiltering.BytesMake` | crypto/replay.go:48-54 | the five bytes of the fingerprint are the low 40 bits of the nonce |
| `CuckooFiltering.FirstBucket` | crypto/replay.go:56-58 | nonces that differ in the low 18 bits only have different first buckets |
| `CuckooFiltering.OtherBucket` | crypto/replay.go:60-63 | at the default capacity the two buckets of a fingerprint are different, and different fingerprints lead from one bucket to different ones |
| `CuckooFiltering.EqualItems` | crypto/replay.go:48-63 | two nonces have the same item if and only if they have the same fingerprint and the same two buckets |
| `CuckooFiltering.Index1InRange` | crypto/replay.go:56-58 | is a bucket of the table |
| `CuckooFiltering.Index2Involution` | crypto/replay.go:60-63 | the other bucket of the other bucket is the first one |
| `CuckooFiltering.CuckooFilter.constructor` | crypto/replay.go:25-35 | an empty table with a power of two of buckets |
| `CuckooFiltering.CuckooFilter.BucketContains` | crypto/replay.go:72-80 | whether a slot of the bucket holds the fingerprint |
| `CuckooFiltering.CuckooFilter.Lookup` | crypto/replay.go:65-70 | true if and only if a copy of the fingerprint is stored in one of the two buckets, so never false for a stored value |
| `CuckooFiltering.CuckooFilter.BucketInsert` | crypto/replay.go:112-121 | stores in the first free slot, fails if and only if there is none |
| `CuckooFiltering.CuckooFilter.Evict` | crypto/replay.go:92-110 | for every choice of victims: fingerprints are kicked out of full buckets one after the other until there is room, and it gives up after exactly 500; everything stored stays stored, except for one fingerprint when it gives up |
| `CuckooFiltering.CuckooFilter.KickOut` | crypto/replay.go:100-108 | one round: the victim moves to its other bucket or stays in hand, and its item is the same in both |
| `CuckooFiltering.CuckooFilter.Insert` | crypto/replay.go:82-110 | takes the first bucket with room, and evicts only if neither has any; success stores exactly one more, failure loses exactly one; the count is the number of filled slots |
| `CuckooFiltering.FoundIsStored` | crypto/replay.go:65-70 | looking into the two buckets decides whether the item is stored anywhere |
| `ReplayFiltering.ReplayFilter.constructor` | crypto/replay.go:136-148 | two empty generations and the default window |
| `ReplayFiltering.ReplayFilter.MaybeSwap` | crypto/replay.go:172-179 | the current generation becomes the previous one if and only if half a window has passed; `ReplayFiltering.RunRemembers` and `ReplayFiltering.RunForgets` say what half a window is |
| `ReplayFiltering.ReplayFilter.Check` | crypto/replay.go:150-159 | true if and only if a generation that is kept has the nonce, and then nothing changes; otherwise the nonce is inserted as the cuckoo filter does it, and at most one item is lost |
| `ReplayFiltering.RunChecks` | crypto/replay.go:150-179 | every check of a run is one step from the filter as the check before left it; a nonce accepted twice within half a window had its item lost in between; a nonce is refused only if an item with its fingerprint and buckets was accepted before; it fails to be stored only if both its buckets are crowded; a nonce that comes again within half of the window, which is 120 seconds by default, is refused unless its item was lost, and is accepted once half of the window passed twice |
| `ReplayFiltering.LosesOne` | crypto/replay.go:150-159 | a check loses an item if and only if it fails to store, and then one item only |
| `ReplayFiltering.RunKeeps` | crypto/replay.go:150-179 | in every reachable state the current generation has each item at most once, and only items accepted since it began |
| `ReplayFiltering.RunRecognises` | crypto/replay.go:150-179 | a nonce that was accepted is refused for half a window, whatever else is checked and swapped, unless a check in between failed to store and lost this very item |
| `ReplayFiltering.RunRefuses` | crypto/replay.go:150-179 | a refused nonce has the fingerprint and the buckets of a nonce accepted before |
| `ReplayFiltering.RunCrowds` | crypto/replay.go:82-110 | a nonce that is not stored was not seen, and each of its buckets belongs to four different items accepted less than half a window before |
| `ReplayFiltering.RunRemembers` | crypto/replay.go:172-179 | in terms of the window and the clock: a nonce that was accepted is refused for half of the window, unless its item was lost |
| `ReplayFiltering.ForgottenAfterSwaps` | crypto/replay.go:172-179 | once two swaps came in between, a nonce is accepted again, unless an equal item was accepted since |
| `ReplayFiltering.RunForgets` | crypto/replay.go:172-179 | in terms of the window and the clock: a nonce is accepted again if half of the window passed up to one check since it was accepted, and again up to a later check |
| `ReplayFiltering.SwapsApart` | crypto/replay.go:172-179 | a generation lasts for half of the window at least, from the second reading of the clock on |
| `ReplayFiltering.DefaultBuckets` | crypto/replay.go:136-148 | a filter has 2^18 buckets |
| `GroupDag.RankFalls` | engine/outbound_group_dag.go:7-46 | finishing order falls along every path |
| `GroupDag.BackEdge` | engine/outbound_group_dag.go:7-46 | an edge back to the stack closes a cycle |
| `GroupDag.Validator.Dfs` | engine/outbound_group_dag.go:17-37 | finishes a node with all nodes behind it, or there is a cycle |
| `GroupDag.ValidateGroupDag` | engine/outbound_group_dag.go:7-46 | accepts if and only if the reference graph has no cycle, for every order of iteration |
| `Checksums.Fold` | proxy/tun.go:756-761 | keeps the residue of 65535, and is zero only for zero |
| `Checksums.FoldIsOnesSum` | proxy/tun.go:745-761 | summing 32-bit and folding once is the one's complement sum of RFC 1071 |
| `Checksums.ChecksumData` | proxy/tun.go:745-754 | the loop adds all words, with an odd byte as the high half, modulo 2^32 |
| `Checksums.ChecksumFold` | proxy/tun.go:756-761 | the loop ends and folds completely |
| `Checksums.Checksum` | proxy/tun.go:719-743 | the complement of the folded sum of pseudo-header and segment |
| `Checksums.StoredChecksumVerifies` | proxy/tun.go:664-670 | storing the checksum makes the receiver's check succeed, also when UDP sends zero as all ones |
| `TunPackets.StoreChecksum` | proxy/tun.go:700-710 | the stored checksum verifies, no other byte changes, and in UDP it is not zero |
| `TunPackets.Pseudo4Fields` | proxy/tun.go:723-733 | each field of the pseudo-header at its place |
| `TunPackets.Pseudo6Fields` | proxy/tun_ipv6.go:132-141 | each field of the pseudo-header of section 8.1 of RFC 8200 at its place |
| `TunPackets.BuildTcp4` | proxy/tun.go:636-673 | all header fields and the payload are in place, both checksums verify for any old bytes in the buffer, and the bytes that are not written stay |
| `TunPackets.BuildUdp4` | proxy/tun.go:676-713 | all header fields and the payload are in place, both checksums verify for any old bytes in the buffer, and the UDP checksum is not zero |
| `TunPackets.BuildTcp6` | proxy/tun_ipv6.go:48-86 | all header fields and the payload are in place, and the checksum verifies with the pseudo-header of section 8.1 of RFC 8200 |
| `TunPackets.BuildUdp6` | proxy/tun_ipv6.go:89-124 | all header fields and the payload are in place, and the checksum verifies and is not zero |
| `IpAllocation.IpAllocator.constructor` | mesh/peertable.go:25-45 | an empty pool that ends in front of the broadcast address, also for the largest network |
| `IpAllocation.IpAllocator.Allocate` | mesh/peertable.go:48-75 | the lowest free address, none if and only if the pool is full; the wrap-around loop finds nothing |
| `IpAllocation.IpAllocator.Release` | mesh/peertable.go:78-92 | frees exactly the address, and everything below the next search stays used |
| `IpAllocation.IpAllocator.AllocateDualStack` | mesh/peertable.go:264-275 | a failure of either pool leaves the IPv4 addresses in use as they were |
| `IpAllocation.RunPool` | mesh/peertable.go:48-92 | every run without releases of reserved addresses gives the answers of an ideal pool whose state is only the set of addresses in use |
| `IpAllocation.IdealPool` | mesh/peertable.go:13-14 | the ideal pool never gives out the network, the gateway, the broadcast address or an address in use, and fails only when all are in use |
| `IpAllocation.ReleaseReserved` | mesh/peertable.go:78-92 | a reserved address that is given back is given out next |

## Left out

- `FrameSorting.FrameSorter.Push`: nothing is said about the queue after the gap limit was exceeded, because the connection is closed then.
- `ReceiveStreams.ReceiveStream.HandleStreamFrame`: nothing is said about the state after an error or a panic, because the connection is closed then; whether the flow control windows reach the end of the frame is a parameter.
- `ReceiveStreams.ReceiveStream.Read`: does not model cancellation, RESET_STREAM, deadlines, shutdown and window updates; a call that would wait returns and is made again.
- `ReceiveStreams.ReceiveStream.Peek`: does not model cancellation, deadlines and shutdown; a call that would wait returns and is made again.
- `TunPackets.BuildTcp4`: packets that are longer than a 16-bit length field are built, but nothing is said about their transport checksum; the same holds for the other builders.
- `MtuDiscovery.MtuFinder.OnAcked`: the generation is unbounded and does not wrap at 256; the same holds for `OnLost` and `Reset`.
- `ConnIdManagement.ConnIdManager.Add`: relies on the frame parser's check that the retirement bound is not above the sequence number; packet counters are unbounded.
- `ConnIdManagement.ConnIdManager.Close`: the tokens of the model are numbers, and runner callbacks are multisets.
- `ReplayFiltering.ReplayFilter.Check`: takes the nonce as 64 bits; hashing byte strings and the clock are not modelled, the two readings of the clock are parameters; the second result, which the source drops, is what the insertion returned.
- The linked list of gaps is a sequence, and the cuckoo table is a map in which an absent bucket is empty, so the model does not capture their layout in memory.
- The pseudo-headers of the checksums are values, not local arrays.
- Preferred addresses, changes of the initial connection ID, additional runners, and closing with a replacement handler in the connection ID code.
- The IPv6 pool: its search is capped at 10000 offsets, so it may fail while addresses are free; here its result is a parameter.
- The run loop of a connection, packet packing, framing, loss detection and congestion control: they depend on sockets, clocks and floating point.
- Cryptography, SOCKS5 and HTTP servers, NAT, configuration, plugins, mobile bindings: input and output around foreign primitives.
- Length-prefixed codecs and padding: they would only add easy round trips.
