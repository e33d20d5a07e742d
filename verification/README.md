# vulkansink profiler, VFS and swap-chain rules in Dafny

This project models the core of vulkansink, an Android Vulkan test application with a
built-in profiler. The model covers:

- **Profiler wire packets** (`Packets`, on top of `Bytes`). There are four packet
  classes: generic, handshake, scope-enter and scope-exit. The model gives their sizes,
  byte layouts, constructors and setters. A decoder is added as the inverse of the
  encoder.
- **The socket transport** (`Transport`), as a sequential state machine. It covers the
  write-once role (client or server), the packet queue, the send worker's lifecycle,
  the broadcast pass that drops failed peers, and the accept loop that greets each new
  peer with the "Schwifty" handshake.
- **The profiler facade** (`Profiler`): `Initialize`, `StartScope`, `EndScope`,
  `Destroy` and the RAII `ScopeProfiler` guard, over a handle counter and a handle →
  packet-pair map.
- **The virtual file system** (`Vfs`): mount trees, `List` in `std::map` order, path
  resolution through mount points (`FsForPath`), and the global `Exists`/`List`/`Open`
  entry points.
- **The hex dump** used to log packets (`HexDump`).
- **The Vulkan selection and clamping rules** of the renderer (`Swapchain`): queue-family
  search, device suitability, surface format, present mode, extent clamping,
  image-count cap and the frame index.

Some things are passed in as parameters:

- Clocks, socket results, accept results and driver answers.
- What platform file systems report, as a `Backend` value.

Times and elapsed values are C `double`s. The packets only copy them, so they are carried
as opaque 8-byte values. Arithmetic and conversions on them are not modelled (see "Left
out"). Native byte order is little-endian.

The scope-enter constructor stores the name's length narrowed to `unsigned char`
(`m_Size`) and copies that many bytes (packets.cpp:150-156). So a name of 256 or more
bytes keeps only its first `length mod 256` bytes (`Packets.MakeScopeIn`).

The profiler facade calls the transport's `SendPacketAsync` as written. So the
facade's `StartScope` and `EndScope` abort (`None`) exactly where that call does
(`Profiler.FailedBindAbortsNextScope`).

## Model

| member | source | states |
|---|---|---|
| `Bytes.ToLE` | source/profiler/communications/packets.cpp:6-13 | The `width` bytes of a value that fits, lowest byte first, as the `Convert` union lays out a little-endian integer. |
| `Bytes.FromLE` | source/profiler/communications/packets.cpp:6-13 | The value of a byte string is below 256 to the power of its length, and its lowest byte is the first byte. |
| `Bytes.FromLEOfToLE` | source/profiler/communications/packets.cpp:6-13 | Reading back the little-endian bytes of a value that fits the width gives the value (the `Convert` union's reinterpretation). |
| `Bytes.ToLEOfFromLE` | source/profiler/communications/packets.cpp:6-13 | Writing back the value of a byte string at its own width gives the same bytes. |
| `Bytes.SignedRoundTrip` | source/profiler/communications/packets.cpp:25-32 | A two's-complement value in range survives a round trip through its bytes. |
| `Bytes.SignedBytesRoundTrip` | source/profiler/communications/packets.cpp:53-67 | Any byte string read as a signed integer and written back at the same width is unchanged. |
| `Packets.Kind` | source/profiler/communications/packets.cpp:70-156 | A handshake carries ID 0x01 and a scope-exit ID 0x11, fixed by their constructors. Generic and scope-enter packets carry the ID they were built with. |
| `Packets.Size` | source/profiler/communications/packets.cpp:82-85 | `GetSize` is 9 for the base, 17 for a handshake, 10+L for a scope-enter and 18+L for a scope-exit with an L-byte name. |
| `Packets.EncodeBase` | source/profiler/communications/packets.cpp:87-91 | The base packet is 9 bytes: the kind at byte 0 and the time at bytes 1..8. |
| `Packets.Encode` | source/profiler/communications/packets.cpp:132-192 | Every class's encoding is exactly `GetSize` bytes and starts with its kind and time. |
| `Packets.Int32Of` | source/profiler/communications/packets.cpp:25-32 | The `int` read from four bytes writes back to those four bytes. |
| `Packets.HandshakeFromMagic` | source/profiler/communications/packets.cpp:99-111 | The two `int` halves' bytes, low half first, are the eight bytes of the `long long` magic. |
| `Packets.HandshakeFromChars` | source/profiler/communications/packets.cpp:113-125 | The two halves' bytes are the eight characters in argument order. |
| `Packets.MakeScopeIn` | source/profiler/communications/packets.cpp:150-156 | The stored name is the first `length mod 256` bytes of the scope, so it is the whole scope when that fits in 255 bytes. The kind and time are the arguments. |
| `Packets.MakeScopeOut` | source/profiler/communications/packets.cpp:173-177 | Same name rule as scope-enter, with kind 0x11 and the given elapsed value. |
| `Packets.SetTime` | source/profiler/communications/packets.cpp:93-96 | The kind is unchanged and the time is replaced. |
| `Packets.SetNanoseconds` | source/profiler/communications/packets.cpp:194-197 | The elapsed field is replaced. |
| `Packets.DecodeEncode` | source/profiler/communications/packets.cpp:132-192 | Every well-kinded packet decodes from its encoding to itself. |
| `Packets.EncodeDecode` | source/profiler/communications/packets.cpp:132-192 | Whatever the decoder accepts is well-kinded and encodes back to exactly the bytes read. |
| `Packets.KindIdsDistinct` | source/profiler/communications/packets.h:6-52 | The four class IDs 0x00, 0x01, 0x10 and 0x11 are pairwise distinct. |
| `Packets.HandshakeLayout` | source/profiler/communications/packets.cpp:127-140 | A handshake is 17 bytes, with magic0 at bytes 9..12 and magic1 at bytes 13..16. |
| `Packets.ScopeInLayout` | source/profiler/communications/packets.cpp:158-171 | A scope-enter is 10+L bytes: the length byte L at byte 9, then the name. |
| `Packets.ScopeOutLayout` | source/profiler/communications/packets.cpp:179-192 | A scope-exit is the scope-enter encoding with kind 0x11, followed by 8 elapsed bytes. |
| `Packets.HandshakeMagicOnWire` | source/profiler/communications/packets.cpp:99-125 | Both handshake constructors put the magic bytes on the wire unchanged at bytes 9..16. |
| `Packets.EncodeIsBasePlusFields` | source/profiler/communications/packets.cpp:132-192 | Each `ToBuffer` is the base packet's bytes followed by the class's own fields. |
| `Packets.SetTimeOnlyTouchesTime` | source/profiler/communications/packets.cpp:93-96 | After `SetTime`, only bytes 1..8 of the encoding differ, and they hold the new time. |
| `Packets.SetNanosecondsOnlyTouchesTail` | source/profiler/communications/packets.cpp:194-197 | After `SetNanoseconds`, only the last 8 bytes differ, and they hold the new value. |
| `Transport.HelloPacket` | source/profiler/communications/socketclient.cpp:73 | The hello packet is a handshake whose magic bytes on the wire spell "Schwifty". |
| `Transport.NewTransport` | source/profiler/communications/socketclient.cpp:63-75 | A new transport has no role, queue, peers, connection, threads or listener. |
| `Transport.ConnectAsync` | source/profiler/communications/socketclient.cpp:486-502 | Without a role, the transport records the target and becomes a client; with a role, nothing changes. |
| `Transport.ListenAsync` | source/profiler/communications/socketclient.cpp:504-520 | Without a role, the transport records the target and becomes a server; with a role, nothing changes. |
| `Transport.AddToQueue` | source/profiler/communications/socketclient.cpp:399-408 | The packet is appended at the back and nothing else changes. |
| `Transport.SendPacketAsyncAsWritten` | source/profiler/communications/socketclient.cpp:464-484 | The call aborts exactly when a role is set and the previous worker returned without being joined. |
| `Transport.SendPacketAsync` | source/profiler/communications/socketclient.cpp:464-484 | Without a role, nothing happens. With one, the packet is queued, a worker is running afterwards, and nothing else changes. |
| `Transport.WorkerSetup` | source/profiler/communications/socketclient.cpp:410-431 | An unconnected worker with a role is connected and keeps running iff setup succeeds, and finishes otherwise. The queue and peers are kept. Listening starts only for a successful server. |
| `Transport.Broadcast` | source/profiler/communications/socketclient.cpp:306-347 | Every peer present is sent to once. Afterwards the peers are exactly those whose send result was not negative, in order. |
| `Transport.SendPacketAsWritten` | source/profiler/communications/socketclient.cpp:290-350 | A client reports success iff `send` returned 0. A server always reports success and keeps the non-failing peers. |
| `Transport.SendPacket` | source/profiler/communications/socketclient.cpp:290-350 | A client reports success iff `send` did not return a negative value. The server side is as written. |
| `Transport.ClientSuccessReportedAsFailure` | source/profiler/communications/socketclient.cpp:299-305 | Counterexample: a client send that writes 17 bytes is reported as a failure as written, and as a success when corrected. |
| `Transport.SendPacketVersionsAgree` | source/profiler/communications/socketclient.cpp:299-314 | Both versions keep the same peers. Their flags differ exactly for a client whose send returned a positive count. |
| `Transport.WorkerStep` | source/profiler/communications/socketclient.cpp:433-450 | With an empty queue nothing changes. Otherwise the front packet is popped and sent, and only the queue and peers change. |
| `Transport.AcceptOne` | source/profiler/communications/socketclient.cpp:227-269 | An accept result of -1 adds nobody. Any other socket is sent the hello packet's bytes and appended to the peers. |
| `Transport.ListenLoop` | source/profiler/communications/socketclient.cpp:227-272 | Over a run of accept results, exactly the accepted sockets are appended, in accept order. Each of them is sent the encoded hello packet, once. |
| `Transport.Shutdown` | source/profiler/communications/socketclient.cpp:77-100 | The destructor closes the peers when listening and the primary socket when connected. Queued packets are left unsent. |
| `Transport.ApplyKeepsPeersOnlyWhileListening` | source/profiler/communications/socketclient.cpp:227-272 | No event adds a peer while the accept thread is not running, and none stops that thread. |
| `Transport.ShutdownClosesEveryPeer` | source/profiler/communications/socketclient.cpp:77-100 | The destructor closes exactly the peers still in the list: after any run of events from a new transport, the teardown closes the peers present and no others. Peers erased by a failed broadcast are not among them. |
| `Transport.Kept` | source/profiler/communications/socketclient.cpp:325-344 | The erase pass never adds peers, and it keeps all of them iff no send failed. |
| `Transport.KeptIsOrderedSubset` | source/profiler/communications/socketclient.cpp:325-344 | The erase pass keeps an ordered subsequence of the peers and adds nobody. |
| `Transport.KeptExactlyTheSuccesses` | source/profiler/communications/socketclient.cpp:310-344 | A peer whose send did not fail survives. With distinct peers, a failed one is removed and the survivors stay distinct. |
| `Transport.Dropped` | source/profiler/communications/socketclient.cpp:310-344 | The erase pass removes no more peers than there are, and removes some iff a send failed. |
| `Transport.KeptAndDroppedSplitPeers` | source/profiler/communications/socketclient.cpp:325-344 | The erase pass loses no peer: the kept and the erased peers together are the peers before it, as a multiset. |
| `Transport.ApplyPeerLedger` | source/profiler/communications/socketclient.cpp:227-272 | In every event, the peers before plus the one accepted equal the peers after plus those a corrected worker would close after a failed send. |
| `Transport.RunPeerLedger` | source/profiler/communications/socketclient.cpp:227-344 | Over any run, the peers before plus all peers accepted equal the peers at the end plus all peers erased by failed sends, as multisets. |
| `Transport.RunAppend` | source/profiler/communications/socketclient.cpp:290-484 | A run of two event sequences ends where the second run, started from the end of the first, ends. |
| `Transport.RunAcceptedAppend` | source/profiler/communications/socketclient.cpp:227-272 | The peers accepted over two event sequences are those of the first, then those of the second. |
| `Transport.RunClosedAppend` | source/profiler/communications/socketclient.cpp:325-344 | The peers erased over two event sequences are those of the first, then those of the second. |
| `Transport.ListenQueueAndBind` | source/profiler/communications/socketclient.cpp:410-484 | A transport with no role, connection, worker, queue or peers (a new one) that listens, queues a packet and binds successfully is a listening, connected server with that packet queued and no peers. |
| `Transport.AcceptThenFailedBroadcast` | source/profiler/communications/socketclient.cpp:227-344 | A server that accepts socket 5 and then fails to send to it erases it from its peers and keeps listening. |
| `Transport.FailedPeerNeverClosed` | source/profiler/communications/socketclient.cpp:77-100 | As written: after listen, queue, bind, accept 5 and a failed send, socket 5 was accepted but is neither listed nor closed by the destructor. |
| `Transport.EveryAcceptedPeerClosedOnce` | source/profiler/communications/socketclient.cpp:77-100 | Corrected: starting with no peers, every accepted peer socket is closed exactly once, either when a failed send erases it or by the destructor. |
| `Transport.AcceptKeepsPeersDistinct` | source/profiler/communications/socketclient.cpp:234-263 | Appending a newly accepted descriptor keeps the peer list free of duplicates. |
| `Transport.RespawnAfterFailedSetupAborts` | source/profiler/communications/socketclient.cpp:464-484 | Counterexample: a server whose setup fails aborts on the next packet. |
| `Transport.RespawnAfterFailedSetupRetries` | source/profiler/communications/socketclient.cpp:464-484 | Corrected: the same sequence keeps both packets queued and a worker running. |
| `Transport.SendPacketAsyncAgreesUnlessAborting` | source/profiler/communications/socketclient.cpp:464-484 | Wherever the written call does not abort, the corrected call gives the same state. |
| `Transport.ApplyRoleWriteOnce` | source/profiler/communications/socketclient.cpp:486-520 | Only a connect or listen call on a transport without a role changes the role. |
| `Transport.ApplyQueue` | source/profiler/communications/socketclient.cpp:433-484 | Once a role is set, each event keeps "sent packet + queue" equal to "old queue + enqueued packet". |
| `Transport.RunRoleWriteOnce` | source/profiler/communications/socketclient.cpp:486-520 | Once set, the role never changes over any run of events. |
| `Transport.RunIsFifo` | source/profiler/communications/socketclient.cpp:399-484 | Over any run with a role set, the packets sent followed by those still queued equal the old queue followed by the enqueued packets, in order. |
| `Profiler.Initialize` | source/profiler/profiler.cpp:12-18 | The profiler gets a fresh transport: a server on 127.0.0.1:5300, not connected, not listening, with nothing queued and the hello packet of the given time. The counter and map are kept. |
| `Profiler.CString` | source/profiler/profiler.cpp:41-44 | `c_str()` conversion keeps the prefix before the first NUL. |
| `Profiler.StartScope` | source/profiler/profiler.cpp:36-48 | The call aborts iff the transport has a role and its worker returned unjoined. Otherwise the handle is the old counter, and the counter moves up by one. The scope-enter/scope-exit pair of the `c_str()` name, with zero elapsed time, is stored under the new handle. Only the scope-enter packet goes to the transport. |
| `Profiler.EndScope` | source/profiler/profiler.cpp:50-57 | The call aborts iff the transport's `SendPacketAsync` does. Otherwise the handle's scope-exit packet gets the elapsed value and the current time and goes to the transport. The record stays, and other records are unchanged. |
| `Profiler.Destroy` | source/profiler/profiler.cpp:74-78 | The transport is gone and the map is empty. The counter is not reset. |
| `Profiler.GuardedScope` | source/profiler/profiler.cpp:59-72 | A guard aborts iff its transport has a role and a returned, unjoined worker. Otherwise it holds the handle the counter had, and the counter moves up by one. |
| `Profiler.GuardQueuesEnterThenExit` | source/profiler/profiler.cpp:59-72 | On a server transport, a guard aborts iff the worker has already returned. Otherwise it queues its scope-enter packet and then its scope-exit packet, both carrying the scope's name. |
| `Profiler.FailedBindAbortsNextScope` | source/profiler/profiler.cpp:12-48 | After `Initialize` and one `StartScope`, a failed bind makes the next `StartScope` abort. |
| `Profiler.PerformKeepsValid` | source/profiler/profiler.cpp:33-57 | Every facade call that does not abort keeps all handles below the counter and every record well-formed. A new handle is fresh. |
| `Profiler.HandlesNeverRepeat` | source/profiler/profiler.cpp:34-38 | Across any run of calls, including `Destroy` and re-`Initialize`, handles are handed out strictly increasing, so none repeats. |
| `Profiler.CounterNeverDecreases` | source/profiler/profiler.cpp:34-38 | The handle counter never decreases over a run of calls. |
| `Vfs.FindChar` | source/app/utils/vfs.cpp:53-57 | `find('/')` returns the first position holding the character. |
| `Vfs.Mount` | source/app/utils/vfs.cpp:30-33 | The name maps to the new directory. Every other mount point and the backend are unchanged. |
| `Vfs.SortedNames` | source/app/utils/vfs.cpp:35-44 | Map iteration visits exactly the keys. |
| `Vfs.SortedNamesAscending` | source/app/utils/vfs.cpp:35-44 | Map iteration is strictly ascending in `std::string` order and visits each key once. |
| `Vfs.ListIsSortedMountNames` | source/app/utils/vfs.cpp:35-44 | A directory lists every mount name exactly once, in ascending order. |
| `Vfs.DirectoryFsForPath` | source/app/utils/vfs.cpp:51-70 | Directory resolution yields nothing or a file system. |
| `Vfs.FsForPath` | source/app/utils/vfs.cpp:77-93 | Resolution with virtual dispatch yields nothing or a file system. |
| `Vfs.DirectoryResolvesOnlyMountedPrefixes` | source/app/utils/vfs.cpp:51-70 | A directory resolves nothing for a path without '/' or one whose first segment is not mounted. |
| `Vfs.FileSystemNeverNull` | source/app/utils/vfs.cpp:72-93 | A file system tries its mounts first: when they resolve the path, that is the answer. Otherwise its empty root path occurs in every path, so it resolves to itself. It never resolves to nothing. |
| `Vfs.MountThenResolve` | source/app/utils/vfs.cpp:30-70 | After mounting `dir` under a slash-free name, `name/rest` resolves exactly as `rest` does in `dir`. |
| `Vfs.VfsExists` | source/app/utils/vfs.cpp:105-117 | The result is false without a root or a resolving file system. Otherwise that file system's answer for the full path. |
| `Vfs.VfsList` | source/app/utils/vfs.cpp:119-133 | An empty directory gives the root's list. An unresolved one gives nothing. Otherwise the resolved file system's list. |
| `Vfs.Open` | source/app/utils/vfs.h:96-106 | No file system is asked, and the result is empty, iff nothing resolves the path. Otherwise the resolved file system is asked to open the full path. |
| `Vfs.AssetRootAnswersEverything` | source/app/utils/vfs.cpp:105-133 | With the asset file system as root, existence is the platform's answer, and every directory lists the whole listing. |
| `Vfs.MountExists` | source/app/utils/vfs.cpp:35-49 | A name exists in a directory iff the directory's own `List` names it. |
| `Vfs.Exists` | source/app/utils/vfs.cpp:35-49 | Without a platform backend, existence agrees with the listing. |
| `Vfs.List` | source/app/utils/vfs.cpp:35-44 | Without a platform backend, the listing names exactly the mount points. |
| `Vfs.MakeVirtualFile` | source/app/utils/vfs.h:43 | The path is kept, and the flag defaults to Readable (stated in `Vfs.FileDefaults`). |
| `Vfs.Write` | source/app/utils/vfs.h:46-51 | The stub writes nothing and returns 0 (stated in `Vfs.FileDefaults`). |
| `Vfs.FromBuffer` | source/app/utils/vfs.h:52-57 | The stub writes nothing and returns 0 (stated in `Vfs.FileDefaults`). |
| `Vfs.FileDefaults` | source/app/utils/vfs.h:27-56 | The flags are distinct single bits. A file is Readable by default. The `Write` and `FromBuffer` stubs return 0. |
| `HexDump.HexTriple` | source/app/utils/log.cpp:9 | A byte prints as three characters ending in a space. |
| `HexDump.HexOf` | source/app/utils/log.cpp:8-9 | The dump is three characters per byte. |
| `HexDump.HexOfLayout` | source/app/utils/log.cpp:8-9 | Characters 3j..3j+2 are byte j's two hex digits and a space. |
| `HexDump.HexOfHasNoNul` | source/app/utils/log.cpp:11 | The dump contains no NUL, so reading the buffer as a C string loses nothing. |
| `HexDump.CharsBeforeNul` | source/app/utils/log.cpp:11 | The C-string read is the prefix before the first NUL. |
| `HexDump.ToHex` | source/app/utils/log.cpp:3-12 | Filling the 3n+1 buffer byte by byte and reading it as a C string gives the 3n-character dump. |
| `HexDump.ToHexSized` | source/app/utils/log.cpp:14-18 | The first `size` bytes are dumped, embedded NULs included, each at offset 3j. |
| `HexDump.ParseHexOfHexOf` | source/app/utils/log.cpp:3-12 | The dump is lossless: parsing it gives back the bytes. |
| `HexDump.SignExtended` | source/app/utils/log.cpp:9 | A signed `char` promotes to a 32-bit value with the same low byte. The value is below 256 iff the byte is below 0x80. |
| `HexDump.PrintedAsWritten` | source/app/utils/log.cpp:9 | With a signed `char`, a byte prints as at least three characters ending in a space. Its exact width is `HexDump.PrintedAsWrittenWidth`. |
| `HexDump.PrintedAsWrittenWidth` | source/app/utils/log.cpp:9 | With a signed `char`, bytes below 0x80 print as their triple, and any other byte prints as nine characters. |
| `HexDump.HighLastByteOverrunsBuffer` | source/app/utils/log.cpp:6-9 | With a signed `char`, a final byte at or above 0x80 is written past the end of the buffer. |
| `HexDump.HexDigits` | source/app/utils/log.cpp:9 | `%0wX` prints at least one digit and at least `w`. |
| `HexDump.HexDigitsLength` | source/app/utils/log.cpp:9 | `%02X` of a k-digit value prints k characters. |
| `Swapchain.IsComplete` | source/app/graphics/vulkan-test.cpp:136-139 | Both indices have left their negative sentinels. `Swapchain.FindQueueFamiliesCompleteness` states when the search reaches this. |
| `Swapchain.LastGraphics` | source/app/graphics/vulkan-test.cpp:157-161 | The result is the last family with queues and the graphics bit, or -1. |
| `Swapchain.LastPresent` | source/app/graphics/vulkan-test.cpp:157-165 | The result is the last family with queues and surface support, or -2. |
| `Swapchain.FindQueueFamilies` | source/app/graphics/vulkan-test.cpp:142-177 | The result is the scan of the shortest prefix at which the indices become complete (or of all families). Each index is its sentinel or a capable family. |
| `Swapchain.FindQueueFamiliesCompleteness` | source/app/graphics/vulkan-test.cpp:142-177 | The search ends complete iff some family can draw and some family can present. |
| `Swapchain.IsDeviceSuitable` | source/app/graphics/vulkan-test.cpp:217-223 | A device is suitable iff it has a graphics-capable family, a present-capable family, a format and a present mode. |
| `Swapchain.FirstPreferred` | source/app/graphics/vulkan-test.cpp:233-240 | The scan returns the preferred format when it is in the rest of the list, else the fallback. |
| `Swapchain.ChooseSwapSurfaceFormat` | source/app/graphics/vulkan-test.cpp:225-244 | A lone UNDEFINED entry gives B8G8R8A8_UNORM/sRGB. Otherwise the result is that preferred format if offered, else the first, and always one offered. |
| `Swapchain.ChooseSwapPresentMode` | source/app/graphics/vulkan-test.cpp:246-263 | The result is MAILBOX if offered, else IMMEDIATE if offered, else FIFO. |
| `Swapchain.Clamp` | source/app/graphics/vulkan-test.cpp:275-276 | The result is the value saturated into `[min, max]`: the value when it fits, the max above it, the min below it. When the min exceeds the max, the result is the min. |
| `Swapchain.ChooseSwapExtent` | source/app/graphics/vulkan-test.cpp:265-280 | The current extent is used unless its width is 0xFFFFFFFF. Otherwise each window dimension is clamped into its min/max extent separately, and is unchanged when it already fits. |
| `Swapchain.ExtentClampsEachDimension` | source/app/graphics/vulkan-test.cpp:273-276 | A chosen dimension depends only on the same window dimension, so a fitting width survives a height that does not fit. |
| `Swapchain.ImageCount` | source/app/graphics/vulkan-test.cpp:290-293 | The count is at most a non-zero maximum, and one more than the minimum when the maximum allows it. A minimum of 0xFFFFFFFF wraps to 0 in `uint32_t`. |
| `Swapchain.ImageCountWithinLimits` | source/app/graphics/vulkan-test.cpp:290-293 | Under Vulkan's guarantees on the limits, the count lies between the minimum and the maximum. |
| `Swapchain.NextFrame` | source/app/graphics/vulkan-test.cpp:1132 | The next frame index is below MAX_FRAMES_IN_FLIGHT and differs from the current one. |
| `Swapchain.FrameAfter` | source/app/graphics/vulkan-test.cpp:1132 | After any number of frames the index is below MAX_FRAMES_IN_FLIGHT. |
| `Swapchain.FrameAfterAlternates` | source/app/graphics/vulkan-test.cpp:1132 | Starting from 0, the frame index after k frames is k mod 2. |

## Left out

- Threads and mutexes: the transport's worker, the accept thread and the locks become
  explicit sequential steps (`Transport.Apply`). Interleavings are not modelled.
- `Prepare`, hostname resolution, `GetPeerName`, `Receive` and `HandleResponse`: these
  are socket and resolver calls with no logic of their own. Their outcome is the `ok`
  parameter of `WorkerSetup`.
- The busy-wait sleeps of the worker loop and the accept loop: timing only.
- The union pointer helpers of packets.cpp return pointers into a dead local, which is
  undefined behaviour. The model uses the values they were meant to return.
- Floating point: times and elapsed values are opaque 8-byte values. The conversion of
  the `unsigned int` elapsed argument to `double` is not modelled; the only value
  passed is 0, which is IEEE +0.0 (`Packets.ZeroDouble`).
- The Timewatch clock (timing.cpp): every `GetNanoseconds` reading is a parameter.
- Profiler.EndScope: the source shares packets through `shared_ptr`. A second
  `EndScope` on a handle whose exit packet is still queued would change that queued
  packet. The model queues a value copy.
- Profiler.StartScope and `Profiler.EndScope` require a live transport, a counter below
  `INT_MAX` and a present handle. Before `Initialize` the source dereferences a null
  `socketClient`. After `Destroy` it uses the deleted client through a dangling pointer,
  because profiler.cpp:76 never resets it. Past `INT_MAX` it overflows a signed `int`,
  and on a missing handle it dereferences a null record. All of these are undefined
  behaviour rather than error paths.
- Profiler.Initialize: the hello packet's time is any 8-byte value. The source passes
  the clock's `double` seconds to the `unsigned long long` parameter of
  socketclient.cpp:63, which truncates it, and the handshake converts it back to
  `double`. So the time is always a whole number of seconds, +0.0 right after
  `Timing::Start()`. Doubles are opaque here, so the model does not restrict it.
- Transport.Apply: runs of transport events use the corrected `SendPacketAsync`, so a
  run continues where the source would abort. `Transport.RunIsFifo` and
  `Transport.RunRoleWriteOnce` are about that corrected transport. The profiler facade
  uses the as-written call.
- Transport.WorkerStep: socketclient.cpp:439-444 binds a reference to the queue's front
  element, pops it, and then sends through that reference to a destroyed element. This
  is undefined behaviour. The model sends the popped packet as if it had been copied.
- Vfs.VfsList and `Vfs.Open` require a root because the source dereferences the root
  without checking it.
- Vfs.Open: the model stops at the `Open` request it makes: which file system is
  asked, and for which path. `Open<T>` returns `std::dynamic_pointer_cast<T>` of the
  opened file (vfs.h:102). That pointer is also empty when the file system opens nothing
  or the file is not a `T`. The model has no file types or file contents, so it covers
  neither case.
- A mounted directory pointer that is null, and the `m_ParentDir` field of
  `VirtualDirectory`, which is never read. `m_RootPath` is read only by
  `VirtualFileSystem::FsForPath` (vfs.cpp:85), and the only constructor that builds a
  file system passes "" (vfs.cpp:72-75). So the model fixes it as `Vfs.FsRootPath`; the
  root path of a plain directory is never read.
- Vfs.Mount: the mount tree is a value built bottom-up. The source holds mounts as
  `std::shared_ptr<VirtualDirectory>` (vfs.h:72, vfs.cpp:30-33), so one directory can
  sit under several parents or under itself, and a later `Mount` into it shows through
  every parent. Shared and cyclic mounts are not modelled; in the model a parent
  mounted earlier keeps the old copy. The application never calls `Mount`: its only
  root is the asset file system, with no mounts (fs_android.cpp:63-68).
- The bodies of the Android asset calls (fs_android.cpp): fs_android.cpp is not part of
  this model. What they answer is the `Backend` value.
- The `recursive` argument of `Vfs::List` is accepted and never read, in the source and
  in `Vfs.VfsList`.
- Swapchain.NextFrame: only the index update is modelled. `drawFrame`'s early returns
  before the update, and all Vulkan object creation and command recording, are left out.
- Transport.Shutdown: the primary socket is not modelled. `Prepare` creates `m_Sock`
  (socketclient.cpp:108-111) before `Connect` or `Listen`. The destructor closes it
  only when connected (socketclient.cpp:96-99), so the socket of a failed setup stays
  open. `Shutdown` reports only whether the primary socket is closed.
- Vfs paths are Dafny strings, sequences of Unicode characters. The source's
  `std::string` paths are bytes. The two agree on the '/' splitting and prefix tests for
  ASCII and for valid UTF-8 paths; other byte strings are not modelled.
- The rest of the application (EGL, GUI, shaders, textures, the Java activity): outside
  the core.

## Findings

| source | as written | input that shows it | evidently intended | confidence | as-written member | corrected member |
|---|---|---|---|---|---|---|
| source/profiler/communications/socketclient.cpp:410-484 | When `Connect`/`Listen` fails, `RunThread` returns without `m_Thread` being joined. The next `SendPacketAsync` sees the running flag down and assigns a new `std::thread` to the still-joinable one, which calls `std::terminate`. | `ListenAsync`, then one `SendPacketAsync`, then a bind failure, then a second `SendPacketAsync`. The profiler reaches this through `Initialize`, `StartScope`, a failed bind on 127.0.0.1:5300 and a second `StartScope` (profiler.cpp:46). | Join the returned worker before starting a new one, so the setup is retried. | not executed | `Transport.SendPacketAsyncAsWritten`, `Transport.RespawnAfterFailedSetupAborts`, `Profiler.FailedBindAbortsNextScope` | `Transport.SendPacketAsync`, `Transport.RespawnAfterFailedSetupRetries` |
| source/profiler/communications/socketclient.cpp:301-304 | The client branch returns false whenever `send` returns non-zero. That includes every successful write, so success is reported only when nothing was written. | A client `send` that returns 17 for a 17-byte handshake. | Report failure only when `send` returns a negative value, as the server branch tests. | not executed; the caller ignores the flag | `Transport.SendPacketAsWritten`, `Transport.ClientSuccessReportedAsFailure` | `Transport.SendPacket`, `Transport.SendPacketVersionsAgree` |
| source/app/utils/log.cpp:9 | Each `char` goes to `sprintf("%02X ")` unconverted. Where `char` is signed (x86 targets), a byte at or above 0x80 prints as eight hex digits plus a space. For a final byte this runs past the 3n+1-character buffer. | The one-byte input 0x80, which writes "FFFFFF80 " and a NUL (10 characters) into a 4-character buffer. | Print each byte's unsigned value as two hex digits, as the buffer size assumes. | not executed; on ARM targets `char` is unsigned and the code is correct there | `HexDump.PrintedAsWritten`, `HexDump.HighLastByteOverrunsBuffer` | `HexDump.ToHex`, `HexDump.ParseHexOfHexOf` |
| source/profiler/communications/socketclient.cpp:325-343 | A failed `send` erases the peer from `m_Clients` and nothing closes its socket. `SocketConnection` has no destructor (socketclient.h:19-25), and the only `close` of a peer socket is in `~SocketClient`, over the peers still listed (socketclient.cpp:91-93). So every peer erased after a failed send leaks its socket. | `ListenAsync` on 127.0.0.1:5300, one `SendPacketAsync`, a successful bind, `accept` returning 5, then a broadcast whose `send` to socket 5 returns -1. | Close the socket of each erased peer, so every accepted socket is closed exactly once. | not executed | `Transport.Shutdown`, `Transport.FailedPeerNeverClosed` | `Transport.ClosedBy`, `Transport.RunPeerLedger`, `Transport.EveryAcceptedPeerClosedOnce` |
