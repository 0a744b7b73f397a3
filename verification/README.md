# Models and proofs for go-virtio/validate

A Dafny model of the parts of this repository that carry its correctness arguments: the Venus ring and
its reply handshake, the wire formats and the client session, and the reference rasteriser with its
comparator. `dafny verify dfyconfig.toml` checks everything.

| file | what it models |
|---|---|
| `Bytes.dfy`, `Arith.dfy` | little-endian words, remainders, bit masks, powers of two |
| `Ring.dfy` | the ring's layout, its memory image, and producer and consumer in any order (`vtest/venusring.go`, `vtest/venusring_linux.go`) |
| `ReplyProtocol.dfy` | guest and host sharing the ring and the reply window (`vtest/venusclear_linux.go`) |
| `ReplyLimits.dfy` | that each condition of the reply protocol is exact: host schedules that break a call without it |
| `VenusDriver.dfy` | `MappedRing` and `clearDriver` as objects updating shared arrays, proved against `Ring.dfy` and `ReplyProtocol.dfy` |
| `RawConn.dfy` | the socket loops over partial transfers |
| `CommandStream.dfy` | the vn_cs builder and the hand-encoded commands (`vtest/venuscs.go`) |
| `Wire.dfy` | request framing, SUBMIT_CMD2 and the server's reader (`vtest/client.go`, `vtest/venus.go`) |
| `Session.dfy` | calls and replies over one connection |
| `Geometry.dfy`, `Raster.dfy`, `Texture.dfy` | coverage, weights, sampling and the reference images (`vtest/refrender/refrender.go`) |
| `Band.dfy`, `Compare.dfy` | the boundary band and the verdict (`vtest/refrender/compare.go`) |

How things are modelled.

- The ring is an image of its shared memory with 32-bit head and tail words. The history of bytes sent
  and the host's position are unbounded numbers beside it, and the proofs relate the two, across the end
  of the buffer and across the end of the 32-bit range.
- The other party is a host that makes arbitrary moves between any two steps of the guest: begin the next
  command, write a byte of its reply, finish it, move head. A move that is not possible leaves the state
  as it is, so a schedule is any list of moves and the theorems hold for all schedules. What is assumed of
  the host is what `vtest/venusclear_linux.go:17-35` and `vtest/venusring_linux.go:208-213` say of it:
  commands in order, a reply (or none, after a CS error) written before head passes the command, head
  never beyond finished work. Where a reply goes is what the host decoded from the last
  vkSetReplyCommandStreamMESA it fetched from the ring. Which commands bear a reply is the caller's
  GENERATE_REPLY flag, kept beside the bytes. Time is a number of polls before the deadline.
- A server answers by its whole history of requests; it sees only the bytes the client wrote, through
  the documented layouts.
- `float32` and `float64` are reals. Nothing is claimed about floating-point rounding.

Where the code and its comments differ the model follows the code. Buffer row j is window y = j + 0.5
with no flip (`vtest/refrender/refrender.go:92-99`), although the package comment describes a flip. The
reply window is filled with 0xCC (`vtest/venusclear_linux.go:183-185`), although the file comment says it
is zeroed. `Handshake` sends CREATE_RENDERER first (`vtest/client.go:234-243`), although the list above it
gives another order. `Submit` is described as non-wrapping; the code wraps, and the proofs cover wrapping.

Some promises hold only under a condition, and then the condition is proved exact. The plain `head >= seqno`
wait after a submit is right under every schedule if and only if head and the end of the submit lie in the same
2^32 bytes of the stream (`WaitExact`); otherwise the wait returns at once with bytes unread
(`CrossingReturnsAtOnce`), and every ring gets there from bring-up (`EveryRingReachesCrossing`). A reply call's
answer is its own command's under every schedule if and only if that holds for its bytes, no unfinished command
can still write a byte of a reply, and the wanted type is not the sentinel's own value (`FreshExact`). Both
need space in the buffer; without it a submit destroys unread bytes (`OverrunDestroys`). Without the sentinel
fill a rejected call repeats the previous reply (`StaleWithoutFill`). A frame reads back as itself if and only
if the request is well formed (`FrameExact`). A capset reply leaves the connection synchronised if and only if
it is valid or has no body (`CapsetSyncExact`). The flat reference read back unchanged passes if and only if
its fill differs from the background or everything it covers lies in the band (`ReferencePasses`, with
`InvisibleFillFails`).

## Model

| member | source | states |
|---|---|---|
| RingLayout.RingCreateInfoForBlob | vtest/venusring.go:42-57 | head, tail, status, buffer and extra regions are pairwise disjoint, inside Size, and extra follows the buffer to the end, for all non-negative sizes |
| RingSetup.HostFindsTheRing | vtest/venusring.go:21-57 | head at 0, tail at 64, status at 128, buffer at 192, extra behind it; a host that follows the create info reads the guest's own words and fetches from the guest's own buffer |
| RingSetup.WritesKeepTheRest | vtest/venusring_linux.go:178-194 | over every sequence of writes of at most the buffer's size, head, status and the extra region never change and the tail ends past everything written |
| Bytes.LittleEndian | vtest/client.go:39-44 | a word's four bytes, least significant first, add up to it |
| Bytes.LittleEndian64 | vtest/venuscs.go:55-60 | eight bytes are the low word and then the high word |
| Arith.MaskIsMod | vtest/venusring_linux.go:179-181 | masking a cursor with a power of two less one is its remainder, for every cursor and size |
| Arith.BitAndBits | vtest/venusring_linux.go:179-181 | a bit of the masked cursor is set exactly when it is set in cursor and mask |
| Ring.SubmitAppends | vtest/venusring_linux.go:178-206 | a submit with room for it appends exactly its bytes to the unread stream, whatever wraps |
| Ring.CopyMissesUnread | vtest/venusring_linux.go:184-192 | the copy before the tail store touches no unread byte, so the new bytes are invisible until the tail covers them |
| Ring.OverrunDestroys | vtest/venusring_linux.go:196-206 | with too little room some command of that length destroys the oldest unread byte: the room guard is the weakest on lengths |
| Ring.FetchIsSent | vtest/venusring_linux.go:175-206 | the bytes at the host's masked positions are the bytes sent, from any unreleased position |
| Ring.UnreadExact | vtest/venusring_linux.go:163-173 | tail minus head modulo 2^32 is the true number of unread bytes |
| RingFifo.FifoForEveryRun | vtest/venusring_linux.go:178-206 | for every interleaving of submits and consumes in which unread bytes never exceed the buffer, what the host read is a prefix of all commands concatenated and the rest is still in memory |
| VenusDriver.MappedRing.WriteCmd | vtest/venusring_linux.go:178-194 | byte k of the command ends at 192 + (cur + k) mod size, the tail word at 64 is the new cursor, and head, status and extra are left alone |
| VenusDriver.MappedRing.Submit | vtest/venusring_linux.go:203-206 | writes at the cursor, advances it modulo 2^32 and returns it as the sequence number |
| VenusDriver.MappedRing.Head | vtest/venusring_linux.go:165-167 | reads the host's head word |
| VenusDriver.ClearDriver.HostMove | vtest/venusclear_linux.go:17-32 | one move of the other party in the shared arrays: the protocol's step |
| VenusDriver.ClearDriver.WaitHead | vtest/venusring_linux.go:214-226 | polls exactly as the protocol's wait, for every schedule of the host |
| VenusDriver.ClearDriver.SubmitWithReply | vtest/venusclear_linux.go:177-206 | fills, posts both commands, waits, checks the echo and copies, with the host moving at every point: the protocol's call |
| VenusDriver.ClearDriver.SubmitNoReply | vtest/venusclear_linux.go:213-222 | posts one command and waits: the protocol's call |
| VenusDriver.ClearDriver.Walk | vtest/venusclear_linux.go:333-908 | the calls in order, returning at the first failure: the protocol's run |
| VenusDriver.ClearImage | vtest/venusclear_linux.go:333-908 | bring-up on zeroed memory and the whole walk: whatever the host does, the guarantees of a fresh run hold of the driver's memory and outcomes |
| ReplyProtocol.WaitPolls | vtest/venusring_linux.go:214-226 | the wait succeeds exactly when some poll up to the deadline finds head there, and returns at the first that does |
| ReplyProtocol.WaitInTime | vtest/venusring_linux.go:214-226 | within one block it succeeds exactly when the host has released everything by some poll |
| ReplyProtocol.WaitMeansDrained | vtest/venusring_linux.go:208-226 | while head and tail lie in the same 2^32 bytes the wait succeeds exactly when the host has released every byte |
| ReplyProtocol.WaitExact | vtest/venusring_linux.go:203-226 | the wait after a submit is right under every schedule if and only if head and the submit's end lie in the same 2^32 bytes |
| ReplyProtocol.CrossingReturnsAtOnce | vtest/venusring_linux.go:211-218 | past a multiple of 2^32 that head has not passed, the wait returns true at once, whatever the host does, with bytes unread |
| ReplyProtocol.SeesTheCommand | vtest/venusclear_linux.go:186-188 | whatever the host fetches for its next command is that command byte for byte |
| ReplyProtocol.SetReplyTells | vtest/venuscs.go:231-258 | a host that decodes the SetReply stream learns the reply blob's resource, offset 0 and its size |
| ReplyProtocol.RepliesLandInWindow | vtest/venusclear_linux.go:19-35 | in every state the protocol reaches, byte n of a reply lands at offset n of the window the guest reads, because of what the host decoded, and none past its size |
| ReplyProtocol.DrainedIsQuiet | vtest/venusclear_linux.go:183-188 | once everything is released no move of the host changes anything |
| ReplyProtocol.SettledIsQuiet | vtest/venusclear_linux.go:183-188 | while no unfinished command can still reply no move of the host changes the window |
| ReplyProtocol.FillCovers | vtest/venusclear_linux.go:178-185 | from any such state the byte-by-byte fill leaves 0xCC everywhere, whatever the host does between bytes |
| ReplyProtocol.WindowShows | vtest/venusclear_linux.go:183-205 | what a caller sees of a reply is the reply and 0xCC behind it |
| ReplyProtocol.CallIsFresh | vtest/venusclear_linux.go:171-206 | for every schedule, from any state in which no unfinished command can still reply, a call that has not timed out ends drained and succeeds exactly when the host replied to this very command with the wanted type; it returns that reply and sentinels after it |
| ReplyProtocol.CallInTime | vtest/venusclear_linux.go:177-206 | a reply call times out exactly when no poll finds the ring drained; otherwise it succeeds exactly when the reply logged by then has the wanted type |
| ReplyProtocol.QuietCallDrains | vtest/venusclear_linux.go:208-222 | a call without reply succeeds exactly when the ring ends drained |
| ReplyProtocol.QuietCallInTime | vtest/venusclear_linux.go:213-222 | a call without reply succeeds exactly when some poll finds the ring drained |
| ReplyProtocol.RunIsFresh | vtest/venusclear_linux.go:447-482 | in every run of any length that stops at its first failure and in which no single call crosses a multiple of 2^32, the ring is drained before each call, no unread byte is overwritten, the host saw every command exactly, and every success returned its own command's reply, also when consecutive commands share a type |
| ReplyProtocol.ShortRunsDoNotCross | vtest/venusring_linux.go:211-213 | no call crosses while all bytes together stay below 2^32 |
| ReplyProtocol.BringUp | vtest/venusclear_linux.go:385-416 | a zeroed ring starts the protocol drained |
| ReplyLimits.FreshExact | vtest/venusclear_linux.go:171-206 | the call's answer is its own command's under every schedule if and only if head and the call's end share a 2^32 block, no unfinished command can still write a reply, and the wanted type is not the sentinel's |
| ReplyLimits.PendingReplyBreaks | vtest/venusclear_linux.go:190-204 | with any unfinished command that may still write a byte of a reply, wherever in the queue and however far along, some schedule makes the answer wrong |
| ReplyLimits.CrossingBreaks | vtest/venusclear_linux.go:186-203 | a call across a multiple of 2^32 comes back before the host has taken its command |
| ReplyLimits.SentinelTypeIsUnsound | vtest/venusclear_linux.go:178-195 | asking for the sentinel's own value accepts a rejected command |
| ReplyLimits.StaleWithoutFill | vtest/venusclear_linux.go:178-185 | without the fill a rejected repetition of a successful call returns the earlier reply |
| ReplyLimits.TimeoutUnsettles | vtest/venusclear_linux.go:199-201 | a timed-out call can leave the next one unsettled, which is why a run stops |
| ReplyLimits.EveryRingReachesCrossing | vtest/venusring_linux.go:203-226 | from the zeroed ring a run of 2^30 small calls, each wait successful, ends with the last command unread |
| RawConn.Socket.Write | vtest/venusring_linux.go:46-62 | for every schedule of short writes and interruptions success puts exactly p on the stream, failure exactly the reported prefix |
| RawConn.Socket.Read | vtest/venusring_linux.go:67-81 | one receive retried while interrupted: takes the prefix the first real answer moves, or nothing and fails |
| RawConn.Socket.ReadFull | vtest/venusring_linux.go:84-94 | for every schedule fills the buffer with exactly the next stream bytes in order, as far as the kernel moves and the peer has sent; succeeds exactly when that is all n |
| RawConn.TransferByCalls | vtest/venusring_linux.go:67-94 | a transfer proceeds one answered call at a time, interruptions retried |
| RawConn.InterruptsDoNotMatter | vtest/venusring_linux.go:48-55 | interruptions never change what gets through |
| RawConn.CompletesIffEnough | vtest/venusring_linux.go:46-94 | on a live connection the transfer completes exactly when the kernel moves enough in all |
| CommandStream.Encode | vtest/venuscs.go:52-98 | dword alignment holds after every sequence of builder operations |
| CommandStream.ChunkBytes | vtest/venuscs.go:52-98 | the bytes of one value: 4 or 8 least significant first; a string as the 8-byte count with its NUL, the bytes, and zeros to a dword |
| CommandStream.EncodeSnoc | vtest/venuscs.go:52-98 | each builder operation appends its value's bytes and nothing else |
| CommandStream.StreamRoundTrip | vtest/venuscs.go:13-19 | any sequence of values reads back exactly, with what follows it untouched |
| CommandStream.TakeTerminated | vtest/venuscs.go:73-98 | a string reads back whatever bytes it holds, NULs included |
| CommandStream.StringFormsAgree | vtest/venuscs.go:77-98 | `str` and `strOrEmpty` write the same bytes exactly for the non-empty strings |
| CommandStream.Pad | vtest/venusclear_linux.go:226-231 | appends zeros up to the next dword boundary and nothing to an aligned stream |
| CommandStream.Builder.StrOrEmpty | vtest/venuscs.go:77-88 | appends the string's chunk to an aligned builder and keeps it aligned |
| CommandStream.Builder.Str | vtest/venuscs.go:92-98 | appends the sized, terminated and padded string and keeps alignment |
| CommandStream.Builder.SimplePointer | vtest/venuscs.go:64-71 | appends a count of 1 or 0 and returns the flag |
| CommandStream.EncodeMinimalCreateInstance | vtest/venuscs.go:199-229 | emits the documented fields in order with their literal values, and decodes back to flags, both names, apiVersion modulo 2^32 and an optional non-zero handle; padding adds nothing |
| CommandStream.EncodeCreateRing | vtest/venuscs.go:120-142 | emits the documented fields in order and decodes back to the ring handle and every field of the create info |
| CommandStream.SetReplyStream | vtest/venuscs.go:231-258 | 36 bytes that decode to the documented fields |
| CommandStream.EncodeSetReply | vtest/venuscs.go:248-258 | the builder produces that stream |
| Wire.FrameBytes | vtest/client.go:39-206 | every request's frame byte for byte: command id, length word, each field at its offset; refused exactly for data that is no whole number of dwords |
| Wire.FrameExact | vtest/client.go:39-206 | a request's frame reads back as itself, leaving exactly what follows, if and only if it is well formed: sizes within 32 bits, dword-aligned command data, DataSize equal to the data's length |
| Wire.PutRoundTrip | vtest/client.go:138-159 | TRANSFER_PUT reads back exactly when DataSize is the length of its data |
| Wire.NameRoundTrip | vtest/client.go:67-79 | CREATE_RENDERER reads back by its byte count exactly below 2^32 bytes |
| Wire.CmdRoundTrip | vtest/client.go:121-134 | SUBMIT_CMD reads back exactly below 2^32 dwords |
| Wire.BatchTiles | vtest/venus.go:270-313 | the emitted offsets make header, commands and syncs disjoint and tile the payload, whose dword count is the header's |
| Wire.SyncWords | vtest/venus.go:306-311 | sync i is three words at 12 i: id, low and high half of the value |
| Wire.BatchRoundTrip | vtest/venus.go:281-313 | a reader following only the emitted offsets recovers the batch, 64-bit sync values included |
| Wire.EncodeSubmitCmd2 | vtest/venus.go:281-313 | the encoder's loop emits that frame, or refuses unaligned data |
| Wire.ReadDwords | vtest/venus.go:331-340 | reads n little-endian dwords in order |
| Wire.StreamRoundTrip | vtest/client.go:39-206 | any list of well-formed requests, concatenated, parses back to exactly that list, aligned or not |
| Wire.UniquelyDecodable | vtest/venus.go:124-228 | no byte stream stands for two request lists |
| Session.ServerReceives | vtest/client.go:208-294 | the server recovers every request of the session from the bytes |
| Session.ReplyBytes | vtest/venus.go:121-193 | the server's replies byte for byte as documented |
| Session.ParamExact | vtest/venus.go:132-151 | whatever follows a header: an answer exactly when it says two dwords of command 15 and they are there; the value if the flag is set, else 0; what is left unread |
| Session.CapsetExact | vtest/venus.go:168-193 | whatever follows a header: error, invalid or the announced bytes, and what is left unread |
| Session.VersionExact | vtest/client.go:252-260 | the negotiated version is the dword behind the header, or an error |
| Session.PixelsExact | vtest/client.go:285-294 | all requested bytes or an error |
| Session.NoHeader | vtest/client.go:211-219 | without eight bytes every call that reads a header fails |
| Session.HandshakeInSync | vtest/client.go:234-260 | sends CREATE_RENDERER, PING and PROTOCOL_VERSION in that order and returns the smaller of requested and supported version |
| Session.CapsetSyncExact | vtest/venus.go:164-193 | reading a capset reply consumes all of it exactly when it is valid or has no body |
| Session.CallInSync | vtest/client.go:221-294 | one call on a synchronised connection returns the server's answer and leaves it synchronised |
| Session.SessionInSync | vtest/venus.go:132-193 | for every sequence of calls each consumes exactly its own reply bytes and returns the server's values |
| Session.Client.Handshake | vtest/client.go:237-260 | writes and reads in the order the session's call prescribes |
| Session.Client.GetParam | vtest/venus.go:132-151 | the session's call, with its error cases |
| Session.Client.GetCapset | vtest/venus.go:168-193 | the session's call, with its error cases |
| Session.Client.GetPixels | vtest/client.go:285-294 | the session's call, with its error case |
| Session.Client.GetHeader | vtest/client.go:211-219 | reads eight bytes as length and command, or fails having taken what there was |
| Session.Client.SendOnly | vtest/client.go:262-280 | writes one frame, or nothing when the encoder refuses |
| Geometry.CoverageIsTriangle | vtest/refrender/refrender.go:77-128 | for non-zero area and either winding a point is covered exactly when it is a convex combination of the corners, by the one combination there is |
| Geometry.WeightsAreCoordinates | vtest/refrender/refrender.go:102-118 | the weights sum to 1 and recombine to the point |
| Geometry.PermutationKeepsCoverage | vtest/refrender/refrender.go:70-75 | rotating or swapping corners keeps coverage and moves the weights along |
| Geometry.ReflectionMirrorsCoverage | vtest/refrender/refrender.go:106-128 | reflecting triangle and point keeps coverage and weights |
| Geometry.FlipMirrorsCoverage | vtest/refrender/refrender.go:106-128 | reflection top to bottom keeps coverage and weights |
| Geometry.RowIsOneRun | vtest/refrender/refrender.go:99-119 | between two covered points of a row everything is covered |
| Geometry.WatertightSplit | vtest/refrender/refrender.go:83-119 | cutting at any point strictly inside an edge gives parts whose union is the whole and whose overlap is the covered part of the cut |
| Raster.Rasterise | vtest/refrender/refrender.go:77-123 | pixel (i, j), at j * w + i, is marked exactly when (i + 0.5, j + 0.5) is a convex mean of the three window vertices, with the weights that give it, and nothing for a degenerate triangle |
| Raster.WindowIs | vtest/refrender/refrender.go:52-56 | a vertex on the window is scaled, then moved |
| Raster.MarkedIffConvex | vtest/refrender/refrender.go:77-123 | the same in terms of the triangle: the point (i + 0.5, j + 0.5) is a convex combination of the corners and the stored weights are it |
| Raster.RowRun | vtest/refrender/refrender.go:91-121 | the marked pixels of every row are one run |
| Raster.OrderKeepsImage | vtest/refrender/refrender.go:70-123 | any order of the vertices gives the same coverage and reordered weights |
| Raster.MirrorImage | vtest/refrender/refrender.go:39-56 | under the default viewport negating every X mirrors column i to column w-1-i, for every triangle and size |
| Raster.FlipImage | vtest/refrender/refrender.go:39-56 | under the default viewport negating every Y mirrors row j to row h-1-j, weights included |
| Raster.ClipSquareFillsImage | vtest/refrender/refrender.go:37-56 | the default viewport maps the clip square onto the whole image: x to (x + 1) w / 2, y to (y + 1) h / 2 |
| Raster.SplitImage | vtest/refrender/refrender.go:77-123 | a triangle cut inside any edge is rasterised watertight, pixel by pixel |
| Texture.DrawReference | vtest/refrender/refrender.go:133-145 | fill where covered, background elsewhere |
| Texture.DrawPixel | vtest/refrender/refrender.go:133-145 | pixel by pixel: the fill exactly where the centre lies in the closed triangle |
| Texture.TexReference | vtest/refrender/refrender.go:168-182 | the texture at the interpolated coordinates where covered, background elsewhere |
| Texture.TexPixel | vtest/refrender/refrender.go:168-182 | pixel by pixel: where the centre is the mean of the vertices under some weights, the texture at that mean of their coordinates, else the background |
| Texture.RoundUnit | vtest/refrender/refrender.go:256-266 | the nearest byte, the upper one half way, clamped outside |
| Texture.PackNearest | vtest/refrender/refrender.go:245-254 | each packed channel is the nearest byte to 255 times its own component |
| Texture.PackUnpacked | vtest/refrender/refrender.go:245-254 | packing recovers every colour from its unit form, channel by channel |
| Texture.TexelBytes | vtest/refrender/refrender.go:223-233 | texel (ix, iy) is the four RGBA bytes at 4 (iy * texW + ix), stored as BGRA |
| Texture.SampleWithin | vtest/refrender/refrender.go:184-221 | under either filter a sampled channel lies between its least and greatest texel |
| Texture.LinearIsBilinear | vtest/refrender/refrender.go:194-221 | for every texture, at the fractions a, b from the centre of (ix, iy) each channel is the rounded mean of the four texels with weights (1-a)(1-b), a(1-b), (1-a)b, ab |
| Texture.LinearSampleClamps | vtest/refrender/refrender.go:201-205 | outside the outermost texel centres Linear samples the nearest point inside |
| Texture.LinearExactOnAffine | vtest/refrender/refrender.go:194-215 | between texel centres the four taps and weights reproduce every affine texture |
| Texture.LinearClampsToEdge | vtest/refrender/refrender.go:201-205 | outside the outermost centres the blend is that of the clamped coordinate, for every texture |
| Texture.NearestPicksCell | vtest/refrender/refrender.go:189-193 | Nearest returns the texel whose cell holds the coordinate, the outermost cells reaching to infinity |
| Texture.FiltersAgreeAtCentres | vtest/refrender/refrender.go:184-221 | Linear equals Nearest at every texel centre |
| Texture.TexImageWithin | vtest/refrender/refrender.go:168-182 | every covered pixel's channel lies within the texture's range for it |
| Texture.InterpolationIsAffine | vtest/refrender/refrender.go:176-179 | coordinates affine in the window at the corners take that affine value at every covered pixel |
| Texture.ConstantTextureDrawsFlat | vtest/refrender/refrender.go:130-182 | a texture of one colour draws exactly the flat image of that colour |
| Band.IsBoundary | vtest/refrender/compare.go:130-145 | the neighbour loop finds a differing in-image 4-neighbour exactly when there is one |
| Band.Stamp | vtest/refrender/compare.go:157-165 | marks exactly the in-image pixels within Chebyshev distance tol |
| Band.PixAt | vtest/refrender/compare.go:129-131 | pixel (i, j) is stored at j * w + i |
| Band.BoundaryBand | vtest/refrender/compare.go:125-169 | pixel (i, j), at j * w + i, is marked exactly when coverage is not constant over the in-image square of radius max(tol, 0) and its 4-neighbours |
| Band.BandMeaning | vtest/refrender/compare.go:123-169 | a pixel is outside the band exactly when coverage is constant over its in-image ball and the ball's 4-neighbours |
| Band.BandMonotone | vtest/refrender/compare.go:123-169 | a larger tolerance never shrinks the band |
| Band.BandsCompose | vtest/refrender/compare.go:150-168 | dilating the band of s by t gives the band of s + t, also where the image clips |
| Compare.MaxChannelDelta | vtest/refrender/compare.go:172-184 | the running maximum is the greatest channel difference |
| Compare.CloseIsDelta | vtest/refrender/compare.go:172-184 | the greatest channel difference is within d exactly when all four channels are |
| Compare.TallyPixel | vtest/refrender/compare.go:55-101 | one pixel's branches change counters and diffs exactly by its share, at most one diff |
| Compare.CompareCore | vtest/refrender/compare.go:45-115 | counters, diff list and greatest delta are those of the whole image; the delta bounds every doubly covered pixel and is attained |
| Compare.MaxDeltaIsGreatest | vtest/refrender/compare.go:91-96 | the running maximum bounds all doubly covered pixels and is 0 or attained by one |
| Compare.CountIsSize | vtest/refrender/compare.go:59-92 | each counter is the size of the set of pixels it is about |
| Compare.VerdictExact | vtest/refrender/compare.go:111-114 | Pass exactly when the tolerance is not negative, every pixel agrees on coverage or is in the band, and every doubly covered pixel is within tolerance |
| Compare.PassIffNoDiffs | vtest/refrender/compare.go:71-121 | with room for one diff and a non-negative tolerance Pass holds exactly when the list is empty |
| Compare.CountsConserve | vtest/refrender/compare.go:59-83 | matches and interior mismatches make up the reference interior; exact matches, mismatches and forgiven pixels make up the image |
| Compare.FailuresOrdered | vtest/refrender/compare.go:53-121 | the failure list is in row-major order with each pixel at most once |
| Compare.ReportAgrees | vtest/refrender/compare.go:71-121 | the diff list is the row-major beginning of all failures: each entry's pixel, got, ref and kind right, none missing before the cap |
| Compare.BytesToBGRA | vtest/refrender/compare.go:227-233 | pixel i is the four bytes at 4 i in the order B, G, R, A |
| Compare.PixelsRoundTrip | vtest/refrender/compare.go:227-233 | an image's buffer regroups to that image |
| Compare.Compare | vtest/refrender/compare.go:235-239 | in the picture's own terms: Pass, each counter as a number of pixels, the diff list and the greatest delta |
| Compare.AcceptableMonotone | vtest/refrender/compare.go:38-44 | loosening either tolerance never turns a pass into a failure |
| Compare.ReferencePasses | vtest/refrender/refrender.go:133-145 | the reference read back unchanged passes exactly when fill and background differ or everything covered is in the band |
| Compare.InvisibleFillFails | vtest/refrender/compare.go:45-115 | a one-pixel image in the background's colour fails against itself |

## Left out

- Sockets, SCM_RIGHTS, mmap, dialling and the clock: only their outcomes appear (progress, interruption, failure, deadline).
- `ResourceCreateBlob` as a call: its reply is tied to a file descriptor; its request frame is modelled.
- VenusDriver.MappedRing.WriteCmd: commands longer than the buffer are excluded, as `Submit` documents; the code would overwrite the command's own start or the extra region.
- VenusDriver.ClearDriver.SubmitWithReply: each ring write and each reply byte is one step; reordering of plain stores by hardware is not modelled.
- Session.Client.GetPixels: a read that would block forever counts as failed.
- The Vulkan encoders and decoders of `clearcs`, the vkGetDeviceQueue2 encoding, and the result handling of `VenusClearImage` beyond stopping at the first failure.
- `VenusRingRoundTrip`: a straight sequence over the calls modelled here.
- IEEE rounding, `CovMatchPct`, `CovExactPct`, `Summary`, `ASCIIMap`, `CoverageOf` and trace lines.
- The guest harnesses, board and transport code, command-line programs and scripts.
