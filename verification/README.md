# Open Nexus OS: a verified model of its build-time, wire-format and protocol code

Open Nexus OS generates some of its first programs and images while it is being built, and moves
bytes between devices with small hand-written protocols. This project models those pieces in Dafny
and proves what they are for: what the generated machine code does when it runs, that compressed
wallpaper rows come back as they were, that calendar arithmetic follows the calendar, that frames,
handshakes and discovery streams keep their promises in every interleaving.

Check everything with `dafny verify dfyconfig.toml`.

| file | what it models |
|---|---|
| `RiscV`, `Assembler` | an RV64 step machine; the instruction encoders and jump patching of the demo payload builder |
| `Programs`, `PrintProgram`, `VmoConsumer`, `MinidumpProgram`, `Statefs` | the three generated programs, from their bytes in memory to their system calls and exit; the file service that reads the last one's request |
| `Qoi`, `QoiChoices`, `BoxScale`, `Premultiply` | the wallpaper row codec with its decoder, which operations it chooses, the box downscaler, premultiplied-alpha arithmetic |
| `Civil`, `Timestamp` | days to dates, and the SBOM timestamp |
| `Framing`, `Handshake` | length-prefixed frames over an in-process duplex; the connect/accept exchange |
| `Announce`, `Ledger`, `FacadeDiscovery`, `Registry` | the announce packet, the last-write-per-device view, the datagram discovery cache, the host registry |
| `Correlation`, `Scheduler` | the nonce window; the multiplexer's priority scheduler |
| `ArchCheck` | the breadth-first dependency guard |
| `Minidump`, `BuildId`, `DumpPath` | the crash frame codec, its second writer, the build id, and the dump path |
| `Arith`, `Words`, `Bytes`, `Utf8`, `Decimal`, `Hexadecimal`, `Results` | shared arithmetic, machine words, byte orders, UTF-8, numerals, option and result types |

Modelling choices a reader should know:

- Integers are unbounded; every 8-, 16-, 32- and 64-bit wrap, cut and sign extension that the code
  performs is written out. Bit-wise `or` of fields that do not overlap is written as addition.
- The kernel behind `ecall` is an arbitrary function of the machine state. It is asked to keep the
  callee-saved registers and the program image; a granted map call makes the requested
  range readable, and a successful receive the start of its buffer.
- Overflowing 32-bit sums wrap, as in a build without overflow checks; with them the same inputs abort.
- Memory is a partial map, so reading past the mapped bytes is a fault and not an arbitrary value.
- Cryptography is symbolic: a sealed message opens for its owner, and a signature verifies under the
  key and over the message it was made with. Device fingerprints are an arbitrary function of the key.
- What a socket poll returns, what the other thread pushes before a read, and when a deadline passes
  are inputs, and results hold for all of them.
- Strings are byte sequences; Rust's `String` is a byte sequence that is well-formed UTF-8.
- `arch-check` returns its path with the start written twice; the code is modelled as it is and the
  contract says so.
- The build id hash multiplies by 0x1000_0000_01b3, which is 2^44 + 435 and not the FNV prime 2^40 + 435;
  the model follows the code.
- The Noise initiator's remote static key is the announced one by construction, so the client's own
  "server static mismatch" check can never fail; a wrong key shows up at the server instead.

## Model

| member | source | states |
|---|---|---|
| `Assembler.EncodeRoundTrip` | userspace/apps/demo-exit0/build.rs:454-510 | for all registers and all 32-bit immediates, decoding an encoded instruction gives it back if and only if the immediate fits its I, B, J or U field |
| `Assembler.KnownWords` | userspace/apps/demo-exit0/build.rs:454-510 | one word of each kind is the one the RISC-V formats give |
| `Assembler.DecodeIType` | userspace/apps/demo-exit0/build.rs:462-473 | what an out-of-range I immediate turns into: its low 12 bits read as signed |
| `Assembler.DecodeBranch` | userspace/apps/demo-exit0/build.rs:475-510 | a branch keeps its registers; its offset is cut to an even 13-bit signed value |
| `Assembler.DecodeJal` | userspace/apps/demo-exit0/build.rs:495-502 | a jump keeps its register; its offset is cut to an even 21-bit signed value |
| `Assembler.DecodeUType` | userspace/apps/demo-exit0/build.rs:454-460 | lui and auipc keep the low 20 bits of the immediate, shifted and sign extended |
| `Assembler.SplitRebuilds` | userspace/apps/demo-exit0/build.rs:512-517 | the low half always fits an addi; lui then addi rebuild the value modulo 2^32, and exactly on RV64 if and only if it is below 0x7ffff800 |
| `Assembler.SplitRuns` | userspace/apps/demo-exit0/build.rs:512-517 | executing the two words of a constant leaves it in the register modulo 2^32, exactly if and only if it is below 0x7ffff800, and changes nothing else |
| `Assembler.PatchedJumpLands` | userspace/apps/demo-exit0/build.rs:418-440 | a blt, beq, bne or jal patched at slot i for slot t keeps its registers and goes from base+4i to base+4t if and only if the distance is within the reach of its format |
| `Assembler.AssembledDecodes` | userspace/apps/demo-exit0/build.rs:454-510 | every program of encodable instructions decodes, word by word, to itself |
| `Assembler.Emit` | userspace/apps/demo-exit0/build.rs:345-348 | appending the encoding of the next instruction keeps the draft equal to the program outside its holes |
| `Assembler.EmitHole` | userspace/apps/demo-exit0/build.rs:345-348 | a zero word may stand where a hole is planned |
| `Assembler.Patch` | userspace/apps/demo-exit0/build.rs:415-440 | writing the right word into a slot closes that hole and changes nothing else |
| `Assembler.Text` | userspace/apps/demo-exit0/build.rs:442-447 | the text is the little-endian words followed by the data |
| `PrintProgram.BuildText` | userspace/apps/demo-exit0/build.rs:88-151 | the pushed words, with offsets from the running pc, and the appended message are the program image the run theorems start from |
| `PrintProgram.Push` | userspace/apps/demo-exit0/build.rs:450-452 | pushing a word appends its four little-endian bytes, keeping the buffer a whole number of words |
| `PrintProgram.CutEncodes` | userspace/apps/demo-exit0/build.rs:462-473 | an exit code and its 12-bit cut are encoded by the same word |
| `Programs.ImageStays` | userspace/apps/demo-exit0/build.rs:442-447 | a program in memory is intact after any number of steps of any run |
| `Programs.LoopPrints` | userspace/apps/demo-exit0/build.rs:112-129 | the print loop, wherever it stands and whatever callee-saved register it uses, prints the data up to the first NUL, in order, and goes on behind it with the other callee-saved registers intact |
| `Programs.LoopFaults` | userspace/apps/demo-exit0/build.rs:112-129 | without a NUL it prints all the data and faults on the first unmapped byte |
| `PrintProgram.CutKeeps` | userspace/apps/demo-exit0/build.rs:462-473 | the exit code survives its addi if and only if it is in -2048..2047 |
| `PrintProgram.PrintsThenExits` | userspace/apps/demo-exit0/build.rs:88-151 | for every message with a NUL, every kernel and every start state, the program halts after printing exactly the bytes before the first NUL, in order, and then exiting with its code |
| `PrintProgram.UnterminatedFaults` | userspace/apps/demo-exit0/build.rs:88-151 | without a NUL and with nothing mapped behind the message, it prints the whole message and faults instead of exiting |
| `VmoConsumer.BuildVmoConsumerText` | userspace/apps/demo-exit0/build.rs:326-448 | emitting, patching all eight holes and appending the data gives the image the run theorem starts from |
| `VmoConsumer.EmitAsk` | userspace/apps/demo-exit0/build.rs:343-378 | the first part is emitted with its holes, and the recorded slots are the ones the patches need |
| `VmoConsumer.EmitCompare` | userspace/apps/demo-exit0/build.rs:380-398 | the same for the comparison |
| `VmoConsumer.EmitExits` | userspace/apps/demo-exit0/build.rs:400-410 | the same for the two ways out |
| `VmoConsumer.ExpectedData` | userspace/apps/demo-exit0/build.rs:334-341 | the expected bytes are padded with zeros to a multiple of four |
| `VmoConsumer.RetryLoop` | userspace/apps/demo-exit0/build.rs:357-378 | from any state at the loop head with n tries left, the run ends after at most n map calls, with the calls and exit code the results call for |
| `VmoConsumer.CompareLoop` | userspace/apps/demo-exit0/build.rs:389-398 | the byte comparison ends at the success exit exactly when every remaining mapped byte is the expected one, and changes neither memory nor the call history |
| `VmoConsumer.ConsumerEnds` | userspace/apps/demo-exit0/build.rs:326-448 | for every sequence of map results and every memory content the program halts after at most 128 map calls, stops at the first non-negative result, and exits 0 exactly when one came and the mapped bytes equal the expected ones, else 41 |
| `MinidumpProgram.DumperEnds` | userspace/apps/demo-exit0/build.rs:153-324 | whatever the calls return and the answer holds, the program halts: it prints the message, yields 64 times, makes the send call, receives if that succeeded, and exits 42 exactly when both calls succeed and the answer starts S F 1 0x81 0, 33 after a failed send and 34 otherwise |
| `MinidumpProgram.SendCarriesRequest` | userspace/apps/demo-exit0/build.rs:222-232 | in every run, whenever a send call is made, memory holds the message header where the call points and, with the size it gives, the request |
| `MinidumpProgram.YieldLoop` | userspace/apps/demo-exit0/build.rs:211-220 | from any count n the loop yields exactly n times and keeps the data and stack pointers |
| `MinidumpProgram.ChecksAll` | userspace/apps/demo-exit0/build.rs:246-265 | the five compare-and-branch steps reach the success exit exactly when all remaining bytes of the answer are the wanted ones |
| `MinidumpProgram.RequestInPlace` | userspace/apps/demo-exit0/build.rs:179-182 | from any state with the program in memory, the message header and the request are where the send call points after any number of steps |
| `MinidumpProgram.RequestHoldsDump` | userspace/apps/demo-exit0/build.rs:167-172 | the file service takes the request for storing a value under the dump path, and the crash library decodes that value to the demo frame: pid 0, code 42, the demo name, its build id and nothing else |
| `MinidumpProgram.HeaderReads` | source/libs/nexus-abi/src/lib.rs:107-114 | the message header reads as no capability, no opcode, no flags and the given payload length, for every length |
| `MinidumpProgram.GoodAnswerExactly` | userspace/statefs/src/lib.rs:205-207 | of all status frames the file service sends, the program takes the one for a stored value as good, and no other |
| `Statefs.PutReadsExactly` | userspace/statefs/src/lib.rs:529-554 | for all keys and values: the file service reads a frame as storing this value under this key if and only if it is the request written for them, the key has 1 to 255 bytes and the value at most 65536 |
| `MinidumpProgram.BuildMinidumpText` | userspace/apps/demo-exit0/build.rs:153-324 | emitting, patching all fifteen holes and appending the data gives the image the run theorem starts from |
| `MinidumpProgram.BuildData` | userspace/apps/demo-exit0/build.rs:167-182 | the data is the padded message, the message header and the request, at the recorded offsets |
| `MinidumpProgram.BuildStatefsPutRequest` | userspace/apps/demo-exit0/build.rs:561-572 | the request is the one that `PutReadsExactly` speaks of |
| `Qoi.EncodePixels` | source/services/systemui/build.rs:74-129 | the loop over one row, with its run counter and in-place index array, appends the specified encoding of that row |
| `QoiChoices.RowIsNormal` | source/services/systemui/build.rs:74-129 | a byte string is what the encoder emits for a row if and only if it decodes to the row and is in normal form: repeats by runs of 62 as long as they last, then pixels in their index slot by that slot, and all others by the shortest operation the decoder knows |
| `QoiChoices.RowIsShortest` | source/services/systemui/build.rs:74-129 | no byte string that decodes to the row is shorter, among those that avoid the reserved byte 255 and name a colour by its own index slot |
| `QoiChoices.ReservedByteShorter` | source/services/systemui/src/frame.rs:132-144 | without that rule it is false: the decoder takes 255 for a run of 64, which the encoder spells in two bytes |
| `QoiChoices.ColorOpShortest` | source/services/systemui/build.rs:99-124 | whatever spells a colour without the index takes at least as many bytes as the encoder's operation, and is that operation if it takes no more |
| `QoiChoices.HashMoves` | source/services/systemui/build.rs:91-92 | black has index slot 53, and one step of red, green or blue moves a slot by 3, 5 or 7 |
| `Qoi.DiffDecodes` | source/services/systemui/src/frame.rs:110-119 | a byte 01rrggbb shifts the previous pixel by its three deltas, each two bits and offset by 2 |
| `Qoi.LumaDecodes` | source/services/systemui/src/frame.rs:120-131 | a byte 10gggggg and a byte rrrrbbbb shift green by the first, and red and blue by that and their own four bits |
| `Qoi.RleEncode` | source/services/systemui/build.rs:67-133 | the data is the rows' encodings back to back, and entry k of the table is the size of the first k rows |
| `Qoi.RowRoundTrip` | source/services/systemui/build.rs:74-129 | for every row three decoders give the pixels back: one that stores in the index after every operation, the repository's, which does not on runs, and one that stores neither on runs nor on index hits |
| `Qoi.DecodesFrom` | source/services/systemui/build.rs:74-129 | the invariant behind it: from any state with index[hash(prev)] = prev and any pending run, what the encoder still emits decodes, in each of them, to the run and the remaining pixels |
| `Qoi.ImageRoundTrip` | source/services/systemui/build.rs:67-133 | decoding only the slice between two table entries, from a reset state, returns that row, for every row whose end fits 32 bits; the table is monotone, ends at the data's size, and no slice is longer than four bytes a pixel |
| `Qoi.OffsetsEndExactly` | source/services/systemui/build.rs:67-133 | the table ends at the size of the data if and only if that size fits 32 bits |
| `Qoi.SmallImagesFit` | source/services/systemui/build.rs:67-133 | images of fewer than 2^30 pixels always stay below that limit |
| `Qoi.EncodedSize` | source/services/systemui/build.rs:74-129 | no state makes the encoder emit more than four bytes a pixel, plus one for a pending run |
| `Qoi.DecodeQoiRow` | source/services/systemui/src/frame.rs:76-157 | for arbitrary data and tables the decoder succeeds exactly when the slice is in bounds and spells a full row and the buffer is large enough; it then holds the opaque pixels and bytes beyond the row are untouched |
| `Qoi.OpaqueExactly` | source/services/systemui/src/frame.rs:76-157 | the decoded bytes equal the original ones if and only if every alpha was 255 |
| `BoxScale.TilingExactly` | source/services/systemui/build.rs:190-211 | every source pixel lies in the footprint of exactly one destination pixel if and only if the source is at least as large as the target both ways; otherwise some pixel is counted twice |
| `BoxScale.CoversExactly` | source/services/systemui/build.rs:190-211 | a footprint has the coordinates whose end lies between its own exact ends in the source, or the one its start lies in |
| `BoxScale.SumIsConserved` | source/services/systemui/build.rs:176-213 | when an image is reduced, the channel sums of all footprints add up to that of the whole image |
| `BoxScale.FootprintInside` | source/services/systemui/build.rs:190-211 | for all positive sizes each footprint is non-empty and in bounds |
| `BoxScale.SumBox` | source/services/systemui/build.rs:190-211 | the nested loops compute each channel's sum over the footprint, modulo 2^32 |
| `BoxScale.SumOfPixels` | source/services/systemui/build.rs:190-211 | one pixel is its own sum, and a footprint cut in two either way has the sums of its parts |
| `BoxScale.SumGivesMean` | source/services/systemui/build.rs:190-211 | the computed channel is the mean if and only if the channel's sum fits 32 bits; it fits a byte in any case |
| `BoxScale.RoundedDown` | source/services/systemui/build.rs:206-209 | mean and computed channel are rounded down: each reaches a value exactly if the sum, wrapped for the latter, reaches that value times the area |
| `BoxScale.MeanInRange` | source/services/systemui/build.rs:190-211 | the mean lies between the smallest and the largest value in its footprint |
| `BoxScale.ScaledInRange` | source/services/systemui/build.rs:190-211 | the computed channel never exceeds the largest value, and reaches the smallest if and only if that times the area is at most the wrapped sum, as it always is while the sum fits |
| `BoxScale.UniformExactly` | source/services/systemui/build.rs:190-211 | under a footprint of one colour, the colour comes out if and only if its sum fits 32 bits |
| `BoxScale.ColourKept` | source/services/systemui/build.rs:206-209 | red, green and blue come out in the order blue, green, red, with alpha 255 |
| `BoxScale.WhiteTurnsBlack` | source/services/systemui/build.rs:190-211 | a white image of 4105 by 4104 pixels reduced to one pixel comes out black |
| `BoxScale.DownscaleWallpaper` | source/services/systemui/build.rs:176-213 | for all 16-bit image sides, every output pixel is what the 32-bit sums over its own footprint give, and each colour is the footprint's mean exactly where its sum fits |
| `Premultiply.StraightRecovers` | source/services/windowd/build.rs:516-531 | for all 65536 channel and alpha values, re-multiplying with rounding recovers the channel if and only if it is at most alpha, and then the clamp was not needed; at alpha 0 the straight channel is 0 |
| `Premultiply.RoundedBounds` | source/services/windowd/build.rs:516-531 | the straight channel before the clamp is the nearest whole number, the larger one of two equally near |
| `Premultiply.BufferRecovers` | source/services/windowd/build.rs:516-531 | the same for every whole pixel of a converted buffer, whose alpha is kept |
| `Premultiply.UnpremultiplyBgra` | source/services/windowd/build.rs:516-531 | the in-place loop converts each whole pixel and leaves alpha and a trailing fragment alone |
| `Premultiply.BoxAverageDownscale` | source/services/windowd/build.rs:443-467 | aborts exactly on a zero factor, an output of 2^30 pixels or more, or a factor whose square is zero in 32 bits; otherwise every output pixel is what the 32-bit sums over its factor-by-factor block give, and while the factor is below 65536 each channel is the block's mean exactly where its sum fits |
| `Premultiply.OffsetsExactly` | source/services/windowd/build.rs:455 | every pixel is read from its own place if and only if the image has at most 2^30 of them |
| `Premultiply.SeenInPlace` | source/services/windowd/build.rs:455-459 | in such an image pixel (x, y) is the four bytes in its place |
| `Premultiply.BlockHas` | source/services/windowd/build.rs:443-467 | a source pixel is averaged into the output pixel that its coordinates divided by the factor name, and into no other |
| `Premultiply.AveragedRecovers` | source/services/windowd/build.rs:443-531 | for each factor below 65536: every output pixel of every premultiplied image has channels at most alpha, and each channel is recovered by re-multiplying its straight form, without the clamp, if and only if 255 times the factor squared is below 2^32, that is up to factor 4104 |
| `Premultiply.LargeFactorLoses` | source/services/windowd/build.rs:443-467 | for each larger factor, a premultiplied image of one colour that comes out with alpha 0 and its colours intact |
| `Premultiply.OpaqueTurnsClear` | source/services/windowd/build.rs:443-467 | the first of them: an opaque image of 4105 by 4105 pixels, averaged by factor 4105, comes out with alpha 0 |
| `Civil.YearOfEraRight` | tools/sbom/src/lib.rs:229-236 | the closed-form year of era is the year that contains the day, for all 146097 days of an era |
| `Civil.CivilFollowsCalendar` | tools/sbom/src/lib.rs:229-249 | day 0 is 1970-01-01, every day count gives a real date, and each day's date is the calendar successor of the day before |
| `Timestamp.CountInvertsCivil` | tools/sbom/src/lib.rs:229-249 | the ordinary days-from-civil count maps every computed date back to its day count |
| `Timestamp.CivilInvertsCount` | tools/sbom/src/lib.rs:229-249 | every real date is the one computed from its own count |
| `Timestamp.CivilOrdered` | tools/sbom/src/lib.rs:229-249 | dates are ordered exactly as their day counts are |
| `Timestamp.FormatFailsExactly` | tools/sbom/src/lib.rs:216-249 | formatting fails if and only if the instant lies on or after the first day of year 2^31 |
| `Timestamp.TimestampReads` | tools/sbom/src/lib.rs:216-227 | reading the fields of the text recomposes the epoch; the text has the RFC 3339 shape of twenty characters exactly while the year has four digits |
| `Timestamp.TimestampsDistinct` | tools/sbom/src/lib.rs:216-227 | different instants give different texts |
| `Framing.FramesInOrder` | userspace/dsoftbus/src/host.rs:179-273 | in every interleaving without a payload timeout, the frames returned are a prefix of the frames written, a reader is never caught with a partly filled buffer, and pushed bytes are conserved: returned, in the header just read, or still queued |
| `Framing.StepKeeps` | userspace/dsoftbus/src/host.rs:179-273 | the invariant of every push, read and header timeout: the queue holds whole pushes, aligned with what the reader wants next |
| `Framing.Drains` | userspace/dsoftbus/src/host.rs:179-244 | from every reachable state with the writer between frames, reads alone deliver everything written and empty the queue |
| `Framing.TimeoutExactly` | userspace/dsoftbus/src/host.rs:186-241 | a timeout keeps the invariant and the byte conservation if and only if it comes before the header is read; a later one loses exactly the four header bytes |
| `Framing.LateTimeoutDesyncs` | userspace/dsoftbus/src/host.rs:217-241 | after any timeout between header and payload, whatever is pushed and however often the reader polls in vain, the first bytes it then gets are that payload and are read as a header, together with what follows a payload of fewer than four bytes |
| `Framing.LateTimeoutExample` | userspace/dsoftbus/src/host.rs:217-241 | a concrete run in which such a timeout makes the reader return a frame that was never written |
| `Framing.TrickleStarves` | userspace/dsoftbus/src/host.rs:186-207 | bytes that come fewer than four at a time, with an empty read in between, never make a header, however long they come: starting over loses them |
| `Framing.HeaderIsBigEndian` | userspace/dsoftbus/src/host.rs:267-273 | the four header bytes are the payload length, most significant first |
| `Framing.ByteQueue.Read` | userspace/dsoftbus/src/inproc.rs:59-77 | pops the smaller of what is wanted and what is there into the buffer, in order, and blocks only on an empty queue |
| `Framing.ByteQueue.Write` | userspace/dsoftbus/src/inproc.rs:79-91 | appends all bytes at once |
| `Framing.WriteFrame` | userspace/dsoftbus/src/host.rs:267-273 | appends exactly one frame's wire form |
| `Framing.ReadExact` | userspace/dsoftbus/src/host.rs:186-207 | the retry loop performs the machine's read calls; it fills the whole buffer or, at the deadline, leaves nothing half read |
| `Framing.ReadFrame` | userspace/dsoftbus/src/host.rs:179-244 | for every pattern of arrivals, the call returns the frame its read calls complete, refuses exactly what they refuse, and times out only on an empty queue |
| `Handshake.AcceptedProofsExactly` | userspace/dsoftbus/src/host.rs:439-457 | a proof is accepted for a role and channel key, as coming from a device, if and only if it is the one that an owner of that channel key with that device's key makes for that role |
| `Handshake.ServerAcceptsExactly` | userspace/dsoftbus/src/host.rs:492-527 | whoever is on the other side, a server accepts a device if and only if it gets a first message sealed to its key, then a client proof by an owner of the device's key over the channel key it comes with, then a request in the device's name |
| `Handshake.ClientConnectsExactly` | userspace/dsoftbus/src/host.rs:529-577 | whoever is on the other side, a client connects if and only if it gets a server proof by an owner of the announced device's key over the announced channel key, and then a consenting answer |
| `Handshake.EveryRun` | userspace/dsoftbus/src/inproc.rs:165-210 | in every interleaving, timeouts included: at most two frames queued to the server and one to the client, never both sides blocked while neither has failed, and a connected client implies a server that answered ok, with each side holding the other's identity, the announced one on the client |
| `Handshake.StepKeeps` | userspace/dsoftbus/src/host.rs:492-577 | the invariant of every step: what each side has sent is a prefix of its script, and each position in the code fits the messages sent and received |
| `Handshake.CalmOutcome` | userspace/dsoftbus/src/host.rs:492-577 | a timeout-free run has at most ten steps and, once no move is left, both sides succeed if and only if the announcement carries the server's key and identity; otherwise which side failed and where the other waits |
| `Handshake.ServerMayAcceptAlone` | userspace/dsoftbus/src/inproc.rs:165-210 | agreement is one-way: a run in which the server accepts a client that has timed out |
| `Handshake.AcceptedMeetsExactly` | userspace/dsoftbus/src/inproc.rs:165-210 | once the client has no move left, an accepting server faces a connected client if and only if the client never timed out |
| `Handshake.ConnectedExactly` | userspace/dsoftbus/src/inproc.rs:165-210 | a run that is over has connected if and only if the announcement carries the server's key and identity and nobody timed out |
| `Announce.DecodesEncoded` | userspace/dsoftbus/src/discovery_packet.rs:62-134 | every packet the encoder accepts is read back, whatever bytes follow it |
| `Announce.EncodesDecoded` | userspace/dsoftbus/src/discovery_packet.rs:62-134 | whatever decodes is encodable, and its encoding is the part of the input that was read |
| `Announce.PrefixFree` | userspace/dsoftbus/src/discovery_packet.rs:62-134 | no encoding is a proper prefix of another |
| `Announce.CutIsTruncated` | userspace/dsoftbus/src/discovery_packet.rs:93-134 | however an encoded packet is cut short, the decoder says truncated and nothing else |
| `Announce.Layout` | userspace/dsoftbus/src/discovery_packet.rs:62-91 | where each field stands in the bytes |
| `Announce.Refusals` | userspace/dsoftbus/src/discovery_packet.rs:93-134 | which bytes make the decoder refuse a packet for its magic, version, device name or service count |
| `Utf8.ValidExactly` | userspace/dsoftbus/src/discovery_packet.rs:109 | a byte string is well-formed if and only if it spells a sequence of characters in the encoding of RFC 3629 |
| `Announce.EncodeAnnounce` | userspace/dsoftbus/src/discovery_packet.rs:62-91 | encoding succeeds exactly on encodable packets and otherwise names the first broken rule |
| `Announce.DecodeAnnounce` | userspace/dsoftbus/src/discovery_packet.rs:93-134 | the cursor walk is the parse with trailing bytes dropped, error for error |
| `Announce.DecodeNames` | userspace/dsoftbus/src/discovery_packet.rs:123-131 | so is its loop over the service names |
| `FacadeDiscovery.NewsExactly` | userspace/dsoftbus/src/facade_discovery.rs:108-139 | a poll counts as news if and only if it changes the last-valid-announcement-per-device view |
| `FacadeDiscovery.ListenExact` | userspace/dsoftbus/src/facade_discovery.rs:101-147 | the receive loop yields at the first poll that changes the view and nothing otherwise, leaves the cache equal to the view of all it received, and gives up only at a failed receive or out of ticks |
| `FacadeDiscovery.EveryRun` | userspace/dsoftbus/src/facade_discovery.rs:97-196 | after any calls on any number of streams with any receive outcomes, the cache is the last valid announcement per device among everything received, and the polls a stream has made and has left are 500 |
| `FacadeDiscovery.SoleReaderCatches` | userspace/dsoftbus/src/facade_discovery.rs:97-148 | while a stream is the only one read from, folding what it yielded and still holds seeded gives the cache |
| `FacadeDiscovery.SoleStreamIsComplete` | userspace/dsoftbus/src/facade_discovery.rs:97-196 | the same for whole runs: a stream made at any point of any run, if it is the only one read from afterwards, has handed out or still holds exactly the cache |
| `FacadeDiscovery.QuietExactly` | userspace/dsoftbus/src/facade_discovery.rs:101-147 | a call yields nothing if and only if no poll within its ticks and before the first failed receive is news |
| `FacadeDiscovery.OtherStepCatchesExactly` | userspace/dsoftbus/src/facade_discovery.rs:97-148 | a call on another stream keeps that true if and only if that stream still hands out its seed or no poll it can reach is news |
| `FacadeDiscovery.TwoReadersDiverge` | userspace/dsoftbus/src/facade_discovery.rs:97-148 | a concrete run of two streams and one datagram after which one is complete and the other is not |
| `FacadeDiscovery.AnnouncedIsCarried` | userspace/dsoftbus/src/facade_discovery.rs:159-174 | an announcement that was sent is the announcement the receiver takes out of the datagram |
| `FacadeDiscovery.IdentityIsCarried` | userspace/identity/src/lib.rs:66-86 | for every 32-byte digest, an announcement in the name of its hexadecimal text is encodable and is received as it was sent, and different digests have different names |
| `FacadeDiscovery.CarriedExactly` | userspace/identity/src/lib.rs:78-86 | a datagram carries an announcement if and only if it is well formed and its device name has 64 characters, all of them digits or letters a to f of either case |
| `Hexadecimal.HexTextReads` | userspace/identity/src/lib.rs:66-71 | the digits of a byte string read back as it |
| `FacadeDiscovery.CacheAnswersLast` | userspace/dsoftbus/src/facade_discovery.rs:97-196 | after any run, what the cache holds for a device is the last valid announcement received from it, and it holds nothing exactly if none was received |
| `FacadeDiscovery.Discovery.Get` | userspace/dsoftbus/src/facade_discovery.rs:176-178 | for whatever stream of announcements the cache is the view of, the answer is the last one in it from the device, and nothing if there is none |
| `FacadeDiscovery.AnnouncementStream.Next` | userspace/dsoftbus/src/facade_discovery.rs:97-148 | hands out the seed first, without polling; then behaves as the specified receive loop on the shared cache |
| `FacadeDiscovery.AnnouncementStream.constructor` | userspace/dsoftbus/src/facade_discovery.rs:180-196 | a new stream has 500 polls and a seed listing the cache once per device, in ascending order |
| `Ledger.LatestIsLast` | userspace/dsoftbus/src/facade_discovery.rs:133-137 | folding by last write gives, for every device, the last announcement from it |
| `Ledger.SortedValues` | userspace/dsoftbus/src/facade_discovery.rs:180-184 | the seed lists each cached announcement exactly once, ascending by device |
| `Ledger.BeforeExactly` | userspace/dsoftbus/src/facade_discovery.rs:180-184 | the order is that of dictionaries: a proper prefix first, otherwise the first byte that differs decides |
| `Registry.WatchersAgree` | userspace/dsoftbus/src/host.rs:92-113 | after any run of announce and watch, each watcher's stream folded by last write per device is exactly the registry's map, whenever it joined and however it was seeded |
| `Registry.HostRegistry.Announce` | userspace/dsoftbus/src/host.rs:97-102 | every channel gets the announcement appended and the map is updated for its device only |
| `Registry.HostRegistry.Watch` | userspace/dsoftbus/src/host.rs:104-113 | the new channel is seeded with each current announcement once, in some order; nothing else changes |
| `Correlation.RejectsKeepWindow` | userspace/dsoftbus/src/core_contract.rs:166-198 | a rejected call leaves the window as it was |
| `Correlation.UnauthenticatedExactly` | userspace/dsoftbus/src/core_contract.rs:145-198 | in every run, a reservation or reply is turned away as unauthenticated if and only if the window was not made authenticated and no earlier call marked it |
| `Correlation.AcceptedExactly` | userspace/dsoftbus/src/core_contract.rs:173-189 | in a fresh window's run, a reply is accepted if and only if the window is authenticated, the nonce is the expected one, and it exceeds every nonce accepted before |
| `Correlation.AcceptedIncrease` | userspace/dsoftbus/src/core_contract.rs:173-189 | in every run accepted replies strictly increase, so none is accepted twice |
| `Correlation.NoncesDistinct` | userspace/dsoftbus/src/core_contract.rs:166-171 | the k-th nonce of a run is the initial one plus k modulo 2^64; two nonces are equal if and only if a positive multiple of 2^64 were handed out from one to the other |
| `Correlation.InOrderAcceptedExactly` | userspace/dsoftbus/src/core_contract.rs:145-189 | in any fresh window, authenticated from the start or marked later, a caller that answers reservations in order is accepted if and only if the nonce has not wrapped |
| `Correlation.CorrelationWindow.MarkAuthenticated` | userspace/dsoftbus/src/core_contract.rs:162-164 | performs the specified step |
| `Correlation.CorrelationWindow.ReserveOutboundNonce` | userspace/dsoftbus/src/core_contract.rs:166-171 | performs the specified step and returns its answer |
| `Correlation.CorrelationWindow.ValidateInboundReply` | userspace/dsoftbus/src/core_contract.rs:173-189 | performs the specified step and returns its answer |
| `Scheduler.NoStarvation` | userspace/dsoftbus/src/mux_v2.rs:279-323 | whatever is enqueued meanwhile, the entry at place p of any lower queue leaves within 63(p+1) dequeues |
| `Scheduler.HighWaitsLittle` | userspace/dsoftbus/src/mux_v2.rs:279-323 | whatever is enqueued meanwhile, the entry at place p of the high-priority queue leaves within p + p/8 + 2 dequeues |
| `Scheduler.BurstsOfEight` | userspace/dsoftbus/src/mux_v2.rs:293-310 | after any run, waiting high-priority work is served next if and only if fewer than eight of the last dequeues in a row served it already, or nothing else waits |
| `Scheduler.QueuesConserve` | userspace/dsoftbus/src/mux_v2.rs:288-323 | in every run, what was put into a queue is what was taken from it, in order, followed by what is still in it |
| `Scheduler.DequeueProgress` | userspace/dsoftbus/src/mux_v2.rs:293-323 | while a lower queue has work, each dequeue serves its front or uses up a bounded patience |
| `Scheduler.DequeueTakesOneFront` | userspace/dsoftbus/src/mux_v2.rs:293-323 | a dequeue returns nothing only when all queues are empty, and otherwise removes the front of exactly one; waiting high-priority work is served at once if and only if the burst of eight is not used up or no lower queue has work |
| `Scheduler.PriorityScheduler.EnqueueStream` | userspace/dsoftbus/src/mux_v2.rs:288-290 | the stream goes to the back of its own queue and nothing else changes |
| `Scheduler.PriorityScheduler.DequeueNext` | userspace/dsoftbus/src/mux_v2.rs:293-310 | the method performs the specified dequeue |
| `Scheduler.PriorityScheduler.DequeueFromLowerPriorities` | userspace/dsoftbus/src/mux_v2.rs:312-323 | the rotation loop serves the first lower queue with work at or after the cursor and moves the cursor behind it |
| `ArchCheck.FindViolation` | tools/arch-check/src/main.rs:131-158 | the search answers exactly when a banned package other than the start is reachable, and its path, without the repeated head, follows real edges from the start to one and is as short as any |
| `ArchCheck.BuildPath` | tools/arch-check/src/main.rs:160-173 | climbing the parent links ends, because they lose one level each; the result is the tree path with the start written twice |
| `ArchCheck.Expand` | tools/arch-check/src/main.rs:149-156 | after the inner loop every dependency of the node is seen, at most one level further, and the queue is still ordered by level |
| `ArchCheck.LeavesDone` | tools/arch-check/src/main.rs:131-158 | any path that ends outside the expanded nodes leaves them at a node no deeper than its position |
| `Minidump.ValidateExactly` | userspace/crash/src/lib.rs:61-103 | validation accepts exactly frames with well-formed labels and bounded parts, and each error is given exactly for the first rule broken; the limit on the whole frame can never be what rejects one |
| `Minidump.LabelExactly` | userspace/crash/src/lib.rs:61-103 | a label is not empty, not too long and has only letters, digits, full stops, hyphens and underscores |
| `Minidump.DecodesEncoded` | userspace/crash/src/lib.rs:105-227 | every valid frame is read back from its bytes |
| `Minidump.EncodesDecoded` | userspace/crash/src/lib.rs:105-227 | every accepted byte string decodes to a valid frame whose encoding is that string with bytes 28 and 29 zeroed |
| `Minidump.AcceptsExactly` | userspace/crash/src/lib.rs:139-227 | the decoder accepts a byte string if and only if clearing bytes 28 and 29 gives the encoding of a valid frame |
| `Minidump.ReservedIgnored` | userspace/crash/src/lib.rs:139-227 | those two bytes change neither what is accepted nor what is said |
| `Minidump.HeadLayout` | userspace/crash/src/lib.rs:105-137 | where each field stands in the header |
| `Minidump.BodyLayout` | userspace/crash/src/lib.rs:105-137 | where each part stands behind it |
| `Minidump.Refusals` | userspace/crash/src/lib.rs:139-227 | which bytes make the decoder refuse a header, and with which error |
| `Minidump.Encode` | userspace/crash/src/lib.rs:105-137 | succeeds exactly on valid frames and otherwise returns the validation error |
| `Minidump.Decode` | userspace/crash/src/lib.rs:139-227 | the offset walk answers as specified, error for error |
| `Minidump.BuildMinidumpValue` | userspace/apps/demo-exit0/build.rs:540-559 | for every valid name and build id the demo's own writer produces the encoding of the frame with pid 0, code 42, time 0 and empty previews |
| `BuildId.BuildIdIsLabel` | userspace/crash/src/lib.rs:230-239 | the build id of every name is one that validation accepts |
| `BuildId.BuildIdReads` | userspace/crash/src/lib.rs:230-239 | it is the letter b and sixteen lower-case digits that spell the hash |
| `BuildId.FnvGrows` | userspace/crash/src/lib.rs:230-239 | the hash starts at the FNV-1a offset basis; one more byte is xored into the low eight bits, and the result multiplied by 2^44 + 435 in 64 bits |
| `BuildId.XorIsBitwise` | userspace/crash/src/lib.rs:230-239 | a bit of the xor is set if exactly one of the two bits is |
| `BuildId.LastByteTells` | userspace/crash/src/lib.rs:230-239 | names that differ in their last byte alone have different hashes |
| `BuildId.DeterministicBuildId` | userspace/crash/src/lib.rs:230-239 | the crash library's hash and digit table give the specified id |
| `BuildId.DeterministicBuildIdBytes` | userspace/apps/demo-exit0/build.rs:525-538 | the payload builder's own version gives the same id on every name |
| `DumpPath.NormalizeDumpPath` | userspace/crash/src/lib.rs:242-264 | never fails, for any timestamp, pid and name; `NameReads` and `PathReads` say what the path is |
| `DumpPath.NoEscape` | userspace/crash/src/lib.rs:267-280 | behind the root, a name without slashes and with the suffix passes every escape check |
| `DumpPath.ValidateExactly` | userspace/crash/src/lib.rs:267-280 | a path passes if and only if it starts with the root and has no empty component but a trailing one, and none that is "." or ".."; it is out of scope exactly without the root |
| `DumpPath.AppendDigits` | userspace/crash/src/lib.rs:300-332 | the digit loop writes the decimal numeral; its buffer guard is never what ends it when the value has no more digits than the buffer has bytes |
| `DumpPath.AppendU32` | userspace/crash/src/lib.rs:300-315 | ten bytes suffice for every 32-bit value |
| `DumpPath.AppendU64` | userspace/crash/src/lib.rs:317-332 | twenty bytes suffice for every 64-bit value |
| `DumpPath.PathReads` | userspace/crash/src/lib.rs:242-264 | timestamp, pid and sanitised name can be read back from the path |
| `DumpPath.NameReads` | userspace/crash/src/lib.rs:247-254 | the name in the path is the given one, character for character, with an underscore for each other than letters, digits, full stop, hyphen and underscore, and "unknown" for none; so it is the given name if and only if that is not empty and has no others |
| `DumpPath.PathsCollideExactly` | userspace/crash/src/lib.rs:242-264 | two paths are equal if and only if timestamp and pid agree and the names differ at most where both have an underscore or a replaced character; no name counts as "unknown" |

## Left out

- ImageRoundTrip: assumes the encoded data up to the row's end stays below 2^32 bytes; beyond that the 32-bit table wraps and a slice may or may not still decode, which OffsetsEndExactly and SmallImagesFit delimit.
- BoxAverageDownscale: asks for a buffer with four bytes for each pixel of the stated size; on a shorter one the code aborts at the first missing byte it needs.
- AveragedRecovers: covers factors below 65536; from there on the divisor itself is cut to 32 bits and no longer counts the pixels of a block.
- PatchedJumpLands: slot indices are below 2^28, so that the byte distance fits the code's 32-bit arithmetic.
- PrintsThenExits: asks the kernel to keep the callee-saved registers and the program image across calls.
- ConsumerEnds: asks the same, and that a granted map call makes the range readable.
- DumperEnds: asks the same, that a successful receive makes the first five bytes of its buffer readable, and that the stack pointer is at least 64.
- FramesInOrder: covers payloads below 2^32 bytes; a longer one would have its length cut to 32 bits in the header.
- Whether frames returned after a timeout between header and payload can still happen to be the right ones: that depends on the bytes, and TimeoutExactly says what is lost.
- The file service's other operations: their payloads are not cut further.
- `build_elf` in the demo builder: a fixed header.
- Reading source pixels in their various formats (`rgb_at`), JPEG and SVG decoding, fonts, the ring cursor.
- Noise, Ed25519, SHA-256, Cap'n Proto and JSON themselves: foreign code.
- In-process listener registration, port allocation and drop: a map insert and remove.
- Real sockets: TCP framing with partial pushes, `try_read_frame`, the QUIC transport and the network facade.
- Clocks: deadlines are nondeterministic, so nothing is said about how long a call takes.
- The rest of the multiplexer (credits, keepalive, stream states) and of the bundle, package and build tools.
- Thread scheduling inside one locked section: a locked read or write is one step.
