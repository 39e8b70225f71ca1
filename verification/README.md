# Scicos-FLEX gateways, protocols and blocks in Dafny

A model of the parts of the ERIKA Scicos-FLEX repository that carry state, arithmetic or an
encode/decode pair, with proofs. Each component is a Dafny module: what the C or C# code does
step by step is a class or method proved against a specification function, and what the
component promises is proved about that function. `dafny verify dfyconfig.toml` checks it all.

| files | component |
|---|---|
| EasylabFrames, StreamParserEncoder, SerialUdpGateway | the Easylab serial/UDP gateway: resumable frame parser, encoder, datagram sender |
| ConfSyntax, CStrings, ConfMux, ConfLines, ConfDemux | the test-configuration multiplexer and its two demultiplexers |
| FlexBusQueue, FlexBusWakeup | one channel of the flex bus: ring buffer, and producers and consumers on its condition variable |
| FlexUsbBridge | the PIC18 firmware step between dsPIC (SPI) and PC (USB HID) |
| WrappedIntegers, NativeBlocks, NativeLaws | the native-integer gain and summation blocks |
| DataModel, CommChannel | the SMCube data layout, block ports, stream transport and update exchange |
| UsbScicos | the frame-cycle counters of the Scicos-to-USB library and the gateway loop |
| LcdBuffer | the two-line display buffer |
| SprintfBlock | the fixed-width field formatter |
| Basics, Bytes | shared types and facts |

Inputs from outside - serial and USB bytes, pin levels, sends that throw, partial transfers,
the order in which threads take a mutex - are parameters, and every theorem is for all of them.

## What the proofs show about the code

- The encoder's check byte covers nine bytes and the parser's eight. An encoded frame passes
  the parser's check if and only if byte 8 of its datagram is zero, and a run of datagrams
  comes back whole if and only if byte 8 of every one is; a bad one can cost the good one
  after it. The gateway keeps byte 8 zero because it only ever writes bytes 0 to 7 of a
  zeroed buffer.
- Noise costs the frames after it nothing, unless the first valid window in the at most nine
  bytes the parser carries over from it runs over the beginning of one after it.
- The loop meant to clear the second float of a lone last one runs from 4 to 4
  (EasylabSerialUDPGateway.cs:267-270), so the float before it in the list is sent again. The
  parser delivers floats in pairs, so this branch is never taken with its output.
- The multiplexer accepts empty values other than the last. Lines with one demux well, but the
  words are then rejected: the round trip holds if and only if no value is empty.
- Signalling only when exactly one message is present (flex_bus.c:50) loses no wake-up if and
  only if there is at most one consumer or the ring has at most two slots.
- The bridge samples its request pin twice in a call. If the level changes between the samples
  while a packet waits and a report arrives in the same call, the waiting packet is
  overwritten; without that, nothing from the PC is ever lost.
- `data_model.h:98-103` promises zero on failure, but `RET_FAIL` is 1 (data_model.c:59):
  failures look like successes. The model follows the code.
- A write made after a read block but before any write block is registered leaves the write
  counter ahead of the registrations to come: the library stays silent until these lift the
  number of write blocks above the counter.
- The gateway's loop of 15 reads sends whole device frames if and only if 15 divides the
  number of read blocks. Only the result of the last registration is looked at
  (app_flex_scicos.c:107-138), so after a first one that fails the loop runs with 14 and
  tears its datagrams.

## Model

| member | source | states |
|---|---|---|
| EasylabFrames.ChunkInvariance | ee_scicoslab/scicos_flex/EasylabSerialUDPGateway/EasylabSerialUDPGateway/StreamParserEncoder.cs:20-74 | However a byte stream is cut into successive parser calls, the payloads delivered and the final remainder are those of one call on the whole stream; the remainder never exceeds nine bytes. |
| EasylabFrames.CutOnce | ee_scicoslab/scicos_flex/EasylabSerialUDPGateway/EasylabSerialUDPGateway/StreamParserEncoder.cs:26-71 | A single cut anywhere in a stream changes neither the payloads nor the remainder. |
| EasylabFrames.XorIsParity | ee_scicoslab/scicos_flex/EasylabSerialUDPGateway/EasylabSerialUDPGateway/StreamParserEncoder.cs:46-48 | Every bit of the check byte is the parity of that bit over the bytes it covers. |
| EasylabFrames.CheckByteIff | ee_scicoslab/scicos_flex/EasylabSerialUDPGateway/EasylabSerialUDPGateway/StreamParserEncoder.cs:46-48 | A byte is the check byte if and only if each of its bits is the parity of that bit over the bytes covered. |
| Bytes.XorByteAddsBits | ee_scicoslab/scicos_flex/EasylabSerialUDPGateway/EasylabSerialUDPGateway/StreamParserEncoder.cs:47 | The exclusive or of two bytes has in each place the sum of their bits modulo two. |
| EasylabFrames.KnownFrame | ee_scicoslab/scicos_flex/EasylabSerialUDPGateway/EasylabSerialUDPGateway/StreamParserEncoder.cs:34-64 | A frame as it is on the wire, with start byte 0xAA and check byte 2 for the payload 1, 3 and zeros, is accepted. |
| EasylabFrames.PayloadsAreTheGreedyReading | ee_scicoslab/scicos_flex/EasylabSerialUDPGateway/EasylabSerialUDPGateway/StreamParserEncoder.cs:36-64 | A list of positions is a greedy reading of the stream - disjoint valid ten-byte windows in order, every valid window beginning inside one of them - if and only if it is the one the parser takes; its windows are the payloads delivered. |
| EasylabFrames.StartsAreGreedy | ee_scicoslab/scicos_flex/EasylabSerialUDPGateway/EasylabSerialUDPGateway/StreamParserEncoder.cs:36-64 | From any position on, the frames the parser accepts form a greedy reading: none overlaps another, none that could start is skipped. |
| EasylabFrames.GreedyIsUnique | ee_scicoslab/scicos_flex/EasylabSerialUDPGateway/EasylabSerialUDPGateway/StreamParserEncoder.cs:36-64 | There is only one greedy reading from a position on. |
| EasylabFrames.ByteConservation | ee_scicoslab/scicos_flex/EasylabSerialUDPGateway/EasylabSerialUDPGateway/StreamParserEncoder.cs:36-71 | Skipped bytes, accepted frames spelled out again, and the remainder are together the received stream, byte for byte. |
| EasylabFrames.PiecesCount | ee_scicoslab/scicos_flex/EasylabSerialUDPGateway/EasylabSerialUDPGateway/StreamParserEncoder.cs:36-71 | Bytes received are ten per accepted frame, one per skipped byte, and the remainder. |
| EasylabFrames.NoiseIsHarmlessIff | ee_scicoslab/scicos_flex/EasylabSerialUDPGateway/EasylabSerialUDPGateway/StreamParserEncoder.cs:40-58 | Noise costs none of the frames that reading from its end on would find, if and only if the first valid window beginning in its last bytes - the at most nine the parser carries over - does not run over the beginning of one after it; what is delivered then ends in all payloads of the stream after the noise. |
| EasylabFrames.ScanReachesRemainder | ee_scicoslab/scicos_flex/EasylabSerialUDPGateway/EasylabSerialUDPGateway/StreamParserEncoder.cs:36-71 | A scan of a stream passes through the place where the remainder of any front part of it begins, with all earlier frames before that place. |
| EasylabFrames.ParseFramesInNoise | ee_scicoslab/scicos_flex/EasylabSerialUDPGateway/EasylabSerialUDPGateway/StreamParserEncoder.cs:40-58 | Bytes without a start byte, before, between and after frames, cost none of the frames. |
| EasylabFrames.StrayStartByteCanCostAFrame | ee_scicoslab/scicos_flex/EasylabSerialUDPGateway/EasylabSerialUDPGateway/StreamParserEncoder.cs:40-58 | One stray start byte in front of a good frame can cost it: a concrete stream. |
| EasylabFrames.EncodedFrameIsValidIff | ee_scicoslab/scicos_flex/EasylabSerialUDPGateway/EasylabSerialUDPGateway/StreamParserEncoder.cs:85-100 | The encoder sums nine bytes and the parser eight: an encoded datagram passes the parser check if and only if its byte 8 is zero. |
| EasylabFrames.EncodeAllOfDatagrams | ee_scicoslab/scicos_flex/EasylabSerialUDPGateway/EasylabSerialUDPGateway/StreamParserEncoder.cs:83-104 | Datagrams back to back in one buffer are encoded like the datagrams one by one. |
| EasylabFrames.ParseEncodedIff | ee_scicoslab/scicos_flex/EasylabSerialUDPGateway/EasylabSerialUDPGateway/StreamParserEncoder.cs:76-107 | Encoding then parsing a run of datagrams gives back their first eight bytes, all of them in order, if and only if byte 8 of every one is zero; nothing is then left over. |
| EasylabFrames.BadDatagramCanCostTheNext | ee_scicoslab/scicos_flex/EasylabSerialUDPGateway/EasylabSerialUDPGateway/StreamParserEncoder.cs:85-100 | A datagram whose byte 8 is not zero can cost the good one after it: concrete datagrams. |
| StreamParserEncoders.StreamParserEncoder.constructor | ee_scicoslab/scicos_flex/EasylabSerialUDPGateway/EasylabSerialUDPGateway/StreamParserEncoder.cs:13-18 | A new parser has no remaining bytes. |
| StreamParserEncoders.StreamParserEncoder.ParseBytes | ee_scicoslab/scicos_flex/EasylabSerialUDPGateway/EasylabSerialUDPGateway/StreamParserEncoder.cs:20-74 | One call delivers the floats of all frames in remainder plus new bytes, keeps exactly their remainder for the next call, and reports the remainders before and after. |
| StreamParserEncoders.StreamParserEncoder.ScanPacket | ee_scicoslab/scicos_flex/EasylabSerialUDPGateway/EasylabSerialUDPGateway/StreamParserEncoder.cs:34-64 | The parsing loop delivers the floats of the scanned packet and stops where its remainder begins. |
| StreamParserEncoders.Checksum | ee_scicoslab/scicos_flex/EasylabSerialUDPGateway/EasylabSerialUDPGateway/StreamParserEncoder.cs:38-48 | The inner loop computes the XOR of the eight payload bytes. |
| StreamParserEncoders.StreamParserEncoder.EncodeBytes | ee_scicoslab/scicos_flex/EasylabSerialUDPGateway/EasylabSerialUDPGateway/StreamParserEncoder.cs:76-107 | Every whole 60-byte datagram in the buffer becomes one frame; a rest shorter than that is ignored. |
| StreamParserEncoders.StreamParserEncoder.EncodeOne | ee_scicoslab/scicos_flex/EasylabSerialUDPGateway/EasylabSerialUDPGateway/StreamParserEncoder.cs:85-100 | A frame is the start byte, eight datagram bytes, and the XOR of nine. |
| StreamParserEncoders.FloatsComeInPairs | ee_scicoslab/scicos_flex/EasylabSerialUDPGateway/EasylabSerialUDPGateway/StreamParserEncoder.cs:53-55 | The parser always delivers an even number of floats. |
| StreamParserEncoders.FloatsSpellPayloads | ee_scicoslab/scicos_flex/EasylabSerialUDPGateway/EasylabSerialUDPGateway/StreamParserEncoder.cs:53-55 | The floats delivered spell the payloads byte for byte, in order. |
| SerialUdpGateway.Gateway.constructor | ee_scicoslab/scicos_flex/EasylabSerialUDPGateway/EasylabSerialUDPGateway/EasylabSerialUDPGateway.cs:17-24 | The send buffer starts as 60 zero bytes. |
| SerialUdpGateway.Gateway.SendPackets | ee_scicoslab/scicos_flex/EasylabSerialUDPGateway/EasylabSerialUDPGateway/EasylabSerialUDPGateway.cs:254-290 | For any list of floats and any set of throwing sends, the list returned is that of the datagrams sent without exception, and bytes 8 to 59 of the shared buffer stay zero. |
| SerialUdpGateway.Gateway.CopyFloats | ee_scicoslab/scicos_flex/EasylabSerialUDPGateway/EasylabSerialUDPGateway/EasylabSerialUDPGateway.cs:259-272 | The next one or two floats overwrite the front of the shared buffer and nothing else. |
| SerialUdpGateway.PacketsCarryPayloads | ee_scicoslab/scicos_flex/EasylabSerialUDPGateway/EasylabSerialUDPGateway/EasylabSerialUDPGateway.cs:254-290 | For what the parser delivers, the datagrams sent carry exactly the payloads whose send did not throw, one each, in order, all with a zero tail. |
| SerialUdpGateway.LosslessDelivery | ee_scicoslab/scicos_flex/EasylabSerialUDPGateway/EasylabSerialUDPGateway/EasylabSerialUDPGateway.cs:168-207 | When no send throws, the payloads delivered over a run of serial arrivals are those of the whole stream. |
| SerialUdpGateway.GatewayIdentity | ee_scicoslab/scicos_flex/EasylabSerialUDPGateway/EasylabSerialUDPGateway/EasylabSerialUDPGateway.cs:168-207 | Serial bytes in any arrivals, through parser, datagrams and encoder, parsed again from any chunks, come out as the payloads whose send did not throw, with an empty remainder; as all payloads of the stream when none throws. |
| SerialUdpGateway.LoneFloatIsPaddedIff | ee_scicoslab/scicos_flex/EasylabSerialUDPGateway/EasylabSerialUDPGateway/EasylabSerialUDPGateway.cs:264-272 | A lone last float goes out followed by the float before it in the list, or by bytes 4 to 7 of the buffer if there is none: it is zero-padded if and only if those four bytes are zero. |
| SerialUdpGateway.ThirdFloatCarriesTheSecond | ee_scicoslab/scicos_flex/EasylabSerialUDPGateway/EasylabSerialUDPGateway/EasylabSerialUDPGateway.cs:264-272 | Three floats from a fresh gateway: the second datagram carries the third float and the second again. |
| ConfSyntax.ParseArgumentIffFormat | testcase/common/confparser/confparser_mux.c:107-172 | An argument is accepted with a given meaning if and only if it is that name, an equals sign and those values joined by commas, all alphanumeric and the last not empty. |
| ConfSyntax.EmptyNameIsAccepted | testcase/common/confparser/confparser_mux.c:119-135 | The argument `=b` is accepted, with an empty name. |
| ConfMux.CutName | testcase/common/confparser/confparser_mux.c:122-139 | The first loop cuts the argument at its equals sign in place, touching nothing else, and fails only on arguments to be rejected. |
| ConfMux.CutValues | testcase/common/confparser/confparser_mux.c:142-170 | The second loop succeeds exactly when the comma-separated values are acceptable, and then its pointers read as those values. |
| ConfMux.EndValue | testcase/common/confparser/confparser_mux.c:151-157 | Ending a value with a terminator leaves the values cut before it as they are. |
| ConfMux.CutArgument | testcase/common/confparser/confparser_mux.c:107-172 | An argument is cut successfully exactly when it is well formed, and the pointers kept spell its name and values. |
| ConfMux.Mux.ParseArguments | testcase/common/confparser/confparser_mux.c:103-180 | The variable table denotes the parse of the whole command line, and is empty when any argument is rejected; for an accepted one all writes to it are inside it if and only if there are at most 100 variables of at most 10 values. |
| ConfMux.Mux.PrintPermutations | testcase/common/confparser/confparser_mux.c:198-219 | The recursive printer, reading through the pointers, prints the lines of the specification; every string it writes to its 200-byte buffers fits if and only if the longest line does. |
| ConfMux.Mux.Run | testcase/common/confparser/confparser_mux.c:83-95 | The program prints all lines and returns 0, or prints none and returns 1 when there is nothing to multiplex; its writes stay inside its arrays if and only if the table has room and every line of the product is at most 199 characters long. |
| CStrings.ReadString | testcase/common/confparser/confparser_mux.c:204-207 | Reading through a pointer up to the terminator yields the string held there. |
| ConfLines.LinesAreTheOdometer | testcase/common/confparser/confparser_mux.c:186-219 | Line k is made of the values at position k of an odometer whose last variable turns fastest; there are as many lines as the product of the value counts. |
| ConfLines.LinesAreTheProduct | testcase/common/confparser/confparser_mux.c:186-219 | A line is printed if and only if it belongs to a choice of one value for every variable. |
| ConfLines.ExampleLines | testcase/common/confparser/confparser_mux.c:40-46 | The arguments of the program description, VAR1=a,b and VAR2=c, print its two lines in its order. |
| ConfLines.LineIsInjective | testcase/common/confparser/confparser_mux.c:203-209 | A line determines the values it was made of. |
| ConfLines.LinesAreDistinctIff | testcase/common/confparser/confparser_mux.c:186-219 | No line is printed twice if and only if no variable lists a value twice. |
| ConfLines.LinesFitIff | testcase/common/confparser/confparser_mux.c:200-211 | The longest line, computed without printing any, is shorter than a bound if and only if every line of the product is. |
| ConfDemux.Demux | testcase/common/confparser/confparser_demux.c:73-89 | In place, each underscore after an even number of others becomes an equals sign, the rest spaces, and no other character changes. |
| ConfDemux.Blank | testcase/common/confparser/confparser_demux2.c:73-95 | In place, everything is blanked but the characters that stand after an odd number of underscores. |
| ConfDemux.PrintedLineDemuxes | testcase/common/confparser/confparser_demux.c:41-52 | A printed line demuxes to name=value words joined by spaces, and blanks to its values at their own places. |
| ConfDemux.WordsParseIff | testcase/common/confparser/confparser_mux.c:107-172 | The demuxed words are accepted by the multiplexer if and only if no value is empty, and then name the same variables with the one value each. |
| ConfDemux.SinglesPrintOneLine | testcase/common/confparser/confparser_mux.c:198-219 | Variables with one value each print exactly one line. |
| ConfDemux.RoundTripIff | testcase/common/confparser/confparser_mux.c:103-219 | Demuxing a line and feeding the words back prints exactly that line if and only if none of its values is empty; otherwise the words are rejected. |
| ConfDemux.RoundTrip | testcase/common/confparser/confparser_mux.c:103-219 | For every accepted argument list without empty values every printed line comes back as itself. |
| ConfDemux.EmptyValueDoesNotComeBack | testcase/common/confparser/confparser_mux.c:142-170 | The accepted argument `A=,b` prints a line whose words are rejected. |
| FlexBusQueue.Channel.constructor | ee_scicoslab/scicos_flex/flex_usb2udp_gateway/src/flex_bus.c:97-146 | A new channel is empty; size 0 means the default of 10 slots. |
| FlexBusQueue.Channel.Insert | ee_scicoslab/scicos_flex/flex_usb2udp_gateway/src/flex_bus.c:33-54 | Inserting appends the message, cut to 32 bytes, to the queue the ring stands for and drops only its oldest message beyond size-1; empty messages are refused; the condition is signalled exactly when one message is then held (or the ring has one slot). |
| FlexBusQueue.Channel.Get | ee_scicoslab/scicos_flex/flex_usb2udp_gateway/src/flex_bus.c:56-86 | A get returns the oldest or the newest message, cut to the length asked for, and removes exactly that one. |
| FlexBusQueue.ComesOutWholeIff | ee_scicoslab/scicos_flex/flex_usb2udp_gateway/src/flex_bus.c:42-79 | A message of at most 32 bytes comes out whole if and only if the get asks for all of it. |
| FlexBusQueue.StepIsQueueOperation | ee_scicoslab/scicos_flex/flex_usb2udp_gateway/src/flex_bus.c:42-83 | A step of the run model does to the waiting messages what the ring operations do to the contents, the cut to 32 bytes and the refusal of empty messages included; the message it names as delivered is the one a get returns, cut to any length asked for. |
| FlexBusQueue.RunsConserveMessages | ee_scicoslab/scicos_flex/flex_usb2udp_gateway/src/flex_bus.c:33-86 | In every run of inserts and gets of both kinds each inserted message is exactly one of waiting, delivered or dropped; dropped and then waiting messages are in order of insertion. |
| FlexBusQueue.FifoRunsDeliverInOrder | ee_scicoslab/scicos_flex/flex_usb2udp_gateway/src/flex_bus.c:56-86 | Without last-in reads, deliveries are in order of insertion and never repeated, and the queue always holds the latest messages without a gap. |
| FlexBusQueue.NothingIsDroppedIff | ee_scicoslab/scicos_flex/flex_usb2udp_gateway/src/flex_bus.c:44-48 | No message of a run, in whatever order of inserts and gets of both kinds, is dropped if and only if the calls never have more than size-1 messages outstanding. |
| FlexBusQueue.LosslessFifo | ee_scicoslab/scicos_flex/flex_usb2udp_gateway/src/flex_bus.c:33-86 | Then, read first-in first-out, delivered followed by waiting messages are all messages in order. |
| FlexBusQueue.DeliversIff | ee_scicoslab/scicos_flex/flex_usb2udp_gateway/src/flex_bus.c:44-48 | Some run delivers a message if and only if the ring has at least two slots; with one slot none ever does. |
| FlexBusWakeup.CountsLikeTheRing | ee_scicoslab/scicos_flex/flex_usb2udp_gateway/src/flex_bus.c:44-51 | The message count and signal condition of the concurrency model are those of the ring. |
| FlexBusWakeup.RunKeepsInv | ee_scicoslab/scicos_flex/flex_usb2udp_gateway/src/flex_bus.c:46-68 | The invariant behind the signalling policy holds at every point of every interleaving. |
| FlexBusWakeup.SingleConsumerNeverMissesAMessage | ee_scicoslab/scicos_flex/flex_usb2udp_gateway/src/flex_bus.c:46-68 | With one consumer, in every interleaving with any producers and any spurious wake-ups, a consumer blocked without a pending signal means an empty queue. |
| FlexBusWakeup.TwoConsumersCanMissAMessage | ee_scicoslab/scicos_flex/flex_usb2udp_gateway/src/flex_bus.c:46-68 | With two consumers and at least three slots a wake-up can be lost: a concrete run. |
| FlexBusWakeup.NeverLostIff | ee_scicoslab/scicos_flex/flex_usb2udp_gateway/src/flex_bus.c:46-68 | No interleaving loses a wake-up if and only if there is at most one consumer or the ring has at most two slots. |
| FlexUsbBridge.Bridge.constructor | flex2pc_usb/pic18/src/main.c:275-278 | Both buffers start zeroed and all flags clear. |
| FlexUsbBridge.Bridge.SumAfterHeader | flex2pc_usb/pic18/src/main.c:175-177 | The loop computes the 8-bit sum of the 63 bytes after the checksum. |
| FlexUsbBridge.Bridge.WriteSpi | flex2pc_usb/pic18/src/main.c:168-171 | A write shifts out the 64 bytes of the receive buffer. |
| FlexUsbBridge.Bridge.ReadSpi | flex2pc_usb/pic18/src/main.c:172-187 | A read fills the transmit buffer with the 64 bytes shifted in while zeros or the receive buffer go out. |
| FlexUsbBridge.Bridge.ExchangeSpi | flex2pc_usb/pic18/src/main.c:168-198 | The SPI half of a call, for each value the request pin can have at either sample. |
| FlexUsbBridge.Bridge.Receive | flex2pc_usb/pic18/src/main.c:200-200 | A report overwrites as many bytes as it has and leaves the rest. |
| FlexUsbBridge.Bridge.HandleReport | flex2pc_usb/pic18/src/main.c:200-239 | Parsing a report: what it does to the flags, and whether the call goes on to the USB send. |
| FlexUsbBridge.Bridge.FlexUsbProcess | flex2pc_usb/pic18/src/main.c:163-246 | One call of the bridge is one step of the state machine the run theorems are about. |
| FlexUsbBridge.StepMoves | flex2pc_usb/pic18/src/main.c:163-246 | A step without a collision moves the accepted packet into, and the pending one out of, the buffer unchanged; a collision replaces the pending packet. |
| FlexUsbBridge.ConservedIffCollisionFree | flex2pc_usb/pic18/src/main.c:168-214 | At every moment of a run the packets sent to the dsPIC followed by the pending one are the data packets accepted from the PC, in order and once each, if and only if no report arrived in a call in which the pin changed between its two samples while a packet waited. |
| FlexUsbBridge.NothingFromPcIsLost | flex2pc_usb/pic18/src/main.c:168-214 | With a pin that holds still during each call nothing from the PC is lost, repeated or reordered. |
| FlexUsbBridge.SentInTheNextCall | flex2pc_usb/pic18/src/main.c:168-198 | With a pin that holds still every accepted packet goes to the dsPIC in the very next call. |
| FlexUsbBridge.ReadsWhenAsked | flex2pc_usb/pic18/src/main.c:172-187 | With a pin that holds still the dsPIC is read in exactly the calls in which the pin is high. |
| FlexUsbBridge.ChangingPinLosesAPacket | flex2pc_usb/pic18/src/main.c:168-214 | Two calls from reset, the pin changing in the second, lose the first of two accepted packets. |
| FlexUsbBridge.WholeReportsAreAccepted | flex2pc_usb/pic18/src/main.c:199-214 | When reports are whole packets, the accepted ones are exactly the valid data reports as received. |
| FlexUsbBridge.SendsAreReads | flex2pc_usb/pic18/src/main.c:172-197 | Packets sent to the PC are checksum-valid reads from the dsPIC, in order, each at most once; a packet marked for sending is the latest read. |
| FlexUsbBridge.ConnectedIffLatestVerdict | flex2pc_usb/pic18/src/main.c:205-245 | The bridge is connected if and only if the latest valid connect, valid disconnect or rejected packet was a connect; it sends to the PC only then. |
| FlexUsbBridge.SendsIff | flex2pc_usb/pic18/src/main.c:184-245 | A call sends to the PC if and only if the bridge is connected, the latest read from the dsPIC is checksum-valid and not sent yet, and no rejected, data or acknowledgement report ends the call early. |
| FlexUsbBridge.MarkedIffLatestIsUnsent | flex2pc_usb/pic18/src/main.c:188-197 | A packet is marked for the PC exactly while the latest read is checksum-valid and not sent. |
| FlexUsbBridge.ConnectThenReadSends | flex2pc_usb/pic18/src/main.c:163-246 | From reset on, a connect report and then a read of a valid packet: that packet goes to the PC. |
| FlexUsbBridge.CommandPacketIsCommand | flex2pc_usb/pic18/src/main.c:203-228 | The connect and disconnect reports, byte for byte, are valid and are these commands. |
| FlexUsbBridge.SumOfAppend | flex2pc_usb/pic18/src/main.c:175-177 | The checksum adds up the bytes: sums over two parts add. |
| WrappedIntegers.WrapIsTheRepresentative | ee_scicoslab/scicos_flex/dspic/NativeInteger/nat_gainblk_i16n.c:43-44 | The stored result is the one value of the type that differs from the exact one by a multiple of the modulus. |
| NativeBlocks.Accumulate | ee_scicoslab/scicos_flex/dspic/NativeInteger/nat_gainblk_i8n.c:51-60 | The inner loop, wrapping every product and partial sum, ends at the wrap of the exact inner product. |
| NativeBlocks.GainBlock | ee_scicoslab/scicos_flex/dspic/NativeInteger/nat_gainblk_i16n.c:39-65 | Every output is the exact scalar multiple or column-major matrix product reduced to the type, at either width. |
| NativeBlocks.SummationBlock | ee_scicoslab/scicos_flex/dspic/NativeInteger/nat_summation_i16n.c:22-41 | Every output is the exact signed sum over the ports, or over the elements of a single port, reduced to the type; a port of a single element comes out as that element. |
| NativeLaws.ElementSumAddsUp | ee_scicoslab/scicos_flex/dspic/NativeInteger/nat_summation_i16n.c:25-27 | One element is its own sum, and the sums of two parts of a port add up. |
| NativeLaws.SignedSumAddsUp | ee_scicoslab/scicos_flex/dspic/NativeInteger/nat_summation_i16n.c:30-39 | A port is added where its sign is positive and subtracted otherwise, and the sums over two groups of ports add up. |
| NativeLaws.GainOfUnitIsColumn | ee_scicoslab/scicos_flex/dspic/NativeInteger/nat_gainblk_i16n.c:47-65 | For the unit column i a matrix gain puts out its own column i, read column-major. |
| NativeLaws.OutputIsExactWhenItFits | ee_scicoslab/scicos_flex/dspic/NativeInteger/nat_gainblk_i16n.c:47-65 | Outputs are in range, and equal the exact value if and only if that is in range, however often partial sums overflowed. |
| NativeLaws.CascadeComposes | ee_scicoslab/scicos_flex/dspic/NativeInteger/nat_gainblk_i16n.c:39-65 | Two gains in a row, scalar or matrix, put out exactly what one gain does whose matrix the block itself computes from the two. |
| NativeLaws.CascadeOfMatrices | ee_scicoslab/scicos_flex/dspic/NativeInteger/nat_gainblk_i16n.c:47-65 | The same for two matrix gains, including a product that is 1 by 1. |
| NativeLaws.GainDistributesOverSum | ee_scicoslab/scicos_flex/dspic/NativeInteger/nat_summation_i16n.c:29-40 | A gain after a signed summation equals the summation of the gains. |
| NativeLaws.ScalarGainOfElementSum | ee_scicoslab/scicos_flex/dspic/NativeInteger/nat_summation_i16n.c:22-28 | A scalar gain commutes with the sum over the elements of one port. |
| DataModel.DataElement.constructor | ee_scicoslab/scicos_flex/dspic/common/data_model.c:73-79 | A fresh element is empty. |
| DataModel.DataElement.Create | ee_scicoslab/scicos_flex/dspic/common/data_model.c:118-133 | The element has the given items and a buffer as large as all their values, or none; creating without items keeps an old description. |
| DataModel.DataElement.GetOffsetAndSize | ee_scicoslab/scicos_flex/dspic/common/data_model.c:143-167 | In bounds, the place and size of the slot, inside the buffer; out of bounds it reports success all the same and leaves the results unset. |
| DataModel.DataElement.GetValue | ee_scicoslab/scicos_flex/dspic/common/data_model.c:81-99 | The value of its slot; with too little room nothing is copied though the size is returned as on success. Out of bounds it copies the range its unset variables name. |
| DataModel.DataElement.SetValue | ee_scicoslab/scicos_flex/dspic/common/data_model.c:101-116 | The slot holds the value afterwards, every other slot is unchanged, and a value of the wrong size changes nothing. Out of bounds it overwrites the range its unset variables name. |
| DataModel.SlotWithinData | ee_scicoslab/scicos_flex/dspic/common/data_model.c:160-163 | Every slot lies inside the buffer, so the assertion cannot fail. |
| DataModel.SlotsAscend | ee_scicoslab/scicos_flex/dspic/common/data_model.c:147-161 | Slots stand in the order of the items, and within an item in the order of its values. |
| DataModel.OneOfEachType | ee_scicoslab/scicos_flex/dspic/common/data_model.c:61-63 | The places of one value of each type, after one another. |
| DataModel.SlotsAreDisjoint | ee_scicoslab/scicos_flex/dspic/common/data_model.c:152-161 | Two different slots share no byte. |
| DataModel.EveryByteHasASlot | ee_scicoslab/scicos_flex/dspic/common/data_model.c:122-125 | Every byte of the buffer belongs to a slot: with disjointness, the slots tile it. |
| DataModel.SlotsFitIff | ee_scicoslab/scicos_flex/dspic/common/data_model.c:160-161 | The assertion holds of every slot in bounds if and only if no item with values ends past the data. |
| DataModel.NegativeMultiplicityBreaksTheLayout | ee_scicoslab/scicos_flex/dspic/common/data_model.c:122-161 | Two bytes and a negative multiplicity: a slot in bounds on which the assertion fails. |
| DataModel.AssignInputData | ee_scicoslab/scicos_flex/dspic/SMCube/smcube_block_p.h:186-196 | Afterwards the whole buffer is the input ports one after the other. |
| DataModel.AssignOutputData | ee_scicoslab/scicos_flex/dspic/SMCube/smcube_block_p.h:198-208 | Afterwards the front of every output port is its item; the rest of each port is untouched. |
| DataModel.PortsComeBack | ee_scicoslab/scicos_flex/dspic/SMCube/smcube_block_p.h:186-208 | Output assigned after input on one layout gives back the front of every port, as many bytes as its item has. |
| CommChannel.Channel.Write | ee_scicoslab/scicos_flex/dspic/common/comm_channel_linux.c:333-353 | A write succeeds if and only if the sends before the first failing one take all of the data, however short; what goes out is the data up to there, in order. Both are the same for the script with its interruptions removed, but for a write of nothing that is interrupted. |
| CommChannel.InterruptionsDoNotCount | ee_scicoslab/scicos_flex/dspic/common/comm_channel_linux.c:342-348 | An interruption anywhere among the sends is retried and changes nothing of what they take. |
| CommChannel.SendsAddUp | ee_scicoslab/scicos_flex/dspic/common/comm_channel_linux.c:350-351 | Two short sends take what one longer one does; an error is the end. |
| CommChannel.Channel.Read | ee_scicoslab/scicos_flex/dspic/common/comm_channel_linux.c:383-404 | A read succeeds if and only if the bytes requested (cut to the room) are there and the receives before the first that fails or brings nothing bring them, however short; it consumes exactly those it returns, in order, even on failure. |
| CommChannel.ReceivesAddUp | ee_scicoslab/scicos_flex/dspic/common/comm_channel_linux.c:388-402 | Two short receives bring what one longer one does; an error or a receive of nothing is the end. |
| CommChannel.Channel.WriteUpdate | ee_scicoslab/scicos_flex/dspic/SMCube/smcube_block.c:264-274 | Events and input go out as one unbroken message, or the prefix of it up to the failing send. |
| CommChannel.Channel.ReadUpdate | ee_scicoslab/scicos_flex/dspic/SMCube/smcube_block.c:275-289 | Output and events are the next bytes of the stream, if and only if both reads succeed; what was consumed on failure is what was returned. |
| CommChannel.BlockEnd.OutputUpdate | ee_scicoslab/scicos_flex/dspic/SMCube/smcube_block.c:250-296 | An update succeeds if and only if the engine still lives and both writes and both reads do; it then appends one whole message and consumes one whole reply. A failed one leaves a prefix of its message, and no further byte is ever sent. |
| CommChannel.DeframeMessages | ee_scicoslab/scicos_flex/dspic/SMCube/smcube_block.c:263-289 | A peer that cuts the stream into messages of the agreed size gets exactly the messages sent, even with a last one cut short. |
| CommChannel.EndsAgree | ee_scicoslab/scicos_flex/dspic/SMCube/smcube_block.c:263-289 | After any number of updates the engine reads exactly the messages of those that succeeded, and that of a failed one if and only if all of it went out; the block has received exactly the first replies of the engine. |
| UsbScicos.Library.constructor | ee_scicoslab/scicos_flex/flex_usb2udp_gateway/src/flex_usbscicos.c:27-40 | Nothing is registered and both counters stand at zero. |
| UsbScicos.Library.Init | ee_scicoslab/scicos_flex/flex_usb2udp_gateway/src/flex_usbscicos.c:120-185 | Registers a block of the given type, unless starting up fails; counters and frames are left alone. |
| UsbScicos.Library.Read | ee_scicoslab/scicos_flex/flex_usb2udp_gateway/src/flex_usbscicos.c:189-203 | One read call is one step of the reader. |
| UsbScicos.Library.Write | ee_scicoslab/scicos_flex/flex_usb2udp_gateway/src/flex_usbscicos.c:223-237 | One write call is one step of the session. |
| UsbScicos.Library.Open | ee_scicoslab/scicos_flex/flex_usb2udp_gateway/src/app_flex_scicos.c:106-138 | The thirty registrations: those before the first start that succeeds are refused, the rest counted; the result shown is negative only if all were refused. |
| UsbScicos.Library.FillDatagram | ee_scicoslab/scicos_flex/flex_usb2udp_gateway/src/app_flex_scicos.c:147-150 | With 15 read blocks the datagram to Scicos is one whole device frame. |
| UsbScicos.Library.SendFrame | ee_scicoslab/scicos_flex/flex_usb2udp_gateway/src/app_flex_scicos.c:163-168 | With 15 write blocks the received frame goes out whole in exactly one USB write. |
| UsbScicos.Library.Forward | ee_scicoslab/scicos_flex/flex_usb2udp_gateway/src/app_flex_scicos.c:145-172 | One turn of the main loop forwards one whole frame each way and leaves both counters at a pass boundary. |
| UsbScicos.CounterCountsCalls | ee_scicoslab/scicos_flex/flex_usb2udp_gateway/src/flex_usbscicos.c:189-203 | The read counter stays below the number of blocks, and the frame changes only at the first in-range call of a pass. |
| UsbScicos.OnePassOneFrame | ee_scicoslab/scicos_flex/flex_usb2udp_gateway/src/flex_usbscicos.c:189-203 | All in-range reads of one pass see one and the same frame. |
| UsbScicos.DatagramsAreWholeIff | ee_scicoslab/scicos_flex/flex_usb2udp_gateway/src/flex_usbscicos.c:189-203 | Reading channels 0 to 14 over and over, every datagram is one device frame, the one its first read saw, if and only if the number of read blocks is a multiple of 15. |
| UsbScicos.FirstStartDecides | ee_scicoslab/scicos_flex/flex_usb2udp_gateway/src/app_flex_scicos.c:107-150 | With the registrations of the gateway, every datagram is whole if and only if the first of them succeeds. |
| UsbScicos.OnePassOneWrite | ee_scicoslab/scicos_flex/flex_usb2udp_gateway/src/flex_usbscicos.c:223-237 | Every n in-range writes cause exactly one USB write, at the last of them, holding the latest value of every channel. |
| UsbScicos.SendsIff | ee_scicoslab/scicos_flex/flex_usb2udp_gateway/src/flex_usbscicos.c:120-237 | From a new library on, registrations and writes in any order: a write sends a frame if and only if the writes taken since the last one, this one included, are as many as the write blocks registered so far; the frame holds the latest value of every channel. |
| UsbScicos.StateCounts | ee_scicoslab/scicos_flex/flex_usb2udp_gateway/src/flex_usbscicos.c:120-237 | The state after any calls is told by counting them: blocks registered, writes since the last frame, latest values. |
| UsbScicos.CanSendIff | ee_scicoslab/scicos_flex/flex_usb2udp_gateway/src/flex_usbscicos.c:226-234 | Writes alone can ever make the library send if and only if the counter is below the number of blocks. |
| UsbScicos.SilentIffNeverLifted | ee_scicoslab/scicos_flex/flex_usb2udp_gateway/src/flex_usbscicos.c:128-237 | The library stays silent through any registrations and writes, and any writes after them, if and only if no registration among them lifts the number of blocks above the counter. |
| UsbScicos.EarlyWriteSilencesTheLibrary | ee_scicoslab/scicos_flex/flex_usb2udp_gateway/src/flex_usbscicos.c:128-237 | A write before the first write block is registered silences a library with that one block; a second one makes it able to send again: concrete calls. |
| LcdBuffer.RowsExtend | flex2pc_usb/dsPIC/main.c:42-56 | Text fed one character at a time is laid out in rows like the text as a whole. |
| LcdBuffer.RowsSpellText | flex2pc_usb/dsPIC/main.c:42-56 | Row after row, the layout spells the text, but for its newlines. |
| LcdBuffer.NewlineAfterFullRow | flex2pc_usb/dsPIC/main.c:43-55 | A newline right after an exactly full row leaves a blank row below it. |
| LcdBuffer.TwoShortLines | flex2pc_usb/dsPIC/main.c:43-55 | Two short lines stand at the left of the two rows, padded with spaces. |
| LcdBuffer.DisplayExtends | flex2pc_usb/dsPIC/main.c:43-55 | What one more character does to the last two rows, scrolling included. |
| LcdBuffer.PositionIsInSecondRow | flex2pc_usb/dsPIC/main.c:43-55 | The position is always 0 or in 16 to 31. |
| LcdBuffer.Lcd.constructor | flex2pc_usb/dsPIC/main.c:25-26 | Before any text the display is two rows of zero bytes. |
| LcdBuffer.Lcd.Put | flex2pc_usb/dsPIC/main.c:43-55 | One turn of the loop keeps the buffer equal to the last two rows of all text. |
| LcdBuffer.Lcd.LcdPuts | flex2pc_usb/dsPIC/main.c:39-58 | After any calls the 32 bytes are the last two rows of a terminal sixteen wide fed all the text, with an extra blank row for a newline right after a full row. |
| SprintfBlock.Snprintf | ee_scicoslab/scicos_flex/dspic/Misc/SprintfBlockDLL/sprintf_block.c:48-62 | The bounded formatter of the C library: no write past its size, a terminator only where there is room. |
| SprintfBlock.Generic | ee_scicoslab/scicos_flex/dspic/Misc/SprintfBlockDLL/sprintf_block.c:41-68 | A field shows, column by column, its text as far as it reaches and its width allows, then spaces, and only spaces for an unknown type; nothing outside it is written. |
| SprintfBlock.ShownAt | ee_scicoslab/scicos_flex/dspic/Misc/SprintfBlockDLL/sprintf_block.c:46-67 | Each column of a field of one of the five types is the character of the text there, or a space past its end; for any other type it is a space. |
| SprintfBlock.FieldAt | ee_scicoslab/scicos_flex/dspic/Misc/SprintfBlockDLL/sprintf_block.c:70-87 | Each field of the line stands at its own columns and uses the parameter numbered by the parameter-taking fields before it. |
| SprintfBlock.ParametersCount | ee_scicoslab/scicos_flex/dspic/Misc/SprintfBlockDLL/sprintf_block.c:75-83 | The parameters used before a field are as many as the fields before it that are not strings. |
| SprintfBlock.Build | ee_scicoslab/scicos_flex/dspic/Misc/SprintfBlockDLL/sprintf_block.c:70-87 | The buffer begins with the longest prefix of fields whose total width is below its size, each read at its own columns character by character, followed by one terminator; the rest is unchanged. |

## Left out

- StreamParserEncoders.StreamParserEncoder.ParseBytes: floats are their four bytes, so a bit converter that alters a signalling NaN is not captured; the debug log of checksum errors is not modelled.
- SerialUdpGateway.Gateway.SendPackets: a send either throws before it has any effect or succeeds; the message box is not modelled.
- ConfMux.Mux.ParseArguments: what the code writes past its table, which it does not check, is not modelled, nor are the writes made for a command line before it is rejected.
- ConfMux.Mux.PrintPermutations: past the end of the line buffer, which the code does not check, the lines are those of an unbounded buffer.
- ConfDemux.Demux: not for the empty argument, on which the code reads past the terminator.
- ConfDemux.Blank: not for the empty argument, for the same reason.
- FlexBusQueue.Channel.Get: starts where its wait ends; the wait itself is in FlexBusWakeup.
- FlexBusQueue.Channel.constructor: one channel, allocated successfully; the table of channels and its index are not modelled.
- FlexBusWakeup.NeverLostIff: critical sections are single steps, as the mutex makes them; priorities and fairness are not modelled.
- FlexUsbBridge.Bridge.FlexUsbProcess: bit fields are taken low bits first; the LED and the blocking wait for the USB endpoint are not part of the state.
- NativeBlocks.GainBlock: a product of two 16-bit values is exact before it is truncated, as where int has 32 bits; a narrowing store wraps and char is signed.
- NativeBlocks.SummationBlock: the 8-bit and 32-bit variants are the same loops; only 8 and 16 bits are modelled.
- DataModel.DataElement.GetOffsetAndSize: only where the assertion of the code holds, as it does unless a multiplicity is negative.
- DataModel.DataElement.GetValue: elements with a negative multiplicity are left out, and an out-of-bounds copy is modelled only where the unset variables name a range inside the buffer; any other is undefined in C.
- DataModel.DataElement.SetValue: likewise.
- DataModel.AssignOutputData: output ports are taken not to overlap.
- CommChannel.BlockEnd.OutputUpdate: the lookups of the block by its index are not modelled; both use the same table, so the second cannot fail after the first.
- CommChannel.Channel.Write: a call that is interrupted forever does not return in the code and has no counterpart in the model.
- UsbScicos.Library.Read: a partial USB read is taken in whole samples; without a registered read block the code divides by zero.
- UsbScicos.StateCounts: the counter is unbounded, so the return of the C int after its overflow is not captured.
- SprintfBlock.Generic: the text a C format and parameter produce is a parameter of the model.
- Closing and reopening the Scicos library, and the threads its build options leave out.
- Erasing data elements, the type mapping of the blocks, and the fixed-size read of the channel: easy members only.
- Sockets, serial ports, libusb, SPI and HID registers: inputs and logs of the model.
- `nat_gainblk_i32n.c`, whose row loop is emptied by a stray semicolon, and the unfinished `nat_product_i32n.c`.
- User interface, process launching, stub blocks, installers and scripts: nothing to prove.
