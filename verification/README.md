# Verified model of rotonde-uavtalk

rotonde-uavtalk is a bridge between a UAVTalk flight controller on a USB HID link and the rotonde
dispatcher, which it talks to over WebSocket. This project models the parts of it in which bytes,
frames and sessions have to be right, and proves what they promise, for every input and every run.

**The UAVTalk stack (`uavtalk/`).** Definition files become object layouts and object IDs (`Schema`,
`SchemaLaws`, `Layout`, `Definitions`, `ObjectIds`, `Registry`). A schema-driven codec turns values into payload bytes and back
(`Payload`, `PayloadLaws`). Packets put a header and a CRC-8 around a payload (`Crc8`, `CrcDetection`,
`CrcPairs`, `Packets`), and `PacketFormat` gives every byte of them as a number. The USB link cuts packets into 64-byte reports (`UsbLink`). The receiver finds frames in the
byte stream again (`Deframer`, `DeframerLaws`, `Receiver`), and `CrashLaws` says which frames take the process
down. `EndToEnd` composes all of it: every sequence
of messages that goes in at one end comes out at the other, in order, with an empty buffer left, however
the bytes are cut into reads. `Loading` joins the two halves: what processing the definition files guarantees
is what the codec, the registry and the deframer ask for.

**The session (`main.go`).** The two handlers that share the connection state are a class proved against
a step function (`Session`). Invariants hold over every sequence of incoming packets. `SessionFetch`
composes the handlers with a controller in lock step and proves that a fresh process asks for the
controller's whole object list, in order, and exactly when it gets all of it.

**The WebSocket framing layer (vendored gorilla/websocket).** `WsFrames` and `WsMessages` say what frames
and messages are (sections 5.2 to 5.4 of RFC 6455), and `WsFormat` gives their bytes as numbers. `WsWriter` and `WsReader` are the two halves of a
connection, buffer and cursor included, on a network that may fail at any write. `WsRoundTrip` proves what the
peer reads of everything written, closed or not, complete or cut anywhere. `WsWireOrder` is the token protocol
between goroutines and proves the order on the wire for every interleaving, from nothing but the data writer's
own record of its frame type; `WsSharedWire` adds what the peer reads meanwhile.

Code that updates state is modelled by classes and methods over the same fields and buffers; each method is
tied to a function of its inputs or of the old state, and the theorems are about those functions. A byte is
an integer in [0, 256), and wider integers wrap where the source's types do. `Outcome` is a Go call that
returns a value, returns an error, or panics. Clock values, masking keys, the number of bytes that a read
yields and the point at which the device or the network fails are parameters or arbitrary choices.

## What turned out to be false

Some properties that one would expect do not hold of the code. Each is given with inputs on which it fails and
with the exact condition under which it holds.

- A corrupted frame is not always rejected where it stands. A sync byte directly before a frame reads its
  length from the frame's command byte, so damage to that byte can make the scan settle on the stray byte
  (`DeframerLaws.StrayStartHidesFrame`). The frame is judged in place exactly when no such byte reads a
  plausible length (`DeframerLaws.DamagedScan`).
- The announced packet length is the real one exactly when it fits 16 bits (`Packets.WireLength`); messages of
  every greater length can be sent (`Packets.LongMessageIsMisannounced`).
- An element of the wrong dynamic type is skipped without an error, a missing one included
  (`PayloadLaws.MissingValueIsSkipped`), so an accepted field has the length that the header announces exactly
  when enough elements convert (`PayloadLaws.FieldLengthExact`).
- A signed element of 8 or 16 bits comes back as the integer sent exactly when it is not negative
  (`PayloadLaws.SignedComesBackIff`).
- A command survives the version bit exactly when it does not use that bit (`Packets.VersionRoundTrip`).
- A clone of a later clone stays without type information (`Schema.CloneOfLaterClone`), and so does every clone
  whose chain does not resolve, and no other field (`Schema.FieldProcessResolves`).
- A negative element count is kept (`Schema.NegativeCountIsKept`); counts and names agree exactly when the field
  that gives the shape names its elements or does not declare a negative count (`Schema.FieldProcessCounts`).
- The fields of a metadata object are never sorted, so they are not aligned (`Registry.MetaIsNotAligned`).
- The byte count that `usbLink.Write` returns is the number of bytes written exactly when 62 divides that
  number (`UsbLink.ReportCount`).
- The reset of a session and a fetch of index 0 under session ID 0 are the same packet. When the clock gives that ID,
  the controller answers the first fetch as a reset, and a known first object is lost
  (`SessionFetch.ZeroSessionLosesFirst`). A fresh process fetches all known objects exactly when the ID is not 0 or
  the first object is not known (`SessionFetch.FetchComplete`).
- The fetch index survives a restart of the session while the list of active objects is cleared. A controller
  that restarts after a complete fetch leaves the process without any active object (`SessionFetch.RestartForgets`).
  A restarted fetch is complete exactly when nothing known lies below the first index it gets to see
  (`SessionFetch.RestartLosesFetched`).
- `messageReader.Read` ends every message with io.EOF, but it also returns io.EOF when the stream ends inside the
  payload of any data frame or continuation, so a cut message looks complete; a cut anywhere else is reported
  (`WsRoundTrip.CutLooksComplete`, `WsRoundTrip.WholeIffComplete`). Only one more read tells the two apart
  (`WsRoundTrip.ReadPastEnd`).

One disagreement between text and code: the panic messages of `byteArrayToInt16` and `byteArrayToInt32` speak of
"at least" two and four bytes, while the code accepts exactly two and four. The model follows the code.

## Model

| member | source | states |
|---|---|---|
| `EndToEnd.Transfer` | uavtalk/uavtalk.go:226-296 | Running the whole stack on any sequence of sendable messages (encode, cut into reports, read the reports, strip, decode) delivers exactly these messages in order, without a crash and with an empty buffer |
| `Loading.LoadAndTransfer` | uavtalk/uavtalk.go:190-318 | From parsed definition files to delivered messages: load, compute the limit, send, receive; every message about a loaded object that fits a packet arrives, in order |
| `Loading.LoadedSendable` | uavtalk/uavtalk.go:138-188 | On a registry loaded from sound files with distinct IDs, every message that may be asked for meets what the codec and the lookup need |
| `Loading.SetupWellFormed` | uavtalk/definitions.go:171-222 | A loaded layout has usable element counts and names exactly when no field takes its shape from one with a negative count |
| `Loading.SetupDistinct` | uavtalk/definitions.go:171-222 | Distinct field names in the file stay distinct through processing and sorting |
| `Loading.LoadedFields` | uavtalk/uavtalk.go:303-316 | Every loaded layout, those of metadata objects included, is one the codec can rely on |
| `Loading.LoadedUsable` | uavtalk/uavtalk.go:303-316 | Every registry loaded from sound files meets what the exact crash condition asks for |
| `Loading.LoadedBases` | uavtalk/uavobjectid.go:67-67 | The IDs of all objects that load are even |
| `Loading.LookupFinds` | uavtalk/definitions.go:21-28 | Looking up any loaded object by its ID returns that object, when the base IDs are distinct |
| `Loading.LoadAll` | uavtalk/uavtalk.go:297-318 | The loop returns every object followed by its metadata object, or the outcome of the first file that does not load |
| `EndToEnd.StreamDelivers` | uavtalk/uavtalk.go:236-271 | For every sequence of messages and every way of cutting their bytes into reads, the reader delivers exactly the messages in order and is left with nothing |
| `EndToEnd.SendAll` | uavtalk/uavtalk.go:274-294 | The device receives exactly the reports of all messages, although the write buffer is reused from message to message |
| `EndToEnd.ReceiveAll` | uavtalk/uavtalk.go:236-271 | The frame reader has been given exactly the payload bytes of the reports |
| `EndToEnd.AllReportsRoundTrip` | uavtalk/links.go:70-107 | The reports of all messages carry the concatenated packets and nothing else, whatever the buffer held before |
| `EndToEnd.WireIsFrame` | uavtalk/uavtalk.go:42-84 | Every encoded message is a frame that the deframer accepts: sync byte, exact length, plausible length, right checksum |
| `EndToEnd.FrameDelivers` | uavtalk/uavtalk.go:252-257 | A stripped frame of a sent message is decoded to that message |
| `EndToEnd.LimitSuffices` | uavtalk/uavtalk.go:199-209 | With the limit computed from the loaded definitions, a sendable message gets through exactly when its own length fits 16 bits |
| `Receiver.ChunkIndependence` | uavtalk/uavtalk.go:246-270 | However a byte stream is cut into reads, the same frames and rejections are stripped and the same bytes are left |
| `Receiver.FrameReader.Feed` | uavtalk/uavtalk.go:237-271 | After any series of reads, the reported events, a crash and the buffer are a function of the bytes received so far, not of the reads |
| `Receiver.FrameReader.StripAll` | uavtalk/uavtalk.go:246-270 | One pass of the inner loop ends, and brings events and buffer to what stripping the whole stream at once gives |
| `Receiver.FrameReader.constructor` | uavtalk/uavtalk.go:234-236 | A new reader has seen no byte and reported nothing |
| `Receiver.MidwayStep` | uavtalk/uavtalk.go:248-269 | Stripping and judging one frame keeps what the loop has done so far in step with the whole stream, or crashes where the whole stream crashes |
| `Receiver.CrashIsFinal` | uavtalk/uavtalk.go:252-257 | After a panic in decoding, nothing that follows changes what was reported |
| `CrashLaws.StreamCrashesIff` | uavtalk/uavtalk.go:246-270 | For every stream and every cutting into reads, the process crashes exactly when the deframer finds a frame with a right checksum that is too short for its known object's header or has an enum byte without an option |
| `CrashLaws.DecodedPanicsIff` | uavtalk/uavtalk.go:138-168 | Decoding panics exactly on such a frame |
| `CrashLaws.PlayedCrashesIff` | uavtalk/uavtalk.go:248-269 | A series of stripped frames crashes the loop exactly when one of them does, wherever it stands |
| `Receiver.DecodedLocal` | uavtalk/uavtalk.go:138-168 | Decoding looks at no byte beyond the frame and the eight header bytes, although Go lets it re-slice further |
| `Deframer.PacketComplete` | uavtalk/uavtalk.go:102-136 | The restart loop over sync bytes returns the outcome at the least plausible start: a right frame, a wrong checksum over its range, or a request for more bytes |
| `PacketFormat.ScanFormat` | uavtalk/uavtalk.go:102-136 | For every buffer, in numbers: the scan settles on the first 0x3c with eight bytes and an announced length of at most ten more than the limit, waits for that length and one byte, and judges them by the bit-serial CRC-8 |
| `PacketFormat.ScanFindsNothing` | uavtalk/uavtalk.go:102-115 | Without such a place the scan asks for more bytes |
| `PacketFormat.FrameIsFound` | uavtalk/uavtalk.go:102-136 | A frame given by its numbers is found behind bytes without 0x3c, whatever follows |
| `PacketFormat.PacketIsWholeFrame` | uavtalk/uavtalk.go:42-136 | Every sent message whose length fits 16 bits and the limit is such a frame |
| `Deframer.FirstCandidate` | uavtalk/uavtalk.go:103-123 | The offset is the least one with a sync byte, a whole short header and a plausible length; every earlier offset lacks one of them |
| `Deframer.DecidedStays` | uavtalk/uavtalk.go:102-136 | A decided outcome never changes when bytes are appended |
| `Deframer.StripsExtend` | uavtalk/uavtalk.go:246-270 | Stripping a longer stream is stripping its beginning and then the residue with the new bytes |
| `Deframer.Conservation` | uavtalk/uavtalk.go:248-269 | Skipped bytes, stripped frames and residue concatenate back to the input |
| `Deframer.Residue` | uavtalk/uavtalk.go:248-269 | Every strip shrinks the buffer, so the loop ends, and in what is left the scan asks for more bytes |
| `DeframerLaws.Recovery` | uavtalk/uavtalk.go:102-136 | Valid frames separated by bytes without a sync byte are all recovered, in order, and nothing else is reported |
| `DeframerLaws.FrameIsScanned` | uavtalk/uavtalk.go:102-136 | Behind bytes without a sync byte, a valid frame is found at exactly its own range, whatever follows it |
| `DeframerLaws.GarbageIsQuiet` | uavtalk/uavtalk.go:112-114 | Bytes without a sync byte are kept and reported as nothing |
| `DeframerLaws.DamagedScan` | uavtalk/uavtalk.go:115-134 | Damage that spares sync and length bytes is judged over the same range, accepted iff its error pattern has residue 0, exactly when no sync byte just before the frame reads a plausible length |
| `DeframerLaws.DamageDetected` | uavtalk/uavtalk.go:128-134 | Under that condition a burst within eight bits, or an odd number of flipped bits, is reported as a wrong checksum over the same range |
| `DeframerLaws.PairJudged` | uavtalk/uavtalk.go:128-134 | Under that condition two flipped bits are accepted over the same range exactly when 127 divides their distance |
| `DeframerLaws.StrayStartHidesFrame` | uavtalk/uavtalk.go:104-123 | Without it, for every object ID and every limit from 50 to 7999, one flipped bit behind a stray sync byte is not reported over the frame's range |
| `Packets.PacketRoundTrip` | uavtalk/uavtalk.go:42-188 | Decoding an encoded packet, whatever is buffered behind it, gives the same definition, command, length, instance and data, for all five commands |
| `Packets.ToBinary` | uavtalk/uavtalk.go:42-84 | The growing buffer ends as header, payload and checksum of the two, or the payload's error |
| `PacketFormat.PacketBytes` | uavtalk/uavtalk.go:42-84 | Every byte of every sendable message as a number: 0x3c, 32 plus the command, length, object ID and instance ID with their weights, the payload for the commands 0 and 2 only, and the bit-serial CRC-8 of all that |
| `PacketFormat.HeaderFormat` | uavtalk/uavtalk.go:42-69 | The 8 or 10 header bytes as numbers, for every command below 32 |
| `PacketFormat.BareCommands` | uavtalk/uavtalk.go:42-84 | The commands 1, 3 and 4 can be sent for every known object and are a header and a checksum |
| `PacketFormat.DecodedFormat` | uavtalk/uavtalk.go:138-168 | A decoded packet has the definition, command, length and instance ID that the header bytes give with their weights |
| `Packets.NewPacketFromBinary` | uavtalk/uavtalk.go:138-168 | The packet, the error or the panic that the slice and the bytes up to its capacity determine, for slices of any length |
| `Packets.WireLength` | uavtalk/uavtalk.go:170-188 | The packet is one byte longer than announced exactly when its length fits 16 bits, and never shorter; with data, its length is the object length that bounds the deframer |
| `Packets.LongMessageIsMisannounced` | uavtalk/uavtalk.go:182-186 | For every payload from 65528 bytes on, a message can be sent whose header announces another length than it has |
| `Packets.VersionRoundTrip` | uavtalk/uavtalk.go:49-51 | Setting the version bit and flipping it back returns the command exactly when the command does not use that bit |
| `Packets.SendableEncodes` | uavtalk/uavtalk.go:170-188 | The length computed before encoding is the length of header and payload modulo 2^16 |
| `Packets.HeaderFields` | uavtalk/uavtalk.go:142-153 | Every header field is found in the encoded packet where the decoder looks for it |
| `PayloadLaws.PayloadRoundTrip` | uavtalk/maptouavtalk.go:93-102 | Decoding the encoding of well-typed data returns every field's value in all three shapes and nothing else; the payload has the schema's length; bytes behind it do not matter |
| `PayloadLaws.FieldRoundTrip` | uavtalk/uavtalktomap.go:71-101 | Scalars, arrays and named elements come back at any position in the payload, and the cursor stops behind them |
| `PayloadLaws.ItemsRoundTrip` | uavtalk/maptouavtalk.go:67-84 | A list of elements comes back element by element, at any position |
| `PayloadLaws.ScalarRoundTrip` | uavtalk/maptouavtalk.go:19-57 | An element takes its type's size and comes back, 16-bit signed ones modulo 2^16, enums as their option |
| `PayloadLaws.SignedComesBackIff` | uavtalk/uavtalktomap.go:13-24 | A signed element of 8 or 16 bits comes back as the integer sent exactly when it is not negative |
| `PayloadLaws.DecoderExact` | uavtalk/uavtalktomap.go:103-116 | On every payload: panic iff a present enum byte is out of range, otherwise error iff the payload is shorter than the schema, otherwise success after reading exactly the schema's length |
| `PayloadLaws.DecoderInjective` | uavtalk/uavtalktomap.go:103-116 | With distinct names and options, no two payloads of the schema's length decode to the same values |
| `PayloadLaws.FieldLengthExact` | uavtalk/maptouavtalk.go:59-91 | An accepted field has its announced length exactly when it supplies as many convertible elements as the schema has |
| `PayloadLaws.ItemsLength` | uavtalk/maptouavtalk.go:19-24 | Elements of the wrong dynamic type leave no byte behind |
| `PayloadLaws.MissingValueIsSkipped` | uavtalk/maptouavtalk.go:19-24 | A value missing in the data is accepted for a scalar field and leaves no byte, so the announced length is wrong |
| `Payload.ValueForEnumString` | uavtalk/maptouavtalk.go:10-17 | The search loop returns the first option's index modulo 256, or an error iff no option matches |
| `Payload.WriteToUAVTalk` | uavtalk/maptouavtalk.go:19-57 | Appends exactly the element's bytes, with a recovered conversion appending nothing |
| `Payload.WriteItems` | uavtalk/maptouavtalk.go:67-71 | The loop appends all elements' bytes, or fails at the first bad one |
| `Payload.InterfaceToUAVTalk` | uavtalk/maptouavtalk.go:59-91 | Appends the field's bytes according to its shape, or fails on a value of another shape |
| `Payload.MapToUAVTalk` | uavtalk/maptouavtalk.go:93-102 | The loop returns the concatenation of all fields' bytes, or an error as soon as one fails |
| `PacketFormat.PayloadFormat` | uavtalk/maptouavtalk.go:19-99 | Every element of typed data is in the payload behind all earlier fields and the earlier elements of its own, in the order of the names: an integer or float bits with their weights, or the place of the first equal option |
| `PacketFormat.ElementFormat` | uavtalk/maptouavtalk.go:19-57 | The bytes of one element of each type, as numbers |
| `Payload.ReadFromUAVTalk` | uavtalk/uavtalktomap.go:9-69 | Takes exactly the element's bytes from the cursor, fails when they are missing, panics on an enum byte beyond the options |
| `Payload.ReadArray` | uavtalk/uavtalktomap.go:73-82 | The loop reads all elements in order, or ends with the first failure |
| `Payload.ReadNamed` | uavtalk/uavtalktomap.go:83-92 | The loop reads all elements under their names, a later duplicate replacing an earlier one, and panics at the first element without a name |
| `Payload.UAVTalkToInterface` | uavtalk/uavtalktomap.go:71-101 | Reads any field in the shape that its schema gives it, one with a negative count as a scalar, and leaves the cursor behind it |
| `Payload.UAVTalkToMap` | uavtalk/uavtalktomap.go:103-116 | One cursor passed through all fields gives every field's value under its name, or the first failure |
| `Payload.OptionIndex` | uavtalk/maptouavtalk.go:11-15 | The least index at which the option occurs, or the number of options |
| `Crc8.ComputeCrc8` | uavtalk/crc8.go:22-27 | The table-driven loop computes the checksum that eight turns of the shift register per byte define |
| `Crc8.TableIsShiftRegister` | uavtalk/crc8.go:3-20 | Each of the 256 table entries is its index after eight turns of the register of x^8 + x^2 + x + 1 |
| `Crc8.CrcIsBitSerial` | uavtalk/crc8.go:22-27 | For every initial value and byte string the checksum is the bit-serial one, most significant bit first |
| `Crc8.CrcConcat` | uavtalk/crc8.go:22-27 | The checksum of a concatenation continues from the checksum of its first part |
| `Crc8.CrcLinear` | uavtalk/crc8.go:22-27 | The checksum is linear under exclusive or of equally long strings and initial values |
| `CrcDetection.CrcIsRemainder` | uavtalk/crc8.go:3-27 | Coefficient by coefficient, message times x^8 is quotient times generator plus checksum |
| `CrcDetection.ValidIffResidueZero` | uavtalk/uavtalk.go:128-134 | Comparing the last byte with the checksum is checking that the whole frame has residue 0 |
| `CrcDetection.UndetectedIff` | uavtalk/uavtalk.go:128-134 | An error pattern goes unnoticed exactly when it has residue 0 itself |
| `CrcDetection.BurstsDetected` | uavtalk/uavtalk.go:128-134 | No nonzero error confined to eight consecutive bits turns a valid frame into a valid one |
| `CrcDetection.OddErrorsDetected` | uavtalk/uavtalk.go:128-134 | No odd number of flipped bits turns a valid frame into a valid one |
| `CrcPairs.PairsUndetectedIff` | uavtalk/uavtalk.go:128-134 | Two flipped bits turn a valid frame into a valid one exactly when 127 divides their distance |
| `CrcPairs.ShortFramesDetectPairs` | uavtalk/uavtalk.go:128-134 | In a frame of at most 15 bytes every two flipped bits are noticed |
| `CrcPairs.PeriodIff` | uavtalk/crc8.go:3-27 | Turning the register with only its top bit set brings it back exactly after the multiples of 127 |
| `UsbLink.Link.Write` | uavtalk/links.go:70-93 | The device gets exactly the reports that carry the bytes, or on a device failure exactly those accepted before it; the count is 62 per accepted report |
| `UsbLink.Link.Fill` | uavtalk/links.go:79-82 | The reused buffer holds report ID, length and fragment, and stale bytes behind them |
| `UsbLink.Device.Write` | uavtalk/links.go:84-87 | The device takes a whole report or fails without taking anything |
| `UsbLink.Read` | uavtalk/links.go:95-107 | The caller's buffer is the report shifted by two, the count its length byte |
| `UsbLink.ReportsRoundTrip` | uavtalk/links.go:70-107 | Reading back the reports of a write gives the bytes written, whatever was left in the write buffer |
| `UsbLink.FragmentRoundTrip` | uavtalk/links.go:70-107 | Reading one report gives its fragment, untouched by the stale bytes |
| `UsbLink.ReportCount` | uavtalk/links.go:88-92 | One report for every 62 bytes begun; the returned count is the number of bytes exactly when 62 divides it |
| `UsbLink.ReportBytes` | uavtalk/links.go:70-93 | Report k of every write has 64 bytes: 2, the length of a fragment of at most 62, and the bytes from 62 k on |
| `Schema.FieldProcess` | uavtalk/definitions.go:171-213 | Succeeds exactly when all types are known and all clone targets exist, and then leaves the processed fields in place |
| `Schema.PrepareFields` | uavtalk/definitions.go:174-198 | The first pass fails exactly on an unknown type and otherwise prepares every field that is not a clone |
| `Schema.ResolveClones` | uavtalk/definitions.go:201-211 | The in-place second pass fails exactly on a missing target; a clone of an earlier clone gets the resolved field |
| `Schema.FieldForName` | uavtalk/definitions.go:94-101 | The first field of that name, or none |
| `Schema.FieldProcessResolves` | uavtalk/definitions.go:171-213 | A processed field has type information exactly when its chain of clones resolves, and is then the prepared field at the end of the chain under its own name |
| `Schema.CloneOfLaterClone` | uavtalk/definitions.go:201-211 | A clone of a clone that stands behind it is left without a type, although the chain ends in a real field |
| `Schema.FieldProcessCounts` | uavtalk/definitions.go:179-188 | At least one element, and none or all of them named, exactly when the field at the end of the chain names its elements or does not declare a negative count |
| `Schema.NegativeCountIsKept` | uavtalk/definitions.go:179-188 | A negative count without element names survives processing |
| `Schema.ClonedIsRoot` | uavtalk/definitions.go:201-211 | Copying clones in file order gives each the field at the end of its chain |
| `Schema.SplitList` | uavtalk/definitions.go:184-191 | Splitting a list attribute gives items without commas that joined with commas are the attribute, which leaves no other result |
| `SchemaLaws.JoinSplits` | uavtalk/definitions.go:184-191 | Splitting items joined with commas gives the items back, so a list has exactly one reading |
| `SchemaLaws.SanitizeKeeps` | uavtalk/definitions.go:224-229 | Sanitizing keeps, in their order, exactly the characters that are no line break, no tab and no space right behind a comma |
| `SchemaLaws.PreparedLists` | uavtalk/definitions.go:179-192 | A prepared field has the options and names of its attributes, or without an attribute those listed one by one, and as many elements as names |
| `SchemaLaws.ProcessedLists` | uavtalk/definitions.go:171-213 | Every processed field whose chain of clones resolves has its own name and, from the field at the end of the chain, the type, the items of the options attribute, the items of the names attribute and the element count |
| `SchemaLaws.FieldTypeTable` | uavtalk/definitions.go:60-79 | A type name has an index and a size exactly as one of eight rows of numbers says; every other name is unknown |
| `Layout.SortStable` | uavtalk/definitions.go:216-222 | Sorting in place through Less and Swap gives the stable order by descending size |
| `Layout.SwapIntoPlace` | uavtalk/definitions.go:107-113 | Adjacent swaps move a field behind exactly the fields that are not smaller |
| `Layout.Swap` | uavtalk/definitions.go:111-113 | Exchanges two fields and leaves the others |
| `Layout.BySizeIsStable` | uavtalk/definitions.go:220-220 | The order keeps every size class in its given order |
| `Layout.BySizePermutes` | uavtalk/definitions.go:220-220 | The sorted fields are a permutation of the given ones |
| `Layout.BySizeDescends` | uavtalk/definitions.go:107-109 | Sizes never increase |
| `Layout.StableSortUnique` | uavtalk/definitions.go:220-220 | Any order that descends and keeps every size class is this one, so the sorting algorithm does not matter |
| `Layout.SortedIsAligned` | uavtalk/definitions.go:60-69 | In a sorted layout every element lies at a multiple of its own size |
| `Layout.ComputeByteLength` | uavtalk/definitions.go:85-91 | The loop gives the sum of size times count over all fields |
| `Definitions.FinishSetup` | uavtalk/definitions.go:216-222 | Error on an unknown type or target; panic on an unresolved clone, unless it is the only field, which is never compared; otherwise the processed fields in stable order by size |
| `Definitions.LoadDefinition` | uavtalk/uavtalk.go:320-341 | Setup and object ID together: the definition, the error, or the panic on a missing type, wherever it is met |
| `ObjectIds.LoadedParts` | uavtalk/uavtalk.go:320-341 | A definition loads exactly when its setup gives sorted fields, and then has its own name and flags in their places, those fields, and the ID of their numbers |
| `Definitions.CanonicalLayout` | uavtalk/definitions.go:171-222 | Two definition files whose fields agree within each element size get the same layout |
| `Definitions.CanonicalDefinition` | uavtalk/uavtalk.go:320-341 | Such files load without an error, to the same definition with the same object ID |
| `Definitions.CalculateID` | uavtalk/uavobjectid.go:48-68 | The hash run over name, flags and fields in order, with its lowest bit cleared |
| `ObjectIds.MixIntDigits` | uavtalk/uavobjectid.go:14-16 | In 32 binary digits: a hash is the mixed one exactly when its digits are those of the old hash, flipped where the sum of the digits moved up five places, the digits moved down two places and the value has a one |
| `ObjectIds.ShiftsExist` | uavtalk/uavobjectid.go:14-16 | The two moved numbers of that law exist for every hash |
| `ObjectIds.MixStringConcat` | uavtalk/uavobjectid.go:26-35 | A string is mixed in piece by piece |
| `ObjectIds.ObjectIDNumbers` | uavtalk/uavobjectid.go:48-68 | The object ID is one fold from 0 over the name's Latin-1 codes, the two flags and, field after field, name, element count, type index and for enums the options, with its lowest digit cleared |
| `ObjectIds.ObjectIDOfA` | uavtalk/uavobjectid.go:48-68 | The object named A without fields, neither settings nor single instance, has the ID 71756 |
| `Definitions.ClearLowBit` | uavtalk/uavobjectid.go:67-67 | Object IDs are even |
| `Definitions.MixIntInjective` | uavtalk/uavobjectid.go:14-16 | Mixing different 32-bit values into the same hash gives different hashes, wrap-around included |
| `Definitions.LastTypeMatters` | uavtalk/uavobjectid.go:55-67 | Changing the type of the last field from one type that is not an enum to another always changes the hash; the object ID stays the same exactly when the two hashes differ in nothing but the dropped bit |
| `Definitions.FlagsMatter` | uavtalk/uavobjectid.go:18-24 | An object without fields has different hashes with and without the single-instance flag |
| `Definitions.Hash.UpdateHashWithString` | uavtalk/uavobjectid.go:26-35 | A string is mixed in byte by byte, from its first byte on |
| `Definitions.Hash.UpdateHashWithOptions` | uavtalk/uavobjectid.go:60-64 | Options are mixed in one after the other |
| `Registry.LookupExact` | uavtalk/definitions.go:21-28 | Looking up every loaded object by its own ID finds that very object exactly when the base IDs are pairwise distinct |
| `Registry.LoadedIDs` | uavtalk/uavtalk.go:303-316 | The IDs of all objects and metadata objects are distinct exactly when the base IDs are |
| `Registry.MetaIDIsOdd` | uavtalk/definitions.go:242-242 | The metadata ID is the base ID plus one, without wrap-around |
| `Registry.MetaParts` | uavtalk/definitions.go:236-252 | Whatever the parent, its metadata object is a single instance, no settings object, named after it, has the next ID on 32 bits and is 15 bytes long with its header |
| `Registry.MetaFields` | uavtalk/definitions.go:247-252 | Processing the four raw metadata fields gives these types and one element each, in this order |
| `Registry.Loaded` | uavtalk/uavtalk.go:303-316 | Every object is followed by its metadata object, in loading order |
| `Registry.GetDefinitionForObjectID` | uavtalk/definitions.go:21-28 | The first definition with that ID, or an error |
| `Registry.MetaIsNotAligned` | uavtalk/definitions.go:247-252 | Some metadata field starts at an offset that its size does not divide |
| `Registry.MaxObjectLength` | uavtalk/uavtalk.go:199-209 | The loop returns a length that no loaded object exceeds and that one of them has, unless it is 0 |
| `Session.FetchSafety` | main.go:91-157 | On every run the packets sent right behind an ack carry the indices 0, 1, 2, ... without gap or repetition and all the same session ID, every other packet of that kind is a reset, and the 8-bit counter is the number of fetches, so it never wraps |
| `Session.AckAccounting` | main.go:96-98 | On every run, the acks sent are as many as the acknowledged updates received |
| `Session.FetchAccounting` | main.go:96-157 | On every run, every ack goes with exactly one fetch packet or one end of the fetch |
| `Session.HandshakeAccounting` | main.go:54-89 | On every run, the connection flag is up iff a Connected status was handled since the last Disconnected one; handshake requests and confirmations are counted exactly; session requests never exceed one plus the Disconnected statuses |
| `Session.ActiveDefinitions` | main.go:100-109 | On every run, the object IDs of the active definitions are, in order, exactly the nonzero IDs of the acknowledged updates since the last reset that some loaded definition has, and each active definition is the first loaded one with its ID |
| `Session.ActiveIsFixed` | main.go:100-109 | That leaves no choice: two lists of definitions for the same IDs are equal |
| `Session.AnsweredByCommand` | main.go:82-177 | By command number: 2 is acknowledged and followed by one packet, 0 of another session is answered with session ID 0 and index 0, every other command changes nothing |
| `Session.StepFetches` | main.go:150-156 | Every step keeps the fetch packets in order, advances the counter by at most one and never changes the session ID of a fetch under way |
| `Session.StepOutputs` | main.go:55-177 | Exactly which packets one incoming packet causes, in which order, and what becomes of the connection flag |
| `Session.AuthHandlers.DisconnectedHandler` | main.go:55-68 | The shared state and the sent packets after the first handler |
| `Session.AuthHandlers.SessionHandler` | main.go:82-177 | The shared state and the sent packets after the second handler, for every command and status |
| `Session.AuthHandlers.Handle` | main.go:179-182 | Both handlers in the order in which they are attached make one step of the state machine |
| `Session.AuthHandlers.constructor` | main.go:46-81 | The initial state, with one handshake request sent |
| `SessionFetch.FetchComplete` | main.go:82-177 | A fresh process and a lock-step controller with N objects, N at most 255, that sees only packets end after N + 1 acknowledged updates with nothing left to answer and every index asked for once and in order; the active definitions are all known objects in index order exactly when the clock gives a session ID other than 0 or the first object is not known; they are the first loaded definitions for the loaded nonzero IDs of the controller's list, without its first object when the ID is 0 |
| `SessionFetch.ZeroSessionLosesFirst` | main.go:150-166 | When the clock gives session ID 0, the first fetch is the same packet as the reset before it, and a known first object is lost, for every object list |
| `SessionFetch.FetchFrom` | main.go:111-156 | From the current index on, the exchanges fetch every index up to the client's target in order and end with nothing left to answer, whatever the controller announces; under session ID 0 index 0 is answered as a reset; the measure is the number of indices left |
| `SessionFetch.RestartLosesFetched` | main.go:165-168 | A restarted session with any object list fetches only from the old counter on, and ends with all known objects exactly when none below the first index it gets to see is known, which is 1 for a fetch from 0 under session ID 0; fewer objects end it at once, none leave the old number; the active definitions are the first loaded ones for the loaded nonzero IDs from that index on |
| `SessionFetch.RestartForgets` | main.go:82-177 | After a first session, complete exactly under the condition of the first fetch, a controller that disconnects and comes back with the same objects leaves the process with no active definition |
| `SessionFetch.Reconnects` | main.go:55-89 | From any state with nothing left to answer, a Disconnected status leads in three exchanges to a reset with the active definitions cleared and the counter kept |
| `WsRoundTrip.Exchange` | Godeps/_workspace/src/github.com/gorilla/websocket/conn.go:310-763 | For every payload, split into writes, buffer size, read size, role and masking key, the peer reads the same opcode and bytes and then the end of the message |
| `WsRoundTrip.WireReadsBack` | Godeps/_workspace/src/github.com/gorilla/websocket/conn.go:553-763 | Whatever a connection put on the wire, closed or not, with a message open or not, reads back as exactly the whole messages written, in order, then the close frame's error or an unexpected end, within the open message if there is one |
| `WsRoundTrip.SendParts` | Godeps/_workspace/src/github.com/gorilla/websocket/conn.go:310-505 | Writing a message in any parts adds exactly the message with the concatenated bytes to what the peer can assemble, without an error |
| `WsRoundTrip.PeerReadsSent` | Godeps/_workspace/src/github.com/gorilla/websocket/conn.go:217-763 | At any time and whatever network writes have failed, the peer reads from the wire exactly the whole messages sent |
| `WsRoundTrip.ReadsMessages` | Godeps/_workspace/src/github.com/gorilla/websocket/conn.go:700-763 | Reading any frames with anything behind them gives the whole messages they assemble to, and then what is begun is read on from where they end |
| `WsRoundTrip.AdvanceFirst` | Godeps/_workspace/src/github.com/gorilla/websocket/conn.go:553-685 | On a written frame, the reader takes a control frame in whole, answers a ping with its payload, reports a close frame, and stands at the payload of any other frame |
| `WsRoundTrip.CutLooksComplete` | Godeps/_workspace/src/github.com/gorilla/websocket/conn.go:553-763 | A stream cut anywhere within a frame, behind any frames: in the payload of a data frame or continuation the message ends with io.EOF as a whole one does, with the bytes that came; any other cut is an unexpected end |
| `WsRoundTrip.WholeIffComplete` | Godeps/_workspace/src/github.com/gorilla/websocket/conn.go:723-763 | With k payload bytes of a message's last frame, behind any frames, the message is read whole exactly when k is the payload's length, and otherwise ends with io.EOF after k of them |
| `WsRoundTrip.CutFrameFails` | Godeps/_workspace/src/github.com/gorilla/websocket/conn.go:561-649 | A cut in a header or anywhere in a control frame makes the reader report an unexpected end |
| `WsRoundTrip.ReadPastEnd` | Godeps/_workspace/src/github.com/gorilla/websocket/conn.go:723-763 | On every stream, one read past the end reports io.EOF again exactly when the message was whole |
| `WsRoundTrip.ReadEverything` | Godeps/_workspace/src/github.com/gorilla/websocket/conn.go:700-775 | An application that reads message after message through the connection sees exactly the history that the theorems are about |
| `WsRoundTrip.ReadOne` | Godeps/_workspace/src/github.com/gorilla/websocket/conn.go:700-775 | One attempt at a message, read in pieces and once past its end, tells a whole message from a broken one |
| `WsRoundTrip.AssembledIsFold` | Godeps/_workspace/src/github.com/gorilla/websocket/conn.go:700-763 | Assembling frames from the front, as the reader does, agrees with appending them at the back, as the writer does |
| `WsWriter.Conn.FlushFrame` | Godeps/_workspace/src/github.com/gorilla/websocket/conn.go:329-394 | Exactly one frame with the pending bytes and the extra ones is added to the wire, and the peer's assembly grows by them; the four error cases, and what each leaves behind |
| `WsWriter.Conn.PutFrame` | Godeps/_workspace/src/github.com/gorilla/websocket/conn.go:341-383 | The frame of the pending and the extra bytes goes on the wire whole, or the exact error |
| `WsWriter.Conn.BuildFrame` | Godeps/_workspace/src/github.com/gorilla/websocket/conn.go:341-378 | Header and, for a client, key and masked payload stand in the buffer without a gap |
| `WsWriter.BuildHeader` | Godeps/_workspace/src/github.com/gorilla/websocket/conn.go:349-371 | The header of each of the three sizes ends where key or payload begins, and nothing behind it changes |
| `WsWriter.BufferIsFrame` | Godeps/_workspace/src/github.com/gorilla/websocket/conn.go:329-383 | The part of the buffer that goes out, with the extra bytes, is the encoding of the frame, at every length and in both roles |
| `WsWriter.FlushAssembles` | Godeps/_workspace/src/github.com/gorilla/websocket/conn.go:385-392 | A flushed frame fits behind the earlier ones and extends or completes the open message |
| `WsWriter.Conn.WriteFrame` | Godeps/_workspace/src/github.com/gorilla/websocket/conn.go:217-241 | A frame goes on the wire whole, or part of it when the network fails, which closes the connection; behind a close frame nothing goes out at all |
| `WsWriter.Conn.SendBuffers` | Godeps/_workspace/src/github.com/gorilla/websocket/conn.go:227-240 | All buffers are written, or a part of their bytes and the connection is closed; a closed connection takes nothing |
| `WsWriter.Conn.NextWriter` | Godeps/_workspace/src/github.com/gorilla/websocket/conn.go:310-327 | Closes a message that is still open, then opens an empty one of the given type, or reports why not |
| `WsWriter.Conn.NCopy` | Godeps/_workspace/src/github.com/gorilla/websocket/conn.go:412-424 | Makes room for at least one byte without changing the open message |
| `WsWriter.Conn.WriteBuffered` | Godeps/_workspace/src/github.com/gorilla/websocket/conn.go:440-450 | The loop appends all bytes to the open message, flushing whenever the buffer is full |
| `WsWriter.Conn.Write` | Godeps/_workspace/src/github.com/gorilla/websocket/conn.go:426-451 | The open message grows by exactly the given bytes, buffered or at once, and a large final write of a server completes it |
| `WsWriter.Conn.Close` | Godeps/_workspace/src/github.com/gorilla/websocket/conn.go:500-505 | The frame of the pending bytes goes out as the final one, and the open message is complete for the peer; a stale writer gets an error and changes nothing |
| `WsWriter.Conn.WriteMessage` | Godeps/_workspace/src/github.com/gorilla/websocket/conn.go:509-524 | Exactly the given message is added, behind one that was still open; for a control type the last frame sent is the control frame with the data |
| `WsWriter.Conn.WriteControl` | Godeps/_workspace/src/github.com/gorilla/websocket/conn.go:245-300 | One control frame with the payload goes out, or the exact error, a failing network included; the messages being assembled stay as they are |
| `WsWriter.Conn.SendControl` | Godeps/_workspace/src/github.com/gorilla/websocket/conn.go:283-300 | The close flag is checked and set, and a write that takes part of the frame closes the connection, one that takes nothing does not |
| `WsWriter.Conn.constructor` | Godeps/_workspace/src/github.com/gorilla/websocket/conn.go:169-193 | A connection, with the default buffer for size 0, starts with nothing sent and no message open |
| `WsReader.Conn.AdvanceFrame` | Godeps/_workspace/src/github.com/gorilla/websocket/conn.go:553-685 | Skipping, parsing and control handling step by step agree with the parse of the stream, including every error |
| `WsReader.Conn.ReadHeader` | Godeps/_workspace/src/github.com/gorilla/websocket/conn.go:563-628 | The fields after reading a header are those of the parsed header, or the error it calls for |
| `WsReader.Conn.ReadLength` | Godeps/_workspace/src/github.com/gorilla/websocket/conn.go:601-614 | The extended length, as a signed 64-bit number, or the end of the stream |
| `WsReader.Conn.CheckOpcode` | Godeps/_workspace/src/github.com/gorilla/websocket/conn.go:578-599 | Accepts exactly the opcodes that fit the place in the message, and notes whether the message ends |
| `WsReader.Conn.NextReader` | Godeps/_workspace/src/github.com/gorilla/websocket/conn.go:700-716 | Moves past control frames and the rest of the current frame to the next frame that starts a message, or reports the error for good |
| `WsReader.NextDiscardsRest` | Godeps/_workspace/src/github.com/gorilla/websocket/conn.go:695-716 | Moving on without reading the current message is the same as reading it to its end first; if it has no end, there is no next message |
| `WsReader.Conn.Read` | Godeps/_workspace/src/github.com/gorilla/websocket/conn.go:723-763 | Hands out some bytes and leaves exactly the others to be read, or reports how the message ends; stale readers and earlier errors included |
| `WsReader.Conn.ReadAll` | Godeps/_workspace/src/github.com/gorilla/websocket/conn.go:767-775 | Reading in pieces of any size gives the same bytes and the same end |
| `WsReader.RestAfterPiece` | Godeps/_workspace/src/github.com/gorilla/websocket/conn.go:731-741 | Reading part of a frame takes exactly those bytes, unmasked, off what is still to be read |
| `WsReader.AdvanceShrinks` | Godeps/_workspace/src/github.com/gorilla/websocket/conn.go:748-755 | Every frame header consumes bytes, so the loops end, and within a message no text or binary frame is accepted, so the internal error of Read cannot occur |
| `WsFrames.HeaderRoundTrip` | Godeps/_workspace/src/github.com/gorilla/websocket/conn.go:341-628 | Parsing a written frame gives its flags, opcode, length and key, at every payload length, with the payload next |
| `WsFormat.FrameFormat` | Godeps/_workspace/src/github.com/gorilla/websocket/conn.go:340-390 | Every byte of a written frame as a number: final bit and opcode, mask bit and length in one of three sizes with their weights, then from a server the payload and from a client the key and the payload with key byte i mod 4 over place i |
| `WsFormat.HeaderRefused` | Godeps/_workspace/src/github.com/gorilla/websocket/conn.go:564-640 | A header is refused exactly when a reserved bit is set, the opcode is none of six numbers, a control frame is fragmented or over 125 bytes, a message starts in another or continues without one, or the mask bit is the wrong one; and it is incomplete exactly when bytes are missing before that |
| `WsFormat.HeaderFormat` | Godeps/_workspace/src/github.com/gorilla/websocket/conn.go:564-640 | The final bit, opcode, length, key and remaining stream that an accepted header gives, from its bytes with their weights, the 64-bit length signed |
| `WsFormat.CloseFormat` | Godeps/_workspace/src/github.com/gorilla/websocket/conn.go:668-681 | A close payload reports 256 times its first byte plus its second and the text behind, 1005 without them, and a regular end for 1000 and 1001 |
| `WsFormat.ControlFormat` | Godeps/_workspace/src/github.com/gorilla/websocket/conn.go:642-684 | 0x88 ends the reading, 0x89 is answered with its payload in a final frame of opcode 10, 0x8a is dropped |
| `WsFrames.MaskBytes` | Godeps/_workspace/src/github.com/gorilla/websocket/conn.go:124-130 | In place, exactly the given part of the buffer is masked from the given position, and the next position is returned |
| `WsFrames.MaskTwice` | Godeps/_workspace/src/github.com/gorilla/websocket/conn.go:124-130 | Masking twice from the same position gives the bytes back |
| `WsFormat.MaskShowsKey` | Godeps/_workspace/src/github.com/gorilla/websocket/conn.go:124-130 | At every position and length, byte i of the masked text xor byte i of the text is byte (pos + i) mod 4 of the key |
| `WsFormat.MaskOfZeros` | Godeps/_workspace/src/github.com/gorilla/websocket/conn.go:124-130 | Four zero bytes masked from position 0 are the key |
| `WsFrames.MaskConcat` | Godeps/_workspace/src/github.com/gorilla/websocket/conn.go:124-130 | Masking in pieces with the position carried on is masking the whole |
| `WsMessages.AssembledSnoc` | Godeps/_workspace/src/github.com/gorilla/websocket/conn.go:217-241 | What one more frame does to the assembled messages, their sequence and the rule that nothing follows a close frame |
| `WsMessages.OnWireSnoc` | Godeps/_workspace/src/github.com/gorilla/websocket/conn.go:217-241 | A fitting frame behind frames without a close frame keeps the wire a sequence of whole, fitting frames |
| `WsWireOrder.WireOrder` | Godeps/_workspace/src/github.com/gorilla/websocket/conn.go:217-394 | On every interleaving the wire is whole frames followed by at most part of one that would fit behind them; each message is one frame with its opcode, then continuations, final only at the end; behind a close frame there is nothing at all |
| `WsSharedWire.SharedWireReads` | Godeps/_workspace/src/github.com/gorilla/websocket/conn.go:217-763 | At every point of every interleaving, failed writes and writes under way included, the peer reads exactly the messages whose frames are all on the wire |
| `WsWireOrder.FrameTypeTracksWire` | Godeps/_workspace/src/github.com/gorilla/websocket/conn.go:385-392 | On every interleaving with any failing writes, a data writer that has seen no error knows from its own frame type whether a message is open on the wire, between messages too, and any frame with that opcode is one the peer accepts |
| `WsWireOrder.EveryRunKeeps` | Godeps/_workspace/src/github.com/gorilla/websocket/conn.go:217-394 | Every run keeps the invariant: one holder of the token, the data writer's frame type agrees with the wire, the wire is the complete frames and what the holder has written |
| `WsWireOrder.StepKeeps` | Godeps/_workspace/src/github.com/gorilla/websocket/conn.go:217-394 | Every step of every goroutine keeps that invariant |
| `WsWireOrder.RequestKeeps` | Godeps/_workspace/src/github.com/gorilla/websocket/conn.go:245-270 | Asking for the token, for the data writer with a frame of its current type, keeps it |
| `WsWireOrder.HeldFrameFits` | Godeps/_workspace/src/github.com/gorilla/websocket/conn.go:341-383 | Whatever goroutine holds the token, its frame fits behind the frames on the wire; for the data writer this follows from its frame type alone |
| `WsWireOrder.FlushTracks` | Godeps/_workspace/src/github.com/gorilla/websocket/conn.go:385-392 | After a flushed frame the updated frame type agrees with the wire again |
| `WsWireOrder.AcquireKeeps` | Godeps/_workspace/src/github.com/gorilla/websocket/conn.go:218-225 | Taking the token and checking or setting the close flag keeps it |
| `WsWireOrder.WriteKeeps` | Godeps/_workspace/src/github.com/gorilla/websocket/conn.go:227-240 | A network write that takes all, some or none of a buffer keeps it; a short write closes the connection |
| `WsWireOrder.FinishKeeps` | Godeps/_workspace/src/github.com/gorilla/websocket/conn.go:382-393 | Noting the outcome and the next frame type after the token was returned keeps it, whatever other goroutines did in between |
| `WsWireOrder.TypeKeeps` | Godeps/_workspace/src/github.com/gorilla/websocket/conn.go:310-340 | Opening a message, or giving up an invalid control frame, keeps it |
| `WsWireOrder.ControlFramesDoNotMatter` | Godeps/_workspace/src/github.com/gorilla/websocket/conn.go:245-300 | Removing the control frames leaves the reassembled messages and their sequence unchanged |

## Left out

- Reading directories and XML, logging, sleeping, and choosing and opening a USB device; parsed definitions and clock values are inputs.
- The HID back ends in C: a device takes and gives whole 64-byte reports. A report shorter than that, a read that times out and a write that returns at most two bytes, on which `usbLink.Write` would loop, are not modelled.
- go-charset: names are taken as sequences of characters, each one Latin-1 byte or a question mark; a percent sign in a name, which the source uses as a format, is not treated specially.
- Looking up definitions by name, which folds case, and the error for a metadata object of a metadata object, which loading never asks for.
- Conversion of floating-point numbers that do not fit the field's type is left to the Go implementation by the language; the model wraps around, and the round trips ask for numbers in range. A float32 is its bit pattern.
- The constructors in `uavtalk/session.go` appear as tags of the packets sent; the goroutine that configures metadata after a fetch, the stream handlers, and the conversion to and from rotonde packets are not part of this model.
- The handlers library: attached handlers run one after the other, in the order in which they were attached.
- WebSocket upgrade, dialling, TLS, deadlines, the read limit, custom ping and pong handlers, and the `WriteString` and `ReadFrom` variants of writing.
- Control frames that the reader sends while it fails (the answer to a close frame, the report of a protocol error); pongs are modelled.
- Layout.SortStable: sorts by insertion as `sort.Stable` does within a block, not with its block merging; `Layout.StableSortUnique` shows that every stable sort gives the same result.
- WebSocket slices are shorter than 2^62 bytes, and a peer's stream fails only by ending. A read into an empty slice within a frame takes nothing and reports nothing; an error that the buffered reader has kept is not modelled.
