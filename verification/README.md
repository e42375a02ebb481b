# MemoryPackCpp, verified

A Dafny model of MemoryPackCpp: the C++ codec for the MemoryPack wire format, its packet framing, the
algorithms of the C#-to-C++ generator, the Half conversion and the shared tables of the sample chat
server. `dafny verify dfyconfig.toml` checks everything.

| file | models |
|---|---|
| `Basics` | options, minima and maxima |
| `Bytes`, `Wire` | little-endian numbers; the types, the values and the bytes each value is written as |
| `WireFormat`, `DecoderFormat` | the same in numbers: what each kind of value is written as, and each header read as |
| `Decoder`, `DecoderSteps`, `Reader` | MemoryPackReader: functions on (position, depth, first error), and the class with its loops |
| `Writer` | MemoryPackWriter with its owned, external-vector and fixed buffers |
| `RoundTrip`, `Identity`, `Evolution`, `EndToEnd` | what holds between the two |
| `DecoderCost`, `DecoderDepth`, `DecoderBounds` | what holds of the reader on any bytes |
| `Transcode` | UTF-16 and UTF-8 |
| `VersionTolerant` | objects with member lengths |
| `PacketFraming`, `PacketWriting` | the TCP frame parser and the sender |
| `TextDiff`, `Graph`, `EmitOrder`, `StructLayout`, `UnmanagedLayout`, `SchemaHash` | the generator |
| `Half` | System.Half |
| `ChatServer` | the lock-guarded handlers |

How to read it:

- A C++ type is a value of `Ty`, an object a value of `Val`; named classes come from an environment, so
  they may be recursive. `Enc` is the encoding. `Dec` is the reader as a function; the reader class is
  proved equal to it on every input, the writer class is proved to append `Enc`.
- `Fits` lists what the round trip asks of a value: it has its type, lengths are within int32 and the
  options, objects nest within maxDepth, and a nullable whose null is a 0xFF byte holds a value that does
  not start with that byte. The last is a test of the value, and `RoundTrip.SomeArrives` shows it cannot
  be dropped: a pointer to a string of 256 bytes, for example, is read as null
  (`RoundTrip.StringPointerMisread`).
- `Received` says what arrives: unpaired surrogates replaced, repeated set elements and keys dropped, and
  members the writer did not know as they are in the object read into. Read works in place, so `Dec` takes
  that object as `into`; a new one holds the defaults of its class.
- `Fail` is modelled as in the build without exceptions: the first error is recorded and reading goes on.
  With exceptions the same first error is thrown.
- Containers are sequences in iteration order, so the results hold for any order an unordered container
  is written in. What was read is listed in the order of arrival, and keys are compared as bit patterns: a
  std::set would iterate over it in sorted order, +0.0 and -0.0 would be one key, and several NaNs several.
  Numbers, enums and floats are bit patterns.
- Shifts and masks are written as division and remainder.

Where the code and its documentation differ, the code is modelled:

- `Half::FromFloat` (include/memorypack/dotnet.hpp:252) is said to round to nearest even; it rounds ties
  away from zero (`Half.Nearest`). The two differ exactly on the ties of `Half.OddTie`, for example on
  1 + 2^-11 (`Half.NearestEvenIff`, `Half.OddTieRoundsUp`).
- docs/serialization.md:49 allows appending members in either direction. A reader with fewer members than
  the sender stops before the end of the object (`Evolution.EvolvedObject`), which inside a collection
  misreads the next element without an error (`Evolution.ShrunkListMisread`).
- VersionTolerantReader::Finish (include/memorypack/core.hpp:1586) is said to position the reader after the
  whole object. After an error it may end short of it (`VersionTolerant.EveryMixEnds`, with the exact
  distance, and `VersionTolerant.ShortAfterError`).

## Model

| member | source | states |
|---|---|---|
| `RoundTrip.DecOfEnc` | include/memorypack/core.hpp:642-870 | For every type tree and value within the limits, wherever the encoding stands and whatever follows it, Read returns the value (with what the reader cannot receive repaired, see `Received`) and stops exactly behind the encoding; the reader may know its classes with more members than the writer |
| `Identity.ReceivedIdentity` | include/memorypack/core.hpp:1864-1894 | The received value is the written one if and only if its UTF-16 strings are well-formed and its set elements and map keys are distinct |
| `Identity.ExactRoundTrip` | include/memorypack/core.hpp:1741-1747 | Deserialize of Serialize with any suffix: no error, the suffix and nothing else is left, depth back to 0, and equality exactly for faithful values |
| `EndToEnd.SerializeDeserialize` | include/memorypack/core.hpp:1712-1747 | The writer class followed by the reader class: no error, nothing left, the received value, equal to the written one exactly if faithful |
| `EndToEnd.FitsWritable` | include/memorypack/core.hpp:828-834 | Whatever is within a reader's limits passes the writer's length and member-count checks |
| `RoundTrip.LeafArrives` | include/memorypack/core.hpp:1628-1686 | Numbers, bools, structs and both kinds of strings read back |
| `RoundTrip.ReadStringAt` | include/memorypack/core.hpp:549-556 | A UTF-8 string written by WriteString is read back byte for byte by ReadString |
| `RoundTrip.ReadUtf16StringAt` | include/memorypack/core.hpp:567-573 | A string written by WriteStringUtf16 is read by ReadString as its UTF-8 transcoding |
| `RoundTrip.ReadUnionHeaderAt` | include/memorypack/core.hpp:496-503 | Narrow and wide union tags read back |
| `RoundTrip.ObjectArrives` | include/memorypack/core.hpp:1877-1892 | A MEMORYPACK_DEFINE object arrives, nesting depth restored, members unknown to the writer unchanged in the object read into |
| `RoundTrip.AllArrive` | include/memorypack/core.hpp:1861-1892 | Members arrive one after the other, each only if the header announces it |
| `RoundTrip.LengthArrives` | include/memorypack/core.hpp:970-990 | The length limit and the MinEncodedSize check never reject a real encoding |
| `RoundTrip.EncEachAtLeast` | include/memorypack/core.hpp:1395-1402 | The encodings of n elements take at least n times the minimum size the container assumes |
| `RoundTrip.CollectionArrives` | include/memorypack/containers.hpp:52-170 | Vectors, other sequences, sets, maps and arrays arrive |
| `RoundTrip.TupleArrives` | include/memorypack/core.hpp:704-709 | Tuples arrive behind their object header |
| `RoundTrip.PairArrives` | include/memorypack/containers.hpp:200-210 | Pairs arrive without a header |
| `RoundTrip.UnionArrives` | include/memorypack/containers.hpp:323-369 | Variants arrive as the alternative that carries the written tag |
| `RoundTrip.OptionalArrives` | include/memorypack/containers.hpp:226-289 | All four null encodings of an optional, and the UTF-16 special case, arrive |
| `RoundTrip.SomeValueArrives` | include/memorypack/core.hpp:737-756 | Nullable of an unmanaged value: the flag, the aligned value and the padding read back |
| `RoundTrip.FirstByte` | include/memorypack/core.hpp:957-960 | `NullMarked`, a test of the value alone, says exactly when an encoding starts with the null object byte; objects, tuples and unions never do |
| `RoundTrip.SomeArrives` | include/memorypack/containers.hpp:260-265 | A non-null optional or pointer whose null is a 0xFF byte comes back exactly if the value is not `NullMarked`; otherwise it is read as null and all but one byte stays unread |
| `RoundTrip.FirstByteOfString` | include/memorypack/core.hpp:549-556 | A string is mistaken for a null object exactly if its length is a positive multiple of 256 |
| `RoundTrip.StringPointerMisread` | include/memorypack/containers.hpp:298-316 | The instance: a pointer to any string of 256 bytes is read as null, and all but one byte stays unread |
| `Wire.FindTag` | include/memorypack/containers.hpp:326-340 | The first alternative with the tag is chosen |
| `WireFormat.NumberForm` | include/memorypack/core.hpp:508-520 | Numbers, enums and floats take their 1, 2, 4 or 8 bytes, least significant first |
| `WireFormat.BoolForm` | include/memorypack/core.hpp:508 | A bool is the byte 1 or 0 |
| `WireFormat.TextForm` | include/memorypack/core.hpp:549-557 | A string: the complement of the UTF-8 byte count, the UTF-16 count and the text, each in its place, for all scalar values |
| `EndToEnd.SerializeText` | include/memorypack/core.hpp:549-557 | The same of the bytes Serialize returns |
| `WireFormat.EmptyText` | include/memorypack/core.hpp:549-550 | An empty string of either kind is four zeros |
| `WireFormat.Text16Form` | include/memorypack/core.hpp:567-573 | A u16string: the number of units, then each unit in two bytes |
| `WireFormat.CollectionForm` | include/memorypack/core.hpp:663-675 | A container: the number of elements in four bytes, then each element behind the ones before it |
| `WireFormat.ObjectForm` | include/memorypack/core.hpp:1877-1883 | An object: the number of members in one byte, then each member behind the ones before it |
| `WireFormat.TupleForm` | include/memorypack/core.hpp:704-709 | A tuple: the same |
| `WireFormat.UnionForm` | include/memorypack/core.hpp:496-503 | A union: tags up to 249 in one byte, others as 250 and two bytes |
| `WireFormat.NullForm` | include/memorypack/core.hpp:714-724 | Null is the byte 255, or a length of -1 for strings and collections |
| `WireFormat.NullNumberForm` | include/memorypack/core.hpp:737-756 | A nullable number that is null is twice its size in zeros |
| `WireFormat.NullableNumberForm` | include/memorypack/core.hpp:737-756 | A nullable number: the byte 1, zeros up to its alignment, the number |
| `WireFormat.NullableStructForm` | include/memorypack/core.hpp:737-756 | A nullable struct: flag, zeros, the struct at its alignment, zeros up to a multiple of it |
| `WireFormat.VarIntForm` | include/memorypack/core.hpp:532-542 | Member lengths up to 127 in one byte, then 0x84 and two, then 0x82 and four |
| `DecoderFormat.BoolIs` | include/memorypack/core.hpp:1008 | Any byte but 0 is read as true |
| `DecoderFormat.UnderflowIs` | include/memorypack/core.hpp:1416-1423 | Fewer bytes than a number takes: BufferUnderflow, the number is 0 and nothing moves |
| `DecoderFormat.Int32Is` | include/memorypack/core.hpp:1417-1423 | Four bytes are a signed number; fewer are BufferUnderflow |
| `DecoderFormat.LengthIs` | include/memorypack/core.hpp:970-990 | What every length is read as: -1 null, other negative ones, those above the limit and implausible ones LengthLimit |
| `DecoderFormat.LengthAccepted` | include/memorypack/core.hpp:970-990 | No error if and only if four bytes are there that are -1, or a number within the limit that times the minimum fits what is left |
| `DecoderFormat.MinimumIs` | include/memorypack/containers.hpp:52-170 | The minimum size per element, for each kind of container |
| `DecoderFormat.NullCollection` | include/memorypack/core.hpp:1118-1125 | FF FF FF FF: no error, four bytes, an empty container, or an array of defaults |
| `DecoderFormat.ArrayIs` | include/memorypack/core.hpp:1182-1206 | A std::array takes the first elements, defaults where there are too few |
| `DecoderFormat.FirstIsKept` | include/memorypack/containers.hpp:132-170 | A set or map keeps the first element of every key |
| `DecoderFormat.KeptIsFirst` | include/memorypack/containers.hpp:132-170 | And nothing else |
| `DecoderFormat.HeaderIs` | include/memorypack/core.hpp:947-955 | What every object header is read as: 255 null, 250 to 254 InvalidHeader, others the count |
| `DecoderFormat.NullMembers` | include/memorypack/core.hpp:1886-1887 | A null object or tuple is read as its defaults; a reserved header also, with InvalidHeader |
| `DecoderFormat.TooDeep` | include/memorypack/core.hpp:1359-1366 | At the depth limit an object is LengthLimit behind its header and keeps its members |
| `DecoderFormat.TagIs` | include/memorypack/core.hpp:995-1004 | What every union header is read as |
| `DecoderFormat.UnionIs` | include/memorypack/containers.hpp:326-370 | A null union is the default, an unknown tag skips the rest of the input |
| `DecoderFormat.StringIs` | include/memorypack/core.hpp:1042-1058 | What every string header is read as, with the value, position and error of each case |
| `DecoderFormat.NullStrings` | include/memorypack/core.hpp:1042-1045 | A null string is empty, or null in an optional |
| `DecoderFormat.FlagIs` | include/memorypack/containers.hpp:226-240 | A nullable is null exactly if its flag is 0, and null with BufferUnderflow if bytes are missing |
| `DecoderFormat.VarIntIs` | include/memorypack/core.hpp:1028-1035 | What every member length is read as |
| `Evolution.EvolvedObject` | include/memorypack/core.hpp:1864-1894 | m written members read into an object of a class with n members, the first min(m,n) of the same types: those values arrive, the rest stay as they were (defaults in a new object), the reader stops short by exactly the bytes of the surplus members, hence ends behind the object if and only if n >= m. The sides need to agree on the classes used by the shared members only; of each surplus member it is asked that its encoding is not empty |
| `Evolution.EvolvedRead` | include/memorypack/core.hpp:1864-1894 | The same through the class tables: Read of a class by a reader that has another version of it |
| `Evolution.ShrunkListMisread` | docs/serialization.md:38-52 | A concrete list of two-member objects read as one-member objects, each by `EvolvedRead`: no error, wrong second element |
| `Decoder.Dec` | include/memorypack/core.hpp:1384-1393 | On any bytes reading terminates inside the buffer; after an error neither position nor error changes; without one the depth is restored (`Follows`) |
| `DecoderDepth.NeverTooDeep` | include/memorypack/core.hpp:1359-1366 | On any bytes, in any state, for any classes, and whether or not reading succeeds: objects are entered, one inside the other, no deeper than maxDepth leaves room for, and not at all after an error |
| `DecoderDepth.ObjectNeverTooDeep` | include/memorypack/core.hpp:1884-1892 | The step: at the limit an object is refused before its members are read |
| `DecoderDepth.ChainRead` | include/memorypack/core.hpp:1359-1366 | The limit is exact: n objects inside one another are entered min(n, limit) deep, read without an error if and only if n is within the limit, and answered with LengthLimit otherwise |
| `DecoderBounds.HoldsWhatWasRead` | include/memorypack/core.hpp:1864-1892 | On any bytes and whatever the outcome: the value holds no more elements than were read, if default objects hold none, and nests no deeper than was entered plus what default objects nest |
| `DecoderBounds.ValueNesting` | include/memorypack/core.hpp:1359-1366 | The value of any read, failed or not, nests no deeper than maxDepth leaves room for plus what default objects nest |
| `DecoderBounds.DecBounded` | include/memorypack/core.hpp:970-990 | Success consumed at least 1 byte plus 1 per element the value holds in growable collections, if default objects hold none |
| `DecoderBounds.PaidIffPlain` | include/memorypack/core.hpp:1887 | That holds of all inputs if and only if default objects hold no elements: else a null byte makes them for free |
| `DecoderCost.Costs` | include/memorypack/core.hpp:970-990 | On any bytes and for any classes: success means at least 1 byte plus 1 per element read into growable collections, at any depth, was consumed |
| `DecoderCost.HeldIsStored` | include/memorypack/containers.hpp:108-170 | A growable collection that was read holds no more elements than were counted |
| `DecoderCost.EachCost` | include/memorypack/core.hpp:1223-1237 | Each element of a collection costs at least one byte of input, for any classes |
| `DecoderBounds.CollectBounded` | include/memorypack/containers.hpp:108-170 | A growable container holds no more, and nests no deeper, than the elements that were read |
| `Decoder.Fail` | include/memorypack/core.hpp:1469-1476 | The first error is kept |
| `Decoder.Advance` | include/memorypack/core.hpp:921 | Nothing moves after an error or past the end |
| `Decoder.ReadCollectionLength` | include/memorypack/core.hpp:970-990 | A positive length is within the limit and plausible for the bytes left; `DecoderFormat.LengthIs` has every other case |
| `Decoder.PlausibleByDivision` | include/memorypack/core.hpp:985-988 | The quotient test is the product test |
| `Transcode.TranscodeRoundTrip` | include/memorypack/core.hpp:1658-1686 | UTF-16 to UTF-8 to UTF-16 replaces exactly the unpaired surrogates by U+FFFD, keeps the length, goes through well-formed UTF-8 (section 4 of RFC 3629), and is the identity exactly on well-formed UTF-16 |
| `Transcode.EncodeOfDecodeUtf16` | include/memorypack/core.hpp:1431-1457 | Surrogate pairing with rewind loses and invents nothing but the repairs |
| `Transcode.CountOfTranscoded` | include/memorypack/core.hpp:1426-1460 | The output of ReadUtf16String for n units has UTF-16 length n |
| `Transcode.Utf16LengthFromUtf8` | include/memorypack/core.hpp:189-205 | The count with the 8-byte ASCII fast path is the plain per-byte count on all byte strings |
| `Transcode.CountIsUtf16Length` | include/memorypack/core.hpp:187-205 | On well-formed UTF-8 the count is the true UTF-16 length and at most the byte count |
| `Transcode.CharLengthOfUtf8` | include/memorypack/core.hpp:208-224 | What append_utf8_codepoint writes for a scalar value is one UTF8-char |
| `Transcode.Utf8Layout` | include/memorypack/core.hpp:208-224 | Where the bits of a code point go in its one to four UTF-8 bytes (section 3 of RFC 3629) |
| `Transcode.Utf16Layout` | include/memorypack/core.hpp:1664-1684 | Where the bits of a code point above 0xFFFF go in its surrogate pair (section 2.1 of RFC 2781) |
| `Transcode.WellFormedIsEncoded` | include/memorypack/core.hpp:1664-1684 | Well-formed UTF-8 is the encoding of what the formatter decodes from it |
| `Transcode.RepairIdentity` | include/memorypack/core.hpp:1435-1455 | Repairing changes nothing exactly on well-formed UTF-16 |
| `Reader.MemoryPackReader.EnsureBytes` | include/memorypack/core.hpp:1384-1393 | True exactly if there is no error and n bytes are left; otherwise the first error is recorded |
| `Reader.MemoryPackReader.ReadRaw` | include/memorypack/core.hpp:1417-1423 | The little-endian number at the position, which moves behind it; 0 and no move on an error |
| `Reader.MemoryPackReader.ReadObjectHeader` | include/memorypack/core.hpp:947-955 | Counts up to 249, null, reserved values rejected |
| `Reader.MemoryPackReader.ReadCollectionLength` | include/memorypack/core.hpp:970-990 | The validated length, with the division the code uses |
| `Reader.MemoryPackReader.ReadUnionHeader` | include/memorypack/core.hpp:995-1004 | Narrow tag, wide tag, null, reserved |
| `Reader.MemoryPackReader.ReadUtf16String` | include/memorypack/core.hpp:1426-1460 | The loop with its step back equals the transcoding of the n units and consumes exactly 2n bytes |
| `Reader.MemoryPackReader.ReadCodepoint` | include/memorypack/core.hpp:1431-1456 | One round: the next code point, one or two units, step back behind an unpaired high surrogate |
| `Reader.MemoryPackReader.ReadString` | include/memorypack/core.hpp:1042-1058 | Null, empty, UTF-16 units or UTF-8 bytes, as the header says; the empty string after an error |
| `Reader.TranscodeToUtf16` | include/memorypack/core.hpp:1660-1685 | The loop of the u16string formatter is `Utf8ToUtf16` on any bytes |
| `Reader.MemoryPackReader.ReadVector` | include/memorypack/core.hpp:1118-1159 | The unchecked bulk copy gives what reading element by element gives |
| `Reader.MemoryPackReader.ReadArray` | include/memorypack/core.hpp:1182-1206 | Copying what fits into the std::array and skipping the excess gives what reading element by element gives |
| `Reader.PackedIsEach` | include/memorypack/core.hpp:1118-1149 | Copying numbers at once and reading them one by one agree, values and position |
| `Reader.MemoryPackReader.ReadElements` | include/memorypack/containers.hpp:108-170 | Every container loop leaves the container and the reader as element-wise reading does, also when it is left at an error |
| `Reader.StoreCollects` | include/memorypack/containers.hpp:112-168 | Storing one by one builds the container of all elements |
| `Reader.MemoryPackReader.ReadMembers` | include/memorypack/core.hpp:1861-1892 | Exactly the members the header announces are read, in order and in place; the others stay as they were |
| `Reader.MemoryPackReader.ReadObject` | include/memorypack/core.hpp:1884-1911 | Null resets to the defaults; at the depth limit an error, nothing read; else the members, and the depth is restored |
| `Reader.MemoryPackReader.ReadOptional` | include/memorypack/containers.hpp:242-289 | The four null encodings; the collection header is peeked with a copy of the reader |
| `Reader.MemoryPackReader.ReadNullable` | include/memorypack/containers.hpp:298-316 | Exactly one byte and null if the next byte is 0xFF, else the value |
| `Reader.MemoryPackReader.ReadUnion` | include/memorypack/containers.hpp:326-370 | The alternative search; an unknown tag drains the input |
| `Reader.MemoryPackReader.Read` | include/memorypack/core.hpp:1700-1702 | The reader class does on every input, value and state, what `Dec` says |
| `Writer.MemoryPackWriter.AppendBytes` | include/memorypack/core.hpp:784-799 | In all three modes: appended, or in error exactly if it was or, with BufferOverflow, the bytes do not fit; earlier bytes stay, a fixed buffer is untouched behind the write position |
| `Writer.MemoryPackWriter.AppendByte` | include/memorypack/core.hpp:770-782 | The same for one byte |
| `Writer.WroteBoth` | include/memorypack/core.hpp:770-799 | Two appends are one append of both |
| `Writer.MemoryPackWriter.GrowOwned` | include/memorypack/core.hpp:819-824 | Doubling terminates with enough room and the contents unchanged |
| `Writer.MemoryPackWriter.Reserve` | include/memorypack/core.hpp:411-414 | Nothing visible changes |
| `Writer.MemoryPackWriter.Clear` | include/memorypack/core.hpp:418-423 | Empty and error-free in every mode, the whole fixed buffer available again |
| `Writer.MemoryPackWriter.TakeBuffer` | include/memorypack/core.hpp:454-462 | Exactly the written bytes, and an empty writer; refused in the other modes |
| `Writer.MemoryPackWriter.Size` | include/memorypack/core.hpp:431-435 | The length of the contents |
| `Writer.MemoryPackWriter.WriteString` | include/memorypack/core.hpp:549-557 | Appends 0 for the empty string, else the complemented byte count, the UTF-16 count and the bytes; more than 2^31-1 bytes is an error |
| `Writer.MemoryPackWriter.WriteStringUtf16` | include/memorypack/core.hpp:567-573 | Appends the number of units and the units; more than 2^31-1 is an error |
| `Writer.MemoryPackWriter.WriteNullable` | include/memorypack/core.hpp:737-756 | Appends the flag 1, the value at its alignment and zero padding, in one piece |
| `Writer.MemoryPackWriter.WriteElements` | include/memorypack/core.hpp:663-675 | The element loop appends the elements' encodings |
| `Writer.MemoryPackWriter.WriteContiguous` | include/memorypack/core.hpp:836-844 | The memory of a vector or array of numbers, appended at once after its length, is what writing the elements one by one appends |
| `Writer.MemoryIsEncoding` | include/memorypack/core.hpp:836-844 | On a little-endian host the k-th byte of contiguous numbers, byte k mod width of number k / width, is the k-th byte of their encodings |
| `Writer.MemoryPackWriter.WriteAll` | include/memorypack/core.hpp:1881-1883 | The members' encodings are appended in order, as the macro expands |
| `Writer.MemoryPackWriter.Write` | include/memorypack/core.hpp:1695-1697 | Appends exactly the encoding, failing exactly if it failed before, a length or count is out of range, or it does not fit |
| `Writer.Serialize` | include/memorypack/core.hpp:1711-1716 | The new buffer is the encoding |
| `Writer.SerializeInto` | include/memorypack/core.hpp:1719-1723 | Appends the encoding to the caller's vector |
| `Writer.SerializeTo` | include/memorypack/core.hpp:1727-1732 | Returns the size exactly if the encoding fits, else 0; when it fits the buffer is the encoding followed by what was there. A null pointer makes it a writer with its own buffer, so the size is returned of bytes that were written nowhere |
| `VersionTolerant.EveryMixEnds` | include/memorypack/core.hpp:1546-1600 | Every mix of ReadMember and SkipMember ended by Finish leaves the reader on the first byte behind the object, short exactly of the members asked for after an error; at the end whenever there was no error |
| `VersionTolerant.ShortAfterError` | include/memorypack/core.hpp:1563-1575 | An input: two one-byte members, the first read as 100 bytes; the second is passed over without its byte, and Finish ends one byte short |
| `VersionTolerant.UsableIff` | include/memorypack/core.hpp:1548-1556 | The constructor holds a length for every member if and only if all lengths but the last were read without an error |
| `VersionTolerant.FailedOpen` | include/memorypack/core.hpp:1552-1566 | An input: the bytes 02 85 leave one length for two members |
| `VersionTolerant.MemberArrives` | include/memorypack/core.hpp:1563-1575 | After any mix without error, whatever the earlier members were read as, the next member read as the type it was written with arrives |
| `VersionTolerant.MemberAbsent` | include/memorypack/core.hpp:1561-1565 | Members beyond the sender's count leave output and reader untouched |
| `VersionTolerant.PerformAllKeepsEnd` | include/memorypack/core.hpp:1564-1584 | The end according to the lengths not yet used moves only by what is lost |
| `VersionTolerant.ReadVarIntAt` | include/memorypack/core.hpp:532-542 | All three length forms read back |
| `VersionTolerant.OpenAt` | include/memorypack/core.hpp:1548-1556 | The constructor reads the lengths that were written and finds the first member |
| `VersionTolerant.ObjectExample` | include/memorypack/core.hpp:1514-1525 | The bytes of an object with members of one and of two bytes |
| `VersionTolerant.VersionTolerantWriter.WriteMember` | include/memorypack/core.hpp:1506-1511 | The member's encoding is buffered with its length |
| `VersionTolerant.VersionTolerantWriter.Finish` | include/memorypack/core.hpp:1514-1525 | Emits header, lengths and bodies once; more than 249 members is an error |
| `VersionTolerant.VersionTolerantReader.ReadMember` | include/memorypack/core.hpp:1563-1575 | Absent behind the sender's count; else the value decoded at the recorded start, going on at the recorded end whatever was consumed; false after an error |
| `VersionTolerant.VersionTolerantReader.SkipMember` | include/memorypack/core.hpp:1578-1584 | Moves to the recorded end of the member, also after an error |
| `VersionTolerant.VersionTolerantReader.Finish` | include/memorypack/core.hpp:1588-1591 | Skips the members not asked for and moves behind the last |
| `EndToEnd.ExchangeObject` | include/memorypack/core.hpp:1483-1600 | The writer class from creation to Finish, then the reader class: after any mix of reads and skips without error, the next member read as it was written arrives, and Finish leaves no byte |
| `EndToEnd.DeliverMessages` | include/memorypack/packet.hpp:50-134 | Any list of values written as packets, cut into any chunks, parsed and read by the type of their id: all values arrive in order, nothing fails, nothing is left over |
| `EndToEnd.AnyCut` | include/memorypack/packet.hpp:90-134 | Every way to cut the stream is one of those |
| `PacketFraming.PacketFrameParser.Feed` | include/memorypack/packet.hpp:107-134 | Delivers and rejects as one parse of all unread bytes would; afterwards less than header plus maxBodyLength is unread, and consumed bytes still held are at most 4096 and under half the buffer |
| `PacketFraming.PacketFrameParser.FeedAll` | include/memorypack/packet.hpp:107-134 | Any chunking, stopped at the first rejection, equals one parse of the whole stream |
| `PacketFraming.ParseContinues` | include/memorypack/packet.hpp:111-130 | Parsing the rest with more bytes continues where parsing stopped |
| `PacketFraming.PacketFrameParser.Compact` | include/memorypack/packet.hpp:137-147 | The unread bytes never change |
| `PacketFraming.ParseFrames` | include/memorypack/packet.hpp:111-130 | A stream of framed packets parses into exactly these packets |
| `PacketFraming.HeaderRoundTrip` | include/memorypack/packet.hpp:21-34 | Id and length read back |
| `PacketFraming.HeaderForm` | include/memorypack/packet.hpp:21-34 | The six bytes of a header: the id in two, the body length in four |
| `PacketFraming.NextFrameIs` | include/memorypack/packet.hpp:111-130 | What every stream starts with: too few bytes, a rejected header exactly if the length is negative or above the maximum, or the packet |
| `PacketWriting.WritePacket` | include/memorypack/packet.hpp:50-60 | The vector gets the header, patched with the body size, and the body |
| `PacketWriting.WritePackets` | include/memorypack/packet.hpp:50-60 | A list of packets becomes the stream of their frames |
| `PacketWriting.Receive` | include/memorypack/packet.hpp:90-134 | Written packets, cut into any chunks, are delivered exactly and in order, with nothing buffered |
| `TextDiff.Diff` | tools/cs2cpp/GeneratorRunner.cs:287-331 | The script turns the old text into the new; no insertion is directly followed by a deletion; the common first lines, then the common last lines of the rest, are kept; and unless the product of the lengths of what is between them exceeds 4,000,000, no common subsequence is longer than the kept lines |
| `TextDiff.LcsBound` | tools/cs2cpp/GeneratorRunner.cs:311-316 | No common subsequence is longer than the recurrence of the table |
| `TextDiff.TrimmedBound` | tools/cs2cpp/GeneratorRunner.cs:290-294 | Trimming a common prefix and suffix loses no optimality |
| `TextDiff.BuildTable` | tools/cs2cpp/GeneratorRunner.cs:311-316 | Every cell is the LCS length of the remaining lines |
| `TextDiff.Backtrack` | tools/cs2cpp/GeneratorRunner.cs:318-327 | The walk keeps as many lines as the LCS, and deletes before it inserts |
| `TextDiff.NoDeleteNext` | tools/cs2cpp/GeneratorRunner.cs:322 | Behind an insertion deleting is never as good as inserting |
| `TextDiff.Trim` | tools/cs2cpp/GeneratorRunner.cs:290-294 | The common first lines, then the common last lines of the rest, neither of which can be extended |
| `TextDiff.KeptIsCommon` | tools/cs2cpp/GeneratorRunner.cs:287-331 | Kept lines are common to both texts, for any script |
| `EmitOrder.Generator.BuildEmitOrder` | tools/cs2cpp/CppGenerator.cs:93-120 | Terminates on any reference graph, emits every declared name exactly once, puts B before A whenever A refers to B and B cannot reach A, and otherwise follows the order of types, then unions: each comes before whatever neither it nor an earlier one leads to |
| `EmitOrder.ListedInTurn` | tools/cs2cpp/CppGenerator.cs:118-119 | Visits in turn list each name before whatever it and the earlier ones do not lead to |
| `EmitOrder.EmittedDeclarations` | tools/cs2cpp/CppGenerator.cs:93-120 | Every type is emitted, and a union if and only if no type has its name |
| `EmitOrder.AcyclicOrder` | tools/cs2cpp/CppGenerator.cs:93-120 | Without cycles the order is topological |
| `EmitOrder.Generator.Visit` | tools/cs2cpp/CppGenerator.cs:98-116 | The depth-first step: the name is emitted unless it is being visited |
| `UnmanagedLayout.Resolver.TryGetSize` | tools/cs2cpp/CsParser.cs:465-470 | For any query order and any graph, the size of sequential layout of the fields, or nothing exactly if the type has no layout |
| `UnmanagedLayout.SizeIsSequential` | tools/cs2cpp/CsParser.cs:486-505 | That size in numbers: fields at the next multiples of their own alignment, at most 8, or 1 with Pack=1 |
| `UnmanagedLayout.PrimitiveSizes` | tools/cs2cpp/TypeMapper.cs:72-99 | A primitive is its own alignment; the sizes of some, and names that are none |
| `UnmanagedLayout.Resolver.Resolve` | tools/cs2cpp/CsParser.cs:472-484 | Cache and visiting set do not change the answer |
| `UnmanagedLayout.Resolver.ComputeLayout` | tools/cs2cpp/CsParser.cs:486-505 | The loop over the fields computes the layout of the field list |
| `UnmanagedLayout.HasLayoutIff` | tools/cs2cpp/CsParser.cs:472-520 | A type has a layout if and only if nothing reachable from it is on a cycle, missing, a class or a managed leaf |
| `UnmanagedLayout.LayoutFromFields` | tools/cs2cpp/CsParser.cs:486-520 | The layout is computed from the layouts of the fields |
| `UnmanagedLayout.CycleHasNoLayout` | tools/cs2cpp/CsParser.cs:475 | A type on a cycle has none |
| `StructLayout.RoundUp` | tools/cs2cpp/CsParser.cs:522 | The least multiple of the alignment that is not smaller |
| `StructLayout.ComputeIsSequential` | tools/cs2cpp/CsParser.cs:486-505 | Every offset is the least multiple of the field's alignment (at most 8, 1 with Pack=1) not below the end of the field before, the struct's alignment is the largest of these, its size the least multiple of it not below the last end |
| `StructLayout.ByteAndInt` | tools/cs2cpp/CsParser.cs:486-505 | A byte and an int take 8 bytes, 5 with Pack=1 |
| `StructLayout.FieldsFit` | tools/cs2cpp/CsParser.cs:486-505 | Every offset is a multiple of the field's own alignment (at most 8, 1 with Pack=1) and in bounds, in order, and the size is a multiple of the struct's |
| `StructLayout.FieldsDisjoint` | tools/cs2cpp/CsParser.cs:486-505 | No byte belongs to two fields |
| `StructLayout.ExactIffNoPadding` | include/memorypack/core.hpp:1966-1980 | The sum of member sizes is the size if and only if there is no padding byte |
| `StructLayout.PackedIsExact` | tools/cs2cpp/CppGenerator.cs:292-293 | With Pack=1 the assertion of EXACT holds for every non-empty type |
| `StructLayout.Scrub` | include/memorypack/core.hpp:2016-2021 | Copies every member byte and zeroes all others |
| `StructLayout.ScrubbedReadsBack` | include/memorypack/core.hpp:2016-2022 | Every member reads back |
| `StructLayout.ScrubbedIgnoresPadding` | include/memorypack/core.hpp:2002-2004 | Two scrubbed images are equal if and only if the members are: padding has no influence |
| `SchemaHash.CanonicalInjective` | tools/cs2cpp/SchemaHash.cs:21-34 | Without "(" in names and ";" in types, equal canonical strings mean equal schemas |
| `SchemaHash.BuildCanonicalString` | tools/cs2cpp/SchemaHash.cs:21-34 | The loops build the canonical string |
| `SchemaHash.CanonicalExample` | tools/cs2cpp/SchemaHash.cs:21-34 | The canonical string of an example |
| `SchemaHash.Fnv1a64` | tools/cs2cpp/SchemaHash.cs:36-45 | The loop is the fold |
| `SchemaHash.XorThenMultiply` | tools/cs2cpp/SchemaHash.cs:40-43 | A step undone by the inverse of the prime is the state with the byte's bits flipped: exclusive or first, then the product |
| `SchemaHash.KnownHashes` | tools/cs2cpp/SchemaHash.cs:36-45 | The published FNV-1a hashes of the empty text and of "a" |
| `SchemaHash.FnvInjective` | tools/cs2cpp/SchemaHash.cs:36-45 | For a fixed text the fold is injective in the start value |
| `SchemaHash.OneByteChangesHash` | tools/cs2cpp/SchemaHash.cs:36-45 | Changing one byte of the text always changes the hash |
| `SchemaHash.PrimeInvertible` | tools/cs2cpp/SchemaHash.cs:19 | The FNV prime has an inverse modulo 2^64 |
| `Half.Nearest` | include/memorypack/dotnet.hpp:253-282 | No binary16 is nearer to the exact value, ties going away from zero (roundTiesToAway of section 4.3.1 of IEEE 754-2019), which is what the code does, not the nearest-even of its comment |
| `Half.NearestEvenIff` | include/memorypack/dotnet.hpp:250-282 | The code rounds to nearest even, as its comment says, if and only if the bits are not those of a tie whose larger neighbour is odd |
| `Half.OddTieRoundsUp` | include/memorypack/dotnet.hpp:276-280 | The input 0x3F801000, 1 + 2^-11: the result is 0x3C01 although the even 0x3C00 is equally near |
| `Half.OverflowThreshold` | include/memorypack/dotnet.hpp:265-268 | Infinity exactly from 65520 up |
| `Half.FromFloatMonotone` | include/memorypack/dotnet.hpp:253-282 | Monotone in the signed value |
| `Half.FromFloatFields` | include/memorypack/dotnet.hpp:256-264 | NaN to NaN, the sign kept |
| `Half.ToFloat` | include/memorypack/dotnet.hpp:284-308 | The exact value, and FromFloat gives back every half that is not a NaN |
| `Half.Normalise` | include/memorypack/dotnet.hpp:294-297 | The loop ends and keeps the value |
| `ChatServer.RunKeepsInv` | samples/ChatServer/Program.cs:56-186 | After any handlers of any clients in lock order: a session is in exactly the room its CurrentRoom names, no empty room is stored, names of connected sessions are registered to them |
| `ChatServer.LiveNamesUnique` | samples/ChatServer/Program.cs:62-78 | Two connected sessions never share a name |
| `ChatServer.NextKeepsInv` | samples/ChatServer/Program.cs:56-186 | Each handler keeps the invariant |
| `ChatServer.RunKeepsViews` | samples/ChatServer/Program.cs:91-110 | Throughout a run everyone in a room has a name, and join snapshot plus later notifications are exactly the names of the others in it, if and only if nobody joins without a name and nobody changes its name in a room with others |
| `ChatServer.NextKeepsViews` | samples/ChatServer/Program.cs:56-186 | A step keeps that if and only if it is no join without a name and no successful login in a room with others |
| `ChatServer.LoginKeepsViews` | samples/ChatServer/Program.cs:62-77 | For a login: if and only if it is refused, or the session is in no room, or alone in it |
| `ChatServer.LoginKeepsLive` | samples/ChatServer/Program.cs:62-77 | A login keeps every registered name live if and only if it is refused or the session had no name |
| `ChatServer.SecondLoginStale` | samples/ChatServer/Program.cs:62-77 | After a second login no connected session has the first name, which stays registered |
| `ChatServer.StaleForGood` | samples/ChatServer/Program.cs:161-171 | Such a name stays registered in every continuation of the run: nobody can log in under it again |
| `ChatServer.SecondLoginRun` | samples/ChatServer/Program.cs:56-171 | A concrete run: one session logs in twice and disconnects, the second name is free, the first is not |
| `ChatServer.RunKeepsLive` | samples/ChatServer/Program.cs:161-171 | If no session logs in twice, every registered name is that of a connected session |
| `ChatServer.Server.HandleLogin` | samples/ChatServer/Program.cs:56-78 | Success exactly for a name that is not blank and not in use, which is then registered to the session; nothing else changes |
| `ChatServer.Server.HandleRoomJoin` | samples/ChatServer/Program.cs:85-110 | The session leaves its room, enters the named one (created if needed), is told who was there, and the others are told of it |
| `ChatServer.JoinReceivers` | samples/ChatServer/Program.cs:85-110 | Of every session: what it is told by a join, and its room and name afterwards |
| `ChatServer.Server.HandleRoomChat` | samples/ChatServer/Program.cs:118-133 | On the fields of the sessions: the inbox of everyone in the sender's room, the sender too, gets the message with the sender's name; every other inbox and everything else stays |
| `ChatServer.RoomMessageReceivers` | samples/ChatServer/Program.cs:118-133 | The same of the step on the tables |
| `ChatServer.Server.HandlePrivateChat` | samples/ChatServer/Program.cs:136-158 | On the fields of the sessions: the session registered under the target's name gets the message, and the sender gets it, so twice if it is its own target; nothing else changes |
| `ChatServer.PrivateMessageReceivers` | samples/ChatServer/Program.cs:136-158 | The same of the step on the tables |
| `ChatServer.Server.LeaveRoom` | samples/ChatServer/Program.cs:173-186 | The session is out of its room, the remaining members are told, an emptied room is removed |
| `ChatServer.LeaveReceivers` | samples/ChatServer/Program.cs:173-186 | Of every session: the others in the room are told, and nobody else |
| `ChatServer.Server.HandleDisconnect` | samples/ChatServer/Program.cs:161-171 | The session's current name is free again and it has left its room |
| `ChatServer.DisconnectReceivers` | samples/ChatServer/Program.cs:161-171 | Of every session: what it is told by a disconnect, and its fields afterwards |

## Left out

- Wire.FindTag: union tags are distinct in well-formed types, as the C# side requires.
- EndToEnd.ExchangeObject: members are asked to be shorter than 4 GiB, since their lengths are written as uint32_t.
- VersionTolerant.EveryMixEnds: needs a constructor that read the lengths; after a failed one (`VersionTolerant.UsableIff`) reading a member would index the lengths out of range, which is not modelled.
- UnmanagedLayout.Resolver.TryGetSize: sizes are unbounded integers; the generator's int could overflow for structs over 2 GiB.
- StructLayout.Scrub: the C++ compiler's offsets are taken to be the computed ones, which the generated size assertion checks in part.
- Reader.MemoryPackReader.ReadArray: a bool byte other than 0 and 1 is read as true; the code copies the byte into the bool object, which then has neither value.
- Reader.MemoryPackReader.ReadOptional: the same for an optional bool.
- EmitOrder.Generator.BuildEmitOrder: type names are distinct among types and union names among unions.
- SchemaHash.Fnv1a64: the hash is over the UTF-8 bytes, which are a parameter.
- ChatServer.RunKeepsViews: the join response is sent after the lock is released, so it is placed where its list is computed; delivery over the network is not modelled.
- Sockets, threads, console output and the other samples: no logic of their own.
- Roslyn syntax, name conversion, header text and command lines: parsed members are taken as given.
- Guid, DateTime, TimeSpan, Decimal, Int128, vectors, WriteNullableObject and ReadStringView: fixed-size or small variants of what is modelled.
- ReaderOptions changed while reading, SetMaxBodyLength in mid-stream and exceptions thrown by the frame callback.
- std::string contents that are not UTF-8 are bytes like any others; WriteString's UTF-16 count of more than 2^31 units wraps.
- TextDiff.Unified, enum folding, regular-expression annotations and file globbing.
