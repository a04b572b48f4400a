# Verified core of the WebRTC utility and audio libraries

This project models seven components of a WebRTC source tree in Dafny and proves what they promise:

- the jsoncpp `FastWriter` and `Reader` (`jsoncpp.cpp`),
- the length-prefixed packet framing of `AsyncTCPSocket` (`base/asynctcpsocket.cc`),
- the bit-level `BitBuffer` and `BitBufferWriter` with Exp-Golomb codes (`base/bitbuffer.cc`),
- the `Base64` encoder and flag-driven decoder (`base/base64.cc`),
- `FineAudioBuffer`, which re-chunks audio between frames and 10 ms device chunks (`audio_device/fine_audio_buffer.cc`),
- `BufferQueue` over recycled heap buffers (`base/bufferqueue.cc`, `base/buffer.h`),
- the configuration machine of `AudioProcessingImpl` and its components (`audio_processing/`).

Each component has a specification made of functions or of a state machine, laws about that specification, and, where the source works by updating state, a class or a method with loops that is proved against it.

| component | specification and laws | imperative form |
|---|---|---|
| JSON | `JsonValue`, `JsonText`, `JsonLexer`, `JsonDecode`, `JsonParser`, `JsonTree`, `JsonGrammar`, `JsonExtended`, `JsonLocality`, `JsonSteps`, `JsonReading`, `JsonAccepted`, `JsonStandard`, `JsonDeviations`, `JsonRoundTrip` | `JsonWriter`, `JsonReader`, `JsonEndToEnd` |
| TCP framing | `TcpFraming` | `AsyncTcpSocket` |
| bit buffer | `Bits`, `BitStream`, `ByteBits` | `BitBuffer` |
| Base64 | `Base64`, `Base64Strict`, `Base64Lenient` | `Base64Codec` |
| fine audio buffer | `AudioStreams` | `FineAudioBuffer` |
| buffer queue | `PacketFifo` | `ByteBuffer`, `BufferQueue` |
| audio processing | `AudioProcessingModel`, `AudioProcessingLaws`, `AudioProcessingReady`, `AudioProcessingFailures` | `AudioProcessing` |

`Words` holds the arithmetic of shifts, masks and fixed-width words, and `Maybe` the optional values. Bytes are integers from 0 to 255; every wrap-around and truncation of the source is written out.

## Main results

- **What the JSON reader accepts.** `JsonAccepted.AcceptsExactly`: a document parses without error to a value exactly when it starts, behind white space and comments, with a text of an extended grammar that means this value, is nested at most 1000 deep and is not a number that goes on. `JsonExtended` defines these texts and their meanings without the reader: RFC 8259 and what is let through besides.
- **The standard.** `JsonStandard.ParseText`: every text of the RFC 8259 grammar of `JsonGrammar`, with any white space, any escape but lone surrogates and any number that fits 64 bits or that the double conversion takes, parses to what it means when it is nested at most 1000 deep, and throws otherwise.
- **JSON round trip.** `JsonRoundTrip.WritesGrammar`: what the writer writes is a text of RFC 8259 that means the value. With the second result this gives `JsonRoundTrip.RoundTrip` and `JsonEndToEnd.WriteAndParse`. `JsonReader.Reader.Parse` computes the recursive parser of `JsonParser`, which terminates on every document, keeps its cursor inside it and returns true exactly when no error was recorded.
- **JSON locality.** `JsonLocality.SameExactly`: a successful read depends only on the text it consumed, exactly unless it is of a number that the next byte continues. `JsonDeviations` takes four ways in which the reader accepts more than RFC 8259 and gives the exact condition of each.
- **TCP delivery.** `TcpFraming.DeliveryInOrder`: over every interleaving of sends, partial flushes and reads, the receiver has a prefix of the accepted packets and everything else is in flight, byte for byte. `TcpFraming.DeliveryReachable` and `DeliveryInevitable`: from every reachable state the rest can still be delivered, and is once no event can move a byte, which takes a bounded number of events.
- **Bit streams.** `BitStream.RoundTrip`: any sequence of successful writes, from any offset, is read back and ends at the same offset.
- **Base64.** `Base64Strict.Bijection`: the strict decoder accepts exactly the encodings. `Base64Lenient.WhitespaceNeutral` and `OnlyLettersCount` give the exact verdict when whitespace or everything illegal is skipped.
- **Audio re-chunking.** `FineAudio.PlayFrames` and `FineAudio.RecordFrames`: both directions are plain queues, with the exact number of chunks; playing is complete exactly when the device answers as many requests as the frames need.
- **Buffer queue.** `BufferQueue.BufferQueue.WriteBack`, `ReadFront` and `PacketFifo.FirstInFirstOut`: a bounded queue of packets that never shares memory between packets and never allocates more buffers than the queue was ever long.
- **Audio processing.** `AudioProcessingLaws.AlwaysSafe`: what the components assert of rates and buffers holds in every state of every run. `AudioProcessingFailures.ReadyStep` gives exactly the calls after which an enabled component lacks live and configured handles, by the state before the call, its inputs and which foreign call fails.

## Where the code and its documentation or intent differ

The model follows the code.

- Base64 with required padding and whitespace allowed refuses an input whose full quanta are followed by whitespace (`Base64Lenient.WhitespaceNeutral`, `BlankRefused`).
- `AudioProcessingImpl` remembers a format before its components are initialised for it, so after a failed initialisation the same stream is let through with stale handles (`AudioProcessingFailures.StreamReadyWhen`, `StaleHandles`).
- The results of re-initialising the gain manager, of its compressor updates and of the extra options are dropped, so a call can report success and leave gain control or echo cancellation unready (`AudioProcessingFailures.InitializeReadyWhen` and `ReadyStep` say exactly when, `UnseenFailure`, `UnseenCompressorFailure` and `UnseenOptionsFailure` are runs).
- Rates from 1 to 99 Hz pass the checks of a new format, though 10 ms then hold no sample and the audio buffer's assertions fail (`AudioProcessingLaws.BuffersHold`, `LowRateAccepted`).
- The intelligibility enhancer takes its channels from the render buffer, which is missing exactly for a format without reverse channels (`AudioProcessingLaws.EnhancerFindsRender`, `RenderMissing`).
- The interface comment says that enabling AEC disables AECM and vice versa; the code refuses the second one and changes nothing (`AudioProcessingLaws.EchoRefused`, `SecondEchoRefused`).
- `AsyncTCPSocket::Send` compares a packet with the buffer size, but the frame needs two bytes more and the out-buffer asserts that it never fills up. Packets of 65536 to 65538 bytes therefore fail that assertion when nothing is pending (`TcpFraming.SendAssertsWhen`, `OversizedPacket`).
- The comparison of JSON values is a total order except on NaN, where a value is not even comparable with itself and the order has cycles (`JsonValue.ComparableWithItself`, `NaNNotTransitive`).
- The header of the bit buffer speaks of incrementing the decoded Exp-Golomb value; the code decrements it, as section 9.1 of ITU-T H.264 demands.
- The JSON reader accepts texts that RFC 8259 does not have, among them these. An integer may have no digits or leading zeros (`JsonDeviations.WholeNumbers`, `LoneMinus`, `LeadingZero`). Anything may follow the root value (`RestIgnored`, `TrailingBracket`). Behind a comment any token stands for the comma between members (`SeparatorAfterComment`, `ColonForComma`). A comma may follow the last member if its key is empty (`TrailingComma`, `CommaAtEnd`).

## Model

| member | source | states |
|---|---|---|
| JsonEndToEnd.WriteAndParse | jsoncpp.cpp:4296-4356 | Writing a canonical value and parsing the text returns true and the same value if it is nested at most 1000 deep, and throws otherwise |
| JsonAccepted.AcceptsExactly | jsoncpp.cpp:305-345 | A document is accepted with a value exactly when it conforms to the extended grammar with this value: both directions, for every document, setting and value |
| JsonAccepted.AcceptedIsText | jsoncpp.cpp:305-345 | One direction, with the text reaching exactly to where the root value ends |
| JsonReading.ParsePrefix | jsoncpp.cpp:305-345 | The other direction: whatever follows, a text of the extended grammar parses to what it means, or raises the stack limit exactly when it is nested deeper than 1000 |
| JsonAccepted.ValueOf | jsoncpp.cpp:347-429 | Every value that is read, anywhere and at any depth, is such a text with that meaning |
| JsonReading.ReadText | jsoncpp.cpp:347-429 | Such a text standing anywhere in a document behind a filler is read to its meaning with the cursor right behind it, at every depth |
| JsonAccepted.ItemsOf | jsoncpp.cpp:702-738 | The elements of every array that is read, with comments around them |
| JsonReading.ReadElements | jsoncpp.cpp:702-738 | Elements are appended in order, through fillers and commas |
| JsonAccepted.MembersOf | jsoncpp.cpp:646-700 | The members of every object that is read: commas or, behind a comment, other lexemes between them, and an end without a member only at the start or behind an empty key |
| JsonReading.ReadMembersText | jsoncpp.cpp:646-700 | Members are stored in order, a later duplicate replacing an earlier one |
| JsonAccepted.StringOf | jsoncpp.cpp:825-876 | Every string that decodes is made of bytes, escapes and pairs of escapes that mean the result |
| JsonReading.StringReads | jsoncpp.cpp:825-876 | Such a string is one token, whatever follows it, and decodes to what it means |
| JsonAccepted.NumberOf | jsoncpp.cpp:612-632 | Every number token is a number of the extended grammar |
| JsonReading.NumeralToken | jsoncpp.cpp:612-632 | Such a number is one token if nothing that follows continues it |
| JsonReading.NumeralDecodes | jsoncpp.cpp:750-790 | A whole number that fits 64 bits decodes to this integer with the right tag; any other number goes to the double conversion |
| JsonAccepted.FillerOf | jsoncpp.cpp:431-439 | What is skipped before a token is white space and complete comments |
| JsonReading.SkipFiller | jsoncpp.cpp:431-439 | White space and comments are skipped up to the next token |
| JsonAccepted.LexemeOf | jsoncpp.cpp:441-510 | Every token that something follows is a lexeme |
| JsonReading.LexemeToken | jsoncpp.cpp:441-510 | A lexeme in front of a member is one token |
| JsonStandard.ParseText | jsoncpp.cpp:305-345 | Every text of the RFC 8259 grammar whose other numbers the double conversion takes, between white space, and a container where the settings demand one, is accepted whole, without error, with the value it means; or the stack limit is raised, exactly when it is nested deeper than 1000 |
| JsonStandard.IsExtended | jsoncpp.cpp:347-429 | Every text of RFC 8259 is a text of the extended grammar, written alike, with the same meaning and depth |
| JsonRoundTrip.WritesGrammar | jsoncpp.cpp:4304-4356 | What the writer writes for a canonical value is a text of the grammar that means this value, nested as deep as the value |
| JsonRoundTrip.RoundTrip | jsoncpp.cpp:305-345 | The parser's result on every written document: success, all input used, no error, the value itself; or the stack limit |
| JsonLocality.SameExactly | jsoncpp.cpp:347-429 | A successful read gives the same value, cursor and depth on a document that starts with the text it consumed, exactly unless it is of a number and the next byte continues it |
| JsonLocality.NumberEndsAt | jsoncpp.cpp:612-632 | A number ends where it did exactly when the next byte is no digit, no point before a point or exponent, no exponent mark before one, and no sign right behind one |
| JsonLocality.SameValue | jsoncpp.cpp:347-429 | The same within any longer common prefix, through arrays, objects and comments |
| JsonLocality.SameTokenAt | jsoncpp.cpp:441-510 | A token is the same on every document that agrees with it up to its end and the byte that ended it |
| JsonLocality.SameDecoding | jsoncpp.cpp:825-876 | Decoding a string depends only on the bytes between its quotes |
| JsonDeviations.WholeNumbers | jsoncpp.cpp:750-790 | Every run of digits with an optional minus sign that fits 64 bits is accepted as an integer; it is no number of RFC 8259 exactly when it has no digit or a zero before another digit |
| JsonDeviations.ParseWhole | jsoncpp.cpp:305-345 | Each such text alone is an accepted document |
| JsonDeviations.LoneMinus | jsoncpp.cpp:750-790 | A lone minus sign parses to 0 |
| JsonDeviations.LeadingZero | jsoncpp.cpp:750-790 | The text 07 parses to 7 |
| JsonDeviations.RestIgnored | jsoncpp.cpp:305-345 | A root value that reads without error reads the same whatever follows it, exactly unless that continues a root number; then verdict and value of the document do not depend on what follows |
| JsonDeviations.TrailingBracket | jsoncpp.cpp:305-345 | An empty array followed by a closing bracket is accepted |
| JsonDeviations.SeparatorAfterComment | jsoncpp.cpp:685-697 | A token that is neither comma nor closing bracket is taken for the comma exactly when a comment precedes it, and reported otherwise |
| JsonDeviations.ColonForComma | jsoncpp.cpp:685-697 | A document with a comment and a colon between two members is accepted with both members |
| JsonDeviations.TrailingComma | jsoncpp.cpp:652-697 | A comma before the closing bracket is accepted exactly behind an empty key |
| JsonDeviations.CommaAtEnd | jsoncpp.cpp:652-697 | A document with such a comma is accepted |
| JsonParser.Parse | jsoncpp.cpp:305-345 | Terminates on every document; the cursor stays inside it; true exactly when no error is recorded; never more than two errors |
| JsonParser.ReadValue | jsoncpp.cpp:347-429 | The cursor moves forward within the document; success records nothing and balances the depth, failure records exactly one error |
| JsonParser.ReadMembers | jsoncpp.cpp:646-700 | The same promises for objects, through the recovery paths |
| JsonParser.ReadItems | jsoncpp.cpp:702-738 | The same promises for arrays, through the recovery paths |
| JsonParser.ReadValueWellFormed | jsoncpp.cpp:347-429 | Whatever the document, the value left behind is well formed: keys sorted and distinct at every level |
| JsonLexer.TokenAt | jsoncpp.cpp:441-510 | A token lies within the document, is empty only at its end, and a string token holds both quotes |
| JsonLexer.SkipComments | jsoncpp.cpp:431-439 | The token after comments is no comment and lies within the document |
| JsonLexer.RecoverTo | jsoncpp.cpp:945-956 | Recovery terminates within the document |
| JsonReader.Reader.Parse | jsoncpp.cpp:305-345 | The imperative parser computes the specification: verdict, cursor, depth, errors and root, with the node stack back at the root |
| JsonReader.Reader.ReadValue | jsoncpp.cpp:347-429 | Replaces the node on top of the stack by what the specification reads, leaves the rest of the tree and the stack alone |
| JsonReader.Reader.ReadArray | jsoncpp.cpp:702-738 | Reads elements into the current node in order, as the specification does |
| JsonReader.Reader.ReadObject | jsoncpp.cpp:646-700 | Reads members into the current node, a later duplicate replacing an earlier one, as the specification does |
| JsonReader.Reader.ReadToken | jsoncpp.cpp:441-510 | The token the specification finds, with the cursor at its end |
| JsonReader.Reader.SkipCommentTokens | jsoncpp.cpp:431-439 | The first token after comments, where comments are allowed |
| JsonReader.Reader.ReadNumber | jsoncpp.cpp:612-632 | The cursor stops at the end of the number |
| JsonReader.Reader.ReadString | jsoncpp.cpp:634-644 | The cursor stops after the closing quote, or at the end |
| JsonReader.Reader.ReadComment | jsoncpp.cpp:533-554 | The cursor stops at the end of the comment of either style |
| JsonReader.Reader.DecodeNumber | jsoncpp.cpp:750-790 | Yields the integer exactly when it fits 64 bits, without wrap-around in the loop, and defers to the double conversion otherwise |
| JsonReader.Reader.DecodeString | jsoncpp.cpp:825-876 | The decoded bytes, or the error with its position |
| JsonReader.Reader.DecodeUnicodeCodePoint | jsoncpp.cpp:878-905 | The code point of an escape or a surrogate pair, or the error |
| JsonReader.Reader.DecodeUnicodeEscapeSequence | jsoncpp.cpp:907-933 | The value of four hexadecimal digits, or the error |
| JsonReader.Reader.RecoverFromError | jsoncpp.cpp:945-956 | Skips to the wanted token and drops the errors recorded on the way |
| JsonReader.Reader.AddErrorAndRecover | jsoncpp.cpp:958-963 | Records one error and recovers |
| JsonDecode.Utf8Faithful | jsoncpp.cpp:104-130 | The bytes of every code point up to 10FFFF decode to it by section 3 of RFC 3629, in as many octets as that section assigns |
| JsonDecode.PrefixBits | jsoncpp.cpp:104-130 | The arithmetic form of the octets is the masks and ors of the source |
| JsonDecode.SurrogateBits | jsoncpp.cpp:878-905 | The arithmetic form of a surrogate pair is the shifts and masks of the source |
| JsonTree.GetSet | jsoncpp.cpp:965 | What is stored through a node pointer is found there again |
| JsonTree.SetChild | jsoncpp.cpp:702-738 | Storing through a pointer to a child is storing the changed parent |
| JsonText.DecimalInverse | jsoncpp.cpp:149-155 | The decimal text of a number denotes it |
| JsonText.DecimalFits | jsoncpp.cpp:135-142 | Every 64-bit number has at most 20 digits, so it fits the fixed buffer |
| JsonWriter.UIntToString | jsoncpp.cpp:149-155 | Fills the fixed buffer from its end with the digits and a terminator, and touches nothing else |
| JsonWriter.IntToString | jsoncpp.cpp:4069-4083 | The decimal text of every signed 64-bit integer, including the least one |
| JsonWriter.UIntValueToString | jsoncpp.cpp:4085-4091 | The decimal text of every unsigned 64-bit integer |
| JsonWriter.StrNPbrk | jsoncpp.cpp:4202-4215 | Finds a byte of a set exactly when there is one |
| JsonWriter.ContainsControlCharacter0 | jsoncpp.cpp:4059-4067 | Finds a control character or NUL exactly when there is one |
| JsonWriter.ValueToQuotedString | jsoncpp.cpp:4216-4277 | The unescaped fast path and the escaping path give the same quoted text |
| JsonWriter.FastWriter.Write | jsoncpp.cpp:4296-4302 | The document text of the value under the writer's options |
| JsonWriter.FastWriter.WriteValue | jsoncpp.cpp:4304-4356 | Appends exactly the text of the value |
| JsonWriter.FastWriter.WriteArray | jsoncpp.cpp:4331-4340 | Appends the items in order, with commas between them only |
| JsonWriter.FastWriter.WriteObject | jsoncpp.cpp:4341-4354 | Appends the members in key order, each looked up by its name |
| JsonValue.Trichotomy | jsoncpp.cpp:2911-2955 | Exactly one of a < b, b < a and a == b holds, through nested arrays and objects without NaN |
| JsonValue.ComparableWithItself | jsoncpp.cpp:2911-3005 | A value is less than or equal to itself exactly when it holds no NaN |
| JsonValue.NaNNotTransitive | jsoncpp.cpp:2911-2955 | Three arrays with a NaN among them form a cycle of the order |
| JsonValue.LessTransitive | jsoncpp.cpp:2911-2955 | The order is transitive on values without NaN |
| JsonValue.EqualIsIdentity | jsoncpp.cpp:2963-3005 | Two values are equal exactly when they are the same and hold no NaN |
| JsonValue.BytesTrichotomy | jsoncpp.cpp:2674-2696 | Keys are totally ordered by bytes, ties broken by length |
| JsonValue.BytesLessTransitive | jsoncpp.cpp:2674-2685 | The order of keys is transitive |
| TcpFraming.DeliveryInOrder | base/asynctcpsocket.cc:151-294 | In every run the delivered packets are a prefix of the accepted ones, and input buffer, wire and out-buffer together are exactly the frames of the rest |
| TcpFraming.QuiescentDelivery | base/asynctcpsocket.cc:151-294 | When nothing is in flight every accepted packet was delivered |
| TcpFraming.DeliveryReachable | base/asynctcpsocket.cc:151-294 | From every reachable state, write and read events that each move a byte deliver every packet accepted so far |
| TcpFraming.DeliveryInevitable | base/asynctcpsocket.cc:151-294 | However they are scheduled, at most twice the unsent and once the unread bytes many such events can happen, and when none can any more everything accepted has been delivered |
| TcpFraming.NextKeepsInv | base/asynctcpsocket.cc:151-294 | Every step of sending, flushing, writing and reading keeps the invariant |
| TcpFraming.LeftoverBound | base/asynctcpsocket.cc:196-213 | An incomplete frame holds at most 65536 bytes, so the overflow branch is unreachable and each receive is offered at least two bytes |
| TcpFraming.Parse | base/asynctcpsocket.cc:275-294 | The frame loop terminates and leaves an incomplete frame |
| TcpFraming.ParseFrames | base/asynctcpsocket.cc:275-294 | Parsing a concatenation of frames gives back the packets with their boundaries |
| TcpFraming.ParseConserves | base/asynctcpsocket.cc:275-294 | No byte is lost: the frames of the packets and the leftover are the input |
| TcpFraming.ParseSegments | base/asynctcpsocket.cc:196-215 | However the bytes are split into reads, the same packets come out |
| TcpFraming.FrameReadsBack | base/asynctcpsocket.cc:249-273 | A packet is read back from its frame if and only if it has at most 65535 bytes |
| TcpFraming.FramesPrefix | base/asynctcpsocket.cc:275-294 | Frames determine packets: what is a prefix in bytes is a prefix in packets |
| TcpFraming.SendAssertsWhen | base/asynctcpsocket.cc:168-172 | Both appends of a send meet the assertion on the buffer size exactly when the packet is larger than the buffer, something is pending, or the packet has at most 65535 bytes |
| TcpFraming.OversizedPacket | base/asynctcpsocket.cc:249-273 | A packet of 65536 bytes passes the size check and fails the assertion |
| AsyncTcpSocket.AsyncTCPSocket.Send | base/asynctcpsocket.cc:249-273 | Where the assertions hold: drops when blocked or too large, otherwise frames and flushes; reports and keeps what the specification says |
| AsyncTcpSocket.AsyncTCPSocket.FlushOutBuffer | base/asynctcpsocket.cc:151-166 | Hands on what the socket took and moves the rest to the front |
| AsyncTcpSocket.AsyncTCPSocket.AppendToOutBuffer | base/asynctcpsocket.cc:168-172 | Appends to the pending bytes |
| AsyncTcpSocket.AsyncTCPSocket.OnWriteEvent | base/asynctcpsocket.cc:217-227 | Flushes pending bytes and signals readiness exactly when none remain |
| AsyncTcpSocket.AsyncTCPSocket.ProcessInput | base/asynctcpsocket.cc:275-294 | Emits exactly the complete frames and keeps the rest at the front of the buffer |
| AsyncTcpSocket.AsyncTCPSocket.OnReadEvent | base/asynctcpsocket.cc:178-215 | Emits the packets of the old bytes and the received ones; a failed receive changes nothing; there is always room for two more bytes |
| BitStream.RoundTrip | base/bitbuffer.cc:110-188 | Any successful sequence of bit fields and Exp-Golomb codes reads back, values modulo 2^n for bit fields, and ends at the same offset |
| BitStream.GolombMeaning | base/bitbuffer.cc:158-188 | Decoding meets section 9.1 of ITU-T H.264: success exactly when z <= 31 and z + 1 bits follow, value 2^z - 1 plus the suffix, 2z + 1 bits consumed |
| BitStream.GolombReadsBack | base/bitbuffer.cc:269-281 | A code reads back wherever it stands in a stream |
| BitStream.WriteAllKeeps | base/bitbuffer.cc:224-267 | Later writes keep everything before their offset and the length |
| ByteBits.LowestBits | base/bitbuffer.cc:21-24 | The number formed by the lowest bits of a byte |
| ByteBits.HighestBits | base/bitbuffer.cc:28-33 | The number formed by the highest bits of a byte |
| ByteBits.HighestByte | base/bitbuffer.cc:36-38 | The top eight bits of a 64-bit word |
| ByteBits.PartialMask | base/bitbuffer.cc:50-55 | The mask has ones exactly on the bits to be overwritten |
| ByteBits.WritePartialByte | base/bitbuffer.cc:43-60 | The addressed bits become the top bits of the source, earlier bits are kept, and later ones are those of the target joined with lower bits of the source, so exactly kept when it has none |
| BitBuffer.BitBufferWriter.RemainingBitCount | base/bitbuffer.cc:82-84 | What is left behind the offset |
| BitBuffer.BitBufferWriter.ConsumeBits | base/bitbuffer.cc:148-156 | Moves the offset by the bits if they are there, and not at all otherwise |
| BitBuffer.BitBufferWriter.Seek | base/bitbuffer.cc:198-206 | Accepts exactly the offsets inside the buffer and its end |
| BitBuffer.BitBufferWriter.PeekBits | base/bitbuffer.cc:110-138 | Succeeds exactly for at most 32 bits that are there, with the big-endian number of the addressed bits |
| BitBuffer.BitBufferWriter.ReadBits | base/bitbuffer.cc:140-142 | The same, and moves the offset on success only |
| BitBuffer.BitBufferWriter.SkipZeros | base/bitbuffer.cc:167-173 | Consumes exactly the run of zero bits at the offset and counts it |
| BitBuffer.BitBufferWriter.ReadExponentialGolomb | base/bitbuffer.cc:158-188 | The code the specification reads at the offset; a failure restores the offset |
| BitBuffer.BitBufferWriter.WriteBits | base/bitbuffer.cc:224-267 | Changes exactly the addressed bits to the low bits of the value and moves the offset, or changes nothing |
| BitBuffer.BitBufferWriter.WriteExponentialGolomb | base/bitbuffer.cc:269-281 | Writes the code of every value but 2^32 - 1, or changes nothing |
| BitBuffer.CountBitsUsed | base/bitbuffer.cc:63-70 | The number of binary digits |
| Base64Strict.Bijection | base/base64.cc:98-258 | The strict decoder accepts a string with some bytes if and only if it is their encoding |
| Base64Strict.RoundTrip | base/base64.cc:98-258 | Under every combination of flags that allows pads, decoding an encoding succeeds, uses all input and returns the bytes |
| Base64Strict.EncodeOfDecode | base/base64.cc:138-258 | What the strict decoder accepts is the encoding of what it returns |
| Base64Strict.StrictScan | base/base64.cc:138-190 | A strict scan passes over letters and then pads, and nothing else |
| Base64Lenient.WhitespaceNeutral | base/base64.cc:143-253 | Decoding with whitespace allowed gives the bytes of strict decoding without it, and the same verdict unless pads are required and whitespace follows full quanta |
| Base64Lenient.BlankRefused | base/base64.cc:241-249 | A single blank is refused although nothing but whitespace was added to an accepted input |
| Base64Lenient.OnlyLettersCount | base/base64.cc:143-253 | Decoding with everything allowed gives the bytes of the letters alone; the exact verdict for every combination of required pads and required end, by the letters left over and the pads behind the last one |
| Base64.DecodeTable | base/base64.cc:41-69 | Values below 64 are exactly the letters, by the inverse of the alphabet; pads are exactly the equals sign |
| Base64.LetterClass | base/base64.cc:32-35 | The decode table inverts the alphabet |
| Base64Codec.EncodeFromArray | base/base64.cc:98-136 | The loop over shifts and masks computes the encoding |
| Base64Codec.EncodeQuantum | base/base64.cc:108-135 | One to three bytes become their four characters, the rest of the result untouched |
| Base64Codec.GetNextQuantum | base/base64.cc:138-190 | The values in the buffer filled up with zeros, the pad flag and the position after rolling back, as the specification says |
| Base64Codec.QuantumBytes | base/base64.cc:228-240 | The whole bytes of a quantum and the bits left over |
| Base64Codec.DecodeFromArray | base/base64.cc:204-258 | Verdict, bytes and characters used, as the specification says, for all flags |
| FineAudio.PlayFrames | audio_device/fine_audio_buffer.cc:67-112 | Over any number of calls: complete exactly when the device answers the needed requests, their number the quotient rounded up; then exactly these were pulled and the frames concatenated are a prefix of their samples |
| FineAudio.RecordFrames | audio_device/fine_audio_buffer.cc:114-148 | Over any number of calls exactly the whole chunks of the recorded samples are delivered, in order |
| FineAudio.FineAudioBuffer.constructor | audio_device/fine_audio_buffer.cc:23-43 | Both streams start empty; their caches hold what the checks need exactly for rates of at least 100 Hz |
| FineAudio.FineAudioBuffer.GetPlayoutData | audio_device/fine_audio_buffer.cc:67-112 | Succeeds exactly when the device answers as many requests as the frame needs, and takes exactly these answers; then the next frame of the stream; at most a frame and a chunk of the caller's buffer are touched; a failing device starts the stream anew |
| FineAudio.FineAudioBuffer.FillFrame | audio_device/fine_audio_buffer.cc:77-112 | The slow path, with the same verdict: cached samples, new chunks, and the rest cached |
| FineAudio.PullChunks | audio_device/fine_audio_buffer.cc:79-99 | Requests as many chunks as the missing samples need up to the first refusal, and writes them one after another |
| FineAudio.FineAudioBuffer.ResetPlayout | audio_device/fine_audio_buffer.cc:54-58 | The stream starts anew |
| FineAudio.FineAudioBuffer.DeliverRecordedData | audio_device/fine_audio_buffer.cc:114-148 | The frame is appended to the recording; delivered samples and cache make up the recording; less than a chunk stays cached |
| FineAudio.FineAudioBuffer.StoreFrame | audio_device/fine_audio_buffer.cc:119-134 | The frame follows the cached samples inside the cache, also after compaction |
| FineAudio.FineAudioBuffer.Compact | audio_device/fine_audio_buffer.cc:122-130 | Moving to the front keeps the cached samples, though source and target overlap |
| FineAudio.FineAudioBuffer.DeliverChunks | audio_device/fine_audio_buffer.cc:138-147 | Chunks leave in order until less than a chunk remains |
| FineAudio.FineAudioBuffer.ResetRecord | audio_device/fine_audio_buffer.cc:60-65 | The recording starts anew |
| AudioStreams.PullsChunks | audio_device/fine_audio_buffer.cc:86-99 | Pulling succeeds exactly when the next answers are all chunks, and uses up exactly these |
| AudioStreams.RequestsAddUp | audio_device/fine_audio_buffer.cc:83-89 | The requests of one more frame bring the total to what all frames need |
| AudioStreams.ChunksDelivered | audio_device/fine_audio_buffer.cc:135-147 | What was delivered is the longest prefix of whole chunks |
| PacketFifo.FirstInFirstOut | base/bufferqueue.cc:35-78 | In every run the returned packets are the first accepted ones in order, each whole or cut to the room, and the queue holds the rest within its capacity |
| BufferQueue.BufferQueue.WriteBack | base/bufferqueue.cc:57-78 | Appends the packet unless full; every buffer stays in exactly one list with memory of its own; buffers exist only as far as the queue was ever long |
| BufferQueue.BufferQueue.ReadFront | base/bufferqueue.cc:35-55 | Takes the first packet, truncated to the room; the rest of the caller's memory and all other packets are untouched |
| BufferQueue.BufferQueue.TakeBuffer | base/bufferqueue.cc:64-70 | A recycled buffer if there is one, otherwise a new one, shared with no packet |
| BufferQueue.BufferQueue.Fill | base/bufferqueue.cc:72-72 | Storing a packet leaves every other packet alone |
| BufferQueue.BufferQueue.Size | base/bufferqueue.cc:30-33 | The number of packets |
| ByteBuffer.Buffer.constructor | base/buffer.cc:33-38 | The capacity is the larger of the two sizes |
| ByteBuffer.Buffer.EnsureCapacity | base/buffer.h:161-170 | Grows if needed and keeps the contents |
| ByteBuffer.Buffer.SetSize | base/buffer.h:153-156 | Truncates the contents or keeps them as a prefix |
| ByteBuffer.Buffer.AppendData | base/buffer.h:135-142 | Appends to the contents, in place or after growing |
| ByteBuffer.Buffer.SetData | base/buffer.h:122-126 | Replaces the contents |
| AudioProcessingLaws.AlwaysSafe | audio_processing/audio_processing_impl.cc:370-445 | In every run: AEC and AECM exclude each other, AECM means at most 16 kHz, bands have at most 160 frames, a splitting filter exists whenever bands are split or merged, channels match |
| AudioProcessingLaws.NextKeeps | audio_processing/audio_processing_impl.cc:310-455 | Every public call keeps the invariant |
| AudioProcessingLaws.InitKeepsEnabled | audio_processing/processing_component.cc:67-94 | Initialising enables and disables nothing |
| AudioProcessingLaws.EnableKeeps | audio_processing/echo_control_mobile_impl.cc:158-166 | Enabling, refused or failed or not, keeps the invariant |
| AudioProcessingLaws.RenderPresent | audio_processing/audio_processing_impl.cc:751-785 | A reverse stream that is let through has a render buffer |
| AudioProcessingLaws.BuffersHold | audio_processing/audio_buffer.cc:46-68 | The buffers of an accepted format meet their assertions exactly when the rates are at least 100 Hz |
| AudioProcessingLaws.LowRateAccepted | audio_processing/audio_processing_impl.cc:370-445 | A run sets up mono at 50 Hz without an error and leaves a capture buffer that fails its assertions |
| AudioProcessingLaws.EnhancerFindsRender | audio_processing/audio_processing_impl.cc:1127-1135 | The render buffer the enhancer reads exists exactly for formats with reverse channels |
| AudioProcessingLaws.RenderMissing | audio_processing/audio_processing_impl.cc:1127-1135 | An accepted format leaves the enhancer without a render buffer |
| AudioProcessingLaws.EchoRefused | audio_processing/echo_cancellation_impl.cc:166-174 | Enabling an echo component is refused because of the other exactly when the other is enabled, and then changes nothing. The source also maps a handle's own bad-parameter error to that code; the model reports it as a failure of the handle |
| AudioProcessingLaws.SecondEchoRefused | audio_processing/echo_control_mobile_impl.cc:158-166 | A run enables AECM and is then refused AEC |
| AudioProcessingLaws.DataProcessedMeans | audio_processing/audio_processing_impl.cc:1032-1058 | Data is processed exactly when the beamformer or a component other than level estimation and voice detection is enabled |
| AudioProcessingReady.InitMakesReady | audio_processing/processing_component.cc:67-110 | Initialising an enabled component succeeds exactly when all its handles are live and configured |
| AudioProcessingReady.ManagerReady | audio_processing/agc/agc_manager_direct.cc:159-187 | The gain manager's re-initialisation, which runs gain control's set-up several times, leaves it ready exactly when none of it failed |
| AudioProcessingReady.InitializeReady | audio_processing/audio_processing_impl.cc:310-368 | All enabled components are ready exactly when no error is reported and, where gain control is enabled, the unreported re-initialisation by the manager succeeded too |
| AudioProcessingReady.CompressReady | audio_processing/agc/agc_manager_direct.cc:409-441 | An update of the compressor leaves gain control ready exactly when its handles are live and the unreported call succeeded |
| AudioProcessingReady.ReadyByErrors | audio_processing/audio_processing_impl.cc:310-467 | From a ready state, the errors of a call, reported and dropped, say exactly whether it leaves an enabled component unready |
| AudioProcessingReady.StreamFindsReady | audio_processing/audio_processing_impl.cc:449-455 | Exactly when a stream that is let through finds all components ready, by what was ready before, whether the format changed, and the errors dropped |
| AudioProcessingFailures.ReadyUnlessHit | audio_processing/processing_component.cc:67-110 | Initialising an enabled component leaves it ready exactly when the foreign code fails none of the handles it needs; creation can only fail a missing one |
| AudioProcessingFailures.InitHit | audio_processing/processing_component.cc:67-110 | Which error it reports, by the failing call |
| AudioProcessingFailures.ManagerHit | audio_processing/agc/agc_manager_direct.cc:159-187 | On live handles the gain manager fails exactly when its set-up fails an initialisation, or it or one of three settings a configuration |
| AudioProcessingFailures.InitializeReadyWhen | audio_processing/audio_processing_impl.cc:310-368 | After an initialisation all enabled components are ready exactly when the foreign code fails no handle of any of them, nor of an enabled gain control under its manager |
| AudioProcessingFailures.StreamReadyWhen | audio_processing/audio_processing_impl.cc:449-455 | Exactly which streams are let through, and exactly when they find all components ready: by what was ready before for the present format, by the failing calls for a new one |
| AudioProcessingFailures.ReadyStep | audio_processing/audio_processing_impl.cc:310-467 | From a ready state, exactly which calls leave an enabled component unready, by the state before, the inputs and the failing foreign call |
| AudioProcessingFailures.ErrorsTell | audio_processing/audio_processing_impl.cc:310-467 | Both descriptions of these calls agree |
| AudioProcessingFailures.ReadyThroughout | audio_processing/audio_processing_impl.cc:310-467 | Without such a call components are ready in every state of a run |
| AudioProcessingFailures.StaleHandles | audio_processing/audio_processing_impl.cc:343-348 | A run leaves gain control without live handles and lets the same stream through |
| AudioProcessingFailures.UnseenFailure | audio_processing/audio_processing_impl.cc:1095-1105 | A run in which an initialisation reports success and the gain manager leaves gain control unready |
| AudioProcessingFailures.UnseenCompressorFailure | audio_processing/agc/agc_manager_direct.cc:409-441 | A run in which a stream reports success and a compressor update leaves gain control unready |
| AudioProcessingFailures.UnseenOptionsFailure | audio_processing/audio_processing_impl.cc:457-467 | A run in which setting options reports success and leaves echo cancellation unready |
| AudioProcessingModel.NumBands | audio_processing/audio_buffer.cc:35-42 | Between one and three bands that divide the frames exactly |
| AudioProcessing.ProcessingComponent.InitializeHandles | audio_processing/processing_component.cc:67-94 | The loop creates missing handles and initialises them up to the first failure, as the specification says |
| AudioProcessing.ProcessingComponent.Configure | audio_processing/processing_component.cc:96-110 | The loop configures handles up to the first failure |
| AudioProcessing.ProcessingComponent.Initialize | audio_processing/echo_control_mobile_impl.cc:239-250 | AECM refuses rates above 16 kHz; the other components initialise |
| AudioProcessing.ProcessingComponent.EnableComponent | audio_processing/processing_component.cc:38-52 | Success means the flag is as asked; failure means an enabling was taken back |
| AudioProcessing.ProcessingComponent.Destroy | audio_processing/processing_component.cc:28-36 | No handle is left |
| AudioProcessing.AudioProcessingImpl.constructor | audio_processing/audio_processing_impl.cc:173-242 | Everything disabled, mono at 16 kHz |
| AudioProcessing.AudioProcessingImpl.InitializeLocked | audio_processing/audio_processing_impl.cc:310-368 | New buffers, components initialised in order up to the first failure, then the gain manager; the error reported and the one dropped |
| AudioProcessing.AudioProcessingImpl.InitializeComponents | audio_processing/audio_processing_impl.cc:342-348 | Components are initialised in order up to the first failure |
| AudioProcessing.AudioProcessingImpl.InitializeExperimentalAgc | audio_processing/audio_processing_impl.cc:1095-1105 | The manager sets up gain control again, and only gain control changes |
| AudioProcessing.AudioProcessingImpl.CheckConfig | audio_processing/audio_processing_impl.cc:371-394 | The error of the first stream that is refused, then of the format as a whole |
| AudioProcessing.AudioProcessingImpl.InitializeConfig | audio_processing/audio_processing_impl.cc:370-445 | A refused format changes nothing; an accepted one sets the rates and initialises, with the errors reported and dropped |
| AudioProcessing.AudioProcessingImpl.MaybeInitializeLocked | audio_processing/audio_processing_impl.cc:449-455 | An unchanged format does nothing; any other one initialises, with the errors reported and dropped |
| AudioProcessing.AudioProcessingImpl.SetEnabled | audio_processing/echo_cancellation_impl.cc:166-174 | Refuses the second echo component, otherwise enables or disables as the specification says |
| AudioProcessing.AudioProcessingImpl.IsDataProcessed | audio_processing/audio_processing_impl.cc:1032-1058 | True exactly when the beamformer, an echo component, gain control, the high-pass filter or noise suppression is enabled |
| AudioProcessing.AudioProcessingImpl.ProcessStreamLocked | audio_processing/audio_processing_impl.cc:640-716 | In every reachable state bands are merged only if they were split, and with ready components every component finds handles for its channels; it says whether they do |

## Left out

- JSON reals, their text and their locale handling: the conversion to a double is a function given to the parser that succeeds or fails. Doubles are reals, infinities and NaN, without rounding.
- JSON strings with escapes of lone surrogates: RFC 8259 lets a reader do as it likes, `JsonStandard.ParseText` is about the other characters, and `JsonExtended` says what the reader makes of them.
- JSON comments as stored text, the styled writers, paths, numeric keys and the placeholder options: formatting that weakens the round trip. Dropped null placeholders are modelled in the writer and excluded from the round trip.
- `OurReader` in `jsoncpp.cpp`: a near copy of `Reader`.
- Sparse JSON arrays, whose size is the highest index plus one.
- Line and column texts of JSON error messages.
- Connecting, listening, accepting and closing of TCP sockets, and UDP: thin layers over the operating system. What the socket takes or delivers is a parameter of each step.
- AsyncTcpSocket.AsyncTCPSocket.Send: asks for the source's own assertions, whose exact condition is `TcpFraming.SendAssertsWhen`.
- `ReadUInt8`, `ReadUInt16`, `ReadUInt32`, `ConsumeBytes`, `GetCurrentOffset` and the matching writes of the bit buffer: instances of the members modelled.
- BitBuffer.BitBufferWriter.WriteBits: bit counts of zero or above 64 are excluded when the buffer has room, because the shift of the source is undefined for them.
- `IsBase64Char`, `GetNextBase64Char` and `IsBase64Encoded`: one-line scans of the alphabet.
- The Base64 tables are stated by ranges instead of character by character.
- The audio device behind `FineAudioBuffer`: it answers each request with a chunk or with nothing, in any order; sizes are unbounded integers where the source uses `int`.
- FineAudio.FineAudioBuffer.GetPlayoutData: asks for a rate of at least 100 Hz, as the constructor's contract states it, because a chunk then holds a sample and the source divides by its size.
- Moving, swapping and clearing of `Buffer`, and the destructor of `BufferQueue`.
- The signal processing of the audio components, resamplers, the beamformer's own work, debug dumps and histograms: foreign code whose calls succeed or fail arbitrarily. Copying, downmixing and interleaving of samples are not modelled.
- Locks: every locked public call is one step.
