# PackStream and session messages of new-remoting-ruby

This project models two parts of a small Ruby client for the Neo4j graph
database, and proves properties of the model in Dafny.

- **The PackStream codec.** `PackStream::Packer` turns a Ruby object (nil,
  true, false, an Integer, a String, an Array or a Hash) into a PackStream
  byte string. `PackStream::Unpacker` reads values back from a stream of
  bytes, one marker byte at a time. `PackStream.marker_type_and_size`
  classifies marker bytes.
- **The message layer of `Neo4j::Session`.**
  - A `Message` has a type code, a type symbol, a correlation id and
    arguments.
  - A message packs as a list of its struct.
  - A `Job` collects messages and packs them, in order, into one request
    body.
  - `query` builds a job of RUN and PULL_ALL.
  - `response_messages` reads a response body back into messages.
  - `Message#value` turns the records of an item message into hashes.

Modules:

- `PackStream` (pack_stream.dfy) holds the values, MARKER_TYPES and
  MARKER_BYTES, the encoder, and the decoder as functions on the bytes
  that remain in the stream.
- `PackStreamUnpacker` (unpacker.dfy) holds the `Unpacker` class. It is a
  cursor over the stream, and each of its methods is proved to do what
  the matching `PackStream` decoder function says.
- `PackStreamProperties` (pack_stream_properties.dfy) holds the lemmas
  about the codec.
- `Session` (session.dfy) holds TYPE_CODES and CODE_TYPES, `Message`,
  `Message#value`, the `Job` class, the query job and `response_messages`.
- `SessionProperties` (session_properties.dfy) holds the lemmas about the
  messages.

Ruby exceptions and nil results are explicit values.

- `Packed` is a byte string, the nil that `packed_stream` returns for an
  unsupported object, or an exception.
- `Decoded` is a value and the bytes after it, or the NoMethodError that
  reading past the end of the stream raises.
- `Session.Result` carries the message-level errors.

Where the code and its description disagree, the model follows the code.

- The C8 range is -255 to -16 inclusive: the code writes the half-open
  range `-0xFF...-0x0F`.
- Negative integers are printed in hexadecimal with a sign, so -16
  encodes as C8 FF 00.
- Integers of 256 or more whose hexadecimal text has an odd number of
  digits do not encode their own value: 256 encodes as C9 10 00. The
  integers below 16 also have one digit, but they pack as tiny integers
  and encode as themselves.
- The sized text, list and map markers take one size byte whatever width
  they announce.
- The integer markers C8 to CB read 8, 16, 32 or 64 bytes: they take the
  bit width as the byte count.

Lemmas state each of these points.

## Model

| member | source | states |
|---|---|---|
| PackStream.KeysOfElements | lib/pack_stream.rb:180-183 | the keys of a hash are its entries' keys, in insertion order |
| PackStream.LookupFindsKey | lib/pack_stream.rb:180-183 | `hash[k]` finds a value exactly when k is one of the keys |
| PackStream.PutStores | lib/pack_stream.rb:182 | `r[key] = value` appends a new key, keeps the order for an existing one, stores the value and leaves every other key alone |
| PackStream.PackArrayBytes | lib/pack_stream.rb:128-130 | `pack('c*')` keeps the low eight bits of each integer, element by element |
| PackStream.PackItemsElements | lib/pack_stream.rb:88 | the i-th packed element is the stream of the i-th array element |
| PackStream.PackEntriesElements | lib/pack_stream.rb:93-96 | the i-th packed pair is the stream of the i-th key/value pair |
| PackStream.JoinPackedRaises | lib/pack_stream.rb:88 | joining the element streams raises exactly when one element raised, and never gives nil |
| PackStream.LeftPadded | lib/pack_stream.rb:123 | the padding loop leaves the hex chunks at the end and only zeros in front |
| PackStream.PackIntegerObjectAsString | lib/pack_stream.rb:118-126 | the loop's result is the padded chunks packed as bytes, of length max(size, number of chunks) |
| PackStream.Pairs | lib/pack_stream.rb:120 | the hex digits cut into pairs from the left: (n+1)/2 chunks, each a byte value |
| PackStream.Decode | lib/pack_stream.rb:142-156 | every value read consumes at least its marker byte |
| PackStream.Read | lib/pack_stream.rb:190-192 | `shift_bytes(n)` returns the first min(n, remaining) bytes and the rest; it raises only when n > 0 at the end of the stream |
| PackStreamUnpacker.Unpacker.constructor | lib/pack_stream.rb:136-140 | a new unpacker reads the given bytes from the start |
| PackStreamUnpacker.Unpacker.AtEof | lib/session.rb:130 | `eof?` holds exactly when no bytes remain |
| PackStreamUnpacker.Unpacker.ShiftBytes | lib/pack_stream.rb:190-192 | returns and consumes what `Read` says, or raises at the end of the stream |
| PackStreamUnpacker.Unpacker.ShiftByte | lib/pack_stream.rb:186-188 | returns and consumes the next byte; raises at the end of the stream |
| PackStreamUnpacker.Unpacker.UnpackValue | lib/pack_stream.rb:142-156 | the value read and the bytes left are those `Decode` gives for the bytes that remained |
| PackStreamUnpacker.Unpacker.ValueForType | lib/pack_stream.rb:160-171 | agrees with the decoder for every kind: ints, texts and bytes, lists, maps, and nil for floats and structs |
| PackStreamUnpacker.Unpacker.ValueForInt | lib/pack_stream.rb:173-177 | reads `size` bytes as an unsigned big-endian number, as `ValueForInt` says |
| PackStreamUnpacker.Unpacker.ValueForList | lib/pack_stream.rb:166-167 | its countdown loop reads the list `ValueForList` describes |
| PackStreamUnpacker.Unpacker.ValueForMap | lib/pack_stream.rb:179-184 | its countdown loop builds the hash `ValueForMap` describes, a later duplicate key overwriting an earlier one |
| PackStreamProperties.MarkerBytesInvertsMarkerTypes | lib/pack_stream.rb:38-41 | MARKER_BYTES maps v to m exactly when MARKER_TYPES maps m to the constant v |
| PackStreamProperties.ConstantsRoundTrip | lib/pack_stream.rb:50-52 | nil, false and true pack as C0, C2 and C3 and decode back, consuming one byte |
| PackStreamProperties.ConstantDecoding | lib/pack_stream.rb:145-152 | a marker that MARKER_TYPES maps to an object is not a sized marker, and decodes to that object consuming only the marker |
| PackStreamProperties.HeaderSelection | lib/pack_stream.rb:101-116 | the header chosen for each size range, as bytes: tiny marker plus size, or regular marker then the low byte of the size; nil from 0xFFFFFFFF on |
| PackStreamProperties.OversizedCompositesRaise | lib/pack_stream.rb:81-97 | a string, array or hash of 0xFFFFFFFF or more elements makes the packer raise |
| PackStreamProperties.TinyIntEncoding | lib/pack_stream.rb:66-67 | every integer in [-15, 128) packs as the single byte x mod 256 |
| PackStreamProperties.NegativeIntEncoding | lib/pack_stream.rb:64-65 | integers from -255 to -16 pack as C8, the signed first hex digit and the last hex digit |
| PackStreamProperties.OutOfRangeIntegers | lib/pack_stream.rb:62-75 | integers below -255 or above 2^63-1 give nil |
| PackStreamProperties.WideIntEncoding | lib/pack_stream.rb:68-73 | 128 to 2^63-1: marker C9, CA or CB by range, then the announced number of bytes; big-endian x when the hex text has an even number of digits, `(x/16)*256 + x%16` when odd |
| PackStreamProperties.HexDigitsValue | lib/pack_stream.rb:120 | the hex digits of n, read back in base 16, give n |
| PackStreamProperties.IntegerBytesValue | lib/pack_stream.rb:118-126 | the padded bytes have the requested width and spell x (even digit count) or `(x/16)*256 + x%16` (odd) |
| PackStreamProperties.JoinStreams | lib/pack_stream.rb:88 | without a raised exception, `join` gives the byte strings of the elements in order, one for each element that did not pack to nil |
| PackStreamProperties.NilElementsVanish | lib/pack_stream.rb:85-88 | for any array: an element that raises makes the array raise; otherwise the stream is the header for all elements followed by the streams of only those that did not pack to nil |
| PackStreamProperties.UnsupportedThenTinyInt | lib/pack_stream.rb:85-88 | an unsupported object followed by a tiny integer x packs as 92 x: the header counts two elements, the body holds one byte |
| PackStreamProperties.ArrayOfNilsIsHeaderOnly | lib/pack_stream.rb:85-88 | an array of fewer than 16 elements that all pack to nil is its header byte alone |
| PackStreamProperties.HashWithNilRaises | lib/pack_stream.rb:91-97 | a hash whose key or value packs to nil makes the packer raise |
| PackStreamProperties.FallbackMarkerDecoding | lib/pack_stream.rb:153-155 | a marker outside MARKER_TYPES and outside 0x80-0xAF decodes to its own unsigned value |
| PackStreamProperties.IntMarkerDecoding | lib/pack_stream.rb:11-14 | after C8-CB the decoder reads 8, 16, 32 or 64 bytes (fewer at the end of the stream) as unsigned big-endian, and raises on an empty rest |
| PackStreamProperties.BytesMarkerDecoding | lib/pack_stream.rb:15-17 | CC-CE read up to 8, 16 or 32 bytes with no size field |
| PackStreamProperties.FloatAndStructDecodeToNil | lib/pack_stream.rb:160-171 | the float and struct markers decode to nil and consume only the marker |
| PackStreamProperties.TinyCompositeDecoding | lib/pack_stream.rb:195-207 | 0x80-0xAF take their size from the low nibble: that many text bytes, values or pairs |
| PackStreamProperties.SizedCompositeDecoding | lib/pack_stream.rb:148 | D0-D2, D4-D6, D8-DA read one size byte whatever width they announce |
| PackStreamProperties.RoundTrip | lib/pack_stream.rb:50-59 | for nil, booleans, integers 0-127, texts up to 255 bytes and lists and hashes of up to 255 such elements, decoding the encoding gives the value back and consumes exactly its bytes |
| PackStreamProperties.TextRoundTrip | lib/pack_stream.rb:81-84 | a string of up to 255 bytes round-trips |
| PackStreamProperties.ListRoundTrip | lib/pack_stream.rb:86-89 | the elements of a small array decode back in order after its header |
| PackStreamProperties.MapRoundTrip | lib/pack_stream.rb:91-97 | the pairs of a small hash with distinct keys decode back in order after its header |
| PackStreamProperties.ListDecoding | lib/pack_stream.rb:166-167 | a list of n elements decodes to the values vs, after those read before, leaving t, exactly when the stream holds the encodings of n values vs followed by t |
| PackStreamProperties.ListDecodingFails | lib/pack_stream.rb:166-167 | reading a list of n elements raises exactly when the stream does not hold n encoded values |
| PackStreamProperties.MapDecoding | lib/pack_stream.rb:179-184 | from a stream holding n encoded pairs followed by t, a hash of n pairs stores those pairs in order with `Hash#[]=` and leaves t |
| PackStreamProperties.MapDecodingSplits | lib/pack_stream.rb:179-184 | a hash that decodes was read from n encoded pairs, and its value is those pairs stored in order |
| PackStreamProperties.MapDecodingFails | lib/pack_stream.rb:179-184 | reading a hash of n pairs raises exactly when the stream does not hold n encoded pairs |
| Session.CodeTypesLookup | lib/session.rb:35 | `CODE_TYPES[code]` is a lookup in the inverted TYPE_CODES, keeping the last pair for a code |
| Session.TableEntries | lib/session.rb:21-35 | :run is 0x10 and :pull_all is 0x3F, in both directions |
| Session.TypeCodesDistinct | lib/session.rb:21-33 | TYPE_CODES has no repeated symbol and ascending, so distinct, codes |
| Session.CodeOfFinds | lib/session.rb:74 | a symbol of a table without repeats finds its own code |
| Session.InvertDomain | lib/session.rb:35 | a code is a key of the inverted table exactly when some entry has it |
| Session.InvertFinds | lib/session.rb:35 | inverting a table without repeated codes maps each code back to its symbol |
| Session.Job.constructor | lib/session.rb:92-94 | a new job has no messages |
| Session.Job.AddMessage | lib/session.rb:96-98 | appends exactly the message `Message.new` builds, or nothing when it raises |
| Session.QueryJob | lib/session.rb:113-116 | the query job holds RUN (0x10, correlation id 1, cypher and parameters), then PULL_ALL (0x3F, correlation id 2) |
| Session.QueryMessages | lib/session.rb:115-116 | the two messages are exactly what `Message.new` builds for :run and :pull_all |
| Session.ResponseMessages | lib/session.rb:127-137 | its loop over one stream returns what `DecodedMessages` gives for the body |
| SessionProperties.InvertIsInverse | lib/session.rb:35 | for a table without repeats, s has code c exactly when the inverted table maps c to s |
| SessionProperties.TypeCodesInverse | lib/session.rb:21-35 | CODE_TYPES is the exact inverse of TYPE_CODES |
| SessionProperties.UnknownCodes | lib/session.rb:40 | a code outside TYPE_CODES has type nil |
| SessionProperties.ListedSymbols | lib/session.rb:73-75 | exactly the eight symbols of the table have a code |
| SessionProperties.NewMessageCases | lib/session.rb:37-44 | `Message.new` raises 'Invalid message type' exactly for an object that is neither an Integer nor a table symbol; an Integer is the code as given, a symbol gets its own type and TYPE_CODES code; id and arguments are kept |
| SessionProperties.CodeMessageUntyped | lib/session.rb:38-40 | a message from an Integer code is never refused, and is untyped exactly when the code is not in the table |
| SessionProperties.CodeMessageType | lib/session.rb:40 | a message from an Integer code has type s exactly when TYPE_CODES gives s that code |
| SessionProperties.MessageHeader | lib/session.rb:46-52 | a message of fewer than 14 arguments packs behind the tiny list marker 0x92 + number of arguments |
| SessionProperties.StructBody | lib/session.rb:46-48 | the struct packs as the type code byte, the correlation id, then the arguments, in order |
| SessionProperties.MessageBytes | lib/session.rb:46-52 | a message, byte by byte: 0x92 + argument count, type code, correlation id, arguments |
| SessionProperties.PackMessagesConcat | lib/session.rb:69-71 | packing two runs of messages gives the first run's bytes followed by the second's |
| SessionProperties.PackOneMessage | lib/session.rb:69-71 | packing one message gives that message's stream |
| SessionProperties.QueryRequestBytes | lib/session.rb:113-119 | the request body of `query`: 94 10 01, cypher, parameters, 92 3F 02 |
| SessionProperties.QueryTextBytes | lib/session.rb:113-119 | a short cypher text with empty parameters: 94 10 01, 80+n, the text, A0, 92 3F 02 |
| SessionProperties.InterpretAllElements | lib/session.rb:61-63 | each field value is interpreted in its own position |
| SessionProperties.InterpretCases | lib/session.rb:77-87 | an Array starting with 1 becomes a node, one starting with 2 or 3 becomes nil, anything else is unchanged |
| SessionProperties.HashOfZipFinds | lib/session.rb:65 | in the zipped hash a field name finds the field at its last position (nil past the end of the values) |
| SessionProperties.HashOfZipMissing | lib/session.rb:65 | a name that is not a field name finds nothing |
| SessionProperties.RecordFields | lib/session.rb:56-66 | one record: each field name gives the interpreted value at its position, other names give nothing |
| SessionProperties.RecordsOfElements | lib/session.rb:56-66 | one record per argument, in order; it raises exactly when one argument's record does |
| SessionProperties.ItemValue | lib/session.rb:54-67 | `value` is nil unless the type is :item; for an item it is one record per argument, and raises exactly when an argument's record does |
| SessionProperties.ValuesOfElements | lib/session.rb:124 | `map(&:value)` gives one value per message, in order, and raises exactly when one message's value does |
| SessionProperties.QueryResultsOfMessages | lib/session.rb:124 | the result of `query` is the value of each response message, in order |
| SessionProperties.MessageRoundTrip | lib/session.rb:131-134 | a server message's stream decodes to its struct, and the struct rebuilds the message |
| SessionProperties.ResponseRoundTrip | lib/session.rb:127-137 | a body made of packed server messages decodes to exactly those messages, in order |
| SessionProperties.ResponsePrefix | lib/session.rb:127-137 | packed server messages in front of any rest come out first, in order, followed by the messages of the rest, or the error of the rest |
| SessionProperties.ResponseArgs | lib/session.rb:132-134 | every message `response_messages` builds has exactly one argument |
| SessionProperties.EmptyResponse | lib/session.rb:130 | an empty body has no messages |
| SessionProperties.BareIntegerResponse | lib/session.rb:132-134 | a bare tiny integer is a message with that code, its CODE_TYPES type, nil id and `[nil]` |
| SessionProperties.NilResponse | lib/session.rb:131-134 | after any packed server messages, a value whose type-code position is not an Integer (nil, a boolean, a String, a Hash, or an Array starting with one of those) makes `Message.new` raise 'Invalid message type' |
| SessionProperties.TruncatedResponse | lib/session.rb:130-131 | after any packed server messages, a rest that ends inside a value raises |
| SessionProperties.ItemResponse | lib/session.rb:127-137 | 93 71 id arg decodes to one :item message with that id and argument |

## Left out

- HTTP, Faraday, the session path, status validation and `close` are network code. The model only has the request body that `query` would post, and the response body it would get back.
- The script at the end of lib/session.rb (lines 183-191) and test.rb are not part of this model.
- Floats are never produced by the packer, and the decoder gives nil for them, as the code does. String encodings (`force_encoding`, `encode('UTF-8')`) are not modelled: strings are their raw bytes.
- `send` and `eval` are not modelled: the dispatch on the object's class and the MARKER_TYPES key conversion are written out as functions.
- Hash equality in Ruby ignores order. The model compares hashes as ordered sequences of entries, so any round trip it proves is order-exact.
- Session.Element: `[]` on a String or an Integer receiver (a substring, a bit) is reported as the `Unmodelled` error instead of being computed; on a Hash it is computed, and on nil or a boolean it raises NoMethodError.
- Session.RecordOf: `map` and `zip` on a Hash in place of an Array are reported as the `Unmodelled` error instead of being computed; on nil, a boolean, an Integer or a String they raise NoMethodError.
- Symbols outside TYPE_CODES are one constructor, `UnlistedSymbol`. Objects other than Integers and Symbols are one constructor, `OtherObject`.
- Session.ResponseMessages: a new Unpacker per iteration over the same StringIO is modelled as one cursor over the body, which reads the same bytes.
- Session.Job.AddMessage: it returns the outcome of `Message.new` rather than the `@messages` array that `<<` returns.
- Session.QueryJob covers only the job construction in `query`. Posting the body and mapping the response are QueryRequestBytes and QueryResults.
