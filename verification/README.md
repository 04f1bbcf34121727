# Models of bitmonero's parsers, codecs and allocators

This project models several independent cores of bitmonero and its bundled libraries, and proves
what they promise for every input, every run or every reachable state.

- **RapidJSON.** `JsonReader` has the recursive-descent parser and the table-driven automaton over one
  grammar (section 2 of RFC 4627), for any handler. `JsonString` and `JsonNumber` are its lexers, `JsonWriter`
  and `JsonLayout` the compact and the indenting writer, `JsonDom`, `JsonEqual` and `JsonDuplicates` the
  document, and `JsonRoundTrip` brings them together: write, parse and rebuild gives back the value.
  `JsonSyntax` is the grammar as trees with their white space, and `JsonSpelling` the trees that spell a
  value. `Utf` has the encodings underneath. `PoolAllocator` is the document's memory pool.
- **The embedded JSON parser of net_skeleton.** `Frozen` has the token array and the parser that fills it,
  `FrozenMeaning` the language it accepts, `FrozenPrefix` its verdicts on unfinished texts, `FrozenReads` its
  reading of JSON, `FrozenFind` the search by path and `FrozenPaths` what a path means.
- **WebSocket framing of net_skeleton**: `WebSocket`, with the growable buffer.
- **Monero's number and text codecs**: `IntUtil`, `Varint`, `Numerals`, `Base58`, `Address`.
- **BLAKE-256 and HMAC-BLAKE-256**: `Blake256`, `HmacBlake256`.

Code that works by changing things is modelled by classes, arrays and loops, and proved against a
recursive definition of the same thing; the theorems are then about that definition.

What the source leaves to others is a parameter: the BLAKE compression function, the address hash, the
handler of a parser (any function of the events so far), the floating-point path of the number lexer and
the rendering of doubles, the addresses the base allocator returns, and the way a byte stream is cut into
chunks. The statements hold for every choice of these.

Some properties one would expect do not hold of the code. Each is stated with an input that breaks it and
the exact condition under which it holds:

- Two BLAKE-256 updates do not always equal one (`Blake256.StreamsExactly`, `Blake256.UpdateDrops`).
- An address with an unterminated varint decodes but does not encode back (`Address.EncodeDecodeAddr`).
- The alignment macro loses the upper half of large requests (`PoolAllocator.AlignRoundsUp`, `PoolAllocator.Pool.Malloc`,
  `PoolAllocator.Pool.Realloc`).
- The note beside JSON equality, that an object with repeated names equals nothing, is not what the code does
  (`JsonDuplicates.EqualsSomething`), and with such objects equality is not symmetric
  (`JsonDuplicates.SymmetricExactly`, both at the input of `JsonDuplicates.DuplicateEquals`); -1 equals 2^64-1 (`JsonEqual.NumberEquality`).
- A frame that passes the length test has not always arrived (`WebSocket.AcceptedArrived`, `WebSocket.LengthWraps`).
- The two JSON parsers do not always report the same error (`JsonReader.ParseBoth`, `JsonReader.MissingElement`).

`dafny verify dfyconfig.toml` checks the project.

## Model

| member | source | states |
|---|---|---|
| `IntUtil.Mul128` | src/common/int-util.h:71-95 | high and low words are the exact 128-bit product of any two 64-bit numbers |
| `IntUtil.AddProducts` | src/common/int-util.h:80-94 | the four partial products add up exactly, with both carries into the high word |
| `IntUtil.DivWithRemainder` | src/common/int-util.h:97-101 | one step of long division: the quotient digit fits 32 bits and the remainder stays below the divisor |
| `IntUtil.Div128By32` | src/common/int-util.h:104-119 | dividend = quotient * divisor + remainder with the remainder below the divisor, for every 128-bit dividend and nonzero divisor |
| `IntUtil.MulThenDivide` | src/common/int-util.h:71-119 | multiplying by a nonzero 32-bit number and dividing again gives back the factor and remainder 0 |
| `Varint.WriteVarint` | src/common/varint.h:67-79 | the loop writes the base-128 form defined by recursion |
| `Varint.EncodeMeans` | src/common/varint.h:67-79 | the bytes written are the number in base 128, least significant group first, the top bit on all but the last, and no superfluous last group |
| `Varint.Refusals` | src/common/varint.h:92-119 | a read refused as not canonical met a zero byte after the first, and one refused as too large a byte that does not fit the bits left |
| `Varint.DecodeEncode` | src/common/varint.h:67-119 | for every width, reading a written number returns it and consumes exactly its bytes, whatever follows |
| `Varint.EncodeDecode` | src/common/varint.h:92-119 | a read whose last byte has no continuation bit consumed exactly the canonical form of its result |
| `Varint.Truncated` | src/common/varint.h:92-119 | a read that ends otherwise has consumed the whole input and only continuation bytes |
| `Varint.CountFits` | src/common/varint.h:92-119 | no more bytes are counted than there are |
| `Varint.DecodeBelow` | src/common/varint.h:102-109 | a value read fits the width asked for |
| `Varint.ReadVarint` | src/common/varint.h:92-119 | count, error code and value of the loop are those of the recursive decoder, for every width and input |
| `Base58.ReverseAlphabet` | src/common/base58.cpp:55-66 | the table maps each letter to its place and everything else to -1 |
| `Base58.Lookup` | src/common/base58.cpp:68-72 | characters outside the table count as no letter |
| `Base58.SymbolIs` | src/common/base58.cpp:48 | digit d is symbol d of the alphabet |
| `Base58.BlockMeans` | src/common/base58.cpp:136-149 | the symbols of a block and its bytes are numerals of one number, most significant first |
| `Base58.EncodeJoins` | src/common/base58.cpp:184-207 | whole blocks of eight bytes are encoded one by one |
| `Base58.EncodedLength` | src/common/base58.cpp:50-52 | eleven symbols for eight bytes, and for a shorter rest what the table says |
| `Base58.BlockRoom` | src/common/base58.cpp:50-52 | the encoded size of k bytes has room for every number below 256^k |
| `Base58.BytesToWord` | src/common/base58.cpp:107-126 | the bytes are read as one big-endian number without overflow |
| `Base58.EncodeBlock` | src/common/base58.cpp:136-149 | the block, and nothing else, becomes the fixed-width base-58 numeral of its value |
| `Base58.PutSymbols` | src/common/base58.cpp:141-148 | the digit loop never leaves the block and leaves zero digits in front |
| `Base58.AddDigit` | src/common/base58.cpp:163-172 | the two overflow tests refuse a digit exactly when the sum passes 64 bits |
| `Base58.SumDigits` | src/common/base58.cpp:159-174 | the sum of a digit string is exact or refused; the last factor may wrap but is not used |
| `Base58.DecodeBlock` | src/common/base58.cpp:151-182 | accepts exactly the digit strings of a valid length whose value is below 256^k, and writes that value |
| `Base58.EncodeFull` | src/common/base58.cpp:195-198 | after the loop over full blocks the front of the text is final and the rest untouched |
| `Base58.Encode` | src/common/base58.cpp:185-206 | the buffer filled block by block is the concatenation of the encoded blocks |
| `Base58.DecodeFull` | src/common/base58.cpp:224-228 | the loop stops at the first bad block and otherwise has decoded all full ones |
| `Base58.Decode` | src/common/base58.cpp:208-238 | verdict and bytes are those of the recursive block decoder, every length included |
| `Base58.DecodeEncodeBlock` | src/common/base58.cpp:136-182 | decoding an encoded block of 1 to 8 bytes gives it back |
| `Base58.EncodeDecodeBlock` | src/common/base58.cpp:136-182 | a block that decodes is the encoding of its bytes, so no block has two forms |
| `Base58.DecodeEncode` | src/common/base58.cpp:185-238 | decode(encode(d)) = d for every byte string |
| `Base58.EncodeDecode` | src/common/base58.cpp:185-238 | if decode(e) gives d then encode(d) = e |
| `Address.EncodeAddr` | src/common/base58.cpp:240-248 | tag, data and checksum are laid out and encoded as specified, for any hash |
| `Address.DecodeAddr` | src/common/base58.cpp:250-270 | every rejection of the source, and the tag and data otherwise |
| `Address.AddressBytes` | src/common/base58.cpp:240-248 | an address spells the tag as a varint, the data, and the first four bytes of the hash of both |
| `Address.DecodeEncodeAddr` | src/common/base58.cpp:240-270 | an encoded address decodes to its tag and data, for any hash |
| `Address.EncodeDecodeAddr` | src/common/base58.cpp:240-270 | an accepted address is the encoding of its tag and data if and only if its payload contains a terminated varint |
| `Address.UnterminatedAccepted` | src/common/base58.cpp:265-266 | the payload 0x80 is accepted as tag 0 and does not encode back |
| `Blake256.PaddedBytes` | src/crypto/blake256.c:191-227 | the padded message byte by byte: the message, the one bit, zeros, the closing bit 9 bytes before the end, and the 64-bit length |
| `Blake256.LengthFieldValue` | src/crypto/blake256.c:195-196 | the length field is the length in bits, most significant byte first |
| `Blake256.DigestWords` | src/crypto/blake256.c:219-226 | each four bytes of a digest are one word of the chaining value, most significant byte first |
| `Blake256.CounterBits` | src/crypto/blake256.c:156-184 | the count handed over with a block is the number of message bits up to its end, and zero for a block without any |
| `Blake256.InitialValues` | src/crypto/blake256.c:129-153 | the initial values are 32 fractional bits of the square roots of the first and the next eight primes |
| `Blake256.PaddedInjective` | src/crypto/blake256.c:191-227 | different messages have different padded messages |
| `Blake256.UpdateAbsorbs` | src/crypto/blake256.c:156-184 | an update keeps "everything so far is compressed or buffered, and counted" whenever the chunk lengths allow it |
| `Blake256.FinalHashes` | src/crypto/blake256.c:191-227 | finalising computes the fold of the compression function over the padded message, in the three cases below, at and above 440 buffered bits, with the counter nulled exactly for blocks without message bits |
| `Blake256.RunOfUpdates` | src/crypto/blake256.c:156-184 | any run of such updates absorbs the concatenation |
| `Blake256.StreamsExactly` | src/crypto/blake256.c:156-184 | whatever the compression function and initial value: with r bytes buffered, an update by n bytes leaves the state of the longer message, for every state, message and chunk, if and only if r = 0, or 0 < n < 64, or n mod 64 >= 64 - r |
| `Blake256.UpdateDrops` | src/crypto/blake256.c:160-183 | for every other pair of lengths, and every compression function and initial value, a message, chunk and state whose update is not the state of the longer message |
| `Blake256.State.constructor` | src/crypto/blake256.c:129-140 | a fresh state has absorbed the empty message |
| `Blake256.State.Count` | src/crypto/blake256.c:171-172 | the two-word bit counter goes up by 512 with carry |
| `Blake256.State.CompressBlock` | src/crypto/blake256.c:82-127 | the counter enters the compression unless it is nulled |
| `Blake256.State.Blocks` | src/crypto/blake256.c:170-176 | whole blocks of the data are compressed in order, each after counting it |
| `Blake256.State.Keep` | src/crypto/blake256.c:178-183 | what is left is buffered, or the buffer is marked empty |
| `Blake256.State.Update` | src/crypto/blake256.c:156-184 | the whole new state of an update, for every state and chunk |
| `Blake256.State.SubT0` | src/crypto/blake256.c:199-216 | the pre-subtractions from the low counter word, which may wrap below zero |
| `Blake256.State.SetNullt` | src/crypto/blake256.c:203-211 | marking the counter as null |
| `Blake256.State.Pad` | src/crypto/blake256.c:198-217 | the whole new state after padding, case by case |
| `Blake256.State.FinalH` | src/crypto/blake256.c:191-227 | the whole final state and the digest bytes |
| `Blake256.HashFrom` | src/crypto/blake256.c:238-251 | the digest is the specified hash from either initial value |
| `Blake256.Hash256` | src/crypto/blake256.c:238-243 | BLAKE-256 of every message below 2^61 bytes as specified, for every compression function |
| `Blake256.Hash224` | src/crypto/blake256.c:246-251 | the same with the BLAKE-224 initial value and markers |
| `HmacBlake256.MakePad` | src/crypto/blake256.c:267-270 | the key, zero-filled to a block, xored with the pad byte |
| `HmacBlake256.HmacMeans` | src/crypto/blake256.c:254-331 | the specification byte by byte: the pads are the zero-filled key exclusive or 0x36 and 0x5c |
| `HmacBlake256.HmacState.constructor` | src/crypto/blake256.c:254-281 | a long key is hashed first; both hashes have absorbed their pads |
| `HmacBlake256.HmacState.Update` | src/crypto/blake256.c:314-317 | any chunk updates the inner hash and leaves the outer one; a chunk that streams extends the authenticated message |
| `HmacBlake256.HmacState.Final` | src/crypto/blake256.c:325-331 | the outer hash of the inner digest: section 2 of RFC 2104 |
| `HmacBlake256.HmacHash` | src/crypto/blake256.c:342-347 | HMAC of section 2 of RFC 2104 for every key and message length |
| `Utf.DecodeExact` | external/rapidjson/encodings.h:129-155 | Decode succeeds exactly on a well-formed sequence of section 4 of RFC 3629, yields a scalar value, and re-encoding it gives the bytes consumed |
| `Utf.DecodeEncode` | external/rapidjson/encodings.h:107-155 | every scalar value, encoded anywhere in a text, decodes to itself |
| `Utf.EncodeInjective` | external/rapidjson/encodings.h:107-126 | different code points have different encodings |
| `Utf.EncodeMeans` | external/rapidjson/encodings.h:107-127 | the length and the bits of each encoding, as section 3 of RFC 3629 gives them |
| `Utf.ValidateAgrees` | external/rapidjson/encodings.h:158-181 | Validate gives the verdict of Decode, stops at the same byte, and copies the bytes it accepts |
| `Utf.MaskMeaning` | external/rapidjson/encodings.h:183-199 | what each class mask of the table admits |
| `Utf.DecodeEncode16` | external/rapidjson/encodings.h:253-283 | every scalar value survives UTF-16, surrogate pairs included |
| `Utf.Encode16Means` | external/rapidjson/encodings.h:253-265 | one unit, or a high and a low surrogate, as section 2.1 of RFC 2781 gives them |
| `Utf.Decode16Exact` | external/rapidjson/encodings.h:268-287 | exactly units that are no surrogates and pairs of surrogates decode, to the code point that encodes to them |
| `Utf.WellFormedStep` | external/rapidjson/encodings.h:129-155 | a text is well-formed exactly if its first decoding succeeds and the rest is well-formed |
| `Utf.TranscodeRoundTrip` | external/rapidjson/encodings.h:591-600 | UTF-8 transcodes to UTF-16 exactly if it is well-formed, and back to itself |
| `JsonReader.OpenStep` | external/rapidjson/reader.h:1174-1199 | entering a container: the automaton and the grammar go on alike |
| `JsonReader.ScalarStep` | external/rapidjson/reader.h:1216-1230 | the same for a value |
| `JsonReader.KeyStep` | external/rapidjson/reader.h:1201-1206 | the same for a member name |
| `JsonReader.ColonStep` | external/rapidjson/reader.h:1208-1214 | the same for the colon |
| `JsonReader.CommaStep` | external/rapidjson/reader.h:1232-1237 | the same for a comma, with the member or element counted |
| `JsonReader.CloseStep` | external/rapidjson/reader.h:1239-1287 | the same for a closing bracket: the saved state comes back and the count delivered is the number of items |
| `JsonReader.ErrorStep` | external/rapidjson/reader.h:1303-1320 | where the table has no transition, the grammar has no continuation, and the codes correspond |
| `JsonReader.Reader.SkipWhitespace` | external/rapidjson/reader.h:236-242 | stops at the first byte that is not white space |
| `JsonReader.Reader.ParseValue` | external/rapidjson/reader.h:908-918 | position, events and error are those of the grammar |
| `JsonReader.Reader.ParseObject` | external/rapidjson/reader.h:456-503 | an object parsed by the grammar, with its member count |
| `JsonReader.Reader.ParseMembers` | external/rapidjson/reader.h:472-502 | the member loop |
| `JsonReader.Reader.ParseArray` | external/rapidjson/reader.h:507-540 | an array parsed by the grammar, with its element count |
| `JsonReader.Reader.ParseElements` | external/rapidjson/reader.h:523-539 | the element loop |
| `JsonReader.Reader.Parse` | external/rapidjson/reader.h:382-411 | recursive descent implements the grammar, errors and early stops included |
| `JsonReader.Reader.Transit` | external/rapidjson/reader.h:1162-1301 | every transition keeps what remains to be parsed |
| `JsonReader.Reader.IterativeParse` | external/rapidjson/reader.h:1323-1353 | the automaton with its explicit stack implements the same grammar |
| `JsonReader.ParseBoth` | external/rapidjson/reader.h:382-1353 | for every text, every lexer that makes progress and every handler, both parsers emit the same events with the same counts, succeed together and stop at the same byte; they report different errors if and only if the recursive parser finds an invalid value at a byte where no value can start |
| `JsonReader.MissingElement` | external/rapidjson/reader.h:1304-1353 | on `[,]` the error codes do differ |
| `JsonReader.FaultCodes` | external/rapidjson/reader.h:382-541 | which code names which missing byte |
| `JsonReader.ParseHeard` | external/rapidjson/reader.h:382-541 | the handler is sent an event only if it accepted all before, and its first refusal ends the parse |
| `JsonSyntax.SkipStays` | external/rapidjson/reader.h:236-242 | nothing but space, tab, line feed and carriage return is skipped |
| `JsonSyntax.ParsesExactly` | external/rapidjson/reader.h:382-541 | with a willing handler the parsers accept exactly the texts of the grammar of RFC 4627 over the scalars the lexers read, with any of the four white-space bytes between tokens, and deliver the events of the tree |
| `JsonSyntax.ValueParses` | external/rapidjson/reader.h:453-541 | a tree written anywhere in a text is parsed to its end and its events |
| `JsonSyntax.DocumentSpelt` | external/rapidjson/reader.h:382-411 | every text that is parsed is the text of such a tree |
| `JsonString.ParseHex4` | external/rapidjson/reader.h:583-601 | value, position and verdict of four hexadecimal digits |
| `JsonString.ParseUnicode` | external/rapidjson/reader.h:674-686 | escapes and surrogate pairs |
| `JsonString.ParseStringToStream` | external/rapidjson/reader.h:650-706 | the scan loop computes the specified result, every error code included |
| `JsonString.EscapesRead` | external/rapidjson/reader.h:653-673 | the two-character escapes of section 2.5 of RFC 4627, and refusal of all others |
| `JsonString.BytesRead` | external/rapidjson/reader.h:692-704 | the end of the text and control characters are errors, other bytes stand for themselves |
| `JsonString.HexNumeral` | external/rapidjson/reader.h:583-602 | four hexadecimal digits of either case are the number they denote |
| `JsonString.HexRefused` | external/rapidjson/reader.h:583-602 | the first byte that is no hexadecimal digit is recorded as the error |
| `JsonString.UnicodeReads` | external/rapidjson/reader.h:674-692 | a numbered escape is its code point in UTF-8 |
| `JsonString.SurrogatesRead` | external/rapidjson/reader.h:676-690 | a high surrogate takes a low one behind it, and nothing else |
| `JsonString.HexRoundTrip` | external/rapidjson/reader.h:583-601 | four digits written are read back |
| `JsonString.ByteRead` | external/rapidjson/writer.h:288-300 | one byte written for a UTF-8 target is read back as itself |
| `JsonString.EscapeRead` | external/rapidjson/writer.h:256-287 | a code point written as one or two escapes is read back as its UTF-8 form |
| `JsonString.BodyOk` | external/rapidjson/writer.h:238-304 | a UTF-8 target takes every byte string; an ASCII target exactly the well-formed ones |
| `JsonString.EscapesWritten` | external/rapidjson/writer.h:240-252 | exactly quotation mark, reverse solidus and control characters are escaped, with the short escape where there is one |
| `JsonString.HexDigitIs` | external/rapidjson/writer.h:239 | hexadecimal digits are written in upper case |
| `JsonString.LiteralRoundTrip` | external/rapidjson/writer.h:238-304 | a literal written is read back unchanged, wherever it stands, for both targets and with validation on or off; a validating reader refuses exactly the malformed strings |
| `JsonString.LiteralAscii` | external/rapidjson/writer.h:256-287 | an ASCII target receives only ASCII |
| `JsonNumber.Accumulate` | external/rapidjson/reader.h:744-764 | a digit loop goes on exactly while the number stays within its threshold |
| `JsonNumber.ParseDigits` | external/rapidjson/reader.h:740-793 | 32 bits, then 64, then neither, decided by the exact value, without wrap-around |
| `JsonNumber.ParseNumber` | external/rapidjson/reader.h:721-904 | integers carry their exact value: Uint to 2^32-1, Uint64 to 2^64-1, Int to -2^31, Int64 to -2^63; the floating-point path is taken exactly beyond, or at a fraction or exponent |
| `JsonNumber.NumberRoundTrip` | external/rapidjson/reader.h:721-904 | the decimal numeral of every 64-bit integer reads back with its value |
| `JsonNumber.NumeralValue` | external/rapidjson/reader.h:740-785 | digits are read in base ten, most significant first |
| `JsonNumber.NumberBeyond` | external/rapidjson/reader.h:740-785 | beyond 64 bits, or before a fraction or exponent, the floating-point path decides |
| `JsonNumber.LeadingZero` | external/rapidjson/reader.h:736-739 | a leading zero is a whole integer part |
| `JsonNumber.MinusAlone` | external/rapidjson/reader.h:725-790 | a minus without a digit is refused |
| `JsonNumber.WordsRead` | external/rapidjson/reader.h:543-581 | null, true and false are read letter by letter, and anything else that begins so is refused |
| `JsonNumber.TextLawful` | external/rapidjson/reader.h:908-918 | the reader's own lexers make progress, so the parser theorems apply to them |
| `JsonDom.FlagsByValue` | external/rapidjson/document.h:493-530 | the type flags depend only on the mathematical value, whichever constructor stored it |
| `JsonDom.NumberEventIs` | external/rapidjson/document.h:1408-1414 | an integer is sent as the first of int, unsigned, 64-bit int and 64-bit unsigned that holds it |
| `JsonDom.EventsPush` | external/rapidjson/document.h:1380-1419 | on every stack, the events of a value push exactly that value |
| `JsonDom.DeepCopy` | external/rapidjson/document.h:1850-1855 | the copy built from the events of a value is that value |
| `JsonDom.ValueBuilds` | external/rapidjson/document.h:1789-1821 | parsing a value on top of a stack adds one value; no stack assertion fails |
| `JsonDom.OneRoot` | external/rapidjson/document.h:1643-1653 | for every text no assertion of the handlers fails, and a successful parse leaves exactly one root |
| `JsonDom.Document.EndObject` | external/rapidjson/document.h:1809-1813 | names and values on top of the stack become the members |
| `JsonDom.Document.EndArray` | external/rapidjson/document.h:1817-1821 | the values on top of the stack become the elements |
| `JsonDom.Document.Receive` | external/rapidjson/document.h:1789-1821 | the stack after each handler call |
| `JsonDom.Document.ParseStream` | external/rapidjson/document.h:1643-1653 | the root is the one value built, or null on failure; the stack ends empty |
| `JsonEqual.FindMember` | external/rapidjson/document.h:898-906 | the first member with the name, or the end |
| `JsonEqual.Reflexive` | external/rapidjson/document.h:672-708 | a value without doubles and with unique names equals itself |
| `JsonEqual.Symmetric` | external/rapidjson/document.h:672-708 | equality is symmetric if the left side has unique names |
| `JsonEqual.EqualUnique` | external/rapidjson/document.h:672-708 | what equals a value with unique names has unique names |
| `JsonEqual.Transitive` | external/rapidjson/document.h:672-708 | equality is transitive on values without doubles |
| `JsonEqual.EqualMeans` | external/rapidjson/document.h:672-708 | without doubles and repeated names, two values are equal if and only if they mean the same: numbers by 64 bits, objects as maps from names |
| `JsonEqual.OrderIgnored` | external/rapidjson/document.h:672-708 | the order of members does not matter |
| `JsonEqual.NumberEquality` | external/rapidjson/document.h:699-703 | two integers are equal if and only if they are the same or differ by 2^64 |
| `JsonDuplicates.EqualsSomething` | external/rapidjson/document.h:667-690 | among values without doubles, one with repeated names at any level equals some value if and only if, at every level, what it holds under each name can equal one value; the note beside the code says it never does |
| `JsonDuplicates.Meet` | external/rapidjson/document.h:672-690 | for values that satisfy this condition, a value without doubles that they all equal |
| `JsonDuplicates.MetJoint` | external/rapidjson/document.h:672-690 | values that equal one value without doubles satisfy this condition |
| `JsonDuplicates.DuplicateNote` | external/rapidjson/document.h:667-690 | without doubles, and with names repeated at the top level only, an object equals something if and only if members of one name have equal values |
| `JsonDuplicates.NotSymmetric` | external/rapidjson/document.h:672-690 | a value with a repeated name anywhere that equals something equals a value that does not equal it, neither with doubles |
| `JsonDuplicates.SymmetricExactly` | external/rapidjson/document.h:672-690 | among values without doubles, equality with one is symmetric if and only if no object in it repeats a name or it equals nothing |
| `JsonDuplicates.SymmetricObject` | external/rapidjson/document.h:672-690 | without doubles, and with names repeated at the top level only: symmetric if and only if names are distinct or members of one name differ |
| `JsonDuplicates.DuplicateEquals` | external/rapidjson/document.h:667-690 | an object with one name twice equals itself, and equals an object that does not equal it |
| `JsonEqual.RemoveMember` | external/rapidjson/document.h:1052-1069 | the last member takes the place of the one removed |
| `JsonEqual.EraseMember` | external/rapidjson/document.h:1091-1105 | the members after the range move up in order |
| `JsonEqual.RemovalsAgree` | external/rapidjson/document.h:1052-1105 | both removals give equal objects, and the name is gone |
| `JsonWriter.ValueWrites` | external/rapidjson/writer.h:108-162 | at any depth and after any events, the events of a value append its separator and its text |
| `JsonWriter.WritesText` | external/rapidjson/writer.h:108-162 | replaying a value through a fresh writer fails no assertion and leaves exactly the value's text |
| `JsonWriter.Escape` | external/rapidjson/writer.h:254-301 | the escaping loop computes the specified text |
| `JsonWriter.Writer.WriteIndent` | external/rapidjson/prettywriter.h:185-188 | depth times the indentation |
| `JsonWriter.Writer.Separate` | external/rapidjson/prettywriter.h:146-174 | comma, colon and layout by position and parity |
| `JsonWriter.Writer.Prefix` | external/rapidjson/writer.h:311-329 | the counters of the level and the root flag |
| `JsonWriter.Writer.WriteString` | external/rapidjson/writer.h:238-304 | the literal, or the part before what cannot be encoded |
| `JsonWriter.Writer.Open` | external/rapidjson/writer.h:128-132 | a level is pushed after the prefix |
| `JsonWriter.Writer.Close` | external/rapidjson/prettywriter.h:93-108 | the level is popped, with a line break unless it was empty |
| `JsonWriter.Writer.Receive` | external/rapidjson/writer.h:108-162 | the whole new state after each event |
| `JsonWriter.Writer.Write` | external/rapidjson/writer.h:108-162 | the text of a value, for both layouts and both encodings |
| `JsonRoundTrip.SpacedParses` | external/rapidjson/reader.h:382-541 | wherever the four white-space bytes stand between the tokens of a value, before the first and after the last, the text parses to the events of the value |
| `JsonRoundTrip.ValueLexes` | external/rapidjson/reader.h:908-918 | a spelling of a value anywhere in a text is read with the events of the value |
| `JsonRoundTrip.ParsesText` | external/rapidjson/reader.h:382-411 | the whole text of a value parses to its end |
| `JsonRoundTrip.RoundTrip` | external/rapidjson/writer.h:108-329 | every value without doubles is written without complaint, compact or indented, as UTF-8 or ASCII; both parsers accept the text and deliver the value's events, integers by value; and the document built is the value |
| `JsonRoundTrip.LayoutsAgree` | external/rapidjson/prettywriter.h:71-188 | any two layouts and encodings of a value parse to the same events |
| `JsonSpelling.IndentationIsSpace` | external/rapidjson/prettywriter.h:71-188 | for every value whose strings the target can encode, doubles included, the indenting writer leaves the text of a tree that spells the value, and the compact writer the text of the same tree without its white space |
| `JsonSpelling.LaidText` | external/rapidjson/prettywriter.h:144-188 | the gaps of that tree by depth: a line feed and depth times the indentation before each item, name and closing bracket, and a space after each colon |
| `JsonRoundTrip.WriteAndParse` | external/rapidjson/document.h:1643-1653 | writer, parser and document together give back the value, with either parser |
| `FrozenTree.SkipPointers` | external/net_skeleton/net_skeleton.c:1077-1083 | in the array of a nested tree every token announces exactly what stands below it, and its span covers theirs |
| `FrozenGrammar.ValueFine` | external/net_skeleton/net_skeleton.c:1155-1248 | every tree parsed has keys and values in turn and spans that nest in order |
| `FrozenGrammar.RootFine` | external/net_skeleton/net_skeleton.c:1236-1257 | the same for the root, within the text |
| `FrozenMeaning.AcceptsExactly` | external/net_skeleton/net_skeleton.c:1006-1255 | the parser accepts exactly white space and an object of a grammar given without its functions, up to its end; every token has its kind by the bytes under it |
| `FrozenMeaning.FaultCodes` | external/net_skeleton/net_skeleton.c:1020-1225 | which faults are invalid and which incomplete |
| `FrozenPrefix.VerdictStands` | external/net_skeleton/net_skeleton.c:1008-1255 | unless a text is called incomplete, more text changes nothing: an object stays the object it is, and an invalid text invalid |
| `FrozenPrefix.PrefixIncomplete` | external/net_skeleton/net_skeleton.c:1008-1255 | an accepted object that is cut short anywhere is called incomplete |
| `FrozenReads.ObjectReads` | external/net_skeleton/net_skeleton.c:1006-1255 | the JSON text of every object with well-formed strings, with any white space, is accepted with the tree of the value |
| `FrozenParser.Frozen.constructor` | external/net_skeleton/net_skeleton.c:1260-1268 | a fresh parser, with the caller's array, a growing one or none |
| `FrozenParser.Frozen.CapturePtr` | external/net_skeleton/net_skeleton.c:1061-1075 | a token is begun, or the array is too small |
| `FrozenParser.Frozen.CaptureLen` | external/net_skeleton/net_skeleton.c:1077-1083 | a token gets its length and the number of tokens after it |
| `FrozenParser.Frozen.TestAndSkip` | external/net_skeleton/net_skeleton.c:1029-1033 | the expected character, or which error |
| `FrozenParser.Frozen.ScanString` | external/net_skeleton/net_skeleton.c:1111-1125 | the loop finds the closing quote or the error of the grammar, and never passes the end |
| `FrozenParser.Frozen.ParseString` | external/net_skeleton/net_skeleton.c:1107-1126 | a string token between the quotes |
| `FrozenParser.Frozen.ScanNumber` | external/net_skeleton/net_skeleton.c:1132-1149 | the characters of a number |
| `FrozenParser.Frozen.ParseNumber` | external/net_skeleton/net_skeleton.c:1129-1152 | a number token |
| `FrozenParser.Frozen.Expect` | external/net_skeleton/net_skeleton.c:1175-1187 | one of the three words |
| `FrozenParser.Frozen.ParseIdentifier` | external/net_skeleton/net_skeleton.c:1086-1095 | an unquoted key |
| `FrozenParser.Frozen.ParseKey` | external/net_skeleton/net_skeleton.c:1212-1225 | an identifier or a string |
| `FrozenParser.Frozen.ParseValue` | external/net_skeleton/net_skeleton.c:1190-1209 | code, cursor and tokens are those of the grammar, whatever the array |
| `FrozenParser.Frozen.ParsePair` | external/net_skeleton/net_skeleton.c:1228-1233 | key, colon and value |
| `FrozenParser.Frozen.ParseArray` | external/net_skeleton/net_skeleton.c:1155-1167 | the array's token and those of its elements in preorder |
| `FrozenParser.Frozen.ParseElements` | external/net_skeleton/net_skeleton.c:1160-1164 | the element loop, commas optional |
| `FrozenParser.Frozen.ParseObject` | external/net_skeleton/net_skeleton.c:1236-1248 | the object's token and those of its members in preorder |
| `FrozenParser.Frozen.ParseMembers` | external/net_skeleton/net_skeleton.c:1241-1245 | the member loop, commas optional |
| `FrozenParser.Frozen.DoIt` | external/net_skeleton/net_skeleton.c:1250-1257 | the object, then the end marker |
| `FrozenParser.ParseJson` | external/net_skeleton/net_skeleton.c:1260-1272 | with no array, or a slot for every token begun, the answer is that of the text alone; with fewer it is always "too small"; on success the array holds the text's tree in preorder |
| `FrozenParser.ParseJson2` | external/net_skeleton/net_skeleton.c:1274-1287 | with a growing array it fails only if the text does |
| `FrozenFind.ChildEncoded` | external/net_skeleton/net_skeleton.c:1309-1320 | the tokens of each child stand where the skip pointers lead |
| `FrozenFind.PathPartLen` | external/net_skeleton/net_skeleton.c:1289-1293 | the length of a name in a path |
| `FrozenFind.ReadIndex` | external/net_skeleton/net_skeleton.c:1298-1305 | a bracketed index, or malformed |
| `FrozenPaths.PartOfBracket` | external/net_skeleton/net_skeleton.c:1298-1306 | a bracketed part is an index if and only if digits and a bracket follow, and then the number they denote |
| `FrozenPaths.PartOfOther` | external/net_skeleton/net_skeleton.c:1289-1293 | any other part is the name up to the next dot or bracket |
| `FrozenPaths.PathLeads` | external/net_skeleton/net_skeleton.c:1295-1330 | for every list of indices and names, the search by its text is the walk by its steps: to the numbered element or to the value behind the first key of that name |
| `FrozenFind.Compare` | external/net_skeleton/net_skeleton.c:1169-1173 | equality of a name and a key |
| `FrozenFind.WalkArray` | external/net_skeleton/net_skeleton.c:1308-1322 | the walk over elements ends at the one with the number |
| `FrozenFind.WalkObject` | external/net_skeleton/net_skeleton.c:1308-1322 | the walk over keys ends at the first that matches |
| `FrozenFind.Step` | external/net_skeleton/net_skeleton.c:1297-1322 | one round selects the child the tree lookup selects |
| `FrozenFind.LookupEncoded` | external/net_skeleton/net_skeleton.c:1295-1329 | the position found is where the subtree found is encoded |
| `FrozenFind.FindJsonToken` | external/net_skeleton/net_skeleton.c:1295-1329 | for every shaped tree and every path, exactly the token of the subtree that first-match lookup selects, and null exactly when it selects none |
| `FrozenFind.ParsedSearchable` | external/net_skeleton/net_skeleton.c:1260-1329 | every array the parser fills meets what the search needs |
| `FrozenFind.ParseAndFind` | external/net_skeleton/net_skeleton.c:1274-1329 | parsing and searching together answer from the tree of the text |
| `WebSocket.MaskedTwice` | external/net_skeleton/net_skeleton.c:1598-1603 | masking twice is the identity |
| `WebSocket.HeaderExact` | external/net_skeleton/net_skeleton.c:1572-1589 | once enough bytes are there the header announces the frame exactly, and before that the frame is incomplete |
| `WebSocket.WireHead` | external/net_skeleton/net_skeleton.c:1572-1589 | the header of a frame byte by byte, as section 5.2 of RFC 6455 draws it |
| `WebSocket.WireBody` | external/net_skeleton/net_skeleton.c:1598-1603 | the key, and each byte of the payload exclusive or a byte of the key |
| `WebSocket.FragmentFlags` | external/net_skeleton/net_skeleton.c:1547-1549 | a fragment has no final bit or opcode zero |
| `WebSocket.AnnouncesFrame` | external/net_skeleton/net_skeleton.c:1572-1603 | a frame is taken exactly when it has wholly arrived; unmasking uncovers its payload and leaves what follows |
| `WebSocket.AcceptedArrived` | external/net_skeleton/net_skeleton.c:1572-1589 | for any bytes, what the length test accepts has wholly arrived if and only if header and payload together are below 2^64 bytes |
| `WebSocket.LengthWraps` | external/net_skeleton/net_skeleton.c:1588-1589 | a header whose length wraps to a frame of one byte |
| `WebSocket.IoBuf.constructor` | external/net_skeleton/net_skeleton.c:51-55 | an empty buffer of a given size |
| `WebSocket.IoBuf.Append` | external/net_skeleton/net_skeleton.c:64-84 | the bytes are appended, in place or in a larger buffer |
| `WebSocket.IoBuf.Remove` | external/net_skeleton/net_skeleton.c:86-91 | the first bytes are dropped, if there are that many |
| `WebSocket.IoBuf.Unmask` | external/net_skeleton/net_skeleton.c:1598-1603 | only the payload changes, each byte once |
| `WebSocket.Connection.Hand` | external/net_skeleton/net_skeleton.c:1591-1630 | payload handed over, frame removed |
| `WebSocket.Connection.Deliver` | external/net_skeleton/net_skeleton.c:1555-1634 | the next frame is handed over if and only if it has wholly arrived |
| `WebSocket.Connection.Drain` | external/net_skeleton/net_skeleton.c:1703-1713 | every whole frame is handed over, in order |
| `WebSocket.Connection.Receive` | external/net_skeleton/net_skeleton.c:1703-1713 | after each chunk exactly the wholly received frames have been handed over and the rest is in the buffer |
| `WebSocket.Connection.ReceiveAll` | external/net_skeleton/net_skeleton.c:1703-1713 | however the bytes of the frames are cut, the handler sees exactly their payloads in order and the buffer ends empty; fragments count as frames of their own when defragmentation is off |
| `WebSocket.SendHeader` | external/net_skeleton/net_skeleton.c:1636-1655 | the header of the frame, with the long form from 65535 bytes on |
| `WebSocket.SendFrame` | external/net_skeleton/net_skeleton.c:1657-1665 | the bytes sent are those of a frame with the payload, unfragmented unless the opcode is zero |
| `PoolAllocator.AlignRoundsUp` | external/rapidjson/rapidjson.h:173 | the macro rounds up if and only if the request is at most 2^32-4 bytes |
| `PoolAllocator.AlignMultiple` | external/rapidjson/rapidjson.h:173 | what the macro gives is a multiple of four, the largest up to three more than the request modulo 2^32 |
| `PoolAllocator.AlignWraps` | external/rapidjson/rapidjson.h:173 | a request of 2^32 bytes is rounded to 0 |
| `PoolAllocator.InPlaceMatchesLast` | external/rapidjson/allocators.h:191 | the in-place test, which compares addresses only, can match only a block of the head chunk that ends where its used part ends |
| `PoolAllocator.UnusedIsClear` | external/rapidjson/allocators.h:173-178 | no block reaches into the unused part of the head chunk |
| `PoolAllocator.UsedFits` | external/rapidjson/allocators.h:153-168 | the sum of the sizes is at most the sum of the capacities |
| `PoolAllocator.Pool.constructor` | external/rapidjson/allocators.h:104-110 | a first chunk and no blocks |
| `PoolAllocator.Pool.FromBuffer` | external/rapidjson/allocators.h:122-131 | the client's buffer as first chunk |
| `PoolAllocator.Pool.AddChunk` | external/rapidjson/allocators.h:218-224 | a new head chunk; its header is written and touches no block and no other header |
| `PoolAllocator.HeaderIsClear` | external/rapidjson/allocators.h:218-233 | no block reaches into a chunk header |
| `PoolAllocator.HeadersKept` | external/rapidjson/allocators.h:200-203 | writing inside a block leaves every chunk header as it was |
| `PoolAllocator.Pool.Malloc` | external/rapidjson/allocators.h:171-179 | the block is at the used end of the head chunk if the aligned request fits it, else at the start of a new chunk; at a multiple of four from its base; it lies in the used part if and only if the request is within the limit, and then it is clear of all others, which keep their bytes |
| `PoolAllocator.Pool.Expand` | external/rapidjson/allocators.h:191-198 | growth in place: the larger block lies in the head chunk if and only if the increment is within the limit, and then every block stays apart and keeps its bytes |
| `PoolAllocator.Pool.Move` | external/rapidjson/allocators.h:200-203 | the new block lies in the head chunk if and only if its size is within the limit, and then it has the old bytes, and other blocks and all headers keep theirs |
| `PoolAllocator.Pool.Realloc` | external/rapidjson/allocators.h:182-204 | the bytes of a growing block are its own if and only if the increment is within the limit where it grows in place, or the new size where it moves; then its first bytes are kept wherever it goes, and every other block and every header keeps all of its own |
| `PoolAllocator.Pool.Store` | external/rapidjson/allocators.h:171-204 | a byte written by the client changes one byte of its block, and no other block and no header |
| `PoolAllocator.Pool.Run` | external/rapidjson/allocators.h:171-204 | over every run the pool behaves as a table of independent byte strings |
| `PoolAllocator.Pool.Capacity` | external/rapidjson/allocators.h:153-158 | the sum of the capacities |
| `PoolAllocator.Pool.Size` | external/rapidjson/allocators.h:163-168 | the sum of the sizes, at most the capacity |

## Left out

- Doubles: fractions, exponents, big numbers as doubles and the rendering of doubles are parameters; the round trip is for values without them.
- Decimal rendering of integers (internal/itoa.h): the writers put the decimal numeral by definition.
- JsonString.ParseStringToStream: after a bad hexadecimal digit the source goes on scanning with the error recorded and asserts that no second error follows; the model lets a later error replace the first, as with assertions disabled, and reads zeros past the end.
- Error offsets of the JSON reader: codes and events are modelled, offsets are not; the position after an invalid value is where the value begins.
- In-situ parsing, SIMD white-space skipping, file and encoded streams, byte-order marks, UTF-16 and UTF-32 readers and writers.
- JsonWriter.Writer.Write: sends the events of a value as one list, where the source walks the tree.
- Failure of `malloc` and `realloc`, counts beyond 2^32 and aliasing of pointers.
- JsonDuplicates.DuplicateNote: names repeat at the top level only; `JsonDuplicates.EqualsSomething` is the statement for all values without doubles.
- Comparison of doubles: the source converts a number compared with a double, and so loses transitivity; the model's equality holds of no double, and the statements about it are for values without doubles.
- PoolAllocator.Pool.Malloc: chunk sizes are unbounded integers; only the alignment macro's 32-bit mask is modelled. Clearing the pool is not.
- FrozenParser.ParseJson: a null text and a negative length are not modelled, and nothing is said of the array slots after the end marker.
- FrozenFind.FindJsonToken: indices are unbounded integers; an index of 2^31 or more overflows in the source. A null path is not modelled.
- WebSocket.Connection.Deliver: frames are unfragmented unless the connection leaves fragments as they come; reassembly of fragments, which the source marks as unfinished, is not modelled. Of headers that announce 2^63 bytes or more only `WebSocket.AcceptedArrived` speaks.
- WebSocket.Connection.Drain: the same, as it calls Deliver.
- WebSocket.Connection.Receive: the same.
- WebSocket.Connection.ReceiveAll: the same.
- Blake256.Hash256: for messages below 2^61 bytes, beyond which the 64-bit bit counter wraps.
- HMAC-BLAKE-224, which hashes long keys with BLAKE-256, and the salt of BLAKE, which is always zero.
- BLAKE compression rounds, SHA-1, AES tables, chacha8 and the address hash: straight-line code with no law of its own here.
- Byte-order swaps and rotations of src/common/int-util.h: one-line expressions.
- Sockets, TLS, HTTP, DNS, UPnP, message queues, RPC, logging, options and configuration: plumbing and foreign calls.
