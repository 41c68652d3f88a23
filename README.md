# go-wayland client core, modelled in Dafny

This project models the client side of a Wayland connection as the Go
package `wayland` and its code generator implement it:

- **The message** (`message.go`):
  - `NewMessage` builds a body from typed arguments. Each argument becomes 32-bit little-endian words; a string becomes its length word, its bytes, a NUL and zero padding.
  - `Bytes` writes the 8-byte header (object id, opcode, total size) in front of the body.
  - The readers consume the body through a 16-bit cursor `n`.
- **The connection** (`client.go`):
  - the header decode in `Read`;
  - the object-id counter `NewObjectId`;
  - the two-level listener table filled by `On`;
  - the dispatch loop `Listen`;
  - the choice of the compositor's socket address in `NewClient`.
- **24.8 fixed-point numbers** (`fixed.go`): the integer conversions.
- **The code generator** (`scanner/main.go`):
  - the name conversions `toPascalCase` and `toCamelCase`;
  - the per-argument rules that decide what a generated request passes to `NewMessage` and `WithFds`, and which readers a generated event listener calls;
  - the opcodes it numbers requests and events with.

The byte layout is the wire format of the Wayland protocol: little-endian 32-bit words, and a header of object id, opcode and total message size.

Files and modules:

- `wire.dfy` (`Wire`): Go's fixed-width integers, `Option`/`Result`, and little-endian encodings with their round trips.
- `fixed.dfy` (`FixedPoint`): `newtype Fixed`, `Int32`, `Int` and `ParseFixed` on integers.
- `message.dfy` (`Messages`):
  - the encoding functions, which specify `NewMessage`;
  - `class Message`, with its readers mutating the cursor field `n`;
  - `NewMessage` and `Bytes` as methods;
  - a pure decoder `ReadSequence` that runs readers one after another;
  - the encode/decode round trips.
- `client.dfy` (`Connection`):
  - the header decode and `ReadFrame`, the pure part of `Read`;
  - the listener table as a map from object id and opcode to an opaque handler token, with `Dispatch` and `Register`;
  - `class Client`, with `NewObjectId`, `On`, `Read` and `Listen`;
  - the address choice `ResolveAddress` and `NewClient`.
- `scanner.dfy` (`Scanner`):
  - `strings.Split` on `_` and its inverse;
  - a character-level reference definition `Mangle` for both case conversions;
  - the conversion loops, proved equal to the reference;
  - the per-argument rules, both as the generator writes them and corrected, and the generator's loops over requests, events and interfaces, which use the corrected rules (see "## Findings").
- `findings.dfy` (`Findings`): three places where the generator disagrees with the wire format (see "## Findings"). Each is shown on a concrete message, beside the corrected rule the rest of the model uses.

How the source is rendered:

- Bytes are the subset type `uint8` of `int`; Go's widths are subset types.
- Go's `uint32(x)`, `int32(u)` and `uint16` arithmetic are written out as explicit modular arithmetic.
- A Go slice that would be out of range, and so would panic, is a precondition of the method that takes it. In the pure decoder it is a `None` result.
- Listener closures are opaque tokens: `Listen` returns the list of invocations it makes instead of running them.
- The connection is the sequence of bytes the compositor will deliver.
- The environment is a map, and the outcome of dialling is a parameter of `NewClient`.

## Model

| member | source | states |
|---|---|---|
| Wire.ToUint32 | message.go:103-104 | Go's `uint32(x)`: a 32-bit value congruent to `x` modulo 2^32 |
| Wire.ToInt32 | message.go:55-57 | `int32(u)` reinterprets the bits: converting back gives `u`, and the result is negative exactly when the top bit is set |
| Wire.Int32Bits | message.go:105-106 | an int32 written as its 32 bits and read back as int32 is unchanged |
| Wire.LE16 | message.go:29-30 | a 16-bit value is written as exactly two bytes (its inverse is FromLE16, see the round trips) |
| Wire.LE32 | message.go:28 | a 32-bit value is written as exactly four bytes (its inverse is FromLE32) |
| Wire.FromLE16 | client.go:42 | the first of two bytes is the low byte of the 16-bit value and the second the high byte, as `binary.LittleEndian.Uint16` reads them |
| Wire.FromLE32 | client.go:54 | byte i of four carries bits 8i to 8i+7 of the word, as `binary.LittleEndian.Uint32` and the readers' `binary.Read` take them |
| Wire.LE16RoundTrip | client.go:56 | decoding the two little-endian bytes written for a 16-bit value gives the value |
| Wire.FromLE16RoundTrip | client.go:42 | any two bytes are the encoding of exactly one 16-bit value |
| Wire.LE32RoundTrip | message.go:46-53 | decoding the four little-endian bytes written for a word gives the word |
| Wire.FromLE32RoundTrip | client.go:54 | any four bytes are the encoding of exactly one word |
| Wire.Zeros | message.go:112-113 | `k` bytes, every one of them zero |
| FixedPoint.Quot | fixed.go:12 | division truncating toward zero: the remainder has the sign of the dividend and is smaller in size than the divisor |
| FixedPoint.Fixed.Int32 | fixed.go:11-13 | the bits read as two's complement, divided by 256 and truncated toward zero; the result lies in [-2^23, 2^23) |
| FixedPoint.Fixed.Int | fixed.go:15-17 | the same value as Int32, in the same range |
| FixedPoint.ParseFixed | fixed.go:19-21 | for an integer `v` with `v*256` in int32 range, the bits read as int32 are `v*256`, so the eight fraction bits are zero |
| FixedPoint.ParseFixedRoundTrip | fixed.go:11-21 | converting such an integer to fixed point and back with Int32 or Int gives the integer |
| FixedPoint.TruncatesTowardZero | fixed.go:12 | the bits of -486 give -1, not -2, and those of 486 give 1 |
| Messages.Pad | message.go:112-114 | fewer than four bytes, bringing the length to a multiple of four |
| Messages.StringEncoding | message.go:109-114 | a string takes 4 + (len+1) + padding bytes, a multiple of four |
| Messages.EncodeArg | message.go:102-119 | an argument fails to encode exactly when the type switch reaches its default; int, int32 and uint32 take exactly four bytes; a `[]uint32` takes none; every encoding is word-aligned |
| Messages.Supported | message.go:102-118 | definition: no argument of the list falls to the type switch's default case (the Encode row states that a body exists exactly then) |
| Messages.Encode | message.go:101-120 | a list encodes exactly when no argument reaches the default case, and the body is then a multiple of four long |
| Messages.EncodeSnoc | message.go:101-120 | encoding one more supported argument appends that argument's bytes to the body |
| Messages.TruncationKeepsAlignment | message.go:64-67 | cutting a string length to 16 bits keeps its remainder modulo four, so the reader's padding is the writer's |
| Messages.StringEncodingParts | message.go:109-114 | a string's encoding is the length word `len+1`, then the bytes and one NUL, then zero bytes up to the next multiple of four |
| Messages.EncodedStringSlices | message.go:109-111 | where the length word and the text of a string's encoding sit inside a body that holds it |
| Messages.WordAtEncoded | message.go:46-53 | the word read back at the place a word was written is that word |
| Messages.WordFits | message.go:46-50 | definition: the four-byte slice at the cursor lies inside the body and the 16-bit sum `n+4` does not wrap, which is when `msg.Body[msg.n:msg.n+4]` does not panic |
| Messages.WordAt | message.go:46-53 | the word read at the cursor is the one whose little-endian encoding is the four bytes there |
| Messages.StringLength | message.go:62-64 | the length word cut to 16 bits by `uint16(length)`: unchanged below 65536, and always equal to it modulo four |
| Messages.StringFits | message.go:62-65 | definition: both slices ReadString takes lie inside the body and their 16-bit end positions do not wrap, which is when ReadString does not panic |
| Messages.TrimNul | message.go:70 | removes at most one trailing NUL, and exactly one when the text ends in NUL |
| Messages.StringAt | message.go:64-70 | the string returned is the slice of the cut length, or one byte shorter when a trailing NUL is dropped |
| Messages.StringEnd | message.go:63-68 | the cursor after a string equals the cursor before it modulo four, so reading a string keeps the reader word-aligned |
| Messages.StringAtEncoded | message.go:59-71 | reading a string stored at the cursor stays in bounds, gives back the string, and moves the cursor to just after its padding |
| Messages.Message.constructor | client.go:53-58 | a message literal: the named fields set, cursor, descriptors and descriptor index zero |
| Messages.Message.ReadUint32 | message.go:46-53 | returns the little-endian word at the cursor and moves the cursor by exactly four |
| Messages.Message.ReadInt32 | message.go:55-57 | the same four bytes and cursor move as ReadUint32, the bits reinterpreted as int32 |
| Messages.Message.ReadFixed | message.go:73-75 | the same four bytes and cursor move as ReadUint32, as a fixed-point value |
| Messages.Message.ReadString | message.go:59-71 | returns the length-prefixed bytes at the cursor without one trailing NUL, and moves the cursor past the length word, the bytes and the padding, in 16-bit arithmetic |
| Messages.Message.ReadArray | message.go:77-80 | reads nothing and returns an empty array |
| Messages.Message.ReadFd | message.go:82-87 | returns the descriptor at `nextFd`, or 0 when none is left, and changes nothing |
| Messages.Message.WithFds | message.go:89-92 | replaces the descriptor list wholesale and returns the same message |
| Messages.IsFrameOf | message.go:22-36 | definition: the frame is the little-endian object id, opcode and its own length in 16 bits, then the body (the Bytes row states that Bytes returns such a frame) |
| Messages.NewMessage | message.go:94-126 | nil exactly when some argument has an unsupported type; otherwise a new message whose body is the concatenated encoding of the arguments, whose size is `8 + len(body)` in 16 bits, and whose cursor is zero |
| Messages.StringAppended | message.go:109-114 | the three writes the loop makes for a string add up to the string's encoding |
| Messages.Bytes | message.go:22-36 | nil for a nil message; otherwise the frame is the little-endian object id, opcode and a size equal to the frame's own length in 16 bits (not the size field), then the body unchanged |
| Messages.ReadOneEncoded | message.go:46-75 | a reader that matches an argument, run at the place the argument's encoding sits, returns the value written and moves past exactly that encoding |
| Messages.ReadOne | message.go:46-87 | one reader at the cursor fails exactly when a word reader's or ReadString's slice would be out of range, where Go panics; a word reader moves the cursor by exactly four; ReadArray and ReadFd never fail and leave the cursor where it is |
| Messages.ReadSequence | message.go:46-87 | the readers run in order, each from where the previous one left the cursor; a run that succeeds gives exactly one value per reader |
| Messages.DecodeEncoded | message.go:46-75 | readers matching a list of arguments, run over the list's encoding wherever it sits in a body, return the values written and stop right after the encoding |
| Messages.DecodeHead | message.go:101-120 | the encoding of a list splits into the first argument's bytes and the rest's encoding |
| Messages.DecodeStep | message.go:46-75 | the first reader returns the first argument, then the remaining readers continue after its bytes |
| Messages.BodyRoundTrip | message.go:94-126 | a body built by NewMessage, read by each argument's own reader, gives the values ExpectedAll gives (words modulo 2^32, int32 values and strings unchanged, arrays empty) and leaves the cursor at the end of the body |
| Messages.SingleArgumentRoundTrip | message.go:46-71 | on a message built from one uint32, ReadUint32 returns it; on one built from one string, ReadString returns the string and leaves the cursor at the end of the body |
| Messages.EncodeWordStringWord | message.go:101-120 | the body of a (uint32, string, uint32) message is the three encodings one after the other |
| Messages.GlobalEventRoundTrip | message.go:46-71 | the readers a wl_registry.global listener calls give back the name, interface and version the message was built from |
| Connection.DecodeHeader | client.go:42-58 | object id from bytes 0-3, opcode from bytes 4-5 and size from bytes 6-7, each little-endian; the fields re-encode to exactly the header bytes |
| Connection.BodyLength | client.go:44 | the body is `size-8` bytes for a size of at least 8; a smaller size wraps, in 16-bit arithmetic, to exactly `size + 65528` bytes |
| Connection.ReadFrame | client.go:29-61 | a message comes back exactly when the stream holds the header and the whole body; its fields are the header's, its body has the decoded length, and the stream is header, body, rest |
| Connection.HeaderOfBytes | client.go:42-58 | decoding the first eight bytes of a serialized message gives its object id, its opcode and `8 + len(body)` in 16 bits |
| Connection.ReadFrameOfBytes | client.go:35-58 | a serialized message followed by anything is read back as exactly that message, and the rest is left unread |
| Connection.Dispatch | client.go:106-110 | a listener is found exactly when one is registered for the object id and opcode, and it is that one |
| Connection.Register | client.go:84-97 | after registering, the pair reaches the new listener, every other pair reaches what it reached before, and the object id has an inner table |
| Connection.RegisterReplaces | client.go:89 | registering twice for one pair keeps only the second listener |
| Connection.RegisterCommutes | client.go:84-97 | registrations for different pairs commute |
| Connection.DeliveriesDispatch | client.go:106-108 | every listener invocation goes to exactly the listener registered for the message's object id and opcode |
| Connection.DeliversRegistered | client.go:106-108 | a message with a registered listener is delivered to it, then listening goes on with the following bytes |
| Connection.DropsUnregistered | client.go:106-110 | a message with no registered listener is dropped: what is delivered afterwards is as if it had not been sent |
| Connection.Client.constructor | client.go:134-136 | a client with no ids handed out and an empty listener table |
| Connection.Client.NewObjectId | client.go:24-27 | increments the counter by one (wrapping at 2^32) and returns the new value |
| Connection.Client.On | client.go:81-100 | the listener table becomes Register of the old one |
| Connection.Client.Read | client.go:29-61 | the message ReadFrame describes, with cursor and descriptors zero, and the rest of the stream left pending; null when the stream ends early |
| Connection.Client.Listen | client.go:103-112 | the invocations made are Deliveries of the listener table over the bytes that were pending |
| Connection.Deliveries | client.go:103-112 | definition of what Listen hands out: for each message read, in order, the listener Dispatch finds and the message, skipping messages nobody listens for, until a read fails (the Listen, DeliveriesDispatch, DeliversRegistered and DropsUnregistered rows are stated against it) |
| Connection.NothingRegistered | client.go:106-110 | with an empty listener table nothing is delivered, whatever arrives |
| Connection.DeliveriesBound | client.go:35-44 | every message takes at least its eight header bytes, so a stream of n bytes delivers at most n/8 messages |
| Connection.FirstIdIsDisplay | client.go:24-27 | the first id a new client hands out is 1, the id given to wl_display |
| Connection.SuccessiveIds | client.go:24-27 | successive ids go up by exactly one, with no gaps, until the wrap at 2^32 |
| Connection.ResolveAddress | client.go:121-132 | a non-empty WAYLAND_SOCKET is used as it is; otherwise XDG_RUNTIME_DIR joined with WAYLAND_DISPLAY, or with `wayland-0` when the display is unset; with neither the socket nor the runtime directory set, the error "no Wayland compositor detected" |
| Connection.DisplayNeedsRuntimeDir | client.go:125-131 | WAYLAND_DISPLAY without XDG_RUNTIME_DIR or WAYLAND_SOCKET is an error |
| Connection.ResolvedAddress | client.go:121-132 | a resolved address is never empty, and unless WAYLAND_SOCKET gave it, it is XDG_RUNTIME_DIR joined with a non-empty name, the display name or `wayland-0` |
| Connection.NewClient | client.go:120-145 | fails with the resolution error or the dial error; otherwise a new client connected to the resolved address, with no ids handed out and no listeners |
| Connection.Getenv | client.go:121-124 | `os.Getenv` on a snapshot of the environment: the variable's value when it is set, and a non-empty result only for a set variable |
| Connection.Join | client.go:126-128 | `filepath.Join` simplified to the directory, one `/` and the name, without cleaning (see "## Left out") |
| Scanner.Split | scanner/main.go:62 | at least one piece, and no piece contains an underscore |
| Scanner.JoinSplit | scanner/main.go:62 | joining the pieces back with `_` gives the text that was split |
| Scanner.SplitJoin | scanner/main.go:62 | splitting a join of underscore-free pieces gives back exactly those pieces |
| Scanner.Upper | scanner/main.go:67 | upper-cases an ASCII lower-case letter and leaves every other character as it is |
| Scanner.Capitalize | scanner/main.go:64-69 | one piece with its first character upper-cased: the same length, and no underscore added |
| Scanner.PascalJoin | scanner/main.go:63-70 | the capitalised pieces concatenated; underscore-free pieces give underscore-free text |
| Scanner.CamelJoin | scanner/main.go:78-90 | the first piece verbatim and the later ones capitalised; underscore-free pieces give underscore-free text |
| Scanner.PascalStep | scanner/main.go:63-70 | one more piece adds that piece with its first character upper-cased |
| Scanner.CamelStep | scanner/main.go:78-90 | the first piece is added verbatim and every later one capitalised |
| Scanner.Mangle | scanner/main.go:59-99 | the reference conversion's result never contains an underscore |
| Scanner.MangleSplit | scanner/main.go:59-90 | the piece-by-piece conversions equal the character-level reference: PascalCase capitalises every piece, camelCase all but the first, and empty pieces add nothing |
| Scanner.MangleAppend | scanner/main.go:62-70 | converting a concatenation converts each part in turn, the second in the state the first leaves |
| Scanner.ManglePiece | scanner/main.go:64-69 | underscore-free text is kept as it is, or has its first character upper-cased |
| Scanner.MangleJoin | scanner/main.go:62-70 | text after an underscore is converted as if it started a new name |
| Scanner.AvoidKeyword | scanner/main.go:92-98 | the result is never `range` or `interface`, any other name is unchanged, and no underscore is introduced |
| Scanner.ToPascalCase | scanner/main.go:59-73 | the reference PascalCase conversion of the input, which contains no underscore |
| Scanner.AppendCapitalized | scanner/main.go:66-69 | appends the piece with its first character upper-cased, or nothing for an empty piece |
| Scanner.ToCamelCase | scanner/main.go:75-99 | the reference camelCase conversion with Go keywords renamed, which contains no underscore |
| Scanner.RenameKeyword | scanner/main.go:92-98 | `range` becomes `rnge`, `interface` becomes `iface`, anything else is kept |
| Scanner.PascalName | scanner/main.go:59-73 | what toPascalCase returns has no underscore |
| Scanner.PascalNamePiece | scanner/main.go:62-70 | a name without an underscore only gets its first character upper-cased |
| Scanner.CamelName | scanner/main.go:75-99 | what toCamelCase returns has no underscore and is never `range` or `interface` |
| Scanner.CamelNameKeeps | scanner/main.go:75-98 | a name without an underscore that is not `range` or `interface` comes back unchanged |
| Scanner.PascalExample | scanner/main.go:177 | `wl_shm_pool` becomes `WlShmPool` |
| Scanner.CamelExample | scanner/main.go:244 | `callback_data` becomes `callbackData` |
| Scanner.KindOf | message.go:102-119 | a value reaches the type switch with a named type exactly when it falls to the default case |
| Scanner.EncodeTyped | message.go:102-119 | values encode exactly when every one of their types has a case in the switch |
| Scanner.Accepted | message.go:102-118 | definition: the types NewMessage's switch has a case for, namely int, int32, uint32, string and []uint32 |
| Scanner.ParamType | scanner/main.go:246-271 | a plain request argument (not fd, not new_id, which RequestPart handles apart) gets no parameter type exactly when its type is not string, uint, int, enum, object or fixed |
| Scanner.SentTypeAsWritten | scanner/main.go:273-276 | as generated, the value passed for a plain argument is accepted by NewMessage exactly for string, uint, int, enum and object, and not for fixed |
| Scanner.SentType | scanner/main.go:273-276 | corrected: a fixed argument is passed as its 32 bits, so every known plain type is accepted; other types are passed as generated |
| Scanner.RequestPart | scanner/main.go:193-279 | corrected rule (a fixed value passed as its 32 bits): a descriptor argument passes its name to WithFds and nothing to NewMessage; others pass nothing to WithFds; every value passed for a known type is accepted by NewMessage |
| Scanner.Contributions | scanner/main.go:193-279 | the arguments' contributions in declaration order: at most one descriptor and one result per argument, and no descriptor when no argument is an fd |
| Scanner.ContributionsAppend | scanner/main.go:193-279 | arguments contribute in declaration order, so descriptors reach WithFds in the order declared |
| Scanner.RequestValuesAccepted | scanner/main.go:240-279 | for a request whose argument types are all known, every value passed to NewMessage has an accepted type |
| Scanner.RequestEncodes | scanner/main.go:294-298 | so the message a generated request builds is never nil |
| Scanner.PlanRequest | scanner/main.go:180-307 | the generator's request loop under the corrected fixed rule: the request's method name, its opcode, and the contributions of its arguments in order |
| Scanner.RequestArgument | scanner/main.go:193-279 | one pass of that loop under the corrected fixed rule: one argument's parameters, results, values and descriptors, as RequestPart gives them |
| Scanner.EventParamTypes | scanner/main.go:323-352 | an event parameter's type agrees with the request table except that an enum is int32 in an event and uint32 in a request |
| Scanner.EventParamType | scanner/main.go:323-352 | definition: the listener parameter type for each argument type (the EventParamTypes row relates it to the request table) |
| Scanner.EventReadersAsWritten | scanner/main.go:323-352 | as generated: an object argument is read as a word, a string and a word; a new_id argument reads nothing |
| Scanner.EventReaders | scanner/main.go:323-352 | corrected: every known argument type is one reader; object and new_id are the word of the id |
| Scanner.ReadersOf | scanner/main.go:315-355 | the corrected readers of all arguments, in order: at most one per argument |
| Scanner.ReadersOfKnown | scanner/main.go:323-352 | an event whose argument types are all known has exactly one corrected reader per argument |
| Scanner.ReadersOfAsWritten | scanner/main.go:315-355 | the generated readers of all arguments, in order: at most three per argument, an object's word, string and word |
| Scanner.AsWrittenAgrees | scanner/main.go:323-352 | without object or new_id arguments, the generated readers are exactly the corrected ones |
| Scanner.ReadersMatch | scanner/main.go:315-355 | the corrected readers match, one for one, the values the compositor sends for the event's arguments |
| Scanner.EventRoundTrip | scanner/main.go:315-361 | with the corrected readers, a listener decodes exactly the values encoded for the event and reads the whole body |
| Scanner.PlanEvent | scanner/main.go:309-365 | the generator's event loop with the corrected object and new_id readers: the listener's name, its opcode, one parameter per argument with its converted name and type, and the readers of all arguments in order |
| Scanner.EventArgument | scanner/main.go:315-355 | one pass of that loop with the corrected readers: one argument's listener parameter and the reader calls that produce its value |
| Scanner.GenerateInterface | scanner/main.go:176-366 | the generator's loops under the corrected rules: the type name, and every request and event numbered by its zero-based position in its list |
| Findings.FixedRequestAsWritten | scanner/main.go:256-276 | as generated, a request with a fixed argument builds a nil message |
| Findings.Words | message.go:103-108 | words laid out one after the other take four bytes each |
| Findings.WordsAt | message.go:46-53 | the i-th word of such a layout is read back at byte 4i |
| Findings.ErrorBody | message.go:101-120 | the body of wl_display.error(3, 0, "") is the words 3, 0, 1, 0 |
| Findings.ErrorEventAsWritten | scanner/main.go:335-342 | the generated wl_display.error listener runs past the end of that body |
| Findings.ErrorReadsPastEnd | scanner/main.go:335-342 | the generated reads over that body, word by word, fail |
| Findings.ErrorEventCorrected | scanner/main.go:335-342 | with the object read as its id, the listener gets object 3, code 0 and the empty message, and reads all 16 bytes |
| Findings.ErrorEventCarried | scanner/main.go:323-342 | the values of that message are of the kinds the event's argument types carry |
| Findings.ErrorEventExpected | scanner/main.go:323-342 | the corrected readers match those values and return object 3, code 0 and the empty message |
| Findings.DataOfferAsWritten | scanner/main.go:349-351 | the generated wl_data_device.data_offer listener reads nothing of the four-byte body that carries the compositor's id |
| Findings.DataOfferCorrected | scanner/main.go:349-351 | with the new_id read as a word, the listener gets the compositor's id and reads the whole body |

## Left out

- Socket I/O is not modelled: `io.ReadFull`, `conn.Write`, `WriteMsgUnix`, `net.Dial` and `Close`. `Read` takes its bytes from the `pending` field, and `NewClient` receives the outcome of dialling as a parameter.
- `Write` and `Request` are not modelled. `Write` chooses between a plain write and `WriteMsgUnix` by whether the message has descriptors; that choice is left out. `Write` reads `msg.Fds` before calling `Bytes`, so the nil message `Request` gets from `NewMessage` for an unsupported argument makes `Write` panic.
- Connection.Client.Read: when the stream ends inside a header or a body, the model consumes everything left. The Go code leaves the connection in whatever state the failed read left it. The error message `Read` prints on a failed read (client.go:38, 47) is output and is not modelled.
- Descriptors that arrive with a message are not read (`Read` never reads them either), so a received message has an empty descriptor list.
- The mutexes and the goroutine and channel that `On` sets up are concurrency and are not modelled. Nothing is claimed about how often the returned channel fires.
- Listener closures are opaque tokens. `Listen` records each invocation instead of running it, so a listener's own effects (including registering further listeners) are not modelled.
- Connection.Client.Listen: after a failed read the model stops and returns. The Go loop dereferences the nil message and panics.
- `Fixed.Float64` and `ParseFixed` on `float64` use floating-point rounding and are not modelled.
- FixedPoint.ParseFixed: only integer arguments whose product with 256 fits in an int32. Outside that range Go's float-to-int32 conversion is implementation-defined.
- `Message.String` is diagnostic formatting and is not modelled.
- Messages.Message.ReadArray and the `[]uint32` case of NewMessage are modelled as the no-ops they are; no array format is assumed.
- Scanner.Upper: only ASCII letters are upper-cased. Go's `strings.ToUpper` also maps non-ASCII runes.
- Connection.Join: `filepath.Join` is modelled as `dir + "/" + name`, without the cleaning of `.`, `..` and repeated separators.
- Connection.ResolvedAddress: the model does not promise that the address starts with XDG_RUNTIME_DIR as text. `filepath.Join` cleans the path, so a runtime directory ending in `/` or a display name containing `..` breaks that prefix.
- The generator's XML parsing, directory walking, file writing and the Go source text it emits are not modelled. The per-argument rules are modelled as the parameters, results, values, descriptors and reader calls that text contains.
- `wlclient/generated.go` is output of the generator, used only for the concrete examples.
- Scanner.RequestPart: models the corrected rule, which passes a fixed argument as `uint32(x)` with type uint32. The generator passes the `wayland.Fixed` value itself (scanner/main.go:256-257, 273); that rule is Scanner.SentTypeAsWritten.
- Scanner.RequestArgument: the same corrected fixed rule as RequestPart; the as-written rule is Scanner.SentTypeAsWritten.
- Scanner.PlanRequest: loops over the corrected per-argument rule; the generated request methods pass fixed values as described by Scanner.SentTypeAsWritten.
- Scanner.EventArgument: reads an object or a new_id argument as one word. The generator reads an object as a word, a string and a word, and reads nothing for a new_id (scanner/main.go:338, 341, 351); that rule is Scanner.EventReadersAsWritten.
- Scanner.PlanEvent: its readers are Scanner.ReadersOf; the generated listeners call Scanner.ReadersOfAsWritten, which for wl_display.error is five reads instead of three.
- Scanner.GenerateInterface: built from PlanRequest and PlanEvent, so it carries both corrections; the as-written per-argument rules are Scanner.SentTypeAsWritten and Scanner.EventReadersAsWritten.
- Scanner.EventRoundTrip: descriptor arguments are excluded, because descriptors travel beside the body.
- Messages.BodyRoundTrip and the other round trips need bodies under 65528 bytes, so that `8 + len(body)` fits the 16-bit size field.

## Findings

| source | as written | input that shows it | evidently intended | confidence | as-written member | corrected member |
|---|---|---|---|---|---|---|
| scanner/main.go:256-276 | a `fixed` request argument is passed to NewMessage as a `wayland.Fixed`, a type its switch has no case for, so NewMessage returns nil (message.go:117-118), and `Write` then panics reading the nil message's descriptors (client.go:66, 77) | wp_viewport.set_source(x, y, width, height), whose arguments are all fixed | pass the 32 bits, `uint32(x)`, so the message encodes | not executed | Findings.FixedRequestAsWritten | Scanner.RequestEncodes |
| scanner/main.go:335-342 | an `object` event argument is read as ReadUint32, ReadString, ReadUint32, where the wire carries one word | wl_display.error for object 3, code 0 and an empty message: the body is the words 3, 0, 1, 0, and the reads run past its end | read the object's id alone with ReadUint32 | not executed | Findings.ErrorEventAsWritten | Findings.ErrorEventCorrected |
| scanner/main.go:349-351 | a `new_id` event argument reads nothing and takes a fresh client id, so the compositor's id is never read and the cursor stays put | wl_data_device.data_offer carrying id 0xff000000 | read the new object's id with ReadUint32 | not executed | Findings.DataOfferAsWritten | Findings.DataOfferCorrected |
