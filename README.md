# deft-layout bitfield codec, modelled in Dafny

deft-layout describes device registers and bus messages as Swift classes whose
properties are bitfields of a shared byte buffer. The model covers the whole
path from a typed property value to the bits in that buffer, in four layers.

- **The coder** (`Coding`, `multibytecoder.dfy`; proofs in `CodingProofs`,
  `multibytecoderproofs.dfy`). A `MultiByteCoder` is a field of a growable
  byte buffer. It is given by the index and bit of its most significant bit,
  the index and bit of its least significant bit, a signedness and a byte
  order. Its initializer checks these coordinates, and `Validate` gives the
  error of the first guard that fails (`BitfieldRangeError`, module
  `ByteCoder`). Its `wideRepresentation` moves a 64-bit word in and out of the
  field. The getter is the loop `GetWideRepresentation`, specified by the
  function `Decoded`. The setter is `SetWideRepresentation`, made of the grow
  loop `GrowStorage` and the stride loop over `WriteChunk`, and specified by
  `Written`. The setter's two `assert`s are its precondition `WriteAllowed`.
  The lemmas prove four things about these functions:
  - exact placement and isolation of every bit;
  - growth to one past the highest index, never shrinking;
  - the unsigned round trip in either byte order, and reading then writing
    changing nothing;
  - the signed round trip, exactly for two's-complement words of the field's
    width.
- **Values** (`Embedding`, `bitembeddable.dfy`). These are the `BitEmbeddable`
  conversions of `Int`, `Bool`, `UInt8`, `Int8`, `UInt16` and `Int16` to and
  from their raw values, with their round trips.
- **The adapter** (`Adapting`, `coderadapter.dfy`). `CoderAdapter.decodedValue`
  truncates the coder's word to the raw type and converts it. Its setter
  zero-pads the raw value and sign-extends it from the raw type's width.
  `Position` is the property wrapper that every layout uses.
- **Layouts and the shared buffer.**
  - `Storage` (`assembledmessage.dfy`) models the static "message under
    construction" slot of `AssembledMessage` as an explicit `Builder` object.
  - `Layout` (`bitstoragecore.dfy`) models `BitStorageCore`, whose initializer
    takes over that message and rotates in a fresh one.
  - `ByteLayout`, `WordLayout`, `ByteArrayLayout` and `SMBus` turn datasheet
    coordinates into coder coordinates and build the fields.

`Bits` (`bits.dfy`) gives the arithmetic meaning of the Swift bit operations on
64-bit words and bytes. Shifts, masks, field extraction and field replacement
are recursive functions, and lemmas relate them to single bits.
`CoderExamples` and `LayoutExamples` replay the repository's unit tests on the
model, with the values the code produces.

Behaviour of the code that the model keeps as written:

- Growth length: writing a field whose highest byte index is 5 grows an empty
  buffer to 6 bytes. `MultiByteCoderTests.swift` line 30 expects 5.
- Byte placement: for the field from bit 2 of byte 1 to bit 7 of byte 2,
  writing `0b1101` sets bytes 1 and 2. The test at lines 56-57 looks one index
  lower.
- Little-endian width: for a little-endian field over several bytes,
  `encodedWidth` subtracts the byte indices the wrong way round. The width is
  then zero or negative:
  - at width zero the excess mask is all ones, so an unsigned coder accepts
    only 0, and a signed one accepts 0 and the all-ones word, storing 0;
  - below zero the mask is empty, so the setter does not test the fit and
    nothing is sign-extended.

  Signed properties are proved only for fields whose width is their bit count
  (`CodingProofs.WidthExact`). Unsigned little-endian round trips are proved
  for values that fit the real bit count.
- The signed guard lets through a positive word with the field's top bit set;
  it reads back negative.
- `SMBusWord`'s `position` maps word bits `15 ... 0` to byte indices
  `2 - k / 8`:
  - a field within one byte lands at index 1 or 2;
  - a field across the two bytes is refused as a bad byte index;
  - its assertions check `lsb` twice and never bound `msb`.

The model states all of these behaviours and does not correct them.

## Model

| member | source | states |
|---|---|---|
| Coding.Validate | Sources/DeftLayout/MultiByteCoder.swift:21-37 | Coordinates are accepted exactly when they are well formed, and then unchanged. A negative index, or indices in the wrong order for the byte order, is `badByteIndex`. Otherwise, one byte with msb below lsb is `bitOrdering`. Otherwise, a bit outside 0 ..< 8 is `byteWidthExceeded`. |
| Coding.MultiByteCoder.constructor | Sources/DeftLayout/MultiByteCoder.swift:39-46 | The coder keeps the checked coordinates and the message it is stored in. |
| Coding.MultiByteCoder.Make | Sources/DeftLayout/MultiByteCoder.swift:21-47 | The throwing initializer fails exactly when validation fails, with the same error. Otherwise it returns a new coder bound to `storedIn` with the coordinates as given. |
| Coding.ExcessMaskIsHighMask | Sources/DeftLayout/MultiByteCoder.swift:60-64 | `~((1 << width) &- 1)` under Swift's smart shift is the word with bits `width ..< 64` set, and is empty when the width is negative or 64 and more. |
| CodingProofs.ExcessMaskBits | Sources/DeftLayout/MultiByteCoder.swift:59-64 | Bit `j` of the excess mask is set exactly when `0 <= encodedWidth <= j`. |
| CodingProofs.EncodedWidthValue | Sources/DeftLayout/MultiByteCoder.swift:55-57 | `encodedWidth` is the field's real bit count for big-endian and single-byte fields. For a little-endian multi-byte field it is zero or less: the bit count minus 16 for every byte after the first. |
| CodingProofs.ExtendingSignBits | Sources/DeftLayout/MultiByteCoder.swift:71-85 | An unsigned coder, or a raw value whose bit `bit - 1` is clear, keeps every bit. Otherwise every excess bit is set and the bits below the width are kept. |
| Bits.ShiftedOne | Sources/DeftLayout/MultiByteCoder.swift:61 | `UInt(1) << n` is `2^n` for `0 <= n < 64` and 0 for any other shift amount. |
| Bits.Field | Sources/DeftLayout/MultiByteCoder.swift:99-100 | A byte shifted right and masked to `w` bits is below `2^w`. |
| Bits.BitOfPlace | Sources/DeftLayout/MultiByteCoder.swift:132-135 | Clearing a field of a byte and or-ing in the shifted, masked chunk sets the field's bits from the chunk and keeps every other bit. |
| Bits.PlaceParts | Sources/DeftLayout/MultiByteCoder.swift:132-135 | A field replacement keeps the bits above and below the field, and the field then reads back the low bits of the chunk. |
| Bits.PlaceField | Sources/DeftLayout/MultiByteCoder.swift:132-135 | Writing back a field just read leaves the byte as it was. |
| Coding.ChunkIndex | Sources/DeftLayout/MultiByteCoder.swift:93 | Every chunk of the field is stored at a byte index of the span, within the buffer the field needs. |
| Coding.ChunkOf | Sources/DeftLayout/MultiByteCoder.swift:127 | Every byte of the span holds exactly one chunk, the one whose index is that byte. |
| Coding.ChunkWidth | Sources/DeftLayout/MultiByteCoder.swift:97 | Each pass takes at least one bit, and its bits fit in its byte above its lsb. |
| Coding.Chunk | Sources/DeftLayout/MultiByteCoder.swift:99-100 | The bits read from a byte are below `2^bitsToAddThisPass`. |
| CodingProofs.ChunkOffsetValue | Sources/DeftLayout/MultiByteCoder.swift:125-138 | The passes below chunk `k` consume `8k - lsb` bits, and all the passes together consume the field's bit count. |
| CodingProofs.InFieldChunk | Sources/DeftLayout/MultiByteCoder.swift:94-97 | The bits a pass touches in its byte are exactly the field's bits of that byte. |
| Coding.MultiByteCoder.GetWideRepresentation | Sources/DeftLayout/MultiByteCoder.swift:87-106 | The getter's loop returns `Decoded`: the chunks assembled from the most significant down, then sign-extended from `encodedWidth`. |
| CodingProofs.ReadValue | Sources/DeftLayout/MultiByteCoder.swift:87-106 | For a field whose width is its bit count (at most 64), the assembled bits are below `2^encodedWidth`. A signed field with bit `encodedWidth - 1` set reads them with every excess bit set, and any other field reads them unchanged. |
| CodingProofs.AssembledBound | Sources/DeftLayout/MultiByteCoder.swift:91-104 | A field of at most 64 bits never shifts a bit out of the reader's word. Each step is an exact shift and add. |
| CodingProofs.ReadBits | Sources/DeftLayout/MultiByteCoder.swift:91-104 | A bit of the field in the buffer is the bit of the word read that its position gives it. |
| CodingProofs.SameByteRead | Sources/DeftLayout/MultiByteCoder.swift:91-104 | A field within one byte reads bits `lsb ... msb` of that byte. |
| CodingProofs.WriteAllowedIff | Sources/DeftLayout/MultiByteCoder.swift:108-115 | The setter's assertions hold exactly when a word of a signed coder with bit 63 set has every excess bit set, or any other word is below the excess bits. |
| CodingProofs.FilledWordAllowed | Sources/DeftLayout/MultiByteCoder.swift:110-112 | A signed coder accepts any word with every excess bit set, and stores only its low bits. |
| Coding.Grown | Sources/DeftLayout/MultiByteCoder.swift:118-121 | Growing appends zero bytes to the requested length and keeps the existing bytes as a prefix. |
| Coding.MultiByteCoder.GrowStorage | Sources/DeftLayout/MultiByteCoder.swift:118-121 | The grow loop leaves the buffer grown with zeros to one past the highest index of the field. A longer buffer is left as it is. |
| Coding.MultiByteCoder.WriteChunk | Sources/DeftLayout/MultiByteCoder.swift:128-138 | One pass of the write loop writes one more chunk into its byte and leaves what is left of the value for the next pass. |
| Coding.WritePass | Sources/DeftLayout/MultiByteCoder.swift:131-138 | Clearing the pass's bits and or-ing in the truncated, shifted chunk writes exactly that chunk. Shifting right by its width gives what the next chunk takes. |
| Coding.PartlyWrittenBytes | Sources/DeftLayout/MultiByteCoder.swift:124-139 | After `k` passes, a byte is rewritten exactly when its chunk is among the first `k`, and every other byte is unchanged. |
| Coding.PartlyWrittenAll | Sources/DeftLayout/MultiByteCoder.swift:124-139 | Once every chunk has been written, the grown buffer is `Written`. |
| Coding.MultiByteCoder.SetWideRepresentation | Sources/DeftLayout/MultiByteCoder.swift:107-140 | Given a word its assertions accept, the setter leaves the buffer `Written` with the stripped word. |
| CodingProofs.RemainingIsShift | Sources/DeftLayout/MultiByteCoder.swift:138 | What is left for chunk `k` is the value shifted right past the chunks below it. |
| CodingProofs.WriteFrame | Sources/DeftLayout/MultiByteCoder.swift:118-139 | A write grows the buffer to one past the field's highest index and never shrinks it. Every byte outside the field keeps its value, or is a new zero byte. |
| CodingProofs.WrittenInSpan | Sources/DeftLayout/MultiByteCoder.swift:124-139 | A byte of the field after a write is its old value, or a new zero, with its chunk placed in it. |
| CodingProofs.WrittenBits | Sources/DeftLayout/MultiByteCoder.swift:124-139 | After a write, a bit of the field holds the value bit its position gives it, and every other bit of the buffer keeps its value or is zero in a new byte. |
| CodingProofs.WrittenChunk | Sources/DeftLayout/MultiByteCoder.swift:131-135 | After a write, each chunk reads back the low bits of what the writer had left for it. |
| CodingProofs.SameByteWrite | Sources/DeftLayout/MultiByteCoder.swift:124-139 | Writing a field within one byte places the value at `lsb ... msb` of that byte and leaves every other byte as it was. |
| CodingProofs.ReadChunks | Sources/DeftLayout/MultiByteCoder.swift:91-104 | The reader, run over chunks holding a writer's pieces of `v`, reassembles what the writer had left at each chunk. |
| CodingProofs.ReadWritten | Sources/DeftLayout/MultiByteCoder.swift:87-139 | A value that fits the field's bit count is reassembled exactly after being written, in either byte order. |
| CodingProofs.UnsignedRoundTrip | Sources/DeftLayout/MultiByteCoder.swift:87-140 | An unsigned field reads back any value below `2^bitCount` after writing it, in either byte order and whatever the buffer held. |
| CodingProofs.SignedRoundTrip | Sources/DeftLayout/MultiByteCoder.swift:87-140 | On a signed field whose width is its bit count, an accepted word reads back exactly when it is the two's-complement word of an integer of that width. |
| CodingProofs.SignedDecode | Sources/DeftLayout/MultiByteCoder.swift:105-112 | The getter's sign extension undoes the setter's stripping exactly on two's-complement words of the field's width. |
| CodingProofs.SignedFitsAllowed | Sources/DeftLayout/MultiByteCoder.swift:108-115 | The setter accepts every two's-complement word of the field's width. |
| CodingProofs.RemainingOfRead | Sources/DeftLayout/MultiByteCoder.swift:91-138 | The writer's shifts retrace the reader's steps on a word just read. |
| CodingProofs.ReadThenWriteByte | Sources/DeftLayout/MultiByteCoder.swift:87-139 | Writing back the word just read leaves each byte as it was. |
| CodingProofs.ReadThenWrite | Sources/DeftLayout/MultiByteCoder.swift:87-139 | Writing back the word just read leaves the buffer unchanged, so reading and writing are inverses. |
| Embedding.IntRaw | Sources/DeftLayout/BitEmbeddable.swift:39-41 | `Int.rawValue` is the word congruent to the integer modulo `2^64`, with bit 63 clear exactly for non-negative integers. |
| Embedding.IntFromRaw | Sources/DeftLayout/BitEmbeddable.swift:35-38 | `Int(rawValue:)` never fails and gives the integer congruent to the word, negative exactly when bit 63 is set. |
| Embedding.IntRoundTrips | Sources/DeftLayout/BitEmbeddable.swift:32-42 | `Int` and `UInt` conversions are mutual inverses. |
| Embedding.BoolRaw | Sources/DeftLayout/BitEmbeddable.swift:49-51 | `Bool.rawValue` is 1 for `true` and 0 for `false`. |
| Embedding.BoolFromRaw | Sources/DeftLayout/BitEmbeddable.swift:46-48 | `Bool(rawValue:)` never fails and is `true` exactly for raw value 1. |
| Embedding.BoolRoundTrips | Sources/DeftLayout/BitEmbeddable.swift:44-52 | A `Bool` survives its raw value. A raw value survives only when it is 0 or 1; any other comes back as 0. |
| Embedding.UInt8Raw | Sources/DeftLayout/BitEmbeddable.swift:61-63 | `UInt8.rawValue` is the identity. |
| Embedding.UInt8FromRaw | Sources/DeftLayout/BitEmbeddable.swift:58-60 | `UInt8(rawValue:)` never fails and is the identity. |
| Embedding.Int8Raw | Sources/DeftLayout/BitEmbeddable.swift:72-74 | `Int8.rawValue` is the bit pattern: congruent modulo 256, with bit 7 clear exactly for non-negative values. |
| Embedding.Int8FromRaw | Sources/DeftLayout/BitEmbeddable.swift:69-71 | `Int8(rawValue:)` never fails and gives the value congruent modulo 256, negative exactly when bit 7 is set. |
| Embedding.Int8RoundTrips | Sources/DeftLayout/BitEmbeddable.swift:66-75 | `Int8` and its bit pattern are mutual inverses. |
| Embedding.UInt16Raw | Sources/DeftLayout/BitEmbeddable.swift:82-84 | `UInt16.rawValue` is the identity. |
| Embedding.UInt16FromRaw | Sources/DeftLayout/BitEmbeddable.swift:79-81 | `UInt16(rawValue:)` never fails and is the identity. |
| Embedding.Int16Raw | Sources/DeftLayout/BitEmbeddable.swift:93-95 | `Int16.rawValue` is congruent modulo `2^16`, with bit 15 clear exactly for non-negative values. |
| Embedding.Int16FromRaw | Sources/DeftLayout/BitEmbeddable.swift:90-92 | `Int16(rawValue:)` never fails and gives the value congruent modulo `2^16`, negative exactly when bit 15 is set. |
| Embedding.Int16RoundTrips | Sources/DeftLayout/BitEmbeddable.swift:87-96 | `Int16` and `UInt16` conversions are mutual inverses. |
| Embedding.RawOf | Sources/DeftLayout/BitEmbeddable.swift:32-96 | The raw value of any embeddable value is below `2^RawValue.bitWidth` and is its integer modulo that bound. |
| Embedding.FromRaw | Sources/DeftLayout/BitEmbeddable.swift:32-96 | No built-in `init?(rawValue:)` returns nil, and each gives a value of its own type. |
| Embedding.FromRawOf | Sources/DeftLayout/BitEmbeddable.swift:32-96 | Every value survives its raw value. |
| Embedding.RawOfFromRaw | Sources/DeftLayout/BitEmbeddable.swift:32-96 | A raw value survives the value made from it exactly unless it is a `Bool` raw value above 1. |
| Embedding.IntegerOfFromRaw | Sources/DeftLayout/BitEmbeddable.swift:32-96 | A signed type reads a raw value as two's complement: raw values from half the bound up are negative. |
| Adapting.DecodedValue | Sources/DeftLayout/CoderAdapter.swift:29-31 | Decoding gives a value of the wrapper's type whose raw value is the low `RawValue.bitWidth` bits of the word, and for the built-in types the force-unwrap never fails. A `Bool` is `true` exactly when the low byte is 1. |
| Adapting.EncodeUnsigned | Sources/DeftLayout/CoderAdapter.swift:32-35 | An unsigned coder is handed the zero-padded raw value unchanged. |
| Adapting.EncodeNegativeAllowed | Sources/DeftLayout/CoderAdapter.swift:32-35 | On a signed coder, a raw value with its top bit set becomes a word with every excess bit set. The setter's first assertion therefore always holds, and the value is cut to the field's low bits rather than rejected. |
| Adapting.NegativeAtWidthZero | Sources/DeftLayout/CoderAdapter.swift:32-35 | A signed coder of width zero, whose excess mask is the whole word, is handed every negative value as the all-ones word. |
| Adapting.EncodeSigned | Sources/DeftLayout/CoderAdapter.swift:33-34 | A signed value in range of a signed field no wider than its raw type is handed to the coder as its own 64-bit two's-complement word. |
| Adapting.TwosComplementBits | Sources/DeftLayout/CoderAdapter.swift:33-34 | For an integer in `w`-bit range, the `n`-bit pattern has its top bit set exactly when the integer is negative. Its low `w` bits and its 64-bit word are the integer's. |
| Adapting.DecodeWord | Sources/DeftLayout/CoderAdapter.swift:30 | Truncating the two's-complement word of an integer in range of a signed type and converting it gives back that integer. |
| Adapting.SignedValueRoundTrip | Sources/DeftLayout/CoderAdapter.swift:28-35 | On a signed field of width `w` no wider than the raw type, a value in `-2^(w-1) ..< 2^(w-1)` passes the setter's assertions and reads back. |
| Adapting.SignedValueRoundTripIff | Sources/DeftLayout/CoderAdapter.swift:28-35 | Of the values the setter accepts on such a field, exactly those in the field's range read back. Any other value is truncated. |
| Adapting.SignedReadInRange | Sources/DeftLayout/CoderAdapter.swift:29-31 | A signed field of `w` bits, read as a signed type at least `w` bits wide, gives an integer in `-2^(w-1) ..< 2^(w-1)`. |
| Adapting.SignedReadWord | Sources/DeftLayout/MultiByteCoder.swift:105 | A signed field of width `w` reads the 64-bit word of an integer in `w`-bit range. |
| Adapting.UnsignedValueRoundTrip | Sources/DeftLayout/CoderAdapter.swift:28-35 | On an unsigned field, a value whose raw value fits the bit count reads back. |
| Adapting.UnsignedValueAllowed | Sources/DeftLayout/CoderAdapter.swift:32-35 | An unsigned field whose width is its bit count accepts a value exactly when the value's raw value fits that count. |
| Adapting.UnsignedRead | Sources/DeftLayout/CoderAdapter.swift:29-31 | An unsigned field, read as a type that holds its bits, gives the field's bits as a number below `2^bitCount`. |
| Adapting.UnsignedReadBound | Sources/DeftLayout/MultiByteCoder.swift:87-106 | An unsigned field reads a word below `2^bitCount`. |
| Adapting.Position.constructor | Sources/DeftLayout/CoderAdapter.swift:13-15 | A wrapper holds its coder and its value type. |
| Adapting.Position.GetDecodedValue | Sources/DeftLayout/CoderAdapter.swift:29-31 | The getter returns `DecodedValue` of the coder's word. |
| Adapting.Position.SetDecodedValue | Sources/DeftLayout/CoderAdapter.swift:32-35 | The setter leaves the message `Written` with the stripped, zero-padded and sign-extended raw value. It changes only the coder's message. |
| Adapting.NewPositionAt | Sources/DeftLayout/ByteDescription.swift:54-60 | A new wrapper is bound to the message under construction and writes the initial value into it. |
| Storage.AssembledMessage.constructor | Sources/DeftLayout/AssembledMessage.swift:18 | A new message is empty. |
| Storage.Builder.constructor | Sources/DeftLayout/AssembledMessage.swift:22 | The slot starts with a new, empty message. |
| Storage.Builder.StorageBuildInProgress | Sources/DeftLayout/AssembledMessage.swift:44-46 | The slot's message is returned, and nothing changes. |
| Storage.Builder.FreezeAndRotateStorage | Sources/DeftLayout/AssembledMessage.swift:25-29 | The returned message is the one that was in the slot, with its bytes untouched. The slot then holds a new, empty message distinct from it. |
| Layout.BitStorageCore.constructor | Sources/DeftLayout/BitStorageCore.swift:37-42 | A layout's storage is the message its fields were bound to. The slot then holds a new, empty message that is not the layout's. |
| SMBus.SMBusWord.constructor | Sources/DeftLayout/SMBusWord.swift:18-21 | An SMBus word takes over the slot's message exactly as `BitStorageCore` does. |
| Bits.Remainder8 | Sources/DeftLayout/ByteDescription.swift:51-52 | `quotientAndRemainder(dividingBy: 8)`: eight times the quotient plus the remainder is the position, and the remainder lies strictly between -8 and 8. For a non-negative position both are those of Euclidean division. |
| ByteLayout.PositionRangeValid | Sources/DeftLayout/ByteDescription.swift:47-59 | Positions the assertions accept always pass validation, so the `try!` never traps. The field lies in byte 0 with offsets unchanged, is big-endian, and has width `msb - lsb + 1`. |
| ByteLayout.PositionBits | Sources/DeftLayout/ByteDescription.swift:51-58 | Bit `j` of byte `i` is in the field exactly when `i == 0` and `lsb <= j <= msb`, and it holds value bit `j - lsb`. |
| ByteLayout.NewPosition | Sources/DeftLayout/ByteDescription.swift:46-61 | A new field is a signed-as-asked, big-endian coder of byte 0, bound to the message under construction, which it writes the initial value into. |
| ByteLayout.NewBitPosition | Sources/DeftLayout/ByteDescription.swift:64-66 | `bit: k` is the unsigned field `msb: k, lsb: k`. |
| WordLayout.PositionRangeValid | Sources/DeftLayout/WordDescription.swift:46-58 | Positions the assertions accept always pass validation. Word bit `k` is bit `k % 8` of byte `1 - k / 8`, and the field is big-endian with width `msb - lsb + 1`. |
| WordLayout.PositionBits | Sources/DeftLayout/WordDescription.swift:50-54 | Bit `j` of byte `i` is in the field exactly when word bit `8(1 - i) + j` lies in `lsb ... msb`, and it holds value bit `8(1 - i) + j - lsb`. |
| WordLayout.NewPosition | Sources/DeftLayout/WordDescription.swift:45-60 | A new field is bound to the message under construction with the word coordinates, and writes the initial value into it. |
| WordLayout.NewBitPosition | Sources/DeftLayout/WordDescription.swift:64-66 | `bit: k` is the unsigned field `msb: k, lsb: k`. |
| ByteArrayLayout.PositionRangeValid | Sources/DeftLayout/ByteArrayDescription.swift:47-50 | Byte positions count from 1. The `try!` does not trap exactly when both positions are at least 1 and in order, the bits are in order within a single byte, and both offsets lie within a byte. A position of 0 or less is `badByteIndex`. |
| ByteArrayLayout.NewPosition | Sources/DeftLayout/ByteArrayDescription.swift:43-52 | A new field has byte positions `n - 1` and the offsets as given, is big-endian, and writes its initial value into the message under construction. |
| ByteArrayLayout.NewBytePosition | Sources/DeftLayout/ByteArrayDescription.swift:54-57 | `ofByte: n` sets both byte positions to `n`. |
| ByteArrayLayout.NewBitPosition | Sources/DeftLayout/ByteArrayDescription.swift:59-61 | `ofByte: n, bit: k` is the unsigned field `msb: k, lsb: k` of byte `n`. |
| SMBus.PositionRangeValid | Sources/DeftLayout/SMBusWord.swift:48-56 | Of the positions the assertions accept, exactly the single-byte ones validate: bits 7 to 0 at index 2, bits 15 to 8 at index 1. A field across the two bytes, or one reaching above bit 15, is `badByteIndex`. |
| SMBus.NewPosition | Sources/DeftLayout/SMBusWord.swift:47-62 | A new field is a little-endian coder with the `2 - k / 8` coordinates, signed exactly with `extendNegativeBit`, and writes its initial value into the message under construction. |
| SMBus.NewBitPosition | Sources/DeftLayout/SMBusWord.swift:64-66 | `bit: k` is the field `msb: k, lsb: k` without options. |
| CoderExamples.ThreeByteSpan | Tests/DeftLayoutTests/MultiByteCoderTests.swift:22-40 | The field from byte 2 bit 4 to byte 5 bit 7 validates, grows an empty buffer to 6 bytes, and reads back every value below `2^22`. |
| CoderExamples.AdjacentSpan | Tests/DeftLayoutTests/MultiByteCoderTests.swift:42-61 | Writing `0b1101` into the field from byte 1 bit 2 to byte 2 bit 7 of an empty buffer gives the three bytes 0, `0b110` and `0b1000_0000`. |
| CoderExamples.SingleByte | Tests/DeftLayoutTests/MultiByteCoderTests.swift:63-80 | The field of bits 3 to 0 of byte 2 grows an empty buffer to 3 bytes and reads back every value below 16. |
| CoderExamples.SignedGuardSlack | Sources/DeftLayout/MultiByteCoder.swift:110-115 | A signed 4-bit field accepts the word 8 and reads back `2^64 - 8`, that is -8. |
| CoderExamples.LittleEndianWord | Sources/DeftLayout/MultiByteCoder.swift:55-64 | The little-endian field from byte 1 bit 7 to byte 0 bit 0 unsigned, gets width 0 and an all-ones excess mask, so the setter accepts only 0. |
| CoderExamples.LittleEndianSignedWord | Sources/DeftLayout/MultiByteCoder.swift:107-115 | The same field, signed, also has width 0 and an all-ones mask. The setter accepts exactly 0 and the all-ones word, and stores that word as 0. |
| CoderExamples.LittleEndianOverflow | Sources/DeftLayout/MultiByteCoder.swift:55-64 | The 15-bit little-endian field gets width -1 and an empty excess mask, so the setter accepts `2^15`. |
| CoderExamples.LittleEndianOverflowRead | Sources/DeftLayout/MultiByteCoder.swift:87-106 | That field reads less than `2^15` from any buffer, so the accepted `2^15` never reads back. |
| LayoutExamples.UpdateInByte | Sources/DeftLayout/MultiByteCoder.swift:124-139 | Writing a field within a byte the buffer already has replaces that byte, with the value placed in it, and no other byte. |
| LayoutExamples.GrowInByte | Sources/DeftLayout/MultiByteCoder.swift:118-139 | Writing a field within a byte beyond the buffer pads with zeros up to that byte, which holds the value placed in a zero byte. |
| LayoutExamples.ByteRead | Sources/DeftLayout/CoderAdapter.swift:29-31 | An unsigned field within one byte, whose bits hold the integer of `x`, reads back `x`. |
| LayoutExamples.UnsignedFits | Sources/DeftLayout/CoderAdapter.swift:32-35 | An unsigned field within one byte accepts any value whose raw value fits its bits, and stores that raw value. |
| LayoutExamples.MinusThree | Tests/DeftLayoutTests/BitStorageSignedTests.swift:39-42 | A signed nibble accepts the `Int8` -3 and stores `0b1101`. |
| LayoutExamples.MinusOneWord | Sources/DeftLayout/CoderAdapter.swift:32-35 | On the signed little-endian 16-bit field, `Int16(-1)` reaches the setter as the all-ones word, the word `CoderExamples.LittleEndianSignedWord` shows that setter accepts and stores as 0. |
| LayoutExamples.InByteWrite | Sources/DeftLayout/ByteArrayDescription.swift:43-52 | An unsigned field of byte 1, initialised into a message of at most that byte, passes validation. The message becomes the single old byte (or 0) with the value placed in it. |
| LayoutExamples.BoolAndBit | Tests/DeftLayoutTests/BitStorageBoolTests.swift:13-22 | Flags at bits 7, 0 and 2 of byte 1, initialised `true`, `false` and `true`, share one layout's message, which is the single byte `0b1000_0100`. |
| LayoutExamples.BoolInit | Tests/DeftLayoutTests/BitStorageBoolTests.swift:32-40 | That layout's message has one byte, and the flags read back their initial values. |
| LayoutExamples.BoolWrite | Tests/DeftLayoutTests/BitStorageBoolTests.swift:42-51 | Clearing the top flag gives `0b0000_0100`, then setting the bottom one gives `0b0000_0101`. |
| LayoutExamples.BoolReadUnderlying | Tests/DeftLayoutTests/BitStorageBoolTests.swift:53-65 | Every flag reads `true` from `0xff` and `false` from `0x00`. |
| LayoutExamples.UnsignedRange | Tests/DeftLayoutTests/BitStorageUnsignedTests.swift:14-23 | The fields 7..4, 3..2 and 1..0 of byte 1, initialised `0b1010`, 0 and 3, give the single byte `0b1010_0011`. |
| LayoutExamples.UnsignedInit | Tests/DeftLayoutTests/BitStorageUnsignedTests.swift:34-41 | That message has one byte, `0b1010_0011`, and the fields read back 10, 0 and 3. |
| LayoutExamples.UnsignedWrite | Tests/DeftLayoutTests/BitStorageUnsignedTests.swift:43-59 | From a cleared byte, setting the fields to all ones from the lowest up and clearing them from the highest down gives `0x03`, `0x0F`, `0xFF`, `0x0F`, `0x03`, `0x00`. |
| LayoutExamples.UnsignedReadUnderlying | Tests/DeftLayoutTests/BitStorageUnsignedTests.swift:61-71 | The fields read 15, 3, 3 from `0xff` and 0, 0, 0 from `0x00`. |
| LayoutExamples.SignedRange | Tests/DeftLayoutTests/BitStorageSignedTests.swift:15-27 | The four signed `Int8` fields, initialised 0, give four zero bytes, with the coordinates of bytes 1 to 4. |
| LayoutExamples.SignRepresentationAndMask | Tests/DeftLayoutTests/BitStorageSignedTests.swift:38-67 | -3 is stored as `0b1101` in each nibble, with the surrounding bits kept: `0xD0`/`0xDF`, `0x34`/`0xF7` and `0x0D`/`0xFD`. |
| LayoutExamples.StoreAndLoad | Sources/DeftLayout/CoderAdapter.swift:28-35 | Any value a signed field's range holds is read back through the wrapper as written, whatever the message held. |
| LayoutExamples.SignExtension | Tests/DeftLayoutTests/BitStorageSignedTests.swift:69-78 | The six-bit signed field reads back -4, 29 and -29. |
| LayoutExamples.WordFlagRange | Sources/DeftLayout/WordDescription.swift:50-54 | Word bit 6 is bit 6 of byte 1, and word bit 15 is bit 7 of byte 0. |
| LayoutExamples.WordBit | Tests/DeftLayoutTests/WordDescriptionTests.swift:23-48 | Flags at word bits 6 and 15, both `true`, give exactly two bytes: `0b1000_0000`, then `0b0100_0000`. |
| LayoutExamples.InitBounds | Tests/DeftLayoutTests/BitStorageSubByteTests.swift:22-42 | Bit 8 of a byte, a negative bit, bits out of order and byte position 0 are each refused, with their errors. |
| LayoutExamples.StorageAliasing | Tests/DeftLayoutTests/BitStorageSubByteTests.swift:45-55 | Two layouts built one after the other have distinct messages, each holding its own flag. |

## Left out

- Reference counting, weak references and deallocation are runtime memory management with no counterpart here.
- The static slot is not thread-safe in the source. The model makes it an explicit `Builder` used by one caller at a time.
- Property-wrapper mechanics and Swift's initialisation order are written out as explicit calls. First each field is built against `builder.current`, then the layout rotates the slot.
- Foundation `Data` is a `seq` of bytes in `AssembledMessage.bytes`. `UInt` is a 64-bit word, and wrap-around is written out where the source relies on it.
- Traps are preconditions of the operation that would trap. These are the `try!` on the coder's initializer, the setter's two `assert`s, the index into `storage.bytes` in the getter, and the layouts' `assert`s.
- The assertion message at `MultiByteCoder.swift:115` is not modelled.
- The `ByteCoder` protocol (`ByteCoder.swift:16-26`) has one implementation, so the model calls `MultiByteCoder` directly and keeps only `BitfieldRangeError`. `CoderAdapter` calls the protocol's `extendingSignIfNeeded`, which `MultiByteCoder` implements as `extendingSign`. Both are the one function `Coding.ExtendingSign`.
- Adapting.DecodedValue: only the six built-in `BitEmbeddable` types are modelled, and their `init?(rawValue:)` never fails. User-defined conforming types, such as enums whose failable initializer can return nil for a bit pattern the device sends, are not modelled. Neither is the trap of the force-unwrap at `CoderAdapter.swift:30` (and `SMBusWord.swift:36`) that such a nil causes.
- SMBus.NewPosition: `SMBusWord.position`'s getter and setter (`SMBusWord.swift:34-45`) spell out the same conversion as `CoderAdapter`. Its fields therefore use `Adapting.Position`, and no separate operation exists for them.
- LayoutExamples.InitBounds: the tests' `SubByte`, `@position` on `BitStorageCore` and `.bytes` on a layout are not in the sources. Their expectations are checked against the `ByteArrayLayout` coordinates, with the same one-based byte positions.
- CoderExamples.ThreeByteSpan: the test expects 5 bytes after the write, while the code needs 6. The model follows the code.
- CoderExamples.AdjacentSpan: the test checks bytes 0 and 1, while the code writes bytes 1 and 2. The model follows the code.
- SignedRoundTrip: the signed round trip, and every signed lemma built on it, is stated only for fields whose width is their bit count (`WidthExact`). On little-endian multi-byte fields the source's width is wrong and its sign handling does nothing.
- UnsignedRead: for a signed read type, the field must be narrower than the raw type. A field as wide as the raw type reads negative values, which `SignedReadInRange` covers.
- The scenario methods of `LayoutExamples` and the lemmas of `CoderExamples` state the concrete messages and values of the tests. They do not generalise them.
- No overlap detection between fields is modelled, because the source does none.
- The `Int` FIXME at `BitEmbeddable.swift:36` worries about sign extension of narrower values. `Int(truncatingIfNeeded:)` on a 64-bit word does not do that, and `Embedding.IntFromRaw` states what it does.
