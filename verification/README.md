# Models of the binary readers and writers, the stream views, the memory tracker and the frame ciphers

This project models, in Dafny, the parts of the repository that move bytes and own memory, and proves what they promise.

- **Binary writers and readers** (`TypedValues`, `KindLayouts`, `WriterMachine`, `DeferredWrites`, `ReaderMachine`,
  `ReaderFacts`, `RoundTrips`, `CursorBrackets`, and the classes `BinaryMemoryWriter`, `BinaryStreamWriter`,
  `BinaryMemoryReader`).
  Each class method is proved to do exactly what one step of a small state machine does; the theorems are about runs of
  that machine. The byte order of the host is a constant of the object, so every statement holds for both.
- **Stream views** (`Streams`, `SubStreams`, `SectorStreams`). The base stream is a class with bytes and a position.
  A window is proved to behave as a stream of its own; sector writing at the end of a stream is proved never to
  damage what is there.
- **The span reader** (`BinarySpanReaders`, `ArrayHelper`), with its 32-bit arithmetic written out.
- **The tracking allocator** (`TrackerMachine`, `MemoryTrackers`, `TrackerHistory`, `TrackerReports`, `TrackerReleases`).
  The native heap hands out any unused address or fails; runs are arbitrary interleavings of malloc, free, realloc and the
  steps of `Start` and `Finish`. A block is told by the call that created it, and ends when it is reallocated or its address
  is handed out again.
- **Hexadecimal text** (`HexHelper`, `HexLayouts`; the alphabet is that of section 8 of RFC 4648) and **cipher frames**
  (`CwcFrames`), over any cipher whose decryption accepts exactly what its encryption produces.

Exceptions are results: a method returns `None`, or `false`, exactly when the source throws, and its contract says what
state it then leaves. Integer wrap-around is explicit (`FixedWidth`). Floating-point values are bit patterns. A float,
vector or integer is of one of the eighteen kinds of `TypedValues.Kind`.

## Where the code does less than it seems to promise

Each of these is proved as an exact condition, and reached by a lemma with a concrete input (named in parentheses).

- `FillInt128` looks for the key of an `Int64` reservation (`BinaryMemory/IO/BinaryMemoryWriter.cs:795-796`), so it cannot
  fill what `ReserveInt128` reserved, and filling an `Int64` reservation with it overwrites the eight bytes that follow
  (`Int128FillOverruns`). Deferred and direct writing agree exactly when no such fill takes part.
- `ReadSpan` computes its byte size in 32 bits (`BinaryMemory/IO/BinaryMemoryReader.cs:1743-1754`), and the vector array
  readers their number of components: a huge count may wrap around to a size that fits, and the read then succeeds
  (`BulkReadWraps`, `VectorReadWraps`, `VarArrayWraps`).
- `BinaryStreamWriter` swaps by the order of the host and then writes through `BinaryWriter`, which is little-endian
  everywhere: it stores the order asked for exactly on little-endian hosts, or when both encodings coincide
  (`StreamWriterStoresOtherOrder`).
- The `Position` setters of the memory reader and writer keep only the low 32 bits of the position (`PositionWraps`).
- `SubStream.Read(Span<byte>)` casts the bytes left to 32 bits (`SpanReadsNothing`); `Read(byte[], int, int)` cuts the count
  before the buffer is checked (`ReadHidesBadCount`); the constructor adds offset and length in 64 bits and takes
  negative lengths (`AcceptsTooMuch`), after which no position can be set (`WrappedEndRefusesMoves`); the 32-bit counter
  of its skip loop never reaches more than 2^31-1 chunks (`SkipLoopEnds`). A window on a window may in addition cut short a
  span read that one window would do (`NestedSpanReadsNothing`).
- `BinarySpanReader.AlignFrom` leaves the cursor alone when the given position is already aligned (`AlignFromStays`), and
  the scalar `Get<T>` checks only the end of its range (`GetBeforeSpan`).
- `MemoryTracker.realloc` removes the old block before the native call: if that call fails, the block is live and
  forgotten (`FailedReallocLoses`). `free` counts in 32 bits, so `2^31` frees of one block make the report wrong and leave
  the block unmarked (`TooManyFrees`). A block made before `Start` and freed while tracking is only counted, and never
  given back (`FreedOldBlockStays`). A free between clearing `_tracking` and `Flush` takes a faulty block away before it
  is reported (`CallInsideFinishHides`).
- `SectorStream.PadSector` away from the end of the stream overwrites the rest of the last sector with padding, unless the
  stream reaches past that sector (`PaddedExact`).
- `ToHexView` computes its loop bound in 32 bits: of all negative lengths, only -2^31 is refused (`SmallestLengthThrows`).

## Model

| member | source | states |
|---|---|---|
| ByteOrder.CanonicalRoundTrip | BinaryMemory/IO/BinaryMemoryWriter.cs:220-228 | Decoding the big- or little-endian encoding of any number of any width gives the number back |
| ByteOrder.SwapTwice | BinaryMemory/Helpers/ArrayHelper.cs:11-18 | Reversing the bytes of a value twice gives the value, for every width |
| ByteOrder.LittleOfSwap | BinaryMemory/IO/BinaryMemoryWriter.cs:220-228 | The little-endian bytes of the swapped value are the big-endian bytes of the value |
| ByteOrder.BigOfSwap | BinaryMemory/IO/BinaryMemoryWriter.cs:220-228 | The big-endian bytes of the swapped value are the little-endian bytes of the value |
| ByteOrder.StoreIsHostIndependent | BinaryMemory/IO/BinaryMemoryWriter.cs:220-241 | Conditional swap followed by a raw store in host order leaves the canonical encoding chosen by `BigEndian`, on either host |
| ByteOrder.LoadIsHostIndependent | BinaryMemory/IO/BinaryMemoryReader.cs:175-194 | A raw load in host order followed by the conditional swap is canonical decoding, on either host |
| ByteOrder.LittlePlace | BinaryMemory/IO/BinaryMemoryWriter.cs:220-228 | Byte `i` of a little-endian encoding is digit `i` of the value in base 256 |
| ByteOrder.BigPlace | BinaryMemory/IO/BinaryMemoryWriter.cs:220-228 | Byte `i` of a big-endian encoding is digit `w - 1 - i` |
| TypedValues.DecodeOfEncode | BinaryMemory/IO/BinaryMemoryReader.cs:296-409 | For all eighteen kinds, both orders: decoding the encoding of a value gives it back, and the encoding has the size of its kind |
| TypedValues.ChunksAreEncoding | BinaryMemory/IO/BinaryMemoryWriter.cs:243-343 | The pieces a writer hands to its sink are together the canonical encoding, the one-piece vector branch and the component branch alike |
| TypedValues.MemoryWriterIsHostIndependent | BinaryMemory/IO/BinaryMemoryWriter.cs:243-343 | The memory writer stores the order asked for on every host |
| TypedValues.StreamWriterOrderExact | BinaryMemory/IO/BinaryStreamWriter.cs:175-216 | The stream writer stores the order asked for if and only if the host is little-endian or both encodings coincide |
| TypedValues.StreamWriterStoresOtherOrder | BinaryMemory/IO/BinaryStreamWriter.cs:175-192 | A big-endian host asked for big-endian order stores 1 as the bytes 1, 0 |
| TypedValues.NarrowingExact | BinaryMemory/IO/BinaryMemoryWriter.cs:539-563 | Narrowing to a width and widening again gives a number in range, congruent modulo 2^(8w), and is the identity if and only if the number fits |
| KindLayouts.IntegerRanges | BinaryMemory/IO/BinaryMemoryWriter.cs:243-271 | The range of every integer kind, from -128..127 to 0..2^128-1 |
| KindLayouts.FloatRanges | BinaryMemory/IO/BinaryMemoryWriter.cs:273-280 | The bit patterns of halves, singles and doubles are below 2^16, 2^32 and 2^64 |
| KindLayouts.VectorRanges | BinaryMemory/IO/BinaryMemoryWriter.cs:288-343 | Vectors have 2, 3, 4 and 4 components, each a single |
| KindLayouts.EncodedSizes | BinaryMemory/IO/BinaryMemoryWriter.cs:690-730 | Scalars take 1, 1, 2, 2, 4, 4, 8, 8, 16, 16, 2, 4, 8 and 1 bytes |
| KindLayouts.VectorSizes | BinaryMemory/IO/BinaryMemoryWriter.cs:732-742 | Vectors take 8, 12, 16 and 16 bytes |
| KindLayouts.NumberBytes | BinaryMemory/IO/BinaryMemoryWriter.cs:243-280 | Every byte of a number in either order is a base-256 digit of it, a negative number standing as the number 2^(8w) above it |
| KindLayouts.VectorBytes | BinaryMemory/IO/BinaryMemoryWriter.cs:288-343 | A vector is its components as singles, X first |
| KindLayouts.BooleanBytes | BinaryMemory/IO/BinaryMemoryReader.cs:336-352 | A Boolean is the byte 1 or 0, and no other byte is read as one |
| KindLayouts.AllOnes | BinaryMemory/IO/BinaryMemoryReader.cs:296-333 | Bytes 0xFF read as -1 for the signed kinds of 1, 2, 4, 8 and 16 bytes, and as 2^8-1 to 2^128-1 for the unsigned ones |
| KindLayouts.WriteExact | BinaryMemory/IO/BinaryMemoryWriter.cs:230-343 | A write completes exactly when its bytes fit, then puts exactly these at the cursor, moves past them and changes nothing else; a scalar that does not fit changes nothing |
| KindLayouts.ReserveExact | BinaryMemory/IO/BinaryMemoryWriter.cs:672-742 | A reservation fills the room of its kind with 0xFE and files the cursor; a taken key is refused without effect; a short room is filled to its end |
| KindLayouts.FillExact | BinaryMemory/IO/BinaryMemoryWriter.cs:748-823 | A fill writes at the reserved place and brings the cursor back, or leaves it there when the write throws |
| KindLayouts.FillRefused | BinaryMemory/IO/BinaryMemoryWriter.cs:748-755 | A fill of a key that is not outstanding is refused without effect |
| KindLayouts.ReadExactly | BinaryMemory/IO/BinaryMemoryReader.cs:282-409 | A typed read returns a value if and only if its bytes stand at the cursor, and moves past exactly these |
| KindLayouts.VarWidths | BinaryMemory/IO/BinaryMemoryWriter.cs:539-563 | Exactly the widths 1, 2, 4 and 8 are accepted, with the bytes and range of that width |
| WriterMachine.KeyInjective | BinaryMemory/IO/BinaryMemoryWriter.cs:674-674 | The key `name:type` determines name and type, whatever the name contains |
| WriterMachine.EmitIsPut | BinaryMemory/IO/BinaryMemoryWriter.cs:230-241 | Emitting pieces completes if and only if all of them fit together, and then equals one write of the joined bytes |
| WriterMachine.EmitAppend | BinaryMemory/IO/BinaryMemoryWriter.cs:230-241 | Emitting a list of pieces in two parts is emitting it at once, failures included |
| WriterMachine.EmitStops | BinaryMemory/IO/BinaryMemoryWriter.cs:230-241 | Emission that throws has written the pieces before the first that does not fit, and nothing else |
| DeferredWrites.DeferredEqualsDirect | BinaryMemory/IO/BinaryMemoryWriter.cs:672-823 | Any run of writes, reservations and fills that completes leaves the bytes, cursor and table of writing each value where it was reserved, if and only if no `Int128` fill takes part |
| DeferredWrites.CompletesExactly | BinaryMemory/IO/BinaryMemoryWriter.cs:672-766 | Without `Int128` fills a run completes if and only if reservations are fresh, fills are of outstanding pairs, and all of it fits |
| DeferredWrites.RunObeys | BinaryMemory/IO/BinaryMemoryWriter.cs:672-766 | Every completed run obeyed that discipline, moved the cursor by exactly the room taken, and left the keys of the open pairs in the table |
| DeferredWrites.OutstandingExact | BinaryMemory/IO/BinaryMemoryWriter.cs:672-758 | After any completed run a key is in the table if and only if its (name, type) pair was reserved and not filled since |
| DeferredWrites.KeysAreNamed | BinaryMemory/IO/BinaryMemoryWriter.cs:672-758 | No key enters the table that is not the key of some pair |
| DeferredWrites.WritesAreEncodings | BinaryMemory/IO/BinaryMemoryWriter.cs:243-343 | A completed run of writes equals one write of the joined canonical encodings |
| DeferredWrites.FilledRunIsPlainWriting | BinaryMemory/IO/BinaryMemoryWriter.cs:672-823 | With nothing left outstanding, the region written holds the encodings in the order of their places and nothing else changed |
| DeferredWrites.RunLaysOut | BinaryMemory/IO/BinaryMemoryWriter.cs:672-766 | In the middle of a program too, the bytes are the values done so far and filler for each hole, and the table holds exactly the offsets of the holes |
| DeferredWrites.ReserveThenFill | BinaryMemory/IO/BinaryMemoryWriter.cs:714-796 | Reserving and at once filling a value completes if and only if its kind is not `Int128` |
| DeferredWrites.Int128FillOverruns | BinaryMemory/IO/BinaryMemoryWriter.cs:795-796 | A concrete family of runs in which an `Int128` fill of an `Int64` reservation overwrites the value written next |
| BinaryMemoryWriters.BinaryMemoryWriter.constructor | BinaryMemory/IO/BinaryMemoryWriter.cs:104-112 | A new writer stands at zero with nothing reserved and no saved position |
| BinaryMemoryWriters.BinaryMemoryWriter.SetPosition | BinaryMemory/IO/BinaryMemoryWriter.cs:43-52 | Succeeds exactly when the low 32 bits of the value are a position inside, and moves there; changes nothing else |
| BinaryMemoryWriters.BinaryMemoryWriter.StepIn | BinaryMemory/IO/BinaryMemoryWriter.cs:200-204 | Saves the cursor even when the target is refused |
| BinaryMemoryWriters.BinaryMemoryWriter.StepOut | BinaryMemory/IO/BinaryMemoryWriter.cs:206-214 | Restores the cursor saved last; throws exactly when none is saved |
| BinaryMemoryWriters.BinaryMemoryWriter.Write | BinaryMemory/IO/BinaryMemoryWriter.cs:230-241 | One raw write in place: throws without effect when it does not fit, else changes exactly its bytes and the cursor |
| BinaryMemoryWriters.BinaryMemoryWriter.WriteValue | BinaryMemory/IO/BinaryMemoryWriter.cs:243-343 | Every typed scalar writer is the machine's write of that value |
| BinaryMemoryWriters.BinaryMemoryWriter.WriteVector3 | BinaryMemory/IO/BinaryMemoryWriter.cs:301-313 | Both branches do what the machine does, partial writes before a failure included |
| BinaryMemoryWriters.BinaryMemoryWriter.WriteVector4 | BinaryMemory/IO/BinaryMemoryWriter.cs:315-343 | The same for vectors of four and quaternions |
| BinaryMemoryWriters.BinaryMemoryWriter.Pad | BinaryMemory/IO/BinaryMemoryWriter.cs:182-194 | The loop emits exactly the padding bytes |
| BinaryMemoryWriters.BinaryMemoryWriter.ReserveKind | BinaryMemory/IO/BinaryMemoryWriter.cs:672-742 | The reservation loop is the machine's reservation, duplicates and overruns included |
| BinaryMemoryWriters.BinaryMemoryWriter.TakeReservation | BinaryMemory/IO/BinaryMemoryWriter.cs:748-758 | Returns and removes the position of an outstanding key, else throws without effect |
| BinaryMemoryWriters.BinaryMemoryWriter.FillKind | BinaryMemory/IO/BinaryMemoryWriter.cs:760-823 | The fill is the machine's fill: cursor restored on success, left at the reservation when the write throws |
| BinaryMemoryWriters.BinaryMemoryWriter.WriteBytes | BinaryMemory/IO/BinaryMemoryWriter.cs:829-835 | The one-byte array writers write their bytes one by one |
| BinaryMemoryWriters.BinaryMemoryWriter.WriteArrayEndian | BinaryMemory/IO/BinaryMemoryWriter.cs:847-924 | The array loops emit the elements one by one, in both byte orders |
| BinaryMemoryWriters.BinaryMemoryWriter.WriteVarVal | BinaryMemory/IO/BinaryMemoryWriter.cs:539-563 | Writes the narrowed number of the chosen width; throws exactly for widths other than 1, 2, 4 and 8 |
| BinaryMemoryWriters.BinaryMemoryWriter.WriteVarVals | BinaryMemory/IO/BinaryMemoryWriter.cs:973-997 | Writes up to the first number that does not fit and throws there |
| BinaryStreamWriters.BinaryStreamWriter.WriteValue | BinaryMemory/IO/BinaryStreamWriter.cs:175-216 | Swap and little-endian write are the machine's write to a stream |
| BinaryStreamWriters.BinaryStreamWriter.Reserve | BinaryMemory/IO/BinaryStreamWriter.cs:409-455 | The reservation loop is the machine's reservation on a growing stream |
| BinaryStreamWriters.BinaryStreamWriter.Fill | BinaryMemory/IO/BinaryStreamWriter.cs:461-514 | The fill is the machine's fill |
| BinaryStreamWriters.BinaryStreamWriter.Dispose | BinaryMemory/IO/BinaryStreamWriter.cs:570-597 | Completes exactly when already disposed or no key is outstanding |
| BinaryStreamWriters.DisposeCompletesExactly | BinaryMemory/IO/BinaryStreamWriter.cs:409-587 | After any completed run on a new writer, the table is empty if and only if every reservation was filled after it was made |
| BinaryMemoryReaders.BinaryMemoryReader.SetPosition | BinaryMemory/IO/BinaryMemoryReader.cs:39-48 | Moves to the low 32 bits of the value if they lie inside, else throws without effect |
| BinaryMemoryReaders.BinaryMemoryReader.StepIn | BinaryMemory/IO/BinaryMemoryReader.cs:155-159 | Saves the cursor even when the target is refused |
| BinaryMemoryReaders.BinaryMemoryReader.StepOut | BinaryMemory/IO/BinaryMemoryReader.cs:161-169 | Restores the cursor saved last; throws exactly when none is saved |
| BinaryMemoryReaders.BinaryMemoryReader.ReadValue | BinaryMemory/IO/BinaryMemoryReader.cs:282-409 | Every typed scalar reader is the machine's read of that kind, a failed vector read leaving the cursor where it failed |
| BinaryMemoryReaders.BinaryMemoryReader.Get | BinaryMemory/IO/BinaryMemoryReader.cs:697-722 | A positioned read that brings the cursor back exactly when nothing threw |
| BinaryMemoryReaders.BinaryMemoryReader.Peek | BinaryMemory/IO/BinaryMemoryReader.cs:887-912 | A read whose move is undone exactly when nothing threw |
| BinaryMemoryReaders.BinaryMemoryReader.ReadSpan | BinaryMemory/IO/BinaryMemoryReader.cs:1743-1754 | The span read with its 32-bit byte size |
| BinaryMemoryReaders.BinaryMemoryReader.ReadArrayEndian | BinaryMemory/IO/BinaryMemoryReader.cs:1325-1417 | The reversing loop and the span path are the machine's array read |
| BinaryMemoryReaders.BinaryMemoryReader.ReadVectors | BinaryMemory/IO/BinaryMemoryReader.cs:1461-1539 | The component loop and the span path are the machine's vector array read |
| BinaryMemoryReaders.BinaryMemoryReader.ReadVarVal | BinaryMemory/IO/BinaryMemoryReader.cs:586-608 | Reads the integer of the chosen width and widens it; throws exactly for other widths or at the end |
| BinaryMemoryReaders.BinaryMemoryReader.ReadVarVals | BinaryMemory/IO/BinaryMemoryReader.cs:1541-1563 | The plural form, by width |
| BinaryMemoryReaders.BinaryMemoryReader.Read8BitTerminatedStringBytes | BinaryMemory/IO/BinaryMemoryReader.cs:208-218 | The loop returns the units before the first zero unit, taking single bytes |
| BinaryMemoryReaders.BinaryMemoryReader.Read16BitTerminatedStringBytes | BinaryMemory/IO/BinaryMemoryReader.cs:220-233 | The same for two-byte units |
| BinaryMemoryReaders.BinaryMemoryReader.Read32BitTerminatedStringBytes | BinaryMemory/IO/BinaryMemoryReader.cs:235-254 | The same for four-byte units |
| BinaryMemoryReaders.BinaryMemoryReader.ReadTerminatedStringBytes | BinaryMemory/IO/BinaryMemoryReader.cs:256-280 | The same with whole units of any size; zero gives an empty string, a negative size throws |
| ReaderFacts.ReadIsDecode | BinaryMemory/IO/BinaryMemoryReader.cs:282-409 | Every typed read on every host is canonical decoding of the bytes at the cursor, succeeds exactly when they lie inside and denote a value, and moves by their size |
| ReaderFacts.PositionedExact | BinaryMemory/IO/BinaryMemoryReader.cs:39-48 | The setter succeeds exactly when the low 32 bits are at most the length and goes there, to the value itself if and only if it is an unsigned 32-bit number; else nothing moves |
| ReaderFacts.PositionWraps | BinaryMemory/IO/BinaryMemoryReader.cs:39-48 | A position of 2^32 is taken for the beginning |
| ReaderFacts.GetExact | BinaryMemory/IO/BinaryMemoryReader.cs:697-722 | `Get` decodes the bytes at the target canonically, throws exactly when they do not lie inside (or are no Boolean), and then leaves cursor and stack alone |
| ReaderFacts.PeekExact | BinaryMemory/IO/BinaryMemoryReader.cs:887-912 | The same for `Peek` at the cursor |
| ReaderFacts.ReadThrows | BinaryMemory/IO/BinaryMemoryReader.cs:282-409 | Where a typed read that throws leaves the cursor: after a bad Boolean byte, after the last whole component of a swapped vector, else where it was |
| ReaderFacts.ManyBitsDecode | BinaryMemory/IO/BinaryMemoryReader.cs:1325-1338 | Repeated scalar reads succeed exactly when all the bytes lie inside and decode them in a row |
| ReaderFacts.ScalarsAreBits | BinaryMemory/IO/BinaryMemoryReader.cs:282-333 | Typed scalar reads of one kind, one-byte kinds included, return the values of its bits in a row and leave the same cursor, failures included |
| ReaderFacts.BulkReadExact | BinaryMemory/IO/BinaryMemoryReader.cs:1325-1417 | An array read returns what that many scalar reads return, with the same cursor, if and only if bytes are swapped or the byte size does not wrap to one that fits |
| ReaderFacts.BulkReadWraps | BinaryMemory/IO/BinaryMemoryReader.cs:1743-1754 | From an empty region a read of 2^30 integers succeeds where scalar reads throw |
| ReaderFacts.ByteReadExact | BinaryMemory/IO/BinaryMemoryReader.cs:1416-1423 | The one-byte array readers always agree with the scalar readers |
| ReaderFacts.SpanReadExact | BinaryMemory/IO/BinaryMemoryReader.cs:1743-1754 | A span read hands out the bytes it moves past exactly when they lie inside, the byte count being a 32-bit product |
| ReaderFacts.NegativeCount | BinaryMemory/IO/BinaryMemoryReader.cs:1325-1417 | A negative count throws without effect if and only if bytes are swapped or its byte size does not wrap to one that fits |
| ReaderFacts.VectorReadExact | BinaryMemory/IO/BinaryMemoryReader.cs:1461-1539 | A vector array read returns what that many vector reads return if and only if the 32-bit sizes do not wrap to ones that fit |
| ReaderFacts.VectorReadWraps | BinaryMemory/IO/BinaryMemoryReader.cs:1461-1539 | From an empty region huge vector arrays are read where vector reads throw, on both paths |
| ReaderFacts.NegativeVectors | BinaryMemory/IO/BinaryMemoryReader.cs:1461-1539 | The same for vector arrays, on both paths |
| ReaderFacts.TerminatedExact | BinaryMemory/IO/BinaryMemoryReader.cs:208-280 | Succeeds exactly when some aligned unit is zero; returns exactly the units before the first and stops just after it |
| ReaderFacts.TerminatedAt | BinaryMemory/IO/BinaryMemoryReader.cs:208-280 | In plain bytes: the bytes before the first unit of zeros are returned and the cursor stops just after it |
| ReaderFacts.TerminatedRunsOut | BinaryMemory/IO/BinaryMemoryReader.cs:208-280 | Without a zero unit, single-byte readers stop at the end and whole-unit readers before the last partial unit; units of no bytes give an empty string |
| ReaderFacts.TerminatedAgree | BinaryMemory/IO/BinaryMemoryReader.cs:208-280 | The fixed-unit readers and the general one succeed together, with the same bytes and cursor |
| ReaderFacts.ReadsPayload | BinaryMemory/IO/BinaryMemoryReader.cs:208-280 | A payload of nonzero units before a zero unit is read back whole |
| RoundTrips.WritesComplete | BinaryMemory/IO/BinaryMemoryWriter.cs:230-241 | A run of writes completes if and only if its values fit, whatever is reserved |
| RoundTrips.RoundTrip | BinaryMemory/IO/BinaryMemoryReader.cs:282-409 | Any list of typed values that fits, written and then read by its kinds with the same `BigEndian`, comes back with the same cursor, for any pair of hosts |
| RoundTrips.DeferredRoundTrip | BinaryMemory/IO/BinaryMemoryWriter.cs:672-823 | The same for programs with reservations: each place holds the value it was filled with |
| RoundTrips.ArrayWriteIsScalarWrites | BinaryMemory/IO/BinaryMemoryWriter.cs:829-971 | An array writer, one-byte kinds and Booleans included, leaves the state of scalar writes and throws at the same place |
| RoundTrips.VarValRoundTrip | BinaryMemory/IO/BinaryMemoryReader.cs:586-608 | A variable-width number written and read comes back reduced into the range of its width, unchanged if and only if it fits |
| RoundTrips.VarValsAreScalars | BinaryMemory/IO/BinaryMemoryWriter.cs:973-997 | The plural writer completes exactly when all numbers fit and the scalar writes complete, and then leaves the same state |
| RoundTrips.VarValsStop | BinaryMemory/IO/BinaryMemoryWriter.cs:973-997 | At the first number that does not fit, the plural writer throws having done what the scalar writes do for those before |
| RoundTrips.VarArrayIsScalars | BinaryMemory/IO/BinaryMemoryReader.cs:1541-1563 | For every width the plural reader returns what that many typed scalar reads return, except exactly when an eight-byte span in host order wraps to a size that fits |
| RoundTrips.VarArrayWraps | BinaryMemory/IO/BinaryMemoryReader.cs:1541-1563 | From an empty region a plural read of 2^29 eight-byte numbers succeeds where scalar reads throw |
| RoundTrips.NegativePlural | BinaryMemory/IO/BinaryMemoryReader.cs:1541-1563 | A plural read of a negative count throws without effect, except exactly when an eight-byte span in host order wraps to a size that fits |
| RoundTrips.TerminatedRoundTrip | BinaryMemory/IO/BinaryMemoryWriter.cs:577-578 | A terminated string whose encoded units are nonzero, once written, is read back with the cursor at its end |
| RoundTrips.PadReachesMultiple | BinaryMemory/IO/BinaryMemoryWriter.cs:182-194 | Padding writes fewer than `alignment` zeros and stops at a multiple; throws exactly when they do not fit |
| RoundTrips.NegativePad | BinaryMemory/IO/BinaryMemoryWriter.cs:182-194 | A negative alignment pads nothing |
| CursorBrackets.ReaderBracketRestores | BinaryMemory/IO/BinaryMemoryReader.cs:155-169 | In any run of the reader that does not throw, a `StepOut` brings back the whole state its matching `StepIn` found, whatever balanced calls lie between |
| CursorBrackets.WriterBracketRestores | BinaryMemory/IO/BinaryMemoryWriter.cs:200-214 | In any run of the writer that does not throw, a `StepOut` brings back cursor and saved positions its matching `StepIn` found |
| CursorBrackets.ReaderStepCount | BinaryMemory/IO/BinaryMemoryReader.cs:155-169 | In any run of the reader that does not throw, the number of saved positions grows by the unmatched steps |
| CursorBrackets.WriterStepCount | BinaryMemory/IO/BinaryMemoryWriter.cs:200-214 | The same for the writer |
| CursorBrackets.SavedPositions | BinaryMemory/IO/BinaryMemoryReader.cs:155-169 | Of a cursor with its stack: the number of saved positions is the number of unmatched steps, and positions saved before a balanced run stay |
| CursorBrackets.BracketRestores | BinaryMemory/IO/BinaryMemoryReader.cs:155-169 | Of a cursor with its stack: stepping out restores what the matching step in saved |
| CursorBrackets.ReaderFollows | BinaryMemory/IO/BinaryMemoryReader.cs:155-169 | Every run of the reader that does not throw is a run of its cursor, step for step, and changes nothing else |
| CursorBrackets.WriterFollows | BinaryMemory/IO/BinaryMemoryWriter.cs:200-214 | Every run of the writer that does not throw is a run of its cursor, step for step, and keeps the size of the region |
| Streams.Stream.Read | BinaryMemory/IO/SubStream.cs:106-114 | The base stream: copies what is available and moves past it |
| Streams.Stream.Write | BinaryMemory/IO/SubStream.cs:172-176 | The base stream: overwrites or extends at the position, zeros filling a gap |
| Streams.ReadAtExact | BinaryMemory/IO/SubStream.cs:106-114 | What a base stream hands out from any position |
| Streams.WrittenAtExact | BinaryMemory/IO/SubStream.cs:172-182 | What a base stream holds after a write at any position: the bytes there, zeros in a gap, the rest unchanged |
| SubStreams.WriteExact | BinaryMemory/IO/SubStream.cs:172-182 | A write into a window is carried out exactly when its range lies in the buffer and it ends inside; it puts that range at the position, moves past it and changes no other byte, else nothing |
| SubStreams.ReadExact | BinaryMemory/IO/SubStream.cs:106-114 | A read of a valid range returns what is left in the window, at most `count` bytes, and moves past them |
| SubStreams.ReadSpanExact | BinaryMemory/IO/SubStream.cs:116-129 | The same for spans where what is left fits 32 bits |
| SubStreams.MoveExact | BinaryMemory/IO/SubStream.cs:36-50 | Setting a position and seeking to it go there exactly when it lies in the window, and else change nothing |
| SubStreams.StepRefines | BinaryMemory/IO/SubStream.cs:36-182 | One call on a window stays inside and touches no byte outside; it answers what a stream of its own answers and changes its bytes and position alike, if and only if it is no span read that the cast cuts short |
| SubStreams.RunRefines | BinaryMemory/IO/SubStream.cs:36-182 | The same over every run of position sets, seeks, array reads, span reads and writes: equal answers, bytes and position if and only if no span read is cut short |
| SubStreams.ShortWindowFits | BinaryMemory/IO/SubStream.cs:116-129 | In a window of less than 2 GiB no span read of any run is cut short |
| SubStreams.NestedIsFlat | BinaryMemory/IO/SubStream.cs:36-182 | A call on a window on a window does what it does on one window at the summed offset, if and only if it is no span read that the inner window cuts short |
| SubStreams.NestedStaysInside | BinaryMemory/IO/SubStream.cs:36-182 | Both windows stay valid after every call |
| SubStreams.NestedRunIsFlat | BinaryMemory/IO/SubStream.cs:36-182 | Every run on a window on a window is the run on one window at the summed offset, if and only if the inner window cuts no span read short |
| SubStreams.NestedSpanReadsNothing | BinaryMemory/IO/SubStream.cs:116-129 | With 2^32 bytes left in the inner window and one in the outer, a span of one byte reads nothing, where the one window reads the byte |
| SubStreams.AcceptsExact | BinaryMemory/IO/SubStream.cs:60-80 | An accepted window lies inside the base stream exactly when the length is not negative and the end does not wrap |
| SubStreams.AcceptsWindows | BinaryMemory/IO/SubStream.cs:60-65 | A window of non-negative length whose end does not wrap is accepted if and only if it starts before the end of the base stream and ends in it |
| SubStreams.AcceptsTooMuch | BinaryMemory/IO/SubStream.cs:60-80 | A length whose end wraps around is accepted, and a negative one |
| SubStreams.WrappedEndRefusesMoves | BinaryMemory/IO/SubStream.cs:43-44 | An accepted window whose end lies before its start refuses every position set and seek |
| SubStreams.SkipLoopEnds | BinaryMemory/IO/SubStream.cs:77-90 | The skip loop of the constructor, with its 32-bit counter, ends if and only if the number of chunks is a 32-bit integer |
| SubStreams.ReadArgumentsExact | BinaryMemory/IO/SubStream.cs:106-114 | Argument errors are reported as by a stream of its own exactly when cutting the count first does not hide them |
| SubStreams.ReadHidesBadCount | BinaryMemory/IO/SubStream.cs:106-114 | At the end of any window a count too large for the buffer is not noticed |
| SubStreams.SpanReadExact | BinaryMemory/IO/SubStream.cs:116-129 | A span read leaves the state and gives the answer of an array read of its length, and the answer of a stream of its own, if and only if the cast of the bytes left is harmless |
| SubStreams.SpanReadsNothing | BinaryMemory/IO/SubStream.cs:116-129 | With 2^32 bytes left a span of one byte reads nothing |
| SubStreams.SubStream.Create | BinaryMemory/IO/SubStream.cs:60-97 | Which arguments are accepted, and where the base stream then stands, whether it can seek or must be skipped by reading |
| SubStreams.SubStream.SetPosition | BinaryMemory/IO/SubStream.cs:36-50 | The setter is the window's step |
| SubStreams.SubStream.SeekBegin | BinaryMemory/IO/SubStream.cs:131-148 | Seeking from the beginning is the window's step |
| SubStreams.SubStream.Read | BinaryMemory/IO/SubStream.cs:106-114 | Reading is the window's step, and the caller's array changes only where bytes were read |
| SubStreams.SubStream.ReadSpan | BinaryMemory/IO/SubStream.cs:116-129 | The same into a span |
| SubStreams.SubStream.Write | BinaryMemory/IO/SubStream.cs:172-182 | Writing is the window's step, refused past the end of the window |
| SubStreams.SubStream.SetLength | BinaryMemory/IO/SubStream.cs:161-170 | A growing length extends the base stream with zeros only as needed and keeps every byte |
| SectorStreams.BlockLayout | BinaryMemory/IO/SectorStream.cs:197-264 | Over any run from the end of a stream, rejected calls included, each block starts at a sector multiple strictly past the old end after a gap of padding, nothing earlier changes, and setting `Position` to its sector and reading recovers it |
| SectorStreams.RunAppends | BinaryMemory/IO/SectorStream.cs:197-264 | What any prefix of a run left is a prefix of what the run leaves |
| SectorStreams.BlockAppends | BinaryMemory/IO/SectorStream.cs:240-264 | One block appends exactly padding up to its start and then itself |
| SectorStreams.PaddedExact | BinaryMemory/IO/SectorStream.cs:240-264 | From any position, padding stops at the first sector multiple past it; a stream that reaches further keeps its bytes, else everything from the position on becomes padding |
| SectorStreams.AcceptedExact | BinaryMemory/IO/SectorStream.cs:197-212 | A call contributes exactly the range of the buffer it names, or nothing |
| SectorStreams.StartIsBoundary | BinaryMemory/IO/SectorStream.cs:43-47 | The start of a block is the position of a whole sector |
| SectorStreams.SectorStream.SetPosition | BinaryMemory/IO/SectorStream.cs:43-47 | Moves to the 64-bit product of sector and size, and throws exactly when it is negative |
| SectorStreams.SectorStream.PadSector | BinaryMemory/IO/SectorStream.cs:240-264 | The filled array is written at the position |
| SectorStreams.SectorStream.WriteAligned | BinaryMemory/IO/SectorStream.cs:197-212 | Pads, then writes; a rejected range is noticed after the padding and is a block without bytes |
| SectorStreams.SectorStream.WriteSectors | BinaryMemory/IO/SectorStream.cs:220-224 | The same for a 32-bit product of sectors |
| SectorStreams.SectorStream.Read | BinaryMemory/IO/SectorStream.cs:96-97 | An unaligned read of the base stream |
| ArrayHelper.GetEndianReversedCopy | BinaryMemory/Helpers/ArrayHelper.cs:11-102 | The loop swaps every element |
| ArrayHelper.ToEndianReversedArray | BinaryMemory/Helpers/ArrayHelper.cs:108-205 | The loop fills a new array with every element swapped |
| ArrayHelper.SwappedTwice | BinaryMemory/Helpers/ArrayHelper.cs:11-115 | A swapped copy of a swapped copy is the original |
| ArrayHelper.SwappedNumbers | BinaryMemory/Helpers/ArrayHelper.cs:11-115 | The swapped numbers of one host are the numbers of the other |
| BinarySpanReaders.StepSafe | BinaryMemory/IO/BinarySpanReader.cs:51-252 | For spans of at most 2^31-1-16 bytes the cursor stays inside after every call with any 32-bit arguments, throwing calls included |
| BinarySpanReaders.RunSafe | BinaryMemory/IO/BinarySpanReader.cs:51-252 | The same over every run |
| BinarySpanReaders.LengthLimitExact | BinaryMemory/IO/BinarySpanReader.cs:226-238 | Scalar reads of a size keep every cursor inside if and only if length plus size is a 32-bit integer |
| BinarySpanReaders.SetExact | BinaryMemory/IO/BinarySpanReader.cs:51-60 | The unsigned comparison accepts exactly the positions inside |
| BinarySpanReaders.MovesExact | BinaryMemory/IO/BinarySpanReader.cs:117-159 | `Skip`, `Rewind`, `Seek` and `Seek` from each origin go to the true sum when it lies inside and throw without effect otherwise, however the 32-bit sum wrapped |
| BinarySpanReaders.ReadsExact | BinaryMemory/IO/BinarySpanReader.cs:226-252 | Scalar, span and Boolean reads move past exactly the bytes they take when these lie inside, and else leave the cursor alone |
| BinarySpanReaders.RangeExact | BinaryMemory/IO/BinarySpanReader.cs:266-276 | A span access succeeds exactly when its range lies inside, the byte count being a 32-bit product |
| BinarySpanReaders.RewindUndoesSkip | BinaryMemory/IO/BinarySpanReader.cs:117-131 | A successful skip is undone by the rewind of the same count |
| BinarySpanReaders.AlignExact | BinaryMemory/IO/BinarySpanReader.cs:171-190 | `Align` reaches the first multiple at or after the cursor; throws exactly when it lies outside |
| BinarySpanReaders.AlignRefuses | BinaryMemory/IO/BinarySpanReader.cs:171-220 | Exactly which alignments and positions are refused, leaving the cursor alone |
| BinarySpanReaders.AlignFromExact | BinaryMemory/IO/BinarySpanReader.cs:197-220 | `AlignFrom` reaches the first multiple at or after the given position if and only if that was not aligned already, or was the cursor |
| BinarySpanReaders.AlignFromStays | BinaryMemory/IO/BinarySpanReader.cs:197-220 | Aligning to 4 from position 4 leaves a cursor at 1 |
| BinarySpanReaders.GetExact | BinaryMemory/IO/BinarySpanReader.cs:254-264 | A scalar `Get` that does not throw reads inside the span if and only if its position is not negative and its end is a 32-bit integer; one whose bytes lie inside never throws |
| BinarySpanReaders.GetBeforeSpan | BinaryMemory/IO/BinarySpanReader.cs:254-264 | A position just before the span is not refused |
| BinarySpanReaders.SpanIsScalars | BinaryMemory/IO/BinarySpanReader.cs:240-252 | On both hosts a span of numbers, swapped or not, is the canonical decoding, and what scalar reads return |
| BinarySpanReaders.BooleansExact | BinaryMemory/IO/BinarySpanReader.cs:1691-1709 | A Boolean array read throws exactly at the first byte that is neither 0 nor 1 |
| BinarySpanReaders.BinarySpanReader.SetPosition | BinaryMemory/IO/BinarySpanReader.cs:51-60 | The setter is the machine's step |
| BinarySpanReaders.BinarySpanReader.Seek | BinaryMemory/IO/BinarySpanReader.cs:134-159 | Seeking is the machine's step for each origin |
| BinarySpanReaders.BinarySpanReader.Align | BinaryMemory/IO/BinarySpanReader.cs:171-190 | Aligning is the machine's step |
| BinarySpanReaders.BinarySpanReader.AlignFrom | BinaryMemory/IO/BinarySpanReader.cs:197-220 | Aligning from a position is the machine's step |
| BinarySpanReaders.BinarySpanReader.Read | BinaryMemory/IO/BinarySpanReader.cs:226-238 | A raw read hands out the bytes passed over |
| BinarySpanReaders.BinarySpanReader.ReadSpan | BinaryMemory/IO/BinarySpanReader.cs:240-252 | A span read hands out exactly the bytes passed over |
| BinarySpanReaders.BinarySpanReader.Get | BinaryMemory/IO/BinarySpanReader.cs:254-264 | Refuses exactly what its one check refuses, and returns the bytes exactly when they lie inside |
| BinarySpanReaders.BinarySpanReader.GetSpan | BinaryMemory/IO/BinarySpanReader.cs:266-276 | The same at a position, moving nothing |
| BinarySpanReaders.BinarySpanReader.Peek | BinaryMemory/IO/BinarySpanReader.cs:278-288 | Succeeds exactly when the read would, with the same bytes |
| BinarySpanReaders.BinarySpanReader.ReadNumber | BinaryMemory/IO/BinarySpanReader.cs:516-524 | A number is the canonical decoding of the bytes passed over, on both hosts |
| BinarySpanReaders.BinarySpanReader.ReadNumberSpan | BinaryMemory/IO/BinarySpanReader.cs:526-534 | Numbers of the span passed over, swapped where needed |
| BinarySpanReaders.BinarySpanReader.ReadBooleans | BinaryMemory/IO/BinarySpanReader.cs:1691-1709 | The loop returns each byte compared with 1 and leaves the cursor at a bad byte |
| BinarySpanReaders.BinarySpanReader.GetBooleans | BinaryMemory/IO/BinarySpanReader.cs:1711-1726 | Succeeds exactly when the range lies inside and every byte is 0 or 1; moves nothing |
| MemoryTrackers.MemoryTracker.Start | OpenSslNet/Core/MemoryTracker.cs:110-120 | The loop marks every block to skip, in whatever order it meets them |
| MemoryTrackers.MemoryTracker.StopTracking | OpenSslNet/Core/MemoryTracker.cs:139-139 | Clears the flag and nothing else |
| MemoryTrackers.MemoryTracker.Malloc | OpenSslNet/Core/MemoryTracker.cs:190-205 | Files a new block under a fresh address; `_memory.Add` never collides |
| MemoryTrackers.MemoryTracker.Free | OpenSslNet/Core/MemoryTracker.cs:207-225 | Counts while tracking, else releases a live address and forgets the block; unknown addresses are ignored |
| MemoryTrackers.MemoryTracker.Realloc | OpenSslNet/Core/MemoryTracker.cs:227-246 | Moves a filed block to an unused address, allocates for an unknown one, and loses the block when the native call fails |
| MemoryTrackers.Block.Examine | OpenSslNet/Core/MemoryTracker.cs:150-178 | What is reported about a block, whether it is freed, and that only a leak is marked |
| MemoryTrackers.MemoryTracker.Classify | OpenSslNet/Core/MemoryTracker.cs:150-178 | The first loop of `Flush` visits every block once: the problems in that order, the blocks to free, the marks |
| MemoryTrackers.MemoryTracker.FreeBlocks | OpenSslNet/Core/MemoryTracker.cs:180-184 | The second loop releases exactly those, each once, while live |
| MemoryTrackers.MemoryTracker.Flush | OpenSslNet/Core/MemoryTracker.cs:144-188 | Both loops together are the machine's flush for some order of enumeration |
| TrackerHistory.ReachableInv | OpenSslNet/Core/MemoryTracker.cs:110-246 | In every reachable state, under every interleaving, each block is filed under its own live address, only held addresses are released and only unheld ones acquired |
| TrackerHistory.NoDoubleRelease | OpenSslNet/Core/MemoryTracker.cs:180-246 | Between two native releases of one address it was acquired again |
| TrackerHistory.LiveExact | OpenSslNet/Core/MemoryTracker.cs:190-246 | The live addresses are the keys plus those lost to failed reallocs; they are exactly the keys if and only if none was lost |
| TrackerHistory.FailedReallocLoses | OpenSslNet/Core/MemoryTracker.cs:227-246 | A realloc that fails leaves its block live and out of the dictionary |
| TrackerReports.ReportExactInside | OpenSslNet/Core/MemoryTracker.cs:110-225 | For every history of calls after `Start`, calls between clearing the flag and `Flush` included: the report is exactly the blocks created since, not reallocated, not freed exactly once, each with its true count, if and only if no count left 32 bits and none of these blocks was freed after the flag was cleared |
| TrackerReports.ReportIsExact | OpenSslNet/Core/MemoryTracker.cs:110-188 | Without calls inside `Finish` the report is exact if and only if no count left 32 bits |
| TrackerReports.ReportAfterRestart | OpenSslNet/Core/MemoryTracker.cs:110-188 | Where another thread calls `Start` inside `Finish`, the report on the calls since that `Start` is exact if and only if no count left 32 bits |
| TrackerReports.TooManyFrees | OpenSslNet/Core/MemoryTracker.cs:110-225 | A legal history of 2^31 frees of one block, after which the report is empty, `Flush` leaves the block unmarked, and every later `Flush` is silent; and the legal run with a `Start` inside `Finish` after which a later `Flush` may report |
| TrackerReports.CallInsideFinishHides | OpenSslNet/Core/MemoryTracker.cs:139-141 | A legal run in which a free between clearing the flag and `Flush` hides a multiple free |
| TrackerReleases.ReleasedExact | OpenSslNet/Core/MemoryTracker.cs:110-246 | Of the blocks created since `Start` and not reallocated, exactly those are live at the end of `Finish` that were not freed after the flag was cleared and whose 32-bit count is not positive |
| TrackerReleases.OldReleasedExact | OpenSslNet/Core/MemoryTracker.cs:110-246 | A block from before `Start`, not reallocated, is live at the end of `Finish` if and only if it was not freed after the flag was cleared |
| TrackerReleases.FreedOldBlockStays | OpenSslNet/Core/MemoryTracker.cs:112-118 | A legal run in which a block made before `Start` is freed while tracking and never given back |
| TrackerHistory.FlushConserves | OpenSslNet/Core/MemoryTracker.cs:144-188 | `Flush` frees and removes exactly the blocks not skipped with a positive count, each once, keeps all others, and marks all of them if and only if no count is negative |
| TrackerHistory.SecondFlushSilent | OpenSslNet/Core/MemoryTracker.cs:144-188 | Every later `Flush` without an allocation in between reports and changes nothing, if and only if tracking was off or no count was negative |
| HexHelper.CleanInput | AcOpenServer/Utilities/HexHelper.cs:83-95 | The loop keeps exactly the hexadecimal digits, in upper case |
| HexHelper.HexToBytes | AcOpenServer/Utilities/HexHelper.cs:8-24 | The loop parses the digits in pairs and throws exactly when their number is odd |
| HexHelper.ToHex | AcOpenServer/Utilities/HexHelper.cs:26-34 | The loop prints two digits per byte |
| HexHelper.ToHexView | AcOpenServer/Utilities/HexHelper.cs:36-58 | The loop, with its 32-bit bound, prints lines of pairs with separators, refusing what the source refuses |
| HexHelper.IsHex | AcOpenServer/Utilities/HexHelper.cs:60-81 | True exactly for an even number of characters that are all digits |
| HexHelper.ToHexRoundTrip | AcOpenServer/Utilities/HexHelper.cs:8-34 | Parsing what is printed gives the bytes back |
| HexHelper.ViewRoundTrip | AcOpenServer/Utilities/HexHelper.cs:36-58 | Parsing a view gives the first `n` bytes for every line width; a view is refused exactly when it asks for too many bytes, divides by zero, or has length -2^31 |
| HexHelper.SmallestLengthThrows | AcOpenServer/Utilities/HexHelper.cs:41-50 | At length -2^31 the loop bound wraps and the view is refused, where the next length gives an empty text |
| HexHelper.TextRoundTrip | AcOpenServer/Utilities/HexHelper.cs:8-34 | Text parses exactly when its number of digits is even, and printing the result gives those digits in upper case |
| HexHelper.ParsedPairs | AcOpenServer/Utilities/HexHelper.cs:8-24 | Byte `i` of a text of digits of either case is 16 times the value of digit `2 * i` plus that of the next |
| HexHelper.OtherCharactersDrop | AcOpenServer/Utilities/HexHelper.cs:83-95 | Any character that is no digit can be left out without changing the result |
| HexHelper.PrintedAt | AcOpenServer/Utilities/HexHelper.cs:26-34 | Byte `i` is printed at `2 * i` as two characters of "0123456789ABCDEF" |
| HexLayouts.ViewInOneLine | AcOpenServer/Utilities/HexHelper.cs:36-58 | Without a line width, pairs of characters with single spaces between them |
| HexLayouts.ViewInLines | AcOpenServer/Utilities/HexHelper.cs:36-58 | With a line width, where each byte, its space and its line break stand; the last byte follows no line break |
| CwcFrames.CWCCipher.Encrypt | AcOpenServer/Crypto/CWCCipher.cs:53-80 | Builds the frame of the message and leaves the encrypted text in the caller's array |
| CwcFrames.CWCCipher.Decrypt | AcOpenServer/Crypto/CWCCipher.cs:19-51 | Returns the message of a frame, else nothing, leaving the input alone |
| CwcFrames.CWCUdpServerCipher.Encrypt | AcOpenServer/Crypto/CWCUdpServerCipher.cs:51-77 | The same with the nonce copied as header |
| CwcFrames.CWCUdpServerCipher.Decrypt | AcOpenServer/Crypto/CWCUdpServerCipher.cs:19-49 | The same |
| CwcFrames.CWCUdpClientCipher.Decrypt | AcOpenServer/Crypto/CWCUdpClientCipher.cs:45-92 | Returns the message of a client frame, with header nonce, token and type |
| CwcFrames.UnframedExact | AcOpenServer/Crypto/CWCCipher.cs:19-80 | An input decrypts to a message if and only if the message is not empty and the input is its frame under some nonce |
| CwcFrames.PlainLayout | AcOpenServer/Crypto/CWCCipher.cs:19-80 | Nonce at 0, tag at 11, text at 27; the nonce is the header too |
| CwcFrames.FrameRoundTrip | AcOpenServer/Crypto/CWCCipher.cs:19-80 | Every frame decrypts to its message if and only if that is not empty |
| CwcFrames.Exchange | AcOpenServer/Crypto/CWCUdpServerCipher.cs:19-77 | Under one key either cipher decrypts what either encrypted, though the sender's array was overwritten |
| CwcFrames.ClientUnframedExact | AcOpenServer/Crypto/CWCUdpClientCipher.cs:45-92 | The client decrypts an input to a message if and only if it is a client frame of that nonempty message, for some token, nonce and type |
| CwcFrames.ClientRoundTrip | AcOpenServer/Crypto/CWCUdpClientCipher.cs:45-92 | Every client frame of a nonempty message decrypts to it |
| CwcFrames.ClientLayout | AcOpenServer/Crypto/CWCUdpClientCipher.cs:45-92 | Token at 0, nonce at 8, tag at 19, type at 35, text at 36, under the header nonce, token, type |

## Left out

- Native libraries, sockets, files, command lines, console output, finalizers and garbage collection: outside the code.
- The OpenSSL cleanup inside `Finish` before `_tracking` is cleared: its calls into malloc and free are part of the history.
- Stack traces of blocks, and the order in which a dictionary is enumerated: the order is an arbitrary one that visits each key once.
- A `Start` between clearing `_tracking` and `Flush`, with calls before it: the blocks made before it are skipped, and the
  report on the calls since is `ReportAfterRestart`; no theorem states one report against both parts of the history.
- The `lock` statements: each call is one step; only `Finish` is split, where the source releases control.
- Character encodings and conversions between number formats: strings are bytes, floats are bit patterns.
- `Char`, colours, enums by reflection, precise variable-width values, fixed strings: easy members, or ones that contradict their siblings.
- The generic `Reserve<T>` and `Fill<T>`: all types share the name "unmanaged", so a fill may differ in size from its reservation.
- Unchecked `Advance`, `Rewind` and `Align` of the memory reader and writer: they do not keep the cursor inside.
- BinaryMemoryWriters.BinaryMemoryWriter.constructor: regions of at most 2^31-1-16 bytes, so that the cursor plus one scalar cannot wrap.
- `BinaryStreamReader`, and the steps of `BinaryStreamWriter`: `StepIn` saves the target and not the origin.
- SubStreams.SubStream.Create: the counter of the skip loop is unbounded; where the source never ends, for a stream that
  cannot seek and more than 2^31-1 chunks of 4096 bytes, the contract describes the end it does not reach.
- BinaryStreamWriters.BinaryStreamWriter.WriteValue: the base stream grows; a stream of fixed size, on which writes and
  reservations may throw, is not part of this model.
- Base streams that return fewer bytes than they could, or are longer than 2^62 bytes.
- `SubStream.Seek` from the current position or the end, `SetOrigin` and shrinking `SetLength`: they do not keep the window.
- SubStreams.SubStream.SetLength: only for lengths that grow, for the reason above.
- `SectorStream.AlignSector`, aligned reads, and `Length`; a sector size that is not positive.
- The string regions of `BinarySpanReader`, with `StringHelper`, and the strings of `BinaryBufferReader`: their loops do not meet their contract.
- `CWCUdpClientCipher.Encrypt`: it copies eleven bytes out of an array of eight.
- The native CWC cipher: any cipher that opens exactly what it sealed; what a failed encryption leaves in the arrays is not specified.
- The drawing of nonces: any nonce of eleven bytes.
- `Logger` and everything above these layers.
