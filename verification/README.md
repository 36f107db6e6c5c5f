# Canonical Tier-0 messages, modelled and proved

This project models the wire codec for Tier-0 objects: seven kinds of object in unaligned fixed
layouts under two majors, the self-delimiting block of extensions that may follow one, the 8-bit
duration code inside them, the checker that keeps the extension registry consistent, and the
benchmark's reader of JSON events. `dafny verify dfyconfig.toml` checks everything.

## What is proved

**One message, one byte string.** Decoding undoes encoding and encoding undoes decoding, for every
object, every list of extensions, every callback and whatever bytes follow. `Message.RoundTrip` and
`Message.Canonical` meet in `Message.AcceptedExactly`: the accepted strings are exactly those that
begin with the bytes of a printable message whose critical items the caller accepts.
`Stream.StreamRoundTrip` and `Stream.StreamCanonical` carry this to buffers of many messages.

**Verdicts are final, and exactly when "truncated" is.** No verdict but "truncated" changes when bytes
arrive, and every proper prefix of a message is "truncated" (`Message.VerdictIsFinal`,
`Message.CutMessageIsTruncated`). "Truncated" does not always mean that more bytes help.
`Completion.TruncatedForGoodExactly` says when they do not, for every byte string and callback: no
bytes change the verdict if and only if a block is announced, the bytes in hand of it are accepted up
to an item, and that item cannot be finished inside the announced length. The condition,
`Completion.CutForGood`, is computed by the reader over the bytes in hand. It holds of complete blocks
that end in a cut item (`Completion.CutShortForGood`, `Completion.OverrunForGood`), of blocks that are
not complete (`Completion.OverrunBeforeTheEndForGood`), and of no message that is cut before its block
is announced. For the frame alone, with the block unread, some bytes always lead to another verdict
(`Completion.FrameMovesOn`), which need not be acceptance.

**Nothing critical gets past the caller.** The callback is a function of the critical items offered
before, so callbacks with state are covered. By `Message.EveryCriticalIsAsked` a frame whose block reads
to its end is decoded if and only if the callback says yes to every item with the critical bit set, each
offered with the ones before it, and is otherwise an unsupported semantic. On success the items it was
asked about are exactly the critical ones, in order; the reader handed over replays the list that was scanned; on
failure the caller's reader is unchanged (`ExtensionCodec.DecodeExtAccept`, `Message.ReaderReplays`).

**The encoder refines the layout table.** `LayoutTable` states the byte string of an object a second
time, from the tables of the layout checker alone, by placing each field at its offset.
`LayoutTable.EncoderFollowsTable` and `LayoutTable.TableDeterminesBytes` connect the two, and
`NamedFields.FieldsSitWhereNamed` says which member of the object each row holds, by name.

**The size calculator never drifts from the block encoder**, so the mismatch check behind them is
dead code and no message exceeds 275 bytes (`ExtensionBlock.SizeNeverDrifts`,
`ExtensionCodec.EncodeExtSucceeds`).

**Durations round down, exactly.** Encoding is the right adjoint of decoding (`Duration.Adjunction`),
which gives monotonicity, the round trip and the behaviour in the gaps; the loss is below one
seventeenth, and it is shown which durations lose the largest part.

**The registry checker decides its promise**: it reports nothing if and only if the ranges partition
the identifier space, zero is reserved, and every assignment is complete and has a number of its own in
a range that takes assignments (`Registry.CheckRegistry`).

**The event reader inverts compact JSON** (section 4 of RFC 8259) and stops exactly at the size that
was computed without printing (`Event.BenchmarkRoundTrip`, `EventReader.JsonSize`). What else it accepts
is a grammar: `EventGrammar.AcceptedExactly` says of every text whether it is accepted, up to where and
as which fields.

**All of it in plain numbers.** `Plain`, `PlainMessage` and `PlainEvent` say once more, with the literals
of the format and without the functions the other modules are built from, where each member of each
object sits, which header each major answers, which status each call gives and in which order, what the
length code and the items look like byte by byte, and which digits a number takes.

## How it is laid out

Each loop of the C code is a method with its loop, over arrays and over objects with mutable fields
(`BitWriter`, `BitReader`, `ExtensionReader`). Each is proved against a function of its input, and
the laws are lemmas about those functions. `Machine`, `Bits` and `Fields` hold the shared theory:
shifts, bit strings, packed fields. `Tier0`, `Tier0Laws`, `Tier0Codec` and `LayoutTable` are the fixed
bodies, with `NamedFields` for the names in the tables; `Uvarint`, `Tlv`, `Trailing`, `ExtensionBlock`,
`Frame`, `Message`, `Completion`, `ExtensionCodec` and `Stream` the extensions and whole messages;
`Duration` and `Registry` stand alone, and so do `Event`, `EventReader` and `EventGrammar`. `Plain`,
`PlainMessage` and `PlainEvent` hold the statements in plain numbers.

A message is always taken together with its major. The object itself has no major field
(`include/mcl/wire.h:206-219`), so one object can have two byte strings, one per major. Major-1
PRESENCE has no machine class, and comes back with that field zero; `Erased` and `Normal` say so.
`mcl_wire_tier0_encode_ext` emits major 0 only, while the decoder accepts extensions at both majors;
`Message.Bytes` is the specification of both, and `Message.OneEncoding` holds at either.

## Where the documents and the code disagree

The model follows the code.

- `spec/duration-v0.1.md:83-84` puts the worst rounding loss just below a band bottom. It is just above
  one: by `Duration.LossIsWorstAboveABandBottom` no duration of a band loses a larger part than the one
  before the second code of the band, by `Duration.LossIsWorstInTheLastBand` none at all than the one
  of the last band, and `Duration.LossIsSmallerBelowABandBottom` gives one thirty-second for the other
  place. The stated 5.88 per cent is right to its two decimals, and holds from one second up.
- `spec/tier0-extensions-v0.1.md:127` calls trailing bytes inside a block truncated. They are read as
  another item. By `Trailing.TruncatedExactly` they are truncated if and only if they begin an item in
  order and do not finish it; `Trailing.OutOfOrder`, `Trailing.OutOfRangeKey` and `Trailing.Accepted`
  give trailing bytes that are refused otherwise, or accepted.
- The number in an event is gathered in 64 bits, so what decides is its low 64 bits.
  `Event.IntegerVerdict` says what becomes of any digits, `Event.ReadsWhatIsWritten` when they are read
  as written, and `Event.MistakenExactly` when they are accepted as another number: exactly when they
  take more than 64 bits and the low 64 are in range for the sign. `Event.LongNumbersWrap` gives such
  numbers, for both signs and every multiple of two to the 64th.

## Model

| member | source | states |
|---|---|---|
| BitIO.BitWriter.WriteU | src/wire.c:29-58 | the three refusals in order, each leaving buffer and position alone; otherwise the value's bits ored in and the position moved by the width, at any position and any width up to 32 |
| BitIO.BitWriter.WriteS | src/wire.c:60-84 | passes exactly on the two's-complement range of widths 1 to 31, for every 32-bit value, and writes the two's-complement code |
| BitIO.OrFieldOrs | src/wire.c:44-55 | the writing loop ors in exactly the big-endian bits of the value; every other bit and every byte outside keeps its value |
| BitIO.WrittenFieldReads | src/wire.c:44-55 | a field reads back from where it was written if and only if no bit set there before is one the field leaves clear |
| BitIO.OringIntoOnesLosesTheValue | src/wire.c:44-55 | over any buffer, a field written across a set bit that it leaves clear reads back as another value: the zeroing in front is needed |
| BitIO.OrFirstWrites | src/wire.c:442-514 | over a zeroed buffer a list of fields leaves its printed form, zeros behind it, and every byte outside untouched |
| BitIO.OrFirstStaysInside | src/wire.c:459-514 | whatever the fields, and wherever the first refusal, no byte outside the fields is touched |
| BitIO.FirstFitIsAllFit | src/wire.c:388-393 | trying fields one by one passes exactly when all of them fit |
| BitIO.BitReader.ReadU | src/wire.c:86-109 | refuses exactly a width over 32 or past the end, in place; otherwise returns the number the bits spell |
| BitIO.BitReader.ReadS | src/wire.c:111-132 | the same for two's complement, widths 1 to 31 |
| BitIO.BitReader.RequireZeroPadding | src/wire.c:134-150 | passes if and only if every bit left is zero |
| Fields.DecodedOfCode | src/wire.c:76-83 | a value that fits comes back from its code |
| Fields.CodeOfDecoded | src/wire.c:125-129 | whatever the bits, what they decode to fits and codes back to them |
| Fields.ReadRowsOfPrint | tools/validate_tier0_layout.c:127-152 | rows that tile a printed stretch read exactly the printed fields, whatever stands before and after |
| Fields.PrintOfReadRows | tools/validate_tier0_layout.c:127-152 | the fields read through such rows print exactly the bits they were read from |
| Tier0.RowsTile | tools/validate_tier0_layout.c:69-135 | the tables leave no gap and no overlap behind the header, end inside the declared size, and leave fewer than eight padding bits |
| Tier0.EntriesMatchRows | src/wire.c:459-514 | the encoder's fields have, in order, the widths and codings of the tables |
| Tier0.TotalOfEntries | src/wire.c:329-386 | the widths the encoder writes add up to where the tables put the padding, so the size switch is right and the writer never runs out of room |
| Tier0Laws.BodyFollowsRows | src/wire.c:624-707 | decoding by absolute position sees exactly the fields the tables list |
| Tier0Laws.EntriesDetermineObject | src/wire.c:459-514 | equal fields mean equal objects, up to the machine class that major 1 drops |
| Tier0Laws.CodeRoundTrip | src/wire.c:258-327 | each kind comes back from its category and opcode |
| Tier0Laws.KindRoundTrip | src/wire.c:258-327 | each accepted category and opcode is the pair of its kind |
| Tier0Laws.DecodeHeaderOfEncode | src/wire.c:220-256 | a header survives its two bytes; which bits hold what is Plain.HeaderSits |
| Tier0Laws.EncodeHeaderOfDecode | src/wire.c:220-256 | any two bytes are the encoding of the header they decode to; which bits hold what is Plain.HeaderBits |
| Tier0Laws.DecodeOfEncode | src/wire.c:411-715 | at either major, for all seven kinds, the decoder returns the encoded object, its size and its extension bit, whatever follows |
| Tier0Laws.EncodeOfDecode | src/wire.c:556-715 | whatever the body decoder accepts is encodable, and encodes to exactly the bytes accepted |
| Tier0Codec.ZeroBytes | src/wire.c:20-27 | the first bytes become zero, the others stay |
| Tier0Codec.EncodeAtMajor | src/wire.c:411-521 | succeeds exactly when the major carries the kind, there is room, the priority is at most 3 and every field fits, with the status of the first failing check; then the buffer holds the object's one byte string. Whatever the outcome no byte behind the object or the capacity changes, and the two early refusals change none; the statuses and bytes in plain numbers are Plain.CarriedBodyIsAnswered, Plain.HeaderBytes and Plain.EncodedMembersSit |
| Tier0Codec.Encode | src/wire.c:395-409 | the same at the experimental major; on success the buffer begins with the bytes of the object and is as before behind them |
| Tier0Codec.Begin | src/wire.c:442-453 | header in place, zeros behind it, nothing beyond the object touched; its two bytes are those of Plain.HeaderBytes |
| Tier0Codec.WriteFields | src/wire.c:455-517 | writes source reference and body up to the first field refused; whether or not one is, no byte of the header or behind the object is touched |
| Tier0Codec.WriteBody | src/wire.c:461-517 | the switch: every kind's fields, in order, with nothing but a range refusal possible |
| Tier0Codec.WritePresence | src/wire.c:462-471 | the machine class is written at every major but the stable one |
| Tier0Codec.WriteHazard | src/wire.c:472-481 | the eight fields, three of them signed on 12, 12 and 10 bits |
| Tier0Codec.WriteRequest | src/wire.c:482-489 | the six fields, two of them signed on 12 bits |
| Tier0Codec.WriteAuthorityClaim | src/wire.c:490-495 | the four fields, 6, 12, 32 and 8 bits |
| Tier0Codec.WriteDegradedState | src/wire.c:496-501 | the four fields, 8, 7, 3 and 8 bits |
| Tier0Codec.WriteTransportOffer | src/wire.c:502-508 | the five fields, up to the largest body |
| Tier0Codec.WriteTransportAccept | src/wire.c:509-514 | the four fields |
| Tier0Codec.WrittenIsEncoded | src/wire.c:442-520 | what the writer leaves is header, fields and zero padding, packed |
| Tier0Codec.TakeU | src/wire.c:624-707 | inside the declared size the reader's own refusal cannot happen |
| Tier0Codec.TakeByte | src/wire.c:629-630 | narrowing a field of at most eight bits to a byte loses nothing |
| Tier0Codec.TakeS | src/wire.c:111-132 | a signed field of at most 16 bits is read without refusal |
| Tier0Codec.ReadBody | src/wire.c:626-710 | the body at the tables' positions, the reader left where the padding begins |
| Tier0Codec.ReadObject | src/wire.c:616-710 | source reference and body at the tables' positions, under the header's priority |
| Tier0Codec.DecodeKnownOf | src/wire.c:608-714 | size, fields and padding of a known kind, each refusal in order; in plain numbers these are Plain.CarriedKindIsAnswered |
| Tier0Codec.DecodeBodyOf | src/wire.c:556-715 | the fixed-body decoder, for every byte string; its answer to each header is in Plain.CarriedKindIsAnswered and Plain.OtherHeadersAreRefused |
| Tier0Codec.Decode | src/wire.c:717-749 | an object that announces extensions is refused whatever its body |
| LayoutTable.TableAgrees | tools/validate_tier0_layout.c:127-135 | the codec's codes, sizes and paddings are those the table lists for each kind |
| LayoutTable.ReadBits | tools/validate_tier0_layout.c:140-152 | the number the bits spell, most significant first |
| LayoutTable.WriteBits | tools/validate_tier0_layout.c:154-167 | exactly the given bits replaced, whatever they were, and no others |
| LayoutTable.PlaceRowsPrints | tools/validate_tier0_layout.c:154-167 | fields placed one by one through a tiling fill it with their printed form |
| LayoutTable.EncoderFollowsTable | tools/validate_tier0_layout.c:69-167 | an encoded object is its header with every field's code placed at its row over zeros; which member a row holds is NamedFields.FieldsSitWhereNamed |
| LayoutTable.TableDeterminesBytes | tools/validate_tier0_layout.c:69-167 | a string of the right size is the encoding if and only if its header, what its rows read and its padding are the object's |
| LayoutTable.PaddingBitIsRefused | src/wire.c:134-150 | set any padding bit of any encoding and the decoder answers non-canonical |
| NamedFields.TableIsRows | tools/validate_tier0_layout.c:69-122 | the named rows are the rows of the codec, behind the source reference |
| NamedFields.EntryIsNamed | tools/validate_tier0_layout.c:263-321 | the fields the encoder writes are, in the order of the table, the members that the names of its rows select |
| NamedFields.TableNamesEachMember | tools/validate_tier0_layout.c:69-122 | a kind's table names exactly the members of the object, but for the machine class that the stable major drops |
| NamedFields.NamesDiffer | tools/validate_tier0_layout.c:69-122 | no name stands twice in a table |
| NamedFields.FieldsSitWhereNamed | tools/validate_tier0_layout.c:341-486 | in the bytes of every encodable object each row holds the member it is named for, and the source reference sits in front |
| NamedFields.DecodedFieldsAreNamed | src/wire.c:624-707 | whatever the decoder accepts has under every name what the row of that name held |
| Plain.ByteIsItsBits | src/wire.c:97-105 | the bits of a buffer are those of its bytes, 128 first |
| Plain.FieldsJoin | src/wire.c:97-105 | two unsigned fields side by side are one number, the first the more significant part |
| Plain.OneBitField | src/wire.c:97-105 | a field of one bit is that bit |
| Plain.SignedField | src/wire.c:111-132 | a signed field is its unsigned reading, less two to the width from the upper half on |
| Plain.HeaderBits | src/wire.c:242-256 | the first 4, 4, 5, 2 and 1 bits of any two bytes are those bytes over 16, modulo 16, over 8, over 2 modulo 4, and modulo 2 |
| Plain.HeaderBytes | src/wire.c:220-297 | the two header bytes of every encodable object, category and opcode as literals per kind |
| Plain.HeaderSits | src/wire.c:235-238 | in every encodable object bits 0 to 3 are the major, 4 to 7 the category of its kind, 8 to 12 the opcode, 13 and 14 the priority, and 15 the extension bit |
| Plain.DecodedHeaderSits | src/wire.c:250-254 | every accepted string has its major, kind, priority and extension flag in those places |
| Plain.EncodedMembersSit | src/wire.c:455-514 | every member of every encodable object sits at its literal bit position, width and sign |
| Plain.DecodedMembersSit | src/wire.c:616-710 | and every accepted object was read from there |
| Plain.MajorsCarry | src/wire.c:529-554 | an object is not an unsupported semantic if and only if the major is 0 and the body assigned, or the major is 1 and the body a PRESENCE, a TRANSPORT_OFFER or a TRANSPORT_ACCEPT |
| Plain.CarriedBodyIsAnswered | src/wire.c:425-520 | of a body the major carries: too small below its literal size, out of range if and only if a narrow field is over its literal limit, encoded otherwise |
| Plain.CarriedKindIsAnswered | src/wire.c:571-714 | of each of the ten headers a major carries: truncated below the literal size, non-canonical if and only if the low bits of the last byte are not zero, accepted with that size otherwise |
| Plain.OtherHeadersAreRefused | src/wire.c:571-612 | every other header is an unsupported semantic, whatever follows |
| Plain.StableMajorRefuses | src/wire.c:541-549 | a HAZARD, REQUEST, AUTHORITY_CLAIM or DEGRADED_STATE header at major 1 is an unsupported semantic |
| Plain.StableMajorCarriesThree | src/wire.c:537-549 | an object decoded at major 1 is a PRESENCE with machine class 0, a TRANSPORT_OFFER or a TRANSPORT_ACCEPT |
| Uvarint.ComputeSize | src/extension.c:11-19 | the number of bytes the minimal encoding takes |
| Uvarint.Encode | src/extension.c:21-56 | succeeds exactly when the minimal encoding fits, writes it and nothing else, and leaves the buffer alone when it does not |
| Uvarint.Gather | src/extension.c:35-39 | the groups of seven bits, least significant first |
| Uvarint.Send | src/extension.c:45-52 | the groups in sending order with continuation marks on all but the last |
| Uvarint.DecodeValue | src/extension.c:58-96 | the decoding loop, for every byte string |
| Uvarint.DecodeIsClassified | src/extension.c:70-95 | says of the bytes themselves which are accepted and which status each refused string gets; out of range is exactly a value above 32 bits or a fifth continuation |
| Uvarint.DecodeOfEncoding | src/extension.c:21-96 | every 32-bit value decodes from its encoding, five-byte forms included, whatever follows |
| Uvarint.EncodingOfDecode | src/extension.c:58-96 | what is accepted is the minimal encoding of its value |
| Uvarint.VerdictIsFinal | src/extension.c:74-95 | a verdict other than truncated stays when bytes are appended |
| Uvarint.PrefixFree | src/extension.c:21-96 | no encoding is a proper prefix of another and no two values share one |
| Uvarint.SizeBounds | src/extension.c:27-39 | five bytes are enough for the encoder's scratch buffer |
| Uvarint.TruncatedExactly | src/extension.c:92-95 | truncated are exactly the strings of fewer than five bytes that all continue |
| PlainMessage.LengthBytes | src/extension.c:21-56 | the one to five bytes of every 32-bit value, group by group |
| PlainMessage.LengthIsAnswered | src/extension.c:58-96 | what every byte string is answered, read off its first five bytes: value and size, non-canonical for a leading 128, out of range past 32 bits or a fifth continuation, or truncated |
| Tlv.WalkOfBlock | src/extension.c:391-448 | the reader over a printed list of any length yields exactly that list and then ends |
| Tlv.BlockOfWalk | src/extension.c:391-448 | whatever the bytes, the items read are well formed and print to the bytes they came from; a clean end means all of them |
| Tlv.NextOfItem | src/extension.c:412-447 | one call on one printed item, whatever follows it |
| Tlv.NextAdvances | src/extension.c:391-448 | every call, refused ones included, keeps the offset inside; each item read moves it by at least two, has a larger id than the last and a value inside the block |
| Tlv.WalkPast | src/extension.c:391-448 | a printed list is read as itself whatever bytes follow it, and reading goes on behind it |
| PlainMessage.ItemBytes | src/extension.c:129-154 | an item can be sent if and only if its id is 1 to 2147483647, its bit at most 1 and its value at most 4294967295 bytes, and is then key, length and value |
| PlainMessage.ZeroIdIsRefused | src/extension.c:412-421 | a key with identifier zero is non-canonical wherever it stands, and has been moved past |
| PlainMessage.RefusedCallMoves | src/extension.c:412-436 | how far a refused call has moved: not at all past a cut key, past the key of an item out of order or with a refused length, past key and length of a cut value |
| Trailing.WalkOfTrailing | src/extension.c:391-448 | bytes behind the last item of a block are read as further items, which may end the walk in any way |
| Trailing.TruncatedExactly | spec/tier0-extensions-v0.1.md:127-127 | trailing bytes end the walk as truncated, with the items before them, if and only if their key is cut, or key and order are right and their length is cut or larger than what is left |
| Trailing.ValueOverrun | src/extension.c:434-436 | a value announced longer than what is left of the block ends the walk as truncated |
| Trailing.OutOfOrder | src/extension.c:419-425 | a trailing item whose id is not larger ends the walk as non-canonical |
| Trailing.OutOfRangeKey | src/extension.c:412-416 | five trailing bytes that all continue end the walk as out of range |
| Trailing.Accepted | src/extension.c:438-447 | a trailing item in order is accepted as one more item |
| ExtensionBlock.ExtensionReader.NextItem | src/extension.c:391-448 | the call updates offset, previous id and its flag as specified, also when it refuses after moving, from any field values at all |
| ExtensionBlock.ExtensionReader.Init | src/extension.c:375-389 | back to the start of the given bytes |
| ExtensionBlock.CheckItem | src/extension.c:119-127 | out of range if and only if the id is 0 or over 2147483647, the bit over 1 or the value over 4294967295 bytes; otherwise non-canonical if and only if the id is not above the one before |
| ExtensionBlock.AddItem | src/extension.c:194-210 | each bound checked before its addition gives the same verdict as bounding the sum |
| ExtensionBlock.ComputeBlockSize | src/extension.c:162-217 | succeeds exactly on well-formed lists of at most 256 bytes, with their printed length; otherwise with the status of the first item at fault, as in FirstFaultDecides |
| ExtensionBlock.EncodeBlock | src/extension.c:98-160 | succeeds exactly on well-formed lists that fit, and writes their printed form; otherwise with the status of the first item at fault. Whatever the outcome no byte outside start and capacity changes |
| ExtensionBlock.EncodeItem | src/extension.c:129-154 | one item in place, if key, length and value all fit; no byte outside start and capacity changes, also when they do not |
| ExtensionBlock.CopyValue | src/extension.c:151-153 | the value's bytes and no others |
| ExtensionBlock.VerdictMeans | src/extension.c:113-156 | no fault in any item, adjacent ids compared, means all ids increase and the whole list fits, and conversely |
| ExtensionBlock.FirstFaultDecides | src/extension.c:113-156 | a list fails with a status if and only if some item is the first at fault with it: what precedes is a block within the limit, and the item is out of its literal ranges, or in them with an id not above the one before, or in order and too much; a list with no such item is well formed and fits |
| ExtensionBlock.SizeNeverDrifts | src/extension.c:180-213 | a list the calculator passes is well formed, its sum is the length of the printed list, and the encoder passes it at every capacity from that length up; a list the encoder passes is printed whole, and passes the calculator if it takes at most 256 bytes |
| ExtensionBlock.RunAdvances | src/extension.c:391-448 | over any sequence of calls each one keeps the reader's invariant |
| ExtensionBlock.RunIsOrdered | src/extension.c:391-448 | over any sequence of calls the ids handed out strictly increase within 1 to 2147483647 and the values lie one behind the other inside the block |
| ExtensionBlock.ItemsNeedRoom | src/extension.c:98-160 | n items need at least 2n bytes and one more for each beyond the sixty-third |
| ExtensionBlock.BlockHoldsAtMost106 | include/mcl/extension.h:113-113 | the largest block holds at most 106 items |
| ExtensionBlock.LeastSizeIsReached | src/extension.c:98-160 | the bound on n items is met |
| Frame.FrameRoundTrip | src/extension.c:304-333 | header, body, length and block come back whole from their bytes, whatever follows |
| Frame.FrameCanonical | src/extension.c:304-333 | what was consumed is the one byte string of the frame; the empty block and the over-long length are refused |
| Frame.FrameVerdictIsFinal | src/extension.c:304-333 | once complete, or refused for good, appended bytes change nothing |
| Frame.CutFrameIsTruncated | src/extension.c:304-333 | cut anywhere, a frame is truncated and nothing else |
| Message.AllAcceptedMeans | src/extension.c:349-366 | asking item by item is every critical item accepted with the critical items before it as history |
| Message.EveryCriticalIsAsked | src/extension.c:335-372 | of every frame: with the items whose critical bit is 1 picked out in order, one that the callback refuses, given those before it, makes the answer an unsupported semantic; otherwise the ending of the block decides; without a callback any such item refuses |
| Message.ScanIsWalkThenAsk | src/extension.c:341-367 | a refused critical item rejects the block even when a later item is malformed; without one the malformed rest does |
| Message.ReaderReplays | src/extension.c:369-370 | the reader handed over yields exactly the message's items and then ends |
| Message.RoundTrip | src/extension.c:219-373 | a printable message decodes, whatever follows, to itself in normal form with exactly its own bytes consumed if the caller accepts its critical items, and is refused otherwise |
| Message.Canonical | src/extension.c:287-373 | an accepted string begins with the one byte string of the message it was accepted as, and every critical item was accepted |
| Message.AcceptedExactly | include/mcl/extension.h:223-229 | accepted as a message if and only if the message is printable and normal, its bytes come first and its critical items are accepted |
| Message.OneEncoding | src/extension.c:287-373 | under one major, equal object and equal items mean equal bytes, whoever accepted them |
| Message.VerdictIsFinal | src/extension.c:304-372 | any verdict but truncated, and truncated inside a complete block, is unchanged by appended bytes, with object, items and size |
| Message.CutMessageIsTruncated | src/extension.c:304-333 | every proper prefix of every message is truncated |
| Message.PrefixFree | spec/tier0-layout-v0.2.md:89-94 | no message is a proper prefix of another |
| PlainMessage.MessageBytes | src/extension.c:232-271 | which messages have bytes, and which: the object alone, or the announcing object, the length of the block and the block |
| PlainMessage.EnvelopeIsAnswered | src/extension.c:320-372 | for every announcing object and every length behind it: non-canonical for 0, out of range over 256, truncated with less than that left, and otherwise what the validating scan of that many bytes answers |
| Completion.TruncatedForGoodExactly | src/extension.c:320-367 | for every byte string and callback: the verdict is truncated whatever follows if and only if a block is announced and what is in hand of it is cut for good |
| Completion.NothingHelps | src/extension.c:331-367 | a message cut for good is truncated whatever follows, inside the block or behind it |
| Completion.SomethingHelps | src/extension.c:307-367 | every other byte string gets another verdict from some bytes, which are named |
| Completion.CutForGoodIsTruncated | src/extension.c:343-367 | the items in hand accepted and the last one cut for good: every way of filling the block up scans as truncated |
| Completion.OthersSettle | src/extension.c:343-367 | a block not cut for good scans as something else once it is filled up with zeros, or with ones |
| Completion.CutItemStaysCut | src/extension.c:412-436 | an item that cannot be finished inside the block is refused as truncated whatever bytes fill the block up |
| Completion.NextIsFinal | src/extension.c:391-448 | a call that read an item, or refused for another reason, does the same when more bytes are in hand |
| Completion.FrameMovesOn | src/extension.c:304-333 | for every truncated frame some bytes make the frame decoder answer something else |
| Completion.CutShortForGood | src/extension.c:331-346 | a complete block whose accepted items are followed by a cut one is truncated for good, whatever follows the message |
| Completion.OverrunForGood | src/extension.c:434-436 | so is every message with a value announced longer than what is left of its block |
| Completion.OverrunBeforeTheEndForGood | src/extension.c:434-436 | and so is a message whose block is not complete, once a length in hand is larger than the announced block has room for |
| ExtensionCodec.EncodeExt | src/extension.c:219-272 | succeeds exactly when the object is encodable at major 0, the list is well formed, at most 256 bytes, and everything fits; then writes the message's one byte string. Whatever the outcome no byte behind the capacity changes, and a list refused by the size calculator changes none; the order of refusals is PlainMessage.EncodeExtIsAnswered; on success the buffer begins with those bytes and is as before behind them |
| ExtensionCodec.AppendBlock | src/extension.c:253-264 | length and block behind the object; the mismatch branch cannot be reached, and no byte outside start and capacity changes |
| ExtensionCodec.EncodeExtSucceeds | include/mcl/extension.h:113-119 | the verdict is printability and room, and a message never exceeds 275 bytes |
| PlainMessage.EncodeExtIsAnswered | src/extension.c:232-271 | the order of refusals: the first item at fault, then what the object is refused for, then the room for object, length and block |
| ExtensionCodec.OnlyRoomIsMissing | src/extension.c:256-259 | after the size calculation the block encoder can only run out of room |
| ExtensionCodec.AnnouncedBytes | src/extension.c:266-268 | setting the lowest bit of the second byte gives the encoding that announces extensions |
| ExtensionCodec.ScanBlock | src/extension.c:341-367 | the validating pass, with the exact trace of what the callback was asked: it has said yes to each of them given those before, only to the last of a refused block possibly not; without one nothing is asked |
| ExtensionCodec.DecodeExtAccept | src/extension.c:287-373 | the whole decoder for every byte string and callback: same answer as the specification, the trace on success exactly the critical items, the caller's reader untouched on failure and at the start of the block on success; on success the callback has said yes to every item of the trace given those before it, on failure to all but perhaps the last |
| ExtensionCodec.DecodeEnvelopeOf | src/extension.c:320-333 | length and bounds of the block, each refusal in order |
| ExtensionCodec.DecodeFrameOf | src/extension.c:307-333 | the decoder up to the whole block in hand |
| ExtensionCodec.DecodeExtOf | src/extension.c:274-285 | without a callback nothing critical is accepted |
| ExtensionCodec.EncodeThenDecode | src/extension.c:219-373 | whatever the encoder wrote, decoder and reader give back whole |
| ExtensionCodec.DecodeThenEncode | src/extension.c:219-373 | whatever was accepted at major 0, the encoder writes again byte for byte |
| Stream.ConsumesSomething | src/extension.c:371-371 | every accepted message takes more than its header, so stepping through a buffer ends |
| Stream.StreamRoundTrip | spec/tier0-layout-v0.2.md:89-94 | any list of messages, kinds, majors and extensions mixed, is recovered exactly from its concatenation |
| Stream.StreamGoesOn | src/extension.c:287-373 | messages in front of any bytes decode to themselves, what is behind them is decoded on its own by the callbacks that are left, and refuses the whole with its own status if it is refused |
| Stream.StreamsJoin | spec/tier0-layout-v0.2.md:89-94 | streams joined are the stream of their messages in order |
| Stream.StreamCanonical | spec/tier0-layout-v0.2.md:89-94 | a buffer decoded to its end is exactly the bytes of the messages decoded |
| Duration.EncodeDuration | src/wire.c:166-218 | the band search returns the largest code that names at most the duration, refuses only what is over the maximum, and always returns inside the loop |
| Duration.SecondsStep | src/wire.c:154-164 | the distance from each code to the next, within a band and across a gap alike |
| Duration.BandsDouble | src/wire.c:154-164 | codes up to 31 name themselves, sixteen codes on the duration doubles, and the last code names 507904 seconds |
| Duration.SecondsStrictlyIncrease | src/wire.c:162-163 | larger codes name longer durations, so no duration has two codes |
| Duration.Adjunction | src/wire.c:154-218 | a code names at most a duration if and only if it is at most the duration's code |
| Duration.RoundTrip | src/wire.c:154-218 | a nameable duration encodes to its own code |
| Duration.EncodingAgainChangesNothing | src/wire.c:154-218 | encoding what was decoded gives the same code |
| Duration.EncodingIsMonotone | src/wire.c:166-218 | longer durations never get smaller codes |
| Duration.InBand | src/wire.c:209-212 | the shift finds the code inside a band |
| Duration.InGap | src/wire.c:203-207 | in a gap the code is the last of the band below |
| Duration.LossIsBounded | include/mcl/wire.h:241-244 | rounding loses less than one seventeenth, from one second to the maximum |
| Duration.LossIsWorstAboveABandBottom | spec/duration-v0.1.md:83-84 | the bound is met up to 16 seconds just above each band bottom, and no duration of the band loses a larger part than that one |
| Duration.LossInItsBand | src/wire.c:154-218 | the loss is below the unit of the code's band, and the duration at least sixteen units and the loss |
| Duration.LossIsWorstInTheLastBand | include/mcl/wire.h:241-244 | no duration at all loses a larger part than 16383 seconds of 278527, which is met |
| Duration.LossIsSmallerBelowABandBottom | spec/duration-v0.1.md:83-84 | just below a band bottom the loss is about one thirty-second |
| Registry.CheckPartition | tools/validate_extension_registry.c:250-288 | finds nothing if and only if the sorted table is not empty, runs forwards, starts at 0, abuts and ends at the last identifier; a sum that wraps at the top of the width never passes for a seam |
| Registry.WrapIsNoSeam | tools/validate_extension_registry.c:271-274 | in a sorted table that starts at 0 the wrapping sum finds the same seams as the unbounded one |
| Registry.SortedSorts | tools/validate_extension_registry.c:175-182 | every table has a sorting: the same ranges in the order of the comparison |
| Registry.Sort | tools/validate_extension_registry.c:254-254 | the table in place, permuted into the order of the comparison |
| Registry.CheckKeys | tools/validate_extension_registry.c:318-334 | finds nothing if and only if every assignment has its name, status, specification and guidance |
| Registry.CleanExactlyWhenPartition | tools/validate_extension_registry.c:254-288 | for the table as declared, before sorting, that is so if and only if every identifier lies in exactly one range and no range leaves the space |
| Registry.CoveringPermuted | tools/validate_extension_registry.c:254-254 | sorting changes for no identifier how many ranges have it |
| Registry.NeighboursAbut | tools/validate_extension_registry.c:271-283 | in a sorted partition neighbours can neither overlap nor leave a gap |
| Registry.CheckZero | tools/validate_extension_registry.c:290-299 | finds nothing if and only if every range with identifier 0 has the policy "Reserved" |
| Registry.CheckRangeOf | tools/validate_extension_registry.c:351-364 | finds nothing if and only if the first range with the identifier exists and has a policy other than "Reserved" |
| Registry.CheckAssignments | tools/validate_extension_registry.c:343-377 | finds nothing if and only if each assignment is encodable, governed and not repeated further on |
| Registry.GovernedByItsRange | tools/validate_extension_registry.c:351-361 | in a partition stopping at the first range misses nothing |
| Registry.ChecksDecideSoundness | tools/validate_extension_registry.c:254-377 | the passes together find nothing if and only if the declared registry is sound |
| Registry.SoundMeans | tools/validate_extension_registry.c:262-377 | soundness in plain numbers and words, both ways |
| Registry.ShippedRegistryIsSound | registries/extension-ids-v0.1.json:24-68 | the seven ranges that were shipped, with no assignments, are sound |
| Registry.CheckRegistry | tools/validate_extension_registry.c:250-377 | for any table and assignments as read: no failures if and only if each of 0 to 2147483647 has exactly one range and no range is empty or leaves them, every range with 0 is "Reserved", and each assignment has its four keys, a number of its own from 1 to 2147483647 and a range that is not "Reserved" |
| EventReader.SkipSpaces | benchmarks/benchmark_source.c:77-81 | the first position without one of the six space characters |
| EventReader.ParseString | benchmarks/benchmark_source.c:83-96 | a quoted string without backslash that fits its buffer with the terminator |
| EventReader.LookupField | benchmarks/benchmark_source.c:52-59 | the first row under the name, if and only if there is one |
| EventReader.ParseDigits | benchmarks/benchmark_source.c:105-108 | the accumulator holds the number written, as far as 64 bits keep it |
| EventReader.ParseInteger | benchmarks/benchmark_source.c:98-118 | sign, digits and the two range checks, the lowest number included |
| EventReader.ParseMember | benchmarks/benchmark_source.c:131-139 | key, colon, integer |
| EventReader.ParseEvent | benchmarks/benchmark_source.c:120-146 | the member loop, at most sixteen fields, a comma before the closing brace let through |
| EventReader.DecimalSize | benchmarks/benchmark_source.c:148-156 | the printed length of every 64-bit number, the lowest included; how long that is says PlainEvent.DecimalLength |
| EventReader.JsonSize | benchmarks/benchmark_source.c:195-204 | the printed length of the event |
| Event.NumberRoundTrip | benchmarks/benchmark_source.c:98-118 | every 64-bit number reads back from its decimal digits, wherever it stands before something other than a digit |
| PlainEvent.NumberText | benchmarks/benchmark_source.c:148-156 | a minus sign only below zero, then digits that do not begin with a zero unless the number is zero |
| PlainEvent.DecimalLength | benchmarks/benchmark_source.c:148-156 | a number takes as many digits as there are powers of ten up to it, zero takes one |
| PlainEvent.DecimalIsShortest | benchmarks/benchmark_source.c:148-156 | no digits that write the same number are fewer |
| PlainEvent.OneDecimal | benchmarks/benchmark_source.c:148-156 | digits without a needless zero in front are the ones printed for their number |
| Event.MemberRoundTrip | benchmarks/benchmark_source.c:131-139 | a printed field reads back |
| Event.EventRoundTrip | benchmarks/benchmark_source.c:120-146 | a printed event reads back wherever the text holds it, and reading stops right behind it |
| Event.BenchmarkRoundTrip | benchmarks/benchmark_source.c:30-40 | so it is for the benchmark's own key table, whatever follows |
| PlainEvent.EventText | benchmarks/benchmark_source.c:195-204 | an event is its fields between braces, in order, with a comma between any two |
| PlainEvent.KnownKeys | benchmarks/benchmark_source.c:30-40 | the twenty-four keys, and no others |
| PlainEvent.PrintableMeans | benchmarks/benchmark_source.c:120-146 | an event has a text if and only if it has at most sixteen fields, known keys and signed 64-bit values |
| EventGrammar.AcceptedExactly | benchmarks/benchmark_source.c:77-146 | for every text and position: accepted up to there as these fields if and only if it is an object of at most sixteen members with blanks between any two parts, keys of at most 31 characters that may go on behind a NUL, numbers taken for the low 64 bits of their digits and in range, and perhaps one comma behind the last member |
| Event.AcceptedIsPrintable | benchmarks/benchmark_source.c:120-146 | whatever is accepted has at most sixteen known keys and 64-bit values |
| Event.NormalForm | benchmarks/benchmark_source.c:120-146 | printing what was read, spaces and stray comma included, gives a text that reads as the same event |
| Event.EventIsFinal | benchmarks/benchmark_source.c:120-146 | an accepted event is accepted the same, whatever comes after it |
| Event.ReadsWhatIsWritten | benchmarks/benchmark_source.c:98-118 | digits with a sign are read as the number they stand for if and only if a signed 64-bit integer holds it |
| Event.IntegerVerdict | benchmarks/benchmark_source.c:98-118 | for any digits with a sign: refused if and only if the low 64 bits exceed the largest magnitude of that sign, and otherwise read as those bits |
| Event.MistakenExactly | benchmarks/benchmark_source.c:98-118 | accepted as another number if and only if more than 64 bits are taken and the low 64 are in range for the sign |
| Event.LongNumbersWrap | benchmarks/benchmark_source.c:105-116 | any positive multiple of two to the 64th with a magnitude in range on top, of either sign, is accepted as that magnitude |

## Left out

- NULL arguments and the status they give: arrays, sequences and objects here exist.
- Aliasing: extension values and decoder inputs are values, so an extension whose bytes lie in the output buffer, or a reader whose bytes change under it, is not modelled.
- Tier0Codec.EncodeAtMajor: when a field is refused it says nothing about the bytes of the object itself, which are zeroed and written up to that field.
- ExtensionCodec.EncodeExt: when the object or the room is refused it says nothing about the bytes inside the capacity.
- ExtensionCodec.DecodeExtAccept: the decoded object is part of the result, so what a failed decode may leave in the caller's object is not modelled.
- Tier0Codec.ZeroBytes: a plain loop; that the source goes through a volatile pointer is not modelled.
- Kinds above the last one are one value, `Unassigned`; all of them are refused alike.
- The `offset > out_capacity` branches of the block encoder are left out of the methods: the offset is kept below the capacity by proof.
- The value size limit of 32 bits in the block encoder is kept; sizes of `size_t` itself are unbounded.
- Registry.Sort: stands for `qsort`, whose algorithm is not modelled; nothing but the permutation and the order is used.
- Registry.CheckPartition: the sum that overflows at the top of `long` is taken to wrap around, as it does in two's complement; the C standard leaves it open.
- Registry.CheckKeys: which keys an entry has is a parameter; the search for them in the file is not modelled.
- The summary counters of the registry checker, its messages, and its search for keys in the registry file.
- EventReader.ParseString: the key's buffer is a string that grows; what a failed parse leaves in the event is not modelled.
- The benchmark's CBOR and protobuf sizes, its hex and file handling and its totals.
- The rest of the layout checker and the vector validators: drivers over finite cases.
- What fields mean, the non-zero rules of the link layer, context and delta encoding, and the other tiers.
