# Hiero Go SDK: a verified model of its hard parts

This project models, in Dafny, the parts of the Hiero (Hedera) Go SDK whose correctness does not follow from reading one function, and proves what they promise:

* **the Solidity ABI codec** — the head/tail encoder, the offset-following decoder, the type strings with their lexer, parser and printer, and the second, independent encoder behind `ContractFunctionParameters`;
* **the checksummed codes** — HIP-15 entity-ID checksums and BIP-39 mnemonic sentences;
* **the retry loop** `_Execute`, driven by an arbitrary environment;
* **chunked file appends** — freezing into chunks with a shared, mutable transaction ID, and sending the chunks under retries, regenerated IDs and throttling;
* **the ABI registry** with its overload-free names.

Pure code is a function with lemmas. Code that works by updating things is a method with loops, or a class (`Lexer`, `ContractFunctionParameters`, `FileAppendTransaction`, `Time`, `ABI`), proved against specification functions. The loops of the encoder and decoder, for instance, refine the recursive `Encoding` and `Decode`, and the theorems are about those.

`dafny verify dfyconfig.toml` checks the whole project.

| file | content |
|---|---|
| `Words`, `Decimal` | big-endian and two's-complement bytes; decimal text |
| `AbiType`, `AbiEncode`, `AbiDecode` | types, the encoding and the decoder as functions |
| `AbiRoundTrip`, `AbiLaws`, `AbiSlack` | the round trip with its exact condition; sizes, monotonicity, canonicalisation; which types round-trip for all their values |
| `AbiLoops` | the encoder and decoder loops with running offsets |
| `AbiBytes` | the bytes both encoders write, and the decoder and readers on arbitrary bytes |
| `AbiBuilder`, `AbiSurvival` | the buffer-writing second encoder and the index-based result readers; which parameters survive it |
| `TypeText`, `TypeSignature`, `TypeParser`, `TypeLaws` | printer, lexer and parser as functions; signatures and JSON arguments; the mutable lexer and reader; the texts themselves, and texts nobody printed |
| `AbiRegistry` | overload naming, `addMethod`, `addEvent` |
| `Checksum`, `EntityId` | HIP-15 checksum and its error detection; parsing, printing and validating IDs |
| `Bip39`, `Mnemonic`, `Readings` | the base-2048 codec; the loops and the sentences; where the two readers of a sentence agree |
| `Execute` | the retry loop and its backoff |
| `FileAppend` | chunking, transaction-ID stepping, sending |

## What the code does that a reader might not expect

Each of these is a theorem with the exact condition under which the code behaves.

* `decode` asks for 32 bytes before every component, so a value with a zero-size part (an empty tuple, `T[0]`) in last place does not decode from its own encoding. `AbiRoundTrip.RoundTrip` gives the exact condition for every value, `AbiSlack.AlwaysFitsIff` the exact condition on the type for all its values, `AbiLaws.CleanRoundTrip` the unconditional law for types without such parts, `AbiLaws.ZeroSizeCounterexample` a family that fails. The order of components matters: `tuple(tuple(),uint8)` always round-trips, `tuple(uint8,tuple())` does only with a word behind it (`AbiSlack.EmptyTupleFirstOrLast`).
* `AddInt24`, `AddInt40`, `AddInt48` and `AddInt56` write zero with leading 0xff bytes, and the decoder reads it as a negative number; `AddInt8/16/32/64` do the same, but the decoder looks only at the low bytes. The wide-integer adders (`AddInt72` to `AddUint256`) take any number of bytes and cut or fill them up on the right, while `AddBytes32Array` fills its items up on the left. `AbiSurvival.ScalarSurvivesIff` and `AbiSurvival.BuildSurvivesIff` say exactly which parameters the decoder gives back. The readers `GetInt8` to `GetInt64` do give back every signed parameter, so on exactly those zeros they disagree with the decoder (`AbiSurvival.SignedReadersIff`).
* In a JSON argument tree, the array suffix of every tuple without components is lost; a tree is read as exactly the type it describes if and only if there is none (`TypeSignature.ArgumentTree`).
* The identifier 0.0.0 validates with any checksum, on any ledger; an identifier with a number of 2^63 or more never does (`EntityId.ValidatesIff`).
* `EntropyFromMnemonic` splits a sentence at white space, `MnemonicToByteArray` at single blanks. `Readings.ReadingsAgreeIff` gives the exact condition under which both return the same entropy. A blank in front makes the second refuse every sentence but that of the zero entropy (`Readings.LeadingBlank`); words joined by tabs make it succeed with no bytes at all (`Readings.TabSentence`).
* `executeAll` promises proper throttling handling, but a throttled chunk is retried after the current transaction ID has already moved on: the retry sends the next chunk. The chunks arrive in order exactly when each chunk's number of throttled receipts is a multiple of the number of chunks (`FileAppend.DeliveredInOrderIff`); with one chunk that is always so.
* `GetTransactionBodySizeAllChunks` steps by the number of nodes through a range counted in chunks: it reports every chunk exactly with one node or one chunk and leaves zeros otherwise (`BodySizes`).
* Freezing a file append with empty contents succeeds and leaves the transaction not frozen (`FreezeWith`).

## Model

| member | source | states |
|---|---|---|
| AbiEncode.WordValue | sdk/abi_encode.go:315-324 | the word of any integer, negative or too wide included, reads back as the integer modulo 2^256 |
| AbiEncode.WordIsLowBytes | sdk/abi_encode.go:315-341 | reducing, taking the shortest form and left-padding gives the 32 two's-complement bytes |
| AbiEncode.LayoutMeetsSpecification | sdk/abi_encode.go:129-164 | the layout made with a running offset is head(X1)..head(Xk) tail(X1)..tail(Xk) of the ABI specification, each dynamic head being the length of all heads and of the tails before it |
| AbiLoops.EncodeValue | sdk/abi_encode.go:24-57 | the dispatching encoder returns the specified encoding of every value it accepts and an error for every other |
| AbiLoops.EncodeSliceAndArray | sdk/abi_encode.go:59-99 | the list loop with `ret`, `tail` and `offset` computes the specified encoding, or fails exactly where the specification does |
| AbiLoops.EncodeTuple | sdk/abi_encode.go:101-165 | the same for tuples, whether given by position or by key |
| AbiLoops.HeadSpace | sdk/abi_encode.go:129-132 | the first loop finds the size of all heads |
| AbiLoops.DecodeValue | sdk/abi_decode.go:48-106 | the dispatching decoder computes `Decode` on every byte string; no slice is out of range |
| AbiLoops.DecodeComponent | sdk/abi_decode.go:266-290 | one iteration: a static component in place, a dynamic one at its offset into the container, and the data left for the next head |
| AbiLoops.DecodeTuple | sdk/abi_decode.go:262-303 | the tuple loop, with its map and its refusal of repeated keys, computes `Decode` |
| AbiLoops.DecodeArraySlice | sdk/abi_decode.go:305-352 | the list loop computes the specified list or fails exactly where it does |
| AbiBytes.ScalarBytes | sdk/abi_encode.go:173-277 | integers are their 32 two's-complement bytes, booleans 31 zeros and a bit, addresses zeros and their bytes, fixed bytes and functions their bytes and zeros; over-long ones keep their last 32 bytes |
| AbiBytes.LongBytes | sdk/abi_encode.go:202-230 | strings and bytes are the length word, the bytes, and zeros up to the next whole word |
| AbiBytes.ListBytes | sdk/abi_encode.go:59-165 | a slice is its length word, an array or tuple nothing, followed by the heads and tails of the ABI specification |
| AbiBytes.HeadBytes | sdk/abi_encode.go:88-95 | the head of a dynamic component is its offset as a word, that of a static one the component |
| AbiBytes.ListForTuple | sdk/abi_encode.go:101-165 | a list is accepted for a tuple exactly if it has at least as many items, acceptable ones first, and only these are written |
| AbiBytes.AnyWord | sdk/abi_decode.go:195-260 | on any word, written by whomever: a boolean is its last byte, an address its last 20, fixed bytes its first, and only a function has to end in zeros |
| AbiBytes.AnyInteger | sdk/abi_decode.go:204-243 | on any word an 8, 16, 32 or 64 bit integer is the word modulo 2^bits, any other the whole word, in two's complement if signed |
| AbiBytes.AnyString | sdk/abi_decode.go:377-390 | any bytes are a string exactly if the announced length, below 2^63, is there, whatever fills the last word |
| AbiBytes.AnyOffset | sdk/abi_decode.go:365-375 | a dynamic component lies wherever its offset points inside the container, be it back into the heads |
| AbiBytes.DecodedKeys | sdk/abi_decode.go:292-302 | a decoded tuple has one entry per component, the i-th under its name, or under its position if it has none |
| AbiRoundTrip.RoundTrip | sdk/abi_decode.go:48-106 | decoding the encoding of any accepted value followed by any suffix succeeds if and only if the stated lengths fit, and then yields the normal form of the value, with exactly the suffix left for static types |
| AbiRoundTrip.WordRoundTrip | sdk/abi_decode.go:195-260 | the same for every one-word type: integers of each width and sign, bool, address, bytesN, function |
| AbiLaws.NormalIffWellTyped | sdk/abi_decode.go:204-243 | a value is its own normal form, hence survives the round trip, exactly when it is well-typed |
| AbiLaws.CleanRoundTrip | sdk/abi_encode.go:24-165 | for every type without zero-size parts and repeated keys and every well-typed value: decode(encode(v) + s) is v, with tail s for static types |
| AbiLaws.RegularFits | sdk/abi_decode.go:54-56 | in such a type the 32-byte demands are always met by the encoding itself |
| AbiLaws.ZeroSizeCounterexample | sdk/abi_decode.go:267-270 | every integer next to an empty tuple, in that order, encodes to 32 bytes that do not decode |
| AbiLaws.Canonicalisation | sdk/abi_decode.go:262-390 | whatever byte string is accepted, with overlapping or reordered offsets, its value is well-typed, and decoding its canonical encoding gives that value again, exactly when the encoding fits |
| AbiLaws.DecodedWellTyped | sdk/abi_decode.go:48-106 | every decoded value is accepted by the encoder and in the range of its type |
| AbiLaws.DecodeExtends | sdk/abi_decode.go:48-106 | if decoding x gives (v, tail), decoding x + s gives (v, tail + s), for every s |
| AbiLaws.EncodingSize | sdk/abi_type.go:345-359 | every encoding is a whole number of words, and for static types it has exactly the size getTypeSize predicts |
| AbiSlack.AlwaysFitsIff | sdk/abi_decode.go:48-56 | all well-typed values of a type satisfy the decoder's length checks, with s bytes behind their encoding, if and only if the type is fine with s, a condition on the type alone |
| AbiSlack.FineRoundTrip | sdk/abi_decode.go:48-106 | every well-typed value of such a type comes back, before any suffix of that length |
| AbiSlack.NotFineFails | sdk/abi_decode.go:48-106 | every other type has a well-typed value that does not |
| AbiSlack.FineArrayIs | sdk/abi_decode.go:305-352 | an empty array needs a word behind it; a longer one is as its element type, but zero-size elements need a word each |
| AbiSlack.MinBound | sdk/abi_encode.go:24-165 | no encoding is shorter than the minimal size of its type |
| AbiSlack.RegularIsFine | sdk/abi_decode.go:54-56 | types without zero-size parts are fine with nothing behind them |
| AbiSlack.EmptyTupleFirstOrLast | sdk/abi_decode.go:266-270 | an empty tuple in front of an integer is fine, behind it it is not |
| AbiBuilder.WordArray | sdk/contract_function_parameters.go:1590-1676 | the array adders write the length word and the items' words into one buffer |
| AbiBuilder.BytesArray | sdk/contract_function_parameters.go:1871-1932 | the preallocated buffer holds the length word and the layout of the packed items |
| AbiBuilder.Space | sdk/contract_function_parameters.go:1801-1813 | the allocation loop finds exactly the length of the layout |
| AbiBuilder.WritePart | sdk/contract_function_parameters.go:1822-1831 | one iteration changes exactly the head slot and the tail at the running offset |
| AbiBuilder.WriteLayout | sdk/contract_function_parameters.go:1820-1831 | writing heads and tails in place into a zeroed buffer leaves exactly the layout, and nothing before it changed |
| AbiBuilder.IntWord | sdk/contract_function_parameters.go:1843-1869 | what AddIntN writes is the word of the number, except that zero comes out as minus 256^k |
| AbiSurvival.ScalarSurvivesIff | sdk/contract_function_parameters.go:1843-1869 | the one-word readers give back the value the caller meant if and only if it is not a zero added as int24, int40, int48 or int56, nor a wide integer of other than 32 bytes, unless these are all zero or, for a signed one of more than 32 bytes, all 0xff |
| AbiBuilder.ScalarDecodes | sdk/contract_function_parameters.go:36-172 | the word of every bool, signed, unsigned, 32-byte and address parameter decodes to the value found for it |
| AbiBuilder.ArgumentReads | sdk/contract_function_parameters.go:1679-1798 | strings, bytes and arrays of them, word arrays and scalars each decode on their own |
| AbiBytes.BuilderScalars | sdk/contract_function_parameters.go:36-172 | every scalar word of the builder, byte by byte |
| AbiBytes.BuilderLong | sdk/contract_function_parameters.go:1679-1705 | strings and bytes of the builder are the length word, the bytes and one to thirty-two zeros |
| AbiBytes.ScalarEncodersAgreeIff | sdk/contract_function_parameters.go:1836-1869 | both encoders write the same word for a scalar, except exactly for the zeros of the signed adders |
| AbiBytes.LongEncodersAgreeIff | sdk/contract_function_parameters.go:1679-1705 | they write the same bytes for a string unless its length is a multiple of 32, where the builder adds a word of zeros |
| AbiBytes.AnySlot | sdk/contract_function_result.go:56-98 | on a slot of any content the readers take the low-order bytes their Go type holds |
| AbiBuilder.LayoutDecodes | sdk/abi_decode.go:262-303 | a layout of parts decodes to their values, whichever encoder wrote the parts |
| AbiBuilder.ContractFunctionParameters.constructor | sdk/contract_function_parameters.go:27-33 | no arguments yet |
| AbiBuilder.ContractFunctionParameters.Add | sdk/contract_function_parameters.go:1679-1798 | an adder appends the parameter's argument and keeps the earlier ones, so that the arguments are always those of the parameters added |
| AbiBuilder.ContractFunctionParameters.Build | sdk/contract_function_parameters.go:1800-1834 | a fresh buffer holding the selector and what the theorems call the built buffer of the parameters added |
| AbiBuilder.BuildDecodes | sdk/contract_function_parameters.go:1800-1834 | tuple-decoding the built buffer followed by any suffix finds the stated value of every parameter, in every combination; only the empty parameter list needs the suffix |
| AbiSurvival.BuildSurvivesIff | sdk/contract_function_parameters.go:1800-1834 | for a nonempty list, decoding the built buffer and any suffix gives back exactly the values the caller meant, if and only if none of them is one of those above or a bytes32 array with a short item |
| AbiSurvival.WideIff | sdk/contract_function_parameters.go:175-184 | a wide integer cut or filled up to its slot keeps its value, signed or unsigned, exactly under that condition |
| AbiBuilder.ReadersAgree | sdk/contract_function_result.go:398-402 | GetUint64, GetInt8 to GetInt64, GetAddress and GetBytes find in the built buffer, at each index, what was added there |
| AbiSurvival.SignedReadersIff | sdk/contract_function_result.go:61-98 | the signed readers give back every signed parameter, and agree with the decoder on the same slot if and only if it is not a zero added as int24, int40, int48 or int56 |
| TypeText.LexFormat | sdk/abi_type.go:642-701 | lexing a printed type gives its tokens, whatever follows |
| TypeText.SimpleInvertsText | sdk/abi_type.go:474-569 | reading the text of a scalar type gives that type |
| TypeText.ReadPrinted | sdk/abi_type.go:372-472 | parsing the tokens of a printed type gives the type and stops right behind it |
| TypeText.ParseInvertsPrint | sdk/abi_type.go:160-211 | for every type reflection can build, NewType(Format(t)) rebuilds t: with names exactly, names, indexed flags and array nesting included; without names up to them |
| TypeLaws.FormatIs | sdk/abi_type.go:160-211 | the text of every scalar, array and slice: `uint` and the width, and so on |
| TypeLaws.TupleText | sdk/abi_type.go:160-177 | a tuple is its components with commas between them, each its type, its flag and, where names are printed, its name |
| TypeLaws.SignatureText | sdk/abi.go:384-391 | a signature is the name and, in parentheses, the bare texts of the inputs |
| TypeLaws.TransferSignature | sdk/abi.go:384-391 | transfer(address,uint256) |
| TypeLaws.NestedSignature | sdk/abi.go:384-391 | f((uint256,bool)[2],string[]) |
| TypeLaws.NamedTuple | sdk/abi_type.go:160-177 | tuple(uint256 a,address indexed b) |
| TypeLaws.SizedNames | sdk/abi_type.go:474-569 | `uint`, `int` and `bytes` with any number; a width that is no multiple of 8 panics |
| TypeLaws.PlainNames | sdk/abi_type.go:496-569 | the names without a number; integers have 256 bits then |
| TypeLaws.UnknownNames | sdk/abi_type.go:474-569 | any other name, and any other name with a number, is unknown |
| TypeLaws.NameRead | sdk/abi_type.go:338-343 | a known name parses to the type it stands for |
| TypeLaws.LeadingSpace | sdk/abi_type.go:642-650 | white space in front is skipped |
| TypeLaws.TrailingIgnored | sdk/abi_type.go:338-343 | what follows a printed type is ignored unless it goes on with a bracket |
| TypeLaws.BracketsRead | sdk/abi_type.go:443-471 | brackets behind a printed type make it a slice or an array |
| TypeLaws.PanicsWhenTooLarge | sdk/abi_type.go:455-461 | an array beyond the address space makes the parser panic |
| TypeLaws.Identifiers | sdk/abi_type.go:686-709 | the characters of identifiers |
| TypeLaws.ComponentsOfScalar | sdk/abi_type.go:299-335 | components of an argument whose type is no tuple are an error |
| TypeParser.Lexer.constructor | sdk/abi_type.go:618-622 | a lexer at the start of the text, nothing read yet |
| TypeParser.Lexer.ReadChar | sdk/abi_type.go:624-633 | one character forward; the tokens already read stay |
| TypeParser.Lexer.ReadRun | sdk/abi_type.go:686-701 | the longest run of word characters or digits, and the text behind it |
| TypeParser.Lexer.NextTokenImpl | sdk/abi_type.go:642-684 | the next token and the remaining text are those of the lexing function |
| TypeParser.Lexer.NextToken | sdk/abi_type.go:635-640 | consumes exactly one token of the remaining stream |
| TypeParser.ReadTypeFrom | sdk/abi_type.go:372-472 | on every input the reader terminates and agrees with the parsing function: same type, same error, same panic (a width that is no multiple of 8, an array beyond the address space), same remaining tokens |
| TypeParser.ReadTupleFrom | sdk/abi_type.go:386-431 | the component loop, its empty-tuple recovery included, agrees with the parsing function |
| TypeParser.ReadNameFrom | sdk/abi_type.go:402-415 | the optional indexed flag and name |
| TypeParser.ReadDimsFrom | sdk/abi_type.go:443-471 | the array suffix loop agrees with the parsing function, the panic of reflect.ArrayOf included |
| TypeParser.ParseType | sdk/abi_type.go:338-343 | a fresh lexer and reader compute NewType on every string |
| TypeSignature.StripFormat | sdk/abi.go:384-391 | stripping `tuple` from a printed type leaves exactly the bare form |
| TypeSignature.SignatureParses | sdk/abi.go:384-391 | the parenthesised part of a method signature still parses, to the inputs' types without names |
| TypeSignature.SignatureIdentifiesTypes | sdk/abi.go:384-391 | methods of one name have the same signature exactly when their input types agree up to component names |
| TypeSignature.ArgumentTree | sdk/abi_type.go:254-335 | a JSON argument tree is read as the type it describes (nested tuples, empty ones too, suffixes, names, indexed) without the array suffixes over empty tuples; hence as exactly that type if and only if no array or slice in it has the empty tuple as its base |
| TypeSignature.DroppedIff | sdk/abi_type.go:254-277 | what is dropped is nothing exactly in that case |
| TypeSignature.EmptyComponentsDropDims | sdk/abi_type.go:254-277 | every tuple argument without components becomes the empty tuple, whatever suffix it had |
| AbiRegistry.OverloadedName | sdk/abi.go:70-78 | the loop ends for every finite set of taken names, with the first of raw, raw0, raw1, … that is free |
| AbiRegistry.FirstFree | sdk/abi.go:70-78 | that name exists and has an index at most the number of taken names |
| AbiRegistry.Pigeonhole | sdk/abi.go:70-78 | k candidates that are all taken need k taken names |
| AbiRegistry.FiledConserves | sdk/abi.go:55-68 | after any n additions there are exactly n entries, each item still under the name it got, a variant of its own, and no two under one |
| AbiRegistry.KeyIs | sdk/abi.go:70-78 | the first item of a name keeps it; the next ones get it with 0, then 1 behind |
| AbiRegistry.ThreeOverloads | sdk/abi.go:55-78 | three methods of one name are filed under name, name0 and name1 |
| AbiRegistry.BySignatureLatest | sdk/abi.go:32-35 | a signature is found exactly when a method with it was added, and then the latest one |
| AbiRegistry.ABI.constructor | sdk/abi.go:19-25 | nothing filed yet |
| AbiRegistry.ABI.AddMethod | sdk/abi.go:55-68 | one more entry, no earlier binding changed, the method found by signature |
| AbiRegistry.ABI.AddEvent | sdk/abi.go:44-53 | one more entry, no earlier binding changed |
| Checksum.CheckChecksum | sdk/entity_id.go:84-133 | the loops in 64-bit arithmetic, without overflow, compute the HIP-15 code |
| Checksum.SameCode | sdk/entity_id.go:119-131 | two codes are equal exactly when key plus ledger hash agree modulo 26^5: the multiplication and the five letters lose nothing |
| Checksum.SameCodeOneLedger | sdk/entity_id.go:84-133 | on one ledger the code determines length modulo 5, both alternating sums modulo 11 and the weighted sum modulo 26^3, and is determined by them |
| Checksum.PublishedCodes | sdk/entity_id.go:84-133 | the code of published identifiers: 0.0.123 on testnet is esxsf, on mainnet vfmkw, and 1.23.456 on mainnet adpbr |
| Checksum.SubstitutionDetected | sdk/entity_id.go:84-133 | one substituted character always changes the checksum |
| Checksum.TranspositionDetected | sdk/entity_id.go:84-133 | swapping two different neighbours always changes it |
| Checksum.LengthChangeDetected | sdk/entity_id.go:84-133 | one to four characters more or fewer always change it |
| Checksum.LedgersSeparated | sdk/entity_id.go:99-125 | ledgers differing in one byte never share a checksum for an address |
| EntityId.PrintsIffSmall | sdk/file_id.go:155-168 | printing with a checksum succeeds exactly when all three numbers are below 2^63 |
| EntityId.ChecksummedRoundTrip | sdk/file_id.go:65-77 | printing with a checksum and parsing gives the same numbers with a checksum that validates on the same ledger |
| EntityId.ValidatesIff | sdk/file_id.go:80-108 | validation accepts exactly the right checksum on numbers below 2^63, and anything for 0.0.0 |
| EntityId.MistypedIdRejected | sdk/entity_id.go:29-82 | an ID mistyped by one character, one swap or up to four missing or added characters is refused, unless it became 0.0.0 |
| EntityId.FromStringOfText | sdk/id.go:161-195 | splitting and parsing inverts printing, without a checksum and with any |
| EntityId.FromStringIs | sdk/id.go:161-195 | any text with two dots before the first `-`: the three parts are parsed as integers, what follows the `-` is the checksum, and without `-` there is none |
| EntityId.TooFewDots | sdk/id.go:174-178 | fewer than two dots are refused |
| EntityId.AtoiIs | sdk/id.go:180-193 | digits, leading zeros included, with an optional sign, in the range of int64 |
| EntityId.ParseChecked | sdk/entity_id.go:44-82 | an address with five letters behind it: the right checksum, and status 3 or 1 as they are it or not |
| EntityId.PublishedIdentifier | sdk/file_id.go:65-168 | 0.0.123 on testnet printed, parsed and validated, and refused on mainnet |
| Bip39.EntropyRoundTrip | sdk/bip39.go:180-227 | for 16, 20, 24, 28 or 32 bytes, leading zeros included: the generated words give back the entropy, for any hash and any list of 2048 different words |
| Bip39.WordsRoundTrip | sdk/bip39.go:126-175 | every accepted word sequence is the one its entropy generates |
| Bip39.WordAt | sdk/bip39.go:180-227 | word i is the i-th group of eleven bits of the entropy followed by the first bits of its hash |
| Bip39.ZeroEntropyWords | sdk/bip39.go:180-227 | sixteen zero bytes give eleven times the first word and the word of the hash's first four bits |
| Bip39.ValidSizes | sdk/bip39.go:342-379 | exactly 16, 20, 24, 28 and 32 bytes, and only 12, 15, 18, 21 and 24 words |
| Bip39.Capacity | sdk/bip39.go:180-227 | entropy and checksum bits fill the words exactly: 256^(4c) 2^c = 2048^(3c) |
| Bip39.OrAppends | sdk/bip39.go:144-152 | shifting and or-ing appends a digit |
| Bip39.AndMasks | sdk/bip39.go:205-215 | masking takes the remainder |
| Mnemonic.WhiteSpace | sdk/bip39.go:367-379 | what separates the words: the white space of Unicode, by code point |
| Mnemonic.SurroundingSpace | sdk/bip39.go:367-379 | white space around a sentence, such as a newline behind it, does not matter |
| Mnemonic.SetWordList | sdk/bip39.go:81-87 | the loop builds the inverse of the word list |
| Mnemonic.AddChecksum | sdk/bip39.go:309-332 | the bit loop appends the leading hash bits, for data of any length |
| Mnemonic.NewMnemonic | sdk/bip39.go:180-227 | the words filled in from the end are the base-2048 digits of entropy with checksum; other sizes are refused |
| Mnemonic.EntropyFromMnemonic | sdk/bip39.go:126-175 | accepts exactly the sentences whose checksum bits are right, and returns the entropy |
| Mnemonic.MnemonicToByteArray | sdk/bip39.go:232-281 | on every text: refused if EntropyFromMnemonic refuses it, otherwise the second reading of the words between blanks |
| Mnemonic.SecondReadingAgrees | sdk/bip39.go:232-281 | on accepted words its size arithmetic and second comparison always succeed, and raw gives the entropy |
| Readings.ReadingsAgreeIff | sdk/bip39.go:232-281 | for every accepted sentence and any words found between blanks, MnemonicToByteArray returns the same entropy if and only if these spell the same number and are as many as the words between white space, or one or two more where the entropy is all zeros |
| Readings.SentenceAgreesIff | sdk/bip39.go:232-281 | the same on every accepted text, as both functions split it |
| Readings.SecondReadingIs | sdk/bip39.go:238-276 | on any words: the whole 32-bit groups of the number they spell, if appending their checksum gives the number again |
| Readings.SameNumberIff | sdk/bip39.go:254-258 | two word lists spell the same number exactly when the longer has the same indices after leading zeros |
| Readings.TabSentence | sdk/bip39.go:239 | for every entropy, its words joined by tabs give the entropy in one reader and success with no bytes in the other |
| Readings.NoBlankSentence | sdk/bip39.go:239 | the same for every accepted sentence without a blank |
| Readings.LeadingBlank | sdk/bip39.go:238-276 | with one blank in front the second reading succeeds exactly when the entropy is all zeros, although the first still accepts |
| Mnemonic.SentenceRoundTrip | sdk/bip39.go:126-227 | a generated sentence yields the entropy it was made from |
| Mnemonic.SentenceRegenerated | sdk/bip39.go:126-227 | an accepted sentence is regenerated word for word, and exactly when single blanks join its words also as text |
| Execute.Run | sdk/executable.go:193-381 | for every environment, on the fields of its observations: one advance exactly per channel failure, gRPC error or answer that asks for another node, one sleep exactly per unhealthy node or answer to retry, which attempts lead to another, which observation leads to which outcome, and which error an exhausted run reports |
| Execute.RunLoop | sdk/executable.go:217-381 | the loop performs the one run there is, and its log is the run's log |
| Execute.RunUnique | sdk/executable.go:193-381 | the description leaves no choice: attempts and outcome are determined. It says that no attempt starts after the time budget, that a response is mapped only if the last call was classified finished, and that an exhausted run reports the latest recorded failure, or the generic error if there was none |
| Execute.LogStep | sdk/executable.go:255-362 | exactly one advance per channel failure, gRPC error or retry-with-another-node answer, one sleep of the current backoff per wait, and nothing else |
| Execute.BackoffClosedForm | sdk/executable.go:228-230 | the delay at attempt k is min·2^min(k, J), J being the first exponent that exceeds the maximum |
| Execute.FirstAboveIsFirst | sdk/executable.go:228-230 | J is that exponent |
| Execute.BackoffBound | sdk/executable.go:228-230 | with 0 ≤ min ≤ max delays never shrink and never exceed twice the maximum |
| Execute.SleepBound | sdk/executable.go:257-335 | total sleep is at most attempts times twice the maximum |
| FileAppend.ChunkCountIsCeiling | sdk/file_append_transaction.go:130 | the count is the least number of chunks that covers the contents |
| FileAppend.ChunkLength | sdk/file_append_transaction.go:145-147 | every chunk is nonempty and at most chunkSize long, all but the last exactly |
| FileAppend.ChunksJoin | sdk/file_append_transaction.go:144-151 | the first n chunks join to a prefix of the contents, all of them to the contents |
| FileAppend.TimestampRoundTrip | sdk/time.go:24-36 | the protobuf form of a time is normalised and loses nothing, both ways |
| FileAppend.FromProtobuf | sdk/transaction_id.go:192-212 | an ID read from protobuf owns a fresh valid start |
| FileAppend.FileAppendTransaction.constructor | sdk/file_append_transaction.go:26-36 | a transaction that is not frozen |
| FileAppend.FileAppendTransaction.InitTransactionId | sdk/transaction.go:692-708 | an existing ID is kept; otherwise one of the operator is made, or the call fails |
| FileAppend.FileAppendTransaction.PushRow | sdk/file_append_transaction.go:158-170 | one signed transaction per node, behind the earlier ones |
| FileAppend.FileAppendTransaction.Split | sdk/file_append_transaction.go:144-175 | signed transaction i·nodes + j is chunk i for node j with ID base + i; stored ID i is a fresh copy that stays base + i, while the shared valid start moves on to base + chunks |
| FileAppend.FileAppendTransaction.FreezeWith | sdk/file_append_transaction.go:107-179 | succeeds exactly when stated; then as above, and frozen exactly if contents and nodes are nonempty; a failed freeze signs nothing and moves no clock; a frozen transaction stays as it is |
| FileAppend.PlannedBody | sdk/file_append_transaction.go:144-170 | what the freeze leaves at position i·nodes + j: the i-th slice of the contents, node j, and the ID i nanoseconds after the first |
| FileAppend.SlotInverse | sdk/transaction.go:1623-1624 | the slot number determines chunk and node and stays inside the list |
| FileAppend.QuotientRecoversChunks | sdk/chunked_executor.go:45 | signed transactions divided by nodes is the number of chunks |
| FileAppend.FileAppendTransaction.MakeRequest | sdk/transaction.go:1623-1628 | the request is the current chunk for the current node under the current ID; nothing changes unless the ID was regenerated |
| FileAppend.FileAppendTransaction.AdvanceRequest | sdk/transaction.go:1630-1633 | the next node, round the list |
| FileAppend.FileAppendTransaction.MapResponse | sdk/transaction.go:1649-1661 | names the current ID and moves on to the next, round the list |
| FileAppend.FileAppendTransaction.RegenerateId | sdk/transaction.go:1681-1687 | replaces the current ID by a fresh one and no other |
| FileAppend.FileAppendTransaction.TakeAttempt | sdk/executable.go:232-300 | one attempt sends the current chunk to the current node under the current ID; it changes the node exactly on an advance, and the current ID, no other, exactly on a regeneration |
| FileAppend.FileAppendTransaction.ExecuteOne | sdk/executable.go:193-381 | in the run that the environment determines, attempt k sends the chunk that was current at the start to the node as many further on, round the list, as the run has logged advances before k; it carries the ID of the last regeneration before k, or the first ID if there was none; only a mapped response moves on to the next chunk |
| FileAppend.FileAppendTransaction.Submit | sdk/chunked_executor.go:49-52 | an accepted request carries the chunk that was current; there is none exactly when the run fails |
| Execute.AdvancesStep | sdk/executable.go:255-362 | the log counts one advance for every attempt that moves on |
| FileAppend.FileAppendTransaction.ExecuteChunk | sdk/chunked_executor.go:48-78 | after t throttled receipts the accepted request carries the chunk t further on, round the list; there is none exactly when one of the runs of this iteration fails |
| FileAppend.FileAppendTransaction.ExecuteAll | sdk/chunked_executor.go:45-88 | which chunk each iteration delivers, for every environment, and that it ends before the receipts demand it exactly when a run fails, at the first one that does; where the throttled receipts keep the order, what was delivered joins to the contents, or to the prefix it reached |
| FileAppend.DeliveredInOrderIff | sdk/chunked_executor.go:60-78 | every chunk is delivered in its turn if and only if each chunk's throttled receipts number a multiple of the chunk count |
| FileAppend.DeliveredJoins | sdk/chunked_executor.go:45-88 | delivery in turn means the contents arrive, or the prefix reached |
| FileAppend.ThrottledOutOfOrder | sdk/chunked_executor.go:60-78 | with two chunks and one throttled receipt the chunks arrive swapped |
| FileAppend.FileAppendTransaction.BodySizes | sdk/transaction.go:1221-1242 | the size of the signed transaction of chunk c for the first node where c·nodes is below the chunk count, zero elsewhere; so every chunk is reported if and only if there is one node or one chunk |

## Left out

- Reflection coercions of the ABI encoder (floats, decimal and hex strings, structs, pointers) and mapstructure decoding: values reach the model already as booleans, integers, byte strings, lists and maps; a byte slice offered for `uint8[]` is one of the lists.
- Fixed-point types: neither the encoder nor the decoder handles them.
- `bytesN` with N outside 1 to 32: the parser admits them, the decoder would slice past its word.
- Lengths of 2^63 bytes and more, which no Go slice has.
- Error texts and payloads: an error is one value, a panic a second one where it is modelled.
- The annotation with internal types that `fillIn` writes into a type: only whether it succeeds is modelled.
- What the type parser rejects: the model agrees with it on every input, on a machine with 64-bit addresses, but no theorem says which texts are refused.
- Method IDs, topics and log decoding; function selectors; EIP-55 address text and hex decoding.
- AddFunction, AddInt32Array, the other small signed array adders and the `*BigInt` adders: their words do not follow the layout the decoder reads, or come from helpers that are not part of this model.
- A panic of the index-based readers (`GetBytes` with a wild offset) is modelled as an error.
- AbiBuilder.ContractFunctionParameters.Add: one method stands for all adders; its precondition is what their Go parameter types allow, and items of at most 32 bytes for AddBytes32Array, which panics on longer ones.
- SHA-256 is an arbitrary function of the bytes (its first byte); word lists are arbitrary lists of 2048 words, and the check of the English list is left out, as are seeds (PBKDF2).
- Address text is ASCII, as HIP-15 prescribes; the address pattern's panic on text without a match is modelled as an error.
- EntityId: only file IDs; the other entity IDs repeat the same three functions, account and contract IDs add aliases and EVM addresses.
- Execute: clock, health, channels, gRPC answers and their classification are the environment; logging, network backoff counters and address-book updates are left out, and so is overflow of a delay beyond 2^62 nanoseconds.
- FileAppend: chunkSize must be positive (the source divides by it); marshalling and signing are identity on the body, fees, memo, nonce, the scheduled flag and the locks of the lockable slices are left out; receipts and regeneration are the environment. Every chunk is throttled finitely often; on endless throttling the source loops forever.
- FileAppend.FileAppendTransaction.BodySizes: the marshalled size of a signed transaction is an arbitrary function of its body.
- AbiRegistry: errors, which are filed under their plain names, and reading the JSON document.
- Topic message chunks, which are frozen by a sibling of the same loop.
- Transaction, query and info setters with their protobuf mapping; keys, keystores and signatures; Ethereum transactions; Hbar amounts; mirror-node and HTTP requests.
