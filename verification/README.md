# VelocyPack and the agency tree in Dafny

This project models the hard parts of a repository that holds two things: the VelocyPack
library (a binary format for JSON-like values, with its builder, reader, validator, JSON parser
and printer, number printing, UTF-8 checks and hashing) and an agency (a persistent tree of
objects, arrays and scalars, a store that threads share, and futures). It proves what these
parts promise, for all inputs, all runs or all interleavings.

`dafny verify dfyconfig.toml` checks everything.

## How the model is laid out

Code that changes things step by step is modelled by methods with loops and by classes whose
methods change their fields, each proved against a function or predicate that says what the
result is; the laws are then proved about those. Concurrent code is modelled by a state machine
over its atomic steps.

| modules | what they model |
|---|---|
| Bytes, Format, Layout | bytes, little-endian and LEB128 numbers, the values and the bytes that stand for them |
| Frames, Builder, SortIndex, Sorting, Runs | the builder, its open compounds, the sorting of object tables, whole runs of calls |
| Slice, RoundTrip, Choice, Search | reading values from bytes, the round trip, which layout and width a value gets, the searches for keys |
| Validity, Validator, ValidatorRoundTrip | what must be accepted and what acceptance means, the validator, builder and validator put together |
| Utf8, Utf8Simd | RFC 3629 and the automaton, the 16-lane validator |
| Grisu, Fpconv | digit generation, boundaries and the rounded product for doubles |
| JsonText, JsonBulk, Json, JsonGrammar, JsonOptions | JSON strings and their scanner, the bulk copy, texts, the grammar of RFC 8259, the options of the printer |
| Dumper, Parser, JsonRoundTrip | printer, parser, both put together |
| XxHash, XxHashLaws, XxHashKnown | XXH32 and XXH64, one-shot and streaming, inputs with different hashes, known hashes |
| Tree | paths, `get`, `set`, `transform` |
| Store | `write`, `transact` and `read` from any number of threads |
| Futures | the compare-and-swap handshake and chains built by `then` |

A `Value` covers null, booleans, doubles (by their bits), signed and unsigned 64-bit integers,
strings, arrays and objects; `compact` is the caller's request for the layout without a table.
A buffer is a sequence of bytes, and a slice is a buffer and a position. The builder is a class
with the source's fields; its invariant says that in every reachable state the buffer holds the
finished values followed by the open compounds, that each recorded start is the start of a member
relative to its compound, and that closing an inner compound keeps this for all outer levels.

## Where the code does something else

Nine properties one would expect fail on some inputs. The code is modelled as it is; each has
an input on which it fails and a condition that says for which inputs it holds.

- The width of a compound with an index table is chosen as if its members were moved down, and with
  `UsePadding` they are not (`velocypack/src/Builder.cpp:455`). `RoundTrip.RoomyExact`: sizes are
  announced right at every depth if and only if no such compound takes 256 to 261 bytes.
  `RoundTrip.PaddedMisread`: an array of 256 bytes that announces none.
- The comparison behind the searches narrows a 64-bit length difference to `int`
  (`velocypack/src/Slice.cpp:403`). `Search.CompareStringExact`: it agrees with the order of the
  table if and only if the keys differ within their common length or narrowing keeps the sign.
- So searching by halving can miss a key or take another for it. `Search.FindExact`: it is right
  if and only if the comparisons it makes can be relied on (`Search.Faithful`). That holds
  whenever each key compares as the order has it (`Search.AgreeingKeys`), as keys below 2 GiB do.
  `Search.ConfusingLookup`: an object as the builder leaves it in which the lookup returns the
  value of another key.
- The validator reads LEB128 numbers with its own loop, which shifts a 32-bit group before
  widening it (`velocypack/src/Validator.cpp:46`). `Validity.VariableLengthExact`: right if and
  only if the number is below 2^32. `Validity.HugeCompactMisread` says which finished compact
  values of 4 GiB to 32 GiB are refused for this, `Validity.HugeArrayMisread` names one.
- The length check of long strings adds the header in 64 bits
  (`velocypack/src/Validator.cpp:111`), and so do all sizes of slices. What the validator accepts
  is sound by these sizes. `Validity.ContainedExact`: with all announced bytes it is contained
  in its parents if and only if no length the members lead to wraps around.
  `Validator.OverlongAccepted`: an accepted value that is not contained.
- The lower boundary for number printing is taken for a midpoint also for the smallest normal
  double, where the next smaller double is as far away as the next larger one
  (`velocypack/src/fpconv.cpp:109`). `Fpconv.LowerIsMidpoint`: exact if and only if the number is
  not that one. There the boundary lies above the midpoint, so the digits are still right, and
  shortest and nearest within it.
- The parser's bulk copy leaves a pending high surrogate alone (`velocypack/src/Parser.cpp:245`),
  so a low surrogate escape behind copied characters is joined to it and overwrites them.
  `JsonBulk.BulkCopyExact` says exactly when the bulk copy makes no difference;
  `JsonBulk.SplitPairMisread` names an input where it does.
- With its UTF-8 check the parser looks at leading and continuation bytes only
  (`velocypack/src/Parser.cpp:388`), so it lets overlong forms, surrogates and numbers beyond
  U+10FFFF through. `JsonGrammar.ReadIsUtf8`: the string read is UTF-8 if and only if every
  unescaped character is and no half of a surrogate pair stands alone.
  `JsonGrammar.OverlongAccepted`: two bytes that are accepted and are not UTF-8.
- Keys of the tree that are numerals are read as array indices modulo 2^64 (`helper-strings.h:13`).
  `Tree.IndexExact`: the index is the number if and only if that is below 2^64.
  `Tree.IndexWraps`: the numeral of 2^64 names the first element.

The validator refuses every object with 8-byte offsets, since its member loop begins at the end of
the value (`velocypack/src/Validator.cpp:477`); this is part of the contract of
`Validator.Validator.Validate`.

## Model

| member | source | states |
|---|---|---|
| `RoundTrip.EncodingReadsBack` | velocypack/src/Builder.cpp:414-706 | Wherever the bytes of a finished value stand in a buffer, they read back as that value: member count, i-th member, value under every key and absence of every other key, in whichever layout and width was chosen, in all three padding modes; their size and type byte are their own. For every value tree with unique keys in each object whose lengths fit the widths chosen for them, which in two of the modes they always do. |
| `Layout.RoomyUnlessPadded` | velocypack/src/Builder.cpp:450-512 | Unless padding is used in any case every length fits the width chosen for it. |
| `RoundTrip.RoomyExact` | velocypack/src/Builder.cpp:450-512 | A value and all values inside announce their own sizes if and only if no compound with an index table, padded in any case, takes 256 to 261 bytes. |
| `RoundTrip.NoRoom` | velocypack/src/Builder.cpp:531-546 | Such a compound announces 256 bytes less than it has. |
| `RoundTrip.PaddedMisread` | velocypack/src/Builder.cpp:450-512 | An array of a string of 235 characters and a null, padded in any case, takes 256 bytes and announces none. |
| `Runs.EveryRunReadsBack` | velocypack/src/Builder.cpp:414-706 | Whatever legal sequence of open, key, add and close calls leads from an empty builder to one finished value, the buffer it leaves is the encoding of that value; if its lengths fit their widths it reads back as the value and its announced size is the length of the buffer. |
| `Runs.Execute` | velocypack/include/velocypack/Builder.h:544-669 | The builder carries out any legal sequence of calls without refusing one, and ends with the roots and open compounds the calls describe (hence, by its invariant, with exactly their bytes). |
| `Runs.CallsBuild` | velocypack/src/Builder.cpp:414-706 | For every value there is a legal run that builds it, from any state in which a value may come next, at any depth. |
| `Runs.Build` | velocypack/src/Builder.cpp:567-706 | Building any value with its own run on a new builder leaves exactly its encoding, which reads back as the value if its lengths fit their widths. |
| `Runs.RunUnique` | velocypack/src/Builder.cpp:567-706 | Along every legal run all finished values and all open objects keep unique keys. |
| `Builder.Builder.Close` | velocypack/src/Builder.cpp:567-706 | Closing turns the innermost compound into a finished value of its parent, keeps all outer levels (starts, offset lists, bytes), and reports NeedOpenCompound exactly when nothing is open. |
| `Builder.Builder.CloseCompact` | velocypack/src/Builder.cpp:367-412 | The compact layout is written exactly when the byte length fits 8 bytes of LEB128; otherwise nothing changes. |
| `Builder.Builder.CloseArray` | velocypack/src/Builder.cpp:414-565 | The bytes of an array layout: no table exactly if all members have one size, the width and place that `Choice.WidthIsLeast` and `Choice.MembersPlaced` pin down, 8-byte lengths without table and members moved down or padded as the options say. |
| `Builder.Builder.CloseObject` | velocypack/src/Builder.cpp:612-706 | The bytes of an indexed object: the width that `Choice.WidthIsLeast` pins down, members moved down or padded as the options say, index table sorted by key. |
| `Builder.Builder.SealEmpty` | velocypack/src/Builder.cpp:357-365 | An empty compound shrinks to one byte. |
| `Builder.Builder.NeedsIndexTable` | velocypack/src/Builder.cpp:423-448 | From the recorded starts alone the code decides exactly whether all members have the same size. |
| `Builder.Builder.HasLeadingNone` | velocypack/src/Builder.cpp:486-493 | Finished members never look like padding, so the scan for None bytes never forbids moving down. |
| `Builder.Builder.ShiftDown` | velocypack/src/Builder.cpp:494-512 | The memmove keeps what stands before, the members stand at their new place, the gap behind the header is zero and the offset list is shifted with them. |
| `Builder.Builder.WriteTable` | velocypack/src/Builder.cpp:516-527 | The nested loops append the index table, entry by entry, little endian. |
| `Builder.Builder.FixHeader` | velocypack/src/Builder.cpp:531-558 | Width in the type byte, byte length and member count are patched in; nothing else changes. |
| `Builder.Builder.StoreVar` | velocypack/include/velocypack/velocypack-common.h:172-179 | Stores the LEB128 form, groups ascending, and nothing else. |
| `Builder.Builder.StoreVarRev` | velocypack/include/velocypack/velocypack-common.h:166-172 | Stores the LEB128 form backwards from its last byte, and nothing else. |
| `Builder.Builder.Add` | velocypack/include/velocypack/Builder.h:521-571 | Adding a scalar: recorded as a member, taken as a key or as the value behind a key; KeyMustBeString exactly for a non-string where a key is due, and then nothing changes. |
| `Builder.Builder.Open` | velocypack/include/velocypack/Builder.h:646-669 | Opening a compound: NeedOpenArray exactly where a key is due; otherwise a new level with an empty offset list, and outer levels untouched. |
| `Builder.Builder.AddCompoundValue` | velocypack/include/velocypack/Builder.h:633-644 | Type byte and eight reserved zero bytes; a new level on the stack. |
| `Builder.Builder.ReportAdd` | velocypack/include/velocypack/Builder.h:689-692 | Records the start of the next member relative to its compound. |
| `Builder.Builder.SetScalar` | velocypack/src/Builder.cpp:752-930 | Appends exactly the encoding of a scalar. |
| `Builder.Builder.AppendUInt` | velocypack/include/velocypack/Builder.h:708-719 | Appends the least number of little-endian bytes, with the byte count patched into the type byte afterwards. |
| `Builder.Builder.AppendInt` | velocypack/include/velocypack/Builder.h:737-753 | Appends the shortest two's complement form. |
| `Builder.IntLength` | velocypack/include/velocypack/Builder.h:722-735 | The byte count of the source is the least width whose two's complement range holds the number. |
| `Format.IntWidthLeast` | velocypack/include/velocypack/Builder.h:722-735 | No smaller two's complement width would do. |
| `Format.UIntWidthLeast` | velocypack/include/velocypack/Builder.h:708-719 | No smaller unsigned width would do. |
| `Builder.AddKeepsShape` | velocypack/include/velocypack/Builder.h:553-571 | Completing a member moves no open compound and changes no recorded start of any level. |
| `Frames.CompleteBytes` | velocypack/src/Builder.cpp:567-706 | Completing a member appends exactly its encoding to its compound and changes nothing recorded. |
| `Frames.AddBytes` | velocypack/include/velocypack/Builder.h:553-571 | Finishing a value appends its encoding, at top level or inside the innermost compound. |
| `Layout.CompactLengthIsExact` | velocypack/src/Builder.cpp:371-382 | After the one-step correction the byte length counts itself: its LEB128 length is the space reserved for it. |
| `Builder.CompactSteps` | velocypack/src/Builder.cpp:371-382 | The size computed step by step is that length. |
| `Layout.CompactReads` | velocypack/src/Builder.cpp:384-408 | Reading the length forwards and the count backwards returns both, and the members stand between them. |
| `RoundTrip.WidthSuffices` | velocypack/src/Builder.cpp:450-468 | Where the length fits, the chosen width is wide enough for byte length, count and every offset, and the header always fits before the members. |
| `Choice.WidthIsLeast` | velocypack/src/Builder.cpp:450-468 | The fields of a finished array or object, neither empty nor compact, are as narrow as they can be: of 1, 2 and 4 bytes the least width that holds what is to be counted (with wider fields than one byte the reserved header counts in full), 8 bytes if none does. Only an array without table gets 8 bytes for the sake of padding, and always if padding is used in any case. |
| `Choice.LayoutChosen` | velocypack/src/Builder.cpp:367-565 | Which layout a finished array or object has, read off its first byte: empty, compact, without table or with one, each if and only if its condition holds. |
| `Choice.MembersPlaced` | velocypack/src/Builder.cpp:470-562 | Where the members stand, that only zeros stand between header and members, and how long the whole is: the header is moved down for one-byte fields unless padding is used in any case, for two-byte fields only without padding. |
| `RoundTrip.WalkReaches` | velocypack/src/Slice.cpp:530-551 | The sequential walk over a compact compound reaches the start of every member. |
| `RoundTrip.ArrayReads` | velocypack/src/Slice.cpp:435-492 | Whatever array layout was chosen: the member count and every member at its position. |
| `RoundTrip.ObjectReads` | velocypack/src/Slice.cpp:435-492 | Whatever object layout was chosen: the member count and every pair exactly once; by ascending key if there is a table. |
| `RoundTrip.ObjectGet` | velocypack/src/Slice.cpp:190-263 | Looking up a key finds the value stored under it; any other key is reported absent. |
| `RoundTrip.IntReads` | velocypack/src/Slice.cpp:266-317 | Every signed 64-bit number reads back from its shortest form, with the size its type byte announces; read as unsigned it is out of range if and only if it is negative. |
| `RoundTrip.UIntReads` | velocypack/src/Slice.cpp:320-352 | Every unsigned 64-bit number reads back; read as signed it is out of range if and only if it is 2^63 or more. |
| `RoundTrip.ShortestInt` | velocypack/include/velocypack/Builder.h:491-502 | No slice of a signed type that reads as the same number is shorter than the one the builder writes. |
| `RoundTrip.ShortestUInt` | velocypack/include/velocypack/Builder.h:504-512 | No slice of any type that reads as the same unsigned number is shorter. |
| `RoundTrip.ShortestString` | velocypack/src/Builder.cpp:898-924 | No slice of a string with the same bytes is shorter. |
| `RoundTrip.StringReads` | velocypack/include/velocypack/Slice.h:651-679 | Short and long strings read back, with their length. |
| `Bytes.ReadVarOfVar` | velocypack/include/velocypack/velocypack-common.h:143-160 | Reading a LEB128 number forwards undoes storing it. |
| `Bytes.ReadVarRevOfVarRev` | velocypack/include/velocypack/velocypack-common.h:143-160 | Reading it backwards undoes storing it backwards. |
| `Bytes.NumberOfLE` | velocypack/include/velocypack/velocypack-common.h:205-250 | The little-endian bytes of a number, read back, give it, modulo the width for negative numbers. |
| `SortIndex.SortObjectIndexShort` | velocypack/src/Builder.cpp:293-314 | The table comes out as a permutation ordered by key bytes. |
| `SortIndex.SortObjectIndexLong` | velocypack/src/Builder.cpp:316-355 | The table built from collected names comes out as a permutation ordered by key bytes, too. |
| `SortIndex.ShortTableLessIsLess` | velocypack/src/Builder.cpp:297-312 | The comparator of short tables, fast path and slow path, is the order by key bytes and then length. |
| `SortIndex.LongTableLessIsLess` | velocypack/src/Builder.cpp:337-349 | So is the comparator of long tables. |
| `SortIndex.SortingIsSortedStarts` | velocypack/src/Builder.cpp:293-355 | With unique keys the sorted table is determined: whatever algorithm sorts, the result is the one prescribed. |
| `Sorting.SortedIsUnique` | velocypack/src/Builder.cpp:293-355 | Entries sorted by key are determined by their multiset. |
| `Sorting.TableOrder` | velocypack/src/Builder.cpp:293-355 | The table is a permutation of the member starts in strictly ascending order of the keys. |
| `Search.Get` | velocypack/src/Slice.cpp:190-263 | Looking up a key finds the first member with the key, present or absent, by whichever of the four ways (single member, compact walk, linear, halving), unless the way is halving and a comparison it makes cannot be relied on; by halving it returns in every case what halving with the source's comparison leads to. InvalidValueType for anything but an object. |
| `Search.SearchObjectKeyLinear` | velocypack/src/Slice.cpp:554-587 | Linear search returns the first member with the key, or none. |
| `Search.SearchObjectKeyBinary` | velocypack/src/Slice.cpp:591-633 | For every attribute and any string keys it terminates and returns what halving with the source's comparison leads to; on a table in key order that is what linear search returns, for every attribute for which the comparisons it makes can be relied on. |
| `Search.FindExact` | velocypack/src/Slice.cpp:591-633 | Halving ascending keys gives the place of the attribute, or nothing if it is not there, if and only if the comparisons it makes can be relied on: with the attribute present each one agrees with the order, with the attribute absent none takes a key for it. |
| `Search.HalvingExact` | velocypack/src/Slice.cpp:591-633 | In an object with its table in key order, what halving locates is what scanning finds if the comparisons can be relied on, and only then unless two keys lead to one value. |
| `Search.AgreeingKeys` | velocypack/src/Slice.cpp:591-633 | It is enough that each key compares with the attribute as the order of the table has it. |
| `Search.ShortKeysAgree` | velocypack/src/Slice.cpp:392-404 | It does for keys and attributes below 2 GiB. |
| `Search.SearchCanFail` | velocypack/src/Slice.cpp:591-633 | Four ascending keys, the second of 4 GiB of zero bytes, among which halving stops at the second when asked for the first, which is empty. |
| `Search.ConfusingTable` | velocypack/src/Builder.cpp:293-355 | An object with these keys, as the builder leaves it, has them in its table in this order and is searched by halving. |
| `Search.ConfusingLookup` | velocypack/src/Slice.cpp:190-263 | Looking up the empty key in it returns the value stored under the other key. |
| `Search.GetNthOffsetFromCompact` | velocypack/src/Slice.cpp:530-551 | The loop over a compact compound finds the n-th member, or IndexOutOfBounds. |
| `Search.GetFromCompactObject` | velocypack/src/Slice.cpp:420-432 | The walk over the pairs of a compact object finds the first pair with the key, or none. |
| `Search.CompareStringExact` | velocypack/src/Slice.cpp:392-404 | The comparison agrees with the order of the table exactly when the keys differ within their common length or narrowing the 64-bit length difference to int keeps its sign. |
| `Search.CompareStringCanFail` | velocypack/src/Slice.cpp:403 | A key of 4 GiB of zero bytes compares equal to the empty attribute. |
| `Search.BuiltObjectSearchable` | velocypack/src/Builder.cpp:567-706 | Every object a builder leaves, its lengths fitting their widths, meets what the searches need: each pair is reachable and has a string key, a table is in key order, each key leads to a value of its own, and the keys are those of the members. |
| `Search.BuiltObjectGet` | velocypack/src/Slice.cpp:190-263 | In a built object the search the code picks is right if and only if it goes another way than halving or the comparisons it makes can be relied on; then it gives a position that reads back as the value stored under the key, and nothing for other keys. Keys that each compare in the order of the table are enough. |
| `Validator.Validator.Validate` | velocypack/src/Validator.cpp:70-199 | Accepts every value a builder can finish with lengths that fit, compact parts below 4 GiB and no 8-byte object, at exactly its length (or within it for a sub-part), and a string exactly if its bytes fit and, if asked for, are UTF-8. What it accepts fits and is sound at every depth: members tile the data area, their number is the announced one, the reader finds them where the validator did, every index entry is the start of a member, and each nested value, by its 64-bit size, lies inside its parent. What is accepted is contained with all announced bytes if and only if no length the members lead to wraps around. Every value inside has a type that is allowed: one the format knows, no BCD, no External under disallowExternals, no Custom with an empty payload. A value that is not a string, array or object is accepted if and only if its size fits, its type is allowed and a Custom payload length can be read; unknown types, BCD and forbidden Externals are refused with their own errors. 8-byte objects and misread compact values are refused. The nesting level is restored. |
| `Validator.Validator.ValidateCustom` | velocypack/src/Validator.cpp:155-194 | A Custom value passes if and only if its payload length, where it has one, can be read and is not 0. |
| `Validator.Validator.ValidateArray` | velocypack/src/Validator.cpp:201-216 | The same for arrays, by type byte. |
| `Validator.Validator.ValidateObject` | velocypack/src/Validator.cpp:391-403 | The same for objects; sorted and unsorted heads of 8-byte objects are refused. |
| `Validator.Validator.ValidateCompactArray` | velocypack/src/Validator.cpp:218-245 | Accepts finished compact arrays below 4 GiB; in accepted ones with tidy lengths the announced number of members stands between the two lengths, each validated and found by the reader. |
| `Validator.Validator.ValidateListMembers` | velocypack/src/Validator.cpp:239-244 | The loop over the members of a compact array: each one validated in what is left. |
| `Validator.Validator.ValidateUnindexedArray` | velocypack/src/Validator.cpp:247-307 | Accepts finished arrays without table, and arrays of one string that passes; accepted ones consist of that many sound members of one size. |
| `Validator.Validator.ValidateIndexedArray` | velocypack/src/Validator.cpp:309-389 | Accepts finished arrays with a table; in accepted ones, of all four widths, the members tile the data area and each entry is the start of its member. |
| `Validator.Validator.ValidateCompactObject` | velocypack/src/Validator.cpp:405-446 | Accepts finished compact objects below 4 GiB; in accepted ones with tidy lengths the announced number of pairs fills the bytes between the two lengths, each key a key and each value validated. |
| `Validator.Validator.ValidateListPairs` | velocypack/src/Validator.cpp:425-445 | The loop over the pairs of a compact object: keys and values validated in what is left, and where they end. |
| `Validator.Validator.ValidateIndexedObject` | velocypack/src/Validator.cpp:448-596 | Accepts finished objects with 1, 2 or 4 byte offsets; in accepted ones the pairs tile the data area and every entry is the start of a pair; 8-byte objects are refused. |
| `Validator.Validator.ValidateString` | velocypack/src/Validator.cpp:102-123 | Accepts a string exactly if its bytes, counted in 64 bits, fit and, if that is asked for, are UTF-8. |
| `Validator.OverlongAccepted` | velocypack/src/Validator.cpp:109-111 | Without UTF-8 checking an array of 11 bytes is accepted whose string announces 2^64 - 1 characters. |
| `Validity.ContainedExact` | velocypack/src/Validator.cpp:70-199 | In a sound value every slice the members lead to lies inside its parent with all the bytes it announces if and only if for none of them adding the header to the announced length wraps around 2^64. |
| `Validity.WrapsOnlyWide` | velocypack/src/Validator.cpp:102-117 | Only type bytes with a length of 8 bytes or a LEB128 length can announce so much. |
| `Validity.OverlongNotContained` | velocypack/src/Validator.cpp:109-111 | The string of that array announces more than the array holds. |
| `Validity.TidyFields` | velocypack/src/Validator.cpp:218-244 | A compact compound whose lengths are below 4 GiB, in no more groups than needed and without overlap, has its length, the number and the place of its members read alike by validator and reader. |
| `Validity.BuiltIsTidy` | velocypack/src/Builder.cpp:367-412 | The builder leaves such lengths in every compact compound below 4 GiB. |
| `Validator.ReadVariableLengthValue` | velocypack/src/Validator.cpp:40-61 | Forwards it stops at the end of the buffer; the value is the sum of groups shifted in 32 bits, modulo 2^64. |
| `Validity.VariableLengthExact` | velocypack/src/Validator.cpp:45-49 | Because the groups are shifted before they are widened, a length is read right if and only if it is below 2^32, and never too large. |
| `Validity.GroupsAreVar` | velocypack/src/Validator.cpp:40-61 | A LEB128 number below 2^32 is read right by the validator whatever groups it is stored in, forwards and backwards. |
| `Validity.HugeArrayMisread` | velocypack/src/Validator.cpp:218-245 | A finished compact array of one 4 GiB string is one that is refused so. |
| `Validity.HugeCompactMisread` | velocypack/src/Validator.cpp:218-245 | Every finished compact value from 4 GiB up to 32 GiB has its length misread as what is left of it after multiples of 4 GiB; it is refused if that is below 4 or if the last byte so reached is zero. |
| `Validity.LongStringCheckExact` | velocypack/src/Validator.cpp:109-111 | The comparison that checks a long string agrees with unbounded arithmetic exactly when adding the header does not wrap around. |
| `Validity.BuiltIsReady` | velocypack/src/Builder.cpp:567-706 | A built value stands where it was built with its own size and would be accepted in any room that holds it. |
| `Validity.ArrayPlanned` | velocypack/src/Builder.cpp:414-565 | The three array layouts a builder leaves, in the terms the validator checks. |
| `Validity.ObjectPlanned` | velocypack/src/Builder.cpp:612-706 | The two object layouts a builder leaves, with the permutation its table is. |
| `ValidatorRoundTrip.EveryRunFinishes` | velocypack/src/Validator.cpp:70-199 | Whatever legal calls lead to one value with lengths that fit, compact parts below 4 GiB and no 8-byte object, the bytes they leave are a finished value alone in the buffer, which is what the validator accepts. |
| `ValidatorRoundTrip.BuildAndValidate` | velocypack/src/Validator.cpp:70-199 | Building such a value and validating the buffer at its exact length succeeds. |
| `Utf8.IsValidUtf8` | velocypack/src/Utf8Helper.cpp:56-68 | The table-driven automaton accepts exactly the concatenations of well-formed sequences of section 4 of RFC 3629. |
| `Utf8.CompletesIsWellFormed` | velocypack/src/Utf8Helper.cpp:37-52 | From the start state of the table exactly the well-formed strings are completed. |
| `Utf8.CharIsScalar` | velocypack/src/Utf8Helper.cpp:37-52 | A well-formed sequence is the encoding of one scalar value: no overlong forms, no surrogates, nothing above U+10FFFF. |
| `Utf8.ScalarIsChar` | velocypack/src/Utf8Helper.cpp:37-52 | Every scalar value has a well-formed sequence, which decodes to it. |
| `Utf8Simd.ValidateUtf8FastSse42` | velocypack/src/asm-utf8check.cpp:179-209 | The 16-lane validator accepts exactly the well-formed strings, hence what the automaton accepts: every length, every position of a sequence across block borders. |
| `Utf8Simd.BlockStep` | velocypack/src/asm-utf8check.cpp:156-177 | One block: if the state handed over is right and errors so far are exact, so are the state and the errors after the block. |
| `Utf8Simd.LaneError` | velocypack/src/asm-utf8check.cpp:156-177 | What survives in a lane of the error mask: an earlier error or a byte that may not stand there given the bytes before it. |
| `Utf8Simd.CarryFromLanes` | velocypack/src/asm-utf8check.cpp:65-76 | Two saturating shifts over the lanes and the previous block see exactly the continuation bytes still owed, as long as nothing was wrong before. |
| `Utf8Simd.CarriesAre` | velocypack/src/asm-utf8check.cpp:65-76 | No lane overflows, so the carries are plain arithmetic. |
| `Utf8Simd.LaneChecks` | velocypack/src/asm-utf8check.cpp:48-138 | The four checks on a lane together are one condition on the byte, its predecessor and the carry. |
| `Utf8Simd.ScanIsWellFormed` | velocypack/src/asm-utf8check.cpp:78-138 | Checking byte by byte with these conditions accepts exactly the well-formed strings. |
| `Utf8Simd.PaddedWellFormed` | velocypack/src/asm-utf8check.cpp:188-199 | Zero bytes behind a string change nothing. |
| `Grisu.GenerateDigits` | velocypack/src/fpconv.cpp:145-202 | For 0 < lower < w < upper on one exponent in -60..-32: the digits and power denote a number in [lower, upper]; no multiple of a higher power of ten lies in (lower, upper]; no multiple of the last power in the interval is closer to w; no overflow of 64 bits, only decimal digits, within the buffer (18 digits for a width of at least 185). |
| `Grisu.FractionDigits` | velocypack/src/fpconv.cpp:179-201 | The same for the loop over the digits behind the decimal point, which ends while the powers of ten still fit 64 bits. |
| `Grisu.RoundDigit` | velocypack/src/fpconv.cpp:136-143 | Lowers the last digit to the multiple nearest to w within the interval, and no further than a digit allows. |
| `Grisu.DigitCount` | velocypack/src/fpconv.cpp:330 | An interval of width 185 needs at most 18 digits, any interval at most 21. |
| `Grisu.Outcome` | velocypack/src/fpconv.cpp:170-176 | Stopping at the first digit whose remainder falls below the width yields the shortest number. |
| `Grisu.FewSteps` | velocypack/src/fpconv.cpp:182-201 | At most 18 fractional digits are produced. |
| `Fpconv.Grisu2` | velocypack/src/fpconv.cpp:204-225 | For every positive finite double, with powers that are accurate and in range for the exponents that occur: at most 18 digits, and digits times the power of ten lies strictly between the midpoints to the neighbouring doubles, so it reads back as the double. No number with a higher power of ten is clear of the boundaries by 2^-60 of the value, which is what the roundings can cost, and none with the same power that is clear of them is nearer to the double by more than that. |
| `Fpconv.ExponentRange` | velocypack/src/fpconv.cpp:84-93 | Normalized doubles have exponents from -1137 to 960, so no other cached power is asked for. |
| `Fpconv.GetNormalizedBoundaries` | velocypack/src/fpconv.cpp:95-116 | The boundaries are normalized on one exponent, which is the exponent of the normalized number. |
| `Fpconv.Normalize` | velocypack/src/fpconv.cpp:84-93 | Bit 63 is set and the value stays. |
| `Fpconv.Multiply` | velocypack/src/fpconv.cpp:118-134 | The four partial products assemble the exact product rounded half up to its top 64 bits. |
| `Fpconv.BuildFp` | velocypack/src/fpconv.cpp:66-82 | Fraction and exponent of a double from its bits, denormal numbers included. |
| `Fpconv.NextDouble` | velocypack/src/fpconv.cpp:66-82 | Adjacent bit patterns are one unit in the last place apart, also across powers of two. |
| `Fpconv.UpperIsMidpoint` | velocypack/src/fpconv.cpp:95-107 | The upper boundary is the exact midpoint to the next larger double. |
| `Fpconv.LowerIsMidpoint` | velocypack/src/fpconv.cpp:109-113 | The lower boundary is the exact midpoint to the next smaller double if and only if the number is not the smallest normal one; there it lies above it. |
| `Fpconv.StrictlyBetween` | velocypack/src/fpconv.cpp:215-225 | The unit taken off both scaled boundaries makes up for both roundings. |
| `Fpconv.ShortestNearest` | velocypack/src/fpconv.cpp:204-225 | Shortest and nearest digits of the scaled, rounded interval are shortest and nearest for the double itself, up to the roundings. |
| `Fpconv.ProductNear` | velocypack/src/fpconv.cpp:118-134 | The rounded product of a 64-bit number and a cached power is off the exact one by less than one unit. |
| `Fpconv.SlackCovers` | velocypack/src/fpconv.cpp:204-225 | Two such units are less than 2^-60 of the value. |
| `JsonRoundTrip.DumpAndParse` | velocypack/src/Dumper.cpp:212-436 | Dumping a value and parsing the text leaves a buffer that, if the lengths in it fit their widths, reads back as the value: null, booleans, 64-bit integers, UTF-8 strings, arrays, objects; with or without pretty printing, slash escaping, unicode escaping, and either UTF-8 mode. |
| `Json.DumpParses` | velocypack/src/Parser.cpp:540-575 | On texts: parsing what the dumper prints gives the value back (a non-negative integer as unsigned) and nothing is left over. |
| `Json.ValueReads` | velocypack/src/Parser.cpp:540-575 | The same at any depth, behind any white space and in front of whatever may follow a value. |
| `Json.NumberReads` | velocypack/src/Parser.cpp:127-229 | A decimal number below 2^64, or a negative one from -2^63, reads back. |
| `JsonText.StringRoundTrip` | velocypack/src/Parser.cpp:231-421 | For every well-formed string and every option the scanner of the parser gives the string back. |
| `JsonText.EscapeReads` | velocypack/src/Dumper.cpp:212-325 | Escaped text unescapes to the characters, surrogate pairs to the four bytes of their code point. |
| `JsonText.SurrogatesLead` | velocypack/src/Parser.cpp:338-367 | A surrogate pair comes out as one four-byte sequence: the three bytes of the high surrogate are taken back. |
| `JsonGrammar.ParserIsGrammar` | velocypack/src/Parser.cpp:44-89 | On every text in which no surrogate pair is split: the parser gives a value if and only if the grammar of RFC 8259 derives that value with unique keys, as trees that do not mention the parser: white space anywhere it may stand, both cases of hexadecimal digits, every escape, 64-bit integers without leading zeros. Whatever no value derives is refused. |
| `JsonGrammar.DerivedIsGiven` | velocypack/src/Parser.cpp:540-575 | What the grammar derives the parser gives, on every text. |
| `JsonGrammar.GivenIsDerived` | velocypack/src/Parser.cpp:540-575 | What the parser gives the grammar derives, unless a string of the text splits a surrogate pair. |
| `JsonGrammar.SpelledReads` | velocypack/src/Parser.cpp:231-421 | The scanner reads every string the grammar spells to its end, and as what it stands for unless a surrogate pair is split. |
| `JsonGrammar.ReadIsSpelled` | velocypack/src/Parser.cpp:231-421 | Every string the scanner reads to its end is one the grammar spells. |
| `JsonGrammar.ReadIsUtf8` | velocypack/src/Parser.cpp:369-412 | A string read with the UTF-8 check is UTF-8 if and only if each of its unescaped characters is and no escaped half of a surrogate pair stands alone. |
| `JsonGrammar.OverlongAccepted` | velocypack/src/Parser.cpp:369-412 | The text of the two bytes C0 80 in quotes, an overlong form, is accepted with the check. |
| `JsonBulk.BulkCopyExact` | velocypack/src/Parser.cpp:246-262 | A string that section 7 of RFC 8259 lets end is read by the scanner with its bulk copy as that section has it if and only if no surrogate pair has characters between its halves that the bulk copy takes; one that is to be refused is refused alike. |
| `JsonBulk.SplitPairMisread` | velocypack/src/Parser.cpp:246-262 | A concrete text on which the two differ: a character between two surrogate escapes is lost. |
| `JsonBulk.ScanFate` | velocypack/src/Parser.cpp:231-421 | Whether and where a string ends does not depend on the bulk copy. |
| `Dumper.Dumper.DumpValue` | velocypack/src/Dumper.cpp:327-471 | Appends the text of the value and leaves the indentation as it was; fails exactly if some string ends inside a sequence. |
| `Dumper.Dumper.DumpString` | velocypack/src/Dumper.cpp:212-325 | Appends the escaped characters, which `JsonText.StringRoundTrip` reads back and the rows below pin down; fails exactly if the string ends inside a sequence. |
| `Dumper.Dumper.DumpInteger` | velocypack/src/Dumper.cpp:128-210 | Appends the decimal text, the smallest 64-bit number included. |
| `Dumper.Dumper.AppendUInt` | velocypack/src/Dumper.cpp:43-103 | The comparisons with powers of ten append the decimal digits without leading zeros. |
| `Dumper.Dumper.DumpUnicodeCharacter` | velocypack/src/Dumper.cpp:111-126 | Appends \uXXXX with upper-case hexadecimal digits. |
| `Dumper.Dumper.DumpArray` | velocypack/src/Dumper.cpp:348-377 | Members, separators and indentation of an array add up to its text. |
| `Dumper.Dumper.DumpObject` | velocypack/src/Dumper.cpp:378-413 | Members, separators and indentation of an object add up to its text. |
| `JsonOptions.EscapedIsAscii` | velocypack/src/Dumper.cpp:282-323 | With escapeUnicode every byte printed is below 0x80, whatever the string. |
| `JsonOptions.HighBytesCopied` | velocypack/src/Dumper.cpp:282-323 | Without it the bytes from 0x80 up are copied as they are and in their order. |
| `JsonOptions.SlashesEscaped` | velocypack/src/Dumper.cpp:258-264 | With escapeForwardSlashes a backslash stands before every slash. |
| `JsonOptions.SlashesBare` | velocypack/src/Dumper.cpp:258-264 | Without it none stands before a slash, in a string that has no backslashes itself. |
| `JsonOptions.SlashesCost` | velocypack/src/Dumper.cpp:258-264 | The backslashes before slashes are all that the option adds. |
| `JsonOptions.ShortestSpelling` | velocypack/src/Dumper.cpp:212-325 | With no options set nothing is escaped without need: of all spellings of a string that section 7 of RFC 8259 knows none is shorter than the one printed. |
| `JsonOptions.UpperCase` | velocypack/src/Dumper.cpp:111-126 | Escapes have upper-case hexadecimal digits, also those of control characters. |
| `JsonOptions.PrettyIsPlain` | velocypack/src/Dumper.cpp:347-413 | All that prettyPrint adds is white space outside string literals: without it the text is the one printed without the option. |
| `JsonOptions.PrettyIsLaidOut` | velocypack/src/Dumper.cpp:347-413 | With it a line ends behind each opening bracket and each comma outside literals and in front of each closing bracket, nowhere else; each line is indented by two spaces for each bracket that is open; and the only other spaces stand around colons, one on each side. |
| `Parser.Parser.Parse` | velocypack/src/Parser.cpp:44-89 | On every text: a value the grammar of RFC 8259 derives is given and built into the builder, and what is given is derived unless a surrogate pair is split; otherwise the error of the grammar function. Byte order mark skipped, nothing but white space behind the value. |
| `Parser.Parser.ParseJson` | velocypack/src/Parser.cpp:540-575 | On every text: white space, then the value its first byte announces, or the error of the grammar. |
| `Parser.Parser.ParseString` | velocypack/src/Parser.cpp:231-421 | On every text: the scanner's outcome, which `JsonGrammar.SpelledReads` and `JsonGrammar.ReadIsSpelled` tie to the grammar, and the builder holds the string with the short or the long header its length calls for. |
| `Parser.Parser.CopyPlain` | velocypack/src/Parser.cpp:241-261 | With 16 bytes or more left, the bulk copy takes what it may; the scanner's state is the one the bulk copy leads to. |
| `Parser.Parser.MakeRoom` | velocypack/src/Parser.cpp:263-269 | The switch to the long header moves the characters up by eight bytes. |
| `Parser.Parser.AppendUnicode` | velocypack/src/Parser.cpp:338-367 | A \uXXXX escape as UTF-8; a low surrogate behind a high one completes the pair. |
| `Parser.Parser.ParseNumber` | velocypack/src/Parser.cpp:127-229 | Sign, digits and their overflow: a 64-bit integer of the right kind, or the error. |
| `Parser.Parser.ScanDigits` | velocypack/include/velocypack/Parser.h:45-66 | Digits are added as long as they fit 64 bits; the overflow test is exact. |
| `Parser.Parser.ParseArray` | velocypack/src/Parser.cpp:423-457 | On every text: the elements of the grammar, or its error. |
| `Parser.Parser.ParseObject` | velocypack/src/Parser.cpp:459-538 | On every text: the members of the grammar, or its error; duplicate names are refused. |
| `Parser.Parser.SkipWhiteSpace` | velocypack/src/Parser.cpp:93-124 | Skips exactly the white space, whichever of its short cuts is taken. |
| `Parser.Parser.BulkCopy` | velocypack/src/asm-functions.cpp:40-64 | Copies the longest run of plain characters within the limit. |
| `Parser.Parser.BulkSkip` | velocypack/src/asm-functions.cpp:66-74 | Skips white space up to the limit or the first other byte. |
| `XxHash.StreamedXXH32` | velocypack/src/xxhash.cpp:524-618 | For every seed and every way of cutting the input into chunks, empty ones included, reset, updates and digest give the hash of one call. |
| `XxHash.StreamedXXH64` | velocypack/src/xxhash.cpp:985-1081 | The same for XXH64. |
| `XxHash.XXH32` | velocypack/src/xxhash.cpp:446-482 | The one-shot loop computes the hash: four lanes folded over whole stripes, merged, and the tail. |
| `XxHash.XXH64` | velocypack/src/xxhash.cpp:904-944 | The same for XXH64. |
| `XxHashLaws.Hash32Apart` | velocypack/src/xxhash.cpp:364-482 | Inputs of any one length that differ in exactly one byte have different XXH32 hashes, for every seed: each step is a bijection of the word it changes. |
| `XxHashLaws.Hash64Apart` | velocypack/src/xxhash.cpp:765-944 | The same for XXH64, where the byte stands behind the whole stripes, so for all inputs below 32 bytes. |
| `XxHashLaws.Seeds32Apart` | velocypack/src/xxhash.cpp:446-482 | On inputs too short for a stripe two seeds give two hashes. |
| `XxHashLaws.Seeds64Apart` | velocypack/src/xxhash.cpp:904-944 | The same for XXH64. |
| `XxHashKnown.Empty32` | velocypack/src/xxhash.cpp:446-482 | XXH32 of nothing with seed 0 is 0x02cc5d05. |
| `XxHashKnown.Text32` | velocypack/src/xxhash.cpp:446-482 | XXH32 of a text of 39 bytes, two stripes and a tail of words and bytes, is 0xe2293b2f. |
| `XxHashKnown.Empty64` | velocypack/src/xxhash.cpp:904-944 | XXH64 of nothing with seed 0 is 0xef46db3751d8e999. |
| `XxHashKnown.Text64` | velocypack/src/xxhash.cpp:904-944 | XXH64 of the same text is 0xfbcea83c8a378bf1. |
| `XxHashKnown.Seeded32` | velocypack/src/xxhash.cpp:446-482 | XXH32 of the first 16 bytes of the text with seed 20141025 is 0x79a8595a. |
| `XxHashKnown.Seeded64` | velocypack/src/xxhash.cpp:904-944 | XXH64 of its first 32 bytes with the same seed is 0xdf6fed36096dd8d8. |
| `XxHashKnown.Eight` | velocypack/src/xxhash.cpp:904-944 | XXH64 of its first 8 bytes, one step of the tail, is 0xfdfdea25e8683802. |
| `XxHash.FoldAppend` | velocypack/src/xxhash.cpp:538-599 | Folding stripes over the beginning and then over what was left with the rest is folding over all. |
| `XxHash.State32.Update` | velocypack/src/xxhash.cpp:538-599 | Buffering, completing a stripe, taking stripes directly and keeping the rest account for the whole input so far. |
| `XxHash.State32.Digest` | velocypack/src/xxhash.cpp:602-618 | The digest of what was seen is its one-shot hash, also when the 32-bit length has wrapped around. |
| `XxHash.State64.Update` | velocypack/src/xxhash.cpp:998-1056 | The same with 32-byte stripes. |
| `XxHash.State64.Digest` | velocypack/src/xxhash.cpp:1059-1081 | The same; the length of the tail comes from the total length. |
| `XxHash.FinalizeReroll32` | velocypack/src/xxhash.cpp:389-400 | The looping form of the tail. |
| `XxHash.FinalizeSwitch32` | velocypack/src/xxhash.cpp:401-444 | The fall-through switch computes the same as the loops. |
| `XxHash.FinalizeReroll64` | velocypack/src/xxhash.cpp:800-816 | The looping form of the tail. |
| `XxHash.FinalizeSwitch64` | velocypack/src/xxhash.cpp:817-902 | The fall-through switch computes the same as the loops. |
| `Tree.PathLaws` | node.cpp:89-95 | For every tree and path: get after set returns what was set; a second set overwrites the first; setting the present value changes nothing. Through padding of arrays, conversion of arrays to objects and replaced scalars. |
| `Tree.SetIsPut` | node.cpp:308-352 | set with its visitors and node_at_path is one recursion over the path. |
| `Tree.ListSetImpl` | node.cpp:161-185 | The loops of array set: pad with null up to a numeral, or become an object whose keys are the numerals. |
| `Tree.ListElsewhere` | node.cpp:161-172 | Writing under an index of an array, at any depth below it: the other elements stay, what was missing in front of it is null, and nothing comes behind it. |
| `Tree.ConversionKeeps` | node.cpp:174-183 | An array that becomes an object keeps its elements under their numerals. |
| `Tree.NumeralNames` | helper-strings.h:8-20 | The decimal numeral of an index is read as that index. |
| `Tree.StringToNumber` | helper-strings.h:8-20 | The loop over the digits computes the index a key is read as, or none. |
| `Tree.IndexExact` | helper-strings.h:8-20 | A key is read as an index if and only if it has nothing but digits; the index is the number they stand for if and only if that is below 2^64, otherwise what is left of it modulo 2^64. |
| `Tree.IndexWraps` | helper-strings.h:8-20 | The numeral of 2^64 is read as the index 0. |
| `Tree.GetElsewhere` | node.cpp:308-352 | A write is not seen along a path that parts from it at an object. |
| `Tree.PutsCommute` | node.cpp:308-352 | Writes along paths that part commute. |
| `Tree.StayApart` | node.cpp:308-352 | A write leaves two other paths apart. |
| `Tree.OrderDoesNotMatter` | node.cpp:354-363 | Any order of pairwise apart writes gives the same tree. |
| `Tree.EvolvingIsSame` | node.cpp:354-363 | Reading the inputs from the original tree or from the evolving one makes no difference. |
| `Tree.Transform` | node.cpp:354-363 | The loop applies every action to the value the original tree has at its path. |
| `Tree.TransformLaws` | node.h:242-246 | With paths that do not meet: independent of the order of the actions, equal to reading from the evolving tree, each operation's result at its path, and every path apart from all of them unchanged. |
| `Store.EveryInterleaving` | store.h:112-147 | For any number of threads and any interleaving of write, transact and read: the committed roots form one chain from the initial root, each the transform of its immediate predecessor. Every call that returned is explained by it: a read returned the root of its version, a write or transaction the root it committed there, a refused transaction nothing because its preconditions were not met there, none before the call began; and the calls of a thread, its reads among them, never go back in the chain. |
| `Store.WritesTakeEffect` | store.h:124-147 | In the root a call committed, with paths that do not meet, each path has what its operation made of what the root before had there, and along every other path the two agree. |
| `Store.PreconditionsDecide` | store.h:112-121 | A transaction that returned was committed if and only if each of its preconditions holds of what the root it was decided on has at the path. |
| `Store.FoldIsAll` | store.h:116 | The fold over the preconditions is true exactly if each holds of what the tree has at its path. |
| `Store.LaterCallsFollow` | store.h:112-147 | A call that begins after another returned, on whatever thread, takes effect at or behind its version. |
| `Store.RunInv` | store.h:112-147 | Every reachable state keeps the locks, the prepared roots, the chain and the account of returned calls consistent. |
| `Store.RootsKept` | store.h:127-147 | What a writer holds ready was made from the root it will replace; nobody sees a root half assigned. |
| `Store.OneWriter` | store.h:114-129 | Only the holder of the writers' mutex can be about to change the root. |
| `Store.HistoryGrows` | store.h:143-147 | No step removes or alters a committed root or the record of a returned call. |
| `Store.NoDeadlock` | store.h:112-147 | While a call is under way some thread can take its next step. |
| `Futures.EveryInterleaving` | futures.h:49-70 | In a chain built by then, with functions that return values or futures, under every interleaving: no assertion of transit fails, each continuation runs at most once, on the composed value, and only when value and continuation are both stored. |
| `Futures.EveryEnd` | futures.h:124-165 | An interleaving that can go no further has run each continuation exactly once, and the last future holds the composition of all functions. |
| `Futures.ResultsPassed` | futures.h:124-165 | At any time of any interleaving: a future behind function i holds a value only if the continuation with that function has run, and then it is what the function makes of what the continuation got; the first gets the first value. |
| `Futures.EveryRunEnds` | futures.h:124-165 | Every interleaving ends, after at most 10 steps for each of its 2n + 1 shared states. |
| `Futures.AdvanceSound` | futures.h:56-70 | No step of either side of the handshake breaks a shared state, whatever the other side is doing. |
| `Futures.InvKept` | futures.h:49-90 | Every step of every thread keeps the chain consistent. |
| `Futures.ValuePassed` | futures.h:124-149 | A continuation that ran passes its result to the next future, whose value had not been set before. |
| `Futures.FutureReturned` | futures.h:151-165 | A returned future gets its continuation exactly when the function was called. |

## Left out

Builder, format and slices:

- None members, External, Custom, BCD, Binary, UTCDate, MinKey, MaxKey and Illegal values, and attribute translation (integer keys): more cases of the same kind. The type and size tables of slices cover their type bytes.
- Duplicate keys in an object under construction, and `checkAttributeUniqueness` in the builder: what a search returns for a duplicate key depends on how `std::sort` orders equal elements.
- Builder.Builder.Close: requires that the innermost object has unique keys and that no key waits for its value, because of the line above and because the source leaves a broken object otherwise.
- Builder.Builder.CloseObject: requires unique keys, for the same reason.
- Builder.Builder.HasLeadingNone: is about members other than None, which the model leaves out.
- Memory: growth of the buffer, moves and copies of builders, scratch vectors. The buffer is a sequence that grows by zero bytes; positions are unbounded integers, and values are required to stay below 2^64 bytes where they are read back.
- Reading a byte outside a buffer gives 0 in the model; the source would read foreign memory.
- `std::sort` is an insertion sort with the contract of a sort by the comparator it is given.
- Adding an attribute name and its value in one call (`add(name, value)`) is the two calls it stands for; exceptions thrown by memory allocation and the clean-up behind them are left out.
- `hasKey`, `getKey`, adding whole slices or iterators, and `normalizedHash`.

Validator:

- Validator.Validator.Validate: makes no claim about accepted objects with unsorted tables beyond their size, because the source computes field widths of 16 bytes and more for them.
- Validator.Validator.ValidateCompactArray: makes no claim about the members of accepted arrays whose lengths are not tidy (`Validity.Tidy`), because there the reader looks for the members at other places than the validator, and none about bytes behind the last member, which the source does not check.
- Validator.Validator.ValidateCompactObject: makes no claim about the pairs of accepted objects whose lengths are not tidy, for the same reason.
- Validator.Validator.ValidateIndexedArray: makes no claim about 8-byte arrays with 2^61 members and more, whose table size wraps around.
- Validity.HugeCompactMisread: is about values below 32 GiB; above, some groups are shifted out and the length read has no such simple form.
- Widths above 8 for the heads of unsorted objects and shift counts of 32 and more for LEB128 groups are undefined in the source; the model drops high bytes and takes shift counts modulo 32.
- The offset table of the object check has one slot more than the source's, which stores the start of a pair beyond the announced number just before it refuses the object; stack buffer and heap are not told apart.

Number printing:

- Fpconv.Grisu2: takes the cached powers as a function that returns accurate powers in the range the source selects; the table of 87 powers and the search in it are not part of this model. Nearest and shortest are meant up to 2^-60 of the value, within the source's boundaries.
- Laying out digits and exponent as text (`emit_digits`), signs, zero, infinities and NaN.

JSON:

- JsonGrammar.ParserIsGrammar: leaves out texts in which a surrogate pair is split, about which `JsonBulk.BulkCopyExact` says what happens, and numbers with fractions or exponents or beyond 64 bits, which the model's parser does not read.
- Floating-point numbers, that is fractions, exponents and integers beyond 64 bits: the parser model reports them as `FloatingPoint`, where the source computes a double with `pow`. The printer takes the text of a double as a parameter.
- Parser.Parser.Parse: always closes the outermost compound; several values in one text, attribute translation, and parsing into a builder with open compounds are left out.
- Parser.Parser.ParseObject: always refuses duplicate names, as the source does with `checkAttributeUniqueness`; its default accepts them, which would leave objects with duplicate keys.
- Parser.Parser.ParseJson: reports floating-point numbers as an error, because they are left out.
- Parser.Parser.ParseNumber: reports floating-point numbers as an error, because they are left out.
- Dumper.Dumper.DumpValue: takes the text of a double as a parameter, because number printing ends with the digits.
- JsonOptions.PrettyIsPlain: and `JsonOptions.PrettyIsLaidOut` are about values without doubles, for the same reason.
- Error positions and messages of the parser; its errors are told apart by code.
- The printer works on the value a slice reads back as, not on the slice; its twenty comparisons with powers of ten are one loop, and its options for unsupported types are left out.
- The SSE versions of string copying and white space skipping; the portable versions stand for them.

UTF-8 and hashing:

- The AVX versions of the UTF-8 validator; the choice between versions at start-up.
- XXH3, and the variants of XXH32 and XXH64 by alignment and endianness; null pointers as input.
- XxHashLaws.Hash64Apart: is about bytes behind the whole stripes only, because merging the lanes of XXH64 mixes each of them in twice, which need not be a bijection.
- XxHash.StreamedXXH64: is about inputs below 2^64 bytes, the range of its length counter.

Tree, store, futures:

- Removal, that is null pointers as nodes and as results of operations, and sharing of subtrees; maps and lists are values.
- Different numerals for one array index (such as `1` and `01`): paths that part at an array are not counted as apart; about them `Tree.ListElsewhere` says what one write changes.
- `overlay`, `extract`, `fold` over other types than conditions, conversion to and from VelocyPack, and the typed operations.
- Store: `set` and `check` (one is `write` without reading, the other `read` and a test), time-to-live entries, and a mutex implementation. Fairness is not modelled: `Store.NoDeadlock` says some thread can move, not that each one will.
- Futures: values are integers; `reschedule` and functions without a result are left out; a function that returns a future that already holds its value is the case in which the producer is done before the attaching thread takes its first step.
- Futures.EveryInterleaving: lets a side count as finished once its continuation was called, while the nested calls run on as threads of their own, which allows more interleavings than the source has.
