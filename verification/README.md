# Verification of the block chain and its JSON library

This project models the parts of the repository that carry its promises and proves them in Dafny:

* **JSON values** (`include/json.hh`): `operator==`; `diff`, `patch`, JSON Pointers,
  `flatten` and `unflatten`; the CBOR and MessagePack encoders and decoders; `dump`, the re2c scanner, `get_string`
  and the parser, up to the grammar it accepts.
* **The signer** (`src/MyRSA.cpp`): key generation with the search for the exponent, `sign` and `verify`, on number theory
  proved from scratch (Bezout, Euclid's lemma, the binomial theorem, Fermat's little theorem, distinct prime moduli).
* **The chain** (`include/common.hpp`, `include/BlockChain.hpp`, `src/main.cpp`): the Merkle root, the search for a nonce,
  the class `BlockChain`, the generation and command loops, and saving and loading the chain file.
* **Web utilities** (`include/utility.hpp`): the lock counter `ScopeRunner` and query strings.

Code that works step by step is a method or a class with the source's loops and fields, proved against a specification
function of the same module; the theorems are lemmas about those functions. A throwing operation returns a `Result`
(`Results.dfy`). Strings are byte sequences, objects are maps iterated in the key order of `std::map` (`SortedKeys`),
and a floating-point number is its 64-bit pattern. Sizes and indices are unbounded unless a width decides the
outcome: `std::stoi`, the width classes of the binary formats, 64-bit numbers, the 32-bit indentation and the `int` block index
are modelled with their ranges.

SHA-256, Base64, the random primes, the random block data, the text of a floating-point number (`show`) and
the reading of one (`read`) are parameters.

## Results that differ from the documentation

* `diff` documents that `source.patch(diff(source, target)) == target` always holds. The code needs more: indices are
  read with `std::stoi`, so an array element beyond index 2^31 - 1 cannot be edited, and a NaN in the target equals nothing.
  `DiffPatchTheorem` gives the exact conditions and `DiffPatchCounterexample` a pair of values.
* `unflatten` documents that it restores every flattened value without empty arrays and objects. An object with the key "0"
  is rebuilt as an array if the entries below that key come first, and a NaN equals nothing. `UnflattenFlatten` gives the
  exact condition under `operator==`; `UnflattenCounterexample` shows that `{"0": true}` comes back as `[true]`.
* The binary decoders make infinity and NaN null, like every other way into a value. `CborRoundTrip` gives an equal value
  exactly if every float is finite; `CborInfinity` and `MessagePackInfinity` show the case of an infinity.
* Copying in a JSON Patch is to be an addition of the copied value (section 4.5 of RFC 6902). The code assigns: inside an
  array it overwrites an element. `CopyIsAdd` gives the exact condition, `CopyCounterexample` a patch that loses an element.
* `to_msgpack` writes no header for a string, array or object of 2^32 items or more; `MessagePackRoundTrip` gives a value
  back exactly without those, and an equal one exactly if every float is finite as well.
* Integers of different signedness are compared after a cast to the signed type, so 2^64 - 1 equals -1. The text and binary formats
  return a non-negative signed number as an unsigned one, which is equal under `operator==` (`CanonicalEquals`).
* `from_cbor` reads a negative number below -2^63 as a non-negative one (`NegativeNumber`).
* Section 4 of RFC 6901 allows only decimal indices in a pointer; the code also accepts "1x" (`LooseToken`).
* The key code does not test that the two primes differ; `RoundTripIffDistinct` shows that signing needs it. Such keys are
  modelled, and what is promised of signatures and linked chains is promised for signers that are `Sound`.
* The Merkle root does not bind the number of leaves (`RepeatedLastLeaf`).

## Model

| member | source | states |
|---|---|---|
| Json.EqualsReflexive | include/json.hh:5882-5955 | a value equals itself if and only if it holds no NaN at any depth |
| Json.EqualsNaNFree | include/json.hh:5882-5955 | whatever compares equal to some value holds no NaN |
| Json.CanonicalEquals | include/json.hh:5882-5955 | turning every non-negative signed number into an unsigned one, and every infinity and NaN into null, keeps the value equal if and only if every float in it is finite |
| Doubles.DoublesInOrder | include/json.hh:5921-5947 | the number a 64-bit pattern stands for: zero is the first, each pattern the next larger number, the gap doubles with the exponent, the highest bit is the sign |
| Doubles.FloatEqualsIff | include/json.hh:5921-5923 | two floating-point numbers are equal if and only if neither is a NaN and the patterns are the same or both zeros |
| Doubles.IntegerEqualsFloatIff | include/json.hh:5932-5947 | an integer equals a floating-point number if and only if that is the double nearest to it, the even one of two |
| Equality.EqualsIff | include/json.hh:5882-5955 | equal are exactly the values that are the same but for their numbers, with the same number at every place: integers modulo 2^64, doubles by pattern, an integer and the double nearest to it |
| Equality.EqualsSame | include/json.hh:5882-5955 | without numbers, equal values are the same value |
| Pointer.ReplaceSubstring | include/json.hh:12102-12114 | the in-place loop replaces the leftmost occurrence first and never looks into what it inserted |
| Pointer.EscapeToken | include/json.hh:12117-12123 | two passes of the in-place replacement give the escaped token |
| Pointer.UnescapeToken | include/json.hh:12126-12132 | two passes in the opposite order give the unescaped token |
| Pointer.EscapeStep | include/json.hh:12117-12123 | the two passes act byte by byte: '~' becomes "~0", '/' becomes "~1", the rest is kept (section 3 of RFC 6901) |
| Pointer.EscapeShape | include/json.hh:12117-12123 | an escaped token has no '/' and every '~' in it is followed by '0' or '1' |
| Pointer.UnescapeEscape | include/json.hh:12117-12132 | unescaping an escaped token gives it back, for every byte string |
| Pointer.EscapeUnescape | include/json.hh:12117-12132 | escaping an unescaped token gives it back if it was well escaped and had no '/' |
| Pointer.CheckEscapes | include/json.hh:12065-12079 | the loop over the '~' of a token accepts exactly the well-escaped tokens |
| Pointer.SplitPointer | include/json.hh:12029-12087 | the loop over the slashes computes the tokens or rejects the string |
| Pointer.SplitPrint | include/json.hh:11693-11701 | parsing the printed form of any token list gives the list |
| Pointer.PrintSplit | include/json.hh:12029-12087 | printing the tokens of any string that parses gives the string |
| Pointer.PrintInjective | include/json.hh:11693-11701 | different token lists are printed differently |
| Patch.GetChecked | include/json.hh:11888-11937 | the walk along the tokens reaches the value the pointer refers to, or fails where it does |
| Patch.WorkingCopy.OperationAdd | include/json.hh:12511-12572 | the working copy after "add"; on an error it is unchanged if the top element is missing, and else holds what `get_unchecked` had created |
| Patch.WorkingCopy.OperationRemove | include/json.hh:12575-12600 | the working copy after "remove", and the copy unchanged on every error |
| Patch.WorkingCopy.OperationReplace | include/json.hh:12664-12669 | the working copy after "replace", and the copy unchanged on every error |
| Patch.WorkingCopy.OperationCopy | include/json.hh:12688-12696 | the working copy after "copy", which assigns to what `get_unchecked` reaches or creates |
| Patch.WorkingCopy.OperationTest | include/json.hh:12698-12719 | "test" fails with domain_error on a different value and on an index or key out of range, and changes nothing |
| Patch.WorkingCopy.Step | include/json.hh:12609-12728 | one entry of a patch: member checks in the order of the code, then any of the six operations |
| Patch.PatchDocument | include/json.hh:12472-12731 | the loop over the entries computes the patched document or the first error |
| Diff.CommonElems | include/json.hh:12794-12802 | the first pass over two arrays collects the edits of the common elements in order |
| Diff.RemoveRest | include/json.hh:12807-12819 | inserting at a fixed position lists the removals from the highest index down |
| Diff.AddRest | include/json.hh:12821-12831 | the additions are listed in rising order |
| Diff.SourceMembers | include/json.hh:12838-12859 | the pass over the source's keys gives the nested edits and the removals |
| Diff.NewMembers | include/json.hh:12861-12875 | the pass over the target's keys adds exactly those the source lacks |
| Diff.DiffValues | include/json.hh:12765-12895 | the recursive comparison computes the specified edit list |
| Diff.DiffDocuments | include/json.hh:12765-12770 | the patch is the array of the edits from the root |
| Diff.SameType | include/json.hh:12777 | the comparison of types tells all eight types apart, the three kinds of numbers included |
| PatchLocality.ResolvePut | include/json.hh:11888-11937 | an edit at a path changes what is found there and nothing is lost when it is edited again |
| PatchLocality.ApplyAllConcat | include/json.hh:12609-12728 | a patch in two parts acts like the first part and then the second |
| PatchLocality.InChild | include/json.hh:12609-12728 | a run of operations below a child changes the parent in that child only |
| PatchLocality.UncheckedResolved | include/json.hh:11821-11886 | where a pointer resolves, `get_unchecked` reaches the same value as `at` and creates nothing |
| PatchEdits.AddElement | include/json.hh:12511-12572 | "add" at index i of an array anywhere in a document gives the value at i, the elements before it where they were and those after one further; it fails exactly beyond the end; nothing else changes |
| PatchEdits.RemoveElement | include/json.hh:12575-12600 | "remove" at index i takes away element i, keeps those before it and moves those after one down; it fails exactly outside the array; nothing else changes |
| PatchEdits.AddRemove | include/json.hh:12511-12600 | adding an element at any index and removing it again gives the document back |
| PatchEdits.RemoveAdd | include/json.hh:12511-12600 | removing an element at any index and adding it again gives the document back |
| PatchEdits.AddMember | include/json.hh:12534-12540 | "add" below an object sets that member and keeps all others |
| PatchEdits.RemoveMember | include/json.hh:12583-12594 | "remove" below an object takes away exactly that member, and fails if there is none |
| PatchEdits.BelowPrimitive | include/json.hh:12511-12600 | below a primitive "remove" does nothing, and "add" turns null into an object and fails the assertion otherwise |
| Indices.StoiReads | include/json.hh:11920 | `std::stoi` reads white space, at most one sign and a longest run of digits, ignores the rest, and rejects what an `int` cannot hold |
| Indices.StoiShape | include/json.hh:11920 | and nothing else is read as an index |
| Indices.DigitTokens | include/json.hh:11898-11921 | among tokens of digits exactly the decimal indices of the elements resolve in an array; a leading zero is a domain_error |
| Indices.LooseToken | include/json.hh:11920 | an index followed by other characters resolves as well |
| Indices.NegativeIndex | include/json.hh:3720-3732 | a negative index makes the array grow by 2^63 elements or more, or, for -1 and an empty array, by none, which is undefined |
| Indices.CopyCreates | include/json.hh:11821-11886 | a place below a missing member is created: an array filled with nulls up to the index for digits and "-", an object for any other token |
| Indices.CreatedKeeps | include/json.hh:11821-11886 | a failed "add" leaves every value but null where it was |
| Indices.MissingTop | include/json.hh:12520-12525 | with the top element missing "add" fails and changes nothing |
| PatchOperations.MoveIsRemoveAdd | include/json.hh:12671-12686 | if the source location exists, "move" is "remove" followed by "add" of what was removed, with the same errors |
| PatchOperations.CopyOverwrites | include/json.hh:12688-12696 | "copy" to a pointer that resolves is "replace" by the copied value |
| PatchOperations.CopyIsAdd | include/json.hh:12688-12696 | below an object "copy" is "add"; below an array it is if and only if the token stands for the end of the array, or is no index for either |
| PatchOperations.CopyCounterexample | include/json.hh:12688-12696 | copying index 0 of [true, false] to index 1 gives [true, true], where adding gives three elements |
| PatchOperations.TestIff | include/json.hh:12698-12719 | "test" passes if and only if the pointer resolves to an equal value |
| DiffPatch.DiffReaches | include/json.hh:12765-12895 | inside any document, the edits for a subtree succeed exactly if it is patchable and change only that subtree |
| DiffOutOfRange.DiffBlocked | include/json.hh:12765-12895 | below an index that `std::stoi` rejects, every non-empty edit list fails |
| DiffPatch.DiffPatchTheorem | include/json.hh:12737-12743 | for all values: patching with the diff succeeds if and only if the values are patchable, and the result equals the target if and only if the target holds no NaN |
| DiffPatch.SmallPatchable | include/json.hh:12737-12743 | values whose arrays have at most 2^31 elements are patchable |
| DiffPatch.DiffPatchInvariant | include/json.hh:12737-12743 | the documented invariant, for values without NaN and with arrays of at most 2^31 elements |
| DiffPatch.DiffPatchExact | include/json.hh:12737-12743 | for a target without numbers, patching with the diff gives the very target if and only if the values are patchable; an empty diff then means the same value |
| DiffPatch.DiffPatchCounterexample | include/json.hh:12737-12743 | the documented invariant fails for arrays of 2^31 + 1 and 2^31 nulls |
| Flatten.FlattenValue | include/json.hh:12141-12192 | the recursion that fills one object computes the specified entries |
| Flatten.UnflattenValue | include/json.hh:12199-12225 | the loop in key order stores every entry or stops at the first error |
| FlattenRoundTrip.FlattenAdds | include/json.hh:12141-12192 | flattening adds exactly one entry for each leaf, keyed by its printed path, and disturbs no other |
| FlattenRoundTrip.FlattenedLeaves | include/json.hh:12199-12225 | unflattening stores the leaves in the lexicographic order of their printed paths |
| FlattenRoundTrip.BuildArray | include/json.hh:11746-11800 | storing the elements in any order, such as "10" before "2", fills the gaps with null and ends with the array |
| FlattenRoundTrip.ZeroIndexFirst | include/json.hh:11756-11775 | the entries of index 0 come first among those of an array, so null becomes an array |
| FlattenRoundTrip.EqualBuild | include/json.hh:12199-12225 | a value rebuilt from the leaves and equal under `operator==` is the identical one |
| FlattenRoundTrip.UnflattenFlatten | include/json.hh:12388-12422 | the value comes back identical if and only if it has no empty container, no object whose "0" entries come first and no index beyond `std::stoi`; it comes back equal under `operator==` if and only if it also holds no NaN |
| FlattenRoundTrip.PlainFlattenable | include/json.hh:12388-12422 | in particular for values without empty containers and without a key "0" |
| FlattenRoundTrip.UnflattenCounterexample | include/json.hh:12388-12422 | the documented promise fails: {"0": true} comes back as [true], which is not equal |
| Rsa.MyRSA.constructor | src/MyRSA.cpp:64-71 | for all primes, equal ones and 2 and 2 included, the key equations hold and the exponent is the first odd number from 65537 on coprime to phi |
| Rsa.FindExponent | src/MyRSA.cpp:69-70 | the search ends for every phi of two primes, with the first odd number coprime to it |
| Rsa.EvenBound | src/MyRSA.cpp:69-70 | some odd number from 65537 on is coprime to an even phi, and to 1: a multiple of phi plus 1 |
| Rsa.TotientEven | src/MyRSA.cpp:68 | phi of two distinct primes is even and at least 2 |
| Rsa.TotientSteps | src/MyRSA.cpp:68 | phi of any two primes is even, or 1 for 2 and 2 |
| Rsa.InverseMod | src/MyRSA.cpp:71 | an exponent coprime to phi has an inverse modulo phi |
| Rsa.MyRSA.Sign | src/MyRSA.cpp:125-135 | the signature is the encoded power of the hash residue; if the primes differ it is accepted for the message |
| Rsa.MyRSA.Verify | src/MyRSA.cpp:138-152 | accepts exactly if the signature to the power of e is the digest of the message modulo n; if the primes differ, exactly the signatures that decode to the residue of `sign`, and another message's signature exactly if the two digests agree modulo n |
| Rsa.BytesRoundTrip | src/MyRSA.cpp:131 | the shortest byte string of a number decodes to it |
| Bytes.BytesValueFirst | src/MyRSA.cpp:122-143 | bytes are read as a number with the first byte the most significant |
| Rsa.ExponentsInverse | src/MyRSA.cpp:127-146 | the powers with e and with d modulo n are inverse to each other on all of [0, n) |
| Rsa.AcceptsIff | src/MyRSA.cpp:138-152 | a signature is accepted if and only if it decodes to the one residue that `sign` gives, modulo n |
| Rsa.AcceptsOther | src/MyRSA.cpp:116-152 | the signature of one message is accepted for another if and only if their digests are congruent modulo n |
| Rsa.SignedMessagesVerify | src/MyRSA.cpp:116-152 | every message's signature verifies, also when the hash shares a factor with n |
| Rsa.RoundTripIffDistinct | src/MyRSA.cpp:65-71 | with inverse exponents, signing and verifying works for every residue if and only if the primes differ |
| NumberTheory.EuclidLemma | src/MyRSA.cpp:65-71 | a prime that divides a product divides a factor |
| NumberTheory.BinomialTheorem | src/MyRSA.cpp:127 | the expansion of (a + 1)^n by Pascal's rule |
| NumberTheory.Fermat | src/MyRSA.cpp:127 | p divides a^p - a for every a |
| NumberTheory.RsaExponent | src/MyRSA.cpp:127-146 | exponents that are 1 modulo (p - 1)(q - 1) fix every residue modulo p q |
| Binary.Output.AddToVector | include/json.hh:6546-6590 | the shifted bytes are the big-endian two's complement of the number |
| Binary.GetWritten | include/json.hh:6626-6640 | reading back the bytes of a number gives the number |
| Binary.GetWrittenNegative | include/json.hh:6626-6640 | reading back a negative number with the sign restored gives the number |
| Widening.WidenExact | include/json.hh:7855-7897 | widening a finite half- or single-precision pattern, subnormal ones included, keeps its value and sign |
| Widening.WidenTop | include/json.hh:7855-7897 | the highest exponent widens to infinity or NaN |
| Widening.ReadHalf | include/json.hh:7855-7885 | two bytes are read as the half-precision number they stand for, infinity and NaN as null |
| Widening.ReadSingle | include/json.hh:7887-7897 | four bytes are read as the single-precision number they stand for, infinity and NaN as null |
| Cbor.WriteHead | include/json.hh:6917-6950 | the width class of a head, appended to the vector |
| Cbor.ToCbor | include/json.hh:6898-7150 | the encoder appends exactly the encoding and leaves what was there |
| Cbor.Decode | include/json.hh:7448-7916 | ends on every byte vector and start; on success the index has advanced and lies within the vector |
| Cbor.Input.FromCbor | include/json.hh:7448-7916 | the decoder with its index computes the specified value and index, nested and indefinite lengths and null for infinity and NaN included |
| Cbor.Input.Chunks | include/json.hh:7632-7640 | an indefinite string is the chunks up to the break byte |
| Cbor.Input.ElemsToBreak | include/json.hh:7729-7736 | an indefinite array is the items up to the break byte |
| Cbor.Input.MembersToBreak | include/json.hh:7829-7837 | an indefinite map is the pairs up to the break byte |
| CborRoundTrip.DecodeEncoded | include/json.hh:6898-7150 | an encoding standing anywhere in a vector decodes to the canonical value (infinity and NaN null), up to exactly its end |
| CborRoundTrip.CborRoundTrip | include/json.hh:7448-7916 | for all values, between any prefix and suffix: the decoded value is canonical, the index stands at the end of the encoding, and the value is equal to the original if and only if every float in it is finite |
| CborRoundTrip.CborInfinity | include/json.hh:268-287 | an encoded infinity comes back as null, after nine bytes |
| CborGrammar.DecodeItem | include/json.hh:7448-7916 | every item of the grammar, with heads of any width and with definite or open lengths, is read as its value up to exactly its end |
| CborGrammar.DecodeIff | include/json.hh:7448-7916 | for all byte vectors: decoding at an index gives a value and an end if and only if an item of the grammar with that value stands there and ends there |
| CborForms.OpenString | include/json.hh:7632-7640 | the chunks between 0x7F and the break byte are put together in their order |
| CborForms.OpenArray | include/json.hh:7729-7736 | any values between 0x9F and the break byte are the elements in their order |
| CborForms.OpenMap | include/json.hh:7829-7837 | the members between 0xBF and the break byte; the last value of a repeated key counts |
| CborForms.CountedMap | include/json.hh:7738-7827 | the same for a map of declared length, with a head of any width |
| CborForms.ShortestHead | include/json.hh:6898-7150 | the encoder uses the shortest head that holds the number |
| CborForms.NegativeNumber | include/json.hh:7502-7560 | a negative number is read as it is if and only if it is at least -2^63; below, it is two's complement and comes out non-negative |
| MessagePack.ToMessagePack | include/json.hh:6652-6886 | the encoder appends exactly the encoding |
| MessagePack.Decode | include/json.hh:7210-7432 | ends on every byte vector and start; on success the index has advanced and lies within the vector |
| MessagePack.Input.FromMessagePack | include/json.hh:7210-7432 | the decoder with its index computes the specified value and index, with null for infinity and NaN |
| MessagePackRoundTrip.DecodedEncodable | include/json.hh:7210-7432 | no byte vector decodes to a string or container of 2^32 items |
| MessagePackRoundTrip.MessagePackRoundTrip | include/json.hh:6652-6886 | between any prefix and suffix: decoding gives the canonical value with exact consumption if and only if all lengths are below 2^32, and a value equal to the original if and only if every float is finite as well |
| MessagePackRoundTrip.MessagePackInfinity | include/json.hh:268-287 | an encoded infinity comes back as null, after nine bytes |
| MessagePackGrammar.DecodeItem | include/json.hh:7210-7432 | every item in any of the formats is read as its value up to exactly its end |
| MessagePackGrammar.DecodeIff | include/json.hh:7210-7432 | for all byte vectors: decoding at an index gives a value and an end if and only if an item of the formats with that value stands there and ends there |
| MessagePackGrammar.ShortestUnsigned | include/json.hh:6652-6886 | a non-negative number is written in the shortest of its formats |
| MessagePackGrammar.ShortestNegative | include/json.hh:6652-6886 | a negative number is written in the shortest of its signed formats |
| MessagePackGrammar.ShortestHead | include/json.hh:6652-6886 | the head of a string, array or map is the shortest that holds its length |
| MessagePackGrammar.NoHead | include/json.hh:6652-6886 | from 2^32 on no head is written at all |
| Strings.EncodeIsChar | include/json.hh:9645-9707 | a code point is written as one character of the table in section 4 of RFC 3629, which decodes to it |
| Strings.CharIsEncode | include/json.hh:9645-9707 | every character of that table is what `to_unicode` writes for some code point that is no surrogate |
| Strings.ExtraSpace | include/json.hh:8097-8127 | the bytes by which escaping lengthens the string |
| Strings.WriteEscape | include/json.hh:8159-8240 | one byte of the input written into the buffer of backslashes, within bounds, the rest of it untouched |
| Strings.EscapeString | include/json.hh:8143-8248 | the pre-sized buffer is filled exactly and holds the escaped string |
| Strings.UnescapeEscapeText | include/json.hh:10975-11088 | `get_string` gives back what `escape_string` was given, for every byte string |
| Strings.UnescapeBody | include/json.hh:10975-11088 | a string of the grammar is read as UTF-8, or rejected with invalid_argument and no other error |
| Strings.UnescapeIffPaired | include/json.hh:11033-11080 | a string of the grammar is read without error if and only if each escape of a high surrogate is directly followed by one of a low surrogate and no other low surrogate is escaped |
| Escapes.SpellsIff | include/json.hh:11033-11060 | four hexadecimal digits in any case are read as the code unit they spell, the first digit the most significant |
| Escapes.ReadItems | include/json.hh:10975-11088 | any list of plain bytes and escapes (the eight letters, code units and surrogate pairs) is read as the bytes and the UTF-8 of the code points they stand for, in order |
| Escapes.ReadIff | include/json.hh:10975-11088 | `get_string` gives a text if and only if the string is such a list standing for that text |
| Escapes.WrittenItem | include/json.hh:8143-8248 | every byte is written as an item that stands for it, and as the shortest such item of a JSON text |
| Escapes.ControlText | include/json.hh:8218-8236 | the other control characters are written as \u00 and two lower-case digits |
| Strings.EscapeTextBody | include/json.hh:8143-8248 | escaped text is a string of the grammar if and only if the text is UTF-8 |
| Scanner.NulStops | include/json.hh:9965-9984 | no state reads past the closing NUL byte |
| Scanner.ScanMoves | include/json.hh:9773-10819 | every token is non-empty and, but for the end of input, lies within the text |
| Scanner.ItemRun | include/json.hh:10567-10601 | the automaton reads one item of the grammar, or the closing quote, or gives up |
| Scanner.ScanString | include/json.hh:10128-10413 | from a quote on, the token is a string if and only if a string of section 7 of RFC 7159 in well-formed UTF-8 stands there, and then it is that string; else an error of one byte |
| Scanner.ScanNumber | include/json.hh:9773-10819 | from a digit or a minus sign on, the token is the longest number of section 6 of RFC 7159 with its class; digits after a leading zero and a minus sign alone are errors of the stated length |
| Scanner.ScanTrue | include/json.hh:9773-10819 | from a 't' on, the token is the literal if and only if the whole word stands there, else an error of one byte |
| Scanner.ScanFalse | include/json.hh:9773-10819 | the same for "false" |
| Scanner.ScanNull | include/json.hh:9773-10819 | the same for "null" |
| Scanner.ScanUnsigned | include/json.hh:9773-10819 | a printed non-negative number is one token up to its end |
| Scanner.ScanNegative | include/json.hh:9773-10819 | a printed negative number is one token up to its end |
| Scanner.Lexer.Automaton | include/json.hh:9773-10819 | the loop over the states, with its marker for backtracking, computes the specified token |
| Scanner.Lexer.Scan | include/json.hh:9773-10819 | the token, its start and its end, after blanks |
| Scanner.BlanksBeforeToken | include/json.hh:9773-10819 | tab, line feed, carriage return and space, in any number, before a token make no difference, and a token begins at the first other byte |
| Scanner.Lexer.Escaped | include/json.hh:11033-11080 | one escape with its surrogate checks, read as `Escapes.ReadItems` says; reads only inside the token |
| Scanner.Lexer.GetString | include/json.hh:10975-11088 | the loop that copies whole runs computes the unescaped body |
| Printer.WriteDigits | include/json.hh:8266-8280 | truncating division yields the digits of numbers of both signs, the least significant first, in at most 20 bytes |
| Printer.NumToStr | include/json.hh:8254-8292 | the 64-byte buffer suffices and holds the decimal numeral, for every number from -2^63 to 2^64 - 1 |
| Printer.Stream.PrintClosing | include/json.hh:8454-8461 | taking the indentation back modulo 2^32 restores that of the container |
| Printer.Stream.PrintValue | include/json.hh:8415-8545 | the recursive printer appends exactly the specified text |
| Layout.DumpIsLayout | include/json.hh:8415-8545 | a line inside d containers begins with d times the step of spaces, modulo 2^32, a closing bracket stands one step further left, and lines break exactly there |
| Parser.ScanFits | include/json.hh:11396-11589 | what the scanner calls a string token is a string of the grammar between two quotes |
| Parser.RunNoString | include/json.hh:9773-10819 | only a quote begins a string token |
| Parser.ParseValue | include/json.hh:11396-11589 | the recursion ends on every text; on success the next token lies further on |
| Parser.Parser.ParseInternal | include/json.hh:11396-11589 | the recursive descent computes the specified value and next token, or the specified error |
| Parser.Parser.Elems | include/json.hh:11491-11511 | the loop over the elements of an array |
| Parser.Parser.Members | include/json.hh:11427-11467 | the loop over the members of an object; a repeated key is overwritten |
| Parser.Parser.ParseText | include/json.hh:11379-11393 | a whole text is one value and nothing else |
| ParserGrammar.TakesValue | include/json.hh:11396-11589 | the recursive descent on token lists takes every value of the grammar, whatever follows it |
| ParserGrammar.TakenValue | include/json.hh:11396-11589 | and what it takes is a value of the grammar |
| ParserGrammar.ValueFollows | include/json.hh:11396-11589 | on every text the parser succeeds exactly where that descent does, and stops at the same token |
| ParserGrammar.AcceptedIffValue | include/json.hh:11379-11393 | for all texts: parsing succeeds if and only if the tokens form one value of the grammar of RFC 7159, strings counting only if their surrogate escapes are paired |
| ParserGrammar.ValueUtf8 | include/json.hh:11396-11589 | every string and key of a parsed value is UTF-8 |
| ParserGrammar.AcceptedIsPrintable | include/json.hh:8415-8545 | every float-free value that the parser accepts is accepted again, as an equal value, from its printed form in any style |
| ParserValues.TreeParsed | include/json.hh:11396-11589 | wherever the tokens of a syntax tree stand, the parser gives the value of the tree (elements in order, the last value of a repeated key) and the token after it |
| ParserValues.ParseIff | include/json.hh:11379-11393 | for all texts: `parse` gives a value if and only if the tokens of the text are those of a syntax tree with that value |
| TextRoundTrip.ScanQuoted | include/json.hh:8498-8502 | a printed string is scanned whole if and only if it is UTF-8, and else is an error at its quote |
| TextRoundTrip.TokenIsQuoted | include/json.hh:10128-10413 | a string token at a printed string ends where that ends, at the first quote that is not escaped |
| TextRoundTrip.NumeralValue | include/json.hh:11259-11325 | a printed number is read back, including -2^63 and 2^64 - 1 |
| TextRoundTrip.ParseDumped | include/json.hh:8415-8545 | a value printed anywhere in a text parses to its canonical form up to exactly its end, or fails if a string in it is not UTF-8 |
| TextRoundTrip.TextRoundTrip | include/json.hh:8415-8545 | for every float-free value, compact or with any indentation: parsing the printed text gives an equal value if all strings and keys are UTF-8, else an error |
| Merkle.HashString | include/hash.hpp:14-28 | the stream gives the 64 hexadecimal digits of the digest |
| Merkle.HexInjective | include/hash.hpp:22-27 | different digests are printed differently |
| Merkle.HexAt | include/hash.hpp:22-27 | each byte is two lower-case digits, the higher one first |
| Merkle.GetMerkleRoot | include/common.hpp:25-52 | the level-by-level loop computes the recursive root, in the specified number of rounds |
| Merkle.RoundsIsLogarithm | include/common.hpp:33-49 | that number is the logarithm of the number of leaves to base 2, rounded up |
| Merkle.RepeatedLastLeaf | include/common.hpp:34-35 | for every odd list of three or more leaves, appending the last once more gives another list with the same root |
| Merkle.LevelBinding | include/common.hpp:33-49 | two different levels of equal length with the same root hash a collision, whatever leaves pad them |
| Merkle.MerkleBinding | include/common.hpp:25-52 | lists of equal length with the same root are equal, or two different strings with the same SHA-256 are exhibited, one hashed for each list |
| ChainBinding.ChainsBinding | include/BlockChain.hpp:105-130 | two linked chains of the same shape with the same last hash hold the same blocks, data included, or two different strings with the same SHA-256 are exhibited, one hashed for each chain |
| Merkle.FindHash | include/common.hpp:53-66 | the least nonce below 100000 whose hash leads with "00" and that hash, or failure if there is none |
| Merkle.LeadsIff | include/common.hpp:60 | a hash leads with "00" if and only if the first byte of the digest is zero |
| Merkle.FoundNonceIs | include/common.hpp:53-66 | what the search gives is determined by the header: the least nonce that mines it, or "fail" exactly if none below the limit does |
| Chain.BlockChain.constructor | include/BlockChain.hpp:35-89 | no block, or exactly the first block over the given data, its nonce the least one that mines it or "fail"; linked if the signer's primes differ |
| Chain.BlockChain.GetBlock | include/BlockChain.hpp:92-99 | the first block with the index; an error exactly if there is none |
| Chain.BlockChain.AddBlock | include/BlockChain.hpp:105-130 | the new block is appended exactly if its hash leads with "00" and its index is the length; else the chain is unchanged |
| Chain.LinkedExtends | include/BlockChain.hpp:110-118 | when one more block keeps a chain linked: index, contents, signature, latest hash and leading "00", each needed |
| Chain.AddKeepsLinks | include/BlockChain.hpp:105-130 | an accepted block keeps the chain linked if and only if it is the first or names the latest hash, which `addBlock` does not check |
| Chain.GenerateBlock | src/main.cpp:69-83 | one round adds a block if and only if some nonce below the limit mines it; a mined nonce is always accepted, and it is the least one |
| Chain.Generate | src/main.cpp:66-110 | every run gives a linked chain (indices, previous hashes, headers, hashes, leading "00", signatures) with the given data and least nonces, if the primes differ; its length is max(1, blockCount) unless some block cannot be mined |
| ChainRuns.ViewBlock | src/main.cpp:160-185 | whether the signature of the first block with the index is one for the hash of its header, an error exactly if there is none; on a linked chain every index in range is correct |
| ChainRuns.AddMessage | src/main.cpp:186-204 | a block with exactly the message is appended if and only if some nonce below the limit mines it, or the header with "fail" leads with "00"; else the chain is unchanged; links are kept |
| ChainRuns.CommandLoop | src/main.cpp:153-205 | the rounds leave exactly the specified chain and have shown exactly one result for each view; only the messages whose addition succeeds are appended, in order |
| ChainRuns.ViewedFirst | include/BlockChain.hpp:92-99 | what is shown is the first block with the index |
| ChainRuns.NextLeads | src/main.cpp:198-199 | the block made from the search's result is accepted if and only if a nonce was found or "fail" happens to lead with "00" |
| ChainRuns.RunAppends | src/main.cpp:153-205 | every run appends one block for each message whose addition succeeds, in order, and changes nothing else |
| ChainRuns.RunAddsAll | src/main.cpp:153-205 | the chain holds all the messages, one block each and in order, if and only if every addition succeeds |
| ChainRuns.RunKeepsLinks | src/main.cpp:153-205 | every run keeps a linked chain linked, also with the nonce "fail" |
| ChainRuns.RunShows | src/main.cpp:153-205 | every view shows, at its place in the list, what the chain of that moment gives |
| ChainRuns.RunShowsLinked | src/main.cpp:153-205 | in a run from a linked chain a view shows a correct signature exactly for the indices below the length of that moment, and an error for all others |
| ChainFile.ToJson | include/BlockChain.hpp:136-143 | the loop that assigns blocks by their index computes the JSON form, or the error of a negative index |
| ChainLoading.DataAny | include/BlockChain.hpp:136-143 | for any chain: saving succeeds if and only if no index is negative, and the array then holds at each index the last block with it, or null |
| ChainFile.ReplaceChain | include/BlockChain.hpp:145-177 | the chain and the outcome after emptying and refilling, also when a signature is refused or a member is missing |
| ChainFile.ReadBack | include/BlockChain.hpp:152-171 | a block is read back from its parsed JSON form |
| ChainFile.SavedChainLoads | include/BlockChain.hpp:136-177 | a saved chain whose indices are its positions is loaded as it was, cut before the first bad signature if verification is on; its file does not parse if some string is not UTF-8 |
| ChainFile.LinkedChainReloads | src/main.cpp:136-146 | a linked chain with UTF-8 strings is restored whole from its file, with or without verification |
| ChainLoading.ReplaceAny | include/BlockChain.hpp:145-177 | for any JSON value: the loaded blocks are exactly those stored, in order, up to the first that is malformed or, with verification, wrongly signed; the result is 1 if and only if that is as many as the length says |
| ChainLoading.LoadBlockIff | include/BlockChain.hpp:151-171 | a block is loaded if and only if all seven members are there with their types and, with verification, the signature fits the stored hash |
| ScopeRunner.StoppedForever | include/utility.hpp:331-338 | once the count is -1 it stays so and no lock is granted |
| ScopeRunner.StepKeepsInv | include/utility.hpp:298-340 | every step of every operation, spurious failures included, keeps the invariant |
| ScopeRunner.RunInvariant | include/utility.hpp:298-340 | over all interleavings the count is the number of live locks, or -1 with no live lock once a stop has won |
| ScopeRunner.NoLockAfter | include/utility.hpp:319-338 | after a stop has won no lock is alive for the rest of the run |
| ScopeRunner.StopIsFinal | include/utility.hpp:331-338 | once any call of `stop` has returned, no lock is alive ever after |
| ScopeRunner.DeniedOnlyAfterStop | include/utility.hpp:319-328 | `continue_lock` returns null only after a stop has won |
| ScopeRunner.StopCanWin | include/utility.hpp:331-338 | the exchange of `stop` can win if and only if none has won and no lock is alive |
| ScopeRunner.LockCanWin | include/utility.hpp:319-328 | the exchange of `continue_lock` can win if and only if no stop has won and the count is the one last seen, whatever the number of live locks |
| ScopeRunner.SharedLocks | include/utility.hpp:319-328 | for every n some run has n locks alive at once |
| QueryString.EncodeValue | include/utility.hpp:42-58 | the loop over the bytes computes the encoding |
| QueryString.DecodeValue | include/utility.hpp:61-81 | the index loop computes the decoding, a '%' too near the end taken literally |
| QueryString.DecodeEncode | include/utility.hpp:42-81 | decoding an encoded value gives it back if and only if each '%' in it, which the encoder leaves alone, is too near the end to be decoded |
| QueryString.EscapedIff | include/utility.hpp:49-51 | encoded are exactly the reserved bytes of section 2.2 of RFC 3986 and the digits |
| QueryString.EncodedForm | include/utility.hpp:43-52 | an encoded byte is '%' and its two upper-case hexadecimal digits |
| QueryString.CreateQuery | include/utility.hpp:87-97 | the loop with its flag joins the fields with '&' |
| QueryString.ParseQuery | include/utility.hpp:100-134 | the single pass with three positions splits at '&' and at the last '=' and drops fields without a name |
| QueryString.ParseCreate | include/utility.hpp:87-134 | parsing a created query string gives the fields back, in order, if and only if no name is empty or holds '&' and every value survives encoding |
| QueryString.ParseNames | include/utility.hpp:100-134 | a list of names without '=' is parsed as these names with empty values, in order |

## Left out

- Sockets, sessions, timeouts and resource dispatch (`include/client_http.hpp`, `include/server_http.hpp`, `include/requests.hpp`), `include/crypto.hpp` and `archive/`: not part of this model.
- SHA-256, Base64, the primality test, modular arithmetic of Crypto++ and the random generators: parameters, with the length of a digest and `decode(encode(x)) == x` as their only assumed properties.
- Rsa.MyRSA.constructor: does not model reading and writing the key file, because stored keys are not checked by the code at all.
- Patch.WorkingCopy.OperationTest: if "test" names a missing location and has no value either, the order of the two errors is left to the compiler by the code; the model reads the location first.
- Patch.WorkingCopy.OperationAdd: edits the document as a value; the references into the tree that the code updates in place, and aliasing between them, are not captured. `Step` and `OperationCopy` do not say what a failed copy leaves in the working copy, which `patch` then discards.
- Flatten.UnflattenValue: the reference that `get_and_create` returns is modelled as a function from the old to the new value.
- Cbor.Decode: the vector is assumed to have at most 2^63 - 1 bytes, as on every implementation.
- Patch.Unchecked: index -1 on an empty array is undefined behaviour (`operator[]` grows it by no element and reads past its end); this function, `Flatten.Store` and `ChainFile.Assign` then end in the error `Undefined`, which promises nothing about the code. Every other negative index is the length_error that it throws.
- Printer.Stream.PrintValue: the text of a floating-point number is a parameter, because it is printed with 15 digits and does not determine the number.
- Parser.Parser.ParseInternal: without callbacks; a number that is not an integer of its type's range is read by a parameter, and the locale is not modelled.
- Scanner.Lexer.Scan: the input is a byte sequence followed by NUL; refilling the line buffer of a stream and skipping its byte-order mark are not modelled.
- Merkle.GetMerkleRoot: does not model the overflow of its `int` loop index beyond 2^31 leaves.
- Chain.BlockChain.AddBlock: does not model writing the chain file after each block, nor an exception while doing so.
- Chain.BlockChain.GetLatestBlockHash: requires a block, because the code calls `back()` on the vector without a test.
- ChainRuns.CommandLoop: the commands are given as a list instead of being read from the console, and the signature of a viewed block is always verified, as with the option `verify_blocks`.
- ChainFile.ReplaceChain: an index that is a floating-point number ends in the error `NotModelled`.
- ScopeRunner.RunInvariant: the loops are modelled as the atomic steps they take, not as methods, because other threads act between any two of them; safety only: that the loops end is not promised, since a weak exchange may fail for ever, and the count is unbounded instead of a `long`.
- QueryString.ParseCreate: is about the list of fields in iteration order; the order of an unordered multimap and lookup without regard to case are not modelled.
- `include/Block.hpp` getters, `include/status_code.hpp`, console output and configuration files: nothing to prove.
