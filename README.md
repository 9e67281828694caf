# Verified model of the starter's utility and credential core

This project models, in Dafny, the self-contained logic of a TanStack Start
starter application:

- the hexadecimal codec `hex.encode` / `hex.decode` (`src/utils/hex.ts`),
  module `Hex`;
- password hashing with scrypt (`src/lib/scrypt.ts`): the constant-time
  comparison `constantTimeEqual`, the fixed `config`, `hashPassword`, which
  stores `saltHex:keyHex`, and `verifyPassword`, which parses that string
  again; module `Scrypt`;
- the list utilities `groupBy`, `flatten`, `flatMap`, `uniqBy` and `unionBy`
  (`src/utils/array.ts`), module `ArrayUtils`;
- the `ServerFnError` class and its default status table
  (`src/lib/server-fn-error.ts`), module `ServerFnErrors`;
- `Option` and `Result` (module `Results`), used for the error paths: where the
  source throws, the model returns `Failure(...)` or `None`.

Loops of the source are methods with loop invariants, each proved equal to a
function that states what it computes (`Hex.Encode` and `Hex.HexOf`,
`Hex.Decode` and `Hex.Decoded`, `Scrypt.ConstantTimeEqual` and
`Scrypt.Matches`, `ArrayUtils.GroupBy` and `ArrayUtils.Grouped`,
`ArrayUtils.UniqBy` and `ArrayUtils.Uniq`). The recursive closure of `flatten`,
which pushes into an array shared by all its calls, is the class
`ArrayUtils.Flattener` whose field `result` is that array. `ServerFnError` is a
class with immutable fields. Straight-line compositions (`hashPassword`,
`verifyPassword`, `flatMap`, `unionBy`) are functions or methods that call the
others. The lemmas then prove what the source promises about those functions:
round trips, partitions, order, first occurrences, the status table.

Inputs the code gets from outside are parameters: the 16 random salt bytes
(`Scrypt.SaltBytes`), the scrypt key derivation with its NFKC normalisation
(`Scrypt.KeyDerivation`, any function yielding 64 bytes) and the hashing
library's `hexToBytes` (`Scrypt.HexDecoder`, any function returning the bytes
or `None` where it throws). Results about a hash round trip hold for every key
derivation and for every `hexToBytes` that reads back lowercase hex
(`Scrypt.DecodesLowercaseHex`); `Scrypt.HexDecodeDecodesLowercase` shows that
the repository's own decoder is one.

Behaviour of the code worth knowing, which the model keeps:

- `hex.decode` accepts only lowercase digits: its test is
  `^[0123456789abcdef]+$` (`src/utils/hex.ts:60`), so text holding `A`-`F` is
  rejected (`Hex.UppercaseRejected`).
- `verifyPassword` passes the salt field to the key derivation as text, exactly
  as `hashPassword` did, and never decodes it (`src/lib/scrypt.ts:60,64`).
- `verifyPassword` takes the first two fields of `hash.split(':')` and ignores
  anything after a second `:` (`src/lib/scrypt.ts:60`, `Scrypt.VerifyFields`).
- A key field that `hexToBytes` cannot read fails with that library's own
  error (`Scrypt.VerifyError.KeyDecodingFailed`), not with the "Invalid
  password hash" error; only a missing or empty field gives the latter
  (`src/lib/scrypt.ts:61-65`).

## Model

| member | source | states |
|---|---|---|
| Hex.DigitValue | src/utils/hex.ts:19 | the value of a digit of the alphabet is below 16 and is its position in `0123456789abcdef` |
| Hex.HexDigitIsHex | src/utils/hex.ts:19 | every character of the alphabet passes the digit test and its value is its position |
| Hex.ToRadix16 | src/utils/hex.ts:42 | `toString(16)` gives at least one character, all from the alphabet |
| Hex.PadStart | src/utils/hex.ts:42 | `padStart` yields the target length (or the text's own when longer), ends with the text and is filled before it |
| Hex.ByteHex | src/utils/hex.ts:42 | the text appended for one byte is exactly two lowercase digits |
| Hex.ByteHexDigits | src/utils/hex.ts:42 | `toString(16)` padded to two places writes every byte as exactly two characters: its high digit, then its low digit |
| Hex.Encode | src/utils/hex.ts:34-44 | the loop over the bytes (with the early return for no bytes) yields `HexOf` of the data: the two digits of each byte, in input order |
| Hex.HexOfLength | src/utils/hex.ts:40-43 | the encoding of n bytes has 2·n characters |
| Hex.HexOfAt | src/utils/hex.ts:41-43 | characters 2i and 2i+1 of the encoding are the high and low digit of byte i, in input order |
| Hex.HexOfWellFormed | src/utils/hex.ts:40-43 | every encoding has even length and only lowercase hex digits |
| Hex.ParseInt16 | src/utils/hex.ts:65 | `parseInt(s, 16)` of k lowercase digits is a value below 16^k |
| Hex.ParsePair | src/utils/hex.ts:65 | `parseInt` of a two-digit pair is 16·high + low and fits in a byte |
| Hex.AllInClass | src/utils/hex.ts:60 | the class `[0123456789abcdef]` holds at every position exactly when every character is a lowercase digit |
| Hex.MatchesHexPattern | src/utils/hex.ts:60 | the regex `^[0123456789abcdef]+$` matches exactly non-empty text made only of lowercase digits |
| Hex.DecodePairs | src/utils/hex.ts:63-66 | well-formed text of length 2n yields n bytes |
| Hex.DecodePairsAt | src/utils/hex.ts:63-66 | byte i is the value of the pair at positions 2i and 2i+1 |
| Hex.DecodedCharacterised | src/utils/hex.ts:53-66 | decoding fails exactly on odd length or a character outside `0-9a-f`; otherwise text of 2n characters gives n bytes, byte i being the pair at 2i, 2i+1 (so empty text gives no bytes) |
| Hex.Decode | src/utils/hex.ts:53-66 | the early return, the two checks and the loop storing each parsed pair in a byte array of half the text's length compute `Decoded` |
| Hex.DecodeEncode | src/utils/hex.ts:41-66 | decoding the encoding of any bytes succeeds and gives those bytes back |
| Hex.EncodeDecodeAt | src/utils/hex.ts:41-66 | the two digits of pair i of decodable text come back when byte i of its decoding is encoded |
| Hex.EncodeDecode | src/utils/hex.ts:41-66 | encoding the bytes of any text that decodes gives that text back |
| Hex.UppercaseRejected | src/utils/hex.ts:60-62 | text holding any of `A`-`F` is rejected with "Invalid hexadecimal string" |
| Scrypt.GenerateKeyOptions | src/lib/scrypt.ts:30-44 | the options of every scrypt call: N = 16384 a power of two above 1, r and p within the limits of section 2 of RFC 7914, a 64-byte key, and a `maxmem` of `128 * N * r * 2` that covers the 128·r·(N + p) bytes scrypt works in |
| Scrypt.XorZero | src/lib/scrypt.ts:20 | the JavaScript XOR of two bit patterns is 0 exactly when they are equal |
| Scrypt.OrZero | src/lib/scrypt.ts:23-25 | the JavaScript OR of two bit patterns is 0 exactly when both are 0 |
| Scrypt.XorCommutes | src/lib/scrypt.ts:24-25 | XOR does not depend on the order of its operands |
| Scrypt.ConstantTimeEqual | src/lib/scrypt.ts:8-28 | the loop computes `Matches`, always runs max(|a|, |b|) rounds (no early exit), and for lengths below 2^32 answers true exactly when the arrays are equal |
| Scrypt.AccumulatorZero | src/lib/scrypt.ts:20-26 | after n rounds the accumulator is 0 exactly when the lengths agree modulo 2^32 and the first n positions agree |
| Scrypt.MatchesIsEquality | src/lib/scrypt.ts:8-28 | for lengths below 2^32 the comparison is true exactly when the two byte arrays are equal |
| Scrypt.DifferentLengthsNeverMatch | src/lib/scrypt.ts:20 | arrays of different lengths (below 2^32) leave a non-zero accumulator after any number of rounds |
| Scrypt.MatchesReflexive | src/lib/scrypt.ts:8-28 | every array compares equal to itself, whatever its length |
| Scrypt.AccumulatorSymmetric | src/lib/scrypt.ts:20-26 | the accumulator is the same with the two arrays swapped |
| Scrypt.MatchesSymmetric | src/lib/scrypt.ts:8-28 | the comparison does not depend on the order of its arguments |
| Scrypt.Split | src/lib/scrypt.ts:60 | `split(':')` gives at least one field, no field holds the separator, and joining the fields with it gives the text back |
| Scrypt.SplitWithoutSeparator | src/lib/scrypt.ts:60 | text without `:` splits into itself alone |
| Scrypt.SplitAtFirst | src/lib/scrypt.ts:60 | the first field ends at the first `:` and the rest is split on its own |
| Scrypt.HashPassword | src/lib/scrypt.ts:47-51 | the stored string is 161 characters: the 32-digit hex of the salt bytes, `:`, the 128-digit hex of the key derived from the password and that salt TEXT |
| Scrypt.VerifyPassword | src/lib/scrypt.ts:53-66 | splits on `:` and uses fields 0 and 1: "Invalid password hash" exactly when either is missing or empty, `hexToBytes`'s error exactly when the fields are present but the key field is unreadable, otherwise true exactly when the key derived from the salt text equals the decoded key (for keys below 2^32 bytes) |
| Scrypt.VerifyWithoutSeparator | src/lib/scrypt.ts:60-63 | a stored string without `:` fails with "Invalid password hash" |
| Scrypt.VerifyFields | src/lib/scrypt.ts:60-65 | for `salt:key` followed by nothing or a further `:`-field: an empty field is an invalid hash, an unreadable key is `hexToBytes`'s error, otherwise the result is the constant-time comparison of the key derived from the salt text with the decoded key |
| Scrypt.HexDecodeDecodesLowercase | src/lib/scrypt.ts:65 | the repository's own hex decoder reads back every encoding, so the assumption made of `hexToBytes` can be met |
| Scrypt.VerifyAgainstHash | src/lib/scrypt.ts:47-66 | against a string `hashPassword` stored, verification never fails and is true exactly when the candidate's derived key equals the stored one |
| Scrypt.VerifyHashedPassword | src/lib/scrypt.ts:47-66 | a password always verifies against its own stored hash |
| ArrayUtils.KeySetSnoc | src/utils/array.ts:41 | one more element adds exactly its key to the keys met |
| ArrayUtils.KeySetConcat | src/utils/array.ts:190-196 | the keys of a concatenation are those of its two parts |
| ArrayUtils.SubsequenceLength | src/utils/array.ts:43-47 | a subsequence is no longer than the sequence it is taken from |
| ArrayUtils.FilterSnoc | src/utils/array.ts:47 | one more element is appended to its own key's group and to no other |
| ArrayUtils.FilterAbsent | src/utils/array.ts:43-47 | a key no element has gets no elements |
| ArrayUtils.GroupedSnoc | src/utils/array.ts:43-47 | one more element creates its key's group when absent and is pushed at its end; other groups are unchanged |
| ArrayUtils.GroupBy | src/utils/array.ts:37-50 | the loop computes `Grouped`: for each key some element has, the elements with that key in array order |
| ArrayUtils.FilterKeys | src/utils/array.ts:41-47 | a group holds only elements of its own key |
| ArrayUtils.FilterCount | src/utils/array.ts:39-48 | a group holds each element of its key as many times as the array does |
| ArrayUtils.FilterContains | src/utils/array.ts:39-48 | every element is in the group of its own key |
| ArrayUtils.FilterSubsequence | src/utils/array.ts:39-48 | a group is a subsequence of the array: relative order is kept |
| ArrayUtils.GroupedPartitions | src/utils/array.ts:39-48 | a group exists exactly for each key produced; no group is empty; each element is in its key's group; groups are homogeneous, keep multiplicities and keep order |
| ArrayUtils.FilterSizesTotal | src/utils/array.ts:39-48 | over distinct keys covering every element's key, the group sizes add up to the array's length |
| ArrayUtils.GroupSizesAreFilterSizes | src/utils/array.ts:39-48 | the sizes of the result's groups are those of the per-key filters |
| ArrayUtils.GroupSizesSum | src/utils/array.ts:39-48 | listing each key of the result once, in any order, the group sizes sum to the array's length: every element is placed exactly once |
| ArrayUtils.FlatOne | src/utils/array.ts:77-84 | a one-element array flattens to its element's contents one level down when it is an array and depth remains, to itself otherwise |
| ArrayUtils.FlatSnoc | src/utils/array.ts:77-84 | one more element appends what it flattens to: its contents one level down when it is an array and depth remains, itself otherwise |
| ArrayUtils.Flattener.constructor | src/utils/array.ts:73-74 | the shared result starts empty and the floored depth is kept |
| ArrayUtils.Flattener.Recursive | src/utils/array.ts:76-85 | a call appends to the shared result exactly `Flat` of its array with `flooredDepth - currentDepth` levels left |
| ArrayUtils.Flatten | src/utils/array.ts:69-89 | `flatten(arr, depth)` returns `Flat(arr, depth)` |
| ArrayUtils.FlatConcat | src/utils/array.ts:76-85 | flattening a concatenation is the concatenation of the flattenings: left-to-right order is kept |
| ArrayUtils.FlatShallow | src/utils/array.ts:79-83 | with depth 0 or less the elements come back unchanged and in order |
| ArrayUtils.LeavesConcat | src/utils/array.ts:76-85 | the values of a concatenation are those of its parts, in order |
| ArrayUtils.FlatKeepsLeaves | src/utils/array.ts:76-85 | flattening to any depth neither loses, duplicates nor reorders a value |
| ArrayUtils.HeightSnoc | src/utils/array.ts:79 | the height of an array bounds that of its prefix and exceeds that of a last nested element |
| ArrayUtils.FlatDeep | src/utils/array.ts:76-85 | with a depth at least the array's nesting height the result is exactly its values, each as a plain element |
| ArrayUtils.FlatOpenedTwice | src/utils/array.ts:79-83 | one element opened by m levels and then by n more is that element opened by m + n levels |
| ArrayUtils.FlatTwice | src/utils/array.ts:76-85 | flattening by m levels and then by n is flattening by m + n levels |
| ArrayUtils.FlatOfLeaves | src/utils/array.ts:79-83 | an array holding no arrays is returned unchanged at any depth |
| ArrayUtils.FlattenOneLevelExample | src/utils/array.ts:62-64 | `flatten([1, [2, 3], [4, [5, 6]]], 1)` is `[1, 2, 3, 4, [5, 6]]`, for any six values |
| ArrayUtils.FlattenInnerExample | src/utils/array.ts:66-67 | one level opened in `[4, [5, 6]]` gives `[4, 5, 6]` |
| ArrayUtils.FlattenTwoLevelsExample | src/utils/array.ts:66-67 | `flatten([1, [2, 3], [4, [5, 6]]], 2)` is `[1, 2, 3, 4, 5, 6]`, for any six values |
| ArrayUtils.MapAll | src/utils/array.ts:117 | `arr.map(iteratee)` keeps the length and applies the iteratee at every position |
| ArrayUtils.FlatMap | src/utils/array.ts:111-120 | `flatMap` is `flatten` of the mapped array, and keeps every value of the mapped array in order |
| ArrayUtils.FlatMapConcat | src/utils/array.ts:111-120 | `flatMap` over a concatenation is the concatenation of the two results |
| ArrayUtils.FlatMapExample | src/utils/array.ts:103-106 | mapping each item to `[item, item]` with depth 1 gives each item twice, in order |
| ArrayUtils.UniqBy | src/utils/array.ts:150-166 | the loop over a key-to-element map with its insertion order computes `Uniq` |
| ArrayUtils.UniqKeySet | src/utils/array.ts:156-165 | the kept elements have exactly the keys of the whole array |
| ArrayUtils.UniqDistinct | src/utils/array.ts:156-165 | no two kept elements share a key |
| ArrayUtils.UniqSubsequence | src/utils/array.ts:156-165 | the kept elements are a subsequence of the input, so never more of them |
| ArrayUtils.UniqKeepsFirst | src/utils/array.ts:156-165 | an element whose key no earlier element has is kept |
| ArrayUtils.UniqFirstOccurrences | src/utils/array.ts:156-165 | the result's keys are pairwise distinct, it is a subsequence of the input and no longer, every input key is represented, and the first element with each key is the one kept |
| ArrayUtils.UniqPrefix | src/utils/array.ts:156-165 | what is kept of a prefix stays, unchanged, at the front when the array grows |
| ArrayUtils.UnionBy | src/utils/array.ts:190-196 | `unionBy` is `uniqBy` of the concatenation: each key of either array once, keys distinct, and what is kept of the first array comes first |
| ArrayUtils.UniqSnoc | src/utils/array.ts:160-162 | one more element is kept exactly when its key is new |
| ArrayUtils.UniqOfDistinct | src/utils/array.ts:156-165 | an array whose keys are pairwise distinct comes back unchanged |
| ArrayUtils.UniqRepeated | src/utils/array.ts:156-165 | appending elements whose keys are all present already leaves the result unchanged |
| ArrayUtils.UnionByModuloExample | src/utils/array.ts:179-182 | `unionBy([1, 2, 3], [4, 5, 6], x => x % 3)` is `[1, 2, 3]` |
| ArrayUtils.UnionByIdExample | src/utils/array.ts:184-188 | `unionBy([{id: 1}, {id: 2}], [{id: 2}, {id: 3}], o => o.id)` gives ids 1, 2, 3 |
| ServerFnErrors.DefaultStatusCode | src/lib/server-fn-error.ts:24-35 | the table is total over the seven codes; every default lies in 400..599; it is 5xx (500) exactly for OPERATION_FAILED and INTERNAL_ERROR |
| ServerFnErrors.ChosenStatusCode | src/lib/server-fn-error.ts:21 | `??`: a given status always wins, 0 included; the default is used only when none is given |
| ServerFnErrors.ServerFnError.constructor | src/lib/server-fn-error.ts:16-22 | name is "ServerFnError", code and message are kept, the status is the given one or else the code's default |

## Left out

- `hex.encode` and `hex.decode` on `string`, `ArrayBuffer` and typed-array inputs other than bytes: the UTF-8 `TextEncoder`/`TextDecoder` conversions are foreign, lossy code; the model works on bytes and stops `decode` at its byte array.
- `constantTimeEqual` on `string` and `ArrayBuffer` arguments (`src/lib/scrypt.ts:9-17`): the `TextEncoder` conversion is foreign code; both arguments are modelled as byte arrays.
- `hex.encode` on non-`Uint8Array` typed arrays, where `new Uint8Array` converts element by element: only byte input is modelled.
- The scrypt primitive and `normalize('NFKC')`: a library call and Unicode tables, folded into the `KeyDerivation` parameter with its 64-byte output; the `config` constants and the `maxmem` bound are kept in `Scrypt.GenerateKeyOptions`, whose contract checks them against the scrypt parameter limits.
- `crypto.getRandomValues`: the 16 salt bytes are a parameter of `HashPassword`.
- `hexToBytes` from the hashing library: external code, a `HexDecoder` parameter; the round-trip lemmas assume only that it reads back lowercase hex.
- Errors thrown by scrypt itself (for example a `maxmem` violation): the key derivation is modelled as total.
- `async`/`await`: every operation is modelled as sequential.
- Scrypt.ConstantTimeEqual: equality with `a == b` is proved only for lengths below 2^32; beyond that the lengths enter the accumulator modulo 2^32, as JavaScript's `^` converts them to 32-bit integers. Timing itself is not a property Dafny can state; the ghost round count stands for it.
- `flatten` and `flatMap` called without a depth (`src/utils/array.ts:71,114`): the default of 1 is not modelled, and `Flatten` and `FlatMap` always take the depth; a call without it behaves as `Flatten(arr, 1)`.
- `flatten` with a fractional or non-finite depth (`Math.floor`): depths are integers. `Infinity` would open every level, and `NaN` would open none, since `currentDepth < NaN` is false.
- `groupBy`'s JavaScript object: keys are any values with equality rather than property keys coerced to strings, the special key `__proto__` is not modelled, and the object's key order is not modelled (the result is a map).
- `sample`: it draws a random index with floating-point arithmetic.
- `ServerFnError`'s inherited `Error` machinery (stack trace, `instanceof`) and a `statusCode` that is `null`, fractional or not a number: statuses are integers or absent.
- Middlewares, authentication wiring, database and seeding, and the UI: framework plumbing and I/O outside this model.
