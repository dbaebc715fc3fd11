# Agreement vocabulary: message tags and action-kind names

This project models two closed tables from the vocabulary layer of the
go-algorand agreement node, and proves their properties for every input.

- **Message tags** (`Tags`). A tag is the short string that labels the class
  of a wire message. Seventeen tags are registered. `Complement` pairs the
  request tag of each synchronisation sub-protocol with its response tag:
  catch-up (`UC`/`UT`), ensure-block (`UE`/`US`), account (`UA`/`UP`) and
  decommit (`UD`/`UM`). Every other string maps to the unknown tag `"??"`.
  A tag is any string, so the model's `Complement` is total over all strings,
  not just the registered ones. The four sub-protocols form a datatype
  `SyncFamily`, which gives `Complement` an independent reference table.
- **Action-kind names** (`ActionTypes`). The state machine's fifteen action
  kinds have ordinals `noop` = 0 through `checkpoint` = 14. `String` finds a
  kind's name by slicing one concatenated name string at offsets read from a
  byte table. Any ordinal outside 0..14 is rendered as
  `actionType(<signed decimal>)`. The model proves the offset table is sound:
  it starts at 0, rises strictly, ends at the string's length, and each gap is
  one name's length. It proves that each in-range slice is that kind's
  identifier, and that no two ordinals, in range or not, get the same name.
- **Signed decimals** (`Decimal`). These stand in for the standard library's
  integer formatter used in the fallback name. `ParseInt` is its inverse and
  provides the round trip that the injectivity proof depends on.

The source comment says the tags are declared "in lexicographic sort order".
That holds only when letters are compared without regard to case: by raw
character code, `"pj"` sorts after `"PP"`. The model proves both facts, and
derives that the registry has no duplicates from the case-insensitive order.

## Model

| member | source | states |
|---|---|---|
| Tags.Complement | go-algorand/protocol/tags.go:45-66 | Each sub-protocol's request tag maps to its response tag and back. Any string that belongs to no sub-protocol maps to `"??"`. Every result is either `"??"` or a paired tag. |
| Tags.PairedTagsAreTheUniTags | go-algorand/protocol/tags.go:33-40 | The tags that take part in a pairing are exactly the eight `Uni*` constants. |
| Tags.PairingIsInjective | go-algorand/protocol/tags.go:33-40 | No request tag is also a response tag, and different sub-protocols never share a tag. |
| Tags.ComplementInvolution | go-algorand/protocol/tags.go:47-62 | On a paired tag, applying `Complement` twice gives back the original tag, and applying it once never does. |
| Tags.ComplementFixedPoint | go-algorand/protocol/tags.go:45-66 | `Complement(t) == t` holds exactly when `t` is `"??"`. |
| Tags.ComplementThrice | go-algorand/protocol/tags.go:45-66 | For every string, applying `Complement` three times gives the same result as applying it once. |
| Tags.UnpairedRegisteredTags | go-algorand/protocol/tags.go:63-64 | The nine registered tags outside the pairs (`??`, AV, MS, NP, pi, pj, PP, TX, VB) all map to `"??"`. |
| Tags.ComplementStaysInRegistry | go-algorand/protocol/tags.go:46-65 | Every possible result of `Complement` is a registered tag. |
| Tags.RegistryWellFormed | go-algorand/protocol/tags.go:23-42 | There are seventeen registered tags. Each is two characters long, and no two are equal. |
| Tags.RegistrySortedIgnoringCase | go-algorand/protocol/tags.go:23-42 | In declaration order, the tags rise strictly when letters are compared without regard to case. |
| Tags.RegistryNotSortedByCode | go-algorand/protocol/tags.go:29-31 | By raw character code, `"PP"` sorts before `"pj"` even though it is declared after it. |
| Tags.SortedDistinct | go-algorand/protocol/tags.go:23 | Any list in strictly increasing case-insensitive order has no duplicates, which is the point of the declaration order. |
| Decimal.FormatInt | go-algorand/agreement/actiontype_string.go:34 | The result is non-empty. It starts with '-' exactly when the number is negative, and every other character is a digit. |
| Decimal.NatDigits | go-algorand/agreement/actiontype_string.go:34 | The digits of a natural number form a non-empty run of digit characters with no leading zero. There is exactly one digit when the number is below ten. |
| Decimal.FormatIntRoundTrip | go-algorand/agreement/actiontype_string.go:34 | Parsing the decimal rendering of any integer gives back that integer. |
| Decimal.FormatIntInjective | go-algorand/agreement/actiontype_string.go:34 | Different integers are rendered as different strings. |
| ActionTypes.Ordinal | go-algorand/agreement/actiontype_string.go:11-25 | Every action kind's ordinal lies in 0..14 and is the position of that kind's identifier in the list the name tables were generated from. The compile-time guard checks exactly this. |
| ActionTypes.FromOrdinal | go-algorand/agreement/actiontype_string.go:11-25 | An ordinal names a kind exactly when it lies in 0..14, and that kind's ordinal is the one looked up. |
| ActionTypes.OrdinalRoundTrip | go-algorand/agreement/actiontype_string.go:7-26 | Each kind has its own ordinal and every ordinal in 0..14 is used. This is the check the generated compile-time guard performs. |
| ActionTypes.GeneratorInputInOrdinalOrder | go-algorand/agreement/actiontype_string.go:11-25 | The names the tables were generated from are the fifteen kinds' identifiers, listed by ordinal. |
| ActionTypes.NameMatchesGenerator | go-algorand/agreement/actiontype_string.go:28 | The name string is the fifteen identifiers joined in ordinal order. |
| ActionTypes.IndexMatchesGenerator | go-algorand/agreement/actiontype_string.go:30 | Each entry of the index table is where the corresponding identifier starts in the joined string, and the last entry is the total length. |
| ActionTypes.TablesMatchGenerator | go-algorand/agreement/actiontype_string.go:28-30 | Both generated tables agree with the list of kind identifiers. |
| ActionTypes.Offsets | go-algorand/agreement/actiontype_string.go:30 | An offset table has one more entry than there are names. It starts at 0 and ends at the length of the joined names. |
| ActionTypes.SliceRecoversName | go-algorand/agreement/actiontype_string.go:36 | For any list of names, slicing the joined string between consecutive offsets gives back the name at that position. The offsets never decrease, and each gap is that name's length. |
| ActionTypes.IndexTableInvariants | go-algorand/agreement/actiontype_string.go:28-30 | The index table has 16 entries. It starts at 0, rises strictly, and ends at 128, the length of the name string. Each gap is one name's length, and every entry fits in a byte. |
| ActionTypes.String | go-algorand/agreement/actiontype_string.go:32-37 | An ordinal in 0..14 is rendered as that kind's identifier. Any other ordinal is rendered as "actionType(", then a signed decimal that parses back to the ordinal, then ")". |
| ActionTypes.StringExamples | go-algorand/agreement/actiontype_string.go:32-37 | Worked cases: 0 is "noop", 5 is "broadcastVotes", 14 is "checkpoint", 15 is "actionType(15)" and -1 is "actionType(-1)". |
| ActionTypes.NamesDistinguishable | go-algorand/agreement/actiontype_string.go:28 | No kind's name is empty, and none begins with "actionType(". |
| ActionTypes.IdentifierInjective | go-algorand/agreement/actiontype_string.go:28 | Different kinds have different names. |
| ActionTypes.NameIsNotFallback | go-algorand/agreement/actiontype_string.go:33-36 | The name of an in-range ordinal never equals the rendering of an out-of-range one. |
| ActionTypes.StringInjective | go-algorand/agreement/actiontype_string.go:32-37 | Different ordinals always get different names, in range or not. |

## Left out

- Handler registration and dispatch by tag: these are mentioned in the comment at go-algorand/protocol/tags.go:19-20, but they are network plumbing whose code is not part of this model.
- Message encoding and decoding by tag: the code for these is not part of this model.
- The player state machine, the round/period/step clock, the vote and bundle accumulator and the verification dispatcher: these are not part of this model. Modelling them without their code would mean inventing behaviour.
- The compile-time guard at go-algorand/agreement/actiontype_string.go:7-26: this is a Go compiler trick. It is stated as ordinal facts (`ActionTypes.Ordinal`, `ActionTypes.OrdinalRoundTrip`) rather than as array-index code.
- Decimal.FormatInt: this is the model's own signed base-10 renderer, standing in for the standard library's `strconv.FormatInt(int64(i), 10)`. Its internals are not modelled. Only the properties the name table relies on are proved: the sign, the digits and the round trip.
- ActionTypes.String: ordinals are unbounded integers. The Go type's underlying width is not visible here, so the `int64(i)` conversion is taken to be the identity, which it is for every value of a 64-bit signed type.
- ActionTypes.String: Go slices strings by byte, while the model slices by character. Every name is ASCII, so the two agree.
- ActionTypes.ActionTypeName: the generated 128-character literal is written as the join of its fifteen name pieces. It is the same string value. The verifier cannot index into a string literal that long, so the pieces are what it reasons about.
- Tags.Tag: the tag is modelled as a string, as the code has it, not as a fixed-width code. Some descriptions of the registry prefer a fixed-width code.
