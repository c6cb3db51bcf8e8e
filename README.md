# RegExpOptions: a verified model of the option-flag layer

This project models the option-flag layer of the Swift regular-expression
wrapper `Regex`: the public option set `RegExpOptions`, its seven single-bit
flags and `default`, its `hashValue`, the table that pairs each flag with the
flag of the same name in the platform engine (`NSRegularExpression.Options`),
the inverse table built from it by a `reduce`, and the two conversions
`RegExpOptions.ns` (to the engine) and `NSRegularExpression.Options.regex`
(back).

Modules:

- `Bits`: the bit arithmetic on natural numbers, i.e. bit `i`, `Or`, `And` and powers of two. It is the model of Swift's `UInt` bitwise operations.
- `RegExpOptionSet`: `RegExpOptions` as a datatype over a 64-bit `UInt`. It has the seven flags, the `OptionSet` operations the layer relies on (`contains`, `union`, `intersection`, construction from a sequence of members), `default`, and the hash.
- `EngineOptions`: the engine's option type. Its raw values are not visible to the wrapper, so a flag is an abstract name and an option set is a finite set of names. The seven listed flags have named cases; every other engine flag is `Unlisted`.
- `OptionTranslation`: the two tables and the two conversions, with their round trips.
- `Wrappers`: `Option`, used where a Swift operation can trap.

A Swift `Dictionary` is traversed in an unspecified order. Every operation that traverses one takes the order as a parameter `order`. `IsTraversal(order, table)` requires that `order` lists each entry of `table` exactly once. The lemmas prove that no result depends on the order chosen.

## Model

| member | source | states |
|---|---|---|
| RegExpOptionSet.FlagIsSingleBit | Sources/RegExp/RegExpOptions.swift:42-72 | the k-th declared flag has raw value 2^k, and bit k is its only set bit |
| RegExpOptionSet.FlagsAreDistinct | Sources/RegExp/RegExpOptions.swift:42-72 | any two different declared flags are unequal and have no bit in common |
| RegExpOptionSet.AllDeclaredIs127 | Sources/RegExp/RegExpOptions.swift:42-72 | the union of the seven flags has exactly bits 0 to 6 set, so its raw value is 127 |
| RegExpOptionSet.DefaultIsCaseInsensitiveOnly | Sources/RegExp/RegExpOptions.swift:78 | of the seven flags, `default` contains exactly `caseInsensitive`, and its raw value is 1 |
| RegExpOptionSet.ContainsIsBitwiseSuperset | Sources/RegExp/RegExpOptions.swift:128-129 | `contains(member)` holds exactly when every bit of `member` is a bit of the set |
| RegExpOptionSet.ContainsFlag | Sources/RegExp/RegExpOptions.swift:128-129 | a set contains the k-th flag exactly when its bit k is set |
| RegExpOptionSet.HasBitUnion | Sources/RegExp/RegExpOptions.swift:148 | a bit of a union is set exactly when it is set in either operand |
| RegExpOptionSet.HasBitIntersection | Sources/RegExp/RegExpOptions.swift:129 | a bit of an intersection is set exactly when it is set in both operands |
| RegExpOptionSet.UnionIsLeastUpperBound | Sources/RegExp/RegExpOptions.swift:148 | a union contains both operands, and a set contains the union exactly when it contains both |
| RegExpOptionSet.HasBitUnionAll | Sources/RegExp/RegExpOptions.swift:148 | folding union over a sequence sets a bit exactly when the start value or some member has it |
| RegExpOptionSet.HasBitFromSequence | Sources/RegExp/RegExpOptions.swift:78 | a set built from a sequence of members has a bit exactly when some member has it |
| RegExpOptionSet.WithinDeclaredBitsIffNoHighBit | Sources/RegExp/RegExpOptions.swift:29-37 | a raw value is at most 127 exactly when no bit at position 7 or above is set |
| RegExpOptionSet.MaskKeepsDeclaredBits | Sources/RegExp/RegExpOptions.swift:29-37 | masking with the seven flags keeps exactly the bits of the set below 7; it leaves a set within those bits unchanged |
| RegExpOptionSet.HashValue | Sources/RegExp/RegExpOptions.swift:102-105 | `Int(rawValue)` traps exactly when the raw value exceeds `Int.max`; otherwise the hash is a non-negative `Int` that gives back the option set |
| RegExpOptionSet.HashValueTrapsOnTopBit | Sources/RegExp/RegExpOptions.swift:102-105 | option sets with the top bit of `UInt` set (raw values 2^63 and 2^64-1) make `hashValue` trap |
| RegExpOptionSet.HashValueDeterminesOptions | Sources/RegExp/RegExpOptions.swift:102-105 | where the hash does not trap, two option sets have equal hashes exactly when they are equal |
| RegExpOptionSet.HashValueBitPattern | Sources/RegExp/RegExpOptions.swift:102-105 | the corrected hash is total and within `Int`. It agrees with the written hash wherever that one does not trap, and it is the raw value read as a signed bit pattern |
| RegExpOptionSet.HashValueBitPatternInjective | Sources/RegExp/RegExpOptions.swift:102-105 | the corrected hash is equal for two option sets exactly when the sets are equal |
| EngineOptions.EngineFlag.Position | Sources/RegExp/RegExpOptions.swift:109-117 | every listed engine flag has a position below 7 in the table's order, and the flag at that position is itself |
| EngineOptions.InsertAll | Sources/RegExp/RegExpOptions.swift:134 | building an engine option set from a sequence holds exactly the start flags and the members of the sequence |
| OptionTranslation.ForwardTableShape | Sources/RegExp/RegExpOptions.swift:109-117 | the forward table's keys are exactly the seven listed engine flags, and each is paired with the flag at the same position (the same name). No two keys share a value, and its values are exactly the seven declared flags |
| OptionTranslation.LiteralOrderIsTraversal | Sources/RegExp/RegExpOptions.swift:109-117 | the order of the table literal is one traversal of the forward table |
| OptionTranslation.InvertFoldEntries | Sources/RegExp/RegExpOptions.swift:119-123 | when the traversed values are distinct, the fold stores every key under its value and overwrites nothing: its keys are the start keys plus the values, each value maps back to its key, and start entries not reached survive |
| OptionTranslation.InvertTraversal | Sources/RegExp/RegExpOptions.swift:119-123 | folding any traversal of an injective table gives its exact inverse |
| OptionTranslation.InverseTableIsExactInverse | Sources/RegExp/RegExpOptions.swift:109-123 | the inverse table's keys are exactly the seven flags, and the two tables are inverse bijections |
| OptionTranslation.TablesHaveSevenEntries | Sources/RegExp/RegExpOptions.swift:109-123 | both tables have exactly seven entries |
| OptionTranslation.ValuesOfInjective | Sources/RegExp/RegExpOptions.swift:119-123 | a table whose values are distinct has as many values as keys, so inverting it loses no entry |
| OptionTranslation.InverseTableIndependentOfOrder | Sources/RegExp/RegExpOptions.swift:119-123 | the fold builds the same inverse table whatever order it traverses the forward table in |
| OptionTranslation.SelectValues | Sources/RegExp/RegExpOptions.swift:128-132 | filter-then-map yields exactly the values of the entries whose key passes the test |
| OptionTranslation.NsMembership | Sources/RegExp/RegExpOptions.swift:125-136 | `opts.ns` holds an engine flag exactly when it is listed and `opts` contains the same-named flag, i.e. when `opts` has the bit at that flag's position |
| OptionTranslation.NsIndependentOfOrder | Sources/RegExp/RegExpOptions.swift:128-134 | `ns` gives the same set for every traversal order of the inverse table |
| OptionTranslation.NsIgnoresUndeclaredBits | Sources/RegExp/RegExpOptions.swift:125-136 | bits of `opts` above the seven flags do not affect `opts.ns` |
| OptionTranslation.NsPreservesUnion | Sources/RegExp/RegExpOptions.swift:125-136 | `(a ∪ b).ns` is `a.ns ∪ b.ns`, and the empty set maps to the empty set |
| OptionTranslation.NsOfDefault | Sources/RegExp/RegExpOptions.swift:125-136 | `default.ns` is exactly the engine's case-insensitive flag |
| OptionTranslation.RegexBits | Sources/RegExp/RegExpOptions.swift:139-150 | bit i of `nsOpts.regex` is set exactly when i < 7 and `nsOpts` holds the engine flag at position i |
| OptionTranslation.RegexMembership | Sources/RegExp/RegExpOptions.swift:139-150 | `nsOpts.regex` contains a flag exactly when `nsOpts` holds the same-named engine flag, and its raw value is at most 127 |
| OptionTranslation.RegexIndependentOfOrder | Sources/RegExp/RegExpOptions.swift:142-148 | `regex` gives the same option set for every traversal order of the forward table |
| OptionTranslation.RegexPreservesUnion | Sources/RegExp/RegExpOptions.swift:139-150 | `(x ∪ y).regex` is the union of `x.regex` and `y.regex`, and the empty engine set maps to the empty option set |
| OptionTranslation.RegexOfNs | Sources/RegExp/RegExpOptions.swift:125-150 | `opts.ns.regex` is `opts` masked to bits 0 to 6. It is `opts` itself whenever the raw value is at most 127 |
| OptionTranslation.NsOfRegex | Sources/RegExp/RegExpOptions.swift:125-150 | `nsOpts.regex.ns` is `nsOpts` restricted to the seven listed engine flags |

## Left out

- `Sources/RegExp/String+Regex.swift` is not part of this model. Its operators (`=~`, `!~`, `~=`, `split(using:)`, `.r`) only forward to `RegExp` methods that are not part of this model.
- Pattern compilation and matching are not modelled. The wrapper delegates them to Foundation's `NSRegularExpression`.
- The `Hashable` conformance added to `NSRegularExpression.Options` (Sources/RegExp/RegExpOptions.swift:84-93) is not modelled. Engine flags are abstract names here, because their raw values belong to Foundation. It has the same `Int(rawValue)` shape as the hash listed under Findings.
- The internals of Swift's `Dictionary` are not modelled: hashing, buckets and growth. A table is a `map`, and its iteration order is a parameter that every result is proved independent of.
- `OptionSet` library behaviour (`contains`, `union`, `intersection`, `init(_ sequence:)`, array literals) is modelled from its documented meaning on the raw value, not from the standard library's code.
- `EngineOptions.EngineOptionSet` is a set of names. It assumes that the engine's flags are distinct single bits, so that `contains` on an engine option set is set membership.
- `UInt` and `Int` are taken to be 64 bits wide (a 64-bit platform).
- `RegExpOptionSet.HashValueDeterminesOptions`: is proved only where `hashValue` does not trap, because elsewhere the written hash has no value.

## Findings

| source | as written | input that shows it | evidently intended | confidence | as-written member | corrected member |
|---|---|---|---|---|---|---|
| Sources/RegExp/RegExpOptions.swift:102-105 | `hashValue` converts the `UInt` raw value with `Int(rawValue)`, which traps when the value exceeds `Int.max` | `RegExpOptions(rawValue: 0x8000_0000_0000_0000)`, which the public `init(rawValue:)` accepts; hashing it (for example as a `Set` element or dictionary key) traps | a hash defined for every option set, e.g. `Int(bitPattern: rawValue)`, equal to the written one wherever that one does not trap | medium, not executed | RegExpOptionSet.HashValue, RegExpOptionSet.HashValueTrapsOnTopBit | RegExpOptionSet.HashValueBitPattern |
