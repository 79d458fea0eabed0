# MediaType in Dafny

A model of the Swift package `MediaType` (Rotoscope), whose `MediaType` value
wraps one RFC 6838 media-type string such as `text/html; charset=UTF-8` and
derives every component from it on demand.

The model covers:

- the lexer `parse()`, which cuts the raw value at the first `;`, the first
  `/`, the first `.` of the subtype and the last `+`;
- the accessors `type`, `facet`, `tree`, `subtype` and `suffix`;
- the parameter reader `forEach`, the `parameters` dictionary and the
  case-insensitive subscript;
- the component constructor `init(type:facet:subtype:suffix:parameters:)`
  and the rebuilders `adding(parameter:value:)`, `removing(parameter:)`,
  `removingParameters()`, `adding(suffix:)` and `removingSuffix()`;
- `normalized()` and `matches(_:)`;
- the enumerations `TopLevelType`, `Tree` and the older `Type`;
- the `trimmed()` helper;
- the `text` extension: `TextSubtype`, the `text` factories and constant,
  `MarkdownVariant` with its case-insensitive table, the `markdownVariant`
  getter and setter, and `normalize(markdownVariant:)`.

A `MediaType` is a datatype holding its raw string. Pure Swift code is
modelled as functions with lemmas. Each loop over the pairs that `forEach`
yields, and each loop of the lexer and the constructor, is a method. Each
such method is proved equal to a recursive function, and the properties are
proved about that function.

Files:

| file | module | models |
|---|---|---|
| `wrappers.dfy` | `Wrappers` | `Option` |
| `strings.dfy` | `Strings` | `trimmed()`, ASCII `lowercased()`, index and cut helpers, `components(separatedBy:)`, and string order with `sorted()` |
| `top_level_type.dfy` | `TopLevelTypes` | `TopLevelType` |
| `tree.dfy` | `Trees` | `Tree` |
| `legacy_type.dfy` | `LegacyTypes` | `Type` |
| `media_type.dfy` | `MediaTypes` | `MediaType`: lexer, accessors, parameters, constructor, rebuilders, `normalized()`, `matches(_:)` |
| `lexing.dfy` | `Lexing` | the lexer's components are the unique lexed split of the raw value |
| `construction.dfy` | `Construction` | what the constructor's output reads back as |
| `rebuilding.dfy` | `Rebuilding` | what the rebuilders keep and change |
| `normalization.dfy` | `Normalization` | what `normalized()` produces, and idempotence |
| `matching.dfy` | `Matching` | `matches(_:)` stated through the accessors and the subscript |
| `text_types.dfy` | `TextTypes` | `Types/Text.swift` |

Behaviour of the code as written that the model states as it is:

- The facet is compared in `matches(_:)` even when the template has none.
  So `application/vnd.foo` does not match `application`, although
  components missing from the template are documented as not compared
  (`Matching.FacetAlwaysCompared`).
- `normalized()` rewrites neither the `charset` nor the `variant`
  parameter. The repository's tests expect both rewrites
  (`Tests/MediaTypeTests/MediaTypeTests.swift:471-494`), but the code does
  not call `normalize(charset:)` or `normalize(markdownVariant:)`. The model
  follows the code, and `TextTypes.NormalizeVariant` stands on its own.
  The same holds for `matches(_:)`. The fixtures at
  `Tests/MediaTypeTests/MediaTypeTests.swift:614` (`charset=utf-8` against
  `UTF-8`) and `:616` (`variant=commonmark` against `CommonMark`) expect a
  match. The code compares parameter values exactly, so neither matches
  (`Matching.MatchIff`).
- `removingSuffix()` is documented to return the receiver when it has no
  suffix, but the code always rebuilds it. The type goes through
  `TopLevelType(_:)`, only the first value per lowercased name is kept, and
  the constructor trims and sorts. So `TeXt/plain`, which has no suffix,
  comes back as `text/plain` (`Rebuilding.RemoveSuffixRebuilds`). The model
  follows the code.
- `forEach` checks that a value is non-empty before trimming it. So
  `x= ` yields the pair `x` with an empty value. The constructor writes such
  a pair back as `x=`, and `forEach` then skips it. So `normalized()` is not
  idempotent: `a/b; x= ` normalizes to `a/b; x=`, which normalizes to `a/b`
  (`Normalization.BlankNotIdempotent`). Every property that depends on
  values surviving a rebuild is stated either for receivers without blank
  values, or with the empty value mapped to nil.

## Model

| member | source | states |
|---|---|---|
| Strings.Trim | Sources/MediaType/StringProtocol.swift:13-15 | the result has no leading or trailing whitespace and is no longer than the input |
| Strings.TrimUnique | Sources/MediaType/StringProtocol.swift:13-15 | whitespace on both sides of a core without edge whitespace is exactly what is removed |
| Strings.TrimBounds | Sources/MediaType/StringProtocol.swift:13-15 | the result is a slice of the input with only whitespace before and after it |
| Strings.TrimIdempotent | Sources/MediaType/StringProtocol.swift:13-15 | trimming twice is trimming once |
| Strings.TrimNoEdgeSpace | Sources/MediaType/StringProtocol.swift:13-15 | a string without edge whitespace is unchanged |
| Strings.TrimKeeps | Sources/MediaType/StringProtocol.swift:13-15 | a non-whitespace character occurs in the result exactly when it occurs in the input |
| Strings.TrimAllSpace | Sources/MediaType/StringProtocol.swift:13-15 | an all-whitespace string trims to the empty string |
| Strings.TrimAfterSpace | Sources/MediaType/StringProtocol.swift:13-15 | leading whitespace does not change the result |
| Strings.LowerChar | Sources/MediaType/TopLevelType.swift:86 | an ASCII capital maps to its small letter; every other character is unchanged; whitespace is kept |
| Strings.Lower | Sources/MediaType/TopLevelType.swift:86 | same length, each character lowercased in place |
| Strings.LowerIsLower | Sources/MediaType/TopLevelType.swift:86 | the result has no capital letter |
| Strings.LowerIdempotent | Sources/MediaType/TopLevelType.swift:86 | lowercasing twice is lowercasing once |
| Strings.LowerConcat | Sources/MediaType/TopLevelType.swift:86 | lowercasing distributes over concatenation |
| Strings.LowerKeeps | Sources/MediaType/TopLevelType.swift:86 | a character that is not a letter occurs in the result exactly when it occurs in the input |
| Strings.LowerNoEdgeSpace | Sources/MediaType/TopLevelType.swift:86 | lowercasing neither adds nor removes edge whitespace |
| Strings.TrimLower | Sources/MediaType/MediaType.swift:429-432 | trimming and lowercasing commute |
| Strings.IndexOf | Sources/MediaType/MediaType.swift:122 | nil exactly when the character is absent; otherwise the position of its first occurrence |
| Strings.LastIndexOf | Sources/MediaType/MediaType.swift:134 | nil exactly when the character is absent; otherwise the position of its last occurrence |
| Strings.CutFirst | Sources/MediaType/MediaType.swift:122-125 | the string is the prefix, the delimiter and the rest, and the prefix has no delimiter; without one the prefix is the whole string |
| Strings.CutLast | Sources/MediaType/MediaType.swift:134-137 | the string is the prefix, the delimiter and the rest, and the rest has no delimiter; without one the prefix is the whole string |
| Strings.CutFirstAt | Sources/MediaType/MediaType.swift:122-125 | a prefix free of the delimiter is cut off exactly at the delimiter after it |
| Strings.CutFirstAfter | Sources/MediaType/MediaType.swift:122-125 | a prefix free of the delimiter passes through the cut, which falls at the first delimiter after it |
| Strings.CutLastAt | Sources/MediaType/MediaType.swift:134-137 | a rest free of the delimiter is cut off exactly at the delimiter before it |
| Strings.Split | Sources/MediaType/MediaType.swift:270 | at least one piece, no piece holds the separator, and joining the pieces gives the input back |
| Strings.SplitJoin | Sources/MediaType/MediaType.swift:270 | splitting a join of separator-free pieces gives the pieces back |
| Strings.BelowTotal | Sources/MediaType/MediaType.swift:99 | any two strings are ordered one way or the other |
| Strings.BelowTransitive | Sources/MediaType/MediaType.swift:99 | the string order is transitive |
| Strings.BelowAntisymmetric | Sources/MediaType/MediaType.swift:99 | strings ordered both ways are equal |
| Strings.SortedKeys | Sources/MediaType/MediaType.swift:99 | the keys exactly once each, in strictly ascending order |
| Strings.AscendingUnique | Sources/MediaType/MediaType.swift:99 | two strictly ascending sequences with the same members are equal, so the sorted order is unique |
| TopLevelTypes.RegisteredNamed | Sources/MediaType/TopLevelType.swift:86-108 | a match is a registered case whose raw value is the lowercased input; no match means the input is none of the eleven tokens |
| TopLevelTypes.FromRawValue | Sources/MediaType/TopLevelType.swift:82-112 | nil exactly for the empty string; a registered case when the lowercased input is its token; otherwise `other` of the trimmed input |
| TopLevelTypes.Of | Sources/MediaType/TopLevelType.swift:124-129 | defined for non-empty input and equal to the failable initializer's result |
| TopLevelTypes.RegisteredRoundTrip | Sources/MediaType/TopLevelType.swift:46-112 | parsing a registered case's raw value gives the case back |
| TopLevelTypes.OtherRoundTrip | Sources/MediaType/TopLevelType.swift:71-111 | parsing the raw value of `other(s)` gives it back when `s` is non-empty, trimmed and not a registered token |
| TopLevelTypes.UnregisteredNamed | Sources/MediaType/TopLevelType.swift:86-110 | a name that is none of the tokens reaches the default branch |
| TopLevelTypes.OtherRoundTripOnlyIfCanonical | Sources/MediaType/TopLevelType.swift:109-111 | only such names round-trip; padding, emptiness or a registered spelling is lost |
| TopLevelTypes.RawValueTrimmed | Sources/MediaType/TopLevelType.swift:46-75 | a raw value that parses back is non-empty and has no edge whitespace |
| TopLevelTypes.Reparse | Sources/MediaType/TopLevelType.swift:82-129 | re-parsing the trimmed raw value of `TopLevelType(s)` gives the type of the trimmed `s`; it is blank exactly when `s` is |
| TopLevelTypes.OfKeeps | Sources/MediaType/TopLevelType.swift:86-111 | the raw value adds no punctuation that the input lacks |
| TopLevelTypes.OfKeepsTrimmed | Sources/MediaType/TopLevelType.swift:86-111 | the trimmed raw value adds no punctuation that the input lacks |
| TopLevelTypes.LowerOf | Sources/MediaType/TopLevelType.swift:86-111 | lowercasing the input first keeps a registered case and lowercases an `other` name |
| TopLevelTypes.CanonicalOf | Sources/MediaType/TopLevelType.swift:82-111 | a lowercase name without edge whitespace is its own raw value and parses back |
| TopLevelTypes.CanonicalLowerTrim | Sources/MediaType/TopLevelType.swift:82-111 | the type of a trimmed, lowercased, non-blank name has that name as its raw value and parses back |
| TopLevelTypes.LowerRawValueOf | Sources/MediaType/TopLevelType.swift:82-111 | the lowercased raw value of `TopLevelType(s)` is the lowercased `s` |
| TopLevelTypes.DescriptionRoundTrip | Sources/MediaType/TopLevelType.swift:157-161 | the description parses back to the value it describes |
| TopLevelTypes.MixedCaseText | Tests/MediaTypeTests/MediaTypeTests.swift:145-147 | `TeXt` is `.text`, whose raw value is `text` |
| TopLevelTypes.PaddedText | Sources/MediaType/TopLevelType.swift:86-111 | `" text"` is `.other("text")`, because the switch looks at the untrimmed input |
| Trees.RawValue | Sources/MediaType/Tree.swift:25-40 | every raw value is lowercase |
| Trees.FromRawValue | Sources/MediaType/Tree.swift:47-61 | never nil; standards exactly for the empty facet; the reserved trees match case-insensitively; any other facet is `other` of its lowercased name |
| Trees.Of | Sources/MediaType/Tree.swift:74-79 | the same as the failable initializer, whose failure cannot happen |
| Trees.RoundTrip | Sources/MediaType/Tree.swift:25-61 | parsing a raw value gives the tree back when an `other` name is lowercase and not reserved |
| Trees.UpperCaseVendor | Sources/MediaType/Tree.swift:48-53 | `VND` is the vendor tree |
| Trees.DescriptionRoundTrip | Sources/MediaType/Tree.swift:104-113 | the description parses back, except the `[standards]` placeholder, which parses to `other` |
| LegacyTypes.RegisteredNamed | Sources/MediaType/Type.swift:81-101 | a match is a registered case with that raw value; no match means no registered token |
| LegacyTypes.FromRawValue | Sources/MediaType/Type.swift:77-105 | nil exactly for the empty string; otherwise a registered case matched case-insensitively, or `other` of the trimmed input |
| LegacyTypes.Of | Sources/MediaType/Type.swift:117-122 | defined for non-empty input and equal to the failable initializer's result |
| LegacyTypes.RegisteredRoundTrip | Sources/MediaType/Type.swift:43-105 | parsing a registered case's raw value gives the case back |
| LegacyTypes.HapticsIsOther | Sources/MediaType/Type.swift:81-104 | without a `haptics` case, `Haptics` becomes `other("Haptics")` |
| MediaTypes.FromRawValue | Sources/MediaType/MediaType.swift:64-69 | nil exactly for the empty string; otherwise the string is kept verbatim |
| MediaTypes.Lex | Sources/MediaType/MediaType.swift:115-139 | the lexer's narrowing of local spans computes the components of `parse()` |
| MediaTypes.LexSubtype | Sources/MediaType/MediaType.swift:130-137 | the facet and suffix cuts of the subtype compute the components of `parse()` |
| Lexing.ParseSpec | Sources/MediaType/MediaType.swift:115-139 | the components are cut at the first `;`, first `/`, first `.` and last `+`, and reassembling them gives the raw value back |
| Lexing.ParseUnique | Sources/MediaType/MediaType.swift:115-139 | components cut that way that reassemble to a string are the ones `parse()` returns for it |
| Lexing.ReassembledType | Sources/MediaType/MediaType.swift:115-130 | a type free of `;` and `/` is what `parse()` reads back, whatever follows the `/` |
| Lexing.ReassembledParams | Sources/MediaType/MediaType.swift:115-125 | when nothing in front holds a `;`, `parse()` reads back the parameter block |
| Lexing.ParseSubtypeSpec | Sources/MediaType/MediaType.swift:130-137 | the subtype text splits into a lexed facet, subtype and suffix that reassemble to it |
| Lexing.ParseSubtypeUnique | Sources/MediaType/MediaType.swift:130-137 | a lexed facet, subtype and suffix are recovered from their text |
| Lexing.WithoutSubtype | Sources/MediaType/MediaType.swift:156-205 | without a subtype there is no facet and no suffix, and the tree is standards |
| Lexing.FacetAtFirstPeriod | Sources/MediaType/MediaType.swift:130-133 | the facet ends at the first `.`, and the rest is the subtype |
| Lexing.SuffixAtLastPlus | Sources/MediaType/MediaType.swift:134-137 | the suffix follows the last `+` |
| Lexing.EmptySubtype | Tests/MediaTypeTests/MediaTypeTests.swift:135 | `type/` has a present but empty subtype, and its type is that of the trimmed type text |
| MediaTypes.TreeOf | Sources/MediaType/MediaType.swift:169-185 | standards exactly without a facet; otherwise the tree's raw value is the lowercased facet, and `other` keeps the facet's spelling |
| MediaTypes.TreeNamed | Sources/MediaType/MediaType.swift:174-183 | a present facet never gives standards; the raw value is the lowercased facet |
| MediaTypes.Segment | Sources/MediaType/MediaType.swift:271-279 | a pair from a segment without `;` is trimmed and free of delimiters |
| MediaTypes.SegmentOf | Sources/MediaType/MediaType.swift:271-279 | `name=value` yields the trimmed pair exactly when both sides are non-empty before trimming |
| MediaTypes.SegmentWithoutEquals | Sources/MediaType/MediaType.swift:271-273 | a segment without `=` yields nothing |
| MediaTypes.Segments | Sources/MediaType/MediaType.swift:267-270 | the segments of the parameter text hold no `;` |
| MediaTypes.Collect | Sources/MediaType/MediaType.swift:270-280 | at most one pair per segment, every pair clean |
| MediaTypes.Params | Sources/MediaType/MediaType.swift:266-281 | every pair yielded is trimmed and holds no delimiter |
| MediaTypes.CollectPairs | Sources/MediaType/MediaType.swift:270-280 | the loop over the segments yields the pairs in order |
| MediaTypes.ForEach | Sources/MediaType/MediaType.swift:266-281 | `forEach` yields exactly the pairs of the parameter text |
| MediaTypes.LookupNone | Sources/MediaType/MediaType.swift:315-327 | the subscript is nil exactly when no name matches case-insensitively |
| MediaTypes.LookupAt | Sources/MediaType/MediaType.swift:315-327 | the subscript returns the value of the first matching pair |
| MediaTypes.FirstMatch | Sources/MediaType/MediaType.swift:317-326 | the loop keeps the first case-insensitive match |
| MediaTypes.Subscript | Sources/MediaType/MediaType.swift:315-328 | the subscript reads the first matching pair of `forEach` |
| MediaTypes.LowerNames | Sources/MediaType/MediaType.swift:292-297 | the set holds exactly the lowercased names seen |
| MediaTypes.FirstSpellings | Sources/MediaType/MediaType.swift:291-301 | the loop of `parameters` builds the first-spelling dictionary |
| MediaTypes.Parameters | Sources/MediaType/MediaType.swift:289-303 | `parameters` is that dictionary over the pairs of `forEach` |
| MediaTypes.FirstNamedKeys | Sources/MediaType/MediaType.swift:289-303 | every key of `parameters` is spelled as some pair spells it |
| MediaTypes.FirstNamedCovers | Sources/MediaType/MediaType.swift:289-303 | every name seen has a key, up to case |
| MediaTypes.FirstNamedDistinct | Sources/MediaType/MediaType.swift:289-303 | no two keys are equal up to case |
| MediaTypes.FirstNamedValues | Sources/MediaType/MediaType.swift:289-303 | each key holds what the subscript returns for it, the first value |
| MediaTypes.FirstByLowerNameSpec | Sources/MediaType/MediaType.swift:223-230 | the keys are the lowercased names, and each holds the subscript's first value |
| MediaTypes.UnmatchedKeys | Sources/MediaType/MediaType.swift:350-356 | the keys are exactly the spellings that do not match the removed name |
| MediaTypes.UnmatchedValues | Sources/MediaType/MediaType.swift:350-356 | each key holds the value of the last pair with that exact spelling |
| MediaTypes.Fold | Sources/MediaType/MediaType.swift:98-100 | the `reduce` appends `; name=value` for each sorted key, names trimmed and values verbatim |
| MediaTypes.SubtypeClosure | Sources/MediaType/MediaType.swift:91-97 | the closure mapped over the subtype writes `/`, the facet and `.`, the trimmed subtype, and `+` with the trimmed suffix |
| MediaTypes.Compose | Sources/MediaType/MediaType.swift:87-103 | the constructor's appends build the specified string |
| MediaTypes.OtherNames | Sources/MediaType/MediaType.swift:352-356 | the loop of the parameter rebuilders keeps the pairs whose name does not match |
| MediaTypes.Adding | Sources/MediaType/MediaType.swift:342-360 | `adding(parameter:value:)` rebuilds with the other pairs plus the new one |
| MediaTypes.Removing | Sources/MediaType/MediaType.swift:366-383 | `removing(parameter:)` rebuilds with the other pairs |
| MediaTypes.FirstValues | Sources/MediaType/MediaType.swift:223-230 | the loop keeps the first value of each lowercased name |
| MediaTypes.AddingSuffix | Sources/MediaType/MediaType.swift:214-233 | `adding(suffix:)` returns the receiver for an empty suffix and otherwise rebuilds with it |
| MediaTypes.RemovingSuffix | Sources/MediaType/MediaType.swift:238-254 | `removingSuffix()` rebuilds without a suffix |
| MediaTypes.Normalized | Sources/MediaType/MediaType.swift:426-443 | `normalized()` rebuilds from the trimmed, lowercased pieces and the first value per lowercased name |
| MediaTypes.AllFound | Sources/MediaType/MediaType.swift:542-548 | the loop succeeds exactly when every template pair is the receiver's first match |
| MediaTypes.Matches | Sources/MediaType/MediaType.swift:523-550 | `matches(_:)` computes the specified match |
| Construction.SerializeJoin | Sources/MediaType/MediaType.swift:98-100 | the parameter text is `;` followed by the entries joined with `;` |
| Construction.EntrySegment | Sources/MediaType/MediaType.swift:271-279 | one written entry reads back as its trimmed pair, or as nothing for an empty value |
| Construction.CollectEntries | Sources/MediaType/MediaType.swift:266-281 | the written entries read back as the pairs of the keys in order |
| Construction.MakeReassembles | Sources/MediaType/MediaType.swift:87-103 | the constructor's string is the reassembly of its trimmed pieces |
| Construction.ParamsBlock | Sources/MediaType/MediaType.swift:98-100 | no parameter text for nil or an empty dictionary, and otherwise `;` followed by the joined entries |
| Construction.MakeParses | Sources/MediaType/MediaType.swift:87-139 | when its pieces lex, `parse()` of the constructor's string gives them back |
| Construction.ComposableLexed | Sources/MediaType/MediaType.swift:87-103 | pieces free of the delimiters give lexed components |
| Construction.ParamsOfMake | Sources/MediaType/MediaType.swift:87-103 | the pairs read back are those of the sorted keys with non-empty values, trimmed |
| Construction.LookupPairsAt | Sources/MediaType/MediaType.swift:315-327 | a name that matches one key reads that key's trimmed value, or nil for an empty one |
| Construction.MadeLookup | Sources/MediaType/MediaType.swift:87-103 | the subscript of a built value reads the trimmed value of the one key that matches the name, or nil for an empty value |
| Construction.MadeTypeText | Sources/MediaType/MediaType.swift:87-139 | `parse()` reads back the constructor's trimmed type, whatever the other pieces hold |
| Construction.MadeLookupNone | Sources/MediaType/MediaType.swift:87-103 | a name that matches no key reads nil |
| Construction.MadeAccessors | Sources/MediaType/MediaType.swift:87-103 | the accessors read back the trimmed facet, subtype and suffix; facet and suffix only with a subtype |
| Construction.MadeType | Sources/MediaType/MediaType.swift:87-103 | `type` reads back the type it was built with when that type's raw value parses back |
| Rebuilding.OwnSuffixFits | Sources/MediaType/MediaType.swift:342-349 | the receiver's own suffix always fits its subtype |
| Rebuilding.RebuildComposable | Sources/MediaType/MediaType.swift:218-232 | the receiver's pieces, given back to the constructor with a fitting suffix, lex as before |
| Rebuilding.RebuildPieces | Sources/MediaType/MediaType.swift:218-232 | a rebuild keeps facet and subtype and sets the suffix |
| Rebuilding.RebuildType | Sources/MediaType/MediaType.swift:220 | a rebuild keeps the type, and whether there is one, for any new suffix |
| Rebuilding.RebuildTypeText | Sources/MediaType/MediaType.swift:220 | the type `parse()` reads from a rebuild is the trimmed raw value of the receiver's type, whatever the suffix |
| Rebuilding.RebuildParamsText | Sources/MediaType/MediaType.swift:214-254 | the parameter block `parse()` reads from a rebuild is the one the constructor wrote, for any suffix free of `;` |
| Rebuilding.RebuildParams | Sources/MediaType/MediaType.swift:214-254 | the pairs read back from a rebuild are the same for any suffix free of `;` as for the receiver's own suffix |
| Rebuilding.LookupLower | Sources/MediaType/MediaType.swift:321 | the subscript only sees its name up to case |
| Rebuilding.UnmatchedWellFormed | Sources/MediaType/MediaType.swift:350-356 | the dictionary of the parameter rebuilders holds clean keys and values, none matching the removed name |
| Rebuilding.UnmatchedAgrees | Sources/MediaType/MediaType.swift:350-356 | for a receiver without duplicate names or blank values, each kept key holds what the subscript reads |
| Rebuilding.UnmatchedCovers | Sources/MediaType/MediaType.swift:350-356 | every other name the subscript finds is kept |
| Rebuilding.UnmatchedDistinct | Sources/MediaType/MediaType.swift:350-356 | the kept keys are distinct up to case |
| Rebuilding.RebuiltOthers | Sources/MediaType/MediaType.swift:342-383 | a parameter rebuild keeps what the subscript reads for every other name |
| Rebuilding.ParameterRebuildKeeps | Sources/MediaType/MediaType.swift:342-395 | the parameter rebuilders keep type, facet, subtype and suffix |
| Rebuilding.AddedMap | Sources/MediaType/MediaType.swift:350-357 | the dictionary of `adding(parameter:value:)` holds the kept pairs and the new name and is distinct up to case |
| Rebuilding.NameUnmatched | Sources/MediaType/MediaType.swift:352-357 | the new name is never among the kept keys |
| Rebuilding.AddedKeys | Sources/MediaType/MediaType.swift:350-357 | for every receiver, the dictionary of `adding(parameter:value:)` is well formed, and the new name is its only key that matches the trimmed name |
| Rebuilding.AddParameterSets | Sources/MediaType/MediaType.swift:342-360 | for every receiver, including ones with repeated names or blank values, the added name, trimmed, reads back the trimmed value, or nil for an empty value |
| Rebuilding.AddParameterKeeps | Sources/MediaType/MediaType.swift:342-360 | every other name reads back what it read before |
| Rebuilding.RemoveParameterClears | Sources/MediaType/MediaType.swift:366-383 | the removed name reads back nil, whatever the receiver held |
| Rebuilding.RemoveParameterKeeps | Sources/MediaType/MediaType.swift:366-383 | every other name reads back what it read before |
| Rebuilding.RemoveParametersClears | Sources/MediaType/MediaType.swift:386-395 | no pair is left |
| Rebuilding.ByLowerNameMap | Sources/MediaType/MediaType.swift:223-230 | the first-value dictionary has trimmed, lowercase keys that are distinct and well formed |
| Rebuilding.ByLowerNameLookup | Sources/MediaType/MediaType.swift:214-254 | for any suffix free of `;`, the suffix rebuilders keep what the subscript reads for every name, except that an empty value becomes nil |
| Rebuilding.MadeFirstValues | Sources/MediaType/MediaType.swift:223-232 | building from the first-value dictionary keeps every lookup, except that an empty value becomes nil |
| Rebuilding.AddSuffixSets | Sources/MediaType/MediaType.swift:214-233 | `adding(suffix:)` sets the trimmed suffix when there is a subtype, keeps type, facet and subtype, and returns the receiver for an empty suffix |
| Rebuilding.AddSuffixParams | Sources/MediaType/MediaType.swift:214-233 | for a suffix free of `;`, it keeps every parameter lookup, except that an empty value becomes nil |
| Rebuilding.RemoveSuffixClears | Sources/MediaType/MediaType.swift:238-254 | `removingSuffix()` leaves no suffix and keeps type, facet and subtype |
| Rebuilding.RemoveSuffixParams | Sources/MediaType/MediaType.swift:238-254 | for every rebuildable receiver, it keeps every parameter lookup, except that an empty value becomes nil |
| Rebuilding.DoublePlusParse | Tests/MediaTypeTests/MediaTypeTests.swift:265-267 | `type/a+b+x` has subtype `a+b` and suffix `x` |
| Rebuilding.RemoveSuffixReexposes | Sources/MediaType/MediaType.swift:238-254 | removing the suffix of `type/a+b+x` exposes `b` as the new suffix |
| Rebuilding.RemoveSuffixOfPlain | Sources/MediaType/MediaType.swift:235-254 | a receiver `type/subtype` without a suffix or parameters is still rebuilt, into the trimmed raw value of its type, `/` and the subtype |
| Rebuilding.RemoveSuffixChanges | Sources/MediaType/MediaType.swift:235-254 | such a receiver whose type text is not its own trimmed raw value comes back with a different raw value, contrary to the documented "returns the receiver" |
| Rebuilding.RemoveSuffixRebuilds | Sources/MediaType/MediaType.swift:235-254 | `TeXt/plain`, which has no suffix, comes back as `text/plain` |
| Normalization.Lowered | Sources/MediaType/MediaType.swift:430-432 | present exactly when the input is, with the same length and no capital letter |
| Normalization.LowerTrimStable | Sources/MediaType/MediaType.swift:429-432 | a trimmed, lowercased piece is unchanged by trimming and lowercasing again |
| Normalization.LowerTrimmedStable | Sources/MediaType/MediaType.swift:430-432 | the same for the optional pieces |
| Normalization.NormalLexed | Sources/MediaType/MediaType.swift:426-443 | the normalized pieces of lexed components still lex |
| Normalization.NormalComposable | Sources/MediaType/MediaType.swift:426-443 | the pieces `normalized()` hands to the constructor are free of delimiters |
| Normalization.NormalTypeCanonical | Sources/MediaType/MediaType.swift:429 | the normalized type's raw value is the trimmed, lowercased type text, and it parses back |
| Normalization.NormalPieces | Sources/MediaType/MediaType.swift:426-443 | the normalized value's components are the lowercased type, facet, subtype and suffix of the receiver |
| Normalization.NormalParsed | Sources/MediaType/MediaType.swift:426-443 | its components are those the constructor writes for them |
| Normalization.NormalizeParts | Sources/MediaType/MediaType.swift:426-443 | a registered type is kept and an `other` name is lowercased; facet, subtype and suffix are lowercased |
| Normalization.NormalizeLookup | Sources/MediaType/MediaType.swift:435-442 | every name reads back the receiver's first value, except that an empty value becomes nil |
| Normalization.LowerNamesLookup | Sources/MediaType/MediaType.swift:435-440 | a key of the first-value dictionary is a lowercase name that the subscript finds |
| Normalization.NoBlankLookup | Sources/MediaType/MediaType.swift:435-442 | without blank values, every lookup is kept exactly |
| Normalization.SameFirstValues | Sources/MediaType/MediaType.swift:435-440 | without blank values, the normalized value has the same first-value dictionary |
| Normalization.NormalizeIdempotent | Sources/MediaType/MediaType.swift:426-443 | without blank values, normalizing twice is normalizing once |
| Normalization.BlankSegment | Sources/MediaType/MediaType.swift:271-279 | `name=` followed by whitespace yields the pair with an empty value, because the emptiness test comes before trimming |
| Normalization.BlankFirstValues | Sources/MediaType/MediaType.swift:435-440 | blank pairs give a non-empty first-value dictionary whose values are all empty |
| Normalization.BlankPairs | Sources/MediaType/MediaType.swift:98-100 | keys whose values are all empty are written as `name=` but read back as no pair |
| Normalization.BlankNormalParams | Sources/MediaType/MediaType.swift:426-443 | normalizing blank pairs writes a parameter text that reads back as no pair |
| Normalization.BlankNotIdempotent | Sources/MediaType/MediaType.swift:426-443 | when every pair is blank, normalizing twice differs from normalizing once |
| Matching.NormalParams | Sources/MediaType/MediaType.swift:544-548 | the pairs of a normalized value are those of the first-value dictionary in key order |
| Matching.ContainsIfAgrees | Sources/MediaType/MediaType.swift:542-548 | a receiver that agrees with the template passes the parameter loop |
| Matching.ContainsAgrees | Sources/MediaType/MediaType.swift:542-548 | the parameter loop passes exactly when every non-blank template parameter reads the same from the receiver |
| Matching.MatchIff | Sources/MediaType/MediaType.swift:523-550 | equal values match; otherwise the lowercased type and facet must agree, the template's subtype and suffix constrain only when present, and every non-blank template parameter must read the same |
| Matching.NormalEqualAgrees | Sources/MediaType/MediaType.swift:527-548 | values that normalize alike agree on every non-blank parameter |
| Matching.NormalEqualMatch | Sources/MediaType/MediaType.swift:523-550 | values that normalize alike match each other both ways |
| Matching.SubtypeAsymmetry | Sources/MediaType/MediaType.swift:536-538 | a receiver without a subtype never matches a different template with one |
| Matching.BareTemplate | Sources/MediaType/MediaType.swift:533-548 | a bare-type template matches every receiver of that type without a facet |
| Matching.FacetAlwaysCompared | Sources/MediaType/MediaType.swift:534 | a receiver with a facet never matches a different template without a subtype |
| TextTypes.SubtypeNamed | Sources/MediaType/Types/Text.swift:27-45 | a raw value names the subtype whose raw value it is, case-sensitively |
| TextTypes.SubtypeRoundTrip | Sources/MediaType/Types/Text.swift:27-45 | every subtype is recovered from its raw value, so the raw values are distinct |
| TextTypes.SubtypeRawValueClean | Sources/MediaType/Types/Text.swift:27-45 | the raw values are non-empty and hold no delimiter of a media type |
| TextTypes.TypeOnlyParts | Sources/MediaType/MediaType.swift:87-103 | a registered type named by a token, with nothing else, is written as that name alone and reads back as that type with no other component |
| TextTypes.TypeSubtypeParts | Sources/MediaType/MediaType.swift:87-103 | such a type with a subtype free of `;`, `.` and `+` is written `type/subtype` and reads back the type, the trimmed subtype, and no facet, suffix or parameter |
| TextTypes.TextNamedRawValue | Sources/MediaType/Types/Text.swift:64-66 | `text(s)` is `text/` followed by the trimmed `s` |
| TextTypes.TextNamedParts | Sources/MediaType/Types/Text.swift:64-66 | `text(s)` has type `text`, subtype the trimmed `s`, and no facet, suffix or parameter |
| TextTypes.TextOfParts | Sources/MediaType/Types/Text.swift:56-58 | `text(.x)` is `text/` and the raw value, case kept (`text/SGML`), with that subtype |
| TextTypes.BareTextParts | Sources/MediaType/Types/Text.swift:75 | the `text` constant is `text`, with type `text` and no other component |
| TextTypes.TextOfMatchesBare | Sources/MediaType/Types/Text.swift:56-75 | every `text(.x)` matches the `text` constant, and the constant matches none of them |
| TextTypes.Key | Sources/MediaType/Types/Text.swift:96 | the table key of each variant is its lowercased raw value |
| TextTypes.KeysDistinct | Sources/MediaType/Types/Text.swift:81-96 | no two variants share a lowercased raw value |
| TextTypes.Table | Sources/MediaType/Types/Text.swift:93-98 | every entry is a case of the fold, stored under its lowercased raw value |
| TextTypes.TableAt | Sources/MediaType/Types/Text.swift:93-98 | every case of the fold is found under its lowercased raw value |
| TextTypes.VariantTableSpec | Sources/MediaType/Types/Text.swift:93-98 | the table built from `allCases` holds every variant under its lowercased raw value |
| TextTypes.VariantFromString | Sources/MediaType/Types/Text.swift:101-107 | a variant found has the input as its raw value, up to case |
| TextTypes.VariantFromStringIff | Sources/MediaType/Types/Text.swift:101-107 | a string names a variant exactly when it equals that variant's raw value up to case |
| TextTypes.VariantFromStringNone | Sources/MediaType/Types/Text.swift:104-106 | nil exactly when the string is no variant's raw value up to case |
| TextTypes.VariantRoundTrip | Sources/MediaType/Types/Text.swift:81-107 | every variant is recovered from its raw value, and from its lowercased raw value |
| TextTypes.VariantExamples | Sources/MediaType/Types/Text.swift:101-107 | `gfm` names `GFM`, and `commonmark` names `CommonMark` |
| TextTypes.UnknownVariant | Sources/MediaType/Types/Text.swift:104-106 | `unknown` names no variant |
| TextTypes.MarkdownVariantOfIff | Sources/MediaType/Types/Text.swift:118-125 | the getter returns a variant exactly when the `variant` parameter reads its raw value up to case |
| TextTypes.WithMarkdownVariantSets | Sources/MediaType/Types/Text.swift:129-131 | for every rebuildable receiver, after the setter the getter returns the variant set |
| TextTypes.WithMarkdownVariantKeeps | Sources/MediaType/Types/Text.swift:129-131 | the setter keeps every other parameter and the type, facet, subtype and suffix |
| TextTypes.NormalizeVariant | Sources/MediaType/Types/Text.swift:134-140 | the result equals the input up to case and names the same variant, or none; an unrecognised input comes back unchanged |
| TextTypes.NormalizeVariantCanonical | Sources/MediaType/Types/Text.swift:134-137 | a recognised name becomes the declared raw value of its variant |
| TextTypes.NormalizeVariantIdempotent | Sources/MediaType/Types/Text.swift:134-140 | normalizing twice is normalizing once |

## Left out

- Unicode. Whitespace is space and tab only, where `.whitespaces` also holds other Unicode spaces. Lowercasing maps ASCII capitals only. `String` `<` is code-point lexicographic order. The strings of the model are sequences of characters, with no grapheme clustering.
- `Codable` (`Sources/MediaType/MediaType.swift:463-491`): encoding and decoding are I/O. The decoder's rejection of an empty string is the failable initializer, which is modelled.
- The string-literal initializers of `MediaType`, `TopLevelType`, `Tree` and `Type`: each is a failable initializer with a precondition failure on nil. Those failable initializers are modelled.
- `description` of `MediaType` (`Sources/MediaType/MediaType.swift:498-502`), which is the raw value, and the `~=` operator (`Sources/MediaType/MediaType.swift:561-563`), which is `matches(_:)`.
- `Hashable` and `Sendable`. For `MediaType`, the synthesized equality is equality of raw values, which datatype equality gives. For the enums (`TopLevelType`, `Tree` and the legacy `Type`), equality is by case and payload, which datatype equality also gives. So `.other("text")` and `.text` differ although they share the raw value `text`.
- The `charset` getter, setter and `normalize(charset:)` (`Sources/MediaType/Types/Text.swift:150-172`). They depend on the `IANACharset` package, which is not part of this model.
- The factories and constants of the other type extensions, the uniform type identifiers and the formatting and filename helpers are not part of this model.
- Rebuilding.RebuildPieces, Rebuilding.AddSuffixSets, Rebuilding.RemoveSuffixClears: stated for a new suffix that fits the subtype (no `;`, no `+`, and no `.` without a facet). Otherwise `parse()` cuts the rebuilt subtype and suffix elsewhere; Rebuilding.RemoveSuffixReexposes shows it.
- Rebuilding.ByLowerNameLookup, Rebuilding.AddSuffixParams: stated for a suffix free of `;`. A `;` in the suffix moves the start of the parameter block.
- Rebuilding.AddParameterSets, Rebuilding.AddedKeys: stated for a name without `;` or `=` and a value without `;`. Otherwise `parse()` cuts the written pair elsewhere.
- Rebuilding.AddParameterKeeps, Rebuilding.RemoveParameterKeeps, Rebuilding.RebuiltOthers, Rebuilding.UnmatchedAgrees: stated for receivers without a repeated name (up to case) or a blank value, and for a name and value without `;` or `=` in the name. Otherwise the kept dictionary does not reproduce what the subscript read.
- Normalization.NormalizeIdempotent, Normalization.NoBlankLookup, Normalization.SameFirstValues: stated for receivers without blank parameter values. A blank first value is written as `name=` and then skipped when read, so a second normalization can drop it; Normalization.BlankNotIdempotent proves that it does.
- TextTypes.TextNamedParts: stated for subtypes without `;`, `.` or `+`. With one of these, `parse()` reads part of the subtype as a facet, a suffix or parameters.
- TextTypes.WithMarkdownVariantKeeps: stated for receivers without a repeated name or a blank value, for the same reason as Rebuilding.AddParameterKeeps.
- Matching.FacetAlwaysCompared records the code as written. It is not corrected, because the documentation does not list the facet among the compared components.
